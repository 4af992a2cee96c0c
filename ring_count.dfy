/** The RingCount descriptor: counts the rings of a ring list (the SSSR rings,
    or the fused ring systems) that pass a size filter, an aromaticity filter
    and a heteroatom filter; enumerates its standard battery of instances; and
    renders its short-code display name. */
module RingCounting {
  import opened Common

  /** The parameter tuple of one RingCount instance (`order`, `greater`,
      `fused`, `aromatic`, `hetero`); its constructor is the source's
      `__init__`, which stores each argument unchanged; an omitted argument
      takes `__init__`'s default. */
  datatype RingCount = RingCount(
    order: Option<int> := None,
    greater: bool := false,
    fused: bool := false,
    aromatic: Option<bool> := None,
    hetero: Option<bool> := None)

  // ---------------------------------------------------------------------
  // The three filters and the count
  // ---------------------------------------------------------------------

  /** Size filter: any size without an order, at least `order` atoms with
      `greater`, exactly `order` atoms otherwise. */
  predicate CheckOrder(rc: RingCount, r: Ring)
  {
    match rc.order
    case None => true
    case Some(n) => if rc.greater then |r| >= n else |r| == n
  }

  /** Every atom of the ring is flagged aromatic. */
  predicate IsAromaticRing(mol: Molecule, r: Ring)
    requires RingIn(mol, r)
  {
    forall i :: i in r ==> mol[i].aromatic
  }

  predicate CheckArom(rc: RingCount, mol: Molecule, r: Ring)
    requires RingIn(mol, r)
  {
    match rc.aromatic
    case None => true
    case Some(wanted) => if wanted then IsAromaticRing(mol, r) else !IsAromaticRing(mol, r)
  }

  /** Some atom of the ring is not a carbon (atomic number other than 6). */
  predicate HasHeteroAtom(mol: Molecule, r: Ring)
    requires RingIn(mol, r)
  {
    exists i :: i in r && mol[i].atomicNum != 6
  }

  predicate CheckHetero(rc: RingCount, mol: Molecule, r: Ring)
    requires RingIn(mol, r)
  {
    match rc.hetero
    case None => true
    case Some(wanted) => if wanted then HasHeteroAtom(mol, r) else !HasHeteroAtom(mol, r)
  }

  predicate Accepts(rc: RingCount, mol: Molecule, r: Ring)
    requires RingIn(mol, r)
  {
    CheckOrder(rc, r) && CheckArom(rc, mol, r) && CheckHetero(rc, mol, r)
  }

  /** `calculate`: the number of rings of `rs` that pass all three filters,
      a whole number between none and all of them. */
  function Calculate(rc: RingCount, mol: Molecule, rs: seq<Ring>): (n: nat)
    requires RingsIn(mol, rs)
    ensures n <= |rs|
  {
    if rs == [] then 0
    else
      Calculate(rc, mol, rs[..|rs| - 1])
      + (if Accepts(rc, mol, rs[|rs| - 1]) then 1 else 0)
  }

  /** The positions of the rings that pass the filters. */
  ghost function AcceptedPositions(rc: RingCount, mol: Molecule, rs: seq<Ring>): set<nat>
    requires RingsIn(mol, rs)
  {
    set k: nat | k < |rs| && Accepts(rc, mol, rs[k])
  }

  /** The count is the number of accepted positions: each ring that passes is
      counted once and no other ring is. */
  lemma {:induction false} CalculateCountsAccepted(rc: RingCount, mol: Molecule, rs: seq<Ring>)
    requires RingsIn(mol, rs)
    ensures Calculate(rc, mol, rs) == |AcceptedPositions(rc, mol, rs)|
  {
    if rs != [] {
      var init := rs[..|rs| - 1];
      var last := |rs| - 1;
      CalculateCountsAccepted(rc, mol, init);
      var before := AcceptedPositions(rc, mol, init);
      var after := AcceptedPositions(rc, mol, rs);
      assert last !in before;
      if Accepts(rc, mol, rs[last]) {
        assert after == before + {last};
      } else {
        assert after == before;
      }
    }
  }

  /** With no order, no aromaticity and no heteroatom filter (the defaults
      of the constructor apart from `fused`) every ring is counted. */
  lemma {:induction false} UnfilteredCountsAll(rc: RingCount, mol: Molecule, rs: seq<Ring>)
    requires RingsIn(mol, rs)
    requires rc.order == None && rc.aromatic == None && rc.hetero == None
    ensures Calculate(rc, mol, rs) == |rs|
  {
    if rs != [] {
      UnfilteredCountsAll(rc, mol, rs[..|rs| - 1]);
    }
  }

  /** `RingCount()` with every argument defaulted counts every ring. */
  lemma {:induction false} DefaultCountsAll(mol: Molecule, rs: seq<Ring>)
    requires RingsIn(mol, rs)
    ensures Calculate(RingCount(), mol, rs) == |rs|
  {
    UnfilteredCountsAll(RingCount(), mol, rs);
  }

  /** Aromatic and non-aromatic rings split the unfiltered count: a ring that
      is not fully aromatic is counted by `aromatic=False`. */
  lemma {:induction false} AromaticSplitsCount(rc: RingCount, mol: Molecule, rs: seq<Ring>)
    requires RingsIn(mol, rs)
    ensures Calculate(rc.(aromatic := Some(true)), mol, rs)
          + Calculate(rc.(aromatic := Some(false)), mol, rs)
         == Calculate(rc.(aromatic := None), mol, rs)
  {
    if rs != [] {
      AromaticSplitsCount(rc, mol, rs[..|rs| - 1]);
    }
  }

  /** Hetero rings and all-carbon rings split the unfiltered count. */
  lemma {:induction false} HeteroSplitsCount(rc: RingCount, mol: Molecule, rs: seq<Ring>)
    requires RingsIn(mol, rs)
    ensures Calculate(rc.(hetero := Some(true)), mol, rs)
          + Calculate(rc.(hetero := Some(false)), mol, rs)
         == Calculate(rc.(hetero := None), mol, rs)
  {
    if rs != [] {
      HeteroSplitsCount(rc, mol, rs[..|rs| - 1]);
    }
  }

  /** "n or more atoms" is "exactly n" plus "n + 1 or more". */
  lemma {:induction false} GreaterSplitsCount(rc: RingCount, n: int, mol: Molecule, rs: seq<Ring>)
    requires RingsIn(mol, rs)
    ensures Calculate(rc.(order := Some(n), greater := true), mol, rs)
         == Calculate(rc.(order := Some(n), greater := false), mol, rs)
          + Calculate(rc.(order := Some(n + 1), greater := true), mol, rs)
  {
    if rs != [] {
      GreaterSplitsCount(rc, n, mol, rs[..|rs| - 1]);
    }
  }

  /** Benzene: six aromatic carbons in one six-membered ring. */
  lemma BenzeneHasOneAromaticSixRing()
    ensures
      var mol := seq(6, _ => Atom(6, true));
      var ring: Ring := {0, 1, 2, 3, 4, 5};
      RingsIn(mol, [ring]) &&
      Calculate(RingCount(Some(6), false, false, Some(true), None), mol, [ring]) == 1
  {
    var mol := seq(6, _ => Atom(6, true));
    var ring: Ring := {0, 1, 2, 3, 4, 5};
    assert |ring| == 6;
    assert RingsIn(mol, [ring]);
    assert [ring][..0] == [];
  }

  // ---------------------------------------------------------------------
  // The preset battery
  // ---------------------------------------------------------------------

  const FusedValues: seq<bool> := [false, true]
  const AromaticValues: seq<Option<bool>> := [None, Some(true), Some(false)]
  const HeteroValues: seq<Option<bool>> := [None, Some(true)]

  /** Smallest exact ring size in the battery: 3 atoms, or 4 for fused systems. */
  function MinOrder(fused: bool): nat
  {
    if fused then 4 else 3
  }

  /** The exact-size instances of one combination, sizes MinOrder(fused) upwards. */
  function OrderRun(fused: bool, arom: Option<bool>, hetero: Option<bool>, count: nat): seq<RingCount>
  {
    seq(count, k => RingCount(Some(MinOrder(fused) + k), false, fused, arom, hetero))
  }

  /** One combination's instances: any size, each exact size up to 12, then 12 or more. */
  function PresetBlock(fused: bool, arom: Option<bool>, hetero: Option<bool>): seq<RingCount>
  {
    [RingCount(None, false, fused, arom, hetero)]
    + OrderRun(fused, arom, hetero, 13 - MinOrder(fused))
    + [RingCount(Some(12), true, fused, arom, hetero)]
  }

  /** The blocks of the innermost loop, for the first n hetero values. */
  function HeteroBlocks(fused: bool, arom: Option<bool>, n: nat): seq<RingCount>
    requires n <= |HeteroValues|
  {
    if n == 0 then []
    else HeteroBlocks(fused, arom, n - 1) + PresetBlock(fused, arom, HeteroValues[n - 1])
  }

  /** The blocks of the middle loop, for the first n aromatic values. */
  function AromaticBlocks(fused: bool, n: nat): seq<RingCount>
    requires n <= |AromaticValues|
  {
    if n == 0 then []
    else AromaticBlocks(fused, n - 1) + HeteroBlocks(fused, AromaticValues[n - 1], |HeteroValues|)
  }

  /** The blocks of the outer loop, for the first n fused values. */
  function FusedBlocks(n: nat): seq<RingCount>
    requires n <= |FusedValues|
  {
    if n == 0 then []
    else FusedBlocks(n - 1) + AromaticBlocks(FusedValues[n - 1], |AromaticValues|)
  }

  /** The whole battery, in the order `preset` yields it. */
  function PresetInstances(): seq<RingCount>
  {
    FusedBlocks(|FusedValues|)
  }

  lemma OrderRunStep(fused: bool, arom: Option<bool>, hetero: Option<bool>, count: nat)
    ensures OrderRun(fused, arom, hetero, count + 1)
         == OrderRun(fused, arom, hetero, count)
            + [RingCount(Some(MinOrder(fused) + count), false, fused, arom, hetero)]
  {
  }

  /** The innermost loop body of `preset` for one combination: the any-size
      instance, one instance per exact size from MinOrder(fused) to 12, and
      the 12-or-more instance. */
  method EmitBlock(fused: bool, arom: Option<bool>, hetero: Option<bool>) returns (block: seq<RingCount>)
    ensures block == PresetBlock(fused, arom, hetero)
  {
    block := [RingCount(None, false, fused, arom, hetero)];
    var n := if fused then 4 else 3;
    while n < 13
      invariant MinOrder(fused) <= n <= 13
      invariant block == [RingCount(None, false, fused, arom, hetero)]
                         + OrderRun(fused, arom, hetero, n - MinOrder(fused))
    {
      OrderRunStep(fused, arom, hetero, n - MinOrder(fused));
      block := block + [RingCount(Some(n), false, fused, arom, hetero)];
      n := n + 1;
    }
    block := block + [RingCount(Some(12), true, fused, arom, hetero)];
  }

  /** The loop of `preset` over the hetero values None and True. */
  method EmitHeteroLoop(fused: bool, arom: Option<bool>) returns (ps: seq<RingCount>)
    ensures ps == HeteroBlocks(fused, arom, |HeteroValues|)
  {
    ps := [];
    var hi := 0;
    while hi < |HeteroValues|
      invariant 0 <= hi <= |HeteroValues|
      invariant ps == HeteroBlocks(fused, arom, hi)
    {
      var block := EmitBlock(fused, arom, HeteroValues[hi]);
      ps := ps + block;
      hi := hi + 1;
    }
  }

  /** The loop of `preset` over the aromatic values None, True and False. */
  method EmitAromaticLoop(fused: bool) returns (ps: seq<RingCount>)
    ensures ps == AromaticBlocks(fused, |AromaticValues|)
  {
    ps := [];
    var ai := 0;
    while ai < |AromaticValues|
      invariant 0 <= ai <= |AromaticValues|
      invariant ps == AromaticBlocks(fused, ai)
    {
      var blocks := EmitHeteroLoop(fused, AromaticValues[ai]);
      ps := ps + blocks;
      ai := ai + 1;
    }
  }

  /** `preset`: the outer loop over the fused values False and True, with
      the inner loops above. */
  method Preset() returns (ps: seq<RingCount>)
    ensures ps == PresetInstances()
  {
    ps := [];
    var fi := 0;
    while fi < |FusedValues|
      invariant 0 <= fi <= |FusedValues|
      invariant ps == FusedBlocks(fi)
    {
      var blocks := EmitAromaticLoop(FusedValues[fi]);
      ps := ps + blocks;
      fi := fi + 1;
    }
  }

  /** The battery holds 138 instances: twelve per non-fused combination and
      eleven per fused one, over six combinations each. */
  lemma PresetHas138()
    ensures |PresetInstances()| == 138
  {
    assert |PresetBlock(false, None, None)| == 12;
    assert |HeteroBlocks(false, None, 2)| == 24;
    assert |HeteroBlocks(false, Some(true), 2)| == 24;
    assert |HeteroBlocks(false, Some(false), 2)| == 24;
    assert |AromaticBlocks(false, 3)| == 72;
    assert |HeteroBlocks(true, None, 2)| == 22;
    assert |HeteroBlocks(true, Some(true), 2)| == 22;
    assert |HeteroBlocks(true, Some(false), 2)| == 22;
    assert |AromaticBlocks(true, 3)| == 66;
  }

  /** The shape every instance of the battery has: hetero is never False,
      `greater` comes only with order 12, and exact sizes run from
      MinOrder(fused) to 12. */
  ghost predicate PresetShaped(p: RingCount)
  {
    && p.hetero != Some(false)
    && (p.greater ==> p.order == Some(12))
    && (p.order.Some? ==> MinOrder(p.fused) <= p.order.value <= 12)
  }

  lemma BlockShaped(fused: bool, arom: Option<bool>, hetero: Option<bool>)
    requires hetero != Some(false)
    ensures forall p :: p in PresetBlock(fused, arom, hetero) ==> PresetShaped(p) && p.fused == fused && p.aromatic == arom
  {
    var run := OrderRun(fused, arom, hetero, 13 - MinOrder(fused));
    assert forall k :: 0 <= k < |run| ==> PresetShaped(run[k]) && run[k].fused == fused && run[k].aromatic == arom;
  }

  lemma {:induction false} HeteroBlocksShaped(fused: bool, arom: Option<bool>, n: nat)
    requires n <= |HeteroValues|
    ensures forall p :: p in HeteroBlocks(fused, arom, n) ==> PresetShaped(p) && p.fused == fused && p.aromatic == arom
  {
    if n > 0 {
      HeteroBlocksShaped(fused, arom, n - 1);
      assert HeteroValues[n - 1] != Some(false);
      BlockShaped(fused, arom, HeteroValues[n - 1]);
    }
  }

  lemma {:induction false} AromaticBlocksShaped(fused: bool, n: nat)
    requires n <= |AromaticValues|
    ensures forall p :: p in AromaticBlocks(fused, n) ==> PresetShaped(p) && p.fused == fused
  {
    if n > 0 {
      AromaticBlocksShaped(fused, n - 1);
      HeteroBlocksShaped(fused, AromaticValues[n - 1], |HeteroValues|);
    }
  }

  lemma {:induction false} FusedBlocksShaped(n: nat)
    requires n <= |FusedValues|
    ensures forall p :: p in FusedBlocks(n) ==> PresetShaped(p)
  {
    if n > 0 {
      FusedBlocksShaped(n - 1);
      AromaticBlocksShaped(FusedValues[n - 1], |AromaticValues|);
    }
  }

  lemma PresetAllShaped()
    ensures forall p :: p in PresetInstances() ==> PresetShaped(p)
  {
    FusedBlocksShaped(|FusedValues|);
  }

  // Where an instance stands in the battery, computed from its parameters alone.

  function HeteroIndex(h: Option<bool>): nat
  {
    if h == Some(true) then 1 else 0
  }

  function AromaticIndex(a: Option<bool>): nat
  {
    match a
    case None => 0
    case Some(b) => if b then 1 else 2
  }

  function FusedIndex(f: bool): nat
  {
    if f then 1 else 0
  }

  function PositionInBlock(p: RingCount): int
  {
    match p.order
    case None => 0
    case Some(n) => if p.greater then 14 - MinOrder(p.fused) else 1 + n - MinOrder(p.fused)
  }

  ghost function PresetRank(p: RingCount): int
  {
    |FusedBlocks(FusedIndex(p.fused))|
    + |AromaticBlocks(p.fused, AromaticIndex(p.aromatic))|
    + |HeteroBlocks(p.fused, p.aromatic, HeteroIndex(p.hetero))|
    + PositionInBlock(p)
  }

  lemma BlockPositions(fused: bool, arom: Option<bool>, hetero: Option<bool>)
    ensures forall k :: 0 <= k < |PresetBlock(fused, arom, hetero)| ==>
      var p := PresetBlock(fused, arom, hetero)[k];
      PositionInBlock(p) == k && p.fused == fused && p.aromatic == arom && p.hetero == hetero
  {
    var block := PresetBlock(fused, arom, hetero);
    forall k | 0 <= k < |block|
      ensures PositionInBlock(block[k]) == k
    {
      if 0 < k < |block| - 1 {
        assert block[k] == OrderRun(fused, arom, hetero, 13 - MinOrder(fused))[k - 1];
      }
    }
  }

  lemma {:induction false} HeteroBlocksPositions(fused: bool, arom: Option<bool>, n: nat)
    requires n <= |HeteroValues|
    ensures forall k :: 0 <= k < |HeteroBlocks(fused, arom, n)| ==>
      var p := HeteroBlocks(fused, arom, n)[k];
      && p.fused == fused && p.aromatic == arom && HeteroIndex(p.hetero) < n
      && |HeteroBlocks(fused, arom, HeteroIndex(p.hetero))| + PositionInBlock(p) == k
  {
    if n > 0 {
      HeteroBlocksPositions(fused, arom, n - 1);
      var prefix := HeteroBlocks(fused, arom, n - 1);
      var block := PresetBlock(fused, arom, HeteroValues[n - 1]);
      BlockPositions(fused, arom, HeteroValues[n - 1]);
      forall k | 0 <= k < |prefix + block|
        ensures var p: RingCount := (prefix + block)[k];
          && p.fused == fused && p.aromatic == arom && HeteroIndex(p.hetero) < n
          && |HeteroBlocks(fused, arom, HeteroIndex(p.hetero))| + PositionInBlock(p) == k
      {
        if k >= |prefix| {
          assert (prefix + block)[k] == block[k - |prefix|];
        } else {
          assert (prefix + block)[k] == prefix[k];
        }
      }
    }
  }

  lemma {:induction false} AromaticBlocksPositions(fused: bool, n: nat)
    requires n <= |AromaticValues|
    ensures forall k :: 0 <= k < |AromaticBlocks(fused, n)| ==>
      var p := AromaticBlocks(fused, n)[k];
      && p.fused == fused && AromaticIndex(p.aromatic) < n
      && |AromaticBlocks(fused, AromaticIndex(p.aromatic))|
         + |HeteroBlocks(fused, p.aromatic, HeteroIndex(p.hetero))| + PositionInBlock(p) == k
  {
    if n > 0 {
      AromaticBlocksPositions(fused, n - 1);
      var prefix := AromaticBlocks(fused, n - 1);
      var arom := AromaticValues[n - 1];
      var blocks := HeteroBlocks(fused, arom, |HeteroValues|);
      HeteroBlocksPositions(fused, arom, |HeteroValues|);
      forall k | 0 <= k < |prefix + blocks|
        ensures var p: RingCount := (prefix + blocks)[k];
          && p.fused == fused && AromaticIndex(p.aromatic) < n
          && |AromaticBlocks(fused, AromaticIndex(p.aromatic))|
             + |HeteroBlocks(fused, p.aromatic, HeteroIndex(p.hetero))| + PositionInBlock(p) == k
      {
        if k >= |prefix| {
          assert (prefix + blocks)[k] == blocks[k - |prefix|];
        } else {
          assert (prefix + blocks)[k] == prefix[k];
        }
      }
    }
  }

  /** Each instance's parameters say where it stands in the battery. */
  lemma PresetRankIsIndex()
    ensures forall k :: 0 <= k < |PresetInstances()| ==> PresetRank(PresetInstances()[k]) == k
  {
    var nonFused := AromaticBlocks(false, |AromaticValues|);
    var fused := AromaticBlocks(true, |AromaticValues|);
    AromaticBlocksPositions(false, |AromaticValues|);
    AromaticBlocksPositions(true, |AromaticValues|);
    assert FusedBlocks(1) == nonFused;
    assert PresetInstances() == nonFused + fused;
    forall k | 0 <= k < |nonFused + fused|
      ensures PresetRank((nonFused + fused)[k]) == k
    {
      if k >= |nonFused| {
        assert (nonFused + fused)[k] == fused[k - |nonFused|];
      } else {
        assert (nonFused + fused)[k] == nonFused[k];
      }
    }
  }

  /** No two instances of the battery have the same parameters. */
  lemma PresetDistinct()
    ensures forall k, l :: 0 <= k < l < |PresetInstances()| ==> PresetInstances()[k] != PresetInstances()[l]
  {
    PresetRankIsIndex();
  }

  // ---------------------------------------------------------------------
  // The display name
  // ---------------------------------------------------------------------

  function AromaticCode(a: Option<bool>): string
  {
    match a
    case None => ""
    case Some(b) => if b then "a" else "A"
  }

  function HeteroCode(h: Option<bool>): string
  {
    match h
    case None => ""
    case Some(b) => if b then "H" else "C"
  }

  function GreaterCode(rc: RingCount): string
  {
    if rc.greater then "G" else ""
  }

  function FusedCode(rc: RingCount): string
  {
    if rc.fused then "F" else ""
  }

  /** The short codes in their fixed order: G, the order, F, a/A, H/C. */
  function Codes(rc: RingCount): string
  {
    GreaterCode(rc) + OrderCode(rc.order) + FusedCode(rc) + AromaticCode(rc.aromatic) + HeteroCode(rc.hetero)
  }

  function NameOf(rc: RingCount): string
  {
    "n" + Codes(rc) + "Ring"
  }

  /** `''.join(parts)`. */
  function Join(parts: seq<string>): string
  {
    if parts == [] then "" else Join(parts[..|parts| - 1]) + parts[|parts| - 1]
  }

  lemma JoinAppend(parts: seq<string>, part: string)
    ensures Join(parts + [part]) == Join(parts) + part
  {
    assert (parts + [part])[..|parts|] == parts;
  }

  // The list `attrs` that `__str__` builds, one entry per code present.

  function GreaterPart(rc: RingCount): seq<string>
  {
    if rc.greater then ["G"] else []
  }

  function OrderPart(rc: RingCount): seq<string>
  {
    match rc.order
    case None => []
    case Some(n) => [IntToString(n)]
  }

  function FusedPart(rc: RingCount): seq<string>
  {
    if rc.fused then ["F"] else []
  }

  function AromaticPart(rc: RingCount): seq<string>
  {
    if rc.aromatic.Some? then [AromaticCode(rc.aromatic)] else []
  }

  function HeteroPart(rc: RingCount): seq<string>
  {
    if rc.hetero.Some? then [HeteroCode(rc.hetero)] else []
  }

  function CodeList(rc: RingCount): seq<string>
  {
    GreaterPart(rc) + OrderPart(rc) + FusedPart(rc) + AromaticPart(rc) + HeteroPart(rc)
  }

  lemma JoinOptional(parts: seq<string>, part: seq<string>, code: string)
    requires part == [] || part == [code]
    requires part == [] ==> code == ""
    ensures Join(parts + part) == Join(parts) + code
  {
    if part == [] {
      assert parts + part == parts;
    } else {
      JoinAppend(parts, code);
    }
  }

  /** Joining the list gives the codes in their fixed order. */
  lemma CodeListJoins(rc: RingCount)
    ensures Join(CodeList(rc)) == Codes(rc)
  {
    var g, o, f := GreaterPart(rc), OrderPart(rc), FusedPart(rc);
    var a, h := AromaticPart(rc), HeteroPart(rc);
    JoinOptional([], g, GreaterCode(rc));
    assert [] + g == g;
    assert Join(g) == GreaterCode(rc);
    JoinOptional(g, o, OrderCode(rc.order));
    var go := GreaterCode(rc) + OrderCode(rc.order);
    assert Join(g + o) == go;
    JoinOptional(g + o, f, FusedCode(rc));
    var gof := go + FusedCode(rc);
    assert Join(g + o + f) == gof;
    JoinOptional(g + o + f, a, AromaticCode(rc.aromatic));
    var gofa := gof + AromaticCode(rc.aromatic);
    assert Join(g + o + f + a) == gofa;
    JoinOptional(g + o + f + a, h, HeteroCode(rc.hetero));
    assert Join(g + o + f + a + h) == gofa + HeteroCode(rc.hetero);
  }

  /** `__str__`: collects the codes in a list, joins them and wraps them as
      "n...Ring" (NameRoundTrip: the name determines every parameter). */
  method Name(rc: RingCount) returns (s: string)
    ensures s == NameOf(rc)
  {
    var attrs: seq<string> := [];
    if rc.greater {
      attrs := attrs + ["G"];
    }
    assert attrs == GreaterPart(rc);
    if rc.order.Some? {
      attrs := attrs + [IntToString(rc.order.value)];
    }
    assert attrs == GreaterPart(rc) + OrderPart(rc);
    if rc.fused {
      attrs := attrs + ["F"];
    }
    assert attrs == GreaterPart(rc) + OrderPart(rc) + FusedPart(rc);
    if rc.aromatic == Some(true) {
      attrs := attrs + ["a"];
    } else if rc.aromatic == Some(false) {
      attrs := attrs + ["A"];
    }
    assert attrs == GreaterPart(rc) + OrderPart(rc) + FusedPart(rc) + AromaticPart(rc);
    if rc.hetero == Some(true) {
      attrs := attrs + ["H"];
    } else if rc.hetero == Some(false) {
      attrs := attrs + ["C"];
    }
    assert attrs == CodeList(rc);
    CodeListJoins(rc);
    s := "n" + Join(attrs) + "Ring";
  }

  // Reading a name back: the inverse of NameOf, one code at a time.

  /** Length of the run of decimal digits at the start of s. */
  function DigitRun(s: string): (k: nat)
    ensures k <= |s|
    ensures AllDigits(s[..k])
    ensures k < |s| ==> !IsDigit(s[k])
  {
    if s == [] || !IsDigit(s[0]) then 0
    else
      var k := 1 + DigitRun(s[1..]);
      assert s[..k] == [s[0]] + s[1..][..k - 1];
      k
  }

  /** A one-letter code at the start of s, and what follows it. */
  function ParseFlag(s: string, letter: char): (bool, string)
  {
    if |s| > 0 && s[0] == letter then (true, s[1..]) else (false, s)
  }

  /** One of two one-letter codes (True, False) at the start of s. */
  function ParseChoice(s: string, yes: char, no: char): (Option<bool>, string)
  {
    if |s| > 0 && s[0] == yes then (Some(true), s[1..])
    else if |s| > 0 && s[0] == no then (Some(false), s[1..])
    else (None, s)
  }

  /** A signed decimal order at the start of s, and what follows it. */
  function ParseOrder(s: string): Option<(Option<int>, string)>
  {
    var negative := |s| > 0 && s[0] == '-';
    var digits := if negative then s[1..] else s;
    var k := DigitRun(digits);
    if k == 0 then (if negative then None else Some((None, s)))
    else
      var magnitude: int := DigitsValue(digits[..k]);
      Some((Some(if negative then -magnitude else magnitude), digits[k..]))
  }

  function ParseCodes(c: string): Option<RingCount>
  {
    var (greater, c1) := ParseFlag(c, 'G');
    match ParseOrder(c1)
    case None => None
    case Some((order, c2)) =>
      var (fused, c3) := ParseFlag(c2, 'F');
      var (aromatic, c4) := ParseChoice(c3, 'a', 'A');
      var (hetero, c5) := ParseChoice(c4, 'H', 'C');
      if c5 == [] then Some(RingCount(order, greater, fused, aromatic, hetero)) else None
  }

  /** The parameters a display name stands for, if it is one. */
  function ParseName(s: string): Option<RingCount>
  {
    if |s| >= 5 && s[0] == 'n' && s[|s| - 4..] == "Ring" then ParseCodes(s[1..|s| - 4])
    else None
  }

  function OrderCode(order: Option<int>): string
  {
    match order
    case None => ""
    case Some(n) => IntToString(n)
  }

  lemma ParseFlagOfCode(b: bool, letter: char, code: string, rest: string)
    requires code == if b then [letter] else ""
    requires rest == [] || rest[0] != letter
    ensures ParseFlag(code + rest, letter) == (b, rest)
  {
    if b {
      assert (code + rest)[1..] == rest;
    } else {
      assert code + rest == rest;
    }
  }

  lemma ParseChoiceOfCode(o: Option<bool>, yes: char, no: char, code: string, rest: string)
    requires yes != no
    requires code == match o case None => "" case Some(b) => if b then [yes] else [no]
    requires rest == [] || (rest[0] != yes && rest[0] != no)
    ensures ParseChoice(code + rest, yes, no) == (o, rest)
  {
    if o.Some? {
      assert (code + rest)[1..] == rest;
    } else {
      assert code + rest == rest;
    }
  }

  lemma {:induction false} DigitRunOfNumeral(d: string, rest: string)
    requires AllDigits(d)
    requires rest == [] || !IsDigit(rest[0])
    ensures DigitRun(d + rest) == |d|
  {
    if d != [] {
      assert (d + rest)[1..] == d[1..] + rest;
      DigitRunOfNumeral(d[1..], rest);
    }
  }

  lemma ParseNumeral(d: string, rest: string)
    requires AllDigits(d) && d != []
    requires rest == [] || !IsDigit(rest[0])
    ensures DigitRun(d + rest) == |d|
    ensures (d + rest)[..|d|] == d && (d + rest)[|d|..] == rest
  {
    DigitRunOfNumeral(d, rest);
  }

  /** A minus sign, a numeral of m, then a non-digit: -m. */
  lemma ParseSignedNumeral(s: string, d: string, m: int, rest: string)
    requires AllDigits(d) && d != [] && m == DigitsValue(d)
    requires rest == [] || !IsDigit(rest[0])
    requires s == "-" + (d + rest)
    ensures ParseOrder(s) == Some((Some(-m), rest))
  {
    assert s[0] == '-' && s[1..] == d + rest;
    ParseNumeral(d, rest);
  }

  lemma ParseOrderOfNegative(n: int, rest: string)
    requires n < 0
    requires rest == [] || (!IsDigit(rest[0]) && rest[0] != '-')
    ensures ParseOrder(IntToString(n) + rest) == Some((Some(n), rest))
  {
    var d := NatToString(-n);
    NatToStringRoundTrip(-n);
    assert IntToString(n) + rest == "-" + (d + rest);
    ParseSignedNumeral(IntToString(n) + rest, d, -n, rest);
  }

  lemma ParseOrderOfNatural(n: int, rest: string)
    requires n >= 0
    requires rest == [] || (!IsDigit(rest[0]) && rest[0] != '-')
    ensures ParseOrder(IntToString(n) + rest) == Some((Some(n), rest))
  {
    var d := NatToString(n);
    var s := IntToString(n) + rest;
    assert s == d + rest && IsDigit(s[0]);
    ParseNumeral(d, rest);
    NatToStringRoundTrip(n);
  }

  lemma ParseOrderOfCode(order: Option<int>, rest: string)
    requires rest == [] || (!IsDigit(rest[0]) && rest[0] != '-')
    ensures ParseOrder(OrderCode(order) + rest) == Some((order, rest))
  {
    match order {
      case None =>
        DigitRunOfNumeral([], rest);
        assert OrderCode(order) + rest == rest;
      case Some(n) =>
        if n < 0 {
          ParseOrderOfNegative(n, rest);
        } else {
          ParseOrderOfNatural(n, rest);
        }
    }
  }

  /** Reading the codes back gives the parameters they were made from. */
  lemma CodesRoundTrip(rc: RingCount)
    ensures ParseCodes(Codes(rc)) == Some(rc)
  {
    var hetero := HeteroCode(rc.hetero);
    var arom := AromaticCode(rc.aromatic) + hetero;
    var fused := FusedCode(rc) + arom;
    var order := OrderCode(rc.order) + fused;
    assert Codes(rc) == GreaterCode(rc) + order;
    ParseChoiceOfCode(rc.hetero, 'H', 'C', hetero, []);
    assert hetero + [] == hetero;
    ParseChoiceOfCode(rc.aromatic, 'a', 'A', AromaticCode(rc.aromatic), hetero);
    ParseFlagOfCode(rc.fused, 'F', FusedCode(rc), arom);
    ParseOrderOfCode(rc.order, fused);
    OrderCodesNotG(rc.order, fused);
    ParseFlagOfCode(rc.greater, 'G', GreaterCode(rc), order);
    ParseCodesOfStages(Codes(rc), rc, order, fused, arom, hetero);
  }

  lemma OrderCodesNotG(order: Option<int>, rest: string)
    requires rest == [] || rest[0] != 'G'
    ensures OrderCode(order) + rest == [] || (OrderCode(order) + rest)[0] != 'G'
  {
    if OrderCode(order) == [] {
      assert OrderCode(order) + rest == rest;
    } else if order.value >= 0 {
      assert IsDigit(OrderCode(order)[0]);
    }
  }

  /** ParseCodes succeeds with rc once each stage has read its part. */
  lemma ParseCodesOfStages(c: string, rc: RingCount, c1: string, c2: string, c3: string, c4: string)
    requires ParseFlag(c, 'G') == (rc.greater, c1)
    requires ParseOrder(c1) == Some((rc.order, c2))
    requires ParseFlag(c2, 'F') == (rc.fused, c3)
    requires ParseChoice(c3, 'a', 'A') == (rc.aromatic, c4)
    requires ParseChoice(c4, 'H', 'C') == (rc.hetero, [])
    ensures ParseCodes(c) == Some(rc)
  {
  }

  /** Reading a display name back gives the instance it was made from. */
  lemma NameRoundTrip(rc: RingCount)
    ensures ParseName(NameOf(rc)) == Some(rc)
  {
    var name := NameOf(rc);
    assert name[1..|name| - 4] == Codes(rc);
    assert name[|name| - 4..] == "Ring";
    CodesRoundTrip(rc);
  }

  /** Different instances have different display names. */
  lemma NameInjective(p: RingCount, q: RingCount)
    requires NameOf(p) == NameOf(q)
    ensures p == q
  {
    NameRoundTrip(p);
    NameRoundTrip(q);
  }
}
