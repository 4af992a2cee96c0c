/** DistanceEdge: the molecular distance edge descriptor MDE(v1, v2, element).
    It gathers the topological distances between every unordered pair of
    atoms of the given element whose valences are {v1, v2}; the index is
    n / (product of the n distances)^(1/n), missing when no pair qualifies. */
module DistanceEdge {
  import opened Common

  // ---------------------------------------------------------------------
  // The descriptor and its constructor
  // ---------------------------------------------------------------------

  /** The three stored fields `_valence1`, `_valence2`, `_atomic_num`. */
  datatype MolecularDistanceEdge = MolecularDistanceEdge(valence1: int, valence2: int, atomicNum: int)

  /** The `element` argument: an int, a str, or anything else. */
  datatype Element = AtomicNumber(n: int) | Symbol(s: string) | Other

  datatype Error = ValueError | UnknownSymbol

  datatype Result<+T> = Ok(value: T) | Err(error: Error)

  /** The fields for a valence pair and an atomic number, the pair stored
      as (min, max). */
  function Normalised(v1: int, v2: int, atomicNum: int): (d: MolecularDistanceEdge)
    ensures d.valence1 <= d.valence2
    ensures multiset{d.valence1, d.valence2} == multiset{v1, v2}
    ensures d.atomicNum == atomicNum
  {
    MolecularDistanceEdge(if v1 <= v2 then v1 else v2, if v1 <= v2 then v2 else v1, atomicNum)
  }

  lemma NormalisedOrdered(v1: int, v2: int, atomicNum: int)
    requires v1 <= v2
    ensures Normalised(v1, v2, atomicNum) == MolecularDistanceEdge(v1, v2, atomicNum)
  {
  }

  /** `MolecularDistanceEdge.__init__`: an int element is the atomic number,
      a symbol is looked up in the periodic table (a parameter here, None
      for a symbol it does not know), and any other element is refused. The
      defaults are `__init__`'s: valences 1 and 1, element "C". */
  function New(v1: int := 1, v2: int := 1, element: Element := Symbol("C"), table: string -> Option<int>): (r: Result<MolecularDistanceEdge>)
    ensures r.Ok? <==> element.AtomicNumber? || (element.Symbol? && table(element.s).Some?)
    ensures element.Other? ==> r == Err(ValueError)
    ensures r.Ok? ==> r.value.valence1 <= r.value.valence2 && multiset{r.value.valence1, r.value.valence2} == multiset{v1, v2}
    ensures element.AtomicNumber? ==> r.Ok? && r.value.atomicNum == element.n
    ensures element.Symbol? && table(element.s).Some? ==> r.Ok? && r.value.atomicNum == table(element.s).value
  {
    match element
    case AtomicNumber(n) => Ok(Normalised(v1, v2, n))
    case Symbol(s) =>
      (match table(s)
       case Some(n) => Ok(Normalised(v1, v2, n))
       case None => Err(UnknownSymbol))
    case Other => Err(ValueError)
  }

  /** With every argument defaulted the descriptor is carbon with valences
      (1, 1), whenever the table knows carbon as 6. */
  lemma NewDefault(table: string -> Option<int>)
    requires table("C") == Some(6)
    ensures New(table := table) == Ok(MolecularDistanceEdge(1, 1, 6))
  {
  }

  /** The order of the two valences does not matter. */
  lemma NewSymmetric(v1: int, v2: int, element: Element, table: string -> Option<int>)
    ensures New(v1, v2, element, table) == New(v2, v1, element, table)
  {
  }

  /** `__reduce_ex__` rebuilds a descriptor from (`_valence1`, `_valence2`,
      `_atomic_num`): the rebuilt descriptor has the same fields. */
  lemma ReduceRoundTrip(v1: int, v2: int, element: Element, table: string -> Option<int>)
    requires New(v1, v2, element, table).Ok?
    ensures var d := New(v1, v2, element, table).value;
      New(d.valence1, d.valence2, AtomicNumber(d.atomicNum), table) == Ok(d)
  {
  }

  // ---------------------------------------------------------------------
  // Preset
  // ---------------------------------------------------------------------

  /** The instances (a, b, e) for b from a to hi - 1. */
  function PresetRow(e: int, a: int, hi: int): (row: seq<MolecularDistanceEdge>)
    ensures |row| == if a < hi then hi - a else 0
    ensures forall k :: 0 <= k < |row| ==> row[k] == MolecularDistanceEdge(a, a + k, e)
  {
    if a < hi then
      var row := seq(hi - a, k requires 0 <= k < hi - a => Normalised(a, a + k, e));
      assert forall k :: 0 <= k < |row| ==> row[k] == MolecularDistanceEdge(a, a + k, e) by {
        forall k | 0 <= k < |row|
          ensures row[k] == MolecularDistanceEdge(a, a + k, e)
        {
          NormalisedOrdered(a, a + k, e);
        }
      }
      row
    else []
  }

  /** The instances (a', b, e) for a <= a' <= b < hi, by a' then b. */
  function PresetRows(e: int, a: int, hi: int): seq<MolecularDistanceEdge>
    decreases hi - a
  {
    if a < hi then PresetRow(e, a, hi) + PresetRows(e, a + 1, hi) else []
  }

  /** `MolecularDistanceEdge.preset`: for e in [6, 8, 7], a in [1, 11 - e),
      b in [a, 11 - e). */
  function Preset(): seq<MolecularDistanceEdge>
  {
    PresetRows(6, 1, 11 - 6) + PresetRows(8, 1, 11 - 8) + PresetRows(7, 1, 11 - 7)
  }

  lemma PresetRowMembers(e: int, a: int, hi: int, d: MolecularDistanceEdge)
    ensures d in PresetRow(e, a, hi) <==> d.atomicNum == e && a == d.valence1 <= d.valence2 < hi
  {
    if d.atomicNum == e && a == d.valence1 <= d.valence2 < hi {
      assert d == PresetRow(e, a, hi)[d.valence2 - a];
    }
  }

  lemma {:induction false} PresetRowsMembers(e: int, a: int, hi: int, d: MolecularDistanceEdge)
    ensures d in PresetRows(e, a, hi) <==> d.atomicNum == e && a <= d.valence1 <= d.valence2 < hi
    decreases hi - a
  {
    if a < hi {
      PresetRowsMembers(e, a + 1, hi, d);
      PresetRowMembers(e, a, hi, d);
    }
  }

  /** The preset holds exactly the descriptors of carbon, oxygen and
      nitrogen with 1 <= a <= b <= 10 - e. */
  lemma PresetMembers(d: MolecularDistanceEdge)
    ensures d in Preset() <==> d.atomicNum in {6, 8, 7} && 1 <= d.valence1 <= d.valence2 <= 10 - d.atomicNum
  {
    PresetRowsMembers(6, 1, 5, d);
    PresetRowsMembers(8, 1, 3, d);
    PresetRowsMembers(7, 1, 4, d);
  }

  lemma {:induction false} PresetRowsLength(e: int, a: int, hi: int)
    requires a <= hi
    ensures 2 * |PresetRows(e, a, hi)| == (hi - a) * (hi - a + 1)
    decreases hi - a
  {
    if a < hi {
      PresetRowsLength(e, a + 1, hi);
    }
  }

  /** 19 instances: 10 for carbon, 3 for oxygen, 6 for nitrogen. */
  lemma PresetLength()
    ensures |PresetRows(6, 1, 5)| == 10 && |PresetRows(8, 1, 3)| == 3 && |PresetRows(7, 1, 4)| == 6
    ensures |Preset()| == 19
  {
    PresetRowsLength(6, 1, 5);
    PresetRowsLength(8, 1, 3);
    PresetRowsLength(7, 1, 4);
  }

  /** The position of an element in the preset's element list [6, 8, 7]. */
  function ElementRank(e: int): nat
  {
    if e == 6 then 0 else if e == 8 then 1 else 2
  }

  /** d comes strictly before d' by element rank, then a, then b. */
  predicate Before(d: MolecularDistanceEdge, d': MolecularDistanceEdge)
  {
    ElementRank(d.atomicNum) < ElementRank(d'.atomicNum) ||
    (ElementRank(d.atomicNum) == ElementRank(d'.atomicNum) &&
     (d.valence1 < d'.valence1 || (d.valence1 == d'.valence1 && d.valence2 < d'.valence2)))
  }

  predicate StrictlySorted(s: seq<MolecularDistanceEdge>)
  {
    forall i, j :: 0 <= i < j < |s| ==> Before(s[i], s[j])
  }

  lemma SortedConcat(s: seq<MolecularDistanceEdge>, t: seq<MolecularDistanceEdge>)
    requires StrictlySorted(s) && StrictlySorted(t)
    requires forall x, y :: x in s && y in t ==> Before(x, y)
    ensures StrictlySorted(s + t)
  {
    forall i, j | 0 <= i < j < |s + t|
      ensures Before((s + t)[i], (s + t)[j])
    {
      if j < |s| {
        assert (s + t)[i] == s[i] && (s + t)[j] == s[j];
      } else if i >= |s| {
        assert (s + t)[i] == t[i - |s|] && (s + t)[j] == t[j - |s|];
      } else {
        assert (s + t)[i] in s && (s + t)[j] in t;
      }
    }
  }

  lemma {:induction false} PresetRowsSorted(e: int, a: int, hi: int)
    ensures StrictlySorted(PresetRows(e, a, hi))
    decreases hi - a
  {
    if a < hi {
      PresetRowsSorted(e, a + 1, hi);
      var row := PresetRow(e, a, hi);
      forall x, y | x in row && y in PresetRows(e, a + 1, hi)
        ensures Before(x, y)
      {
        PresetRowMembers(e, a, hi, x);
        PresetRowsMembers(e, a + 1, hi, y);
      }
      SortedConcat(row, PresetRows(e, a + 1, hi));
    }
  }

  /** The preset comes ordered by e (in the order 6, 8, 7), then a, then b,
      and so holds no instance twice. */
  lemma PresetSorted()
    ensures StrictlySorted(Preset())
    ensures forall i, j :: 0 <= i < j < |Preset()| ==> Preset()[i] != Preset()[j]
  {
    var c, o, n := PresetRows(6, 1, 5), PresetRows(8, 1, 3), PresetRows(7, 1, 4);
    PresetRowsSorted(6, 1, 5);
    PresetRowsSorted(8, 1, 3);
    PresetRowsSorted(7, 1, 4);
    forall x, y | x in c + o && y in n
      ensures Before(x, y)
    {
      PresetRowsMembers(6, 1, 5, x);
      PresetRowsMembers(8, 1, 3, x);
      PresetRowsMembers(7, 1, 4, y);
    }
    forall x, y | x in c && y in o
      ensures Before(x, y)
    {
      PresetRowsMembers(6, 1, 5, x);
      PresetRowsMembers(8, 1, 3, y);
    }
    SortedConcat(c, o);
    SortedConcat(c + o, n);
  }

  // ---------------------------------------------------------------------
  // Display name
  // ---------------------------------------------------------------------

  /** `__str__`: "MDE" + the element symbol (a parameter) + "-" + the two
      valences written one after the other. */
  function Name(d: MolecularDistanceEdge, symbol: int -> string): string
  {
    "MDE" + symbol(d.atomicNum) + "-" + IntToString(d.valence1) + IntToString(d.valence2)
  }

  /** With single-digit valences and distinct symbols, distinct descriptors
      have distinct names. */
  lemma NameInjective(d: MolecularDistanceEdge, d': MolecularDistanceEdge, symbol: int -> string)
    requires 0 <= d.valence1 < 10 && 0 <= d.valence2 < 10
    requires 0 <= d'.valence1 < 10 && 0 <= d'.valence2 < 10
    requires symbol(d.atomicNum) == symbol(d'.atomicNum) ==> d.atomicNum == d'.atomicNum
    requires Name(d, symbol) == Name(d', symbol)
    ensures d == d'
  {
    var s, s' := Name(d, symbol), Name(d', symbol);
    var n := |s|;
    assert IntToString(d.valence1) + IntToString(d.valence2) == s[n - 2..];
    assert IntToString(d'.valence1) + IntToString(d'.valence2) == s'[n - 2..];
    assert "MDE" + symbol(d.atomicNum) + "-" == s[..n - 2];
    assert "MDE" + symbol(d'.atomicNum) + "-" == s'[..n - 2];
    assert symbol(d.atomicNum) == s[3..n - 3];
    assert symbol(d'.atomicNum) == s'[3..n - 3];
    assert [s[n - 2]] == IntToString(d.valence1) && [s'[n - 2]] == IntToString(d'.valence1);
    assert [s[n - 1]] == IntToString(d.valence2) && [s'[n - 1]] == IntToString(d'.valence2);
    NatToStringInjective(d.valence1, d'.valence1);
    NatToStringInjective(d.valence2, d'.valence2);
  }

  /** Beyond one digit the valences run together: (1, 111) and (11, 11)
      share a name. */
  lemma NameAmbiguousBeyondOneDigit(symbol: int -> string)
    ensures Name(Normalised(1, 111, 6), symbol) == Name(Normalised(11, 11, 6), symbol)
  {
    assert IntToString(111) == "111" && IntToString(11) == "11" && IntToString(1) == "1";
  }

  // ---------------------------------------------------------------------
  // Calculation
  // ---------------------------------------------------------------------

  /** The distance matrix D and the valences V cover every atom. */
  predicate WellSized(mol: Molecule, D: seq<seq<nat>>, V: seq<int>)
  {
    |V| == |mol| && |D| == |mol| && forall i :: 0 <= i < |D| ==> |D[i]| == |mol|
  }

  /** Atoms i and j have the valences of d in either orientation and both
      are of d's element. */
  predicate Qualifies(d: MolecularDistanceEdge, mol: Molecule, V: seq<int>, i: nat, j: nat)
    requires i < |mol| && j < |mol| && |V| == |mol|
  {
    ((V[i] == d.valence1 && V[j] == d.valence2) || (V[j] == d.valence1 && V[i] == d.valence2)) &&
    mol[i].atomicNum == d.atomicNum && mol[j].atomicNum == d.atomicNum
  }

  /** The qualifying pairs (i, j') for j <= j' < N, by j'. */
  function PairRow(d: MolecularDistanceEdge, mol: Molecule, V: seq<int>, i: nat, j: nat): seq<(nat, nat)>
    requires i < |mol| && |V| == |mol|
    decreases |mol| - j
  {
    if j >= |mol| then []
    else (if Qualifies(d, mol, V, i, j) then [(i, j)] else []) + PairRow(d, mol, V, i, j + 1)
  }

  /** The qualifying pairs i' < j with i <= i', by i' then j: the order of
      the comprehension over `range(N)` and `range(i + 1, N)`. */
  function Pairs(d: MolecularDistanceEdge, mol: Molecule, V: seq<int>, i: nat): seq<(nat, nat)>
    requires |V| == |mol|
    decreases |mol| - i
  {
    if i >= |mol| then [] else PairRow(d, mol, V, i, i + 1) + Pairs(d, mol, V, i + 1)
  }

  /** `MolecularDistanceEdge.calculate` up to the floating-point formula:
      the distances Dv of the qualifying pairs, None (NaN) when there are none. */
  function Calculate(d: MolecularDistanceEdge, mol: Molecule, D: seq<seq<nat>>, V: seq<int>): (r: Option<seq<nat>>)
    requires WellSized(mol, D, V)
  {
    var pairs := Pairs(d, mol, V, 0);
    assert forall k :: 0 <= k < |pairs| ==> pairs[k].0 < pairs[k].1 < |mol| by {
      PairsMembers(d, mol, V, 0);
    }
    if |pairs| == 0 then None
    else Some(seq(|pairs|, k requires 0 <= k < |pairs| => D[pairs[k].0][pairs[k].1]))
  }

  lemma {:induction false} PairRowMembers(d: MolecularDistanceEdge, mol: Molecule, V: seq<int>, i: nat, j: nat)
    requires i < |mol| && |V| == |mol|
    ensures forall p :: p in PairRow(d, mol, V, i, j) <==> p.0 == i && j <= p.1 < |mol| && Qualifies(d, mol, V, i, p.1)
    decreases |mol| - j
  {
    if j < |mol| {
      PairRowMembers(d, mol, V, i, j + 1);
    }
  }

  /** Exactly the pairs i <= i' < j' < N whose atoms qualify are selected. */
  lemma {:induction false} PairsMembers(d: MolecularDistanceEdge, mol: Molecule, V: seq<int>, i: nat)
    requires |V| == |mol|
    ensures forall p :: p in Pairs(d, mol, V, i) <==> i <= p.0 < p.1 < |mol| && Qualifies(d, mol, V, p.0, p.1)
    decreases |mol| - i
  {
    if i < |mol| {
      PairRowMembers(d, mol, V, i, i + 1);
      PairsMembers(d, mol, V, i + 1);
    }
  }

  predicate PairBefore(p: (nat, nat), q: (nat, nat))
  {
    p.0 < q.0 || (p.0 == q.0 && p.1 < q.1)
  }

  predicate PairsSorted(s: seq<(nat, nat)>)
  {
    forall a, b :: 0 <= a < b < |s| ==> PairBefore(s[a], s[b])
  }

  lemma PairsSortedConcat(s: seq<(nat, nat)>, t: seq<(nat, nat)>)
    requires PairsSorted(s) && PairsSorted(t)
    requires forall x, y :: x in s && y in t ==> PairBefore(x, y)
    ensures PairsSorted(s + t)
  {
    forall a, b | 0 <= a < b < |s + t|
      ensures PairBefore((s + t)[a], (s + t)[b])
    {
      if b < |s| {
        assert (s + t)[a] == s[a] && (s + t)[b] == s[b];
      } else if a >= |s| {
        assert (s + t)[a] == t[a - |s|] && (s + t)[b] == t[b - |s|];
      } else {
        assert (s + t)[a] in s && (s + t)[b] in t;
      }
    }
  }

  lemma {:induction false} PairRowSorted(d: MolecularDistanceEdge, mol: Molecule, V: seq<int>, i: nat, j: nat)
    requires i < |mol| && |V| == |mol|
    ensures PairsSorted(PairRow(d, mol, V, i, j))
    decreases |mol| - j
  {
    if j < |mol| {
      PairRowSorted(d, mol, V, i, j + 1);
      PairRowMembers(d, mol, V, i, j + 1);
      PairsSortedConcat(if Qualifies(d, mol, V, i, j) then [(i, j)] else [], PairRow(d, mol, V, i, j + 1));
    }
  }

  /** The pairs come in the comprehension's order, each at most once. */
  lemma {:induction false} PairsSortedOnce(d: MolecularDistanceEdge, mol: Molecule, V: seq<int>, i: nat)
    requires |V| == |mol|
    ensures PairsSorted(Pairs(d, mol, V, i))
    ensures forall a, b :: 0 <= a < b < |Pairs(d, mol, V, i)| ==> Pairs(d, mol, V, i)[a] != Pairs(d, mol, V, i)[b]
    decreases |mol| - i
  {
    if i < |mol| {
      PairsSortedOnce(d, mol, V, i + 1);
      PairRowSorted(d, mol, V, i, i + 1);
      PairRowMembers(d, mol, V, i, i + 1);
      PairsMembers(d, mol, V, i + 1);
      PairsSortedConcat(PairRow(d, mol, V, i, i + 1), Pairs(d, mol, V, i + 1));
    }
  }

  lemma {:induction false} PairRowLength(d: MolecularDistanceEdge, mol: Molecule, V: seq<int>, i: nat, j: nat)
    requires i < |mol| && |V| == |mol| && j <= |mol|
    ensures |PairRow(d, mol, V, i, j)| <= |mol| - j
    decreases |mol| - j
  {
    if j < |mol| {
      PairRowLength(d, mol, V, i, j + 1);
    }
  }

  /** At most one distance per unordered pair of the atoms from i on. */
  lemma {:induction false} PairsLength(d: MolecularDistanceEdge, mol: Molecule, V: seq<int>, i: nat)
    requires |V| == |mol| && i <= |mol|
    ensures 2 * |Pairs(d, mol, V, i)| <= (|mol| - i) * (|mol| - i - 1)
    decreases |mol| - i
  {
    if i < |mol| {
      PairRowLength(d, mol, V, i, i + 1);
      PairsLength(d, mol, V, i + 1);
      var m := |mol| - i - 1;
      assert (m + 1) * m == m * (m - 1) + 2 * m;
    }
  }

  /** The distances are those of exactly the qualifying pairs i < j, in the
      comprehension's order, at most N(N-1)/2 of them; the result is
      missing exactly when no pair qualifies. */
  lemma CalculateSelects(d: MolecularDistanceEdge, mol: Molecule, D: seq<seq<nat>>, V: seq<int>)
    requires WellSized(mol, D, V)
    ensures var pairs := Pairs(d, mol, V, 0);
      && (forall p :: p in pairs <==> p.0 < p.1 < |mol| && Qualifies(d, mol, V, p.0, p.1))
      && PairsSorted(pairs)
      && 2 * |pairs| <= |mol| * (|mol| - 1)
      && (Calculate(d, mol, D, V).None? <==> pairs == [])
      && (Calculate(d, mol, D, V).Some? ==>
            |Calculate(d, mol, D, V).value| == |pairs| &&
            forall k :: 0 <= k < |pairs| ==> Calculate(d, mol, D, V).value[k] == D[pairs[k].0][pairs[k].1])
  {
    PairsMembers(d, mol, V, 0);
    PairsSortedOnce(d, mol, V, 0);
    PairsLength(d, mol, V, 0);
  }

  /** NaN exactly when no pair of atoms qualifies. */
  lemma MissingIffNoPair(d: MolecularDistanceEdge, mol: Molecule, D: seq<seq<nat>>, V: seq<int>)
    requires WellSized(mol, D, V)
    ensures Calculate(d, mol, D, V).None? <==>
      forall i, j :: 0 <= i < j < |mol| ==> !Qualifies(d, mol, V, i, j)
  {
    var pairs := Pairs(d, mol, V, 0);
    PairsMembers(d, mol, V, 0);
    assert Calculate(d, mol, D, V).None? <==> pairs == [];
    if pairs != [] {
      assert pairs[0] in pairs;
    } else {
      forall i, j | 0 <= i < j < |mol|
        ensures !Qualifies(d, mol, V, i, j)
      {
        assert (i, j) !in pairs;
      }
    }
  }

  /** For a normalised descriptor the either-orientation test is the set
      comparison {V[i], V[j]} == {valence1, valence2}. */
  lemma QualifiesBySets(d: MolecularDistanceEdge, mol: Molecule, V: seq<int>, i: nat, j: nat)
    requires i < |mol| && j < |mol| && |V| == |mol|
    requires d.valence1 <= d.valence2
    ensures Qualifies(d, mol, V, i, j) <==>
      {V[i], V[j]} == {d.valence1, d.valence2} && mol[i].atomicNum == d.atomicNum && mol[j].atomicNum == d.atomicNum
  {
    if {V[i], V[j]} == {d.valence1, d.valence2} {
      assert V[i] in {d.valence1, d.valence2} && V[j] in {d.valence1, d.valence2};
      assert d.valence1 in {V[i], V[j]} && d.valence2 in {V[i], V[j]};
    }
  }

  // ---------------------------------------------------------------------
  // The index on the selected distances
  // ---------------------------------------------------------------------

  function Product(dv: seq<nat>): nat
  {
    if dv == [] then 1 else Product(dv[..|dv| - 1]) * dv[|dv| - 1]
  }

  function Power(x: real, n: nat): real
  {
    if n == 0 then 1.0 else Power(x, n - 1) * x
  }

  /** r is the index of the distances dv as lines 83-85 define it, read over
      the reals: with dx = (product of dv)^(1/(2n)), r = n / dx^2, that is
      (n / r)^n == product of dv. */
  ghost predicate IsIndex(dv: seq<nat>, r: real)
  {
    |dv| > 0 && r > 0.0 && Power(|dv| as real / r, |dv|) == Product(dv) as real
  }

  /** One qualifying pair at distance t gives the index 1 / t. */
  lemma SinglePairIndex(t: nat, r: real)
    requires t > 0
    ensures IsIndex([t], r) <==> r == 1.0 / t as real
  {
    assert Product([t]) == t by {
      assert [t][..0] == [];
    }
    if r > 0.0 {
      assert Power(1.0 / r, 1) == 1.0 / r;
    }
  }
}
