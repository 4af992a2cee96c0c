/** Shared vocabulary of the two descriptor families: the molecule as the
    descriptors see it, rings as sets of atom indices, optional values, and
    Python's decimal rendering of integers (`str(n)`) used in display names. */
module Common {

  datatype Option<+T> = None | Some(value: T)

  /** The atom accessors the descriptors use: `GetAtomicNum()` and `GetIsAromatic()`. */
  datatype Atom = Atom(atomicNum: nat, aromatic: bool)

  /** Atoms indexed as `mol.GetAtomWithIdx(i)` indexes them; `|mol|` is `GetNumAtoms()`. */
  type Molecule = seq<Atom>

  /** A ring (or a fused ring system) is the frozenset of its atom indices. */
  type Ring = set<nat>

  /** Every atom index of the ring names an atom of the molecule. */
  predicate RingIn(mol: Molecule, r: Ring)
  {
    forall i :: i in r ==> i < |mol|
  }

  predicate RingsIn(mol: Molecule, rs: seq<Ring>)
  {
    forall k :: 0 <= k < |rs| ==> RingIn(mol, rs[k])
  }

  // ---------------------------------------------------------------------
  // Decimal rendering, as Python's str() renders an int
  // ---------------------------------------------------------------------

  predicate IsDigit(c: char)
  {
    '0' <= c <= '9'
  }

  predicate AllDigits(s: string)
  {
    forall k :: 0 <= k < |s| ==> IsDigit(s[k])
  }

  function DigitChar(d: nat): (c: char)
    requires d < 10
    ensures IsDigit(c) && c as int - '0' as int == d
  {
    ('0' as int + d) as char
  }

  /** The shortest decimal numeral of n: never empty, digits only. */
  function NatToString(n: nat): (s: string)
    ensures 0 < |s| && AllDigits(s)
    ensures n < 10 <==> |s| == 1
    ensures s[0] == '0' ==> n == 0
  {
    if n < 10 then [DigitChar(n)] else NatToString(n / 10) + [DigitChar(n % 10)]
  }

  /** `str(i)` for a Python int: a minus sign before the numeral of |i|. */
  function IntToString(i: int): (s: string)
    ensures 0 < |s|
    ensures i < 0 <==> s[0] == '-'
    ensures i >= 0 ==> AllDigits(s)
    ensures i < 0 ==> |s| > 1 && AllDigits(s[1..])
  {
    if i < 0 then "-" + NatToString(-i) else NatToString(i)
  }

  /** The value of a numeral read most significant digit first. */
  function DigitsValue(s: string): nat
    requires AllDigits(s)
  {
    if s == [] then 0
    else 10 * DigitsValue(s[..|s| - 1]) + (s[|s| - 1] as int - '0' as int)
  }

  /** Reading a rendered numeral back gives the number: the rendering loses nothing. */
  lemma {:induction false} NatToStringRoundTrip(n: nat)
    ensures DigitsValue(NatToString(n)) == n
  {
    var s := NatToString(n);
    if n >= 10 {
      NatToStringRoundTrip(n / 10);
      assert s[..|s| - 1] == NatToString(n / 10);
    }
  }

  lemma NatToStringInjective(m: nat, n: nat)
    requires NatToString(m) == NatToString(n)
    ensures m == n
  {
    NatToStringRoundTrip(m);
    NatToStringRoundTrip(n);
  }
}
