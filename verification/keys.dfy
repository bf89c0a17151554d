/**
 The values a table column holds, and the comparison both table pages use on them:
 JavaScript's relational operators `<` and `>` applied to one field of two records
 (`descendingComparator`), wrapped by a sort direction (`getComparator`).
 */
module Keys {

  /** A field value as the browser compares it: a number, a string, or
      `undefined` (a field the record lacks). */
  datatype Key = Num(n: int) | Str(s: string) | Missing

  /** The sort direction of a table column. */
  datatype Order = Asc | Desc

  /** A code unit that opens a surrogate pair in UTF-16. */
  predicate IsHighSurrogate(u: int) {
    0xD800 <= u < 0xDC00
  }

  /** The UTF-16 code units of one character: the character itself below
      U+10000, otherwise a high and a low surrogate that together spell it. */
  function Utf16(c: char): (u: seq<int>)
    ensures |u| == 1 || |u| == 2
    ensures forall i | 0 <= i < |u| :: 0 <= u[i] < 0x1_0000
    ensures |u| == 1 <==> !IsHighSurrogate(u[0])
    ensures |u| == 1 ==> u[0] == c as int
    ensures |u| == 2 ==>
      0xDC00 <= u[1] < 0xE000 &&
      0x1_0000 + (u[0] - 0xD800) * 0x400 + (u[1] - 0xDC00) == c as int
  {
    var n := c as int;
    if n < 0x1_0000 then [n]
    else
      var m := n - 0x1_0000;
      [0xD800 + m / 0x400, 0xDC00 + m % 0x400]
  }

  /** A string as JavaScript holds it: the sequence of its UTF-16 code units. */
  function CodeUnits(s: string): (u: seq<int>)
    ensures |s| > 0 ==> |u| > 0
    decreases |s|
  {
    if |s| == 0 then [] else Utf16(s[0]) + CodeUnits(s[1..])
  }

  /** Different strings have different code units: no information is lost. */
  lemma {:induction false} CodeUnitsInjective(a: string, b: string)
    requires CodeUnits(a) == CodeUnits(b)
    ensures a == b
    decreases |a|
  {
    if |a| > 0 {
      var ua, ub := Utf16(a[0]), Utf16(b[0]);
      assert CodeUnits(a) == ua + CodeUnits(a[1..]);
      assert CodeUnits(b) == ub + CodeUnits(b[1..]);
      assert CodeUnits(a)[0] == ua[0] && CodeUnits(b)[0] == ub[0];
      assert |ua| == |ub|;
      assert ua == CodeUnits(a)[..|ua|] && ub == CodeUnits(b)[..|ub|];
      assert a[0] == b[0];
      assert CodeUnits(a[1..]) == CodeUnits(a)[|ua|..] == CodeUnits(b[1..]);
      CodeUnitsInjective(a[1..], b[1..]);
      assert a == [a[0]] + a[1..] && b == [b[0]] + b[1..];
    }
  }

  /** Lexicographic `<` on code-unit sequences: unit by unit, with a proper
      prefix ordered before the longer sequence. */
  predicate UnitsLt(a: seq<int>, b: seq<int>)
    decreases |a|
  {
    if |a| == 0 then |b| > 0
    else if |b| == 0 then false
    else if a[0] != b[0] then a[0] < b[0]
    else UnitsLt(a[1..], b[1..])
  }

  /** JavaScript's `a < b` on two strings: the lexicographic order of their
      UTF-16 code units. */
  predicate LexLt(a: string, b: string) {
    UnitsLt(CodeUnits(a), CodeUnits(b))
  }

  /** The length of the longest common prefix of `a` and `b`: the first position
      where they differ, or the end of the shorter one. */
  function CommonPrefix(a: seq<int>, b: seq<int>): (k: nat)
    ensures k <= |a| && k <= |b|
    ensures a[..k] == b[..k]
    ensures k < |a| && k < |b| ==> a[k] != b[k]
    decreases |a|
  {
    if |a| == 0 || |b| == 0 || a[0] != b[0] then 0
    else
      var k := CommonPrefix(a[1..], b[1..]);
      assert a[..k + 1] == [a[0]] + a[1..][..k];
      assert b[..k + 1] == [b[0]] + b[1..][..k];
      k + 1
  }

  /** `UnitsLt` is the textbook lexicographic order: either `a` is a proper
      prefix of `b`, or at the first position where they differ `a` has the
      smaller unit. */
  lemma {:induction false} UnitsLtIsLexicographic(a: seq<int>, b: seq<int>)
    ensures var k := CommonPrefix(a, b);
      UnitsLt(a, b) <==> (k == |a| && k < |b|) || (k < |a| && k < |b| && a[k] < b[k])
    decreases |a|
  {
    if |a| > 0 && |b| > 0 && a[0] == b[0] {
      UnitsLtIsLexicographic(a[1..], b[1..]);
    }
  }

  /** String `<` compares the code units: a string is below another when its
      units are a proper prefix of the other's, or when at the first unit where
      they differ its unit is the smaller. */
  lemma LexLtIsLexicographic(a: string, b: string)
    ensures var u, v := CodeUnits(a), CodeUnits(b);
      var k := CommonPrefix(u, v);
      LexLt(a, b) <==> (k == |u| && k < |v|) || (k < |u| && k < |v| && u[k] < v[k])
  {
    UnitsLtIsLexicographic(CodeUnits(a), CodeUnits(b));
  }

  /** Code-unit order is not the order of the characters: U+1F600 sorts before
      U+FF01, because its first unit, the surrogate 0xD83D, is below 0xFF01. */
  lemma SupplementaryCharacterSortsByCodeUnit()
    ensures '\U{FF01}' as int < '\U{1F600}' as int
    ensures LexLt("\U{1F600}", "\U{FF01}") && !LexLt("\U{FF01}", "\U{1F600}")
  {
  }

  lemma {:induction false} UnitsLtIrreflexive(a: seq<int>)
    ensures !UnitsLt(a, a)
    decreases |a|
  {
    if |a| > 0 {
      UnitsLtIrreflexive(a[1..]);
    }
  }

  lemma {:induction false} UnitsLtAsymmetric(a: seq<int>, b: seq<int>)
    ensures UnitsLt(a, b) ==> !UnitsLt(b, a)
    decreases |a|
  {
    if |a| > 0 && |b| > 0 && a[0] == b[0] {
      UnitsLtAsymmetric(a[1..], b[1..]);
    }
  }

  lemma {:induction false} UnitsLtTransitive(a: seq<int>, b: seq<int>, c: seq<int>)
    requires UnitsLt(a, b) && UnitsLt(b, c)
    ensures UnitsLt(a, c)
    decreases |a|
  {
    if |a| > 0 && a[0] == b[0] && b[0] == c[0] {
      UnitsLtTransitive(a[1..], b[1..], c[1..]);
    }
  }

  lemma {:induction false} UnitsLtTotal(a: seq<int>, b: seq<int>)
    ensures a == b || UnitsLt(a, b) || UnitsLt(b, a)
    decreases |a|
  {
    if |a| > 0 && |b| > 0 && a[0] == b[0] {
      UnitsLtTotal(a[1..], b[1..]);
      if a[1..] == b[1..] {
        assert a == [a[0]] + a[1..] && b == [b[0]] + b[1..];
      }
    }
  }

  lemma LexLtIrreflexive(a: string)
    ensures !LexLt(a, a)
  {
    UnitsLtIrreflexive(CodeUnits(a));
  }

  lemma LexLtAsymmetric(a: string, b: string)
    ensures LexLt(a, b) ==> !LexLt(b, a)
  {
    UnitsLtAsymmetric(CodeUnits(a), CodeUnits(b));
  }

  lemma LexLtTransitive(a: string, b: string, c: string)
    requires LexLt(a, b) && LexLt(b, c)
    ensures LexLt(a, c)
  {
    UnitsLtTransitive(CodeUnits(a), CodeUnits(b), CodeUnits(c));
  }

  /** Two different strings are always ordered one way or the other. */
  lemma LexLtTotal(a: string, b: string)
    ensures a == b || LexLt(a, b) || LexLt(b, a)
  {
    UnitsLtTotal(CodeUnits(a), CodeUnits(b));
    if CodeUnits(a) == CodeUnits(b) {
      CodeUnitsInjective(a, b);
    }
  }

  /** JavaScript's `a < b` on two field values. Numbers compare numerically and
      strings by code units. `undefined` against anything is false, and so is a
      string against a number (JavaScript converts the string to a number, which
      for a non-numeric string is NaN). */
  predicate KeyLt(a: Key, b: Key) {
    match (a, b)
    case (Num(x), Num(y)) => x < y
    case (Str(x), Str(y)) => LexLt(x, y)
    case _ => false
  }

  lemma KeyLtAsymmetric(a: Key, b: Key)
    ensures KeyLt(a, b) ==> !KeyLt(b, a)
  {
    if a.Str? && b.Str? {
      LexLtAsymmetric(a.s, b.s);
    }
  }

  /** Every key of `ks` is present and all of them are numbers, or all strings:
      the inputs on which the comparator is a total preorder. */
  ghost predicate SameKind(ks: seq<Key>) {
    (forall i | 0 <= i < |ks| :: ks[i].Num?) || (forall i | 0 <= i < |ks| :: ks[i].Str?)
  }

  /** `descendingComparator`: negative when `a` belongs before `b` in descending
      order, positive when after, and zero when neither `<` nor `>` holds. */
  function DescendingComparator(a: Key, b: Key): (r: int)
    ensures r == -1 || r == 0 || r == 1
    ensures r < 0 <==> KeyLt(b, a)
    ensures r > 0 <==> KeyLt(a, b)
  {
    KeyLtAsymmetric(a, b);
    if KeyLt(b, a) then -1
    else if KeyLt(a, b) then 1
    else 0
  }

  lemma DescendingComparatorAntisymmetric(a: Key, b: Key)
    ensures DescendingComparator(a, b) == -DescendingComparator(b, a)
  {
  }

  /** An absent field ties with every value, present or not. */
  lemma MissingTiesWithEverything(k: Key)
    ensures DescendingComparator(Missing, k) == 0 && DescendingComparator(k, Missing) == 0
  {
  }

  /** Because `undefined` ties with everything, a column with a missing value is
      not a preorder: 1 ties with `undefined`, `undefined` ties with 2, yet 1 and
      2 do not tie. This is why sortedness is only promised for `SameKind` keys. */
  lemma MissingBreaksTransitivity()
    ensures DescendingComparator(Num(1), Missing) == 0
    ensures DescendingComparator(Missing, Num(2)) == 0
    ensures DescendingComparator(Num(1), Num(2)) != 0
  {
  }

  /** The comparator `getComparator` builds, applied to the two keys: in
      descending order it is `descendingComparator`, in ascending order its
      negation. Negative means `ka` is listed first. */
  function Compare(order: Order, ka: Key, kb: Key): (r: int)
    ensures r == -1 || r == 0 || r == 1
    ensures r < 0 <==> (if order == Asc then KeyLt(ka, kb) else KeyLt(kb, ka))
    ensures r > 0 <==> (if order == Asc then KeyLt(kb, ka) else KeyLt(ka, kb))
  {
    match order
    case Desc => DescendingComparator(ka, kb)
    case Asc => -DescendingComparator(ka, kb)
  }

  /** `getComparator`: the comparator on records that compares the column `key` reads. */
  function GetComparator<T>(order: Order, key: T -> Key): (T, T) -> int
  {
    (a: T, b: T) => Compare(order, key(a), key(b))
  }

  /** The ascending comparator is the negation of the descending one. */
  lemma AscendingNegatesDescending<T>(key: T -> Key, a: T, b: T)
    ensures GetComparator(Asc, key)(a, b) == -GetComparator(Desc, key)(a, b)
  {
  }

  /** Whether key `a` may stand directly before key `b` in a column sorted in `order`. */
  predicate InOrder(order: Order, a: Key, b: Key) {
    if order == Asc then !KeyLt(b, a) else !KeyLt(a, b)
  }

  /** On strings, `InOrder` is the code-unit order of the two strings. */
  lemma InOrderOnStrings(order: Order, x: string, y: string)
    ensures InOrder(order, Str(x), Str(y)) <==>
      if order == Asc then !LexLt(y, x) else !LexLt(x, y)
  {
  }
}
