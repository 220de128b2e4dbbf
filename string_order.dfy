/** The C library's `strcmp`, as the three programs use it: only the sign of
    the result matters, characters compare by code, and a proper prefix
    sorts before the longer string. */
module StringOrder {

  /** The sign of `strcmp(a, b)`: -1, 0 or 1. */
  function Compare(a: string, b: string): (r: int)
    ensures -1 <= r <= 1
    ensures a == [] ==> (r == 0 <==> b == [])
  {
    if a == [] && b == [] then 0
    else if a == [] then -1
    else if b == [] then 1
    else if a[0] != b[0] then (if a[0] < b[0] then -1 else 1)
    else Compare(a[1..], b[1..])
  }

  /** `strcmp(a, b) < 0`. */
  predicate Less(a: string, b: string) {
    Compare(a, b) < 0
  }

  /** `strcmp(a, b) <= 0`. */
  predicate LessEq(a: string, b: string) {
    Compare(a, b) <= 0
  }

  /** `strcmp` reports equality exactly for equal strings. */
  lemma {:induction false} CompareZeroIffEqual(a: string, b: string)
    ensures Compare(a, b) == 0 <==> a == b
    decreases |a|
  {
    if a != [] && b != [] && a[0] == b[0] {
      CompareZeroIffEqual(a[1..], b[1..]);
      if a[1..] == b[1..] {
        assert a == [a[0]] + a[1..] && b == [b[0]] + b[1..];
      }
    }
  }

  /** Swapping the arguments of `strcmp` flips the sign. */
  lemma {:induction false} CompareFlips(a: string, b: string)
    ensures Compare(b, a) == -Compare(a, b)
    decreases |a|
  {
    if a != [] && b != [] && a[0] == b[0] {
      CompareFlips(a[1..], b[1..]);
    }
  }

  /** A negative `strcmp` chains. */
  lemma {:induction false} LessTransitive(a: string, b: string, c: string)
    requires Less(a, b) && Less(b, c)
    ensures Less(a, c)
    decreases |a|
  {
    if a != [] && b != [] && c != [] && a[0] == b[0] && b[0] == c[0] {
      LessTransitive(a[1..], b[1..], c[1..]);
    }
  }

  /** `Less` is a strict total order on strings: irreflexive, asymmetric,
      transitive, and any two different strings are comparable. */
  lemma LessIsStrictTotalOrder()
    ensures forall a: string :: !Less(a, a)
    ensures forall a: string, b: string :: Less(a, b) ==> !Less(b, a)
    ensures forall a: string, b: string, c: string :: Less(a, b) && Less(b, c) ==> Less(a, c)
    ensures forall a: string, b: string :: a != b ==> Less(a, b) || Less(b, a)
  {
    forall a: string ensures !Less(a, a) {
      CompareZeroIffEqual(a, a);
    }
    forall a: string, b: string ensures Less(a, b) ==> !Less(b, a) {
      CompareFlips(a, b);
    }
    forall a: string, b: string, c: string | Less(a, b) && Less(b, c) ensures Less(a, c) {
      LessTransitive(a, b, c);
    }
    forall a: string, b: string | a != b ensures Less(a, b) || Less(b, a) {
      CompareZeroIffEqual(a, b);
      CompareFlips(a, b);
    }
  }

  /** Exactly one of `Less(a, b)`, `a == b`, `Less(b, a)` holds. */
  lemma Trichotomy(a: string, b: string)
    ensures Less(a, b) || a == b || Less(b, a)
    ensures !(Less(a, b) && Less(b, a))
    ensures a == b ==> !Less(a, b)
  {
    CompareZeroIffEqual(a, b);
    CompareFlips(a, b);
  }

  /** A non-positive `strcmp` chains. */
  lemma LessEqTransitive(a: string, b: string, c: string)
    requires LessEq(a, b) && LessEq(b, c)
    ensures LessEq(a, c)
  {
    CompareZeroIffEqual(a, b);
    CompareZeroIffEqual(b, c);
    if Less(a, b) && Less(b, c) {
      LessTransitive(a, b, c);
    }
  }

  /** `strcmp(b, a) < 0` fails exactly when `strcmp(a, b) <= 0`. */
  lemma NotLessIsLessEq(a: string, b: string)
    ensures !Less(b, a) <==> LessEq(a, b)
  {
    CompareFlips(a, b);
  }

  /** `a <= b < c` gives `a < c`. */
  lemma LessEqLess(a: string, b: string, c: string)
    requires LessEq(a, b) && Less(b, c)
    ensures Less(a, c)
  {
    CompareZeroIffEqual(a, b);
    if a != b {
      LessTransitive(a, b, c);
    }
  }

  /** `a < b <= c` gives `a < c`. */
  lemma LessLessEq(a: string, b: string, c: string)
    requires Less(a, b) && LessEq(b, c)
    ensures Less(a, c)
  {
    CompareZeroIffEqual(b, c);
    if b != c {
      LessTransitive(a, b, c);
    }
  }
}
