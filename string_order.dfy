/** The key order of the bid index: std::string::compare, that is,
    lexicographic comparison of character values, a proper prefix being
    smaller than the longer string. */
module StringOrder {

  /** The sign of std::string::compare(a, b): negative when a sorts before b,
      zero when the strings are equal, positive when a sorts after b.
      The source only ever tests the sign, so the model returns -1, 0 or 1. */
  function Compare(a: string, b: string): (r: int)
    ensures -1 <= r <= 1
    ensures r == 0 <==> a == b
  {
    if |a| == 0 && |b| == 0 then 0
    else if |a| == 0 then -1
    else if |b| == 0 then 1
    else if a[0] < b[0] then -1
    else if a[0] > b[0] then 1
    else
      var r := Compare(a[1..], b[1..]);
      assert r == 0 ==> a == [a[0]] + a[1..] == [b[0]] + b[1..] == b;
      assert a == b ==> a[1..] == b[1..];
      r
  }

  /** Strict key order: a sorts before b. */
  predicate Less(a: string, b: string) {
    Compare(a, b) < 0
  }

  /** Swapping the operands of compare flips the sign of its result. */
  lemma {:induction false} CompareAntisymmetric(a: string, b: string)
    ensures Compare(b, a) == -Compare(a, b)
  {
    if |a| > 0 && |b| > 0 && a[0] == b[0] {
      CompareAntisymmetric(a[1..], b[1..]);
    }
  }

  lemma LessIrreflexive(a: string)
    ensures !Less(a, a)
  {
  }

  lemma LessAsymmetric(a: string, b: string)
    ensures Less(a, b) ==> !Less(b, a)
  {
    CompareAntisymmetric(a, b);
  }

  lemma {:induction false} LessTransitive(a: string, b: string, c: string)
    requires Less(a, b) && Less(b, c)
    ensures Less(a, c)
  {
    if |a| > 0 && |b| > 0 && |c| > 0 && a[0] == b[0] == c[0] {
      LessTransitive(a[1..], b[1..], c[1..]);
    }
  }

  /** Exactly one of a < b, a == b, b < a holds. */
  lemma LessTrichotomous(a: string, b: string)
    ensures Less(a, b) || a == b || Less(b, a)
    ensures !(Less(a, b) && Less(b, a))
  {
    CompareAntisymmetric(a, b);
  }

  /** a <= b and b < c give a < c. */
  lemma LessAfterAtMost(a: string, b: string, c: string)
    requires !Less(b, a) && Less(b, c)
    ensures Less(a, c)
  {
    LessTrichotomous(a, b);
    if a != b {
      LessTransitive(a, b, c);
    }
  }

  /** a < b and b <= c give a < c. */
  lemma LessBeforeAtMost(a: string, b: string, c: string)
    requires Less(a, b) && !Less(c, b)
    ensures Less(a, c)
  {
    LessTrichotomous(b, c);
    if b != c {
      LessTransitive(a, b, c);
    }
  }
}
