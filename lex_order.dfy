/** The order Python's `sorted` uses on `str` values: lexicographic by code
    point, where a proper prefix sorts before the longer string. Dafny's own
    `<` on sequences means "proper prefix", so the order is defined here. */
module LexOrder {

  /** `a < b` on Python strings. It is strict, and a proper prefix sorts
      before the longer string. */
  predicate LexLess(a: string, b: string)
    ensures LexLess(a, b) ==> a != b
    ensures |a| < |b| && a == b[..|a|] ==> LexLess(a, b)
    decreases |a|
  {
    |b| > 0 && (|a| == 0 || a[0] < b[0] || (a[0] == b[0] && LexLess(a[1..], b[1..])))
  }

  /** The textbook definition: `a` and `b` agree on their first `k` characters
      and then `a` ends while `b` goes on, or `a[k] < b[k]`. */
  ghost predicate DiffersFirstAt(a: string, b: string, k: nat)
  {
    && k <= |a| && k <= |b|
    && a[..k] == b[..k]
    && ((k == |a| && k < |b|) || (k < |a| && k < |b| && a[k] < b[k]))
  }

  lemma {:induction false} LexLessIsFirstDifference(a: string, b: string)
    ensures LexLess(a, b) <==> exists k: nat :: DiffersFirstAt(a, b, k)
  {
    if LexLess(a, b) {
      var k := FirstDifferenceOf(a, b);
      assert DiffersFirstAt(a, b, k);
    }
    if exists k: nat :: DiffersFirstAt(a, b, k) {
      var k: nat :| DiffersFirstAt(a, b, k);
      FirstDifferenceGivesLexLess(a, b, k);
    }
  }

  lemma {:induction false} FirstDifferenceOf(a: string, b: string) returns (k: nat)
    requires LexLess(a, b)
    ensures DiffersFirstAt(a, b, k)
    decreases |a|
  {
    if |a| == 0 || a[0] < b[0] {
      k := 0;
    } else {
      var k' := FirstDifferenceOf(a[1..], b[1..]);
      k := k' + 1;
      assert a[..k] == [a[0]] + a[1..][..k'];
      assert b[..k] == [b[0]] + b[1..][..k'];
    }
  }

  lemma {:induction false} FirstDifferenceGivesLexLess(a: string, b: string, k: nat)
    requires DiffersFirstAt(a, b, k)
    ensures LexLess(a, b)
    decreases k
  {
    if k > 0 {
      assert a[0] == a[..k][0] == b[..k][0] == b[0];
      assert a[1..][..k - 1] == a[..k][1..] == b[..k][1..] == b[1..][..k - 1];
      FirstDifferenceGivesLexLess(a[1..], b[1..], k - 1);
    }
  }

  lemma {:induction false} Irreflexive(a: string)
    ensures !LexLess(a, a)
    decreases |a|
  {
    if |a| > 0 {
      Irreflexive(a[1..]);
    }
  }

  lemma {:induction false} Transitive(a: string, b: string, c: string)
    requires LexLess(a, b) && LexLess(b, c)
    ensures LexLess(a, c)
    decreases |a|
  {
    if |a| > 0 && a[0] == b[0] && b[0] == c[0] {
      Transitive(a[1..], b[1..], c[1..]);
    }
  }

  lemma {:induction false} Total(a: string, b: string)
    requires a != b
    ensures LexLess(a, b) || LexLess(b, a)
    decreases |a|
  {
    if |a| > 0 && |b| > 0 && a[0] == b[0] {
      assert a == [a[0]] + a[1..] && b == [b[0]] + b[1..];
      Total(a[1..], b[1..]);
    }
  }

  lemma Asymmetric(a: string, b: string)
    requires LexLess(a, b)
    ensures !LexLess(b, a)
  {
    if LexLess(b, a) {
      Transitive(a, b, a);
      Irreflexive(a);
    }
  }
}
