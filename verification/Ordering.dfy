/** Lexicographic order on octet strings. */
module Ordering {
  import opened Octets

  /** `a` comes before `b`. */
  predicate LexLess(a: seq<byte>, b: seq<byte>) {
    b != [] && (a == [] || a[0] < b[0] || (a[0] == b[0] && LexLess(a[1..], b[1..])))
  }

  lemma {:induction false} LexIrreflexive(a: seq<byte>)
    ensures !LexLess(a, a)
  {
    if a != [] {
      LexIrreflexive(a[1..]);
    }
  }

  lemma {:induction false} LexTransitive(a: seq<byte>, b: seq<byte>, c: seq<byte>)
    requires LexLess(a, b) && LexLess(b, c)
    ensures LexLess(a, c)
  {
    if a != [] && a[0] == b[0] == c[0] {
      LexTransitive(a[1..], b[1..], c[1..]);
    }
  }

  lemma {:induction false} LexTotal(a: seq<byte>, b: seq<byte>)
    ensures a == b || LexLess(a, b) || LexLess(b, a)
  {
    if a != [] && b != [] && a[0] == b[0] {
      LexTotal(a[1..], b[1..]);
      assert a == [a[0]] + a[1..] && b == [b[0]] + b[1..];
    }
  }

  /** Exactly one of the three. */
  lemma {:induction false} LexTrichotomy(a: seq<byte>, b: seq<byte>)
    ensures a == b ==> !LexLess(a, b) && !LexLess(b, a)
    ensures LexLess(a, b) ==> !LexLess(b, a)
    ensures a == b || LexLess(a, b) || LexLess(b, a)
  {
    LexTotal(a, b);
    LexIrreflexive(a);
    if LexLess(a, b) && LexLess(b, a) {
      LexTransitive(a, b, a);
    }
  }

  /**
   * `a` comes before `b` as octets, read off the first place at which they differ: there `a` has ended,
   * or has the smaller octet.
   */
  ghost predicate Before(a: seq<byte>, b: seq<byte>) {
    exists k :: BeforeAt(a, b, k)
  }

  predicate BeforeAt(a: seq<byte>, b: seq<byte>, k: nat) {
    k <= |a| && k < |b| && a[..k] == b[..k] && (k == |a| || a[k] as int < b[k] as int)
  }

  /** The order by recursion is the order by the first difference. */
  lemma {:induction false} LexIsBefore(a: seq<byte>, b: seq<byte>)
    ensures LexLess(a, b) <==> Before(a, b)
  {
    if LexLess(a, b) {
      LexGivesPlace(a, b);
    }
    if k: nat :| BeforeAt(a, b, k) {
      PlaceGivesLex(a, b, k);
    }
  }

  lemma {:induction false} LexGivesPlace(a: seq<byte>, b: seq<byte>)
    requires LexLess(a, b)
    ensures Before(a, b)
  {
    if a == [] || a[0] < b[0] {
      assert BeforeAt(a, b, 0);
    } else {
      LexGivesPlace(a[1..], b[1..]);
      var k: nat :| BeforeAt(a[1..], b[1..], k);
      assert a[..k + 1] == [a[0]] + a[1..][..k] && b[..k + 1] == [b[0]] + b[1..][..k];
      assert BeforeAt(a, b, k + 1);
    }
  }

  lemma {:induction false} PlaceGivesLex(a: seq<byte>, b: seq<byte>, k: nat)
    requires BeforeAt(a, b, k)
    ensures LexLess(a, b)
  {
    if k > 0 {
      assert a[..k][0] == a[0] && b[..k][0] == b[0];
      assert a[1..][..k - 1] == a[..k][1..] && b[1..][..k - 1] == b[..k][1..];
      PlaceGivesLex(a[1..], b[1..], k - 1);
    }
  }
}
