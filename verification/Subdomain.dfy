/** Comparing names label by label from the right, ignoring ASCII case. */
module Subdomain {
  import opened Octets
  import opened Presentation
  import opened LabelWalks

  function Fold(b: byte): byte {
    if 65 <= b <= 90 then b + 32 else b
  }

  function FoldText(s: Text): (r: Text)
    ensures |r| == |s|
    ensures forall i :: 0 <= i < |s| ==> r[i] == Fold(s[i])
  {
    seq(|s|, i requires 0 <= i < |s| => Fold(s[i]))
  }

  /** `equal`: right to left, without allocating folded copies. */
  method Equal(a: Text, b: Text) returns (eq: bool)
    ensures eq <==> FoldText(a) == FoldText(b)
  {
    if |a| != |b| {
      assert |FoldText(a)| != |FoldText(b)|;
      return false;
    }
    var i := |a| - 1;
    while i >= 0
      invariant -1 <= i < |a|
      invariant forall k :: i < k < |a| ==> Fold(a[k]) == Fold(b[k])
    {
      var ai := if 65 <= a[i] <= 90 then a[i] + 32 else a[i];
      var bi := if 65 <= b[i] <= 90 then b[i] + 32 else b[i];
      if ai != bi {
        assert FoldText(a)[i] != FoldText(b)[i];
        return false;
      }
      i := i - 1;
    }
    assert FoldText(a) == FoldText(b);
    return true;
  }

  /** The labels of a text with the dots that close them. */
  function PiecesFrom(s: Text, b: nat): (ps: seq<Text>)
    requires b <= |s|
    ensures |ps| == |StartsFrom(s, b)|
    decreases |s| - b
  {
    if b == |s| then []
    else if b + FirstDot(s[b..]) == |s| then [s[b..]]
    else [s[b..b + FirstDot(s[b..]) + 1]] + PiecesFrom(s, b + FirstDot(s[b..]) + 1)
  }

  function Pieces(s: Text): (ps: seq<Text>)
    ensures |ps| == |Starts(s)|
  {
    if s == [DOT] then [] else if s == [] then [[]] else PiecesFrom(s, 0)
  }

  /** The case-folded labels of a name. */
  function Folded(s: Text): (r: seq<Text>)
    ensures |r| == |Starts(s)|
    ensures forall i :: 0 <= i < |r| ==> r[i] == FoldText(Pieces(s)[i])
  {
    seq(|Pieces(s)|, i requires 0 <= i < |Pieces(s)| => FoldText(Pieces(s)[i]))
  }

  /** End of the `j`-th label: the start of the next one, or the end of the text. */
  function PieceEnd(idx: seq<nat>, n: nat, j: nat): nat {
    if j + 1 < |idx| then idx[j + 1] else n
  }

  lemma PieceEndAhead(b: nat, rest: seq<nat>, n: nat, j: nat)
    requires j <= |rest|
    ensures PieceEnd([b] + rest, n, j) == if j > 0 then PieceEnd(rest, n, j - 1) else if rest == [] then n else rest[0]
  {
  }

  lemma {:induction false} PieceFromAt(s: Text, b: nat, j: nat)
    requires b <= |s| && j < |StartsFrom(s, b)|
    ensures var idx := StartsFrom(s, b);
            idx[j] <= PieceEnd(idx, |s|, j) <= |s| && PiecesFrom(s, b)[j] == s[idx[j]..PieceEnd(idx, |s|, j)]
    decreases |s| - b
  {
    hide FirstDot, StartsFrom, PiecesFrom, PieceEnd;
    if j == 0 {
      PieceHead(s, b);
    } else {
      var d := b + FirstDot(s[b..]);
      MoreStarts(s, b, j);
      PieceTail(s, b, j, d);
      PieceFromAt(s, d + 1, j - 1);
    }
  }

  lemma {:induction false} PieceHead(s: Text, b: nat)
    requires b <= |s| && StartsFrom(s, b) != []
    ensures var idx := StartsFrom(s, b);
            idx[0] <= PieceEnd(idx, |s|, 0) <= |s| && PiecesFrom(s, b)[0] == s[idx[0]..PieceEnd(idx, |s|, 0)]
  {
    hide FirstDot;
    var d := b + FirstDot(s[b..]);
    if d < |s| {
      PieceEndAhead(b, StartsFrom(s, d + 1), |s|, 0);
    }
  }

  lemma {:induction false} MoreStarts(s: Text, b: nat, j: nat)
    requires b <= |s| && 0 < j < |StartsFrom(s, b)|
    ensures b + FirstDot(s[b..]) < |s|
  {
    hide FirstDot;
  }

  lemma {:induction false} PieceTail(s: Text, b: nat, j: nat, d: nat)
    requires b <= d < |s| && d == b + FirstDot(s[b..])
    requires 0 < j < |StartsFrom(s, b)|
    ensures StartsFrom(s, b) == [b] + StartsFrom(s, d + 1) && PiecesFrom(s, b)[j] == PiecesFrom(s, d + 1)[j - 1]
    ensures PieceEnd(StartsFrom(s, b), |s|, j) == PieceEnd(StartsFrom(s, d + 1), |s|, j - 1)
  {
    hide FirstDot, PieceEnd, StartsFrom;
    StartsFromNext(s, b);
    PieceEndAhead(b, StartsFrom(s, d + 1), |s|, j);
    PiecesNext(s, b, d);
  }

  lemma {:induction false} PiecesNext(s: Text, b: nat, d: nat)
    requires b <= d < |s| && d == b + FirstDot(s[b..])
    ensures PiecesFrom(s, b) == [s[b..d + 1]] + PiecesFrom(s, d + 1)
  {
    hide FirstDot, StartsFrom;
  }

  /** Labels are the stretches between starts. */
  lemma {:induction false} PieceAt(s: Text, j: nat)
    requires j < |Starts(s)|
    ensures var idx := Starts(s);
            idx[j] <= PieceEnd(idx, |s|, j) <= |s| && Pieces(s)[j] == s[idx[j]..PieceEnd(idx, |s|, j)]
  {
    if s != [] {
      PieceFromAt(s, 0, j);
    }
  }

  /** The element at distance `k` from the end. */
  function FromEnd(xs: seq<Text>, k: nat): Text
    requires k < |xs|
  {
    xs[|xs| - 1 - k]
  }

  /** Length of the longest common suffix of two lists. */
  function CommonSuffix(a: seq<Text>, b: seq<Text>): (n: nat)
    ensures n <= |a| && n <= |b|
  {
    if a == [] || b == [] || a[|a| - 1] != b[|b| - 1] then 0 else 1 + CommonSuffix(a[..|a| - 1], b[..|b| - 1])
  }

  /** The list `a` is a suffix of `b`. */
  predicate SuffixOf(a: seq<Text>, b: seq<Text>) {
    |a| <= |b| && b[|b| - |a|..] == a
  }

  /** A common suffix that cannot be extended to the left is the longest one. */
  lemma {:induction false} CommonSuffixIs(a: seq<Text>, b: seq<Text>, n: nat)
    requires n <= |a| && n <= |b| && forall k :: 0 <= k < n ==> FromEnd(a, k) == FromEnd(b, k)
    requires n < |a| && n < |b| ==> FromEnd(a, n) != FromEnd(b, n)
    ensures CommonSuffix(a, b) == n
  {
    if n > 0 {
      var a', b' := a[..|a| - 1], b[..|b| - 1];
      assert FromEnd(a, 0) == FromEnd(b, 0);
      assert forall k {:trigger FromEnd(a', k)} :: 0 <= k < |a'| ==> FromEnd(a', k) == FromEnd(a, k + 1);
      assert forall k {:trigger FromEnd(b', k)} :: 0 <= k < |b'| ==> FromEnd(b', k) == FromEnd(b, k + 1);
      CommonSuffixIs(a', b', n - 1);
    }
  }

  lemma {:induction false} CommonSuffixAgrees(a: seq<Text>, b: seq<Text>, k: nat)
    requires k < CommonSuffix(a, b)
    ensures FromEnd(a, k) == FromEnd(b, k)
  {
    if k > 0 {
      CommonSuffixAgrees(a[..|a| - 1], b[..|b| - 1], k - 1);
    }
  }

  lemma {:induction false} CommonSuffixWhole(a: seq<Text>, b: seq<Text>)
    ensures CommonSuffix(a, b) == |a| <==> SuffixOf(a, b)
  {
    if SuffixOf(a, b) {
      forall k | 0 <= k < |a| ensures FromEnd(a, k) == FromEnd(b, k) {
        assert b[|b| - |a|..][|a| - 1 - k] == a[|a| - 1 - k];
      }
      CommonSuffixIs(a, b, |a|);
    }
    if CommonSuffix(a, b) == |a| {
      forall i | 0 <= i < |a| ensures b[|b| - |a|..][i] == a[i] {
        CommonSuffixAgrees(a, b, |a| - 1 - i);
        assert FromEnd(a, |a| - 1 - i) == a[i];
      }
    }
  }

  /** The pieces at distance `k` from the end are equal up to case. */
  method SameFromEnd(s1: Text, s2: Text, l1: seq<nat>, l2: seq<nat>, k: nat) returns (eq: bool)
    requires l1 == Starts(s1) && l2 == Starts(s2) && k < |l1| && k < |l2|
    ensures eq <==> FromEnd(Folded(s1), k) == FromEnd(Folded(s2), k)
  {
    hide Starts, StartsFrom, Pieces, PiecesFrom;
    var i1, i2 := |l1| - 1 - k, |l2| - 1 - k;
    PieceAt(s1, i1);
    PieceAt(s2, i2);
    var e1 := if k == 0 then |s1| else l1[i1 + 1];
    var e2 := if k == 0 then |s2| else l2[i2 + 1];
    eq := Equal(s1[l1[i1]..e1], s2[l2[i2]..e2]);
  }

  /** `CompareDomainName`: how many labels two names share, counted from the right. */
  method CompareDomainName(s1: Text, s2: Text) returns (n: nat)
    ensures n == CommonSuffix(Folded(s1), Folded(s2))
  {
    hide Starts, Pieces, StartsFrom, PiecesFrom, FromEnd, CommonSuffix, FoldText, Folded;
    if s1 == [DOT] || s2 == [DOT] {
      FoldedRoot();
      CommonSuffixIs(Folded(s1), Folded(s2), 0);
      return 0;
    }
    var l1 := Split(s1);
    var l2 := Split(s2);
    n := 0;
    while n < |l1| && n < |l2|
      invariant n <= |l1| && n <= |l2|
      invariant forall k :: 0 <= k < n ==> FromEnd(Folded(s1), k) == FromEnd(Folded(s2), k)
    {
      var eq := SameFromEnd(s1, s2, l1, l2, n);
      if !eq {
        break;
      }
      n := n + 1;
    }
    CommonSuffixIs(Folded(s1), Folded(s2), n);
  }

  lemma FoldedRoot()
    ensures Folded([DOT]) == []
  {
  }

  /** `IsSubDomain`: exactly when the parent's folded labels are a suffix of the child's. */
  method IsSubDomain(parent: Text, child: Text) returns (sub: bool)
    ensures sub <==> SuffixOf(Folded(parent), Folded(child))
  {
    var n := CompareDomainName(parent, child);
    var c := CountLabel(parent);
    CommonSuffixWhole(Folded(parent), Folded(child));
    sub := n == c;
  }

  /** Hence the relation is reflexive and transitive, and the root is above everything. */
  lemma {:induction false} SubdomainIsPreorder(a: Text, b: Text, c: Text)
    ensures SuffixOf(Folded(a), Folded(a)) && SuffixOf(Folded([DOT]), Folded(a))
    ensures SuffixOf(Folded(a), Folded(b)) && SuffixOf(Folded(b), Folded(c)) ==> SuffixOf(Folded(a), Folded(c))
  {
    hide Folded;
    FoldedRoot();
    var x, y, z := Folded(a), Folded(b), Folded(c);
    assert x[|x| - |x|..] == x && x[|x|..] == [];
    if SuffixOf(x, y) && SuffixOf(y, z) {
      assert z[|z| - |x|..] == z[|z| - |y|..][|y| - |x|..] == x;
    }
  }
}
