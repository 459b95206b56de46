/**
 * The owner that is signed can be written whenever the owner can, and what `RRSIG.Sign` chooses for
 * its label count (section 3.1.3 of RFC 4034).
 */
module Wildcard {
  import opened Octets
  import opened Presentation
  import opened Qualified
  import opened LabelWalks
  import opened Subdomain
  import opened NameUnpack
  import opened CanonicalForm
  import opened ExactSizes

  // ----- a suffix does not depend on what stands before it -----

  /** The rune before the backslash run cannot reach across a dot. */
  lemma {:induction false} RuneBehindDot(a: Text, q: Text)
    requires a != [] && a[|a| - 1] == DOT
    ensures LastRuneWidth(a + q) == if q == [] then 1 else LastRuneWidth(q)
  {
    var p := a + q;
    assert p[|a| - 1] == DOT;
    if |q| > 0 {
      assert p[|p| - 1] == q[|q| - 1];
    }
    if |q| > 1 {
      assert p[|p| - 2] == q[|q| - 2];
    }
    if |q| > 2 {
      assert p[|p| - 3] == q[|q| - 3];
    }
    if |q| > 3 {
      assert p[|p| - 4] == q[|q| - 4];
    }
  }

  /** Whether a text is fully qualified is decided behind any dot in it. */
  lemma {:induction false} FqdnBehindDot(a: Text, b: Text, u: Text)
    requires a != [] && a[|a| - 1] == DOT && b != [] && b[|b| - 1] == DOT && u != []
    ensures IsFqdn(a + u) == IsFqdn(b + u)
  {
    hide LastRuneWidth, TrailingBackslashes;
    FqdnIs(a, u);
    FqdnIs(b, u);
  }

  lemma {:induction false} FqdnIs(a: Text, u: Text)
    requires a != [] && a[|a| - 1] == DOT && u != []
    ensures var p := u[..|u| - 1];
            var n := TrailingBackslashes(p);
            var stem := p[..|p| - n];
            IsFqdn(a + u) <==>
            u[|u| - 1] == DOT && (n == 0 || (n + if stem == [] then 1 else LastRuneWidth(stem)) % 2 != 0)
  {
    hide TrailingBackslashes, LastRuneWidth, IsFqdn;
    var p := u[..|u| - 1];
    var n := TrailingBackslashes(p);
    var stem := p[..|p| - n];
    var s, q := a + u, a + p;
    assert s[..|s| - 1] == q;
    TrailingPrefix(a, p);
    assert q[..|q| - n] == a + stem;
    RuneBehindDot(a, stem);
    FqdnByWidth(s);
  }

  lemma {:induction false} FqdnByWidth(s: Text)
    requires s != []
    ensures var q := s[..|s| - 1];
            var n := TrailingBackslashes(q);
            var stem := q[..|q| - n];
            IsFqdn(s) <==>
            s[|s| - 1] == DOT && (n == 0 || (n + if stem == [] then 1 else LastRuneWidth(stem)) % 2 != 0)
  {
    var q := s[..|s| - 1];
    assert TrailingBackslashes(q) == 0 <==> q == [] || q[|q| - 1] != BACKSLASH;
    RuneParity(q);
    hide TrailingBackslashes, LastRuneWidth, LastNonBackslash;
  }

  // ----- labels joined again are a stretch of the name -----

  /** Where the first `j` labels end, the dot behind them not counted. */
  function EndOf(s: Text, j: nat): int
    requires 0 < j <= |Starts(s)|
  {
    if j < |Starts(s)| then Starts(s)[j] - 1 else |s| - 1
  }

  lemma {:induction false} DotBefore(s: Text, j: nat)
    requires s != [] && s != [DOT] && 0 < j < |Starts(s)|
    ensures 0 < Starts(s)[j] < |s| && s[Starts(s)[j] - 1] == DOT
  {
    StartsShape(s);
    hide Starts;
    var idx := Starts(s);
    assert idx[1..][j - 1] == idx[j];
    assert RealDot(s, idx[j] - 1);
  }

  lemma {:induction false} LabelIsStretch(s: Text, i: nat)
    requires s != [] && IsFqdn(s) && s != [DOT] && i < |Starts(s)|
    ensures Starts(s)[i] <= EndOf(s, i + 1) <= |s| && |SplitName(s)| == |Starts(s)|
    ensures SplitName(s)[i] == s[Starts(s)[i]..EndOf(s, i + 1)]
  {
    hide IsFqdn, Starts, LabelText;
    LabelTextIs(s, i);
  }

  lemma {:induction false} JoinIsStretch(s: Text, i: nat, j: nat)
    requires s != [] && IsFqdn(s) && s != [DOT] && i < j <= |Starts(s)|
    ensures |SplitName(s)| == |Starts(s)| && Starts(s)[i] <= EndOf(s, j) <= |s|
    ensures Join(SplitName(s)[i..j]) == s[Starts(s)[i]..EndOf(s, j)]
    decreases j
  {
    hide IsFqdn, Starts, SplitName, EndOf, Join;
    LabelIsStretch(s, j - 1);
    var all := SplitName(s);
    var ls := all[i..j];
    if j == i + 1 {
      assert ls == [all[i]];
      JoinOne(all[i]);
    } else {
      JoinIsStretch(s, i, j - 1);
      DotBefore(s, j - 1);
      StartsOrdered(s, i, j - 1);
      EndBeforeDot(s, j - 1);
      assert ls == all[i..j - 1] + [all[j - 1]];
      JoinMore(all[i..j - 1], all[j - 1]);
      StretchesMeet(s, Starts(s)[i], Starts(s)[j - 1], EndOf(s, j));
    }
  }

  lemma JoinOne(l: Text)
    ensures Join([l]) == l
  {
  }

  lemma JoinMore(ls: seq<Text>, l: Text)
    requires ls != []
    ensures Join(ls + [l]) == Join(ls) + [DOT] + l
  {
    assert (ls + [l])[..|ls|] == ls;
  }

  lemma StretchesMeet(s: Text, b: nat, m: nat, e: nat)
    requires b < m <= e <= |s| && s[m - 1] == DOT
    ensures s[b..m - 1] + [DOT] + s[m..e] == s[b..e]
  {
  }

  lemma {:induction false} StartsOrdered(s: Text, i: nat, j: nat)
    requires s != [] && s != [DOT] && i < j < |Starts(s)|
    ensures Starts(s)[i] < Starts(s)[j]
  {
    StartsShape(s);
  }

  lemma EndBeforeDot(s: Text, j: nat)
    requires 0 < j < |Starts(s)|
    ensures EndOf(s, j) == Starts(s)[j] - 1
  {
  }

  // ----- suffixes of a good name -----

  /** A suffix that starts at a label is as good as the name and shorter by two octets a label. */
  lemma {:induction false} SuffixFrom(s: Text, b: nat, j: nat)
    requires b < |s| && EndsInDot(s[b..]) && GoodLabels(Labels(s[b..])) && j < |StartsFrom(s, b)|
    ensures var u := s[StartsFrom(s, b)[j]..];
            && u != [] && EndsInDot(u) && GoodLabels(Labels(u)) && WireLen(Labels(u)) + 2 * j <= WireLen(Labels(s[b..]))
    decreases |s| - b
  {
    hide FirstDot, FirstLabel, Labels, GoodLabels, WireLen, StartsFrom, EndsInDot, AfterDot;
    var t := s[b..];
    var d := b + FirstDot(t);
    ClosedFront(t);
    StartsFromNext(s, b);
    if j > 0 {
      WireUnfold(t);
      GoodLabelsUnfold(t);
      assert t[FirstDot(t) + 1..] == s[d + 1..];
      MoreBehind(s, d + 1, j - 1);
      SuffixFrom(s, d + 1, j - 1);
    }
  }

  lemma ClosedFront(t: Text)
    requires t != [] && EndsInDot(t)
    ensures FirstDot(t) < |t| && EndsInDot(AfterDot(t)) && AfterDot(t) == t[FirstDot(t) + 1..]
  {
    hide FirstDot;
  }

  lemma {:induction false} MoreBehind(s: Text, b: nat, j: nat)
    requires b <= |s| && j < |StartsFrom(s, b)|
    ensures b < |s|
  {
    hide FirstDot;
  }

  /** `*.` in front of a suffix. */
  lemma {:induction false} StarInFront(u: Text)
    requires u != [] && EndsInDot(u) && GoodLabels(Labels(u))
    ensures var w := [STAR, DOT] + u;
            && EndsInDot(w) && GoodLabels(Labels(w)) && WireLen(Labels(w)) == 2 + WireLen(Labels(u)) && w != [DOT]
  {
    var w := [STAR, DOT] + u;
    assert w[1..][0] == DOT && FirstDot(w[1..]) == 0 && FirstLabel(w[1..]) == [];
    assert FirstDot(w) == 1 && FirstLabel(w) == [STAR];
    assert AfterDot(w) == w[2..] == u;
    hide FirstDot, FirstLabel, Labels, GoodLabels, WireLen;
    WireUnfold(w);
    GoodLabelsUnfold(w);
  }

  /** A wildcard rebuilt from the last `k` labels of a longer name is `*.` and a suffix of the name. */
  lemma {:induction false} RebuiltIs(s: Text, k: nat)
    requires s != [] && IsFqdn(s) && s != [DOT] && 1 <= k < |Starts(s)|
    ensures |SplitName(s)| == |Starts(s)|
    ensures [STAR, DOT] + Join(LastLabels(s, k)) + [DOT] == [STAR, DOT] + s[Starts(s)[|Starts(s)| - k]..]
  {
    hide IsFqdn, Starts, SplitName, Join;
    var n := |Starts(s)|;
    JoinIsStretch(s, n - k, n);
    EndsWithDot(s);
    var ls := SplitName(s);
    assert ls[n - k..n] == ls[n - k..];
    var b := Starts(s)[n - k];
    assert s[b..|s| - 1] + [DOT] == s[b..];
  }

  lemma EndsWithDot(s: Text)
    requires IsFqdn(s)
    ensures s != [] && s[|s| - 1] == DOT
  {
  }

  lemma {:induction false} RebuiltNameable(s: Text, k: nat)
    requires s != [] && Nameable(s) && s != [DOT] && 1 <= k < |Starts(s)|
    ensures Nameable([STAR, DOT] + s[Starts(s)[|Starts(s)| - k]..])
  {
    hide IsFqdn, EndsInDot, GoodLabels, Labels, WireLen, Starts, StartsFrom;
    var n := |Starts(s)|;
    var b := Starts(s)[n - k];
    DotBefore(s, n - k);
    var a, u := s[..b], s[b..];
    StartsIsFrom(s);
    assert s[0..] == s;
    SuffixFrom(s, 0, n - k);
    StarInFront(u);
    assert a + u == s;
    FqdnBehindDot(a, [STAR, DOT], u);
  }

  lemma StartsIsFrom(s: Text)
    requires s != [] && s != [DOT]
    ensures Starts(s) == StartsFrom(s, 0)
  {
  }

  lemma {:induction false} SplitSize(s: Text)
    requires s != []
    ensures |SplitName(s)| == |Starts(s)|
  {
    hide Starts, IsFqdn;
  }

  lemma RootSplits()
    ensures SplitName([DOT]) == []
  {
  }

  /** The owner that is signed can be written, for every label count but zero, and for the root with any. */
  lemma {:induction false} SignedOwnerNameable(s: Text, k: nat)
    requires Nameable(s) && (k >= 1 || SplitName(s) == [])
    ensures Nameable(SignedOwner(s, k))
  {
    assert s != [];
    hide Nameable, SplitName, Starts, CanonicalName, Join;
    SplitSize(s);
    if |SplitName(s)| > k {
      RootSplits();
      NameableIsFqdn(s);
      RebuiltIs(s, k);
      RebuiltNameable(s, k);
      CanonicalNameable([STAR, DOT] + s[Starts(s)[|Starts(s)| - k]..]);
    } else {
      CanonicalNameable(s);
    }
  }

  lemma NameableIsFqdn(s: Text)
    requires Nameable(s)
    ensures IsFqdn(s)
  {
  }

  // ----- the label count that is chosen -----

  lemma {:induction false} StarDots(name: Text)
    requires SplitName(name) != []
    ensures SignedOwner(name, 0) == [STAR, DOT, DOT]
  {
    hide CanonicalName, SplitName;
    assert LastLabels(name, 0) == [];
    assert [STAR, DOT] + [] + [DOT] == [STAR, DOT, DOT];
    StarDotsCanonical();
  }

  lemma StarDotsCanonical()
    ensures CanonicalName([STAR, DOT, DOT]) == [STAR, DOT, DOT]
  {
    var s: Text := [STAR, DOT, DOT];
    assert TrailingBackslashes(s[..2]) == 0;
    assert IsFqdn(s);
  }

  /** `Sign`: the number of labels, less one when the owner begins with an asterisk; eight bits wide. */
  function SignCount(name: Text): nat {
    var n := |Starts(name)| % 256;
    if name != [] && name[0] == STAR then (n + 255) % 256 else n
  }

  /**
   * Exactly when the label count keeps the owner: it does not begin with an asterisk, or it begins
   * with a label that is one, and is not that label alone. `*foo.example.` begins with an asterisk
   * and is signed as `*.example.`.
   */
  lemma {:induction false} SignKeepsOwner(s: Text)
    requires s != [] && Nameable(s)
    ensures SignedOwner(s, SignCount(s)) == CanonicalName(s) <==>
            s[0] != '*' as int || (|s| > 2 && s[1] == '.' as int)
  {
    hide Nameable, SplitName, Starts, CanonicalName, Join, LastLabels;
    FewLabels(s);
    SplitSize(s);
    if s[0] == STAR {
      StarredStarts(s);
      if |Starts(s)| >= 2 {
        StarredOwner(s);
      } else {
        LoneStar(s);
      }
    }
  }

  lemma StarredStarts(s: Text)
    requires s != [] && s[0] == STAR
    ensures |Starts(s)| >= 1
  {
    hide StartsFrom;
  }

  lemma {:induction false} FewLabels(s: Text)
    requires Nameable(s)
    ensures |Starts(s)| <= 127
  {
    assert s != [];
    hide IsFqdn, EndsInDot, Labels, WireLen, GoodLabels, StartsFrom;
    if s != [DOT] {
      StartsIsFrom(s);
      CountIsLabels(s, 0);
      assert s[0..] == s;
      WireLenBound(Labels(s));
    }
  }

  function Starred(u: Text): Text {
    ['*' as int, '.' as int] + u
  }

  /** With a label count below its own, a name is signed as `*.` and its last labels. */
  lemma {:induction false} SignedOwnerIs(s: Text, k: nat)
    requires Nameable(s) && s != [DOT] && k >= 1
    ensures SignedOwner(s, k) ==
            CanonicalName(if k < |Starts(s)| then Starred(s[Starts(s)[|Starts(s)| - k]..]) else s)
  {
    hide Nameable, SplitName, Starts, CanonicalName, Join, LastLabels;
    NameableIsFqdn(s);
    SplitSize(s);
    if k < |Starts(s)| {
      RebuiltIs(s, k);
    }
  }

  /** With more than one label, an owner that begins with an asterisk is signed as `*.` and the rest. */
  lemma {:induction false} StarredOwner(s: Text)
    requires s != [] && Nameable(s) && s[0] == STAR && |Starts(s)| >= 2 && |Starts(s)| <= 127
    ensures SignedOwner(s, SignCount(s)) == CanonicalName(Starred(s[Starts(s)[1]..]))
    ensures SignedOwner(s, SignCount(s)) == CanonicalName(s) <==> |s| > 2 && s[1] == DOT
  {
    hide Nameable, SplitName, Starts, Join, IsFqdn, CanonicalName, LastLabels;
    StarIsNotRoot(s);
    NameableIsFqdn(s);
    SplitSize(s);
    var n := |Starts(s)|;
    RebuiltIs(s, n - 1);
    DotBefore(s, 1);
    var b := Starts(s)[1];
    var w := [STAR, DOT] + s[b..];
    CanonicalLength(s);
    RebuiltNameable(s, n - 1);
    NameableIsFqdn(w);
    CanonicalLength(w);
    SecondStartIs(s);
    if b == 2 {
      StarFront(s);
    }
  }

  lemma StarIsNotRoot(s: Text)
    requires s != [] && s[0] == STAR
    ensures s != [DOT]
  {
  }

  lemma StarFront(s: Text)
    requires |s| >= 2 && s[0] == STAR && s[1] == DOT
    ensures s == [STAR, DOT] + s[2..]
  {
  }

  lemma CanonicalLength(s: Text)
    requires IsFqdn(s)
    ensures |CanonicalName(s)| == |s|
  {
  }

  /** The second label starts at 2 exactly when the first is a single octet followed by a dot. */
  lemma {:induction false} SecondStartIs(s: Text)
    requires s != [] && s[0] == STAR && |Starts(s)| >= 2
    ensures Starts(s)[1] == 2 <==> |s| > 2 && s[1] == DOT
    ensures Starts(s)[1] >= 2
  {
    hide FirstDot, StartsFrom, Starts;
    StartsIsFrom(s);
    DotBehindStar(s);
    assert s[0..] == s;
    MoreStarts(s, 0, 1);
    StartsFromNext(s, 0);
    FrontOf(s, FirstDot(s) + 1);
  }

  lemma DotBehindStar(s: Text)
    requires s != [] && s[0] == STAR
    ensures FirstDot(s) >= 1 && (FirstDot(s) == 1 <==> |s| == 1 || s[1] == DOT)
  {
    assert s[1..] != [] ==> s[1..][0] == s[1];
  }

  lemma FrontOf(s: Text, b: nat)
    requires b <= |s| && StartsFrom(s, b) != []
    ensures StartsFrom(s, b)[0] == b && b < |s|
  {
    hide FirstDot;
  }

  /** A single label with an asterisk in front is not signed under its own name. */
  lemma {:induction false} LoneStar(s: Text)
    requires Nameable(s) && s[0] == STAR && |Starts(s)| == 1
    ensures SignedOwner(s, 0) != CanonicalName(s) && !(|s| > 2 && s[1] == DOT)
  {
    LoneHasNoDot(s);
    NameableIsFqdn(s);
    hide Nameable, Starts, SplitName, IsFqdn;
    SplitSize(s);
    StarDots(s);
    CanonicalLength(s);
    CanonicalSecond(s);
  }

  lemma {:induction false} LoneHasNoDot(s: Text)
    requires Nameable(s) && s[0] == STAR && |Starts(s)| == 1
    ensures |s| > 2 ==> s[1] != DOT
  {
    assert s != [] && s != [DOT];
    StartsIsFrom(s);
    var t := s[1..];
    assert FirstDot(s) == 1 + FirstDot(t);
    assert s[0..] == s;
    if |s| > 2 && s[1] == DOT {
      StartsFromNext(s, 0);
      assert |StartsFrom(s, 2)| == 0;
      EmptyAtEnd(s, 2);
    }
  }

  lemma EmptyAtEnd(s: Text, b: nat)
    requires b <= |s| && StartsFrom(s, b) == []
    ensures b == |s|
  {
    hide FirstDot;
  }

  /** Folding leaves an octet that is not a dot different from one. */
  lemma CanonicalSecond(s: Text)
    requires IsFqdn(s) && |s| > 1
    ensures CanonicalName(s)[1] == DOT <==> s[1] == DOT
  {
    FoldKeepsMarks(s[1]);
  }
}
