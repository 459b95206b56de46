/** Walking over the labels of a presentation text, from the left and from the right. */
module LabelWalks {
  import opened Octets
  import opened Presentation
  import opened Qualified

  /** The dot at `k` has an even run of backslashes before it. */
  predicate RealDot(s: Text, k: nat) {
    k < |s| && s[k] == DOT && TrailingBackslashes(s[..k]) % 2 == 0
  }

  /** The starts of the labels of the text from `b` on, read from left to right. */
  function StartsFrom(s: Text, b: nat): (idx: seq<nat>)
    requires b <= |s|
    ensures forall j :: 0 <= j < |idx| ==> b <= idx[j] < |s|
    decreases |s| - b
  {
    if b == |s| then []
    else if b + FirstDot(s[b..]) == |s| then [b]
    else [b] + StartsFrom(s, b + FirstDot(s[b..]) + 1)
  }

  /** The label starts of a name; the lone dot has none. */
  function Starts(s: Text): (idx: seq<nat>)
    ensures s != [] && s != [DOT] ==> idx != [] && idx[0] == 0
  {
    if s == [DOT] then [] else if s == [] then [0] else StartsFrom(s, 0)
  }

  // ----- parity agrees with reading from the left -----

  lemma {:induction false} TrailingPrefix(a: Text, p: Text)
    requires a == [] || a[|a| - 1] != BACKSLASH
    ensures TrailingBackslashes(a + p) == TrailingBackslashes(p)
    decreases |p|
  {
    if p == [] {
      assert a + p == a;
    } else {
      assert (a + p)[..|a + p| - 1] == a + p[..|p| - 1];
      if p[|p| - 1] == BACKSLASH {
        TrailingPrefix(a, p[..|p| - 1]);
      }
    }
  }

  /** Up to the first unescaped dot, a dot is that dot exactly when the run before it is even. */
  lemma {:induction false} FirstDotParity(t: Text, i: nat)
    requires i < |t| && t[i] == DOT && i <= FirstDot(t)
    ensures i == FirstDot(t) <==> TrailingBackslashes(t[..i]) % 2 == 0
    decreases |t|
  {
    if i == 0 {
      assert t[..0] == [];
    } else if t[0] != DOT {
      var n := UnitLen(t);
      if i >= n {
        assert t[n..][..i - n] == t[..i][n..];
        TrailingDropUnit(t[..i], n, t[..i][n..]);
        FirstDotParity(t[n..], i - n);
      } else {
        assert i == 1 && t[..1] == [BACKSLASH];
        assert TrailingBackslashes([BACKSLASH]) == 1;
      }
    }
  }

  /** A position where a label starts: the front of the text, or just behind a real dot. */
  predicate LabelStart(s: Text, b: nat) {
    b <= |s| && (b == 0 || RealDot(s, b - 1))
  }

  /** From a label start, the next real dot is the first unescaped one. */
  lemma {:induction false} RealDotFromStart(s: Text, b: nat, k: nat)
    requires LabelStart(s, b) && b <= k < |s| && k <= b + FirstDot(s[b..])
    ensures RealDot(s, k) <==> k == b + FirstDot(s[b..])
  {
    hide FirstDot, TrailingBackslashes;
    var t := s[b..];
    assert t[k - b] == s[k];
    if s[k] == DOT {
      FirstDotParity(t, k - b);
      var p, q := s[..b], t[..k - b];
      assert s[..k] == p + q;
      assert p == [] || p[|p| - 1] == DOT;
      TrailingPrefix(p, q);
    }
  }

  lemma {:induction false} NextStart(s: Text, b: nat)
    requires LabelStart(s, b) && b + FirstDot(s[b..]) < |s|
    ensures RealDot(s, b + FirstDot(s[b..])) && LabelStart(s, b + FirstDot(s[b..]) + 1)
  {
    hide FirstDot, RealDot;
    var d := b + FirstDot(s[b..]);
    RealDotFromStart(s, b, d);
  }

  // ----- walking right -----

  /** The inner loop of both walks: step over the backslashes before the dot and look at the parity. */
  method DotIsReal(s: Text, i: nat) returns (unescaped: bool)
    requires i < |s| && s[i] == DOT
    ensures unescaped <==> RealDot(s, i)
  {
    var j := i - 1;
    while j >= 0 && s[j] == BACKSLASH
      invariant -1 <= j < i
      invariant TrailingBackslashes(s[..i]) == (i - 1 - j) + TrailingBackslashes(s[..j + 1])
    {
      assert s[..j + 1][..j] == s[..j];
      j := j - 1;
    }
    assert j >= 0 ==> s[..j + 1][j] == s[j];
    unescaped := (i - j) % 2 != 0;
  }

  /** `NextLabel`: the offset behind the next real dot that is not the last byte. */
  method NextLabel(s: Text, offset: nat) returns (i: nat, end: bool)
    ensures s == [] ==> i == 0 && end
    ensures !end ==> offset < i < |s| && RealDot(s, i - 1) && forall k :: offset <= k < i - 1 ==> !RealDot(s, k)
    ensures end && s != [] ==> forall k :: offset <= k < |s| - 1 ==> !RealDot(s, k)
    ensures end && s != [] ==> i == if offset < |s| then |s| else offset + 1
  {
    if s == [] {
      return 0, true;
    }
    i := offset;
    while i < |s| - 1
      invariant offset <= i && (i == offset || i <= |s| - 1)
      invariant forall k :: offset <= k < i && k < |s| - 1 ==> !RealDot(s, k)
    {
      if s[i] == DOT {
        var unescaped := DotIsReal(s, i);
        if unescaped {
          return i + 1, false;
        }
      }
      i := i + 1;
    }
    return i + 1, true;
  }

  /** What `NextLabel` answers at a label start. */
  lemma {:induction false} NextLabelSteps(s: Text, b: nat, i: nat, end: bool)
    requires s != [] && LabelStart(s, b) && b < |s|
    requires !end ==> b < i < |s| && RealDot(s, i - 1) && forall k :: b <= k < i - 1 ==> !RealDot(s, k)
    requires end ==> forall k :: b <= k < |s| - 1 ==> !RealDot(s, k)
    ensures !end ==> i == b + FirstDot(s[b..]) + 1
    ensures end <==> b + FirstDot(s[b..]) + 1 >= |s|
  {
    var d := b + FirstDot(s[b..]);
    if d < |s| {
      RealDotFromStart(s, b, d);
    }
    if !end && i - 1 <= d {
      RealDotFromStart(s, b, i - 1);
    }
  }

  lemma {:induction false} StartsFromNext(s: Text, b: nat)
    requires b < |s| && b + FirstDot(s[b..]) < |s|
    ensures StartsFrom(s, b) == [b] + StartsFrom(s, b + FirstDot(s[b..]) + 1)
  {
    hide FirstDot;
  }

  lemma {:induction false} StartsFromEnd(s: Text, b: nat)
    requires b < |s| && b + FirstDot(s[b..]) + 1 >= |s|
    ensures StartsFrom(s, b) == [b]
  {
    if b + FirstDot(s[b..]) < |s| {
      assert StartsFrom(s, |s|) == [];
    }
  }

  lemma {:induction false} CountIsLabels(s: Text, b: nat)
    requires b <= |s|
    ensures |StartsFrom(s, b)| == |Labels(s[b..])|
    decreases |s| - b
  {
    hide FirstDot, FirstLabel, Labels, StartsFrom, AfterDot;
    var t := s[b..];
    NoLabels();
    if b == |s| {
      NoStartsFrom(s);
    } else {
      LabelsUnfold(t);
      AfterDotIn(s, b);
      var d := b + FirstDot(t);
      if d < |s| {
        StartsFromNext(s, b);
        CountIsLabels(s, d + 1);
      } else {
        StartsFromEnd(s, b);
      }
    }
  }

  lemma NoStartsFrom(s: Text)
    ensures StartsFrom(s, |s|) == []
  {
  }

  lemma AfterDotIn(s: Text, b: nat)
    requires b < |s|
    ensures var d := b + FirstDot(s[b..]);
            d <= |s| && AfterDot(s[b..]) == if d < |s| then s[d + 1..] else []
  {
    hide FirstDot;
  }

  lemma StartAtFront(s: Text)
    ensures LabelStart(s, 0)
  {
  }

  /** The starts still to come after those collected in `idx`, the last of which is `off`. */
  ghost predicate Collected(s: Text, idx: seq<nat>, off: nat) {
    && idx != [] && idx[|idx| - 1] == off
    && if s == [] then idx == [0]
       else off < |s| && LabelStart(s, off) && Starts(s) == idx[..|idx| - 1] + StartsFrom(s, off)
  }

  lemma NoStarts()
    ensures Starts([]) == [0]
  {
  }

  lemma {:induction false} CollectedStep(s: Text, idx: seq<nat>, off: nat, i: nat, end: bool)
    requires Collected(s, idx, off)
    requires s == [] ==> end
    requires !end ==> off < i < |s| && RealDot(s, i - 1) && forall k :: off <= k < i - 1 ==> !RealDot(s, k)
    requires end && s != [] ==> forall k :: off <= k < |s| - 1 ==> !RealDot(s, k)
    ensures if end then idx == Starts(s) else Collected(s, idx + [i], i)
  {
    hide FirstDot, LabelStart, RealDot, StartsFrom, Starts;
    if s == [] {
      assert Starts(s) == [0] by { NoStarts(); }
    } else {
      NextLabelSteps(s, off, i, end);
      var front := idx[..|idx| - 1];
      assert idx == front + [off];
      if end {
        StartsFromEnd(s, off);
      } else {
        NextStart(s, off);
        StartsFromNext(s, off);
        var rest := StartsFrom(s, i);
        assert front + ([off] + rest) == (front + [off]) + rest;
        assert (idx + [i])[..|idx|] == idx;
      }
    }
  }

  /** `Split`: all label starts, collected with `NextLabel`. */
  method Split(s: Text) returns (idx: seq<nat>)
    ensures idx == Starts(s)
  {
    if s == [DOT] {
      return [];
    }
    idx := [0];
    var off, end := 0, false;
    assert idx[..0] + StartsFrom(s, 0) == StartsFrom(s, 0);
    hide StartsFrom, LabelStart, RealDot;
    StartAtFront(s);
    while !end
      invariant if end then idx == Starts(s) else Collected(s, idx, off)
      invariant !end ==> off <= |s|
      decreases !end, |s| - off
    {
      var i, e := NextLabel(s, off);
      CollectedStep(s, idx, off, i, e);
      off, end := i, e;
      if !end {
        idx := idx + [off];
      }
    }
  }

  /** `n` labels counted, and those from `off` on still to come. */
  ghost predicate Counting(s: Text, off: nat, n: nat) {
    if s == [] then n == 0 else off < |s| && LabelStart(s, off) && |Starts(s)| == n + |StartsFrom(s, off)|
  }

  lemma {:induction false} CountingStep(s: Text, off: nat, n: nat, i: nat, end: bool)
    requires Counting(s, off, n)
    requires s == [] ==> end
    requires !end ==> off < i < |s| && RealDot(s, i - 1) && forall k :: off <= k < i - 1 ==> !RealDot(s, k)
    requires end && s != [] ==> forall k :: off <= k < |s| - 1 ==> !RealDot(s, k)
    ensures if end then |Starts(s)| == n + 1 else Counting(s, i, n + 1)
  {
    hide FirstDot, LabelStart, RealDot, StartsFrom, Starts;
    if s == [] {
      NoStarts();
    } else {
      NextLabelSteps(s, off, i, end);
      if end {
        StartsFromEnd(s, off);
      } else {
        NextStart(s, off);
        StartsFromNext(s, off);
      }
    }
  }

  /** `CountLabel`: as many steps of `NextLabel` as there are labels. */
  method CountLabel(s: Text) returns (labels: nat)
    ensures labels == |Starts(s)|
  {
    if s == [DOT] {
      return 0;
    }
    hide StartsFrom, LabelStart, RealDot;
    StartAtFront(s);
    labels := 0;
    var off: nat := 0;
    while true
      invariant Counting(s, off, labels)
      decreases |s| - off
    {
      var i, e := NextLabel(s, off);
      CountingStep(s, off, labels, i, e);
      labels := labels + 1;
      if e {
        return;
      }
      off := i;
    }
  }

  // ----- walking left -----

  /** The label starts are exactly 0 and the places behind real dots, in increasing order. */
  lemma {:induction false} StartsAreBehindDots(s: Text, b: nat, k: nat)
    requires LabelStart(s, b) && b <= k < |s| - 1
    ensures RealDot(s, k) <==> k + 1 in StartsFrom(s, b)[1..]
    decreases |s| - b
  {
    hide FirstDot, LabelStart, RealDot;
    var d := b + FirstDot(s[b..]);
    if k <= d {
      RealDotFromStart(s, b, k);
    }
    if d < |s| {
      NextStart(s, b);
      var rest := StartsFrom(s, d + 1);
      assert StartsFrom(s, b) == [b] + rest;
      if k > d {
        StartsAreBehindDots(s, d + 1, k);
        assert rest[0] == d + 1;
        assert rest == [d + 1] + rest[1..];
      } else if k == d {
        assert rest[0] == d + 1;
      } else {
        assert forall j :: 0 <= j < |rest| ==> rest[j] > k + 1;
      }
    }
  }

  lemma {:induction false} StartsIncrease(s: Text, b: nat)
    requires b <= |s|
    ensures forall i, j :: 0 <= i < j < |StartsFrom(s, b)| ==> StartsFrom(s, b)[i] < StartsFrom(s, b)[j]
    decreases |s| - b
  {
    if b < |s| && b + FirstDot(s[b..]) < |s| {
      StartsIncrease(s, b + FirstDot(s[b..]) + 1);
    }
  }

  /** Everything PrevLabel needs to know about the list of starts. */
  lemma {:induction false} StartsShape(s: Text)
    requires s != [] && s != [DOT]
    ensures var idx := Starts(s);
            && |idx| >= 1 && idx[0] == 0
            && (forall i, j :: 0 <= i < j < |idx| ==> idx[i] < idx[j])
            && (forall i :: 0 <= i < |idx| ==> idx[i] < |s|)
            && (forall k :: 0 <= k < |s| - 1 ==> (RealDot(s, k) <==> k + 1 in idx[1..]))
  {
    StartsIncrease(s, 0);
    forall k | 0 <= k < |s| - 1 ensures RealDot(s, k) <==> k + 1 in Starts(s)[1..] {
      StartsAreBehindDots(s, 0, k);
    }
  }

  /** Going left, `c` starts have been passed: exactly those beyond `l + 1`. */
  ghost predicate Passed(idx: seq<nat>, l: int, c: int) {
    0 <= c < |idx| && forall j :: 0 <= j < |idx| ==> (idx[j] > l + 1 <==> j >= |idx| - c)
  }

  lemma PassedNone(s: Text, l: int)
    requires s != [] && s != [DOT] && l >= |s| - 2
    ensures Passed(Starts(s), l, 0)
  {
    StartsShape(s);
  }

  lemma PassedAll(idx: seq<nat>, c: int)
    requires Passed(idx, -1, c) && idx[0] == 0 && forall i, j :: 0 <= i < j < |idx| ==> idx[i] < idx[j]
    ensures c == |idx| - 1
  {
    assert |idx| > 1 ==> idx[1] > idx[0];
  }

  lemma {:induction false} PassedStep(s: Text, l: nat, c: int)
    requires s != [] && s != [DOT] && l < |s| && Passed(Starts(s), l, c) && (l == |s| - 1 ==> s[l] != DOT)
    ensures if RealDot(s, l)
            then c + 1 < |Starts(s)| && Starts(s)[|Starts(s)| - c - 1] == l + 1 && Passed(Starts(s), l - 1, c + 1)
            else Passed(Starts(s), l - 1, c)
  {
    StartsShape(s);
    PassedOver(s, Starts(s), l, c);
  }

  lemma {:induction false} PassedOver(s: Text, idx: seq<nat>, l: nat, c: int)
    requires l < |s| && Passed(idx, l, c) && (l == |s| - 1 ==> !RealDot(s, l))
    requires |idx| >= 1 && idx[0] == 0 && (forall i, j :: 0 <= i < j < |idx| ==> idx[i] < idx[j])
    requires (forall i :: 0 <= i < |idx| ==> idx[i] < |s|) && (l < |s| - 1 ==> (RealDot(s, l) <==> l + 1 in idx[1..]))
    ensures if RealDot(s, l)
            then c + 1 < |idx| && idx[|idx| - c - 1] == l + 1 && Passed(idx, l - 1, c + 1)
            else Passed(idx, l - 1, c)
  {
    hide RealDot;
    if RealDot(s, l) {
      var m :| 0 <= m < |idx| - 1 && idx[1..][m] == l + 1;
      assert idx[m + 1] == l + 1;
      assert m + 2 < |idx| ==> idx[m + 2] > idx[m + 1];
      assert m + 1 == |idx| - c - 1;
    } else {
      forall j | 0 <= j < |idx| ensures idx[j] != l + 1 {
        if j > 0 && l < |s| - 1 {
          assert idx[1..][j - 1] == idx[j];
        }
      }
    }
  }

  /**
   * `PrevLabel`: the backward walk lands on the n-th label start from the end of `Split`, and
   * reports an overshoot exactly when there are fewer than n labels.
   */
  method PrevLabel(s: Text, n0: nat) returns (i: nat, start: bool)
    ensures s == [] ==> i == 0 && start
    ensures s != [] && n0 == 0 ==> i == |s| && !start
    ensures s == [DOT] && n0 >= 1 ==> i == 0 && (start <==> n0 > 1)
    ensures s != [] && s != [DOT] && n0 >= 1 ==>
              var idx := Starts(s);
              (start <==> n0 > |idx|) && i == (if start then 0 else idx[|idx| - n0])
  {
    if s == [] {
      return 0, true;
    }
    if n0 == 0 {
      return |s|, false;
    }
    var n := n0;
    var l := |s| - 1;
    if s[l] == DOT {
      l := l - 1;
    }
    ghost var root := s == [DOT];
    ghost var idx := Starts(s);
    if !root {
      StartsShape(s);
    }
    hide Starts, Passed, TrailingBackslashes;
    if !root {
      PassedNone(s, l);
    }
    while l >= 0 && n > 0
      invariant -1 <= l < |s| && 1 <= n <= n0 && (l == |s| - 1 ==> s[l] != DOT) && (root ==> l == -1 && n == n0)
      invariant !root ==> Passed(idx, l, n0 - n)
    {
      PassedStep(s, l, n0 - n);
      if s[l] == DOT {
        var unescaped := DotIsReal(s, l);
        if unescaped {
          n := n - 1;
          if n == 0 {
            return l + 1, false;
          }
        }
      }
      l := l - 1;
    }
    if !root {
      PassedAll(idx, n0 - n);
    }
    return 0, n > 1;
  }
}
