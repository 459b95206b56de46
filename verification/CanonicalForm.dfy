/** Canonical owner names and rdata names (section 6.2 of RFC 4034, section 5.3.2 of RFC 4035). */
module CanonicalForm {
  import opened Octets
  import opened Presentation
  import opened Qualified
  import opened LabelWalks
  import opened Subdomain
  import opened Records

  const STAR: byte := 42

  /** `CanonicalName` on ASCII text. */
  function CanonicalName(s: Text): Text {
    FoldText(Fqdn(s))
  }

  // ----- letter case does not move label boundaries -----

  lemma FoldKeepsMarks(b: byte)
    ensures Fold(b) == DOT <==> b == DOT
    ensures Fold(b) == BACKSLASH <==> b == BACKSLASH
    ensures IsDigit(Fold(b)) == IsDigit(b) && (IsDigit(b) ==> Fold(b) == b)
    ensures b >= 128 || Fold(b) >= 128 ==> Fold(b) == b
  {
  }

  lemma FoldSlice(s: Text, i: nat, j: nat)
    requires i <= j <= |s|
    ensures FoldText(s)[i..j] == FoldText(s[i..j])
  {
  }

  lemma FoldTwice(s: Text)
    ensures FoldText(FoldText(s)) == FoldText(s)
  {
  }

  lemma FoldConcat(a: Text, b: Text)
    ensures FoldText(a + b) == FoldText(a) + FoldText(b)
  {
  }

  lemma FoldUnitLen(t: Text)
    requires t != []
    ensures UnitLen(FoldText(t)) == UnitLen(t) && (FoldText(t)[0] == DOT <==> t[0] == DOT)
  {
    FoldKeepsMarks(t[0]);
    if |t| >= 4 {
      FoldKeepsMarks(t[1]);
      FoldKeepsMarks(t[2]);
      FoldKeepsMarks(t[3]);
    }
  }

  lemma {:induction false} FoldFirstDot(t: Text)
    ensures FirstDot(FoldText(t)) == FirstDot(t)
    decreases |t|
  {
    if t != [] && t[0] != DOT {
      var n := UnitLen(t);
      FoldUnitLen(t);
      FoldSlice(t, n, |t|);
      FoldFirstDot(t[n..]);
      assert FoldText(t)[n..] == FoldText(t)[n..|t|] == FoldText(t[n..]);
    }
  }

  lemma {:induction false} FoldStartsFrom(s: Text, b: nat)
    requires b <= |s|
    ensures StartsFrom(FoldText(s), b) == StartsFrom(s, b)
    decreases |s| - b
  {
    hide FirstDot, FoldText, StartsFrom;
    var f := FoldText(s);
    if b == |s| {
      StartsFromNone(s);
      StartsFromNone(f);
    } else {
      FoldDot1(s, b);
      var d := b + FirstDot(s[b..]);
      if d < |s| {
        StartsFromNext(s, b);
        StartsFromNext(f, b);
        FoldStartsFrom(s, d + 1);
      } else {
        StartsFromEnd(s, b);
        StartsFromEnd(f, b);
      }
    }
  }

  lemma StartsFromNone(s: Text)
    ensures StartsFrom(s, |s|) == []
  {
  }

  lemma {:induction false} FoldDot1(s: Text, b: nat)
    requires b <= |s|
    ensures FirstDot(FoldText(s)[b..]) == FirstDot(s[b..])
  {
    hide FirstDot, FoldText;
    FoldSlice(s, b, |s|);
    FoldFirstDot(s[b..]);
    assert FoldText(s)[b..] == FoldText(s)[b..|s|] && s[b..] == s[b..|s|];
  }

  lemma {:induction false} FoldStarts(s: Text)
    ensures Starts(FoldText(s)) == Starts(s)
  {
    hide StartsFrom;
    FoldStartsFrom(s, 0);
    assert FoldText(s) == [DOT] <==> s == [DOT] by {
      if |s| == 1 {
        FoldKeepsMarks(s[0]);
        assert FoldText(s)[0] == Fold(s[0]);
      }
    }
  }

  lemma {:induction false} FoldTrailing(p: Text)
    ensures TrailingBackslashes(FoldText(p)) == TrailingBackslashes(p)
    decreases |p|
  {
    if p != [] {
      FoldSlice(p, 0, |p| - 1);
      FoldTrailing(p[..|p| - 1]);
      assert FoldText(p)[..|p| - 1] == FoldText(p[..|p| - 1]);
    }
  }

  lemma FoldRuneWidth(p: Text)
    requires p != []
    ensures LastRuneWidth(FoldText(p)) == LastRuneWidth(p)
  {
    var n := |p|;
    FoldKeepsMarks(p[n - 1]);
    if n >= 2 { FoldKeepsMarks(p[n - 2]); }
    if n >= 3 { FoldKeepsMarks(p[n - 3]); }
    if n >= 4 { FoldKeepsMarks(p[n - 4]); }
  }

  lemma {:induction false} FoldIsFqdn(s: Text)
    ensures IsFqdn(FoldText(s)) == IsFqdn(s)
  {
    hide LastRuneWidth, TrailingBackslashes, FoldText;
    if s != [] {
      FoldKeepsMarks(s[|s| - 1]);
      var p := s[..|s| - 1];
      FoldSlice(s, 0, |s| - 1);
      FoldTrailing(p);
      var stem := p[..|p| - TrailingBackslashes(p)];
      FoldSlice(p, 0, |p| - TrailingBackslashes(p));
      if stem != [] {
        FoldRuneWidth(stem);
      }
    }
  }

  /** Completing a name and folding it can be done in either order. */
  lemma {:induction false} CanonicalOfFolded(s: Text)
    ensures CanonicalName(FoldText(s)) == CanonicalName(s)
  {
    hide IsFqdn;
    FoldIsFqdn(s);
    FoldTwice(s);
    FoldConcat(s, [DOT]);
    FoldConcat(FoldText(s), [DOT]);
  }

  /** Canonical names depend on a text only up to letter case. */
  lemma {:induction false} CanonicalUpToCase(a: Text, b: Text)
    requires FoldText(a) == FoldText(b)
    ensures CanonicalName(a) == CanonicalName(b)
  {
    hide CanonicalName;
    CanonicalOfFolded(a);
    CanonicalOfFolded(b);
  }

  // ----- splitting and joining -----

  /** Text of label `j`, without the dot that closes it. */
  function LabelText(s: Text, idx: seq<nat>, j: nat): Text
    requires j < |idx| && idx == Starts(s)
  {
    PieceAt(s, j);
    if j + 1 < |idx| then (StartsGrow(s, j); s[idx[j]..idx[j + 1] - 1])
    else LastLabelFits(s); s[idx[j]..if IsFqdn(s) then |s| - 1 else |s|]
  }

  lemma {:induction false} StartsGrow(s: Text, j: nat)
    requires j + 1 < |Starts(s)|
    ensures Starts(s)[j] < Starts(s)[j + 1] <= |s|
  {
    StartsShape(s);
  }

  lemma {:induction false} LastLabelFits(s: Text)
    requires Starts(s) != []
    ensures Starts(s)[|Starts(s)| - 1] <= if IsFqdn(s) then |s| - 1 else |s|
  {
    if s != [] {
      hide IsFqdn;
      StartsShape(s);
    }
  }

  /** `SplitDomainName`. */
  function SplitName(s: Text): (ls: seq<Text>) {
    if s == [] then [] else seq(|Starts(s)|, j requires 0 <= j < |Starts(s)| => LabelText(s, Starts(s), j))
  }

  lemma {:induction false} LabelTextIs(s: Text, j: nat)
    requires j < |Starts(s)|
    ensures var idx := Starts(s);
            var end := if j + 1 < |idx| then idx[j + 1] - 1 else if IsFqdn(s) then |s| - 1 else |s|;
            idx[j] <= end <= |s| && LabelText(s, idx, j) == s[idx[j]..end]
  {
    hide IsFqdn, Starts;
    if j + 1 < |Starts(s)| {
      StartsGrow(s, j);
    } else {
      LastLabelFits(s);
    }
  }

  method SplitDomainName(s: Text) returns (labels: seq<Text>)
    ensures labels == SplitName(s)
  {
    hide IsFqdn, Starts, LabelText;
    labels := [];
    if s == [] {
      return;
    }
    var idx := Split(s);
    var fqdnEnd := if IsFqdn(s) then |s| - 1 else |s|;
    if idx == [] {
      return;
    }
    var begin: nat := idx[0];
    for j := 1 to |idx|
      invariant |labels| == j - 1 && begin == idx[j - 1]
      invariant forall i :: 0 <= i < j - 1 ==> labels[i] == LabelText(s, idx, i)
    {
      LabelTextIs(s, j - 1);
      labels := labels + [s[begin..idx[j] - 1]];
      begin := idx[j];
    }
    LabelTextIs(s, |idx| - 1);
    labels := labels + [s[begin..fqdnEnd]];
  }

  function Join(ls: seq<Text>): Text {
    if ls == [] then [] else if |ls| == 1 then ls[0] else Join(ls[..|ls| - 1]) + [DOT] + ls[|ls| - 1]
  }

  function FoldAll(ls: seq<Text>): (r: seq<Text>)
    ensures |r| == |ls| && forall i :: 0 <= i < |r| ==> r[i] == FoldText(ls[i])
  {
    seq(|ls|, i requires 0 <= i < |ls| => FoldText(ls[i]))
  }

  lemma {:induction false} FoldJoin(ls: seq<Text>)
    ensures FoldText(Join(ls)) == Join(FoldAll(ls))
    decreases |ls|
  {
    if |ls| > 1 {
      var init, last := ls[..|ls| - 1], ls[|ls| - 1];
      FoldJoin(init);
      hide FoldText;
      FoldConcat(Join(init) + [DOT], last);
      FoldConcat(Join(init), [DOT]);
      FoldDot();
      assert FoldAll(ls)[..|ls| - 1] == FoldAll(init);
    }
  }

  lemma FoldDot()
    ensures FoldText([DOT]) == [DOT]
  {
  }

  lemma {:induction false} FoldSplit(s: Text)
    ensures SplitName(FoldText(s)) == FoldAll(SplitName(s))
  {
    hide IsFqdn, FoldText, Starts;
    FoldStarts(s);
    FoldIsFqdn(s);
    var idx := Starts(s);
    if s != [] {
      forall j | 0 <= j < |idx| ensures LabelText(FoldText(s), idx, j) == FoldText(LabelText(s, idx, j)) {
        PieceAt(s, j);
        if j + 1 < |idx| {
          StartsGrow(s, j);
          FoldSlice(s, idx[j], idx[j + 1] - 1);
        } else {
          LastLabelFits(s);
          FoldSlice(s, idx[j], if IsFqdn(s) then |s| - 1 else |s|);
        }
      }
    }
  }

  // ----- owner names -----

  /** The last `k` labels. */
  function LastLabels(s: Text, k: nat): seq<Text>
    requires k <= |SplitName(s)|
  {
    SplitName(s)[|SplitName(s)| - k..]
  }

  /** The owner as it is signed: labels beyond the signed count are a wildcard. */
  function SignedOwner(s: Text, k: nat): Text {
    CanonicalName(if |SplitName(s)| > k then [STAR, DOT] + Join(LastLabels(s, k)) + [DOT] else s)
  }

  /** Owners that one signature covers: equal up to case, or both longer with the same last `k` labels up to case. */
  predicate SameOwner(a: Text, b: Text, k: nat) {
    || FoldText(a) == FoldText(b)
    || (|SplitName(a)| > k && |SplitName(b)| > k && FoldAll(LastLabels(a, k)) == FoldAll(LastLabels(b, k)))
  }

  lemma {:induction false} WildcardUpToCase(x: seq<Text>, y: seq<Text>)
    requires FoldAll(x) == FoldAll(y)
    ensures FoldText([STAR, DOT] + Join(x) + [DOT]) == FoldText([STAR, DOT] + Join(y) + [DOT])
  {
    hide FoldText, Join, FoldAll;
    FoldJoin(x);
    FoldJoin(y);
    FoldConcat([STAR, DOT] + Join(x), [DOT]);
    FoldConcat([STAR, DOT], Join(x));
    FoldConcat([STAR, DOT] + Join(y), [DOT]);
    FoldConcat([STAR, DOT], Join(y));
  }

  lemma {:induction false} FoldLast(s: Text, k: nat)
    requires k <= |SplitName(s)|
    ensures FoldAll(LastLabels(s, k)) == FoldAll(SplitName(s))[|SplitName(s)| - k..]
  {
    hide FoldText, SplitName;
  }

  /** Equal folded texts have equal folded label lists. */
  lemma {:induction false} SameSplit(a: Text, b: Text)
    requires FoldText(a) == FoldText(b)
    ensures FoldAll(SplitName(a)) == FoldAll(SplitName(b))
  {
    FoldSplit(a);
    FoldSplit(b);
  }

  /** Letter case, and labels a wildcard stands for, do not change the owner that is signed. */
  lemma {:induction false} SignedOwnerSame(a: Text, b: Text, k: nat)
    requires SameOwner(a, b, k)
    ensures SignedOwner(a, k) == SignedOwner(b, k)
  {
    hide FoldText, SplitName, CanonicalName, Join, FoldAll, LastLabels;
    if FoldText(a) == FoldText(b) {
      SameSplit(a, b);
      var x, y := SplitName(a), SplitName(b);
      assert |x| == |FoldAll(x)| == |FoldAll(y)| == |y|;
      if |x| > k {
        FoldLast(a, k);
        FoldLast(b, k);
      }
    }
    if |SplitName(a)| > k && |SplitName(b)| > k {
      WildcardUpToCase(LastLabels(a, k), LastLabels(b, k));
      CanonicalUpToCase([STAR, DOT] + Join(LastLabels(a, k)) + [DOT], [STAR, DOT] + Join(LastLabels(b, k)) + [DOT]);
    } else {
      CanonicalUpToCase(a, b);
    }
  }

  // ----- rdata -----

  /** Types whose rdata names are folded. */
  predicate FoldsRdata(t: uint16) {
    t in {2, 3, 4, 5, 6, 7, 8, 9, 12, 14, 15, 17, 18, 21, 24, 26, 33, 35, 36, 39}
  }

  function CanonicalField(f: Field): Field {
    match f
    case Raw(_) => f
    case NameField(t, c) => NameField(CanonicalName(t), c)
  }

  function CanonicalFields(fs: seq<Field>): (r: seq<Field>)
    ensures |r| == |fs| && forall i :: 0 <= i < |r| ==> r[i] == CanonicalField(fs[i])
  {
    seq(|fs|, i requires 0 <= i < |fs| => CanonicalField(fs[i]))
  }

  /** A record in canonical form, under the signed label count and TTL. */
  function CanonicalRR(rr: RR, labels: nat, origTtl: uint32): RR {
    RR(SignedOwner(rr.name, labels), rr.rrtype, rr.class_, origTtl,
       if FoldsRdata(rr.rrtype) then CanonicalFields(rr.rdata) else rr.rdata)
  }

  predicate SameField(a: Field, b: Field) {
    match (a, b)
    case (Raw(x), Raw(y)) => x == y
    case (NameField(s, c), NameField(t, d)) => FoldText(s) == FoldText(t) && c == d
    case _ => false
  }

  /** Records that differ in nothing a signature covers: TTL, letter case and wildcard labels are free. */
  predicate SameSigned(a: RR, b: RR, labels: nat) {
    && a.rrtype == b.rrtype && a.class_ == b.class_ && SameOwner(a.name, b.name, labels)
    && if FoldsRdata(a.rrtype)
         then |a.rdata| == |b.rdata| && forall i :: 0 <= i < |a.rdata| ==> SameField(a.rdata[i], b.rdata[i])
       else a.rdata == b.rdata
  }

  lemma {:induction false} SameSignedIsCanonical(a: RR, b: RR, labels: nat, origTtl: uint32)
    requires SameSigned(a, b, labels)
    ensures CanonicalRR(a, labels, origTtl) == CanonicalRR(b, labels, origTtl)
  {
    hide SameOwner, SignedOwner, FoldsRdata, CanonicalName;
    SignedOwnerSame(a.name, b.name, labels);
    if FoldsRdata(a.rrtype) {
      forall i | 0 <= i < |a.rdata| ensures CanonicalField(a.rdata[i]) == CanonicalField(b.rdata[i]) {
        assert SameField(a.rdata[i], b.rdata[i]);
        if a.rdata[i].NameField? {
          CanonicalUpToCase(a.rdata[i].text, b.rdata[i].text);
        }
      }
      assert CanonicalFields(a.rdata) == CanonicalFields(b.rdata);
    }
  }

  // ----- what is folded -----

  /** `a` is `b` with the letters A to Z in lower case and nothing else changed. */
  predicate LowerOf(a: Text, b: Text) {
    && |a| == |b|
    && forall i :: 0 <= i < |b| ==>
         a[i] == if 'A' as int <= b[i] <= 'Z' as int then b[i] + ('a' as int - 'A' as int) else b[i]
  }

  /** A canonical name is the completed name in lower case. */
  lemma CanonicalIsLower(s: Text)
    ensures LowerOf(CanonicalName(s), if IsFqdn(s) then s else s + [DOT])
  {
    hide IsFqdn;
  }

  /**
   * What is signed of a record: its type and class, the TTL of the signature, the octets of its rdata,
   * and its rdata names, in lower case for NS, MD, MF, CNAME, SOA, MB, MG, MR, PTR, MINFO, MX, RP,
   * AFSDB, RT, SIG, PX, NAPTR, KX, SRV and DNAME, and as they are for every other type.
   */
  lemma {:induction false} SignedRdata(rr: RR, labels: nat, origTtl: uint32)
    ensures var c := CanonicalRR(rr, labels, origTtl);
            && c.rrtype == rr.rrtype && c.class_ == rr.class_ && c.ttl == origTtl && |c.rdata| == |rr.rdata|
            && (forall i :: 0 <= i < |rr.rdata| && rr.rdata[i].Raw? ==> c.rdata[i] == rr.rdata[i])
            && (forall i :: 0 <= i < |rr.rdata| && rr.rdata[i].NameField? ==>
                  var lower := c.rdata[i].NameField? && c.rdata[i].compressible == rr.rdata[i].compressible
                               && LowerOf(c.rdata[i].text, Fqdn(rr.rdata[i].text));
                  match rr.rrtype
                  case 2 => lower case 3 => lower case 4 => lower case 5 => lower case 6 => lower
                  case 7 => lower case 8 => lower case 9 => lower case 12 => lower case 14 => lower
                  case 15 => lower case 17 => lower case 18 => lower case 21 => lower case 24 => lower
                  case 26 => lower case 33 => lower case 35 => lower case 36 => lower case 39 => lower
                  case _ => c.rdata[i] == rr.rdata[i])
  {
    hide SignedOwner, Fqdn;
  }
}
