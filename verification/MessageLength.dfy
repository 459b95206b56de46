/** `Msg.Len` against the packer: never too small, exact without escapes, and big enough a buffer to pack into. */
module MessageLength {
  import opened Octets
  import opened Presentation
  import opened Qualified
  import opened NamePack
  import opened Compression
  import opened NameLength
  import opened LengthRefinement
  import opened Records
  import opened Message
  import opened MessageRoundTrip

  // ----- which messages -----

  predicate RRNames(rr: RR) {
    FullyQualified(rr.name) && FieldNames(rr.rdata)
  }

  predicate RRsNames(rrs: seq<RR>) {
    forall i :: 0 <= i < |rrs| ==> RRNames(rrs[i])
  }

  predicate QuestionsNames(qs: seq<Question>) {
    forall i :: 0 <= i < |qs| ==> FullyQualified(qs[i].name)
  }

  /** Every name is fully qualified (and so not empty). */
  predicate FullNames(m: Msg) {
    QuestionsNames(m.question) && RRsNames(m.answer) && RRsNames(m.ns) && RRsNames(m.extra)
  }

  predicate Unescaped(fs: seq<Field>) {
    forall i :: 0 <= i < |fs| && fs[i].NameField? ==> BACKSLASH !in fs[i].text
  }

  predicate UnescapedRRs(rrs: seq<RR>) {
    forall i :: 0 <= i < |rrs| ==> BACKSLASH !in rrs[i].name && Unescaped(rrs[i].rdata)
  }

  predicate UnescapedMsg(m: Msg) {
    && (forall i :: 0 <= i < |m.question| ==> BACKSLASH !in m.question[i].name)
    && UnescapedRRs(m.answer) && UnescapedRRs(m.ns) && UnescapedRRs(m.extra)
  }

  // ----- the prediction covers the packer -----

  /** Without a map the compression flag does not matter to the prediction. */
  lemma FlagIrrelevant(s: Text, off: nat, c: bool)
    ensures NameLen(s, off, NoSeen, c) == NameLen(s, off, NoSeen, false)
  {
  }

  lemma NameLenKeepsSeen(s: Text, off: nat, x: Seen, c: bool)
    ensures NameLen(s, off, x, c).seen.Seen? == x.Seen?
  {
  }

  /** Both sides of one packing step: `exact` asks for agreement rather than cover. */
  ghost predicate Step(x: Index, po: nat, seen: Seen, so: nat, exact: bool) {
    if exact then Agrees(x, po, seen, so) else Covers(x, po, seen, so)
  }

  lemma {:induction false} NameStepLen(s: Text, po: nat, so: nat, cap: nat, x: Index, seen: Seen, compress: bool,
                                       c: bool, exact: bool)
    requires FullyQualified(s) && Step(x, po, seen, so, exact) && (exact ==> BACKSLASH !in s)
    requires compress || x.NoIndex?
    requires PackName(s, po, cap, x, compress && c).Packed?
    ensures var r, q := PackName(s, po, cap, x, compress && c), NameLen(s, so, seen, c);
            |r.out| <= q.len && Step(r.index, po + |r.out|, q.seen, so + q.len, exact) && r.index.Index? == x.Index?
  {
    hide PackName, NameLen, FullyQualified, Closed;
    NameLenKeepsSeen(s, so, seen, compress && c);
    NameCovered(s, po, so, cap, x, seen, compress && c);
    if exact {
      NameExact(s, po, cap, x, seen, compress && c);
    }
    if x.NoIndex? {
      FlagIrrelevant(s, so, c);
    }
  }

  lemma {:induction false} RawStepLen(x: Index, po: nat, seen: Seen, so: nat, n: nat, exact: bool)
    requires Step(x, po, seen, so, exact)
    ensures Step(x, po + n, seen, so + n, exact)
  {
  }

  lemma {:induction false} FieldsStepLen(fs: seq<Field>, po: nat, so: nat, cap: nat, x: Index, seen: Seen,
                                         compress: bool, exact: bool)
    requires FieldNames(fs) && Step(x, po, seen, so, exact) && (exact ==> Unescaped(fs))
    requires (compress || x.NoIndex?) && PackFields(fs, po, cap, x, compress).Packed?
    ensures var r, q := PackFields(fs, po, cap, x, compress), FieldsLen(fs, so, seen);
            |r.out| <= q.len && Step(r.index, po + |r.out|, q.seen, so + q.len, exact) && r.index.Index? == x.Index?
    decreases |fs|
  {
    hide PackName, NameLen, FullyQualified, Step;
    if fs != [] {
      assert FieldNames(fs[1..]) && (exact ==> Unescaped(fs[1..]));
      match fs[0]
      case Raw(d) =>
        RawStepLen(x, po, seen, so, |d|, exact);
        FieldsStepLen(fs[1..], po + |d|, so + |d|, cap, x, seen, compress, exact);
      case NameField(t, c) =>
        var p, q := PackName(t, po, cap, x, compress && c), NameLen(t, so, seen, c);
        NameStepLen(t, po, so, cap, x, seen, compress, c, exact);
        FieldsStepLen(fs[1..], po + |p.out|, so + q.len, cap, p.index, q.seen, compress, exact);
    }
  }

  lemma {:induction false} RRStepLen(rr: RR, po: nat, so: nat, cap: nat, x: Index, seen: Seen, compress: bool,
                                     exact: bool)
    requires RRNames(rr) && Step(x, po, seen, so, exact) && (exact ==> BACKSLASH !in rr.name && Unescaped(rr.rdata))
    requires (compress || x.NoIndex?) && PackRR(rr, po, cap, x, compress).Packed?
    ensures var r, q := PackRR(rr, po, cap, x, compress), RRLen(rr, so, seen);
            |r.out| <= q.len && Step(r.index, po + |r.out|, q.seen, so + q.len, exact) && r.index.Index? == x.Index?
  {
    hide PackName, NameLen, PackFields, FieldsLen, FullyQualified, FieldNames, Unescaped, Step;
    var p, q := PackName(rr.name, po, cap, x, compress), NameLen(rr.name, so, seen, true);
    NameStepLen(rr.name, po, so, cap, x, seen, compress, true, exact);
    RawStepLen(p.index, po + |p.out|, q.seen, so + q.len, 10, exact);
    FieldsStepLen(rr.rdata, po + |p.out| + 10, so + q.len + 10, cap, p.index, q.seen, compress, exact);
  }

  lemma {:induction false} QuestionsStepLen(qs: seq<Question>, po: nat, so: nat, cap: nat, x: Index, seen: Seen,
                                            compress: bool, exact: bool)
    requires QuestionsNames(qs) && Step(x, po, seen, so, exact)
    requires exact ==> forall i :: 0 <= i < |qs| ==> BACKSLASH !in qs[i].name
    requires (compress || x.NoIndex?) && PackQuestions(qs, po, cap, x, compress).Packed?
    ensures var r, q := PackQuestions(qs, po, cap, x, compress), QuestionsLen(qs, so, seen);
            Step(r.index, po + |r.out|, q.seen, q.len, exact) && r.index.Index? == x.Index?
    decreases |qs|
  {
    hide PackName, NameLen, FullyQualified, Step;
    if qs != [] {
      var s := qs[0].name;
      var p, q := PackName(s, po, cap, x, compress), NameLen(s, so, seen, true);
      NameStepLen(s, po, so, cap, x, seen, compress, true, exact);
      RawStepLen(p.index, po + |p.out|, q.seen, so + q.len, 4, exact);
      QuestionsStepLen(qs[1..], po + |p.out| + 4, so + q.len + 4, cap, p.index, q.seen, compress, exact);
    }
  }

  lemma {:induction false} RRsStepLen(rrs: seq<RR>, po: nat, so: nat, cap: nat, x: Index, seen: Seen, compress: bool,
                                      exact: bool)
    requires RRsNames(rrs) && Step(x, po, seen, so, exact) && (exact ==> UnescapedRRs(rrs))
    requires (compress || x.NoIndex?) && PackRRs(rrs, po, cap, x, compress).Packed?
    ensures var r, q := PackRRs(rrs, po, cap, x, compress), RRsLen(rrs, so, seen);
            Step(r.index, po + |r.out|, q.seen, q.len, exact) && r.index.Index? == x.Index?
    decreases |rrs|
  {
    hide PackRR, RRLen, RRNames, Step, Unescaped;
    if rrs != [] {
      var p, q := PackRR(rrs[0], po, cap, x, compress), RRLen(rrs[0], so, seen);
      assert RRNames(rrs[0]);
      RRStepLen(rrs[0], po, so, cap, x, seen, compress, exact);
      assert RRsNames(rrs[1..]) && (exact ==> UnescapedRRs(rrs[1..]));
      RRsStepLen(rrs[1..], po + |p.out|, so + q.len, cap, p.index, q.seen, compress, exact);
    }
  }

  /** The predicted length of the sections, against their packed form. */
  lemma {:induction false} SectionsStepLen(m: Msg, cap: nat, x: Index, seen: Seen, compress: bool, exact: bool)
    requires FullNames(m) && Step(x, HEADER_SIZE, seen, HEADER_SIZE, exact) && (exact ==> UnescapedMsg(m))
    requires (compress || x.NoIndex?) && PackSections(m, HEADER_SIZE, cap, x, compress).Packed?
    ensures var n := HEADER_SIZE + |PackSections(m, HEADER_SIZE, cap, x, compress).out|;
            n <= MsgLen(m, seen) && (exact ==> n == MsgLen(m, seen))
  {
    hide PackQuestions, PackRRs, QuestionsLen, RRsLen, QuestionsNames, RRsNames, UnescapedRRs, Step;
    var p1, q1 := PackQuestions(m.question, HEADER_SIZE, cap, x, compress), QuestionsLen(m.question, HEADER_SIZE, seen);
    QuestionsStepLen(m.question, HEADER_SIZE, HEADER_SIZE, cap, x, seen, compress, exact);
    var o1 := HEADER_SIZE + |p1.out|;
    var p2, q2 := PackRRs(m.answer, o1, cap, p1.index, compress), RRsLen(m.answer, q1.len, q1.seen);
    RRsStepLen(m.answer, o1, q1.len, cap, p1.index, q1.seen, compress, exact);
    var o2 := o1 + |p2.out|;
    var p3, q3 := PackRRs(m.ns, o2, cap, p2.index, compress), RRsLen(m.ns, q2.len, q2.seen);
    RRsStepLen(m.ns, o2, q2.len, cap, p2.index, q2.seen, compress, exact);
    var o3 := o2 + |p3.out|;
    var p4, q4 := PackRRs(m.extra, o3, cap, p3.index, compress), RRsLen(m.extra, q3.len, q3.seen);
    RRsStepLen(m.extra, o3, q3.len, cap, p3.index, q3.seen, compress, exact);
    StepOffsets(p4.index, o3 + |p4.out|, q4.seen, q4.len, exact);
  }

  lemma StepOffsets(x: Index, po: nat, seen: Seen, so: nat, exact: bool)
    requires Step(x, po, seen, so, exact)
    ensures po <= so && (exact ==> po == so)
  {
  }

  lemma StepStart(compress: bool, exact: bool)
    ensures Step(if compress then Index(map[]) else NoIndex, HEADER_SIZE,
                 if compress then Seen({}) else NoSeen, HEADER_SIZE, exact)
  {
  }

  /** Rewriting the TTL of the OPT record changes no length and no name. */
  lemma {:induction false} OutgoingLen(m: Msg)
    ensures forall x :: MsgLen(Outgoing(m), x) == MsgLen(m, x)
    ensures FullNames(m) ==> FullNames(Outgoing(m))
    ensures UnescapedMsg(m) ==> UnescapedMsg(Outgoing(m))
  {
    hide FullyQualified, NameLen;
    var i := OptIndex(m.extra);
    if i >= 0 {
      forall x: Seen ensures MsgLen(Outgoing(m), x) == MsgLen(m, x) {
        var q := QuestionsLen(m.question, HEADER_SIZE, x);
        var a := RRsLen(m.answer, q.len, q.seen);
        var n := RRsLen(m.ns, a.len, a.seen);
        SameLen(m.extra, i, WithExtended(m.extra[i], m.hdr.rcode), n.len, n.seen);
      }
      assert FullNames(m) ==> RRNames(m.extra[i]);
    }
  }

  lemma {:induction false} SameLen(rrs: seq<RR>, i: nat, rr: RR, off: nat, x: Seen)
    requires i < |rrs| && rr.name == rrs[i].name && rr.rdata == rrs[i].rdata
    ensures RRsLen(rrs[i := rr], off, x) == RRsLen(rrs, off, x)
    decreases i
  {
    hide NameLen, FieldsLen;
    if i == 0 {
      assert rrs[0 := rr][1..] == rrs[1..];
    } else {
      assert rrs[i := rr][1..] == rrs[1..][i - 1 := rr];
      var one := RRLen(rrs[0], off, x);
      SameLen(rrs[1..], i - 1, rr, off + one.len, one.seen);
    }
  }

  /**
   * `Len` is never below the length of the packed message, for all fully qualified names, and equal
   * to it when no name has an escape. A raw field counts as many octets as it has; the source counts
   * character strings with their escapes, and two octets for an empty NSEC bitmap, so for those types
   * it predicts more.
   */
  lemma {:induction false} LenCoversPack(m: Msg, buflen: nat)
    requires FullNames(m) && PackMsg(m, buflen).Sent?
    ensures |PackMsg(m, buflen).octets| <= Len(m)
    ensures UnescapedMsg(m) ==> |PackMsg(m, buflen).octets| == Len(m)
  {
    hide PackSections, MsgLen, FullNames, UnescapedMsg, Step, SetExtended, HeaderOctets;
    OutgoingLen(m);
    var out := Outgoing(m);
    var compress := m.compress && IsCompressible(m);
    var cap := Capacity(out, buflen);
    var x := if compress then Index(map[]) else NoIndex;
    var seen := if compress then Seen({}) else NoSeen;
    StepStart(compress, false);
    SectionsStepLen(out, cap, x, seen, compress, false);
    if UnescapedMsg(m) {
      StepStart(compress, true);
      SectionsStepLen(out, cap, x, seen, compress, true);
    }
  }

  // ----- the buffer is always big enough -----

  lemma {:induction false} LabelsFit(t: Text, po: nat, so: nat, cap: nat, x: Index, compress: bool)
    requires EndsInDot(t) && GoodLabels(Labels(t)) && po <= so && so + EscapedLen(t) + 1 <= cap
    ensures var r := PackLabels(t, po, cap, x, compress); r.Packed? && |r.out| <= EscapedLen(t) + 1
    decreases |t|
  {
    hide FirstDot, FirstLabel, EscapedLen, PackLabels, HasEscape, GoodLabels, Labels, Note, AfterDot, Pointer;
    if t == [] {
      PackNoLabels(po, cap, x, compress);
    } else {
      var l, u := FirstLabel(t), AfterDot(t);
      PackLabelsUnfold(t, po, cap, x, compress);
      GoodLabelsUnfold(t);
      EscapedLenAfterDot(t);
      LabelsFit(u, po + 1 + |l|, so + 1 + |l|, cap, Note(x, t, po), compress);
    }
  }

  /** A good name packs whenever its uncompressed prediction fits. */
  lemma {:induction false} NameFits(s: Text, po: nat, so: nat, cap: nat, x: Index, compress: bool, c: bool)
    requires FullyQualified(s) && GoodLabels(NameLabels(s)) && po <= so && so + NameLen(s, so, NoSeen, c).len <= cap
    ensures var r := PackName(s, po, cap, x, compress); r.Packed? && |r.out| <= NameLen(s, so, NoSeen, c).len
  {
    assert s != [];
    hide IsFqdn, EndsInDot, PackLabels, EscapedLen, GoodLabels, Labels;
    if s != [DOT] {
      LabelsFit(s, po, so, cap, x, compress);
    }
  }

  lemma {:induction false} FieldsFit(ks: seq<Kind>, fs: seq<Field>, count: nat, po: nat, so: nat, cap: nat, x: Index,
                                     compress: bool)
    requires Matches(ks, fs, count) && po <= so && so + FieldsLen(fs, so, NoSeen).len <= cap
    ensures var r := PackFields(fs, po, cap, x, compress); r.Packed? && |r.out| <= FieldsLen(fs, so, NoSeen).len
    decreases |fs|
  {
    hide PackName, NameLen, FullyQualified, GoodLabels, WireLen, NameLabels;
    if fs != [] {
      match fs[0]
      case Raw(d) =>
        FieldsFit(ks[1..], fs[1..], if ks[0].KCount? then GetU16(d, 0) else count,
                  po + |d|, so + |d|, cap, x, compress);
      case NameField(t, c) =>
        var q := NameLen(t, so, NoSeen, c);
        NameLenKeepsSeen(t, so, NoSeen, c);
        NameFits(t, po, so, cap, x, compress && c, c);
        var p := PackName(t, po, cap, x, compress && c);
        FieldsFit(ks[1..], fs[1..], count, po + |p.out|, so + q.len, cap, p.index, compress);
    }
  }

  /** The rdata of every record fits the 16 bits of its length field, compressed or not. */
  predicate SmallRdata(rrs: seq<RR>) {
    forall i :: 0 <= i < |rrs| ==> FieldsLen(rrs[i].rdata, 0, NoSeen).len <= 0xFFFF
  }

  /** Without compression the length does not depend on where the fields go. */
  lemma {:induction false} LenAnywhere(fs: seq<Field>, off: nat, off': nat)
    ensures FieldsLen(fs, off, NoSeen) == FieldsLen(fs, off', NoSeen)
    decreases |fs|
  {
    hide EscapedLen;
    if fs != [] {
      match fs[0]
      case Raw(d) => LenAnywhere(fs[1..], off + |d|, off' + |d|);
      case NameField(t, c) =>
        var n := NameLen(t, off, NoSeen, c).len;
        LenAnywhere(fs[1..], off + n, off' + n);
    }
  }

  lemma NoFields(po: nat, so: nat, cap: nat, x: Index, compress: bool)
    ensures PackFields([], po, cap, x, compress) == Packed([], x) && FieldsLen([], so, NoSeen).len == 0
  {
  }

  lemma {:induction false} RRFits(rr: RR, po: nat, so: nat, cap: nat, x: Index, compress: bool)
    requires GoodRR(rr) && FieldsLen(rr.rdata, 0, NoSeen).len <= 0xFFFF && po <= so
    requires so + RRLen(rr, so, NoSeen).len <= cap
    ensures var r := PackRR(rr, po, cap, x, compress); r.Packed? && |r.out| <= RRLen(rr, so, NoSeen).len
  {
    hide PackName, NameLen, PackFields, FieldsLen, Matches, Layout, FullyQualified, GoodLabels, WireLen, NameLabels;
    var q := NameLen(rr.name, so, NoSeen, true);
    NameLenKeepsSeen(rr.name, so, NoSeen, true);
    NameFits(rr.name, po, so, cap, x, compress, true);
    var p := PackName(rr.name, po, cap, x, compress);
    if rr.rdata != [] {
      FieldsFit(Layout(rr.rrtype), rr.rdata, 0, po + |p.out| + 10, so + q.len + 10, cap, p.index, compress);
    } else {
      NoFields(po + |p.out| + 10, so + q.len + 10, cap, p.index, compress);
    }
    LenAnywhere(rr.rdata, so + q.len + 10, 0);
  }

  lemma {:induction false} QuestionsFit(qs: seq<Question>, po: nat, so: nat, cap: nat, x: Index, compress: bool)
    requires GoodQuestions(qs) && po <= so && QuestionsLen(qs, so, NoSeen).len <= cap
    ensures var r := PackQuestions(qs, po, cap, x, compress);
            r.Packed? && po + |r.out| <= QuestionsLen(qs, so, NoSeen).len
    ensures QuestionsLen(qs, so, NoSeen).seen == NoSeen
    decreases |qs|
  {
    hide PackName, NameLen, FullyQualified, GoodLabels, WireLen, NameLabels;
    if qs != [] {
      var s := qs[0].name;
      assert Portable(s) && GoodQuestions(qs[1..]);
      var q := NameLen(s, so, NoSeen, true);
      NameLenKeepsSeen(s, so, NoSeen, true);
      NameFits(s, po, so, cap, x, compress, true);
      var p := PackName(s, po, cap, x, compress);
      QuestionsFit(qs[1..], po + |p.out| + 4, so + q.len + 4, cap, p.index, compress);
    }
  }

  lemma {:induction false} RRsFit(rrs: seq<RR>, po: nat, so: nat, cap: nat, x: Index, compress: bool)
    requires GoodRRs(rrs) && SmallRdata(rrs) && po <= so && RRsLen(rrs, so, NoSeen).len <= cap
    ensures var r := PackRRs(rrs, po, cap, x, compress); r.Packed? && po + |r.out| <= RRsLen(rrs, so, NoSeen).len
    ensures RRsLen(rrs, so, NoSeen).seen == NoSeen
    decreases |rrs|
  {
    hide PackRR, RRLen, GoodRR, FieldsLen;
    if rrs != [] {
      assert GoodRR(rrs[0]) && GoodRRs(rrs[1..]) && SmallRdata(rrs[1..]);
      var q := RRLen(rrs[0], so, NoSeen);
      RRLenKeepsSeen(rrs[0], so);
      RRFits(rrs[0], po, so, cap, x, compress);
      var p := PackRR(rrs[0], po, cap, x, compress);
      RRsFit(rrs[1..], po + |p.out|, so + q.len, cap, p.index, compress);
    }
  }

  lemma {:induction false} FieldsLenKeepsSeen(fs: seq<Field>, off: nat)
    ensures FieldsLen(fs, off, NoSeen).seen == NoSeen
    decreases |fs|
  {
    hide EscapedLen;
    if fs != [] {
      var n := match fs[0] case Raw(d) => |d| case NameField(t, c) => NameLen(t, off, NoSeen, c).len;
      FieldsLenKeepsSeen(fs[1..], off + n);
    }
  }

  lemma {:induction false} RRLenKeepsSeen(rr: RR, off: nat)
    ensures RRLen(rr, off, NoSeen).seen == NoSeen
  {
    hide EscapedLen, FieldsLen;
    FieldsLenKeepsSeen(rr.rdata, off + NameLen(rr.name, off, NoSeen, true).len + 10);
  }

  /**
   * Packing never runs out of room: the buffer `PackBuffer` allocates, or any longer one, holds
   * every message that can be carried both ways.
   */
  lemma {:induction false} PackSucceeds(m: Msg, buflen: nat)
    requires GoodMsg(m) && SmallRdata(m.answer) && SmallRdata(m.ns) && SmallRdata(m.extra)
    ensures PackMsg(m, buflen).Sent?
  {
    hide PackQuestions, PackRRs, QuestionsLen, RRsLen, GoodQuestions, GoodRRs, HeaderOctets, FieldsLen;
    var out := Outgoing(m);
    SetExtendedGood(m.extra, m.hdr.rcode);
    assert SmallRdata(out.extra);
    hide SetExtended, SmallRdata;
    var compress := m.compress && IsCompressible(m);
    var cap := Capacity(out, buflen);
    var x := if compress then Index(map[]) else NoIndex;
    var q1 := QuestionsLen(m.question, HEADER_SIZE, NoSeen);
    var q2 := RRsLen(m.answer, q1.len, q1.seen);
    var q3 := RRsLen(m.ns, q2.len, q2.seen);
    QuestionsFit(m.question, HEADER_SIZE, HEADER_SIZE, cap, x, compress);
    var p1 := PackQuestions(m.question, HEADER_SIZE, cap, x, compress);
    var o1 := HEADER_SIZE + |p1.out|;
    RRsFit(m.answer, o1, q1.len, cap, p1.index, compress);
    var p2 := PackRRs(m.answer, o1, cap, p1.index, compress);
    var o2 := o1 + |p2.out|;
    RRsFit(m.ns, o2, q2.len, cap, p2.index, compress);
    var p3 := PackRRs(m.ns, o2, cap, p2.index, compress);
    RRsFit(out.extra, o2 + |p3.out|, q3.len, cap, p3.index, compress);
  }
}
