/** Packing a message and unpacking it again. */
module MessageRoundTrip {
  import opened Octets
  import opened Presentation
  import opened NamePack
  import opened Compression
  import opened Records
  import opened Message

  predicate GoodQuestions(qs: seq<Question>) {
    forall i :: 0 <= i < |qs| ==> Portable(qs[i].name)
  }

  predicate GoodRRs(rrs: seq<RR>) {
    forall i :: 0 <= i < |rrs| ==> GoodRR(rrs[i])
  }

  /** Messages that can be carried both ways. */
  predicate GoodMsg(m: Msg) {
    && GoodQuestions(m.question) && GoodRRs(m.answer) && GoodRRs(m.ns) && GoodRRs(m.extra)
    && |m.question| <= 0xFFFF && |m.answer| <= 0xFFFF && |m.ns| <= 0xFFFF && |m.extra| <= 0xFFFF
    && 0 <= m.hdr.opcode < 16 && 0 <= m.hdr.rcode <= 0xFFF
    && (OptIndex(m.extra) < 0 ==> m.hdr.rcode < 16)
  }

  function NormalQuestions(qs: seq<Question>): (r: seq<Question>)
    ensures |r| == |qs|
  {
    if qs == [] then [] else [NormalQuestion(qs[0])] + NormalQuestions(qs[1..])
  }

  function NormalRRs(rrs: seq<RR>): (r: seq<RR>)
    ensures |r| == |rrs|
    ensures forall i :: 0 <= i < |r| ==> r[i] == NormalRR(rrs[i])
  {
    if rrs == [] then [] else [NormalRR(rrs[0])] + NormalRRs(rrs[1..])
  }

  /** What the receiver gets: the same message, names in normal form, extended rcode bits in the OPT record. */
  function Returned(m: Msg): Msg {
    Msg(m.hdr, false, NormalQuestions(m.question), NormalRRs(m.answer), NormalRRs(m.ns),
        NormalRRs(SetExtended(m.extra, m.hdr.rcode)))
  }

  // ----- sections -----

  lemma {:induction false} QuestionsRoundTrip(qs: seq<Question>, buf: seq<byte>, more: seq<byte>, cap: nat, x: Index,
                                              compress: bool)
    requires GoodQuestions(qs) && MapInv(buf, x) && PackQuestions(qs, |buf|, cap, x, compress).Packed?
    ensures var r := PackQuestions(qs, |buf|, cap, x, compress);
            && MapInv(buf + r.out, r.index)
            && UnpackQuestions(|qs|, buf + r.out + more, |buf|) == Questions(NormalQuestions(qs), |buf| + |r.out|)
    decreases |qs|
  {
    hide PackQuestion, UnpackQuestion, Portable, MapInv, NormalQuestion;
    var r := PackQuestions(qs, |buf|, cap, x, compress);
    if qs == [] {
      assert buf + r.out == buf;
    } else {
      var p := PackQuestion(qs[0], |buf|, cap, x, compress);
      var rest := PackQuestions(qs[1..], |buf| + |p.out|, cap, p.index, compress);
      QuestionRoundTrip(qs[0], buf, rest.out + more, cap, x, compress);
      assert GoodQuestions(qs[1..]);
      QuestionsRoundTrip(qs[1..], buf + p.out, more, cap, p.index, compress);
      assert buf + r.out + more == buf + p.out + (rest.out + more) == (buf + p.out) + rest.out + more;
      assert buf + r.out == (buf + p.out) + rest.out;
    }
  }

  lemma {:induction false} RRsRoundTrip(rrs: seq<RR>, buf: seq<byte>, more: seq<byte>, cap: nat, x: Index,
                                        compress: bool)
    requires GoodRRs(rrs) && MapInv(buf, x) && PackRRs(rrs, |buf|, cap, x, compress).Packed?
    ensures var r := PackRRs(rrs, |buf|, cap, x, compress);
            && MapInv(buf + r.out, r.index)
            && UnpackRRs(|rrs|, buf + r.out + more, |buf|) == Records(NormalRRs(rrs), |buf| + |r.out|)
    decreases |rrs|
  {
    hide PackRR, UnpackRR, GoodRR, MapInv, NormalRR;
    var r := PackRRs(rrs, |buf|, cap, x, compress);
    if rrs == [] {
      assert buf + r.out == buf;
    } else {
      var p := PackRR(rrs[0], |buf|, cap, x, compress);
      var rest := PackRRs(rrs[1..], |buf| + |p.out|, cap, p.index, compress);
      RRRoundTrip(rrs[0], buf, rest.out + more, cap, x, compress);
      assert GoodRRs(rrs[1..]);
      RRsRoundTrip(rrs[1..], buf + p.out, more, cap, p.index, compress);
      assert buf + r.out + more == buf + p.out + (rest.out + more) == (buf + p.out) + rest.out + more;
      assert buf + r.out == (buf + p.out) + rest.out;
    }
  }

  /** Reading the sections of a message that is in place. */
  ghost predicate SectionsRead(m: Msg, msg: seq<byte>, off: nat, end: nat) {
    var q := UnpackQuestions(|m.question|, msg, off);
    q.Questions? && q.qs == NormalQuestions(m.question) &&
    var a := UnpackRRs(|m.answer|, msg, q.next);
    a.Records? && a.rrs == NormalRRs(m.answer) &&
    var n := UnpackRRs(|m.ns|, msg, a.next);
    n.Records? && n.rrs == NormalRRs(m.ns) &&
    var e := UnpackRRs(|m.extra|, msg, n.next);
    e == Records(NormalRRs(m.extra), end)
  }

  /** The sections of a message read back, whatever octets stand before and behind them. */
  lemma {:induction false} SectionsRoundTrip(m: Msg, buf: seq<byte>, more: seq<byte>, cap: nat, x: Index,
                                             compress: bool)
    requires GoodQuestions(m.question) && GoodRRs(m.answer) && GoodRRs(m.ns) && GoodRRs(m.extra)
    requires MapInv(buf, x) && PackSections(m, |buf|, cap, x, compress).Packed?
    ensures var out := PackSections(m, |buf|, cap, x, compress).out;
            SectionsRead(m, buf + out + more, |buf|, |buf| + |out|)
  {
    hide PackQuestions, PackRRs, UnpackQuestions, UnpackRRs, GoodQuestions, GoodRRs, MapInv, NormalRRs, NormalQuestions;
    var q := PackQuestions(m.question, |buf|, cap, x, compress);
    var b1 := buf + q.out;
    var a := PackRRs(m.answer, |b1|, cap, q.index, compress);
    var b2 := b1 + a.out;
    var n := PackRRs(m.ns, |b2|, cap, a.index, compress);
    var b3 := b2 + n.out;
    var e := PackRRs(m.extra, |b3|, cap, n.index, compress);
    var msg := b3 + e.out + more;
    assert buf + PackSections(m, |buf|, cap, x, compress).out + more == msg;
    QuestionsRoundTrip(m.question, buf, a.out + n.out + e.out + more, cap, x, compress);
    assert b1 + (a.out + n.out + e.out + more) == msg;
    RRsRoundTrip(m.answer, b1, n.out + e.out + more, cap, q.index, compress);
    assert b2 + (n.out + e.out + more) == msg;
    RRsRoundTrip(m.ns, b2, e.out + more, cap, a.index, compress);
    assert b3 + (e.out + more) == msg;
    RRsRoundTrip(m.extra, b3, more, cap, n.index, compress);
  }

  // ----- header and OPT -----

  lemma {:induction false} HeaderReads(h: MsgHdr, qd: uint16, an: uint16, ns: uint16, ar: uint16, body: seq<byte>)
    ensures var msg := HeaderOctets(h, qd, an, ns, ar) + body;
            && GetU16(msg, 0) == h.id && GetU16(msg, 2) == Bits(h) && GetU16(msg, 4) == qd
            && GetU16(msg, 6) == an && GetU16(msg, 8) == ns && GetU16(msg, 10) == ar
  {
    hide GetU16, PutU16, Bits;
    var msg := HeaderOctets(h, qd, an, ns, ar) + body;
    var a1 := PutU16(h.id);
    var a2 := a1 + PutU16(Bits(h));
    var a3 := a2 + PutU16(qd);
    var a4 := a3 + PutU16(an);
    var a5 := a4 + PutU16(ns);
    assert msg == [] + PutU16(h.id) + (PutU16(Bits(h)) + PutU16(qd) + PutU16(an) + PutU16(ns) + PutU16(ar) + body);
    U16RoundTrip(h.id, [], PutU16(Bits(h)) + PutU16(qd) + PutU16(an) + PutU16(ns) + PutU16(ar) + body);
    assert msg == a1 + PutU16(Bits(h)) + (PutU16(qd) + PutU16(an) + PutU16(ns) + PutU16(ar) + body);
    U16RoundTrip(Bits(h), a1, PutU16(qd) + PutU16(an) + PutU16(ns) + PutU16(ar) + body);
    assert msg == a2 + PutU16(qd) + (PutU16(an) + PutU16(ns) + PutU16(ar) + body);
    U16RoundTrip(qd, a2, PutU16(an) + PutU16(ns) + PutU16(ar) + body);
    assert msg == a3 + PutU16(an) + (PutU16(ns) + PutU16(ar) + body);
    U16RoundTrip(an, a3, PutU16(ns) + PutU16(ar) + body);
    assert msg == a4 + PutU16(ns) + (PutU16(ar) + body);
    U16RoundTrip(ns, a4, PutU16(ar) + body);
    assert msg == a5 + PutU16(ar) + body;
    U16RoundTrip(ar, a5, body);
  }

  lemma {:induction false} OptIndexIs(extra: seq<RR>, i: int)
    requires -1 <= i < |extra| && (i >= 0 ==> extra[i].rrtype == TYPE_OPT)
    requires forall j :: i < j < |extra| ==> extra[j].rrtype != TYPE_OPT
    ensures OptIndex(extra) == i
  {
  }

  /** The extended rcode goes out in the OPT record and comes back from it. */
  lemma {:induction false} RcodeReturns(extra: seq<RR>, rcode: int)
    requires 0 <= rcode <= 0xFFF && (OptIndex(extra) < 0 ==> rcode < 16)
    ensures FullRcode(rcode % 16, NormalRRs(SetExtended(extra, rcode))) == rcode
  {
    hide NormalRRs, SetExtended, OptIndex, NormalRR;
    var i := OptIndex(extra);
    var out := SetExtended(extra, rcode);
    var r := NormalRRs(out);
    NormalKeeps(out);
    SetExtendedKeeps(extra, rcode);
    assert forall j :: 0 <= j < |extra| ==> r[j].rrtype == out[j].rrtype == extra[j].rrtype;
    OptIndexIs(r, i);
    if i >= 0 {
      ExtendedReturns(extra[i].ttl % 0x100_0000, rcode);
    }
  }

  lemma ExtendedReturns(low: nat, rcode: int)
    requires 0 <= rcode <= 0xFFF && low < 0x100_0000
    ensures (low + rcode / 16 % 256 * 0x100_0000) / 0x100_0000 * 16 + rcode % 16 == rcode
  {
    assert (low + rcode / 16 * 0x100_0000) / 0x100_0000 == rcode / 16;
  }

  lemma NormalKeeps(rrs: seq<RR>)
    ensures forall j :: 0 <= j < |rrs| ==>
            NormalRRs(rrs)[j].rrtype == rrs[j].rrtype && NormalRRs(rrs)[j].ttl == rrs[j].ttl
  {
  }

  lemma SetExtendedKeeps(extra: seq<RR>, rcode: int)
    ensures forall j :: 0 <= j < |extra| ==> SetExtended(extra, rcode)[j].rrtype == extra[j].rrtype
    ensures var i := OptIndex(extra); i >= 0 ==> SetExtended(extra, rcode)[i].ttl == WithExtended(extra[i], rcode).ttl
  {
  }

  /**
   * The additional section as it goes out: the last OPT record gets the high bits of the rcode for the
   * top octet of its TTL and keeps the other three, with the version and the DO bit in them; nothing
   * else of it changes, and no other record.
   */
  lemma {:induction false} OnlyTopOctet(extra: seq<RR>, rcode: int)
    requires 0 <= rcode <= 0xFFF
    ensures var out, i := SetExtended(extra, rcode), OptIndex(extra);
            && |out| == |extra|
            && (forall j :: 0 <= j < |extra| && j != i ==> out[j] == extra[j])
            && (i >= 0 ==>
                  && out[i].name == extra[i].name && out[i].rrtype == extra[i].rrtype
                  && out[i].class_ == extra[i].class_ && out[i].rdata == extra[i].rdata
                  && out[i].ttl % 0x100_0000 == extra[i].ttl % 0x100_0000 && out[i].ttl / 0x100_0000 == rcode / 16)
  {
    var i := OptIndex(extra);
    if i >= 0 {
      TopOctet(extra[i].ttl, rcode / 16);
    }
  }

  lemma TopOctet(ttl: uint32, top: nat)
    requires top < 256
    ensures var v := ttl % 0x100_0000 + top * 0x100_0000;
            v % 0x100_0000 == ttl % 0x100_0000 && v / 0x100_0000 == top
  {
  }

  /** A record as it went out, names aside: type, class, TTL and the octets of the rdata. */
  predicate Carried(a: RR, b: RR) {
    && a.rrtype == b.rrtype && a.class_ == b.class_ && |a.rdata| == |b.rdata|
    && forall i :: 0 <= i < |a.rdata| && a.rdata[i].Raw? ==> b.rdata[i] == a.rdata[i]
  }

  lemma {:induction false} NormalCarries(rr: RR)
    requires rr.rdata != []
    ensures Carried(rr, NormalRR(rr)) && NormalRR(rr).ttl == rr.ttl
  {
    hide Normal;
    NormalFieldsCarry(rr.rdata);
  }

  lemma {:induction false} NormalFieldsCarry(fs: seq<Field>)
    ensures |NormalFields(fs)| == |fs|
    ensures forall i :: 0 <= i < |fs| && fs[i].Raw? ==> NormalFields(fs)[i] == fs[i]
  {
    hide Normal;
    if fs != [] {
      NormalFieldsCarry(fs[1..]);
      forall i | 0 <= i < |fs| && fs[i].Raw? ensures NormalFields(fs)[i] == fs[i] {
        if i > 0 {
          assert fs[1..][i - 1] == fs[i];
        }
      }
    }
  }

  /**
   * The additional section as it arrives, compared with the one that was sent: every record is
   * carried, and its TTL is the one sent, except for the top octet of the last OPT record.
   */
  lemma {:induction false} ExtraReturns(m: Msg, buflen: nat)
    requires GoodMsg(m) && PackMsg(m, buflen).Sent?
    ensures var r := UnpackMsg(PackMsg(m, buflen).octets);
            && r.Got? && |r.m.extra| == |m.extra|
            && forall j :: 0 <= j < |m.extra| ==>
                 && (m.extra[j].rdata != [] ==> Carried(m.extra[j], r.m.extra[j]))
                 && (if j == OptIndex(m.extra)
                     then && r.m.extra[j].ttl % 0x100_0000 == m.extra[j].ttl % 0x100_0000
                          && r.m.extra[j].ttl / 0x100_0000 == m.hdr.rcode / 16
                     else r.m.extra[j].ttl == m.extra[j].ttl)
  {
    hide PackMsg, UnpackMsg, SetExtended, OptIndex, Carried, NormalRR, GoodQuestions, GoodRRs, NormalQuestions;
    MessageReturns(m, buflen);
    OnlyTopOctet(m.extra, m.hdr.rcode);
    var out := SetExtended(m.extra, m.hdr.rcode);
    NormalKeeps(out);
    forall j | 0 <= j < |m.extra| && m.extra[j].rdata != []
      ensures Carried(m.extra[j], NormalRRs(out)[j])
    {
      NormalCarries(out[j]);
      SameCarried(m.extra[j], out[j], NormalRR(out[j]));
    }
  }

  lemma SameCarried(a: RR, b: RR, c: RR)
    requires a.rrtype == b.rrtype && a.class_ == b.class_ && a.rdata == b.rdata && Carried(b, c)
    ensures Carried(a, c)
  {
  }

  lemma {:induction false} SetExtendedGood(extra: seq<RR>, rcode: int)
    requires GoodRRs(extra)
    ensures GoodRRs(SetExtended(extra, rcode))
  {
    hide Portable, Matches, Layout;
    var i := OptIndex(extra);
    if i >= 0 {
      assert GoodRR(extra[i]);
      forall j | 0 <= j < |extra| ensures GoodRR(SetExtended(extra, rcode)[j]) {
        assert GoodRR(extra[j]);
      }
    }
  }

  lemma {:induction false} EmptyMapInv(buf: seq<byte>, compress: bool)
    ensures MapInv(buf, if compress then Index(map[]) else NoIndex)
  {
  }

  /** Reading a whole message that is in place. */
  lemma {:induction false} MessageInPlace(m: Msg, out: seq<RR>, body: seq<byte>)
    requires GoodMsg(m) && out == SetExtended(m.extra, m.hdr.rcode)
    requires var h := HeaderOctets(m.hdr, |m.question|, |m.answer|, |m.ns|, |m.extra|);
             SectionsRead(m.(extra := out), h + body, HEADER_SIZE, HEADER_SIZE + |body|)
    requires body == [] ==> m.question == [] && m.answer == [] && m.ns == [] && m.extra == []
    ensures var h := HeaderOctets(m.hdr, |m.question|, |m.answer|, |m.ns|, |m.extra|);
            UnpackMsg(h + body) == Got(Returned(m))
  {
    hide UnpackQuestions, UnpackRRs, HeaderOctets, GoodQuestions, GoodRRs, NormalRRs, NormalQuestions, Bits, HdrOf,
         SetExtended, FullRcode;
    var h := HeaderOctets(m.hdr, |m.question|, |m.answer|, |m.ns|, |m.extra|);
    HeaderReads(m.hdr, |m.question|, |m.answer|, |m.ns|, |m.extra|, body);
    BitsRoundTrip(m.hdr);
    RcodeReturns(m.extra, m.hdr.rcode);
    if body == [] {
      NormalNothing(m);
    }
  }

  lemma NormalNothing(m: Msg)
    requires m.question == [] && m.answer == [] && m.ns == [] && m.extra == [] && GoodMsg(m)
    ensures Returned(m) == Msg(m.hdr, false, [], [], [], []) && m.hdr.rcode % 16 == m.hdr.rcode
  {
  }

  lemma {:induction false} QuestionsPackSome(qs: seq<Question>, buf: seq<byte>, cap: nat, x: Index, compress: bool)
    requires GoodQuestions(qs) && MapInv(buf, x) && PackQuestions(qs, |buf|, cap, x, compress).Packed?
    ensures PackQuestions(qs, |buf|, cap, x, compress).out == [] ==> qs == []
    ensures MapInv(buf + PackQuestions(qs, |buf|, cap, x, compress).out,
            PackQuestions(qs, |buf|, cap, x, compress).index)
  {
    hide PackQuestion, MapInv, Portable;
    QuestionsRoundTrip(qs, buf, [], cap, x, compress);
    if qs != [] {
      assert Portable(qs[0].name);
      QuestionRoundTrip(qs[0], buf, [], cap, x, compress);
    }
  }

  lemma {:induction false} RRsPackSome(rrs: seq<RR>, buf: seq<byte>, cap: nat, x: Index, compress: bool)
    requires GoodRRs(rrs) && MapInv(buf, x) && PackRRs(rrs, |buf|, cap, x, compress).Packed?
    ensures PackRRs(rrs, |buf|, cap, x, compress).out == [] ==> rrs == []
    ensures MapInv(buf + PackRRs(rrs, |buf|, cap, x, compress).out, PackRRs(rrs, |buf|, cap, x, compress).index)
  {
    hide PackRR, MapInv, GoodRR;
    RRsRoundTrip(rrs, buf, [], cap, x, compress);
    if rrs != [] {
      assert GoodRR(rrs[0]);
      RRRoundTrip(rrs[0], buf, [], cap, x, compress);
    }
  }

  /** A message whose sections pack to nothing has none. */
  lemma {:induction false} NothingPacked(m: Msg, buf: seq<byte>, cap: nat, x: Index, compress: bool)
    requires GoodQuestions(m.question) && GoodRRs(m.answer) && GoodRRs(m.ns) && GoodRRs(m.extra) && MapInv(buf, x)
    requires PackSections(m, |buf|, cap, x, compress).Packed? && PackSections(m, |buf|, cap, x, compress).out == []
    ensures m.question == [] && m.answer == [] && m.ns == [] && m.extra == []
  {
    hide PackQuestions, PackRRs, MapInv, GoodQuestions, GoodRRs;
    var q := PackQuestions(m.question, |buf|, cap, x, compress);
    QuestionsPackSome(m.question, buf, cap, x, compress);
    var b1 := buf + q.out;
    var a := PackRRs(m.answer, |b1|, cap, q.index, compress);
    RRsPackSome(m.answer, b1, cap, q.index, compress);
    var b2 := b1 + a.out;
    var n := PackRRs(m.ns, |b2|, cap, a.index, compress);
    RRsPackSome(m.ns, b2, cap, a.index, compress);
    var b3 := b2 + n.out;
    RRsPackSome(m.extra, b3, cap, n.index, compress);
  }

  /**
   * The whole-message round trip, compressed or not and whatever the caller's buffer: the receiver
   * gets the header, the questions and every record in its section.
   */
  lemma {:induction false} MessageReturns(m: Msg, buflen: nat)
    requires GoodMsg(m) && PackMsg(m, buflen).Sent?
    ensures UnpackMsg(PackMsg(m, buflen).octets) == Got(Returned(m))
  {
    hide PackSections, UnpackMsg, HeaderOctets, GoodQuestions, GoodRRs, NormalRRs, NormalQuestions, SetExtended,
         MapInv, SectionsRead, MsgLen;
    var compress := m.compress && IsCompressible(m);
    var out := Outgoing(m);
    var h := HeaderOctets(m.hdr, |m.question|, |m.answer|, |m.ns|, |m.extra|);
    var x := if compress then Index(map[]) else NoIndex;
    var cap := Capacity(out, buflen);
    EmptyMapInv(h, compress);
    SetExtendedGood(m.extra, m.hdr.rcode);
    SectionsRoundTrip(out, h, [], cap, x, compress);
    var body := PackSections(out, |h|, cap, x, compress).out;
    assert h + body + [] == h + body;
    if body == [] {
      NothingPacked(out, h, cap, x, compress);
    }
    MessageInPlace(m, out.extra, body);
  }
}
