/** What messages, questions and records look like on the wire, octet by octet. */
module WireFormats {
  import opened Octets
  import opened Presentation
  import opened Qualified
  import opened NamePack
  import opened NameUnpack
  import opened Compression
  import opened Records
  import opened Message
  import opened MessageRoundTrip
  import opened ExactSizes
  import opened RdataFormats
  import opened Acceptance
  import opened Transfer
  import opened TsigRoundTrip
  import opened TransferTsig
  import opened TransferProgress

  function Two(v: uint16): seq<byte> {
    [v / 256, v % 256]
  }

  function Four(v: uint32): seq<byte> {
    [v / 0x100_0000, v / 0x1_0000 % 256, v / 0x100 % 256, v % 256]
  }

  function Flag(b: bool, v: nat): nat {
    if b then v else 0
  }

  // ----- the header (section 4.1.1 of RFC 1035) -----

  /** The twelve octets that are written for a header. */
  lemma {:induction false} HeaderIs(h: MsgHdr, qd: uint16, an: uint16, ns: uint16, ar: uint16)
    requires 0 <= h.opcode < 16 && 0 <= h.rcode
    ensures var o := HeaderOctets(h, qd, an, ns, ar);
            && |o| == 12 && o[0] as int * 256 + o[1] == h.id
            && o[2] == Flag(h.response, 128) + h.opcode * 8 + Flag(h.authoritative, 4) + Flag(h.truncated, 2)
                       + Flag(h.recursionDesired, 1)
            && o[3] == Flag(h.recursionAvailable, 128) + Flag(h.zero, 64) + Flag(h.authenticatedData, 32)
                       + Flag(h.checkingDisabled, 16) + h.rcode % 16
            && o[4] as int * 256 + o[5] == qd && o[6] as int * 256 + o[7] == an
            && o[8] as int * 256 + o[9] == ns && o[10] as int * 256 + o[11] == ar
  {
    var hi := Flag(h.response, 128) + h.opcode * 8 + Flag(h.authoritative, 4) + Flag(h.truncated, 2)
              + Flag(h.recursionDesired, 1);
    var lo := Flag(h.recursionAvailable, 128) + Flag(h.zero, 64) + Flag(h.authenticatedData, 32)
              + Flag(h.checkingDisabled, 16) + h.rcode % 16;
    BitsAre(h, hi, lo);
    SplitWord(hi, lo);
    hide Bits;
    SixWords(h.id, Bits(h), qd, an, ns, ar);
  }

  lemma BitsAre(h: MsgHdr, hi: nat, lo: nat)
    requires 0 <= h.opcode < 16 && 0 <= h.rcode
    requires hi == Flag(h.response, 128) + h.opcode * 8 + Flag(h.authoritative, 4) + Flag(h.truncated, 2)
                   + Flag(h.recursionDesired, 1)
    requires lo == Flag(h.recursionAvailable, 128) + Flag(h.zero, 64) + Flag(h.authenticatedData, 32)
                   + Flag(h.checkingDisabled, 16) + h.rcode % 16
    ensures Bits(h) == hi * 256 + lo && hi < 256 && lo < 256
  {
    assert h.opcode / 16 == 0 && h.opcode % 16 == h.opcode;
    var low := h.rcode % 16;
    hide IsSet;
  }

  lemma SixWords(a: uint16, b: uint16, c: uint16, d: uint16, e: uint16, f: uint16)
    ensures PutU16(a) + PutU16(b) + PutU16(c) + PutU16(d) + PutU16(e) + PutU16(f) ==
            [a / 256, a % 256, b / 256, b % 256, c / 256, c % 256, d / 256, d % 256, e / 256, e % 256, f / 256, f % 256]
  {
  }

  lemma SplitWord(hi: nat, lo: nat)
    requires lo < 256
    ensures (hi * 256 + lo) / 256 == hi && (hi * 256 + lo) % 256 == lo
  {
  }

  /** What the twelve octets of a received message say. */
  lemma {:induction false} HeaderSays(msg: seq<byte>)
    requires UnpackMsg(msg).Got?
    ensures |msg| >= 12
    ensures var h := UnpackMsg(msg).m.hdr;
            && h.id == msg[0] as int * 256 + msg[1]
            && (h.response <==> msg[2] >= 128) && h.opcode == msg[2] / 8 % 16
            && (h.authoritative <==> msg[2] / 4 % 2 == 1) && (h.truncated <==> msg[2] / 2 % 2 == 1)
            && (h.recursionDesired <==> msg[2] % 2 == 1)
            && (h.recursionAvailable <==> msg[3] >= 128) && (h.zero <==> msg[3] / 64 % 2 == 1)
            && (h.authenticatedData <==> msg[3] / 32 % 2 == 1) && (h.checkingDisabled <==> msg[3] / 16 % 2 == 1)
            && h.rcode % 16 == msg[3] % 16
  {
    hide UnpackMsg, IsSet;
    HeaderRead(msg);
    HighFlags(msg[2], msg[3]);
    LowFlags(msg[2], msg[3]);
  }

  lemma {:induction false} HeaderRead(msg: seq<byte>)
    requires UnpackMsg(msg).Got?
    ensures |msg| >= HEADER_SIZE
    ensures var h, r := UnpackMsg(msg).m.hdr, HdrOf(GetU16(msg, 0), GetU16(msg, 2));
            h == r.(rcode := h.rcode) && h.rcode % 16 == r.rcode % 16
  {
    hide UnpackQuestions, UnpackRRs, OptIndex, IsSet;
  }

  lemma HighFlags(a: byte, b: byte)
    ensures var v := a as int * 256 + b;
            && (IsSet(v, 0x8000) <==> a >= 128) && v / 0x800 % 16 == a / 8 % 16
            && (IsSet(v, 0x400) <==> a / 4 % 2 == 1) && (IsSet(v, 0x200) <==> a / 2 % 2 == 1)
            && (IsSet(v, 0x100) <==> a % 2 == 1)
  {
    var v := a as int * 256 + b;
    assert v / 0x100 == a && v / 0x200 == a / 2 && v / 0x400 == a / 4 && v / 0x800 == a / 8 && v / 0x8000 == a / 128;
  }

  lemma LowFlags(a: byte, b: byte)
    ensures var v := a as int * 256 + b;
            && (IsSet(v, 0x80) <==> b >= 128) && (IsSet(v, 0x40) <==> b / 64 % 2 == 1)
            && (IsSet(v, 0x20) <==> b / 32 % 2 == 1) && (IsSet(v, 0x10) <==> b / 16 % 2 == 1) && v % 16 == b % 16
  {
    LowFlag(a, b, 0x80, 1);
    LowFlag(a, b, 0x40, 2);
    LowFlag(a, b, 0x20, 4);
    LowFlag(a, b, 0x10, 8);
  }

  lemma LowFlag(a: nat, b: nat, w: nat, m: nat)
    requires w > 0 && w * m == 128
    ensures (a * 256 + b) / w % 2 == b / w % 2
  {
    var q := a * m;
    assert a * 256 + b == 2 * (w * q) + b by {
      assert w * q == a * (w * m);
    }
    DivIs(a * 256 + b, w, 2 * q + b / w, b % w);
  }

  /** What the server does with a message, read off its octets. */
  lemma {:induction false} ActionFromOctets(o: seq<byte>)
    requires |o| >= 12
    ensures ActionOn(o) ==
            if o[2] >= 128 then Ignore
            else if o[2] / 8 != 0 && o[2] / 8 != 4 then RejectNotImplemented
            else if o[4] == 0 && o[5] == 1 && o[6] == 0 && o[7] <= 1 && o[8] == 0 && o[9] <= 1
                    && o[10] == 0 && o[11] <= 2 then Accept
            else Reject
  {
    HighFlags(o[2], o[3]);
    hide IsSet;
  }

  // ----- questions and records -----

  /** A name that is not compressed: every label behind its length, and a zero. */
  function NameOctets(s: Text): seq<byte> {
    if GoodLabels(NameLabels(s)) then Wire(NameLabels(s)) else []
  }

  /** The octets of a field that is not compressed. */
  function FieldOctets(f: Field): seq<byte> {
    match f
    case Raw(d) => d
    case NameField(t, _) => NameOctets(t)
  }

  function AllOctets(fs: seq<Field>): seq<byte> {
    if fs == [] then [] else FieldOctets(fs[0]) + AllOctets(fs[1..])
  }

  lemma {:induction false} NameIs(s: Text, off: nat, cap: nat)
    requires Nameable(s) && PackName(s, off, cap, NoIndex, false).Packed?
    ensures PackName(s, off, cap, NoIndex, false) == Packed(NameOctets(s), NoIndex)
  {
    assert s != [];
    hide IsFqdn, PackLabels, Labels, EndsInDot, WireLen;
    if s == [DOT] {
      WireOfNothing();
    } else {
      PackLabelsPlain(s, off, cap, false);
    }
  }

  /** Fields are written one behind the other. */
  lemma {:induction false} FieldsAre(fs: seq<Field>, off: nat, cap: nat)
    requires NameableFields(fs) && PackFields(fs, off, cap, NoIndex, false).Packed?
    ensures PackFields(fs, off, cap, NoIndex, false) == Packed(AllOctets(fs), NoIndex)
    decreases |fs|
  {
    hide PackName, Nameable, NameOctets;
    if fs != [] {
      if fs[0].NameField? {
        NameIs(fs[0].text, off, cap);
      }
      FieldsAre(fs[1..], off + |PackField(fs[0], off, cap, NoIndex, false).out|, cap);
    }
  }

  /** A question: its name, type and class. */
  lemma {:induction false} QuestionIs(q: Question, off: nat, cap: nat)
    requires Nameable(q.name) && PackQuestion(q, off, cap, NoIndex, false).Packed?
    ensures PackQuestion(q, off, cap, NoIndex, false).out ==
            NameOctets(q.name) + (Two(q.qtype) + Two(q.qclass))
  {
    hide PackName, Nameable, NameOctets;
    NameIs(q.name, off, cap);
    assert PutU16(q.qtype) + PutU16(q.qclass) == Two(q.qtype) + Two(q.qclass);
  }

  /** A record: name, type, class, four octets of TTL, two of length, and the rdata. */
  lemma {:induction false} RecordIs(rr: RR, off: nat, cap: nat)
    requires Nameable(rr.name) && NameableFields(rr.rdata) && PackRR(rr, off, cap, NoIndex, false).Packed?
    ensures |AllOctets(rr.rdata)| <= 0xFFFF
    ensures var d := AllOctets(rr.rdata);
            PackRR(rr, off, cap, NoIndex, false).out ==
            NameOctets(rr.name)
            + (Two(rr.rrtype) + Two(rr.class_) + Four(rr.ttl) + Two(|d|))
            + d
  {
    hide PackName, PackFields, Nameable, NameableFields, NameOctets, AllOctets, FixedHeader;
    NameIs(rr.name, off, cap);
    var n := |NameOctets(rr.name)|;
    FieldsAre(rr.rdata, off + n + 10, cap);
    FixedIs(rr.rrtype, rr.class_, rr.ttl, |AllOctets(rr.rdata)|);
  }

  lemma FixedIs(t: uint16, c: uint16, ttl: uint32, n: uint16)
    ensures FixedHeader(t, c, ttl, n) ==
            Two(t) + Two(c) + Four(ttl) + Two(n)
  {
    LongIs(ttl);
    hide PutU32, Four;
  }

  lemma LongIs(v: uint32)
    ensures PutU32(v) == Four(v)
  {
    LongParts(v);
  }

  lemma LongParts(v: uint32)
    ensures var hi, lo := v / 0x1_0000, v % 0x1_0000;
            && hi / 256 == v / 0x100_0000 && hi % 256 == v / 0x1_0000 % 256
            && lo / 256 == v / 0x100 % 256 && lo % 256 == v % 256
  {
    var hi, lo := v / 0x1_0000, v % 0x1_0000;
    DivIs(v, 0x100_0000, hi / 256, hi % 256 * 0x1_0000 + lo);
    DivIs(v, 0x100, hi * 256 + lo / 256, lo % 256);
  }

  /**
   * Which record is an SOA, an OPT or a TSIG is said by the two octets of its type, and the serial of an
   * SOA by the four octets behind its two names.
   */
  lemma {:induction false} TypeFromOctets(msg: seq<byte>, off: nat, ls: seq<Label>, h: nat, t: nat, n: nat)
    requires RecordAt(msg, off, ls, h, t, n) && UnpackRR(msg, off).Record?
    ensures var rr := UnpackRR(msg, off).rr;
            && (IsSOA(rr) <==> msg[h] == 0 && msg[h + 1] == 6)
            && (rr.rrtype == TYPE_OPT <==> msg[h] == 0 && msg[h + 1] == 41)
            && (rr.rrtype == TYPE_TSIG <==> msg[h] == 0 && msg[h + 1] == 250)
  {
    hide UnpackName, UnpackFields, Layout, NameText;
  }

  lemma {:induction false} SerialFromOctets(msg: seq<byte>, off: nat, ls: seq<Label>, h: nat, n: nat, ns: seq<Label>,
                                            p: nat, mbox: seq<Label>, q: nat)
    requires RecordAt(msg, off, ls, h, 6, n) && n > 0 && q + 20 == h + 10 + n
    requires UnpackName(msg[..h + 10 + n], h + 10) == Name(ns, p) && p < h + 10 + n
    requires UnpackName(msg[..h + 10 + n], p) == Name(mbox, q)
    ensures UnpackRR(msg, off).Record?
    ensures Serial(UnpackRR(msg, off).rr) ==
            msg[q] as int * 0x100_0000 + msg[q + 1] as int * 0x1_0000 + msg[q + 2] as int * 0x100 + msg[q + 3]
  {
    hide UnpackName, UnpackRR, NameText;
    SoaIs(msg, off, ls, h, n, ns, p, mbox, q);
    assert UnpackRR(msg, off).rr.rdata[2] == Raw(msg[q..q + 4]);
  }

  /**
   * A question, wherever its name ends: type and class, or zeros for what is missing, and nothing else
   * of one or three octets.
   */
  lemma {:induction false} QuestionReads(msg: seq<byte>, off: nat, ls: seq<Label>, h: nat)
    requires UnpackName(msg, off) == Name(ls, h) && h <= |msg|
    ensures UnpackQuestion(msg, off) ==
            var n := |msg| - h;
            if n == 1 || n == 3 then BadQuestion
            else Asked(Question(NameText(ls), if n >= 2 then msg[h] as int * 256 + msg[h + 1] else 0,
                                if n >= 4 then msg[h + 2] as int * 256 + msg[h + 3] else 0), h + if n < 4 then n else 4)
  {
    hide UnpackName, NameText;
  }

  /** A record is refused when its name is, or when the message ends before the record does. */
  lemma {:induction false} RecordRefused(msg: seq<byte>, off: nat)
    requires off != |msg|
    ensures match UnpackName(msg, off)
            case Bad(_) => UnpackRR(msg, off).BadRecord?
            case Name(_, h) =>
              h + 10 > |msg| || h + 10 + (msg[h + 8] as int * 256 + msg[h + 9]) > |msg| ==>
                UnpackRR(msg, off).BadRecord?
  {
    hide UnpackName, UnpackFields, Layout, NameText;
  }

  /** At the end of a message nothing is read, however many records its header promises. */
  lemma {:induction false} CountTooHigh(msg: seq<byte>, n: nat)
    ensures UnpackRRs(n, msg, |msg|) == Records([], |msg|)
  {
    hide UnpackName, UnpackFields, Layout;
  }

  /** Twelve octets are a message without sections, whatever their counts; fewer are none. */
  lemma {:induction false} HeaderAlone(msg: seq<byte>)
    ensures |msg| < 12 ==> UnpackMsg(msg).BadMsg?
    ensures |msg| == 12 ==> UnpackMsg(msg).Got?
    ensures |msg| == 12 ==> var m := UnpackMsg(msg).m; m.question == [] && m.answer == m.ns == m.extra == []
  {
    hide UnpackQuestions, UnpackRRs, HdrOf;
  }

  // ----- a transfer on the wire -----

  /** The request of a zone transfer, octet by octet. */
  lemma {:induction false} AxfrQueryIs(id: uint16, zone: Text)
    requires Portable(zone)
    ensures PackMsg(AxfrQuery(id, zone), 0) ==
            Sent(Two(id) + [0, 0, 0, 1, 0, 0, 0, 0, 0, 0] + NameOctets(zone) + [0, 252, 0, 1])
  {
    hide PackMsg, PackSections, Portable, NameOctets, HeaderOctets, Nameable, MsgLen;
    var m := AxfrQuery(id, zone);
    AxfrQueryPacks(id, zone);
    PortableIsNameable(zone);
    OneQuestion(m);
    HeaderIs(m.hdr, 1, 0, 0, 0);
    var h := HeaderOctets(m.hdr, 1, 0, 0, 0);
    assert h == Two(id) + [0, 0, 0, 1, 0, 0, 0, 0, 0, 0];
    assert m.question[0] == Question(zone, 252, 1) && Two(252) + Two(1) == [0, 252, 0, 1];
  }

  /** A message with nothing but a question is its header and the question. */
  lemma {:induction false} OneQuestion(m: Msg)
    requires |m.question| == 1 && m.answer == [] && m.ns == [] && m.extra == [] && PackMsg(m, 0).Sent?
    requires GoodMsg(m) && Nameable(m.question[0].name)
    ensures var q := m.question[0];
            PackMsg(m, 0).octets ==
            HeaderOctets(m.hdr, 1, 0, 0, 0) + NameOctets(q.name)
            + (Two(q.qtype) + Two(q.qclass))
  {
    hide PackQuestion, PackSections, PackMsg, NameOctets, HeaderOctets, Nameable, MsgLen, GoodMsg;
    var q := m.question[0];
    var cap := Capacity(Outgoing(m), 0);
    PackedIs(m);
    OneQuestionPacks(Outgoing(m), cap);
    QuestionIs(q, HEADER_SIZE, cap);
    var h, o := HeaderOctets(m.hdr, 1, 0, 0, 0), NameOctets(q.name);
    var tc := Two(q.qtype) + Two(q.qclass);
    assert h + (o + tc) == h + o + tc;
  }

  lemma NoQuestions(off: nat, cap: nat, x: Index)
    ensures PackQuestions([], off, cap, x, false) == Packed([], x)
  {
  }

  lemma NoRecords(off: nat, cap: nat, x: Index)
    ensures PackRRs([], off, cap, x, false) == Packed([], x)
  {
  }

  lemma {:induction false} OneQuestionPacks(m: Msg, cap: nat)
    requires |m.question| == 1 && m.answer == [] && m.ns == [] && m.extra == []
    requires PackSections(m, HEADER_SIZE, cap, NoIndex, false).Packed?
    ensures var q := PackQuestion(m.question[0], HEADER_SIZE, cap, NoIndex, false);
            q.Packed? && PackSections(m, HEADER_SIZE, cap, NoIndex, false).out == q.out
  {
    hide PackQuestion;
    assert m.question[1..] == [];
    var p := PackQuestion(m.question[0], HEADER_SIZE, cap, NoIndex, false);
    var q := PackQuestions(m.question, HEADER_SIZE, cap, NoIndex, false);
    assert p.Packed? && q.Packed?;
    NoQuestions(HEADER_SIZE + |p.out|, cap, p.index);
    assert q.out == p.out + [] == p.out;
    NoRecords(HEADER_SIZE + |q.out|, cap, q.index);
    assert q.out + ([] + ([] + [])) == q.out;
  }

  /** The header of every reply of a transfer: the request's ID and opcode, QR and AA, one question at most. */
  lemma {:induction false} ReplyHeaderIs(q: Msg, rrs: seq<RR>)
    requires GoodMsg(ReplyTo(q, rrs)) && PackMsg(ReplyTo(q, rrs), 0).Sent? && |rrs| <= 0xFFFF
    ensures var o, plain := PackMsg(ReplyTo(q, rrs), 0).octets, q.hdr.opcode == 0;
            && |o| >= 12 && o[0] as int * 256 + o[1] == q.hdr.id
            && o[2] == 128 + q.hdr.opcode * 8 + 4 + Flag(plain && q.hdr.recursionDesired, 1)
            && o[3] == Flag(plain && q.hdr.checkingDisabled, 16)
            && o[4] == 0 && o[5] == (if q.question == [] then 0 else 1)
            && o[6] as int * 256 + o[7] == |rrs| && o[8] == o[9] == o[10] == o[11] == 0
  {
    hide PackMsg, GoodQuestions, GoodRRs, OptIndex, Body, HeaderOctets;
    var m := ReplyTo(q, rrs);
    var o := PackMsg(m, 0).octets;
    HeaderIs(m.hdr, |m.question|, |m.answer|, 0, 0);
    var h := HeaderOctets(m.hdr, |m.question|, |m.answer|, 0, 0);
    assert o == h + Body(m);
  }
}
