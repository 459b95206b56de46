/** Whole messages: header, sections, packing with compression and unpacking. */
module Message {
  import opened Octets
  import opened NamePack
  import opened NameLength
  import opened Records

  datatype MsgHdr = MsgHdr(
    id: uint16, response: bool, opcode: int, authoritative: bool, truncated: bool, recursionDesired: bool,
    recursionAvailable: bool, zero: bool, authenticatedData: bool, checkingDisabled: bool, rcode: int)

  datatype Msg = Msg(hdr: MsgHdr, compress: bool, question: seq<Question>, answer: seq<RR>, ns: seq<RR>, extra: seq<RR>)

  const HEADER_SIZE := 12

  // ----- header bits -----

  function Bit(b: bool, v: nat): nat {
    if b then v else 0
  }

  /** The flag word: opcode shifted by 11, low rcode bits, and one bit per flag. */
  function Bits(h: MsgHdr): uint16 {
    Bit(h.response || h.opcode / 16 % 2 == 1, 0x8000) + h.opcode % 16 * 0x800 + Bit(h.authoritative, 0x400)
        + Bit(h.truncated, 0x200)
    + Bit(h.recursionDesired, 0x100) + Bit(h.recursionAvailable, 0x80) + Bit(h.zero, 0x40)
    + Bit(h.authenticatedData, 0x20) + Bit(h.checkingDisabled, 0x10) + h.rcode % 16
  }

  predicate IsSet(bits: uint16, v: nat)
    requires v > 0
  {
    bits / v % 2 == 1
  }

  /** `setHdr`. */
  function HdrOf(id: uint16, bits: uint16): MsgHdr {
    MsgHdr(id, IsSet(bits, 0x8000), bits / 0x800 % 16, IsSet(bits, 0x400), IsSet(bits, 0x200), IsSet(bits, 0x100),
           IsSet(bits, 0x80), IsSet(bits, 0x40), IsSet(bits, 0x20), IsSet(bits, 0x10), bits % 16)
  }

  lemma BitAt(bits: uint16, v: nat, hi: nat, b: bool, lo: nat)
    requires v > 0 && bits == hi * 2 * v + Bit(b, v) + lo && lo < v
    ensures IsSet(bits, v) == b
  {
    var q := 2 * hi + if b then 1 else 0;
    assert bits == q * v + lo;
    DivIs(bits, v, q, lo);
  }

  lemma DivIs(n: nat, v: nat, q: nat, r: nat)
    requires v > 0 && n == q * v + r && r < v
    ensures n / v == q
  {
    var d := n / v - q;
    assert n == (q + d) * v + n % v;
    assert d * v == r - n % v;
    assert d >= 1 ==> d * v >= v;
    assert d <= -1 ==> d * v + v <= 0;
  }

  /** The part of the flag word above the recursion-available bit, and the part from it down. */
  function HighBits(h: MsgHdr): nat {
    (((Bit(h.response || h.opcode / 16 % 2 == 1, 16) + h.opcode % 16) * 2 + Bit(h.authoritative, 1)) * 2
        + Bit(h.truncated, 1)) * 2
    + Bit(h.recursionDesired, 1)
  }

  function LowBits(h: MsgHdr): nat {
    Bit(h.recursionAvailable, 0x80) + Bit(h.zero, 0x40) + Bit(h.authenticatedData, 0x20) + Bit(h.checkingDisabled, 0x10)
    + h.rcode % 16
  }

  lemma {:induction false} LowBitsRead(h: MsgHdr, bits: uint16, hi: nat)
    requires bits == hi * 0x100 + LowBits(h)
    ensures IsSet(bits, 0x80) == h.recursionAvailable && IsSet(bits, 0x40) == h.zero
    ensures IsSet(bits, 0x20) == h.authenticatedData && IsSet(bits, 0x10) == h.checkingDisabled
    ensures bits % 16 == h.rcode % 16
  {
    hide IsSet;
    var rc := h.rcode % 16;
    var lo4 := Bit(h.checkingDisabled, 0x10) + rc;
    var lo5 := Bit(h.authenticatedData, 0x20) + lo4;
    var hi6 := 2 * hi + Bit(h.recursionAvailable, 1);
    var hi5 := 2 * hi6 + Bit(h.zero, 1);
    var hi4 := 2 * hi5 + Bit(h.authenticatedData, 1);
    BitAt(bits, 0x80, hi, h.recursionAvailable, Bit(h.zero, 0x40) + lo5);
    BitAt(bits, 0x40, hi6, h.zero, lo5);
    BitAt(bits, 0x20, hi5, h.authenticatedData, lo4);
    BitAt(bits, 0x10, hi4, h.checkingDisabled, rc);
    assert bits == 16 * (2 * hi4 + Bit(h.checkingDisabled, 1)) + rc;
  }

  lemma {:induction false} HighBitsRead(h: MsgHdr, bits: uint16, lo: nat)
    requires 0 <= h.opcode < 16 && lo < 0x100 && bits == HighBits(h) * 0x100 + lo
    ensures IsSet(bits, 0x8000) == h.response && bits / 0x800 % 16 == h.opcode
    ensures IsSet(bits, 0x400) == h.authoritative && IsSet(bits, 0x200) == h.truncated
    ensures IsSet(bits, 0x100) == h.recursionDesired
  {
    hide IsSet;
    var hi10 := Bit(h.response, 16) + h.opcode;
    var hi9 := 2 * hi10 + Bit(h.authoritative, 1);
    var hi8 := 2 * hi9 + Bit(h.truncated, 1);
    var lo8 := Bit(h.recursionDesired, 0x100) + lo;
    var lo9 := Bit(h.truncated, 0x200) + lo8;
    var lo10 := Bit(h.authoritative, 0x400) + lo9;
    BitAt(bits, 0x100, hi8, h.recursionDesired, lo);
    BitAt(bits, 0x200, hi9, h.truncated, lo8);
    BitAt(bits, 0x400, hi10, h.authoritative, lo9);
    BitAt(bits, 0x8000, 0, h.response, h.opcode * 0x800 + lo10);
    DivIs(bits, 0x800, hi10, lo10);
  }

  /** The header survives the flag word, except for the rcode bits that travel in the OPT record. */
  lemma {:induction false} BitsRoundTrip(h: MsgHdr)
    requires 0 <= h.opcode < 16
    ensures HdrOf(h.id, Bits(h)) == h.(rcode := h.rcode % 16)
  {
    hide IsSet;
    assert Bits(h) == HighBits(h) * 0x100 + LowBits(h);
    LowBitsRead(h, Bits(h), HighBits(h));
    HighBitsRead(h, Bits(h), LowBits(h));
  }

  // ----- lengths, computed without packing -----

  function FieldsLen(fs: seq<Field>, off: nat, x: Seen): Sized {
    if fs == [] then Sized(0, x)
    else
      var one := match fs[0]
                 case Raw(d) => Sized(|d|, x)
                 case NameField(t, c) => NameLen(t, off, x, c);
      var rest := FieldsLen(fs[1..], off + one.len, one.seen);
      Sized(one.len + rest.len, rest.seen)
  }

  function RRLen(rr: RR, off: nat, x: Seen): (r: Sized)
    ensures r.len >= 10
  {
    var h := NameLen(rr.name, off, x, true);
    var d := FieldsLen(rr.rdata, off + h.len + 10, h.seen);
    Sized(h.len + 10 + d.len, d.seen)
  }

  function QuestionLen(q: Question, off: nat, x: Seen): (r: Sized)
    ensures r.len >= 4
  {
    var h := NameLen(q.name, off, x, true);
    Sized(h.len + 4, h.seen)
  }

  /** Running length and suffixes after the questions; `off` is the length so far. */
  function QuestionsLen(qs: seq<Question>, off: nat, x: Seen): (r: Sized)
    ensures r.len >= off
  {
    if qs == [] then Sized(off, x)
    else var one := QuestionLen(qs[0], off, x); QuestionsLen(qs[1..], off + one.len, one.seen)
  }

  function RRsLen(rrs: seq<RR>, off: nat, x: Seen): (r: Sized)
    ensures r.len >= off
  {
    if rrs == [] then Sized(off, x)
    else var one := RRLen(rrs[0], off, x); RRsLen(rrs[1..], off + one.len, one.seen)
  }

  /** `msgLenWithCompressionMap`. */
  function MsgLen(m: Msg, x: Seen): (n: nat)
    ensures n >= HEADER_SIZE
  {
    var q := QuestionsLen(m.question, HEADER_SIZE, x);
    var a := RRsLen(m.answer, q.len, q.seen);
    var n := RRsLen(m.ns, a.len, a.seen);
    RRsLen(m.extra, n.len, n.seen).len
  }

  predicate IsCompressible(m: Msg) {
    |m.question| > 1 || m.answer != [] || m.ns != [] || m.extra != []
  }

  /** `Msg.Len`. */
  function Len(m: Msg): nat {
    MsgLen(m, if m.compress && IsCompressible(m) then Seen({}) else NoSeen)
  }

  // ----- the OPT record -----

  /** Position of the last OPT record, or -1. */
  function OptIndex(extra: seq<RR>): (i: int)
    ensures -1 <= i < |extra|
    ensures i >= 0 ==> extra[i].rrtype == TYPE_OPT
    ensures forall j :: i < j < |extra| ==> extra[j].rrtype != TYPE_OPT
  {
    if extra == [] then -1
    else if extra[|extra| - 1].rrtype == TYPE_OPT then |extra| - 1
    else OptIndex(extra[..|extra| - 1])
  }

  /** `SetExtendedRcode`: the high rcode bits replace the top octet of the TTL. */
  function WithExtended(opt: RR, rcode: int): RR {
    opt.(ttl := opt.ttl % 0x100_0000 + rcode / 16 % 256 * 0x100_0000)
  }

  /** `ExtendedRcode`. */
  function ExtendedRcode(opt: RR): int {
    opt.ttl / 0x100_0000 * 16
  }

  function SetExtended(extra: seq<RR>, rcode: int): (r: seq<RR>)
    ensures |r| == |extra|
  {
    var i := OptIndex(extra);
    if i < 0 then extra else extra[i := WithExtended(extra[i], rcode)]
  }

  // ----- packing -----

  function PackQuestions(qs: seq<Question>, off: nat, cap: nat, x: Index, compress: bool): Packed {
    if qs == [] then Packed([], x)
    else match PackQuestion(qs[0], off, cap, x, compress)
      case Failed(e) => Failed(e)
      case Packed(o, y) => Prepend(o, PackQuestions(qs[1..], off + |o|, cap, y, compress))
  }

  function PackRRs(rrs: seq<RR>, off: nat, cap: nat, x: Index, compress: bool): Packed {
    if rrs == [] then Packed([], x)
    else match PackRR(rrs[0], off, cap, x, compress)
      case Failed(e) => Failed(e)
      case Packed(o, y) => Prepend(o, PackRRs(rrs[1..], off + |o|, cap, y, compress))
  }

  /** The twelve octets of the message header. */
  function HeaderOctets(h: MsgHdr, qd: uint16, an: uint16, ns: uint16, ar: uint16): (o: seq<byte>)
    ensures |o| == HEADER_SIZE
  {
    PutU16(h.id) + PutU16(Bits(h)) + PutU16(qd) + PutU16(an) + PutU16(ns) + PutU16(ar)
  }

  /** The sections one after the other, the map threaded through all of them. */
  function PackSections(m: Msg, off: nat, cap: nat, x: Index, compress: bool): Packed {
    match PackQuestions(m.question, off, cap, x, compress)
    case Failed(e) => Failed(e)
    case Packed(o, y) => Prepend(o,
      match PackRRs(m.answer, off + |o|, cap, y, compress)
      case Failed(e) => Failed(e)
      case Packed(o', y') => Prepend(o',
        match PackRRs(m.ns, off + |o| + |o'|, cap, y', compress)
        case Failed(e) => Failed(e)
        case Packed(o'', y'') => Prepend(o'', PackRRs(m.extra, off + |o| + |o'| + |o''|, cap, y'', compress))))
  }

  /** The message as it goes on the wire: extended rcode bits in the OPT record. */
  function Outgoing(m: Msg): Msg {
    m.(extra := SetExtended(m.extra, m.hdr.rcode))
  }

  /** Room for the message: the caller's buffer, or a fresh one of one octet more than the uncompressed length. */
  function Capacity(m: Msg, buflen: nat): nat {
    if buflen < MsgLen(m, NoSeen) + 1 then MsgLen(m, NoSeen) + 1 else buflen
  }

  datatype Sending = Sent(octets: seq<byte>) | Refused(error: PackError)

  /** `PackBuffer` on a buffer of `buflen` octets. */
  function PackMsg(m: Msg, buflen: nat): (r: Sending)
    ensures r.Sent? ==> |r.octets| >= HEADER_SIZE
  {
    if m.hdr.rcode < 0 || m.hdr.rcode > 0xFFF then Refused(ErrRcode)
    else if OptIndex(m.extra) < 0 && m.hdr.rcode > 15 then Refused(ErrExtendedRcode)
    else
      var compress := m.compress && IsCompressible(m);
      var out := Outgoing(m);
      var h := HeaderOctets(m.hdr, |m.question| % 0x1_0000, |m.answer| % 0x1_0000, |m.ns| % 0x1_0000,
                            |m.extra| % 0x1_0000);
      match PackSections(out, HEADER_SIZE, Capacity(out, buflen), if compress then Index(map[]) else NoIndex, compress)
      case Failed(e) => Refused(e)
      case Packed(o, _) => Sent(h + o)
  }

  // ----- unpacking -----

  datatype UnpackedQuestions = Questions(qs: seq<Question>, next: nat) | BadQuestions
  datatype UnpackedRRs = Records(rrs: seq<RR>, next: nat) | BadRecords

  /** The question loop, which stops early when the offset no longer increases. */
  function UnpackQuestions(n: nat, msg: seq<byte>, off: nat): UnpackedQuestions {
    if n == 0 then Questions([], off)
    else match UnpackQuestion(msg, off)
      case BadQuestion => BadQuestions
      case Asked(q, next) =>
        if next == off then Questions([], off)
        else match UnpackQuestions(n - 1, msg, next)
          case BadQuestions => BadQuestions
          case Questions(qs, end) => Questions([q] + qs, end)
  }

  /** `unpackRRslice`: all or nothing, and early end when the offset no longer increases. */
  function UnpackRRs(n: nat, msg: seq<byte>, off: nat): UnpackedRRs {
    if n == 0 then Records([], off)
    else match UnpackRR(msg, off)
      case BadRecord => BadRecords
      case Record(rr, next) =>
        if next == off then Records([], off)
        else match UnpackRRs(n - 1, msg, next)
          case BadRecords => BadRecords
          case Records(rrs, end) => Records([rr] + rrs, end)
  }

  datatype Received = Got(m: Msg) | BadMsg

  /** The rcode with the extended bits of the OPT record, if any. */
  function FullRcode(low: int, extra: seq<RR>): int {
    if OptIndex(extra) < 0 then low else low + ExtendedRcode(extra[OptIndex(extra)])
  }

  /** `Msg.Unpack`. */
  function UnpackMsg(msg: seq<byte>): Received {
    if |msg| < HEADER_SIZE then BadMsg
    else
      var h := HdrOf(GetU16(msg, 0), GetU16(msg, 2));
      if |msg| == HEADER_SIZE then Got(Msg(h, false, [], [], [], []))
      else match UnpackQuestions(GetU16(msg, 4), msg, HEADER_SIZE)
        case BadQuestions => BadMsg
        case Questions(qs, p) =>
          match UnpackRRs(GetU16(msg, 6), msg, p)
          case BadRecords => BadMsg
          case Records(an, p') =>
            match UnpackRRs(GetU16(msg, 8), msg, p')
            case BadRecords => BadMsg
            case Records(ns, p'') =>
              match UnpackRRs(GetU16(msg, 10), msg, p'')
              case BadRecords => BadMsg
              case Records(ex, _) => Got(Msg(h.(rcode := FullRcode(h.rcode, ex)), false, qs, an, ns, ex))
  }
}
