/** The mutable `Msg`: sections edited in place, lengths and sections worked through in loops. */
module MessageObject {
  import opened Octets
  import opened Wrappers
  import opened NamePack
  import opened NameLength
  import opened Records
  import opened Message
  import opened RecordCodec
  import opened Truncation

  // ----- lengths -----

  method RdataLen(fs: seq<Field>, off: nat, c: SuffixSet?) returns (n: nat)
    modifies c
    ensures var r := FieldsLen(fs, off, old(SeenIn(c))); n == r.len && SeenIn(c) == r.seen
  {
    hide NameLen;
    n := 0;
    ghost var r := FieldsLen(fs, off, SeenIn(c));
    assert fs[0..] == fs;
    for i := 0 to |fs|
      invariant var q := FieldsLen(fs[i..], off + n, SeenIn(c)); r == Sized(n + q.len, q.seen)
    {
      assert fs[i..][0] == fs[i] && fs[i..][1..] == fs[i + 1..];
      match fs[i]
      case Raw(d) => n := n + |d|;
      case NameField(t, compress) =>
        var one := DomainNameLen(t, off + n, c, compress);
        n := n + one;
    }
  }

  method RecordLen(rr: RR, off: nat, c: SuffixSet?) returns (n: nat)
    modifies c
    ensures var r := RRLen(rr, off, old(SeenIn(c))); n == r.len && SeenIn(c) == r.seen
  {
    hide NameLen, FieldsLen;
    var h := DomainNameLen(rr.name, off, c, true);
    var d := RdataLen(rr.rdata, off + h + 10, c);
    n := h + 10 + d;
  }

  method SectionLen(rrs: seq<RR>, l0: nat, c: SuffixSet?) returns (l: nat)
    modifies c
    ensures var r := RRsLen(rrs, l0, old(SeenIn(c))); l == r.len && SeenIn(c) == r.seen
  {
    hide RRLen;
    l := l0;
    assert rrs[0..] == rrs;
    for i := 0 to |rrs|
      invariant RRsLen(rrs, l0, old(SeenIn(c))) == RRsLen(rrs[i..], l, SeenIn(c))
    {
      assert rrs[i..][0] == rrs[i] && rrs[i..][1..] == rrs[i + 1..];
      var one := RecordLen(rrs[i], l, c);
      l := l + one;
    }
  }

  method QuestionSectionLen(qs: seq<Question>, l0: nat, c: SuffixSet?) returns (l: nat)
    modifies c
    ensures var r := QuestionsLen(qs, l0, old(SeenIn(c))); l == r.len && SeenIn(c) == r.seen
  {
    hide NameLen;
    l := l0;
    assert qs[0..] == qs;
    for i := 0 to |qs|
      invariant QuestionsLen(qs, l0, old(SeenIn(c))) == QuestionsLen(qs[i..], l, SeenIn(c))
    {
      assert qs[i..][0] == qs[i] && qs[i..][1..] == qs[i + 1..];
      var one := DomainNameLen(qs[i].name, l, c, true);
      l := l + one + 4;
    }
  }

  /** `truncateLoop`. */
  method TruncateLoop(rrs: seq<RR>, size: int, l0: nat, c: SuffixSet) returns (l: int, n: nat)
    modifies c
    ensures var k := Keep(rrs, size, l0, Seen(old(c.names))); l == k.l && n == k.n && Seen(c.names) == k.seen
  {
    hide RRLen;
    var len: nat := l0;
    ghost var k := Keep(rrs, size, l0, SeenIn(c));
    assert rrs[0..] == rrs;
    for i := 0 to |rrs|
      invariant var q := Keep(rrs[i..], size, len, SeenIn(c)); k == Kept(q.l, i + q.n, q.seen)
    {
      assert rrs[i..][0] == rrs[i] && rrs[i..][1..] == rrs[i + 1..];
      var one := RecordLen(rrs[i], len, c);
      len := len + one;
      if len > size {
        return size, i;
      }
      if len == size {
        return len, i + 1;
      }
    }
    return len, |rrs|;
  }

  // ----- the object -----

  class Packet {
    var hdr: MsgHdr
    var compress: bool
    var question: seq<Question>
    var answer: seq<RR>
    var ns: seq<RR>
    var extra: seq<RR>

    constructor (m: Msg)
      ensures Value() == m
    {
      hdr, compress, question, answer, ns, extra := m.hdr, m.compress, m.question, m.answer, m.ns, m.extra;
    }

    function Value(): Msg
      reads this
    {
      Msg(hdr, compress, question, answer, ns, extra)
    }

    /** `msgLenWithCompressionMap`. */
    method Length(c: SuffixSet?) returns (l: nat)
      requires c == null || c as object != this
      modifies c
      ensures l == MsgLen(Value(), old(SeenIn(c))) && Value() == old(Value())
    {
      hide QuestionsLen, RRsLen;
      l := QuestionSectionLen(question, HEADER_SIZE, c);
      l := SectionLen(answer, l, c);
      l := SectionLen(ns, l, c);
      l := SectionLen(extra, l, c);
    }

    /** `popEdns0`: searches from the end and takes the record out. */
    method PopEdns0() returns (opt: seq<RR>)
      modifies this`extra
      ensures opt == OptOf(old(extra)) && extra == WithoutOpt(old(extra))
    {
      var i := |extra| - 1;
      while i >= 0
        invariant -1 <= i < |extra| && extra == old(extra)
        invariant forall j :: i < j < |extra| ==> extra[j].rrtype != TYPE_OPT
      {
        if extra[i].rrtype == TYPE_OPT {
          opt := [extra[i]];
          extra := extra[..i] + extra[i + 1..];
          return;
        }
        i := i - 1;
      }
      return [];
    }

    /** `Truncate`. */
    method Truncate(size0: int)
      modifies this
      ensures Value() == Truncated(old(Value()), size0)
    {
      hide RRLen, QuestionsLen, MsgLen, KeepSection, WithoutOpt, OptOf, OptLen, Truncated;
      ghost var m := Value();
      if |extra| > 0 && extra[|extra| - 1].rrtype == TYPE_TSIG {
        TruncatedIs(m, size0, Kept(0, 0, NoSeen), Kept(0, 0, NoSeen), Kept(0, 0, NoSeen));
        return;
      }
      var size := if size0 < MIN_MSG_SIZE then MIN_MSG_SIZE else size0;
      var l := Length(null);
      if l <= size {
        TruncatedIs(m, size0, Kept(0, 0, NoSeen), Kept(0, 0, NoSeen), Kept(0, 0, NoSeen));
        compress := false;
        return;
      }
      compress := true;
      var opt := PopEdns0();
      OptLenIs(m.extra);
      if opt != [] {
        var o := RecordLen(opt[0], 0, null);
        size := size - o;
      }
      Cut(size, opt, m, size0);
    }

    /** Keep the records that fit `size`, and put the OPT record back. */
    method Cut(size: int, opt: seq<RR>, ghost m: Msg, ghost size0: int)
      requires !IsTsig(m) && MsgLen(m, NoSeen) > Limit(size0) && size == Limit(size0) - OptLen(m.extra)
      requires opt == OptOf(m.extra) && Value() == m.(compress := true, extra := WithoutOpt(m.extra))
      modifies this
      ensures Value() == Truncated(m, size0)
    {
      hide RRLen, QuestionsLen, MsgLen, KeepSection, WithoutOpt, OptOf, OptLen, Truncated;
      var c := new SuffixSet();
      var q := QuestionSectionLen(question, HEADER_SIZE, c);
      var la, numAnswer := TruncateSection(answer, size, q, c, 0);
      ghost var a := Kept(la, numAnswer, SeenIn(c));
      var ln, numNs := TruncateSection(ns, size, la, c, numAnswer);
      ghost var n := Kept(ln, numNs, SeenIn(c));
      var le, numExtra := TruncateSection(extra, size, ln, c, numNs);
      TruncatedIs(m, size0, a, n, Kept(le, numExtra, SeenIn(c)));
      hdr := hdr.(truncated := hdr.truncated || |answer| > numAnswer || |ns| > numNs || |extra| > numExtra);
      answer := answer[..numAnswer];
      ns := ns[..numNs];
      extra := extra[..numExtra] + opt;
    }

    /** `Unpack`: header fields, sections and the extended rcode are set one after the other. */
    method Unpack(msg: seq<byte>) returns (ok: bool)
      modifies this
      ensures match UnpackMsg(msg)
              case Got(m) => ok && Value() == m.(compress := old(compress))
              case BadMsg => !ok
    {
      hide UnpackQuestions, UnpackRRs, HdrOf, OptIndex;
      if |msg| < HEADER_SIZE {
        return false;
      }
      hdr := HdrOf(GetU16(msg, 0), GetU16(msg, 2));
      if |msg| == HEADER_SIZE {
        question, answer, ns, extra := [], [], [], [];
        return true;
      }
      var off;
      question, off, ok := UnpackQuestionLoop(GetU16(msg, 4), msg, HEADER_SIZE);
      if !ok {
        return;
      }
      answer, off, ok := UnpackSlice(GetU16(msg, 6), msg, off);
      if ok {
        ns, off, ok := UnpackSlice(GetU16(msg, 8), msg, off);
      }
      if ok {
        extra, off, ok := UnpackSlice(GetU16(msg, 10), msg, off);
      }
      var i := Edns0Index();
      OptIndexBounds(extra);
      if i >= 0 {
        hdr := hdr.(rcode := hdr.rcode + ExtendedRcode(extra[i]));
      }
    }

    /** `IsEdns0`: position of the last OPT record, or -1. */
    method Edns0Index() returns (i: int)
      ensures i == OptIndex(extra)
    {
      i := |extra| - 1;
      while i >= 0
        invariant -1 <= i < |extra|
        invariant forall j :: i < j < |extra| ==> extra[j].rrtype != TYPE_OPT
      {
        if extra[i].rrtype == TYPE_OPT {
          return;
        }
        i := i - 1;
      }
    }

    /** The sections of `packBufferWithCompressionMap`, into a buffer longer than the uncompressed length. */
    method PackInto(msg: array<byte>, comp: CompressionMap, compr: bool) returns (off: nat, err: Option<PackError>)
      requires MsgLen(Value(), NoSeen) < msg.Length
      modifies msg, comp
      ensures Delivered(PackSections(Value(), HEADER_SIZE, msg.Length, old(comp.index), compr),
                        old(msg[..]), msg[..], HEADER_SIZE, off, err, comp.index)
    {
      hide PackQuestions, PackRRs, QuestionsLen, RRsLen, Written, MsgLen, PackSections;
      SectionsIs(Value(), msg.Length, comp.index, compr);
      LengthsBelow(Value());
      ghost var cap, m0 := msg.Length, msg[..];
      ghost var p1 := PackQuestions(question, HEADER_SIZE, cap, comp.index, compr);
      off, err := PackQuestionSection(question, msg, HEADER_SIZE, comp, compr);
      if err.Some? {
        return;
      }
      QuestionsAtMost(question, HEADER_SIZE, HEADER_SIZE, cap, old(comp.index), compr);
      ghost var q := QuestionsLen(question, HEADER_SIZE, NoSeen);
      ghost var p2 := PackRRs(answer, off, cap, comp.index, compr);
      off, err := NextSection(answer, msg, off, comp, compr, q.len, m0, p1.out);
      if err.Some? {
        return;
      }
      ghost var a := RRsLen(answer, q.len, NoSeen);
      ghost var p3 := PackRRs(ns, off, cap, comp.index, compr);
      off, err := NextSection(ns, msg, off, comp, compr, a.len, m0, p1.out + p2.out);
      if err.Some? {
        return;
      }
      ghost var n := RRsLen(ns, a.len, NoSeen);
      off, err := NextSection(extra, msg, off, comp, compr, n.len, m0, p1.out + p2.out + p3.out);
    }

    /** `PackBuffer`: the extended rcode goes into the OPT record, then header and sections go out. */
    method PackBuffer(buf: array<byte>) returns (octets: seq<byte>, err: Option<PackError>)
      modifies this, buf
      ensures match PackMsg(old(Value()), buf.Length)
              case Sent(o) => err.None? && octets == o && Value() == Outgoing(old(Value()))
              case Refused(e) => err == Some(e)
    {
      hide PackSections, MsgLen, HeaderOctets, SetExtended, OptIndex;
      octets := [];
      err := StoreRcode();
      if err.Some? {
        return;
      }
      octets, err := PackOut(buf);
    }

    /** The high rcode bits are stored in the OPT record, without which there is no room for them. */
    method StoreRcode() returns (err: Option<PackError>)
      modifies this`extra
      ensures var m := old(Value());
              if m.hdr.rcode < 0 || m.hdr.rcode > 0xFFF then err == Some(ErrRcode)
              else if OptIndex(m.extra) < 0 && m.hdr.rcode > 15 then err == Some(ErrExtendedRcode)
              else err.None? && Value() == Outgoing(m)
    {
      hide OptIndex, WithExtended;
      if hdr.rcode < 0 || hdr.rcode > 0xFFF {
        return Some(ErrRcode);
      }
      var i := Edns0Index();
      OptIndexBounds(extra);
      if i >= 0 {
        extra := extra[i := WithExtended(extra[i], hdr.rcode)];
      } else if hdr.rcode > 15 {
        return Some(ErrExtendedRcode);
      }
      return None;
    }

    /** Header and sections, in the caller's buffer when that is long enough without compression. */
    method PackOut(buf: array<byte>) returns (octets: seq<byte>, err: Option<PackError>)
      modifies buf
      ensures var m := Value();
              var compr := m.compress && IsCompressible(m);
              match PackSections(m, HEADER_SIZE, Capacity(m, buf.Length),
                                 if compr then Index(map[]) else NoIndex, compr)
              case Failed(e) => err == Some(e)
              case Packed(o, _) =>
                && err.None?
                && octets == HeaderOctets(m.hdr, |m.question| % 0x1_0000, |m.answer| % 0x1_0000, |m.ns| % 0x1_0000,
                     |m.extra| % 0x1_0000) + o
    {
      hide PackSections, MsgLen, HeaderOctets, Written;
      ghost var m := Value();
      var compr := compress && (|question| > 1 || |answer| > 0 || |ns| > 0 || |extra| > 0);
      assert compr == (m.compress && IsCompressible(m));
      var uncompressedLen := Length(null);
      var msg := buf;
      if msg.Length < uncompressedLen + 1 {
        msg := new byte[uncompressedLen + 1];
      }
      assert msg.Length == Capacity(m, buf.Length);
      var comp := new CompressionMap(if compr then Index(map[]) else NoIndex);
      var h := HeaderOctets(hdr, |question| % 0x1_0000, |answer| % 0x1_0000, |ns| % 0x1_0000, |extra| % 0x1_0000);
      ghost var m0 := msg[..];
      var ok := WriteRaw(msg, 0, h);
      ghost var m1 := msg[..];
      ghost var r := PackSections(Value(), HEADER_SIZE, msg.Length, comp.index, compr);
      var off, e := PackInto(msg, comp, compr);
      if e.Some? {
        return [], e;
      }
      WrittenThen(m0, m1, msg[..], 0, h, r.out);
      WrittenPrefix(m0, msg[..], h + r.out);
      return msg[..off], None;
    }
  }

  /** One section behind what has been written, `so` being the predicted length so far. */
  method NextSection(rrs: seq<RR>, msg: array<byte>, off: nat, comp: CompressionMap, compr: bool, ghost so: nat,
                     ghost before: seq<byte>, ghost out: seq<byte>) returns (off1: nat, err: Option<PackError>)
    requires off == HEADER_SIZE + |out| <= so && RRsLen(rrs, so, NoSeen).len < msg.Length
    requires Written(before, msg[..], HEADER_SIZE, out)
    modifies msg, comp
    ensures match PackRRs(rrs, off, msg.Length, old(comp.index), compr)
            case Failed(e) => err == Some(e)
            case Packed(o, y) =>
              && err.None? && off1 == off + |o| <= RRsLen(rrs, so, NoSeen).len && RRsLen(rrs, so, NoSeen).seen == NoSeen
              && comp.index == y && Written(before, msg[..], HEADER_SIZE, out + o)
  {
    hide PackRRs, RRsLen, Written, Roomy;
    ghost var m0, x0 := msg[..], comp.index;
    RoomFor(rrs, off, so, msg.Length, comp.index, compr);
    off1, err := PackSection(rrs, msg, off, comp, compr);
    if err.None? {
      WrittenThen(before, m0, msg[..], HEADER_SIZE, out, PackRRs(rrs, off, msg.Length, x0, compr).out);
    }
  }

  ghost function Onto(done: seq<RR>, r: UnpackedRRs): UnpackedRRs {
    match r
    case Records(rrs, next) => Records(done + rrs, next)
    case BadRecords => BadRecords
  }

  lemma OntoStep(done: seq<RR>, rr: RR, r: UnpackedRRs)
    ensures Onto(done, match r case Records(rrs, end) => Records([rr] + rrs, end) case BadRecords => BadRecords) ==
            Onto(done + [rr], r)
    ensures Onto([], r) == r
  {
    if r.Records? {
      assert done + ([rr] + r.rrs) == (done + [rr]) + r.rrs;
      assert [] + r.rrs == r.rrs;
    }
  }

  /** `unpackRRslice`. */
  method UnpackSlice(l: nat, msg: seq<byte>, off0: nat) returns (dst: seq<RR>, off: nat, ok: bool)
    ensures match UnpackRRs(l, msg, off0)
            case Records(rrs, next) => ok && dst == rrs && off == next
            case BadRecords => !ok && dst == [] && off == |msg|
  {
    hide UnpackRR;
    dst, off, ok := [], off0, true;
    OntoStep([], RR([], 0, 0, 0, []), UnpackRRs(l, msg, off0));
    for i := 0 to l
      invariant UnpackRRs(l, msg, off0) == Onto(dst, UnpackRRs(l - i, msg, off)) && ok
    {
      match UnpackRR(msg, off)
      case BadRecord => return [], |msg|, false;
      case Record(rr, next) =>
        if next == off {
          assert dst + [] == dst;
          return;
        }
        OntoStep(dst, rr, UnpackRRs(l - i - 1, msg, next));
        dst := dst + [rr];
        off := next;
    }
    assert dst + [] == dst;
  }

  /** The question loop of `unpack`. */
  method UnpackQuestionLoop(n: nat, msg: seq<byte>, off0: nat) returns (qs: seq<Question>, off: nat, ok: bool)
    ensures match UnpackQuestions(n, msg, off0)
            case Questions(r, next) => ok && qs == r && off == next
            case BadQuestions => !ok
  {
    hide UnpackQuestion;
    qs, off, ok := [], off0, true;
    ghost var all := UnpackQuestions(n, msg, off0);
    assert all.Questions? ==> [] + all.qs == all.qs;
    for i := 0 to n
      invariant var r := UnpackQuestions(n - i, msg, off);
                if r.BadQuestions? then all.BadQuestions? else all == Questions(qs + r.qs, r.next)
      invariant ok
    {
      match UnpackQuestion(msg, off)
      case BadQuestion => return [], off, false;
      case Asked(q, next) =>
        if next == off {
          assert qs + [] == qs;
          return;
        }
        ghost var r := UnpackQuestions(n - i - 1, msg, next);
        assert r.Questions? ==> qs + ([q] + r.qs) == (qs + [q]) + r.qs;
        qs := qs + [q];
        off := next;
    }
    assert qs + [] == qs;
  }

  /** Every running length is at most the whole. */
  lemma LengthsBelow(m: Msg)
    ensures var q := QuestionsLen(m.question, HEADER_SIZE, NoSeen);
            var a := RRsLen(m.answer, q.len, q.seen);
            var n := RRsLen(m.ns, a.len, a.seen);
            var e := RRsLen(m.extra, n.len, n.seen);
            q.len <= a.len <= n.len <= e.len == MsgLen(m, NoSeen)
  {
  }

  /** The sections one by one: the first failure, or all the octets in order. */
  lemma {:induction false} SectionsIs(m: Msg, cap: nat, x: Index, compress: bool)
    ensures var r := PackSections(m, HEADER_SIZE, cap, x, compress);
            var p1 := PackQuestions(m.question, HEADER_SIZE, cap, x, compress);
            if p1.Failed? then r == p1 else
            var o1 := HEADER_SIZE + |p1.out|;
            var p2 := PackRRs(m.answer, o1, cap, p1.index, compress);
            if p2.Failed? then r == p2 else
            var o2 := o1 + |p2.out|;
            var p3 := PackRRs(m.ns, o2, cap, p2.index, compress);
            if p3.Failed? then r == p3 else
            var o3 := o2 + |p3.out|;
            var p4 := PackRRs(m.extra, o3, cap, p3.index, compress);
            if p4.Failed? then r == p4 else r == Packed(p1.out + p2.out + p3.out + p4.out, p4.index)
  {
    hide PackQuestions, PackRRs;
    var p1 := PackQuestions(m.question, HEADER_SIZE, cap, x, compress);
    if p1.Packed? {
      var o1 := HEADER_SIZE + |p1.out|;
      var p2 := PackRRs(m.answer, o1, cap, p1.index, compress);
      if p2.Packed? {
        var o2 := o1 + |p2.out|;
        var p3 := PackRRs(m.ns, o2, cap, p2.index, compress);
        if p3.Packed? {
          var p4 := PackRRs(m.extra, o2 + |p3.out|, cap, p3.index, compress);
          if p4.Packed? {
            assert p1.out + p2.out + p3.out + p4.out == p1.out + (p2.out + (p3.out + p4.out));
          }
        }
      }
    }
  }

  lemma OptIndexBounds(extra: seq<RR>)
    ensures -1 <= OptIndex(extra) < |extra|
  {
  }

  lemma WrittenPrefix(before: seq<byte>, after: seq<byte>, out: seq<byte>)
    requires out != [] && Written(before, after, 0, out)
    ensures |out| <= |after| && after[..|out|] == out
  {
  }

  lemma OptLenIs(extra: seq<RR>)
    ensures OptLen(extra) == if OptOf(extra) == [] then 0 else RRLen(OptOf(extra)[0], 0, NoSeen).len
  {
  }

  /** The steps of `Truncate` put together. */
  lemma {:induction false} TruncatedIs(m: Msg, size: int, a: Kept, n: Kept, e: Kept)
    ensures IsTsig(m) ==> Truncated(m, size) == m
    ensures !IsTsig(m) && MsgLen(m, NoSeen) <= Limit(size) ==> Truncated(m, size) == m.(compress := false)
    ensures !IsTsig(m) && MsgLen(m, NoSeen) > Limit(size) ==>
              var budget := Limit(size) - OptLen(m.extra);
              var extra := WithoutOpt(m.extra);
              var q := QuestionsLen(m.question, HEADER_SIZE, Seen({}));
              (&& a == KeepSection(m.answer, budget, Kept(q.len, 0, q.seen))
               && n == KeepSection(m.ns, budget, a)
               && e == KeepSection(extra, budget, n)) ==>
                Truncated(m, size) ==
                m.(hdr := m.hdr.(truncated := m.hdr.truncated || |m.answer| > a.n || |m.ns| > n.n || |extra| > e.n),
                   compress := true,
                   answer := m.answer[..a.n], ns := m.ns[..n.n], extra := extra[..e.n] + OptOf(m.extra))
  {
    hide RRLen, QuestionsLen, MsgLen, KeepSection;
  }

  /** A section is only walked while there is room left. */
  method TruncateSection(rrs: seq<RR>, size: int, l0: nat, c: SuffixSet, ghost n0: nat) returns (l: nat, n: nat)
    modifies c
    ensures KeepSection(rrs, size, Kept(l0, n0, old(SeenIn(c)))) == Kept(l, n, SeenIn(c)) && n <= |rrs|
  {
    hide Keep;
    if l0 < size {
      var l1, n1 := TruncateLoop(rrs, size, l0, c);
      return l1, n1;
    }
    return l0, 0;
  }
}
