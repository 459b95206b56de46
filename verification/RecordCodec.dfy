/** Writing records into a buffer, the rdata length being patched in afterwards; reading sections in loops. */
module RecordCodec {
  import opened Octets
  import opened Wrappers
  import opened Presentation
  import opened Qualified
  import opened NamePack
  import opened NameLength
  import opened Records
  import opened Message

  /** A packing call delivered `result`: octets in the buffer and entries in the map, or an error. */
  ghost predicate Delivered(result: Packed, before: seq<byte>, after: seq<byte>, off0: nat, off1: nat,
                            err: Option<PackError>, x: Index) {
    match result
    case Packed(out, y) => err.None? && off1 == off0 + |out| && x == y && Written(before, after, off0, out)
    case Failed(e) => err == Some(e)
  }

  method WriteRaw(msg: array<byte>, off: nat, d: seq<byte>) returns (ok: bool)
    modifies msg
    ensures ok <==> off + |d| <= msg.Length
    ensures ok ==> Written(old(msg[..]), msg[..], off, d)
    ensures !ok ==> msg[..] == old(msg[..])
  {
    if off + |d| > msg.Length {
      return false;
    }
    forall j | 0 <= j < |d| {
      msg[off + j] := d[j];
    }
    if d == [] {
      assert msg[..] == old(msg[..]);
    }
    return true;
  }

  method PackOneField(f: Field, msg: array<byte>, off0: nat, comp: CompressionMap, compress: bool)
    returns (off1: nat, err: Option<PackError>)
    modifies msg, comp
    ensures Delivered(PackField(f, off0, msg.Length, old(comp.index), compress), old(msg[..]), msg[..], off0, off1,
            err, comp.index)
  {
    match f
    case Raw(d) =>
      var ok := WriteRaw(msg, off0, d);
      if !ok {
        return msg.Length, Some(ErrBuf);
      }
      return off0 + |d|, None;
    case NameField(t, c) =>
      off1, err := PackDomainName(t, msg, off0, comp, compress && c);
  }

  /** The fields of a record, one after the other. */
  method PackRdata(fs: seq<Field>, msg: array<byte>, off0: nat, comp: CompressionMap, compress: bool)
    returns (off1: nat, err: Option<PackError>)
    modifies msg, comp
    ensures Delivered(PackFields(fs, off0, msg.Length, old(comp.index), compress), old(msg[..]), msg[..], off0, off1,
            err, comp.index)
  {
    hide PackField, Written;
    off1, err := off0, None;
    ghost var before, cap := msg[..], msg.Length;
    ghost var result := PackFields(fs, off0, cap, comp.index, compress);
    ghost var out: seq<byte> := [];
    WrittenNothing(before, off0);
    PrependPrepend([], [], result);
    assert fs[0..] == fs;
    for i := 0 to |fs|
      invariant off1 == off0 + |out| && err.None? && Written(before, msg[..], off0, out)
      invariant result == Prepend(out, PackFields(fs[i..], off1, cap, comp.index, compress))
    {
      ghost var m0, x0 := msg[..], comp.index;
      assert fs[i..][0] == fs[i] && fs[i..][1..] == fs[i + 1..];
      ghost var r := PackField(fs[i], off1, cap, x0, compress);
      var o, e := PackOneField(fs[i], msg, off1, comp, compress);
      if e.Some? {
        return msg.Length, e;
      }
      FieldDone(result, out, r.out, PackFields(fs[i + 1..], off1 + |r.out|, cap, r.index, compress), before, m0,
          msg[..], off0);
      out := out + r.out;
      off1 := o;
    }
    assert fs[|fs|..] == [] && out + [] == out;
  }

  lemma FieldDone(result: Packed, out: seq<byte>, d: seq<byte>, rest: Packed, before: seq<byte>, m0: seq<byte>,
                  m1: seq<byte>, off0: nat)
    requires result == Prepend(out, Prepend(d, rest))
    requires Written(before, m0, off0, out) && Written(m0, m1, off0 + |out|, d)
    ensures result == Prepend(out + d, rest) && Written(before, m1, off0, out + d)
  {
    PrependPrepend(out, d, rest);
    WrittenThen(before, m0, m1, off0, out, d);
  }

  /** Patching the length behind the fixed header gives the header with that length. */
  lemma {:induction false} PatchedHeader(before: seq<byte>, m: seq<byte>, off0: nat, o: seq<byte>, rr: RR, d: seq<byte>,
                                         m': seq<byte>)
    requires |d| <= 0xFFFF
    requires Written(before, m, off0, o + FixedHeader(rr.rrtype, rr.class_, rr.ttl, 0) + d)
    requires var p := off0 + |o| + 8;
             && |m'| == |m| && p + 2 <= |m| && m'[p] == |d| / 256 && m'[p + 1] == |d| % 256
             && forall j :: 0 <= j < |m| && j != p && j != p + 1 ==> m'[j] == m[j]
    ensures Written(before, m', off0, o + FixedHeader(rr.rrtype, rr.class_, rr.ttl, |d|) + d)
  {
    var out0 := o + FixedHeader(rr.rrtype, rr.class_, rr.ttl, 0) + d;
    var out1 := o + FixedHeader(rr.rrtype, rr.class_, rr.ttl, |d|) + d;
    assert forall j :: 0 <= j < |out1| && j != |o| + 8 && j != |o| + 9 ==> out1[j] == out0[j];
    assert out1[|o| + 8] == |d| / 256 && out1[|o| + 9] == |d| % 256;
    assert m' == before[..off0] + out1 + before[off0 + |out1|..];
  }

  /**
   * `packHeader`: owner name and fixed header, the length still zero. A full buffer is left alone, and
   * that is no error.
   */
  method PackHeader(rr: RR, msg: array<byte>, off0: nat, comp: CompressionMap, compress: bool)
    returns (headerEnd: nat, err: Option<PackError>)
    modifies msg, comp
    ensures off0 == msg.Length ==>
            err.None? && headerEnd == off0 && msg[..] == old(msg[..]) && comp.index == old(comp.index)
    ensures off0 != msg.Length ==>
            match PackName(rr.name, off0, msg.Length, old(comp.index), compress)
            case Failed(e) => err == Some(e)
            case Packed(o, y) =>
              if off0 + |o| + 10 > msg.Length then err == Some(ErrBuf)
              else
                && err.None? && headerEnd == off0 + |o| + 10 && comp.index == y
                && Written(old(msg[..]), msg[..], off0, o + FixedHeader(rr.rrtype, rr.class_, rr.ttl, 0))
  {
    hide PackName, Written, FixedHeader;
    if off0 == msg.Length {
      return off0, None;
    }
    ghost var before := msg[..];
    ghost var p := PackName(rr.name, off0, msg.Length, comp.index, compress);
    var h, e := PackDomainName(rr.name, msg, off0, comp, compress);
    if e.Some? {
      return msg.Length, e;
    }
    ghost var m1 := msg[..];
    var fixed := FixedHeader(rr.rrtype, rr.class_, rr.ttl, 0);
    var ok := WriteRaw(msg, h, fixed);
    if !ok {
      return msg.Length, Some(ErrBuf);
    }
    WrittenThen(before, m1, msg[..], off0, p.out, fixed);
    return h + 10, None;
  }

  /**
   * `packRR`: the header goes out with length zero, the rdata behind it, and the length is patched
   * in. On a full buffer a record without rdata is reported as packed although no header went out,
   * and the two octets before the end are overwritten; with fewer than two the source has no defined
   * result.
   */
  method PackRecord(rr: RR, msg: array<byte>, off0: nat, comp: CompressionMap, compress: bool)
    returns (headerEnd: nat, off1: nat, err: Option<PackError>)
    requires off0 == msg.Length < 2 ==> PackFields(rr.rdata, off0, msg.Length, comp.index, compress).Failed?
    modifies msg, comp
    ensures off0 != msg.Length ==>
              Delivered(PackRR(rr, off0, msg.Length, old(comp.index), compress), old(msg[..]), msg[..], off0, off1,
                  err, comp.index)
    ensures off0 == msg.Length ==>
              match PackFields(rr.rdata, off0, msg.Length, old(comp.index), compress)
              case Failed(e) => err == Some(e)
              case Packed(o, y) =>
                && o == [] && err.None? && off1 == off0 && comp.index == y
                && msg[..] == old(msg[..off0 - 2]) + [0, 0]
    ensures err.None? ==> headerEnd <= off1
  {
    hide PackRR, PackFields, Written;
    if off0 == msg.Length {
      headerEnd, off1, err := PackRecordAtEnd(rr, msg, off0, comp, compress);
    } else {
      headerEnd, off1, err := PackRecordInside(rr, msg, off0, comp, compress);
    }
  }

  method PackRecordInside(rr: RR, msg: array<byte>, off0: nat, comp: CompressionMap, compress: bool)
    returns (headerEnd: nat, off1: nat, err: Option<PackError>)
    requires off0 != msg.Length
    modifies msg, comp
    ensures Delivered(PackRR(rr, off0, msg.Length, old(comp.index), compress), old(msg[..]), msg[..], off0, off1, err,
            comp.index)
    ensures err.None? ==> headerEnd <= off1
  {
    hide PackName, PackFields, Written, FixedHeader;
    ghost var before := msg[..];
    ghost var p := PackName(rr.name, off0, msg.Length, comp.index, compress);
    ghost var fixed := FixedHeader(rr.rrtype, rr.class_, rr.ttl, 0);
    headerEnd, err := PackHeader(rr, msg, off0, comp, compress);
    if err.Some? {
      return headerEnd, msg.Length, err;
    }
    ghost var m2, x1 := msg[..], comp.index;
    ghost var q := PackFields(rr.rdata, headerEnd, msg.Length, x1, compress);
    off1, err := PackRdata(rr.rdata, msg, headerEnd, comp, compress);
    if err.Some? {
      return headerEnd, msg.Length, err;
    }
    WrittenThen(before, m2, msg[..], off0, p.out + fixed, q.out);
    var rdlength := off1 - headerEnd;
    if rdlength > 0xFFFF {
      return headerEnd, msg.Length, Some(ErrRdata);
    }
    ghost var m3 := msg[..];
    msg[headerEnd - 2], msg[headerEnd - 1] := rdlength / 256, rdlength % 256;
    PatchedHeader(before, m3, off0, p.out, rr, q.out, msg[..]);
  }

  method PackRecordAtEnd(rr: RR, msg: array<byte>, off0: nat, comp: CompressionMap, compress: bool)
    returns (headerEnd: nat, off1: nat, err: Option<PackError>)
    requires off0 == msg.Length
    requires off0 < 2 ==> PackFields(rr.rdata, off0, msg.Length, comp.index, compress).Failed?
    modifies msg, comp
    ensures match PackFields(rr.rdata, off0, msg.Length, old(comp.index), compress)
            case Failed(e) => err == Some(e)
            case Packed(o, y) =>
              && o == [] && err.None? && off1 == off0 && comp.index == y
              && msg[..] == old(msg[..off0 - 2]) + [0, 0]
    ensures err.None? ==> headerEnd == off1
  {
    hide PackFields;
    headerEnd, err := PackHeader(rr, msg, off0, comp, compress);
    ghost var m0 := msg[..];
    off1, err := PackRdata(rr.rdata, msg, headerEnd, comp, compress);
    if err.Some? {
      return headerEnd, msg.Length, err;
    }
    assert msg[..] == m0;
    msg[headerEnd - 2], msg[headerEnd - 1] := 0, 0;
    assert msg[..] == m0[..off0 - 2] + [0, 0];
  }

  // ----- there is always room for one octet more -----

  /** No packing starts at the very end of the buffer. */
  ghost predicate Roomy(rrs: seq<RR>, off: nat, cap: nat, x: Index, compress: bool) {
    rrs == [] ||
    (off < cap && match PackRR(rrs[0], off, cap, x, compress)
                  case Packed(o, y) => Roomy(rrs[1..], off + |o|, cap, y, compress)
                  case Failed(_) => true)
  }

  /** Whatever the text, labels never take more than their uncompressed length. */
  lemma {:induction false} LabelsAtMost(t: Text, po: nat, cap: nat, x: Index, compress: bool)
    requires PackLabels(t, po, cap, x, compress).Packed?
    ensures |PackLabels(t, po, cap, x, compress).out| <= EscapedLen(t) + 1
    decreases |t|
  {
    hide FirstDot, FirstLabel, PackLabels, EscapedLen, HasEscape;
    if FirstDot(t) == |t| {
      PackUnclosed(t, po, cap, x, compress);
    } else {
      PackLabelsUnfold(t, po, cap, x, compress);
      EscapedLenAfterDot(t);
      if !(compress && x.Index? && t in x.at) {
        LabelsAtMost(AfterDot(t), po + 1 + |FirstLabel(t)|, cap, Note(x, t, po), compress);
      }
    }
  }

  lemma {:induction false} NameAtMost(s: Text, po: nat, so: nat, cap: nat, x: Index, compress: bool, c: bool)
    requires PackName(s, po, cap, x, compress).Packed?
    ensures |PackName(s, po, cap, x, compress).out| <= NameLen(s, so, NoSeen, c).len
    ensures NameLen(s, so, NoSeen, c).seen == NoSeen
  {
    hide PackLabels, EscapedLen, IsFqdn;
    if s != [] && s != [DOT] {
      LabelsAtMost(s, po, cap, x, compress);
    }
  }

  lemma {:induction false} FieldsAtMost(fs: seq<Field>, po: nat, so: nat, cap: nat, x: Index, compress: bool)
    requires PackFields(fs, po, cap, x, compress).Packed?
    ensures |PackFields(fs, po, cap, x, compress).out| <= FieldsLen(fs, so, NoSeen).len
    ensures FieldsLen(fs, so, NoSeen).seen == NoSeen
    decreases |fs|
  {
    hide PackName, NameLen;
    if fs != [] {
      match fs[0]
      case Raw(d) => FieldsAtMost(fs[1..], po + |d|, so + |d|, cap, x, compress);
      case NameField(t, c) =>
        var p := PackName(t, po, cap, x, compress && c);
        NameAtMost(t, po, so, cap, x, compress && c, c);
        FieldsAtMost(fs[1..], po + |p.out|, so + NameLen(t, so, NoSeen, c).len, cap, p.index, compress);
    }
  }

  lemma {:induction false} RRAtMost(rr: RR, po: nat, so: nat, cap: nat, x: Index, compress: bool)
    requires PackRR(rr, po, cap, x, compress).Packed?
    ensures |PackRR(rr, po, cap, x, compress).out| <= RRLen(rr, so, NoSeen).len
    ensures RRLen(rr, so, NoSeen).seen == NoSeen
  {
    hide PackName, NameLen, PackFields, FieldsLen;
    var p := PackName(rr.name, po, cap, x, compress);
    var q := NameLen(rr.name, so, NoSeen, true);
    NameAtMost(rr.name, po, so, cap, x, compress, true);
    FieldsAtMost(rr.rdata, po + |p.out| + 10, so + q.len + 10, cap, p.index, compress);
  }

  /** A buffer longer than the uncompressed prediction has room before every record. */
  lemma {:induction false} RoomFor(rrs: seq<RR>, po: nat, so: nat, cap: nat, x: Index, compress: bool)
    requires po <= so && RRsLen(rrs, so, NoSeen).len < cap
    ensures Roomy(rrs, po, cap, x, compress)
    ensures var r := PackRRs(rrs, po, cap, x, compress);
            r.Packed? ==> po + |r.out| <= RRsLen(rrs, so, NoSeen).len && RRsLen(rrs, so, NoSeen).seen == NoSeen
    decreases |rrs|
  {
    hide PackRR, RRLen;
    if rrs != [] {
      var p := PackRR(rrs[0], po, cap, x, compress);
      if p.Packed? {
        RRAtMost(rrs[0], po, so, cap, x, compress);
        RoomFor(rrs[1..], po + |p.out|, so + RRLen(rrs[0], so, NoSeen).len, cap, p.index, compress);
      }
    }
  }

  lemma {:induction false} QuestionsAtMost(qs: seq<Question>, po: nat, so: nat, cap: nat, x: Index, compress: bool)
    requires po <= so && PackQuestions(qs, po, cap, x, compress).Packed?
    ensures po + |PackQuestions(qs, po, cap, x, compress).out| <= QuestionsLen(qs, so, NoSeen).len
    ensures QuestionsLen(qs, so, NoSeen).seen == NoSeen
    decreases |qs|
  {
    hide PackName, NameLen;
    if qs != [] {
      var p := PackName(qs[0].name, po, cap, x, compress);
      var n := NameLen(qs[0].name, so, NoSeen, true).len;
      NameAtMost(qs[0].name, po, so, cap, x, compress, true);
      QuestionsAtMost(qs[1..], po + |p.out| + 4, so + n + 4, cap, p.index, compress);
    }
  }

  /** The records of a section. */
  method PackSection(rrs: seq<RR>, msg: array<byte>, off0: nat, comp: CompressionMap, compress: bool)
    returns (off1: nat, err: Option<PackError>)
    requires Roomy(rrs, off0, msg.Length, comp.index, compress)
    modifies msg, comp
    ensures Delivered(PackRRs(rrs, off0, msg.Length, old(comp.index), compress), old(msg[..]), msg[..], off0, off1,
            err, comp.index)
  {
    hide PackRR, Written;
    off1, err := off0, None;
    ghost var before, cap := msg[..], msg.Length;
    ghost var result := PackRRs(rrs, off0, cap, comp.index, compress);
    ghost var out: seq<byte> := [];
    WrittenNothing(before, off0);
    PrependPrepend([], [], result);
    assert rrs[0..] == rrs;
    for i := 0 to |rrs|
      invariant off1 == off0 + |out| && err.None? && Written(before, msg[..], off0, out)
      invariant Roomy(rrs[i..], off1, cap, comp.index, compress)
      invariant result == Prepend(out, PackRRs(rrs[i..], off1, cap, comp.index, compress))
    {
      ghost var m0, x0 := msg[..], comp.index;
      assert rrs[i..][0] == rrs[i] && rrs[i..][1..] == rrs[i + 1..];
      ghost var r := PackRR(rrs[i], off1, cap, x0, compress);
      var h, o, e := PackRecord(rrs[i], msg, off1, comp, compress);
      if e.Some? {
        return msg.Length, e;
      }
      FieldDone(result, out, r.out, PackRRs(rrs[i + 1..], off1 + |r.out|, cap, r.index, compress), before, m0, msg[..],
          off0);
      out := out + r.out;
      off1 := o;
    }
    assert rrs[|rrs|..] == [] && out + [] == out;
  }

  method PackOneQuestion(q: Question, msg: array<byte>, off0: nat, comp: CompressionMap, compress: bool)
    returns (off1: nat, err: Option<PackError>)
    modifies msg, comp
    ensures Delivered(PackQuestion(q, off0, msg.Length, old(comp.index), compress), old(msg[..]), msg[..], off0, off1,
            err, comp.index)
  {
    hide PackName, Written;
    ghost var m0, p := msg[..], PackName(q.name, off0, msg.Length, comp.index, compress);
    off1, err := PackDomainName(q.name, msg, off0, comp, compress);
    if err.Some? {
      return msg.Length, err;
    }
    ghost var m1 := msg[..];
    var tail := PutU16(q.qtype) + PutU16(q.qclass);
    var ok := WriteRaw(msg, off1, tail);
    if !ok {
      return msg.Length, Some(ErrBuf);
    }
    WrittenThen(m0, m1, msg[..], off0, p.out, tail);
    off1 := off1 + 4;
  }

  /** The questions of a message. */
  method PackQuestionSection(qs: seq<Question>, msg: array<byte>, off0: nat, comp: CompressionMap, compress: bool)
    returns (off1: nat, err: Option<PackError>)
    modifies msg, comp
    ensures Delivered(PackQuestions(qs, off0, msg.Length, old(comp.index), compress), old(msg[..]), msg[..], off0,
            off1, err, comp.index)
  {
    hide PackQuestion, Written;
    off1, err := off0, None;
    ghost var before, cap := msg[..], msg.Length;
    ghost var result := PackQuestions(qs, off0, cap, comp.index, compress);
    ghost var out: seq<byte> := [];
    WrittenNothing(before, off0);
    PrependPrepend([], [], result);
    assert qs[0..] == qs;
    for i := 0 to |qs|
      invariant off1 == off0 + |out| && err.None? && Written(before, msg[..], off0, out)
      invariant result == Prepend(out, PackQuestions(qs[i..], off1, cap, comp.index, compress))
    {
      ghost var m0, x0 := msg[..], comp.index;
      assert qs[i..][0] == qs[i] && qs[i..][1..] == qs[i + 1..];
      ghost var r := PackQuestion(qs[i], off1, cap, x0, compress);
      var o, e := PackOneQuestion(qs[i], msg, off1, comp, compress);
      if e.Some? {
        return msg.Length, e;
      }
      FieldDone(result, out, r.out, PackQuestions(qs[i + 1..], off1 + |r.out|, cap, r.index, compress), before, m0,
          msg[..], off0);
      out := out + r.out;
      off1 := o;
    }
    assert qs[|qs|..] == [] && out + [] == out;
  }
}
