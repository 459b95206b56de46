/** The TSIG routines on a shared buffer: ID and ARCOUNT are overwritten in place. */
module TsigCodec {
  import opened Octets
  import opened Wrappers
  import opened Presentation
  import opened NamePack
  import opened Records
  import opened Message
  import opened MessageObject
  import opened Tsig

  // ----- offsets stay inside the buffer -----

  lemma {:induction false} RRWithin(msg: seq<byte>, off: nat)
    requires off <= |msg| && UnpackRR(msg, off).Record?
    ensures UnpackRR(msg, off).next <= |msg|
  {
    hide UnpackFields, Layout, Zeros, NameText;
  }

  lemma {:induction false} RRsWithin(n: nat, msg: seq<byte>, off: nat)
    requires off <= |msg| && UnpackRRs(n, msg, off).Records?
    ensures UnpackRRs(n, msg, off).next <= |msg|
    decreases n
  {
    hide UnpackRR;
    if n > 0 {
      RRWithin(msg, off);
      if UnpackRR(msg, off).next != off {
        RRsWithin(n - 1, msg, UnpackRR(msg, off).next);
      }
    }
  }

  lemma QuestionWithin(msg: seq<byte>, off: nat)
    requires UnpackQuestion(msg, off).Asked?
    ensures UnpackQuestion(msg, off).next <= |msg|
  {
    hide NameText, GetU16;
  }

  // ----- in place -----

  method WriteU16(msg: array<byte>, at: nat, v: uint16)
    requires at + 2 <= msg.Length
    modifies msg
    ensures msg[..] == old(msg[..at]) + PutU16(v) + old(msg[at + 2..])
  {
    msg[at], msg[at + 1] := v / 256, v % 256;
  }

  /** `stripTsig`: the offset walks over all records; ARCOUNT is decremented where the message lies. */
  method StripInPlace(msg: array<byte>) returns (end: nat, t: Signature, err: Option<TsigError>)
    modifies msg
    ensures match StripTsig(old(msg[..]))
            case Stripped(octets, s) => err.None? && t == s && end <= msg.Length && msg[..end] == octets
            case StripFailed(e) => err == Some(e)
  {
    hide SkipQuestions, UnpackRRs, FindTsig, UnpackRR, FromRR, GetU16, SetArcount;
    end, t, err := 0, NoSignature, None;
    if msg.Length < HEADER_SIZE {
      return 0, NoSignature, Some(ErrMessage);
    }
    var octets := msg[..];
    var arcount := GetU16(octets, 10);
    if arcount == 0 {
      return 0, NoSignature, Some(ErrNoSig);
    }
    if GetU16(octets, 2) % 16 == RCODE_NOTAUTH {
      return 0, NoSignature, Some(ErrAuth);
    }
    var off, ok := WalkQuestions(octets);
    if !ok {
      return 0, NoSignature, Some(ErrMessage);
    }
    var rrs;
    ghost var p := off;
    rrs, off, ok := UnpackSlice(GetU16(octets, 6), octets, off);
    if !ok {
      return 0, NoSignature, Some(ErrMessage);
    }
    RRsWithin(GetU16(octets, 6), octets, p);
    p := off;
    rrs, off, ok := UnpackSlice(GetU16(octets, 8), octets, off);
    if !ok {
      return 0, NoSignature, Some(ErrMessage);
    }
    RRsWithin(GetU16(octets, 8), octets, p);
    var found, rr;
    end, rr, found, ok := WalkExtra(octets, arcount, off);
    if !ok {
      return 0, NoSignature, Some(ErrMessage);
    }
    if found {
      t := FromRR(rr);
      WriteU16(msg, 10, arcount - 1);
      SetArcountIsWrite(octets, arcount - 1);
    }
  }

  lemma SetArcountIsWrite(msg: seq<byte>, n: uint16)
    requires |msg| >= HEADER_SIZE
    ensures SetArcount(msg, n) == msg[..10] + PutU16(n) + msg[12..]
  {
  }

  method WalkQuestions(msg: seq<byte>) returns (off: nat, ok: bool)
    requires |msg| >= HEADER_SIZE
    ensures match SkipQuestions(GetU16(msg, 4), msg, HEADER_SIZE)
            case Some(p) => ok && off == p && p <= |msg|
            case None => !ok
  {
    hide UnpackQuestion;
    off, ok := HEADER_SIZE, true;
    var n := GetU16(msg, 4);
    for i := 0 to n
      invariant off <= |msg| && ok
      invariant SkipQuestions(n, msg, HEADER_SIZE) == SkipQuestions(n - i, msg, off)
    {
      match UnpackQuestion(msg, off)
      case BadQuestion => return off, false;
      case Asked(_, next) =>
        QuestionWithin(msg, off);
        off := next;
    }
  }

  method WalkExtra(msg: seq<byte>, n: nat, off0: nat) returns (tsigoff: nat, rr: RR, found: bool, ok: bool)
    requires off0 <= |msg|
    ensures match FindTsig(n, msg, off0, 0)
            case SearchFailed => !ok
            case NoneFound(last) => ok && !found && tsigoff == last && last <= |msg|
            case FoundAt(off, r) => ok && found && tsigoff == off && rr == r && off <= |msg|
  {
    hide UnpackRR;
    tsigoff, rr, found, ok := 0, RR([], 0, 0, 0, []), false, true;
    var off: nat := off0;
    for i := 0 to n
      invariant off <= |msg| && tsigoff <= |msg| && ok && !found
      invariant FindTsig(n, msg, off0, 0) == FindTsig(n - i, msg, off, tsigoff)
    {
      match UnpackRR(msg, off)
      case BadRecord => return 0, rr, false, false;
      case Record(r, next) =>
        tsigoff := off;
        if r.rrtype == TYPE_TSIG {
          return off, r, true, true;
        }
        RRWithin(msg, off);
        off := next;
    }
  }

  /** `tsigBuffer`: the message in the caller's buffer is left under the original ID. */
  method BufferInPlace(msg: array<byte>, t: Signature, requestMac: seq<byte>, timersOnly: bool)
    returns (buf: seq<byte>, ok: bool)
    requires msg.Length >= HEADER_SIZE
    modifies msg
    ensures msg[..] == SetId(old(msg[..]), t.origId)
    ensures match TsigBuffer(old(msg[..]), t, requestMac, timersOnly)
            case Some(b) => ok && buf == b
            case None => !ok
  {
    hide PackFields, VariableFields;
    WriteU16(msg, 0, t.origId);
    assert msg[..] == SetId(old(msg[..]), t.origId);
    var prefix: seq<byte> := [];
    if requestMac != [] {
      // The scratch buffer has one octet per hex digit of the MAC.
      if 2 + |requestMac| > 2 * |requestMac| {
        return [], false;
      }
      prefix := PutU16(|requestMac| % 0x1_0000) + requestMac;
    }
    match PackFields(VariableFields(t, timersOnly), 0, VARIABLES_SIZE, NoIndex, false)
    case Failed(_) => return [], false;
    case Packed(v, _) => return prefix + msg[..] + v, true;
  }
}
