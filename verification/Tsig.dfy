/** Transaction signatures (RFC 8945): attaching a TSIG to a packed message and stripping it again. */
module Tsig {
  import opened Octets
  import opened Wrappers
  import opened NamePack
  import opened NameLength
  import opened CanonicalForm
  import opened Records
  import opened Message

  type uint48 = x: int | 0 <= x < 0x1_0000_0000_0000

  const RCODE_NOTAUTH := 9
  const RCODE_BADSIG := 16
  const RCODE_BADKEY := 17
  const CLASS_ANY: uint16 := 255
  const VARIABLES_SIZE := 4096

  function PutU48(v: uint48): (o: seq<byte>)
    ensures |o| == 6
  {
    PutU16(v / 0x1_0000_0000) + PutU32(v % 0x1_0000_0000)
  }

  function GetU48(o: seq<byte>): uint48
    requires |o| == 6
  {
    GetU16(o, 0) as int * 0x1_0000_0000 + GetU32(o, 2)
  }

  lemma U48RoundTrip(v: uint48)
    ensures GetU48(PutU48(v)) == v
  {
    var hi, lo := v / 0x1_0000_0000, v % 0x1_0000_0000;
    assert PutU48(v) == [] + PutU16(hi) + PutU32(lo) == PutU16(hi) + PutU32(lo) + [];
    U16RoundTrip(hi, [], PutU32(lo));
    U32RoundTrip(lo, PutU16(hi), []);
  }

  /** The TSIG record; the size fields that precede MAC and other data are their lengths. */
  datatype Signature = Signature(name: Text, class_: uint16, ttl: uint32, algorithm: Text, timeSigned: uint48,
                                 fudge: uint16, mac: seq<byte>, origId: uint16, error: uint16, other: seq<byte>)

  function ToRR(t: Signature): RR {
    RR(t.name, TYPE_TSIG, t.class_, t.ttl,
       [NameField(t.algorithm, false), Raw(PutU48(t.timeSigned)), Raw(PutU16(t.fudge)),
        Raw(PutU16(|t.mac| % 0x1_0000)), Raw(t.mac), Raw(PutU16(t.origId)), Raw(PutU16(t.error)),
        Raw(PutU16(|t.other| % 0x1_0000)), Raw(t.other)])
  }

  /** The octets of a raw field, or zeros when the record has no such field. */
  function RawAt(rr: RR, i: nat, n: nat): (o: seq<byte>)
    ensures |o| == n
  {
    if i < |rr.rdata| && rr.rdata[i].Raw? && |rr.rdata[i].data| == n then rr.rdata[i].data else seq(n, _ => 0)
  }

  function AnyAt(rr: RR, i: nat): seq<byte> {
    if i < |rr.rdata| && rr.rdata[i].Raw? then rr.rdata[i].data else []
  }

  function FromRR(rr: RR): Signature {
    Signature(rr.name, rr.class_, rr.ttl, if |rr.rdata| > 0 && rr.rdata[0].NameField? then rr.rdata[0].text else [],
              GetU48(RawAt(rr, 1, 6)), GetU16(RawAt(rr, 2, 2), 0), AnyAt(rr, 4),
              GetU16(RawAt(rr, 5, 2), 0), GetU16(RawAt(rr, 6, 2), 0), AnyAt(rr, 8))
  }

  // ----- what the MAC covers -----

  /** Signing time and fudge, defaulted when zero. */
  function WithDefaults(t: Signature, now: uint48): Signature {
    t.(timeSigned := if t.timeSigned == 0 then now else t.timeSigned, fudge := if t.fudge == 0 then 300 else t.fudge)
  }

  /** The TSIG variables of section 4.3.3 of RFC 8945, or the timers alone for later messages of a stream. */
  function VariableFields(t: Signature, timersOnly: bool): seq<Field> {
    if timersOnly then [Raw(PutU48(t.timeSigned)), Raw(PutU16(t.fudge))]
    else [NameField(CanonicalName(t.name), false), Raw(PutU16(CLASS_ANY)), Raw(PutU32(t.ttl)),
          NameField(CanonicalName(t.algorithm), false), Raw(PutU48(t.timeSigned)), Raw(PutU16(t.fudge)),
          Raw(PutU16(t.error)), Raw(PutU16(|t.other| % 0x1_0000)), Raw(t.other)]
  }

  /** The request MAC in wire form; the scratch buffer is too short for a MAC of one octet. */
  function MacPrefix(mac: seq<byte>): Option<seq<byte>> {
    if mac == [] then Some([])
    else if |mac| < 2 then None
    else Some(PutU16(|mac| % 0x1_0000) + mac)
  }

  function SetId(msg: seq<byte>, id: uint16): (r: seq<byte>)
    requires |msg| >= HEADER_SIZE
    ensures |r| == |msg|
  {
    PutU16(id) + msg[2..]
  }

  function SetArcount(msg: seq<byte>, n: uint16): (r: seq<byte>)
    requires |msg| >= HEADER_SIZE
    ensures |r| == |msg|
  {
    msg[..10] + PutU16(n) + msg[12..]
  }

  /** `tsigBuffer`: request MAC, message under its original ID, TSIG variables. */
  function TsigBuffer(msg: seq<byte>, t: Signature, requestMac: seq<byte>, timersOnly: bool): Option<seq<byte>>
    requires |msg| >= HEADER_SIZE
  {
    match (MacPrefix(requestMac), PackFields(VariableFields(t, timersOnly), 0, VARIABLES_SIZE, NoIndex, false))
    case (Some(p), Packed(v, _)) => Some(p + SetId(msg, t.origId) + v)
    case _ => None
  }

  // ----- signing -----

  /** A MAC provider: key name, algorithm and octets to a MAC, or nothing when it refuses. */
  type Provider = (Text, Text, seq<byte>) -> Option<seq<byte>>

  datatype Signed = Signed(octets: seq<byte>, mac: seq<byte>) | NotSigned

  /** The record that is sent: MAC and time are left out when the error says the key or MAC was bad. */
  function Filled(t: Signature, buf: seq<byte>, provider: Provider): Option<Signature> {
    if t.error == RCODE_BADKEY || t.error == RCODE_BADSIG then Some(t.(mac := [], timeSigned := 0))
    else match provider(t.name, t.algorithm, buf)
      case None => None
      case Some(mac) => Some(t.(mac := mac))
  }

  /** `TsigGenerateWithProvider` on message `m`, from which the stub record `t` has been taken off. */
  function Generate(m: Msg, t: Signature, provider: Provider, requestMac: seq<byte>, timersOnly: bool,
                    now: uint48): Signed {
    match PackMsg(m, 0)
    case Refused(_) => NotSigned
    case Sent(mbuf) =>
      var d := WithDefaults(t, now);
      match TsigBuffer(mbuf, d, requestMac, timersOnly)
      case None => NotSigned
      case Some(buf) =>
        match Filled(d, buf, provider)
        case None => NotSigned
        case Some(s) =>
          match PackRR(ToRR(s), 0, RRLen(ToRR(s), 0, NoSeen).len, NoIndex, false)
          case Failed(_) => NotSigned
          case Packed(tbuf, _) => Signed(SetArcount(SetId(mbuf, d.origId), (|m.extra| + 1) % 0x1_0000) + tbuf, s.mac)
  }

  // ----- stripping and verifying -----

  datatype TsigError = ErrNoSig | ErrAuth | ErrTime | ErrSig | ErrMessage

  datatype Strip = Stripped(octets: seq<byte>, t: Signature) | StripFailed(error: TsigError)

  function SkipQuestions(n: nat, msg: seq<byte>, off: nat): Option<nat> {
    if n == 0 then Some(off)
    else match UnpackQuestion(msg, off)
      case BadQuestion => None
      case Asked(_, next) => SkipQuestions(n - 1, msg, next)
  }

  datatype Search = FoundAt(off: nat, rr: RR) | NoneFound(last: nat) | SearchFailed

  /** The first TSIG among `n` records; without one, the offset of the last record read. */
  function FindTsig(n: nat, msg: seq<byte>, off: nat, last: nat): Search {
    if n == 0 then NoneFound(last)
    else match UnpackRR(msg, off)
      case BadRecord => SearchFailed
      case Record(rr, next) => if rr.rrtype == TYPE_TSIG then FoundAt(off, rr) else FindTsig(n - 1, msg, next, off)
  }

  /**
   * `stripTsig`. A message with additional records but no TSIG is cut at its last record and
   * paired with an empty signature: the "not found" test can never fire.
   */
  function StripTsig(msg: seq<byte>): Strip {
    if |msg| < HEADER_SIZE then StripFailed(ErrMessage)
    else
      var ar := GetU16(msg, 10);
      if ar == 0 then StripFailed(ErrNoSig)
      else if GetU16(msg, 2) % 16 == RCODE_NOTAUTH then StripFailed(ErrAuth)
      else match SkipQuestions(GetU16(msg, 4), msg, HEADER_SIZE)
        case None => StripFailed(ErrMessage)
        case Some(p) =>
          match UnpackRRs(GetU16(msg, 6), msg, p)
          case BadRecords => StripFailed(ErrMessage)
          case Records(_, p') =>
            match UnpackRRs(GetU16(msg, 8), msg, p')
            case BadRecords => StripFailed(ErrMessage)
            case Records(_, p'') =>
              match FindTsig(ar, msg, p'', 0)
              case SearchFailed => StripFailed(ErrMessage)
              case NoneFound(last) => Stripped(if last <= |msg| then msg[..last] else msg, NoSignature)
              case FoundAt(off, rr) =>
                Stripped(if off <= |msg| then SetArcount(msg, ar - 1)[..off] else msg, FromRR(rr))
  }

  const NoSignature := Signature([], 0, 0, [], 0, 0, [], 0, 0, [])

  datatype Verified = Valid | Invalid(error: TsigError)

  function Distance(a: int, b: int): nat {
    if a < b then b - a else a - b
  }

  /** `tsigVerify`. */
  function Verify(msg: seq<byte>, provider: Provider, requestMac: seq<byte>, timersOnly: bool, now: uint48): Verified {
    match StripTsig(msg)
    case StripFailed(e) => Invalid(e)
    case Stripped(octets, t) =>
      if |octets| < HEADER_SIZE then Invalid(ErrMessage)
      else
        var d := WithDefaults(t, now);
        match TsigBuffer(octets, d, requestMac, timersOnly)
        case None => Invalid(ErrMessage)
        case Some(buf) =>
          if provider(d.name, d.algorithm, buf) != Some(d.mac) then Invalid(ErrSig)
          else if Distance(now, d.timeSigned) > d.fudge then Invalid(ErrTime)
          else Valid
  }
}
