/** What the server looks at before it decodes a request: the flag word and the four section counts. */
module Acceptance {
  import opened Octets
  import opened Records
  import opened Message
  import opened MessageRoundTrip
  import opened Compression
  import opened Tsig
  import opened TsigRoundTrip

  const OPCODE_QUERY := 0
  const OPCODE_NOTIFY := 4

  datatype Action = Accept | Reject | Ignore | RejectNotImplemented

  /** `defaultMsgAcceptFunc`. */
  function DefaultAction(bits: uint16, qd: uint16, an: uint16, ns: uint16, ar: uint16): Action {
    var opcode := bits / 0x800 % 16;
    if IsSet(bits, 0x8000) then Ignore
    else if opcode != OPCODE_QUERY && opcode != OPCODE_NOTIFY then RejectNotImplemented
    else if qd != 1 then Reject
    else if an > 1 then Reject
    else if ns > 1 then Reject
    else if ar > 2 then Reject
    else Accept
  }

  /** The decision on a message that is still packed. */
  function ActionOn(octets: seq<byte>): Action
    requires |octets| >= HEADER_SIZE
  {
    DefaultAction(GetU16(octets, 2), GetU16(octets, 4), GetU16(octets, 6), GetU16(octets, 8), GetU16(octets, 10))
  }

  /** Messages for the handler: queries and notifications with one question and few records. */
  predicate Acceptable(m: Msg) {
    && !m.hdr.response && (m.hdr.opcode == OPCODE_QUERY || m.hdr.opcode == OPCODE_NOTIFY)
    && |m.question| == 1 && |m.answer| <= 1 && |m.ns| <= 1 && |m.extra| <= 2
  }

  /** The header in front of a body decides as the fields it was made from do. */
  lemma {:induction false} HeaderDecides(h: MsgHdr, qd: uint16, an: uint16, ns: uint16, ar: uint16, body: seq<byte>)
    requires 0 <= h.opcode < 16
    ensures ActionOn(HeaderOctets(h, qd, an, ns, ar) + body) ==
            if h.response then Ignore
            else if h.opcode != OPCODE_QUERY && h.opcode != OPCODE_NOTIFY then RejectNotImplemented
            else if qd == 1 && an <= 1 && ns <= 1 && ar <= 2 then Accept else Reject
  {
    hide HeaderOctets, GetU16, Bits, IsSet;
    HeaderReads(h, qd, an, ns, ar, body);
    BitsRoundTrip(h);
  }

  /** A packed message is handed on exactly when the message itself is acceptable. */
  lemma {:induction false} PackedAccepted(m: Msg)
    requires GoodMsg(m) && PackMsg(m, 0).Sent?
    ensures ActionOn(PackMsg(m, 0).octets) == Accept <==> Acceptable(m)
  {
    hide PackMsg, HeaderOctets, GoodQuestions, GoodRRs, OptIndex, Body, ActionOn;
    HeaderDecides(m.hdr, |m.question|, |m.answer|, |m.ns|, |m.extra|, Body(m));
  }

  /** With a signature there is one additional record more. */
  lemma {:induction false} SignedAccepted(m: Msg, t: Signature, p: Provider, mac: seq<byte>, timersOnly: bool,
                                          now: uint48)
    requires Signable(m, t) && Generate(m, t, p, mac, timersOnly, now).Signed?
    ensures var o := Generate(m, t, p, mac, timersOnly, now).octets;
            |o| >= HEADER_SIZE && (ActionOn(o) == Accept <==> Acceptable(m.(extra := m.extra + [ToRR(t)])))
  {
    hide Generate, PackMsg, HeaderOctets, GoodQuestions, GoodRRs, OptIndex, SetExtended, SectionsRead, UnpackRR, ToRR,
         Portable, Body, TsigOctets, ActionOn;
    AttachedReads(m, t, p, mac, timersOnly, now);
    var s := WithDefaults(t, now).(mac := Generate(m, t, p, mac, timersOnly, now).mac);
    var h, tail := m.hdr.(id := t.origId), Body(m) + TsigOctets(s);
    HeaderDecides(h, |m.question|, |m.answer|, |m.ns|, |m.extra| + 1, tail);
    var head := HeaderOctets(h, |m.question|, |m.answer|, |m.ns|, |m.extra| + 1);
    assert head + Body(m) + TsigOctets(s) == head + tail;
  }
}
