/** Signing goes through, and a signed transfer runs to its end. */
module TsigProgress {
  import opened Octets
  import opened Wrappers
  import opened Presentation
  import opened NamePack
  import opened NameUnpack
  import opened NameLength
  import opened CanonicalForm
  import opened ExactSizes
  import opened Records
  import opened Message
  import opened Tsig

  // ----- the octets for the MAC -----

  /** Octets of the TSIG variables. */
  function VariableSize(t: Signature, timersOnly: bool): nat {
    if timersOnly then 8 else NameSize(t.name) + NameSize(t.algorithm) + 18 + |t.other|
  }

  /** The variables in three parts: what names the key, the timers, and what is behind them. */
  function KeyFields(t: Signature): seq<Field> {
    [NameField(CanonicalName(t.name), false), Raw(PutU16(CLASS_ANY)), Raw(PutU32(t.ttl)),
     NameField(CanonicalName(t.algorithm), false)]
  }

  function TimerFields(t: Signature): seq<Field> {
    [Raw(PutU48(t.timeSigned)), Raw(PutU16(t.fudge))]
  }

  function OtherFields(t: Signature): seq<Field> {
    [Raw(PutU16(t.error)), Raw(PutU16(|t.other| % 0x1_0000)), Raw(t.other)]
  }

  lemma {:induction false} VariableParts(t: Signature)
    ensures VariableFields(t, true) == TimerFields(t)
    ensures VariableFields(t, false) == KeyFields(t) + (TimerFields(t) + OtherFields(t))
  {
    hide CanonicalName, PutU16, PutU32, PutU48;
  }

  lemma {:induction false} KeySize(t: Signature)
    requires Nameable(t.name) && Nameable(t.algorithm)
    ensures NameableFields(KeyFields(t)) && Size(KeyFields(t)) == NameSize(t.name) + NameSize(t.algorithm) + 6
  {
    hide CanonicalName, Nameable, NameSize;
    CanonicalNameable(t.name);
    CanonicalNameable(t.algorithm);
    TwoNames(CanonicalName(t.name), PutU16(CLASS_ANY), PutU32(t.ttl), CanonicalName(t.algorithm));
  }

  lemma {:induction false} TwoNames(x: Text, a: seq<byte>, b: seq<byte>, y: Text)
    requires Nameable(x) && Nameable(y)
    ensures var fs := [NameField(x, false), Raw(a), Raw(b), NameField(y, false)];
            NameableFields(fs) && Size(fs) == NameSize(x) + |a| + |b| + NameSize(y)
  {
    hide Size, Nameable, NameSize;
    SizeFew([NameField(x, false), Raw(a), Raw(b), NameField(y, false)]);
  }

  lemma {:induction false} TimerSize(t: Signature)
    ensures NameableFields(TimerFields(t)) && Size(TimerFields(t)) == 8
  {
    hide PutU16, PutU48, Size, Nameable;
    SizeFew(TimerFields(t));
  }

  lemma {:induction false} OtherSize(t: Signature)
    ensures NameableFields(OtherFields(t)) && Size(OtherFields(t)) == 4 + |t.other|
  {
    hide PutU16, Size, Nameable;
    SizeFew(OtherFields(t));
  }

  lemma {:induction false} NameableConcat(a: seq<Field>, b: seq<Field>)
    requires NameableFields(a) && NameableFields(b)
    ensures NameableFields(a + b)
  {
    hide Nameable;
  }

  lemma {:induction false} VariablesSize(t: Signature, timersOnly: bool)
    requires Nameable(t.name) && Nameable(t.algorithm)
    ensures NameableFields(VariableFields(t, timersOnly))
    ensures Size(VariableFields(t, timersOnly)) == VariableSize(t, timersOnly)
  {
    hide VariableFields, KeyFields, TimerFields, OtherFields, Size, Nameable, NameableFields, NameSize;
    VariableParts(t);
    KeySize(t);
    TimerSize(t);
    OtherSize(t);
    NameableConcat(TimerFields(t), OtherFields(t));
    NameableConcat(KeyFields(t), TimerFields(t) + OtherFields(t));
    SizeConcat(TimerFields(t), OtherFields(t));
    SizeConcat(KeyFields(t), TimerFields(t) + OtherFields(t));
  }

  /** The variables fit their buffer exactly when they take no more than 4096 octets. */
  lemma {:induction false} VariablesPackExactly(t: Signature, timersOnly: bool)
    requires Nameable(t.name) && Nameable(t.algorithm)
    ensures PackFields(VariableFields(t, timersOnly), 0, VARIABLES_SIZE, NoIndex, false).Packed?
            <==> VariableSize(t, timersOnly) <= 4096
  {
    hide VariableFields, Nameable, PackFields, Size, NameSize, NameableFields;
    VariablesSize(t, timersOnly);
    FieldsPackExactly(VariableFields(t, timersOnly), 0, VARIABLES_SIZE);
  }

  // ----- the record -----

  /** Octets of the rdata of a signature with other data `other` and a MAC of `n` octets. */
  function RdataSize(algorithm: Text, n: nat, other: seq<byte>): nat {
    NameSize(algorithm) + 16 + n + |other|
  }

  /** Octets a signature adds to a message. */
  function Overhead(t: Signature, n: nat): nat {
    NameSize(t.name) + 10 + RdataSize(t.algorithm, n, t.other)
  }

  lemma {:induction false} RecordSize(s: Signature)
    ensures Size(ToRR(s).rdata) == RdataSize(s.algorithm, |s.mac|, s.other)
  {
    hide PutU16, PutU48, Size, WireLen, NameLabels;
    var front := [NameField(s.algorithm, false), Raw(PutU48(s.timeSigned)), Raw(PutU16(s.fudge)),
        Raw(PutU16(|s.mac| % 0x1_0000))];
    var middle := [Raw(s.mac), Raw(PutU16(s.origId)), Raw(PutU16(s.error))];
    var back := [Raw(PutU16(|s.other| % 0x1_0000)), Raw(s.other)];
    SizeFew(front);
    SizeFew(middle);
    SizeFew(back);
    SizeConcat(middle, back);
    SizeConcat(front, middle + back);
    assert front + (middle + back) == ToRR(s).rdata;
  }

  /** The record packs, into a buffer of its predicted length, exactly when its rdata length fits 16 bits. */
  lemma {:induction false} RecordPacksExactly(s: Signature)
    requires Nameable(s.name) && Nameable(s.algorithm)
    ensures var r := PackRR(ToRR(s), 0, RRLen(ToRR(s), 0, NoSeen).len, NoIndex, false);
            if RdataSize(s.algorithm, |s.mac|, s.other) <= 0xFFFF then r.Packed? && |r.out| == Overhead(s, |s.mac|)
            else r.Failed?
  {
    hide Nameable, PackRR, RRLen, Size, NameSize, RdataSize, PutU16, PutU48;
    RecordSize(s);
    RRPacksExactly(ToRR(s), RRLen(ToRR(s), 0, NoSeen).len);
  }

  // ----- the message -----

  /** The name and algorithm of a signature can be written. */
  predicate Named(t: Signature) {
    Nameable(t.name) && Nameable(t.algorithm) && t.error != RCODE_BADKEY && t.error != RCODE_BADSIG
  }

  /** What the provider answers for the octets it is to sign, if it gets that far. */
  function Answer(m: Msg, t: Signature, p: Provider, requestMac: seq<byte>, timersOnly: bool,
                  now: uint48): Option<seq<byte>> {
    match PackMsg(m, 0)
    case Refused(_) => None
    case Sent(o) =>
      match TsigBuffer(o, WithDefaults(t, now), requestMac, timersOnly)
      case None => None
      case Some(buf) => p(t.name, t.algorithm, buf)
  }

  /**
   * Exactly when signing goes through, for any provider: the message packs, the request MAC is not
   * one of one octet, the variables fit 4096 octets, the provider answers, and the rdata fits 65535
   * octets with the MAC it answered. The length is then exact.
   */
  lemma {:induction false} GenerateExactly(m: Msg, t: Signature, p: Provider, requestMac: seq<byte>, timersOnly: bool,
                                           now: uint48)
    requires Named(t)
    ensures var g, mac := Generate(m, t, p, requestMac, timersOnly, now), Answer(m, t, p, requestMac, timersOnly, now);
            && (g.Signed? <==> PackMsg(m, 0).Sent? && |requestMac| != 1 && VariableSize(t, timersOnly) <= 4096
                               && mac.Some? && RdataSize(t.algorithm, |mac.value|, t.other) <= 0xFFFF)
            && (g.Signed? ==> g.mac == mac.value && |g.octets| == |PackMsg(m, 0).octets| + Overhead(t, |g.mac|))
  {
    hide PackMsg, Nameable, PackFields, VariableFields, PackRR, RRLen, ToRR, SetId, SetArcount, RdataSize, NameSize;
    var d := WithDefaults(t, now);
    VariablesPackExactly(d, timersOnly);
    if PackMsg(m, 0).Sent? && TsigBuffer(PackMsg(m, 0).octets, d, requestMac, timersOnly).Some? {
      var buf := TsigBuffer(PackMsg(m, 0).octets, d, requestMac, timersOnly).value;
      if p(d.name, d.algorithm, buf).Some? {
        RecordPacksExactly(d.(mac := p(d.name, d.algorithm, buf).value));
      }
    }
  }

  /** A MAC provider that always answers, with a MAC of `n` octets. */
  ghost predicate Signer(p: Provider, name: Text, algorithm: Text, n: nat) {
    forall buf :: p(name, algorithm, buf).Some? && |p(name, algorithm, buf).value| == n
  }

  /** The buffer for the MAC exists exactly when neither the request MAC nor the variables stand in the way. */
  lemma {:induction false} BufferExists(octets: seq<byte>, t: Signature, requestMac: seq<byte>, timersOnly: bool)
    requires |octets| >= HEADER_SIZE && Nameable(t.name) && Nameable(t.algorithm)
    ensures TsigBuffer(octets, t, requestMac, timersOnly).Some? <==>
            |requestMac| != 1 && VariableSize(t, timersOnly) <= VARIABLES_SIZE
  {
    hide Nameable, PackFields, VariableFields, SetId, NameSize;
    VariablesPackExactly(t, timersOnly);
  }

  /** With a provider of that kind the condition does not mention its answer. */
  lemma {:induction false} AnswerOf(m: Msg, t: Signature, p: Provider, n: nat, requestMac: seq<byte>, timersOnly: bool,
                                    now: uint48)
    requires Named(t) && Signer(p, t.name, t.algorithm, n)
    requires PackMsg(m, 0).Sent? && |requestMac| != 1 && VariableSize(t, timersOnly) <= VARIABLES_SIZE
    ensures var mac := Answer(m, t, p, requestMac, timersOnly, now); mac.Some? && |mac.value| == n
  {
    hide PackMsg, Nameable, TsigBuffer, NameSize;
    BufferExists(PackMsg(m, 0).octets, WithDefaults(t, now), requestMac, timersOnly);
  }
}
