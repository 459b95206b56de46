/** What a transaction signature covers and looks like, octet by octet (sections 4.2 and 4.3 of RFC 8945). */
module TsigFormats {
  import opened Octets
  import opened Wrappers
  import opened Presentation
  import opened NamePack
  import opened NameUnpack
  import opened CanonicalForm
  import opened NameLength
  import opened Records
  import opened Message
  import opened ExactSizes
  import opened Tsig
  import opened TsigRoundTrip
  import opened TsigProgress
  import opened MessageRoundTrip
  import opened TransferTsig
  import opened WireFormats

  function Six(v: uint48): seq<byte> {
    [v / 0x100_0000_0000, v / 0x1_0000_0000 % 256, v / 0x100_0000 % 256, v / 0x1_0000 % 256, v / 0x100 % 256, v % 256]
  }

  lemma SixIs(v: uint48)
    ensures PutU48(v) == Six(v)
  {
    var hi, lo := v / 0x1_0000_0000, v % 0x1_0000_0000;
    LongIs(lo);
    hide PutU32;
    HighWord(v);
    LowWord(v);
  }

  lemma HighWord(v: uint48)
    ensures v / 0x1_0000_0000 / 256 == v / 0x100_0000_0000
  {
    DivIs(v, 0x100_0000_0000, v / 0x1_0000_0000 / 256, v / 0x1_0000_0000 % 256 * 0x1_0000_0000 + v % 0x1_0000_0000);
  }

  lemma LowWord(v: uint48)
    ensures var lo := v % 0x1_0000_0000;
            && lo / 0x100_0000 == v / 0x100_0000 % 256 && lo / 0x1_0000 % 256 == v / 0x1_0000 % 256
            && lo / 0x100 % 256 == v / 0x100 % 256 && lo % 256 == v % 256
  {
    var hi, lo := v / 0x1_0000_0000, v % 0x1_0000_0000;
    LowOctet(hi, lo, 0x100_0000, 256);
    LowOctet(hi, lo, 0x1_0000, 0x1_0000);
    LowOctet(hi, lo, 0x100, 0x100_0000);
    assert v == (hi * 0x100_0000) * 256 + lo;
  }

  /** A multiple of 256 places higher up does not show in an octet. */
  lemma LowOctet(hi: nat, lo: nat, w: nat, n: nat)
    requires w > 0 && n % 256 == 0 && w * n == 0x1_0000_0000
    ensures (hi * 0x1_0000_0000 + lo) / w % 256 == lo / w % 256
  {
    var q := hi * n;
    assert hi * 0x1_0000_0000 == q * w;
    DivIs(hi * 0x1_0000_0000 + lo, w, q + lo / w, lo % w);
    var k := hi * (n / 256);
    assert q == k * 256;
    SameOctet(k, lo / w);
  }

  lemma SameOctet(k: nat, x: nat)
    ensures (k * 256 + x) % 256 == x % 256
  {
  }

  lemma {:induction false} OctetsFew(fs: seq<Field>)
    requires 1 <= |fs| <= 4
    ensures AllOctets(fs) == FieldOctets(fs[0]) + (if |fs| > 1 then FieldOctets(fs[1]) else [])
                             + (if |fs| > 2 then FieldOctets(fs[2]) else [])
                             + (if |fs| > 3 then FieldOctets(fs[3]) else [])
  {
    hide FieldOctets;
    OctetsStep(fs);
    if |fs| == 1 {
      assert fs[1..] == [];
    } else {
      OctetsFew(fs[1..]);
    }
  }

  lemma OctetsStep(fs: seq<Field>)
    requires fs != []
    ensures AllOctets(fs) == FieldOctets(fs[0]) + AllOctets(fs[1..]) && AllOctets([]) == []
  {
  }

  lemma {:induction false} OctetsConcat(a: seq<Field>, b: seq<Field>)
    ensures AllOctets(a + b) == AllOctets(a) + AllOctets(b)
    decreases |a|
  {
    hide FieldOctets;
    if a == [] {
      assert a + b == b;
    } else {
      assert (a + b)[1..] == a[1..] + b;
      OctetsConcat(a[1..], b);
    }
  }

  // ----- what the MAC covers -----

  /** The variables: key name, class ANY, TTL, algorithm, time, fudge, error and other data. */
  lemma {:induction false} VariablesAre(t: Signature)
    requires Nameable(t.name) && Nameable(t.algorithm) && |t.other| <= 0xFFFF
    ensures AllOctets(VariableFields(t, false)) ==
            NameOctets(CanonicalName(t.name)) + [0, 255] + Four(t.ttl) + NameOctets(CanonicalName(t.algorithm))
            + Six(t.timeSigned) + Two(t.fudge) + Two(t.error) + Two(|t.other|) + t.other
    ensures AllOctets(VariableFields(t, true)) == Six(t.timeSigned) + Two(t.fudge)
  {
    hide CanonicalName, PutU48, PutU32, Six, Four, Nameable, NameOctets, AllOctets, VariableFields, KeyFields,
         TimerFields, OtherFields;
    VariableParts(t);
    KeyOctets(t);
    TimerOctets(t);
    OtherOctets(t);
    OctetsConcat(TimerFields(t), OtherFields(t));
    OctetsConcat(KeyFields(t), TimerFields(t) + OtherFields(t));
  }

  lemma {:induction false} KeyOctets(t: Signature)
    ensures AllOctets(KeyFields(t)) ==
            NameOctets(CanonicalName(t.name)) + [0, 255] + Four(t.ttl) + NameOctets(CanonicalName(t.algorithm))
  {
    hide CanonicalName, PutU32, AllOctets, Wire, GoodLabels, NameLabels;
    LongIs(t.ttl);
    var c: uint16 := 255;
    assert PutU16(c) == [0, 255];
    OctetsFew(KeyFields(t));
  }

  lemma {:induction false} TimerOctets(t: Signature)
    ensures AllOctets(TimerFields(t)) == Six(t.timeSigned) + Two(t.fudge)
  {
    hide PutU48, AllOctets, Six;
    SixIs(t.timeSigned);
    OctetsFew(TimerFields(t));
  }

  lemma {:induction false} OtherOctets(t: Signature)
    requires |t.other| <= 0xFFFF
    ensures AllOctets(OtherFields(t)) == Two(t.error) + Two(|t.other|) + t.other
  {
    hide AllOctets;
    OctetsFew(OtherFields(t));
  }

  /** The digest of a first message: request MAC with its length, message under its original ID, variables. */
  lemma {:induction false} DigestIs(o: seq<byte>, t: Signature, mac: seq<byte>)
    requires |o| >= 12 && Nameable(t.name) && Nameable(t.algorithm) && |t.other| <= 0xFFFF && |mac| <= 0xFFFF
    requires TsigBuffer(o, t, mac, false).Some?
    ensures TsigBuffer(o, t, mac, false).value ==
            (if mac == [] then [] else Two(|mac|) + mac) + Two(t.origId) + o[2..]
            + (NameOctets(CanonicalName(t.name)) + [0, 255] + Four(t.ttl) + NameOctets(CanonicalName(t.algorithm))
               + Six(t.timeSigned) + Two(t.fudge) + Two(t.error) + Two(|t.other|) + t.other)
  {
    hide TsigBuffer, CanonicalName, Six, Four, Nameable, NameOctets, AllOctets, VariableFields;
    VariablesAre(t);
    BufferIs(o, t, mac, false);
  }

  lemma {:induction false} BufferIs(o: seq<byte>, t: Signature, mac: seq<byte>, timersOnly: bool)
    requires |o| >= 12 && Nameable(t.name) && Nameable(t.algorithm) && |mac| <= 0xFFFF
    requires TsigBuffer(o, t, mac, timersOnly).Some?
    ensures TsigBuffer(o, t, mac, timersOnly).value ==
            (if mac == [] then [] else Two(|mac|) + mac) + Two(t.origId) + o[2..]
            + AllOctets(VariableFields(t, timersOnly))
  {
    hide Nameable, AllOctets, VariableFields, PackFields, NameableFields, Size, MacPrefix, SetId;
    VariablesSize(t, timersOnly);
    FieldsAre(VariableFields(t, timersOnly), 0, VARIABLES_SIZE);
    PrefixIs(mac);
    Regroup(MacPrefix(mac).value, o, t.origId, AllOctets(VariableFields(t, timersOnly)));
  }

  lemma PrefixIs(mac: seq<byte>)
    requires |mac| <= 0xFFFF && MacPrefix(mac).Some?
    ensures MacPrefix(mac).value == if mac == [] then [] else Two(|mac|) + mac
  {
  }

  lemma Regroup(p: seq<byte>, o: seq<byte>, id: uint16, v: seq<byte>)
    requires |o| >= 12
    ensures p + SetId(o, id) + v == p + Two(id) + o[2..] + v
  {
    hide Two, PutU16;
    TwoIs(id);
    assert p + (Two(id) + o[2..]) == p + Two(id) + o[2..];
  }

  /** The digest of a later message: the timers alone behind it. */
  lemma {:induction false} TimersDigestIs(o: seq<byte>, t: Signature, mac: seq<byte>)
    requires |o| >= 12 && Nameable(t.name) && Nameable(t.algorithm) && |t.other| <= 0xFFFF && |mac| <= 0xFFFF
    requires TsigBuffer(o, t, mac, true).Some?
    ensures TsigBuffer(o, t, mac, true).value ==
            (if mac == [] then [] else Two(|mac|) + mac) + Two(t.origId) + o[2..] + (Six(t.timeSigned) + Two(t.fudge))
  {
    hide TsigBuffer, CanonicalName, Six, Nameable, NameOctets, AllOctets, VariableFields;
    VariablesAre(t);
    BufferIs(o, t, mac, true);
  }

  // ----- the record -----

  /** The rdata of a signature. */
  function SignatureRdata(s: Signature): seq<byte>
    requires |s.mac| <= 0xFFFF && |s.other| <= 0xFFFF
  {
    NameOctets(s.algorithm) + Six(s.timeSigned) + Two(s.fudge) + Two(|s.mac|) + s.mac
    + Two(s.origId) + Two(s.error) + Two(|s.other|) + s.other
  }

  lemma {:induction false} RdataIs(s: Signature)
    requires |s.mac| <= 0xFFFF && |s.other| <= 0xFFFF
    ensures AllOctets(ToRR(s).rdata) == SignatureRdata(s)
  {
    hide PutU48, PutU16, AllOctets, Six, Two, NameOctets, FieldOctets;
    SixIs(s.timeSigned);
    TwoIs(s.fudge);
    TwoIs(|s.mac|);
    TwoIs(s.origId);
    TwoIs(s.error);
    TwoIs(|s.other|);
    var a := [NameField(s.algorithm, false), Raw(Six(s.timeSigned)), Raw(Two(s.fudge)), Raw(Two(|s.mac|))];
    var b := [Raw(s.mac), Raw(Two(s.origId)), Raw(Two(s.error)), Raw(Two(|s.other|))];
    assert ToRR(s).rdata == a + (b + [Raw(s.other)]);
    PlainOctets(s);
    FirstFour(a);
    FirstFour(b);
    OctetsFew([Raw(s.other)]);
    OctetsConcat(b, [Raw(s.other)]);
    OctetsConcat(a, b + [Raw(s.other)]);
    var x, y := AllOctets(a), AllOctets(b);
    assert x + (y + s.other) == x + s.mac + Two(s.origId) + Two(s.error) + Two(|s.other|) + s.other;
  }

  lemma {:induction false} FirstFour(fs: seq<Field>)
    requires |fs| == 4
    ensures AllOctets(fs) == FieldOctets(fs[0]) + FieldOctets(fs[1]) + FieldOctets(fs[2]) + FieldOctets(fs[3])
  {
    hide AllOctets, FieldOctets;
    OctetsFew(fs);
  }

  lemma TwoIs(v: uint16)
    ensures PutU16(v) == Two(v)
  {
  }

  lemma PlainOctets(s: Signature)
    ensures forall d :: FieldOctets(Raw(d)) == d
    ensures FieldOctets(NameField(s.algorithm, false)) == NameOctets(s.algorithm)
  {
    hide NameLabels, Wire;
  }

  /** The record that is attached: name, type 250, class, TTL, length, and the fields of the signature in order. */
  lemma {:induction false} SignatureIs(s: Signature, cap: nat)
    requires Nameable(s.name) && Nameable(s.algorithm) && |s.mac| <= 0xFFFF && |s.other| <= 0xFFFF
    requires PackRR(ToRR(s), 0, cap, NoIndex, false).Packed?
    ensures |SignatureRdata(s)| <= 0xFFFF
    ensures PackRR(ToRR(s), 0, cap, NoIndex, false).out ==
            NameOctets(s.name) + [0, 250] + Two(s.class_) + Four(s.ttl) + Two(|SignatureRdata(s)|) + SignatureRdata(s)
  {
    hide PackRR, Nameable, AllOctets, SignatureRdata, Wire, GoodLabels, NameLabels;
    RdataIs(s);
    RecordIs(ToRR(s), 0, cap);
    var t: uint16 := 250;
    assert ToRR(s).rrtype == t && t / 256 == 0 && t % 256 == 250;
  }

  /** The signature a server starts a reply with: key, algorithm and fudge of the request, and nothing else set. */
  lemma {:induction false} ReplySignature(q: Msg, x: Parcel, status: Option<TsigError>)
    requires GoodMsg(ReplyTo(q, x.rrs))
    ensures IsTsig(OutMsg(q, status, x)) ==
            if IsTsig(q).None? || status.Some? then None
            else
              var t := IsTsig(q).value;
              Some(Signature(t.name, 255, 0, t.algorithm, x.now, t.fudge, [], q.hdr.id, 0, []))
  {
    hide GoodMsg, FromRR, ToRR;
    if IsTsig(q).Some? && status.None? {
      var stub := StubFor(IsTsig(q).value, q.hdr.id, x.now);
      FromToRR(stub);
      TsigType(stub);
    }
  }

  // ----- errors and times -----

  /** A message that says NOTAUTH is refused before anything else of it is read. */
  lemma {:induction false} NotAuthExactly(msg: seq<byte>)
    requires |msg| >= 12
    ensures StripTsig(msg) == StripFailed(ErrAuth) <==> !(msg[10] == 0 && msg[11] == 0) && msg[3] % 16 == 9
  {
    hide SkipQuestions, UnpackRRs, FindTsig;
    assert (msg[2] as int * 256 + msg[3]) % 16 == msg[3] % 16;
  }

  /** Behind a key or MAC error (16 and 17) nothing is signed: the record goes out without a MAC and a time. */
  lemma {:induction false} ErrorUnsigned(m: Msg, t: Signature, p: Provider, requestMac: seq<byte>, timersOnly: bool,
                                         now: uint48)
    requires t.error == 16 || t.error == 17
    requires Generate(m, t, p, requestMac, timersOnly, now).Signed?
    ensures PackMsg(m, 0).Sent? && |PackMsg(m, 0).octets| >= 12
    ensures var g := Generate(m, t, p, requestMac, timersOnly, now);
            var s := WithDefaults(t, now).(mac := [], timeSigned := 0);
            var r := PackRR(ToRR(s), 0, RRLen(ToRR(s), 0, NoSeen).len, NoIndex, false);
            && g.mac == [] && r.Packed?
            && g.octets == SetArcount(SetId(PackMsg(m, 0).octets, t.origId), (|m.extra| + 1) % 0x1_0000) + r.out
  {
    hide PackMsg, PackRR, RRLen, TsigBuffer, SetId, SetArcount;
  }

  /** The clocks may be apart by the fudge, either way; a fudge of zero stands for 300 seconds. */
  lemma {:induction false} TimeWindow(m: Msg, t: Signature, p: Provider, requestMac: seq<byte>, timersOnly: bool,
                                      now: uint48, now': uint48)
    requires Signable(m, t) && WithDefaults(t, now).timeSigned != 0
    requires Generate(m, t, p, requestMac, timersOnly, now).Signed?
    ensures var signed := if t.timeSigned == 0 then now else t.timeSigned;
            var fudge := if t.fudge == 0 then 300 else t.fudge;
            Verify(Generate(m, t, p, requestMac, timersOnly, now).octets, p, requestMac, timersOnly, now') ==
            if signed as int - fudge as int <= now' <= signed as int + fudge as int then Valid else Invalid(ErrTime)
  {
    hide Generate, Verify, Signable;
    HonestMessageVerifies(m, t, p, requestMac, timersOnly, now, now');
  }
}
