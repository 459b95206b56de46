/** Stripping a TSIG undoes attaching it, and honest messages verify. */
module TsigRoundTrip {
  import opened Octets
  import opened Wrappers
  import opened Presentation
  import opened Qualified
  import opened NamePack
  import opened NameUnpack
  import opened Compression
  import opened NameLength
  import opened Records
  import opened Message
  import opened MessageRoundTrip
  import opened MessageLength
  import opened Tsig

  // ----- the header octets that are overwritten -----

  lemma {:induction false} SetIdIs(h: MsgHdr, qd: uint16, an: uint16, ns: uint16, ar: uint16, body: seq<byte>,
                                   id: uint16)
    ensures SetId(HeaderOctets(h, qd, an, ns, ar) + body, id) == HeaderOctets(h.(id := id), qd, an, ns, ar) + body
  {
    hide PutU16;
    assert Bits(h.(id := id)) == Bits(h);
  }

  lemma {:induction false} SetArcountIs(h: MsgHdr, qd: uint16, an: uint16, ns: uint16, ar: uint16, body: seq<byte>,
                                        n: uint16)
    ensures SetArcount(HeaderOctets(h, qd, an, ns, ar) + body, n) == HeaderOctets(h, qd, an, ns, n) + body
  {
    hide PutU16, Bits;
    var front := PutU16(h.id) + PutU16(Bits(h)) + PutU16(qd) + PutU16(an) + PutU16(ns);
    assert HeaderOctets(h, qd, an, ns, ar) + body == front + PutU16(ar) + body;
  }

  // ----- without a map, packing does not depend on the place -----

  lemma {:induction false} NamePlain(s: Text, off: nat, cap: nat, off': nat, cap': nat)
    requires FullyQualified(s) && PackName(s, off, cap, NoIndex, false).Packed?
    requires off' + |PackName(s, off, cap, NoIndex, false).out| <= cap'
    ensures PackName(s, off', cap', NoIndex, false) == PackName(s, off, cap, NoIndex, false)
  {
    assert s != [];
    hide IsFqdn, PackLabels;
    if s != [DOT] {
      PackLabelsPlain(s, off, cap, false);
      PackLabelsPlain(s, off', cap', false);
    }
  }

  lemma {:induction false} FieldsPlain(fs: seq<Field>, off: nat, cap: nat, off': nat, cap': nat)
    requires FieldNames(fs) && PackFields(fs, off, cap, NoIndex, false).Packed?
    requires off' + |PackFields(fs, off, cap, NoIndex, false).out| <= cap'
    ensures PackFields(fs, off', cap', NoIndex, false) == PackFields(fs, off, cap, NoIndex, false)
    ensures PackFields(fs, off, cap, NoIndex, false).index == NoIndex
    decreases |fs|
  {
    hide PackName, FullyQualified;
    if fs != [] {
      var p := PackField(fs[0], off, cap, NoIndex, false);
      assert p.index == NoIndex by {
        if fs[0].NameField? {
          PlainKeepsNoIndex(fs[0].text, off, cap);
        }
      }
      if fs[0].NameField? {
        NamePlain(fs[0].text, off, cap, off', cap');
      }
      FieldsPlain(fs[1..], off + |p.out|, cap, off' + |p.out|, cap');
    }
  }

  lemma {:induction false} PlainKeepsNoIndex(s: Text, off: nat, cap: nat)
    requires FullyQualified(s) && PackName(s, off, cap, NoIndex, false).Packed?
    ensures PackName(s, off, cap, NoIndex, false).index == NoIndex
  {
    assert s != [];
    hide IsFqdn, PackLabels;
    if s != [DOT] {
      PackLabelsPlain(s, off, cap, false);
    }
  }

  lemma {:induction false} RRPlain(rr: RR, off: nat, cap: nat, off': nat, cap': nat)
    requires RRNames(rr) && PackRR(rr, off, cap, NoIndex, false).Packed?
    requires off' + |PackRR(rr, off, cap, NoIndex, false).out| <= cap'
    ensures PackRR(rr, off', cap', NoIndex, false) == PackRR(rr, off, cap, NoIndex, false)
  {
    hide PackName, PackFields, FullyQualified, FieldNames;
    var p := PackName(rr.name, off, cap, NoIndex, false);
    PlainKeepsNoIndex(rr.name, off, cap);
    NamePlain(rr.name, off, cap, off', cap');
    FieldsPlain(rr.rdata, off + |p.out| + 10, cap, off' + |p.out| + 10, cap');
  }

  // ----- the record -----

  /** A signature whose record can be carried both ways unchanged. */
  predicate Carriable(t: Signature) {
    && Portable(t.name) && Portable(t.algorithm)
    && Normal(t.name) == t.name && Normal(t.algorithm) == t.algorithm
    && |t.mac| <= 0xFFFF && |t.other| <= 0xFFFF
  }

  /** The fields behind the MAC match the end of the layout. */
  lemma {:induction false} TailMatches(t: Signature, n: nat)
    requires |t.other| <= 0xFFFF
    ensures Matches([KFixed(2), KFixed(2), KCount, KSized],
                    [Raw(PutU16(t.origId)), Raw(PutU16(t.error)), Raw(PutU16(|t.other| % 0x1_0000)), Raw(t.other)], n)
  {
    hide Portable, GetU16, PutU16;
    CountIs(|t.other|);
    var c, o := Raw(PutU16(|t.other| % 0x1_0000)), Raw(t.other);
    var e := Raw(PutU16(t.error));
    assert Matches([KSized], [o], |t.other|) by { assert [KSized][1..] == [] && [o][1..] == []; }
    assert [KCount, KSized][1..] == [KSized] && [c, o][1..] == [o] && Matches([KCount, KSized], [c, o], n);
    assert [KFixed(2), KCount, KSized][1..] == [KCount, KSized] && [e, c, o][1..] == [c, o];
    assert Matches([KFixed(2), KCount, KSized], [e, c, o], n);
  }

  /** The fields from the signing time to the MAC, in front of fields that match the rest. */
  lemma {:induction false} MiddleMatches(t: Signature, ks: seq<Kind>, fs: seq<Field>)
    requires |t.mac| <= 0xFFFF && Matches(ks, fs, |t.mac|)
    ensures Matches([KFixed(6), KFixed(2), KCount, KSized] + ks,
                    [Raw(PutU48(t.timeSigned)), Raw(PutU16(t.fudge)), Raw(PutU16(|t.mac| % 0x1_0000)),
                     Raw(t.mac)] + fs, 0)
  {
    hide Portable, GetU16, PutU16, PutU48;
    CountIs(|t.mac|);
    var c, m, f := Raw(PutU16(|t.mac| % 0x1_0000)), Raw(t.mac), Raw(PutU16(t.fudge));
    var k1, f1 := [KSized] + ks, [m] + fs;
    var k2, f2 := [KCount] + k1, [c] + f1;
    var k3, f3 := [KFixed(2)] + k2, [f] + f2;
    var k4, f4 := [KFixed(6)] + k3, [Raw(PutU48(t.timeSigned))] + f3;
    assert k1[1..] == ks && f1[1..] == fs && Matches(k1, f1, |t.mac|);
    assert k2[1..] == k1 && f2[1..] == f1 && Matches(k2, f2, 0);
    assert k3[1..] == k2 && f3[1..] == f2 && Matches(k3, f3, 0);
    assert k4[1..] == k3 && f4[1..] == f3 && Matches(k4, f4, 0);
    assert k4 == [KFixed(6), KFixed(2), KCount, KSized] + ks;
    assert f4 == [Raw(PutU48(t.timeSigned)), f, c, m] + fs;
  }

  lemma {:induction false} TsigRRGood(t: Signature)
    requires Carriable(t)
    ensures GoodRR(ToRR(t)) && RRNames(ToRR(t))
  {
    hide Portable, Normal, FullyQualified, GetU16, PutU16, PutU48;
    var rr := ToRR(t);
    TailMatches(t, |t.mac|);
    var ks := [KFixed(2), KFixed(2), KCount, KSized];
    var fs := [Raw(PutU16(t.origId)), Raw(PutU16(t.error)), Raw(PutU16(|t.other| % 0x1_0000)), Raw(t.other)];
    MiddleMatches(t, ks, fs);
    assert Layout(TYPE_TSIG)[1..] == [KFixed(6), KFixed(2), KCount, KSized] + ks;
    assert rr.rdata[1..] == [Raw(PutU48(t.timeSigned)), Raw(PutU16(t.fudge)), Raw(PutU16(|t.mac| % 0x1_0000)),
        Raw(t.mac)] + fs;
    PortableIsQualified(t.name);
    PortableIsQualified(t.algorithm);
  }

  lemma CountIs(n: nat)
    requires n <= 0xFFFF
    ensures GetU16(PutU16(n % 0x1_0000), 0) == n
  {
    assert [] + PutU16(n) + [] == PutU16(n);
    U16RoundTrip(n, [], []);
  }

  lemma {:induction false} NormalFieldsAt(fs: seq<Field>)
    ensures |NormalFields(fs)| == |fs| && forall i :: 0 <= i < |fs| ==> NormalFields(fs)[i] == NormalField(fs[i])
  {
    hide NormalField;
    if fs != [] {
      NormalFieldsAt(fs[1..]);
    }
  }

  lemma {:induction false} TsigRRNormal(t: Signature)
    requires Carriable(t)
    ensures NormalRR(ToRR(t)) == ToRR(t)
  {
    hide Portable, Normal, NormalFields;
    NormalFieldsAt(ToRR(t).rdata);
  }

  /** Reading the record back gives the signature. */
  lemma {:induction false} FromToRR(t: Signature)
    requires |t.mac| <= 0xFFFF && |t.other| <= 0xFFFF
    ensures FromRR(ToRR(t)) == t
  {
    hide GetU16, GetU48, PutU48, PutU16;
    U48RoundTrip(t.timeSigned);
    CountIs(t.fudge);
    CountIs(t.origId);
    CountIs(t.error);
  }

  // ----- the search -----

  /** Records without a TSIG are skipped. */
  lemma {:induction false} SearchSkips(k: nat, n: nat, msg: seq<byte>, off: nat, last: nat, rrs: seq<RR>, next: nat)
    requires UnpackRRs(k, msg, off) == Records(rrs, next) && |rrs| == k
    requires forall i :: 0 <= i < |rrs| ==> rrs[i].rrtype != TYPE_TSIG
    ensures exists l :: FindTsig(k + n, msg, off, last) == FindTsig(n, msg, next, l)
    decreases k
  {
    hide UnpackRR;
    if k == 0 {
      assert FindTsig(k + n, msg, off, last) == FindTsig(n, msg, next, last);
    } else {
      var u := UnpackRR(msg, off);
      var rest := UnpackRRs(k - 1, msg, u.next);
      assert rrs == [u.rr] + rest.rrs;
      assert u.rr.rrtype == rrs[0].rrtype;
      assert forall i :: 0 <= i < |rest.rrs| ==> rest.rrs[i] == rrs[i + 1];
      SearchSkips(k - 1, n, msg, u.next, off, rest.rrs, next);
    }
  }

  lemma {:induction false} SkipIsUnpack(n: nat, msg: seq<byte>, off: nat)
    requires UnpackQuestions(n, msg, off).Questions? && |UnpackQuestions(n, msg, off).qs| == n
    ensures SkipQuestions(n, msg, off) == Some(UnpackQuestions(n, msg, off).next)
    decreases n
  {
    hide UnpackQuestion;
    if n > 0 {
      SkipIsUnpack(n - 1, msg, UnpackQuestion(msg, off).next);
    }
  }

  // ----- strip undoes attach -----

  /** Messages and stub records the round trip is promised for. */
  predicate Signable(m: Msg, t: Signature) {
    && GoodMsg(m) && |m.extra| < 0xFFFF
    && (forall i :: 0 <= i < |m.extra| ==> m.extra[i].rrtype != TYPE_TSIG)
    && m.hdr.rcode % 16 != RCODE_NOTAUTH
    && Carriable(t.(mac := []))
    && t.error != RCODE_BADKEY && t.error != RCODE_BADSIG
  }

  /** The octets of a message with `h` for header, sections `body` and a TSIG behind them. */
  lemma {:induction false} StripInPlace(m: Msg, h: MsgHdr, body: seq<byte>, tbuf: seq<byte>, out: Msg, s: Signature)
    requires GoodMsg(m) && |m.extra| < 0xFFFF && h.rcode == m.hdr.rcode && h.rcode % 16 != RCODE_NOTAUTH
    requires out.question == m.question && out.answer == m.answer && out.ns == m.ns && |out.extra| == |m.extra|
    requires forall i :: 0 <= i < |out.extra| ==> out.extra[i].rrtype != TYPE_TSIG
    requires |s.mac| <= 0xFFFF && |s.other| <= 0xFFFF
    requires var head := HeaderOctets(h, |m.question|, |m.answer|, |m.ns|, |m.extra| + 1);
             && SectionsRead(out, head + body + tbuf, HEADER_SIZE, HEADER_SIZE + |body|)
             && UnpackRR(head + body + tbuf, HEADER_SIZE + |body|).Record?
             && UnpackRR(head + body + tbuf, HEADER_SIZE + |body|).rr == ToRR(s)
    ensures StripTsig(HeaderOctets(h, |m.question|, |m.answer|, |m.ns|, |m.extra| + 1) + body + tbuf) ==
            Stripped(HeaderOctets(h, |m.question|, |m.answer|, |m.ns|, |m.extra|) + body, s)
  {
    hide HeaderOctets, UnpackQuestions, UnpackRRs, UnpackRR, FindTsig, SkipQuestions, GoodQuestions, GoodRRs,
         OptIndex, Bits, NormalRRs, NormalQuestions, ToRR, FromRR;
    var head := HeaderOctets(h, |m.question|, |m.answer|, |m.ns|, |m.extra| + 1);
    var msg := head + body + tbuf;
    assert msg == head + (body + tbuf);
    HeaderReads(h, |m.question|, |m.answer|, |m.ns|, |m.extra| + 1, body + tbuf);
    LowBits4(h);
    var q := UnpackQuestions(|m.question|, msg, HEADER_SIZE);
    SkipIsUnpack(|m.question|, msg, HEADER_SIZE);
    var a := UnpackRRs(|m.answer|, msg, q.next);
    var n := UnpackRRs(|m.ns|, msg, a.next);
    NormalKeeps(out.extra);
    SearchSkips(|m.extra|, 1, msg, n.next, 0, NormalRRs(out.extra), HEADER_SIZE + |body|);
    var l :| FindTsig(|m.extra| + 1, msg, n.next, 0) == FindTsig(1, msg, HEADER_SIZE + |body|, l);
    FindFirst(msg, HEADER_SIZE + |body|, l, s);
    SetArcountIs(h, |m.question|, |m.answer|, |m.ns|, |m.extra| + 1, body + tbuf, |m.extra|);
    var head' := HeaderOctets(h, |m.question|, |m.answer|, |m.ns|, |m.extra|);
    assert (head' + (body + tbuf))[..HEADER_SIZE + |body|] == head' + body;
    FromToRR(s);
  }

  lemma LowBits4(h: MsgHdr)
    ensures Bits(h) % 16 == h.rcode % 16
  {
    LowBitsRead(h, Bits(h), HighBits(h));
  }

  lemma FindFirst(msg: seq<byte>, off: nat, last: nat, s: Signature)
    requires UnpackRR(msg, off).Record? && UnpackRR(msg, off).rr == ToRR(s)
    ensures FindTsig(1, msg, off, last) == FoundAt(off, ToRR(s))
  {
  }

  /** What `Generate` sends, in terms of the header and sections of the packed message. */
  lemma {:induction false} GeneratedIs(m: Msg, t: Signature, provider: Provider, requestMac: seq<byte>,
                                       timersOnly: bool, now: uint48)
    requires Signable(m, t) && Generate(m, t, provider, requestMac, timersOnly, now).Signed?
    ensures PackMsg(m, 0).Sent?
    ensures var g := Generate(m, t, provider, requestMac, timersOnly, now);
            var d := WithDefaults(t, now);
            var s := d.(mac := g.mac);
            var mbuf := PackMsg(m, 0).octets;
            var r := PackRR(ToRR(s), 0, RRLen(ToRR(s), 0, NoSeen).len, NoIndex, false);
            && r.Packed? && |mbuf| >= HEADER_SIZE
            && g.octets == SetArcount(SetId(mbuf, d.origId), |m.extra| + 1) + r.out
            && TsigBuffer(mbuf, d, requestMac, timersOnly).Some?
            && provider(d.name, d.algorithm, TsigBuffer(mbuf, d, requestMac, timersOnly).value) == Some(g.mac)
  {
    hide PackMsg, PackRR, RRLen, TsigBuffer, Carriable, GoodMsg, SetId, SetArcount;
  }

  /** Packed message: its header and its sections. */
  lemma {:induction false} PackedIs(m: Msg)
    requires GoodMsg(m) && PackMsg(m, 0).Sent?
    ensures var out := Outgoing(m);
            var compress := m.compress && IsCompressible(m);
            var r := PackSections(out, HEADER_SIZE, Capacity(out, 0),
                                  if compress then Index(map[]) else NoIndex, compress);
            && r.Packed?
            && PackMsg(m, 0).octets == HeaderOctets(m.hdr, |m.question|, |m.answer|, |m.ns|, |m.extra|) + r.out
  {
    hide PackSections, HeaderOctets, MsgLen, SetExtended, GoodQuestions, GoodRRs, OptIndex;
  }

  /** The sections of the packed message. */
  function Body(m: Msg): (o: seq<byte>)
    requires GoodMsg(m) && PackMsg(m, 0).Sent?
    ensures PackMsg(m, 0).octets == HeaderOctets(m.hdr, |m.question|, |m.answer|, |m.ns|, |m.extra|) + o
  {
    PackedIs(m);
    PackMsg(m, 0).octets[HEADER_SIZE..]
  }

  /** The packed record. */
  function TsigOctets(s: Signature): seq<byte> {
    match PackRR(ToRR(s), 0, RRLen(ToRR(s), 0, NoSeen).len, NoIndex, false)
    case Packed(o, _) => o
    case Failed(_) => []
  }

  lemma {:induction false} RawInside(fs: seq<Field>, i: nat, off: nat, cap: nat, x: Index)
    requires i < |fs| && fs[i].Raw? && PackFields(fs, off, cap, x, false).Packed?
    ensures |fs[i].data| <= |PackFields(fs, off, cap, x, false).out|
    decreases |fs|
  {
    hide PackName;
    if i > 0 {
      var o := PackField(fs[0], off, cap, x, false);
      RawInside(fs[1..], i - 1, off + |o.out|, cap, o.index);
    }
  }

  /** A record that packs has a MAC that fits its size field. */
  lemma {:induction false} MacFits(s: Signature, cap: nat)
    requires PackRR(ToRR(s), 0, cap, NoIndex, false).Packed?
    ensures |s.mac| <= 0xFFFF
  {
    hide PackName, PackFields;
    var o := PackName(s.name, 0, cap, NoIndex, false);
    assert ToRR(s).rdata[4] == Raw(s.mac);
    RawInside(ToRR(s).rdata, 4, |o.out| + 10, cap, o.index);
  }

  /** The octets sent, and how they read: the sections as packed, then the record. */
  lemma {:induction false} AttachedReads(m: Msg, t: Signature, provider: Provider, requestMac: seq<byte>,
                                         timersOnly: bool, now: uint48)
    requires Signable(m, t) && Generate(m, t, provider, requestMac, timersOnly, now).Signed?
    ensures PackMsg(m, 0).Sent?
    ensures |Generate(m, t, provider, requestMac, timersOnly, now).mac| <= 0xFFFF
    ensures var g := Generate(m, t, provider, requestMac, timersOnly, now);
            var s := WithDefaults(t, now).(mac := g.mac);
            var head := HeaderOctets(m.hdr.(id := t.origId), |m.question|, |m.answer|, |m.ns|, |m.extra| + 1);
            var body := Body(m);
            var msg := head + body + TsigOctets(s);
            && g.octets == msg
            && SectionsRead(Outgoing(m), msg, HEADER_SIZE, HEADER_SIZE + |body|)
            && UnpackRR(msg, HEADER_SIZE + |body|) == Record(ToRR(s), |msg|)
            && TsigOctets(s) != []
  {
    hide Generate, PackMsg, PackSections, PackRR, RRLen, TsigBuffer, HeaderOctets, SetId, SetArcount, GoodRR, RRNames,
         GoodQuestions, GoodRRs, OptIndex, SetExtended, SectionsRead, MapInv, UnpackRR, ToRR, NormalRR, Portable,
         Normal, MsgLen, IsCompressible;
    var g := Generate(m, t, provider, requestMac, timersOnly, now);
    var s := WithDefaults(t, now).(mac := g.mac);
    GeneratedIs(m, t, provider, requestMac, timersOnly, now);
    PackedIs(m);
    MacFits(s, RRLen(ToRR(s), 0, NoSeen).len);
    var tr := PackRR(ToRR(s), 0, RRLen(ToRR(s), 0, NoSeen).len, NoIndex, false);
    var out := Outgoing(m);
    var compress := m.compress && IsCompressible(m);
    var x := if compress then Index(map[]) else NoIndex;
    var body := PackSections(out, HEADER_SIZE, Capacity(out, 0), x, compress).out;
    assert PackMsg(m, 0).octets[HEADER_SIZE..] == body == Body(m);
    var h := m.hdr.(id := t.origId);
    SetIdIs(m.hdr, |m.question|, |m.answer|, |m.ns|, |m.extra|, body, t.origId);
    SetArcountIs(h, |m.question|, |m.answer|, |m.ns|, |m.extra|, body, |m.extra| + 1);
    var head := HeaderOctets(h, |m.question|, |m.answer|, |m.ns|, |m.extra| + 1);
    SetExtendedGood(m.extra, m.hdr.rcode);
    EmptyMapInv(head, compress);
    SectionsRoundTrip(out, head, tr.out, Capacity(out, 0), x, compress);
    TsigRRGood(s);
    var cap := |head + body| + |tr.out|;
    RRPlain(ToRR(s), 0, RRLen(ToRR(s), 0, NoSeen).len, |head + body|, cap);
    EmptyMapInv(head + body, false);
    RRRoundTrip(ToRR(s), head + body, [], cap, NoIndex, false);
    assert head + body + tr.out + [] == head + body + tr.out;
    TsigRRNormal(s);
  }

  lemma {:induction false} SignedMacFits(m: Msg, t: Signature, provider: Provider, requestMac: seq<byte>,
                                         timersOnly: bool, now: uint48)
    requires Signable(m, t) && Generate(m, t, provider, requestMac, timersOnly, now).Signed?
    ensures |Generate(m, t, provider, requestMac, timersOnly, now).mac| <= 0xFFFF
  {
    hide Generate, Signable, PackMsg, PackRR, RRLen, ToRR, TsigBuffer;
    GeneratedIs(m, t, provider, requestMac, timersOnly, now);
    var s := WithDefaults(t, now).(mac := Generate(m, t, provider, requestMac, timersOnly, now).mac);
    MacFits(s, RRLen(ToRR(s), 0, NoSeen).len);
  }

  /**
   * Stripping undoes attaching: the octets that come out are the packed message under its original
   * ID, and the signature is the one that was sent.
   */
  lemma {:induction false} StripUndoesAttach(m: Msg, t: Signature, provider: Provider, requestMac: seq<byte>,
                                             timersOnly: bool, now: uint48)
    requires Signable(m, t) && Generate(m, t, provider, requestMac, timersOnly, now).Signed?
    ensures PackMsg(m, 0).Sent? && |PackMsg(m, 0).octets| >= HEADER_SIZE
    ensures var g := Generate(m, t, provider, requestMac, timersOnly, now);
            StripTsig(g.octets) == Stripped(SetId(PackMsg(m, 0).octets, t.origId), WithDefaults(t, now).(mac := g.mac))
  {
    hide Generate, PackMsg, HeaderOctets, SetId, StripTsig, GoodQuestions, GoodRRs, OptIndex, SetExtended,
         SectionsRead, UnpackRR, ToRR, Portable, Normal, Body, TsigOctets;
    var g := Generate(m, t, provider, requestMac, timersOnly, now);
    var s := WithDefaults(t, now).(mac := g.mac);
    AttachedReads(m, t, provider, requestMac, timersOnly, now);
    var h := m.hdr.(id := t.origId);
    SetIdIs(m.hdr, |m.question|, |m.answer|, |m.ns|, |m.extra|, Body(m), t.origId);
    SetExtendedKeeps(m.extra, m.hdr.rcode);
    StripInPlace(m, h, Body(m), TsigOctets(s), Outgoing(m), s);
  }

  // ----- what the receiver unpacks -----

  lemma {:induction false} OneMore(n: nat, msg: seq<byte>, off: nat, rrs: seq<RR>, next: nat, rr: RR)
    requires UnpackRRs(n, msg, off) == Records(rrs, next) && |rrs| == n
    requires next < |msg| && UnpackRR(msg, next) == Record(rr, |msg|)
    ensures UnpackRRs(n + 1, msg, off) == Records(rrs + [rr], |msg|)
    decreases n
  {
    hide UnpackRR;
    if n == 0 {
      assert UnpackRRs(0, msg, |msg|) == Records([], |msg|);
      assert [rr] + [] == rrs + [rr];
    } else {
      var u := UnpackRR(msg, off);
      var rest := UnpackRRs(n - 1, msg, u.next);
      assert rrs == [u.rr] + rest.rrs;
      OneMore(n - 1, msg, u.next, rest.rrs, next, rr);
      assert [u.rr] + (rest.rrs + [rr]) == rrs + [rr];
    }
  }

  lemma {:induction false} TsigIsNoOpt(extra: seq<RR>, rr: RR, low: int)
    requires rr.rrtype == TYPE_TSIG
    ensures FullRcode(low, extra + [rr]) == FullRcode(low, extra)
  {
    var e := extra + [rr];
    assert e[..|e| - 1] == extra;
  }

  /** The message under the ID in its signature, with the signature as its last record. */
  function ReturnedSigned(m: Msg, s: Signature): Msg {
    var r := Returned(m);
    r.(hdr := r.hdr.(id := s.origId), extra := r.extra + [ToRR(s)])
  }

  /** A signed message reads as the message that was signed, the TSIG in last place. */
  lemma {:induction false} SignedMessageReturns(m: Msg, t: Signature, provider: Provider, requestMac: seq<byte>,
                                                timersOnly: bool, now: uint48)
    requires Signable(m, t) && Generate(m, t, provider, requestMac, timersOnly, now).Signed?
    ensures var g := Generate(m, t, provider, requestMac, timersOnly, now);
            UnpackMsg(g.octets) == Got(ReturnedSigned(m, WithDefaults(t, now).(mac := g.mac)))
  {
    hide Generate, PackMsg, HeaderOctets, GoodQuestions, GoodRRs, OptIndex, SetExtended, UnpackRR, UnpackRRs,
         UnpackQuestions, ToRR, Portable, Normal, Body, TsigOctets, NormalRRs, NormalQuestions, Bits, HdrOf, FullRcode;
    var g := Generate(m, t, provider, requestMac, timersOnly, now);
    var s := WithDefaults(t, now).(mac := g.mac);
    AttachedReads(m, t, provider, requestMac, timersOnly, now);
    var h := m.hdr.(id := t.origId);
    var msg := g.octets;
    var tail := Body(m) + TsigOctets(s);
    assert msg == HeaderOctets(h, |m.question|, |m.answer|, |m.ns|, |m.extra| + 1) + tail;
    HeaderReads(h, |m.question|, |m.answer|, |m.ns|, |m.extra| + 1, tail);
    BitsRoundTrip(h);
    RcodeReturns(m.extra, m.hdr.rcode);
    var q := UnpackQuestions(|m.question|, msg, HEADER_SIZE);
    var a := UnpackRRs(|m.answer|, msg, q.next);
    var n := UnpackRRs(|m.ns|, msg, a.next);
    var ex := NormalRRs(SetExtended(m.extra, m.hdr.rcode));
    OneMore(|m.extra|, msg, n.next, ex, HEADER_SIZE + |Body(m)|, ToRR(s));
    TsigType(s);
    TsigIsNoOpt(ex, ToRR(s), m.hdr.rcode % 16);
  }

  lemma TsigType(s: Signature)
    ensures ToRR(s).rrtype == TYPE_TSIG
  {
  }

  lemma SetIdTwice(msg: seq<byte>, id: uint16)
    requires |msg| >= HEADER_SIZE
    ensures SetId(SetId(msg, id), id) == SetId(msg, id)
  {
  }

  /**
   * The verdict on a signed message, whatever MAC and flag the receiver holds: it authenticates the
   * message as packed, with the signer's variables, behind its own request MAC.
   */
  lemma {:induction false} VerdictIs(m: Msg, t: Signature, provider: Provider, requestMac: seq<byte>, timersOnly: bool,
                                     now: uint48, requestMac': seq<byte>, timersOnly': bool, now': uint48)
    requires Signable(m, t) && Generate(m, t, provider, requestMac, timersOnly, now).Signed?
    requires WithDefaults(t, now).timeSigned != 0
    ensures PackMsg(m, 0).Sent? && |PackMsg(m, 0).octets| >= HEADER_SIZE
    ensures var g := Generate(m, t, provider, requestMac, timersOnly, now);
            var d := WithDefaults(t, now);
            Verify(g.octets, provider, requestMac', timersOnly', now') ==
            match TsigBuffer(PackMsg(m, 0).octets, d, requestMac', timersOnly')
            case None => Invalid(ErrMessage)
            case Some(buf) =>
              if provider(d.name, d.algorithm, buf) != Some(g.mac) then Invalid(ErrSig)
              else if Distance(now', d.timeSigned) > d.fudge then Invalid(ErrTime)
              else Valid
  {
    hide Generate, PackMsg, StripTsig, Signable, MacPrefix, PackFields, VariableFields, SetId;
    var g := Generate(m, t, provider, requestMac, timersOnly, now);
    var d := WithDefaults(t, now);
    StripUndoesAttach(m, t, provider, requestMac, timersOnly, now);
    SetIdTwice(PackMsg(m, 0).octets, t.origId);
    SameVariables(d, g.mac, timersOnly');
  }

  /**
   * An honest message verifies: the receiver authenticates byte for byte what the sender did, so
   * the only thing left to go wrong is the clock.
   */
  lemma {:induction false} HonestMessageVerifies(m: Msg, t: Signature, provider: Provider, requestMac: seq<byte>,
                                                 timersOnly: bool, now: uint48, now': uint48)
    requires Signable(m, t) && Generate(m, t, provider, requestMac, timersOnly, now).Signed?
    requires WithDefaults(t, now).timeSigned != 0
    ensures var g := Generate(m, t, provider, requestMac, timersOnly, now);
            var d := WithDefaults(t, now);
            Verify(g.octets, provider, requestMac, timersOnly, now') ==
            if Distance(now', d.timeSigned) > d.fudge then Invalid(ErrTime) else Valid
  {
    hide Generate, PackMsg, PackRR, RRLen, Verify, Signable, TsigBuffer;
    GeneratedIs(m, t, provider, requestMac, timersOnly, now);
    VerdictIs(m, t, provider, requestMac, timersOnly, now, requestMac, timersOnly, now');
  }

  /** The MAC itself is not among the variables. */
  lemma SameVariables(d: Signature, mac: seq<byte>, timersOnly: bool)
    ensures VariableFields(d.(mac := mac), timersOnly) == VariableFields(d, timersOnly)
  {
  }
}
