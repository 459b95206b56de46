/**
 * Requests written by a client that has been used before. The server always verifies a request with
 * the full variables and no request MAC; the client signs it under the chain it happens to hold.
 */
module TransferReuse {
  import opened Octets
  import opened Wrappers
  import opened Presentation
  import opened NamePack
  import opened Compression
  import opened CanonicalForm
  import opened Records
  import opened Message
  import opened MessageRoundTrip
  import opened Tsig
  import opened TsigRoundTrip
  import opened ExactSizes
  import opened TsigProgress
  import opened Transfer
  import opened Acceptance
  import opened TransferTsig
  import opened TransferProgress

  // ----- the two buffers -----

  lemma {:induction false} FieldsConcat(a: seq<Field>, b: seq<Field>, off: nat, cap: nat, x: Index)
    requires PackFields(a + b, off, cap, x, false).Packed?
    ensures var r := PackFields(a, off, cap, x, false);
            && r.Packed? && PackFields(b, off + |r.out|, cap, r.index, false).Packed?
            && PackFields(a + b, off, cap, x, false).out ==
                 r.out + PackFields(b, off + |r.out|, cap, r.index, false).out
    decreases |a|
  {
    hide PackField;
    if a == [] {
      assert a + b == b;
    } else {
      assert (a + b)[1..] == a[1..] + b;
      var o := PackField(a[0], off, cap, x, false);
      FieldsConcat(a[1..], b, off + |o.out|, cap, o.index);
      var r := PackFields(a[1..], off + |o.out|, cap, o.index, false);
      var q := PackFields(b, off + |o.out| + |r.out|, cap, r.index, false);
      assert o.out + (r.out + q.out) == (o.out + r.out) + q.out;
    }
  }

  lemma RawPacks(d: seq<byte>, off: nat, cap: nat, x: Index)
    requires PackFields([Raw(d)], off, cap, x, false).Packed?
    ensures PackFields([Raw(d)], off, cap, x, false).out == d
  {
    assert [Raw(d)][1..] == [];
  }

  /** The last two octets of a buffer, or zeros. */
  function Ending(b: seq<byte>): seq<byte> {
    if |b| < 2 then [0, 0] else b[|b| - 2..]
  }

  lemma EndingBehind(a: seq<byte>, b: seq<byte>)
    requires |b| >= 2
    ensures Ending(a + b) == Ending(b)
  {
  }

  /** The variables end in the fudge when only the timers count, and otherwise in the empty length of the other data. */
  lemma {:induction false} VariablesEnd(t: Signature, timersOnly: bool)
    requires t.other == [] && PackFields(VariableFields(t, timersOnly), 0, VARIABLES_SIZE, NoIndex, false).Packed?
    ensures var v := PackFields(VariableFields(t, timersOnly), 0, VARIABLES_SIZE, NoIndex, false).out;
            |v| >= 2 && Ending(v) == if timersOnly then PutU16(t.fudge) else [0, 0]
  {
    hide PackFields, PutU48, PutU32, PutU16, CanonicalName, Ending;
    if timersOnly {
      var fs := [Raw(PutU48(t.timeSigned))];
      assert VariableFields(t, true) == fs + [Raw(PutU16(t.fudge))];
      LastField(fs, PutU16(t.fudge));
    } else {
      NoOtherData();
      var fs := [NameField(CanonicalName(t.name), false), Raw(PutU16(CLASS_ANY)), Raw(PutU32(t.ttl)),
                 NameField(CanonicalName(t.algorithm), false), Raw(PutU48(t.timeSigned)), Raw(PutU16(t.fudge)),
                 Raw(PutU16(t.error))];
      var front := fs + [Raw([0, 0])];
      assert VariableFields(t, false) == front + [Raw([])];
      EmptyField(front);
      LastField(fs, [0, 0]);
    }
  }

  lemma NoOtherData()
    ensures PutU16(0) == [0, 0]
  {
  }

  lemma {:induction false} EmptyField(fs: seq<Field>)
    requires PackFields(fs + [Raw([])], 0, VARIABLES_SIZE, NoIndex, false).Packed?
    ensures PackFields(fs, 0, VARIABLES_SIZE, NoIndex, false).Packed?
    ensures PackFields(fs + [Raw([])], 0, VARIABLES_SIZE, NoIndex, false).out ==
            PackFields(fs, 0, VARIABLES_SIZE, NoIndex, false).out
  {
    hide PackFields;
    FieldsConcat(fs, [Raw([])], 0, VARIABLES_SIZE, NoIndex);
    var r := PackFields(fs, 0, VARIABLES_SIZE, NoIndex, false);
    RawPacks([], |r.out|, VARIABLES_SIZE, r.index);
    assert r.out + [] == r.out;
  }

  lemma {:induction false} LastField(fs: seq<Field>, d: seq<byte>)
    requires |d| == 2 && PackFields(fs + [Raw(d)], 0, VARIABLES_SIZE, NoIndex, false).Packed?
    ensures var v := PackFields(fs + [Raw(d)], 0, VARIABLES_SIZE, NoIndex, false).out; |v| >= 2 && Ending(v) == d
  {
    hide PackFields;
    FieldsConcat(fs, [Raw(d)], 0, VARIABLES_SIZE, NoIndex);
    var r := PackFields(fs, 0, VARIABLES_SIZE, NoIndex, false);
    RawPacks(d, |r.out|, VARIABLES_SIZE, r.index);
  }

  /** What a chain's owner authenticates of a packed message ends as its variables do. */
  lemma {:induction false} BufferEnds(octets: seq<byte>, d: Signature, c: Chain)
    requires |octets| >= HEADER_SIZE && d.other == [] && TsigBuffer(octets, d, c.mac, c.timersOnly).Some?
    ensures Ending(TsigBuffer(octets, d, c.mac, c.timersOnly).value) == if c.timersOnly then PutU16(d.fudge) else [0, 0]
  {
    hide PackFields, VariableFields, SetId;
    VariablesEnd(d, c.timersOnly);
    var v := PackFields(VariableFields(d, c.timersOnly), 0, VARIABLES_SIZE, NoIndex, false).out;
    EndingBehind(MacPrefix(c.mac).value + SetId(octets, d.origId), v);
  }

  /** The client authenticates what the server will rebuild exactly when its chain is fresh. */
  lemma {:induction false} BuffersAgreeExactly(octets: seq<byte>, d: Signature, c: Chain)
    requires |octets| >= HEADER_SIZE && d.other == [] && d.fudge != 0
    requires TsigBuffer(octets, d, c.mac, c.timersOnly).Some? && TsigBuffer(octets, d, [], false).Some?
    ensures TsigBuffer(octets, d, c.mac, c.timersOnly) == TsigBuffer(octets, d, [], false) <==> c == Chain([], false)
  {
    hide PackFields, VariableFields, SetId, Ending;
    BufferEnds(octets, d, c);
    BufferEnds(octets, d, Chain([], false));
    FudgeShows(d.fudge);
    if !c.timersOnly && c.mac != [] {
      var b, b0 := TsigBuffer(octets, d, c.mac, false).value, TsigBuffer(octets, d, [], false).value;
      assert |b| > |b0|;
    }
  }

  lemma FudgeShows(fudge: uint16)
    requires fudge != 0
    ensures PutU16(fudge) != [0, 0]
  {
    assert fudge == fudge / 256 * 256 + fudge % 256;
  }

  // ----- the verdict -----

  /** What the server rebuilds from a request. */
  function ServerBuffer(m: Msg, d: Signature): Option<seq<byte>> {
    match PackMsg(m, 0)
    case Refused(_) => None
    case Sent(o) => TsigBuffer(o, d, [], false)
  }

  /**
   * The server's verdict on a request written in time under any chain: it is accepted exactly when
   * the provider's MAC for the fresh chain's buffer is the one the client sent.
   */
  lemma {:induction false} RequestVerdict(m: Msg, t: Signature, p: Provider, c: Chain, now: uint48, now': uint48,
                                          before: Chain)
    requires Signable(m, t) && t.mac == [] && WithDefaults(t, now).timeSigned != 0
    requires Distance(now', WithDefaults(t, now).timeSigned) <= WithDefaults(t, now).fudge
    requires WriteMsg(WithTsig(m, t), Some(p), c, now).out.Some?
    ensures var w := WriteMsg(WithTsig(m, t), Some(p), c, now);
            var d := WithDefaults(t, now);
            var sv := Serve(w.out.value, Some(p), before, now');
            && (sv.Served? <==> Acceptable(WithTsig(m, t)))
            && (sv.Served? ==>
                && sv.chain == Chain(w.chain.mac, false)
                && sv.status ==
                   match ServerBuffer(m, d)
                   case None => Some(ErrMessage)
                   case Some(b) => if p(d.name, d.algorithm, b) == Some(w.chain.mac) then None else Some(ErrSig))
  {
    hide Generate, UnpackMsg, Verify, Serve, ActionOn, Acceptable, Signable, ReturnedSigned, ToRR, FromRR, PackMsg,
         TsigBuffer;
    StubSeen(m, t);
    var g := Generate(m, t, p, c.mac, c.timersOnly, now);
    var s := WithDefaults(t, now).(mac := g.mac);
    SignedMessageReturns(m, t, p, c.mac, c.timersOnly, now);
    VerdictIs(m, t, p, c.mac, c.timersOnly, now, [], false, now');
    SignedMacFits(m, t, p, c.mac, c.timersOnly, now);
    SignatureSeen(m, s, t);
    WrittenAccepted(m, t, p, c, now);
    ServedIs(g.octets, ReturnedSigned(m, s), s, p, before, now');
  }

  lemma ServedIs(octets: seq<byte>, req: Msg, s: Signature, p: Provider, before: Chain, now': uint48)
    requires |octets| >= HEADER_SIZE && UnpackMsg(octets) == Got(req) && IsTsig(req) == Some(s)
    ensures var v := Verify(octets, p, [], false, now');
            Serve(octets, Some(p), before, now') ==
            if ActionOn(octets) != Accept then Rejected
            else Served(req, if v.Valid? then None else Some(v.error), Chain(s.mac, false))
  {
    hide UnpackMsg, ActionOn, Verify, FromRR;
  }

  /** MACs of different buffers differ. */
  ghost predicate Distinguishes(p: Provider, name: Text, algorithm: Text) {
    forall a, b :: p(name, algorithm, a).Some? && p(name, algorithm, a) == p(name, algorithm, b) ==> a == b
  }

  /** The MAC sent is the provider's answer for the client's own buffer. */
  lemma {:induction false} WrittenMac(m: Msg, t: Signature, p: Provider, c: Chain, now: uint48)
    requires Signable(m, t) && t.mac == [] && WriteMsg(WithTsig(m, t), Some(p), c, now).out.Some?
    ensures PackMsg(m, 0).Sent? && |PackMsg(m, 0).octets| >= HEADER_SIZE
    ensures var d := WithDefaults(t, now);
            var b := TsigBuffer(PackMsg(m, 0).octets, d, c.mac, c.timersOnly);
            b.Some? && p(d.name, d.algorithm, b.value) == Some(WriteMsg(WithTsig(m, t), Some(p), c, now).chain.mac)
  {
    hide Generate, GoodMsg, Carriable, ToRR, FromRR, PackMsg, TsigBuffer, PackRR, RRLen;
    StubSeen(m, t);
    GeneratedIs(m, t, p, c.mac, c.timersOnly, now);
  }

  /**
   * With MACs that tell buffers apart, whatever the signature holds: a request that the server hands
   * on is authentic exactly when the client authenticated the octets that the server rebuilds.
   */
  lemma {:induction false} AuthenticExactly(m: Msg, t: Signature, p: Provider, c: Chain, now: uint48, now': uint48,
                                            before: Chain)
    requires Signable(m, t) && t.mac == [] && WithDefaults(t, now).timeSigned != 0
    requires Distance(now', WithDefaults(t, now).timeSigned) <= WithDefaults(t, now).fudge
    requires WriteMsg(WithTsig(m, t), Some(p), c, now).out.Some? && Distinguishes(p, t.name, t.algorithm)
    ensures PackMsg(m, 0).Sent? && |PackMsg(m, 0).octets| >= HEADER_SIZE
    ensures var d, o := WithDefaults(t, now), PackMsg(m, 0).octets;
            var sv := Serve(WriteMsg(WithTsig(m, t), Some(p), c, now).out.value, Some(p), before, now');
            sv.Served? && sv.status.None? <==>
            Acceptable(WithTsig(m, t)) && TsigBuffer(o, d, c.mac, c.timersOnly) == TsigBuffer(o, d, [], false)
  {
    hide WriteMsg, Serve, Acceptable, GoodMsg, PackMsg, TsigBuffer, Portable, Normal;
    RequestVerdict(m, t, p, c, now, now', before);
    WrittenMac(m, t, p, c, now);
  }

  /**
   * A transfer object is for one transfer: with MACs that tell buffers apart, a request that the
   * server hands on, signed as `SetTsig` leaves it, is authentic exactly when the client's chain is
   * fresh.
   */
  lemma {:induction false} AcceptedExactly(m: Msg, t: Signature, p: Provider, c: Chain, now: uint48, now': uint48,
                                           before: Chain)
    requires Signable(m, t) && t.mac == [] && t.other == [] && WithDefaults(t, now).timeSigned != 0
    requires Distance(now', WithDefaults(t, now).timeSigned) <= WithDefaults(t, now).fudge
    requires WriteMsg(WithTsig(m, t), Some(p), c, now).out.Some? && Distinguishes(p, t.name, t.algorithm)
    ensures var sv := Serve(WriteMsg(WithTsig(m, t), Some(p), c, now).out.value, Some(p), before, now');
            sv.Served? && sv.status.None? <==> Acceptable(WithTsig(m, t)) && c == Chain([], false)
  {
    hide WriteMsg, Serve, Acceptable, GoodMsg, PackMsg, TsigBuffer, Portable, Normal;
    var d := WithDefaults(t, now);
    AuthenticExactly(m, t, p, c, now, now', before);
    WrittenMac(m, t, p, c, now);
    ServerBufferExists(PackMsg(m, 0).octets, d);
    BuffersAgreeExactly(PackMsg(m, 0).octets, d, c);
  }

  lemma {:induction false} ServerBufferExists(octets: seq<byte>, d: Signature)
    requires |octets| >= HEADER_SIZE && d.other == [] && Portable(d.name) && Portable(d.algorithm)
    ensures TsigBuffer(octets, d, [], false).Some?
  {
    hide PackFields, VariableFields, Portable, NameSize;
    PortableSize(d.name);
    PortableSize(d.algorithm);
    PortableIsNameable(d.name);
    PortableIsNameable(d.algorithm);
    VariablesPackExactly(d, false);
  }

  // ----- a used client -----

  /** Once a receiver has handed on a message of a running transfer, the flag stays set. */
  lemma {:induction false} FlagStays(qid: uint16, r: Receiver, arrivals: seq<Arrival>, tp: Option<Provider>, c: Chain)
    requires c.timersOnly || (arrivals != [] && Decide(qid, r, ReadMsg(arrivals[0], tp, c).reply).timers)
    ensures Receive(qid, r, arrivals, tp, c).final.timersOnly
    decreases |arrivals|
  {
    hide Decide, ReadMsg;
    if arrivals != [] {
      ReadKeepsFlag(arrivals[0], tp, c);
      var x := ReadMsg(arrivals[0], tp, c);
      var d := Decide(qid, r, x.reply);
      if !d.stop {
        FlagStays(qid, d.next, arrivals[1..], tp, AfterDecision(d, x.chain));
      }
    }
  }

  lemma ReadKeepsFlag(a: Arrival, tp: Option<Provider>, c: Chain)
    ensures ReadMsg(a, tp, c).chain.timersOnly == c.timersOnly
  {
    hide UnpackMsg, Verify, FromRR;
  }

  /** A client that has handed on a first clean AXFR message holds a chain with the flag set. */
  lemma {:induction false} UsedClient(qid: uint16, arrivals: seq<Arrival>, tp: Option<Provider>, c: Chain)
    requires Receive(qid, Axfr(true), arrivals, tp, c).outcome.envs != []
    requires Receive(qid, Axfr(true), arrivals, tp, c).outcome.envs[0].error.None?
    ensures Receive(qid, Axfr(true), arrivals, tp, c).final.timersOnly
  {
    hide ReadMsg;
    FlagStays(qid, Axfr(true), arrivals, tp, c);
  }

  // ----- a witness -----

  /** A provider with MACs of two octets that looks only at how a buffer ends. */
  const EndMac: Provider := (name, algorithm, buf) => Some(if Ending(buf) == [0, 0] then [1, 1] else [2, 2])

  /**
   * For every zone and key: a used client, whatever MAC of other than one octet it holds, writes its
   * next request, and a server with this provider refuses it.
   */
  lemma {:induction false} UsedClientRefused(id: uint16, zone: Text, key: Text, algorithm: Text, fudge: uint16,
                                             mac: seq<byte>, now: uint48, now': uint48, before: Chain)
    requires Portable(zone) && Portable(key) && Portable(algorithm) && Normal(key) == key
    requires Normal(algorithm) == algorithm
    requires |mac| != 1 && now != 0 && Distance(now', now) <= if fudge == 0 then 300 else fudge
    ensures var t := StubFor(Signature(key, 0, 0, algorithm, 0, fudge, [], 0, 0, []), id, now);
            var w := WriteMsg(WithTsig(AxfrQuery(id, zone), t), Some(EndMac), Chain(mac, true), now);
            && w.out.Some?
            && var sv := Serve(w.out.value, Some(EndMac), before, now');
               sv.Served? && sv.status == Some(ErrSig)
  {
    hide WriteMsg, Serve, PackMsg, TsigBuffer, Portable, Normal, NameSize, Signable, GoodMsg, WithTsig, AxfrQuery,
         Ending;
    var t := StubFor(Signature(key, 0, 0, algorithm, 0, fudge, [], 0, 0, []), id, now);
    var m, c, d := AxfrQuery(id, zone), Chain(mac, true), WithDefaults(t, now);
    AxfrQuerySignable(id, zone, key, algorithm, fudge, now);
    AxfrQueryPacks(id, zone);
    PortableSize(key);
    PortableSize(algorithm);
    assert Signer(EndMac, t.name, t.algorithm, 2);
    WriteSized(m, t, EndMac, 2, c, now);
    RequestVerdict(m, t, EndMac, c, now, now', before);
    WrittenMac(m, t, EndMac, c, now);
    var octets := PackMsg(m, 0).octets;
    ServerBufferExists(octets, d);
    BufferEnds(octets, d, c);
    BufferEnds(octets, d, Chain([], false));
    FudgeShows(d.fudge);
  }
}
