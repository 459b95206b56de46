/** A signed transfer runs to its end: nothing in it can fail but the clocks. */
module TransferProgress {
  import opened Octets
  import opened Wrappers
  import opened Presentation
  import opened Compression
  import opened Records
  import opened Message
  import opened MessageRoundTrip
  import opened MessageLength
  import opened Tsig
  import opened TsigRoundTrip
  import opened ExactSizes
  import opened TsigProgress
  import opened TsigEdges
  import opened NameLength
  import opened Qualified
  import opened Transfer
  import opened Acceptance
  import opened TransferTsig
  import opened TransferDelivery

  // ----- the request -----

  const TYPE_AXFR: uint16 := 252
  const CLASS_IN: uint16 := 1

  /** `SetAxfr`. */
  function AxfrQuery(id: uint16, zone: Text): Msg {
    Msg(MsgHdr(id, false, 0, false, false, false, false, false, false, false, 0), false,
        [Question(zone, TYPE_AXFR, CLASS_IN)], [], [], [])
  }

  /** A transfer request can be signed, for every zone and key that can be named. */
  lemma {:induction false} AxfrQuerySignable(id: uint16, zone: Text, key: Text, algorithm: Text, fudge: uint16,
                                             now: uint48)
    requires Portable(zone) && Portable(key) && Portable(algorithm) && Normal(key) == key
    requires Normal(algorithm) == algorithm
    ensures var q := AxfrQuery(id, zone);
            var t := StubFor(Signature(key, 0, 0, algorithm, 0, fudge, [], 0, 0, []), id, now);
            Signable(q, t) && Acceptable(WithTsig(q, t))
  {
    hide Portable, Normal;
  }

  /** It packs into at most 271 octets. */
  lemma {:induction false} AxfrQueryPacks(id: uint16, zone: Text)
    requires Portable(zone)
    ensures var r := PackMsg(AxfrQuery(id, zone), 0); r.Sent? && |r.octets| <= 271
  {
    hide Portable, PackMsg, NameLen, FullyQualified;
    var q := AxfrQuery(id, zone);
    PackSucceeds(q, 0);
    PortableIsQualified(zone);
    PortableIsNameable(zone);
    LenCoversPack(q, 0);
    NameLenIs(zone, HEADER_SIZE, true);
    PortableSize(zone);
    assert q.question[1..] == [];
    assert QuestionsLen([], HEADER_SIZE + NameSize(zone) + 4, NoSeen) ==
        Sized(HEADER_SIZE + NameSize(zone) + 4, NoSeen);
    assert QuestionsLen(q.question, HEADER_SIZE, NoSeen) == Sized(HEADER_SIZE + NameSize(zone) + 4, NoSeen);
    assert RRsLen([], HEADER_SIZE + NameSize(zone) + 4, NoSeen) == Sized(HEADER_SIZE + NameSize(zone) + 4, NoSeen);
    assert Len(q) == HEADER_SIZE + NameSize(zone) + 4;
  }

  lemma PortableSize(s: Text)
    requires Portable(s)
    ensures NameSize(s) <= 255
  {
  }

  // ----- writing -----

  /**
   * Exactly when a signed message is written, for any provider: it packs, the chain's MAC is not of
   * one octet, the variables fit, the provider answers, and there is room for the record.
   */
  lemma {:induction false} WriteExactly(m: Msg, t: Signature, p: Provider, c: Chain, now: uint48)
    requires Signable(m, t) && t.mac == []
    ensures var w, mac := WriteMsg(WithTsig(m, t), Some(p), c, now), Answer(m, t, p, c.mac, c.timersOnly, now);
            && (w.out.Some? <==> PackMsg(m, 0).Sent? && |c.mac| != 1 && VariableSize(t, c.timersOnly) <= 4096
                                 && mac.Some? && |PackMsg(m, 0).octets| + Overhead(t, |mac.value|) <= 65535)
            && (w.out.Some? ==> w.chain == c.(mac := mac.value))
  {
    hide Generate, GoodMsg, Answer, PackMsg, ToRR, FromRR, Normal, VariableSize, NameSize, IsFqdn, EndsInDot,
         GoodLabels, NameLabels, WireLen;
    StubSeen(m, t);
    GenerateExactly(m, t, p, c.mac, c.timersOnly, now);
  }

  /** With a provider whose MACs have one length, the condition does not mention its answer. */
  lemma {:induction false} WriteSized(m: Msg, t: Signature, p: Provider, n: nat, c: Chain, now: uint48)
    requires Signable(m, t) && t.mac == [] && Signer(p, t.name, t.algorithm, n)
    ensures var w := WriteMsg(WithTsig(m, t), Some(p), c, now);
            && (w.out.Some? <==> PackMsg(m, 0).Sent? && |c.mac| != 1 && VariableSize(t, c.timersOnly) <= 4096
                                 && |PackMsg(m, 0).octets| + Overhead(t, n) <= 65535)
            && (w.out.Some? ==> |w.chain.mac| == n && w.chain.timersOnly == c.timersOnly)
  {
    hide WriteMsg, WithTsig, GoodMsg, Answer, Signer, PackMsg, Normal, VariableSize, NameSize, IsFqdn, EndsInDot,
         GoodLabels, NameLabels, WireLen;
    WriteExactly(m, t, p, c, now);
    if PackMsg(m, 0).Sent? && |c.mac| != 1 && VariableSize(t, c.timersOnly) <= VARIABLES_SIZE {
      AnswerOf(m, t, p, n, c.mac, c.timersOnly, now);
    }
  }

  /** A chain whose last MAC has one octet is stuck: nothing more is written, and the MAC is lost. */
  lemma {:induction false} OneOctetChain(q: Msg, xs: seq<Parcel>, p: Provider, c: Chain)
    requires |c.mac| == 1 && IsTsig(q).Some? && xs != []
    ensures OutAll(q, None, xs, Some(p), c) == Sending([], [c], false, Chain([], c.timersOnly))
  {
    hide Generate, FromRR, PackMsg, ToRR, ReplyTo, StubFor, OutAll;
    var t := StubFor(IsTsig(q).value, ReplyTo(q, xs[0].rrs).hdr.id, xs[0].now);
    var m := OutMsg(q, None, xs[0]);
    StubIsLast(ReplyTo(q, xs[0].rrs), t);
    OneOctetMac(WithoutTsig(m), IsTsig(m).value, [], p, c.mac, c.timersOnly, xs[0].now);
    OutStops(q, xs, p, c);
  }

  lemma StubIsLast(m: Msg, t: Signature)
    ensures IsTsig(WithTsig(m, t)).Some?
  {
  }

  lemma OutStops(q: Msg, xs: seq<Parcel>, p: Provider, c: Chain)
    requires xs != [] && WriteMsg(OutMsg(q, None, xs[0]), Some(p), c, xs[0].now).out.None?
    ensures OutAll(q, None, xs, Some(p), c) ==
            Sending([], [c], false, WriteMsg(OutMsg(q, None, xs[0]), Some(p), c, xs[0].now).chain)
  {
    hide WriteMsg, OutMsg;
  }

  /** Nor does the other side accept anything behind such a MAC. */
  lemma {:induction false} OneOctetRead(a: Arrival, p: Provider, c: Chain)
    requires |c.mac| == 1
    ensures ReadMsg(a, Some(p), c).reply.Broken?
  {
    hide UnpackMsg, Verify, FromRR;
    if a.Arrival? {
      OneOctetMac(Msg(MsgHdr(0, false, 0, false, false, false, false, false, false, false, 0), false, [], [], [], []),
                  NoSignature, a.octets, p, c.mac, c.timersOnly, a.now);
    }
  }

  // ----- the replies -----

  /** The reply for an envelope packs and leaves room for a signature with a MAC of `n` octets. */
  predicate Fits(q: Msg, ts: Signature, n: nat, rrs: seq<RR>) {
    var r := PackMsg(ReplyTo(q, rrs), 0);
    r.Sent? && |r.octets| + NameSize(ts.name) + NameSize(ts.algorithm) + 26 + n <= MAX_MSG_SIZE
  }

  predicate AllFit(q: Msg, ts: Signature, n: nat, xs: seq<Parcel>) {
    forall i :: 0 <= i < |xs| ==> Fits(q, ts, n, xs[i].rrs)
  }

  /** The reply for one envelope is written exactly when it fits and the chain's MAC is not of one octet. */
  lemma {:induction false} ReplyExactly(q: Msg, ts: Signature, p: Provider, n: nat, x: Parcel, c: Chain)
    requires GoodRequest(q, ts) && GoodRRs(x.rrs) && |x.rrs| <= 0xFFFF && Signer(p, ts.name, ts.algorithm, n)
    ensures var w := WriteMsg(OutMsg(q, None, x), Some(p), c, x.now);
            && (w.out.Some? <==> |c.mac| != 1 && Fits(q, ts, n, x.rrs))
            && (w.out.Some? ==> |w.chain.mac| == n)
  {
    hide WriteMsg, GoodRRs, PackMsg, ReplyTo, Signer, Signable, OutMsg, WithTsig, Portable, Normal, NameSize, FromRR;
    ReplySignable(q, ts, x);
    OutMsgIs(q, ts, x);
    PortableSize(ts.name);
    PortableSize(ts.algorithm);
    WriteSized(ReplyTo(q, x.rrs), StubFor(ts, q.hdr.id, x.now), p, n, c, x.now);
  }

  /**
   * Exactly when all envelopes are written: every reply fits, and no reply has to be signed behind
   * a MAC of one octet, be it the request's or the provider's own.
   */
  lemma {:induction false} OutExactly(q: Msg, ts: Signature, p: Provider, n: nat, xs: seq<Parcel>, c: Chain)
    requires GoodRequest(q, ts) && GoodParcels(xs) && Signer(p, ts.name, ts.algorithm, n)
    ensures OutAll(q, None, xs, Some(p), c).ok <==>
            AllFit(q, ts, n, xs) && (xs != [] ==> |c.mac| != 1) && (|xs| > 1 ==> n != 1)
    decreases |xs|
  {
    hide WriteMsg, GoodRequest, GoodRRs, Signer, OutMsg, Fits;
    if xs != [] {
      ReplyExactly(q, ts, p, n, xs[0], c);
      var w := WriteMsg(OutMsg(q, None, xs[0]), Some(p), c, xs[0].now);
      if w.out.Some? {
        OutExactly(q, ts, p, n, xs[1..], w.chain.(timersOnly := true));
        AllFitFront(q, ts, n, xs);
      }
    }
  }

  lemma AllFitFront(q: Msg, ts: Signature, n: nat, xs: seq<Parcel>)
    requires xs != []
    ensures AllFit(q, ts, n, xs) <==> Fits(q, ts, n, xs[0].rrs) && AllFit(q, ts, n, xs[1..])
  {
    hide Fits;
    assert forall i :: 0 <= i < |xs| - 1 ==> xs[1..][i] == xs[i + 1];
    if Fits(q, ts, n, xs[0].rrs) && AllFit(q, ts, n, xs[1..]) {
      forall i | 0 <= i < |xs| ensures Fits(q, ts, n, xs[i].rrs) {
        if i > 0 {
          assert xs[1..][i - 1] == xs[i];
        }
      }
    }
  }

  lemma {:induction false} SameFit(m: Msg, s: Signature, t: Signature, n: nat, xs: seq<Parcel>)
    requires s.origId == m.hdr.id && s.name == t.name && s.algorithm == t.algorithm && AllFit(Returned(m), t, n, xs)
    ensures AllFit(ReturnedSigned(m, s), s, n, xs)
  {
    hide PackMsg, ReplyTo, ReturnedSigned, Returned, NameSize;
    forall i | 0 <= i < |xs| ensures Fits(ReturnedSigned(m, s), s, n, xs[i].rrs) {
      assert Fits(Returned(m), t, n, xs[i].rrs);
      SameReplies(m, s, xs[i].rrs);
    }
  }

  lemma SameReplies(m: Msg, s: Signature, rrs: seq<RR>)
    requires s.origId == m.hdr.id
    ensures ReplyTo(ReturnedSigned(m, s), rrs) == ReplyTo(Returned(m), rrs)
  {
  }

  /**
   * The whole signed transfer, with nothing assumed to succeed: given a provider that answers with
   * MACs of any length but one, a request and replies that pack and leave room for a signature, and
   * clocks within the fudge, the request is signed and accepted, every reply is signed and accepted,
   * the chains agree before every message, and the client hands on exactly the records of the stream
   * and stops at its closing SOA.
   */
  lemma {:induction false} SignedTransferCompletes(
    m: Msg, t: Signature, p: Provider, n: nat, now: uint48, now': uint48, before: Chain,
    r: Receiver, xs: seq<Parcel>, ds: seq<Diff>, times: seq<uint48>)
    requires Signable(m, t) && t.mac == [] && t.origId == m.hdr.id && WithDefaults(t, now).timeSigned != 0
    requires Signer(p, t.name, t.algorithm, n) && n != 1 && Acceptable(WithTsig(m, t))
    requires PackMsg(m, 0).Sent? && VariableSize(t, false) <= VARIABLES_SIZE
    requires |PackMsg(m, 0).octets| + Overhead(t, n) <= MAX_MSG_SIZE
    requires Distance(now', WithDefaults(t, now).timeSigned) <= WithDefaults(t, now).fudge
    requires Deliverable(r, Chunks(xs), ds) && GoodParcels(xs) && InTime(xs, times, WithDefaults(t, now).fudge)
    requires AllFit(Returned(m), t, n, xs)
    ensures var w := WriteMsg(WithTsig(m, t), Some(p), Chain([], false), now);
            && w.out.Some?
            && var sv := Serve(w.out.value, Some(p), before, now');
               && sv.Served? && sv.status.None? && sv.chain == w.chain
               && var o := OutAll(sv.req, sv.status, xs, Some(p), sv.chain);
                  && o.ok && |o.octets| == |xs|
                  && var s := Receive(m.hdr.id, r, Arrivals(o.octets, times), Some(p), w.chain);
                     && s.chains == o.chains
                     && s.outcome == Outcome(Clean(NormalChunks(Chunks(xs))), true)
  {
    hide WriteMsg, Serve, Acceptable, Signable, OutAll, Receive, Deliverable, GoodParcels, InTime, Arrivals,
         ReturnedSigned, Returned, GoodRequest, WithTsig, Chunks, NormalChunks, Clean, Signer, PackMsg, AllFit,
         VariableSize, Overhead;
    WriteSized(m, t, p, n, Chain([], false), now);
    var w := WriteMsg(WithTsig(m, t), Some(p), Chain([], false), now);
    var s := WithDefaults(t, now).(mac := w.chain.mac);
    RequestAccepted(m, t, p, now, now', before);
    SameFit(m, s, t, n, xs);
    OutExactly(ReturnedSigned(m, s), s, p, n, xs, w.chain);
    SignedTransferDelivers(m, t, p, now, now', before, r, xs, ds, times);
  }
}
