/**
 * TSIG through a whole zone transfer (section 5.3.1 of RFC 8945). Client and server each thread the
 * last MAC and a timers-only flag through an unbounded run of messages.
 */
module TransferTsig {
  import opened Octets
  import opened Wrappers
  import opened Presentation
  import opened Qualified
  import opened Compression
  import opened Records
  import opened Message
  import opened MessageRoundTrip
  import opened Tsig
  import opened TsigRoundTrip
  import opened Acceptance
  import opened Transfer

  const MAX_MSG_SIZE := 0xFFFF

  /** What one side carries from message to message. */
  datatype Chain = Chain(mac: seq<byte>, timersOnly: bool)

  // ----- one message -----

  /** `IsTsig`. */
  function IsTsig(m: Msg): Option<Signature> {
    if m.extra != [] && m.extra[|m.extra| - 1].rrtype == TYPE_TSIG then Some(FromRR(m.extra[|m.extra| - 1])) else None
  }

  function WithoutTsig(m: Msg): Msg
    requires m.extra != []
  {
    m.(extra := m.extra[..|m.extra| - 1])
  }

  function WithTsig(m: Msg, t: Signature): Msg {
    m.(extra := m.extra + [ToRR(t)])
  }

  datatype Writing = Writing(out: Option<seq<byte>>, chain: Chain)

  function IfFits(o: seq<byte>): Option<seq<byte>> {
    if |o| <= MAX_MSG_SIZE then Some(o) else None
  }

  /** `WriteMsg` of both sides: a failed signature also clears the MAC. */
  function WriteMsg(m: Msg, tp: Option<Provider>, c: Chain, now: uint48): Writing {
    match (IsTsig(m), tp)
    case (Some(t), Some(p)) =>
      (match Generate(WithoutTsig(m), t, p, c.mac, c.timersOnly, now)
       case Signed(o, mac) => Writing(IfFits(o), c.(mac := mac))
       case NotSigned => Writing(None, c.(mac := [])))
    case _ =>
      match PackMsg(m, 0)
      case Sent(o) => Writing(IfFits(o), c)
      case Refused(_) => Writing(None, c)
  }

  /** One read on the connection: the octets and the time, or nothing. */
  datatype Arrival = Arrival(octets: seq<byte>, now: uint48) | Closed

  datatype Reading = Reading(reply: Reply, chain: Chain)

  function NextMac(m: Msg, c: Chain): Chain {
    if IsTsig(m).Some? then c.(mac := IsTsig(m).value.mac) else c
  }

  /** `Transfer.ReadMsg`: the MAC moves on even when the signature is bad. */
  function ReadMsg(a: Arrival, tp: Option<Provider>, c: Chain): Reading {
    match a
    case Closed => Reading(Broken(ErrRead), c)
    case Arrival(o, now) =>
      match UnpackMsg(o)
      case BadMsg => Reading(Broken(ErrUnpack), c)
      case Got(m) =>
        match tp
        case None => Reading(Fine(m), c)
        case Some(p) =>
          Reading(if Verify(o, p, c.mac, c.timersOnly, now).Valid? then Fine(m) else Broken(ErrTsig), NextMac(m, c))
  }

  // ----- the server -----

  datatype Served = Served(req: Msg, status: Option<TsigError>, chain: Chain) | Rejected

  /** `serveDNS` up to the handler: the accept function, decoding, and TSIG. */
  function Serve(octets: seq<byte>, tp: Option<Provider>, c: Chain, now: uint48): Served {
    if |octets| < HEADER_SIZE || ActionOn(octets) != Accept then Rejected
    else match UnpackMsg(octets)
      case BadMsg => Rejected
      case Got(req) => ServeTsig(octets, req, tp, c, now)
  }

  /** The TSIG part of `serveDNS`. */
  function ServeTsig(octets: seq<byte>, req: Msg, tp: Option<Provider>, c: Chain, now: uint48): Served {
    if tp.None? || IsTsig(req).None? then Served(req, None, c)
    else
      var v := Verify(octets, tp.value, [], false, now);
      Served(req, if v.Valid? then None else Some(v.error), Chain(IsTsig(req).value.mac, false))
  }

  /** `SetReply` and the answer of one envelope. */
  function ReplyTo(q: Msg, rrs: seq<RR>): Msg {
    var plain := q.hdr.opcode == 0;
    Msg(MsgHdr(q.hdr.id, true, q.hdr.opcode, true, false, plain && q.hdr.recursionDesired, false, false, false,
               plain && q.hdr.checkingDisabled, 0),
        false, if q.question == [] then [] else [q.question[0]], rrs, [], [])
  }

  /** `SetTsig`. */
  function StubFor(ts: Signature, id: uint16, now: uint48): Signature {
    Signature(ts.name, CLASS_ANY, 0, ts.algorithm, now, ts.fudge, [], id, 0, [])
  }

  /** One envelope and the time it is sent at. */
  datatype Parcel = Parcel(rrs: seq<RR>, now: uint48)

  /** The message `Out` writes for an envelope. */
  function OutMsg(q: Msg, status: Option<TsigError>, x: Parcel): Msg {
    var r := ReplyTo(q, x.rrs);
    if IsTsig(q).Some? && status.None? then WithTsig(r, StubFor(IsTsig(q).value, r.hdr.id, x.now)) else r
  }

  /** Messages written, the chain held before each, and whether all were written. */
  datatype Sending = Sending(octets: seq<seq<byte>>, chains: seq<Chain>, ok: bool, final: Chain)

  /** `Out`. */
  function OutAll(q: Msg, status: Option<TsigError>, xs: seq<Parcel>, tp: Option<Provider>, c: Chain): Sending {
    if xs == [] then Sending([], [], true, c)
    else
      var w := WriteMsg(OutMsg(q, status, xs[0]), tp, c, xs[0].now);
      if w.out.None? then Sending([], [c], false, w.chain)
      else
        var rest := OutAll(q, status, xs[1..], tp, w.chain.(timersOnly := true));
        Sending([w.out.value] + rest.octets, [c] + rest.chains, rest.ok, rest.final)
  }

  // ----- the client -----

  /** What the receiver hands on, the chain held before each message read, and the last one. */
  datatype Session = Session(outcome: Outcome, chains: seq<Chain>, final: Chain)

  function AfterDecision(d: Decision, c: Chain): Chain {
    if d.timers then c.(timersOnly := true) else c
  }

  function Before(env: Envelope, c: Chain, s: Session): Session {
    Session(Outcome([env] + s.outcome.envs, s.outcome.done), [c] + s.chains, s.final)
  }

  /** `inAxfr` and `inIxfr` over what the connection brings. */
  function Receive(qid: uint16, r: Receiver, arrivals: seq<Arrival>, tp: Option<Provider>, c: Chain): Session
    decreases |arrivals|
  {
    if arrivals == [] then Session(Outcome([], false), [], c)
    else
      var x := ReadMsg(arrivals[0], tp, c);
      var d := Decide(qid, r, x.reply);
      var c' := AfterDecision(d, x.chain);
      if d.stop then Session(Outcome([d.env], true), [c], c')
      else Before(d.env, c, Receive(qid, d.next, arrivals[1..], tp, c'))
  }

  // ----- one step of both sides -----

  /** Whatever chain both sides hold, an honest message read in time leaves them with the same chain again. */
  lemma {:induction false} StepAgrees(m: Msg, t: Signature, p: Provider, c: Chain, now: uint48, now': uint48)
    requires Signable(m, t) && t.mac == [] && WithDefaults(t, now).timeSigned != 0
    requires Distance(now', WithDefaults(t, now).timeSigned) <= WithDefaults(t, now).fudge
    requires WriteMsg(WithTsig(m, t), Some(p), c, now).out.Some?
    ensures var w := WriteMsg(WithTsig(m, t), Some(p), c, now);
            var s := WithDefaults(t, now).(mac := w.chain.mac);
            && w.chain.timersOnly == c.timersOnly
            && ReadMsg(Arrival(w.out.value, now'), Some(p), c) == Reading(Fine(ReturnedSigned(m, s)), w.chain)
            && Verify(w.out.value, p, c.mac, c.timersOnly, now').Valid?
            && UnpackMsg(w.out.value) == Got(ReturnedSigned(m, s)) && IsTsig(ReturnedSigned(m, s)) == Some(s)
  {
    hide Generate, UnpackMsg, Verify, GoodMsg, Carriable, Returned, ToRR, FromRR, StripTsig;
    StubSeen(m, t);
    var g := Generate(m, t, p, c.mac, c.timersOnly, now);
    SignedMessageReturns(m, t, p, c.mac, c.timersOnly, now);
    HonestMessageVerifies(m, t, p, c.mac, c.timersOnly, now, now');
    SignedMacFits(m, t, p, c.mac, c.timersOnly, now);
    var s := WithDefaults(t, now).(mac := g.mac);
    SignatureSeen(m, s, t);
  }

  /** `WriteMsg` sees the stub behind the message. */
  lemma {:induction false} StubSeen(m: Msg, t: Signature)
    requires Signable(m, t) && t.mac == []
    ensures IsTsig(WithTsig(m, t)) == Some(t) && WithoutTsig(WithTsig(m, t)) == m
  {
    hide GoodMsg, Portable, Normal, ToRR, FromRR;
    FromToRR(t);
    TsigType(t);
    assert (m.extra + [ToRR(t)])[..|m.extra|] == m.extra;
  }

  lemma {:induction false} SignatureSeen(m: Msg, s: Signature, t: Signature)
    requires |s.mac| <= 0xFFFF && Signable(m, t) && s.other == t.other
    ensures IsTsig(ReturnedSigned(m, s)) == Some(s)
  {
    hide GoodMsg, Portable, Normal, ToRR, FromRR, Returned;
    FromToRR(s);
    TsigType(s);
  }

  // ----- the whole transfer -----

  predicate GoodParcels(xs: seq<Parcel>) {
    forall i :: 0 <= i < |xs| ==> GoodRRs(xs[i].rrs) && |xs[i].rrs| <= 0xFFFF && xs[i].now != 0
  }

  /** Every message is read within the fudge of the time it was signed. */
  predicate InTime(xs: seq<Parcel>, times: seq<uint48>, fudge: uint16) {
    && |times| == |xs|
    && forall i :: 0 <= i < |xs| ==> Distance(times[i], xs[i].now) <= if fudge == 0 then 300 else fudge
  }

  /** A decoded request that replies can be built on. */
  predicate GoodRequest(q: Msg, ts: Signature) {
    && IsTsig(q) == Some(ts) && GoodQuestions(q.question) && 0 <= q.hdr.opcode < 16
    && Portable(ts.name) && Portable(ts.algorithm) && Normal(ts.name) == ts.name && Normal(ts.algorithm) == ts.algorithm
  }

  function Arrivals(octets: seq<seq<byte>>, times: seq<uint48>): (a: seq<Arrival>)
    requires |octets| == |times|
    ensures |a| == |octets|
  {
    if octets == [] then [] else [Arrival(octets[0], times[0])] + Arrivals(octets[1..], times[1..])
  }

  /** The replies as the client decodes them, as far as its loops look at them. */
  function Heard(q: Msg, xs: seq<Parcel>): (rs: seq<Reply>)
    ensures |rs| == |xs|
    ensures forall i :: 0 <= i < |rs| ==>
              && rs[i].Fine? && rs[i].m.hdr.id == q.hdr.id && rs[i].m.hdr.rcode == 0
              && rs[i].m.answer == NormalRRs(xs[i].rrs)
  {
    if xs == [] then [] else [Fine(Returned(ReplyTo(q, xs[0].rrs)))] + Heard(q, xs[1..])
  }

  lemma {:induction false} ReplySignable(q: Msg, ts: Signature, x: Parcel)
    requires GoodRequest(q, ts) && GoodRRs(x.rrs) && |x.rrs| <= 0xFFFF
    ensures Signable(ReplyTo(q, x.rrs), StubFor(ts, q.hdr.id, x.now))
  {
    hide Portable, Normal, GoodRR, FromRR;
  }

  lemma OutMsgIs(q: Msg, ts: Signature, x: Parcel)
    requires IsTsig(q) == Some(ts)
    ensures OutMsg(q, None, x) == WithTsig(ReplyTo(q, x.rrs), StubFor(ts, q.hdr.id, x.now))
  {
    hide ToRR, FromRR;
  }

  /** The client's loops do not look at the additional section. */
  lemma DecideLooks(qid: uint16, r: Receiver, m: Msg, s: Signature)
    requires s.origId == m.hdr.id
    ensures Decide(qid, r, Fine(ReturnedSigned(m, s))) == Decide(qid, r, Fine(Returned(m)))
  {
    hide Scan, ToRR;
  }

  /**
   * The chains stay in step: starting from equal chains, before every message the client reads its
   * chain is the one the server held before writing that message, every signature is accepted, and
   * the receiver behaves as on the bare records.
   */
  lemma {:induction false} ChainsAgree(q: Msg, ts: Signature, p: Provider, xs: seq<Parcel>, times: seq<uint48>,
                                       c: Chain, r: Receiver)
    requires GoodRequest(q, ts) && GoodParcels(xs) && InTime(xs, times, ts.fudge)
    requires OutAll(q, None, xs, Some(p), c).ok
    ensures var o := OutAll(q, None, xs, Some(p), c);
            && |o.octets| == |xs| == |o.chains|
            && var s := Receive(q.hdr.id, r, Arrivals(o.octets, times), Some(p), c);
               && s.outcome == Run(q.hdr.id, r, Heard(q, xs))
               && |s.chains| == |s.outcome.envs| <= |xs| && s.chains == o.chains[..|s.chains|]
               && (!s.outcome.done ==> s.final == o.final)
    decreases |xs|
  {
    hide WriteMsg, ReadMsg, Decide, OutMsg, GoodRequest, ReturnedSigned, Returned, ReplyTo, StubFor, Signable, GoodRRs,
         Generate, Heard, Run, FromRR, SetExtended;
    var o := OutAll(q, None, xs, Some(p), c);
    if xs == [] {
      NothingHeard(q, r);
    } else {
      hide OutAll, Receive, Arrivals;
      OutUnfold(q, xs, Some(p), c);
      ChainsStep(q, ts, p, xs[0], times[0], c, r);
      var w := WriteMsg(OutMsg(q, None, xs[0]), Some(p), c, xs[0].now);
      var c' := w.chain.(timersOnly := true);
      var rest := OutAll(q, None, xs[1..], Some(p), c');
      var y := ReadMsg(Arrival(w.out.value, times[0]), Some(p), c);
      var d := Decide(q.hdr.id, r, y.reply);
      ChainsAgree(q, ts, p, xs[1..], times[1..], c', d.next);
      HeardUnfold(q, xs, r);
      ArrivalsUnfold(w.out.value, rest.octets, times);
      ReceiveUnfold(q.hdr.id, r, Arrivals(o.octets, times), Some(p), c);
      var s' := Receive(q.hdr.id, d.next, Arrivals(rest.octets, times[1..]), Some(p), c');
      ChainsFront(c, rest.chains, s'.chains);
    }
  }

  /** The loop of `Out` that goes through writes the first envelope and then the others. */
  lemma {:induction false} OutUnfold(q: Msg, xs: seq<Parcel>, tp: Option<Provider>, c: Chain)
    requires xs != [] && OutAll(q, None, xs, tp, c).ok
    ensures var o := OutAll(q, None, xs, tp, c);
            var w := WriteMsg(OutMsg(q, None, xs[0]), tp, c, xs[0].now);
            && w.out.Some?
            && var rest := OutAll(q, None, xs[1..], tp, w.chain.(timersOnly := true));
               && rest.ok && o.final == rest.final
               && o.octets == [w.out.value] + rest.octets && o.chains == [c] + rest.chains
  {
    hide WriteMsg, OutMsg;
  }

  lemma {:induction false} ReceiveUnfold(qid: uint16, r: Receiver, arrivals: seq<Arrival>, tp: Option<Provider>,
                                         c: Chain)
    requires arrivals != []
    ensures var x := ReadMsg(arrivals[0], tp, c);
            var d := Decide(qid, r, x.reply);
            var c' := AfterDecision(d, x.chain);
            Receive(qid, r, arrivals, tp, c) ==
            if d.stop then Session(Outcome([d.env], true), [c], c')
            else Before(d.env, c, Receive(qid, d.next, arrivals[1..], tp, c'))
  {
    hide ReadMsg, Decide;
  }

  lemma {:induction false} ArrivalsUnfold(o: seq<byte>, rest: seq<seq<byte>>, times: seq<uint48>)
    requires |times| == 1 + |rest|
    ensures var a := Arrivals([o] + rest, times);
            a[0] == Arrival(o, times[0]) && a[1..] == Arrivals(rest, times[1..])
  {
    assert ([o] + rest)[1..] == rest;
  }

  lemma NothingHeard(q: Msg, r: Receiver)
    ensures Run(q.hdr.id, r, Heard(q, [])) == Outcome([], false)
  {
  }

  lemma {:induction false} HeardUnfold(q: Msg, xs: seq<Parcel>, r: Receiver)
    requires xs != []
    ensures var d := Decide(q.hdr.id, r, Fine(Returned(ReplyTo(q, xs[0].rrs))));
            var rest := Run(q.hdr.id, d.next, Heard(q, xs[1..]));
            Run(q.hdr.id, r, Heard(q, xs)) ==
            if d.stop then Outcome([d.env], true) else Outcome([d.env] + rest.envs, rest.done)
  {
    hide Decide, Returned, ReplyTo;
    assert Heard(q, xs)[1..] == Heard(q, xs[1..]);
  }

  lemma ChainsFront(c: Chain, rest: seq<Chain>, read: seq<Chain>)
    requires |read| <= |rest| && read == rest[..|read|]
    ensures ([c] + rest)[..1] == [c] && [c] + read == ([c] + rest)[..1 + |read|]
  {
  }

  /** One message of the transfer, from the server's write to the client's decision. */
  lemma {:induction false} ChainsStep(q: Msg, ts: Signature, p: Provider, x: Parcel, time: uint48, c: Chain,
                                      r: Receiver)
    requires GoodRequest(q, ts) && GoodRRs(x.rrs) && |x.rrs| <= 0xFFFF && x.now != 0
    requires Distance(time, x.now) <= if ts.fudge == 0 then 300 else ts.fudge
    requires WriteMsg(OutMsg(q, None, x), Some(p), c, x.now).out.Some?
    ensures var w := WriteMsg(OutMsg(q, None, x), Some(p), c, x.now);
            var y := ReadMsg(Arrival(w.out.value, time), Some(p), c);
            var d := Decide(q.hdr.id, r, Fine(Returned(ReplyTo(q, x.rrs))));
            && Decide(q.hdr.id, r, y.reply) == d && y.chain == w.chain
            && (!d.stop ==> AfterDecision(d, y.chain) == w.chain.(timersOnly := true))
  {
    hide WriteMsg, ReadMsg, Signable, GoodRRs, ReturnedSigned, Returned, Generate, Scan, ToRR, FromRR, Portable, Normal;
    var m, t := ReplyTo(q, x.rrs), StubFor(ts, q.hdr.id, x.now);
    ReplySignable(q, ts, x);
    OutMsgIs(q, ts, x);
    StepAgrees(m, t, p, c, x.now, time);
    DecideLooks(q.hdr.id, r, m, WithDefaults(t, x.now).(mac := WriteMsg(WithTsig(m, t), Some(p), c, x.now).chain.mac));
  }

  // ----- from the request to the last envelope -----

  lemma {:induction false} NormalPortable(s: Text)
    requires Portable(s)
    ensures Portable(Normal(s)) && Normal(Normal(s)) == Normal(s)
  {
    hide IsFqdn, NameText, NameLabels;
    NameTextReads(NameLabels(s));
    NameTextIsFqdn(NameLabels(s));
  }

  /** The server hands on exactly the acceptable requests, and starts from the client's chain. */
  lemma {:induction false} RequestAccepted(m: Msg, t: Signature, p: Provider, now: uint48, now': uint48, before: Chain)
    requires Signable(m, t) && t.mac == [] && WithDefaults(t, now).timeSigned != 0
    requires Distance(now', WithDefaults(t, now).timeSigned) <= WithDefaults(t, now).fudge
    requires WriteMsg(WithTsig(m, t), Some(p), Chain([], false), now).out.Some?
    ensures var w := WriteMsg(WithTsig(m, t), Some(p), Chain([], false), now);
            var s := WithDefaults(t, now).(mac := w.chain.mac);
            && Serve(w.out.value, Some(p), before, now')
               == (if Acceptable(WithTsig(m, t)) then Served(ReturnedSigned(m, s), None, w.chain) else Rejected)
            && GoodRequest(ReturnedSigned(m, s), s)
  {
    hide WriteMsg, ReadMsg, UnpackMsg, Verify, ActionOn, Acceptable, Portable, Normal, ToRR, FromRR, GoodRRs,
         OptIndex, SetExtended, NormalRRs;
    var w := WriteMsg(WithTsig(m, t), Some(p), Chain([], false), now);
    StepAgrees(m, t, p, Chain([], false), now, now');
    WrittenAccepted(m, t, p, Chain([], false), now);
    NormalQuestionsGood(m.question);
  }

  lemma {:induction false} WrittenAccepted(m: Msg, t: Signature, p: Provider, c: Chain, now: uint48)
    requires Signable(m, t) && t.mac == [] && WriteMsg(WithTsig(m, t), Some(p), c, now).out.Some?
    ensures var o := WriteMsg(WithTsig(m, t), Some(p), c, now).out.value;
            |o| >= HEADER_SIZE && (ActionOn(o) == Accept <==> Acceptable(WithTsig(m, t)))
  {
    hide Generate, PackMsg, ActionOn, Acceptable, GoodMsg, Carriable, ToRR, FromRR;
    StubSeen(m, t);
    SignedAccepted(m, t, p, c.mac, c.timersOnly, now);
  }

  lemma {:induction false} NormalQuestionsGood(qs: seq<Question>)
    requires GoodQuestions(qs)
    ensures GoodQuestions(NormalQuestions(qs))
    decreases |qs|
  {
    hide Portable, Normal;
    if qs != [] {
      NormalPortable(qs[0].name);
      NormalQuestionsGood(qs[1..]);
    }
  }
}
