/** The two ends of a transfer as objects whose TSIG fields change with every message. */
module TransferObject {
  import opened Octets
  import opened Wrappers
  import opened Records
  import opened Message
  import opened Tsig
  import opened Transfer
  import opened Acceptance
  import opened TransferTsig

  /** What was handed on so far, in front of what is still to come. */
  ghost function Resume(envs: seq<Envelope>, chains: seq<Chain>, s: Session): Session {
    Session(Outcome(envs + s.outcome.envs, s.outcome.done), chains + s.chains, s.final)
  }

  ghost predicate Reached(qid: uint16, r0: Receiver, all: seq<Arrival>, tp: Option<Provider>, c0: Chain, i: nat,
                          envs: seq<Envelope>, chains: seq<Chain>, r: Receiver, c: Chain)
  {
    i <= |all| && Receive(qid, r0, all, tp, c0) == Resume(envs, chains, Receive(qid, r, all[i..], tp, c))
  }

  lemma {:induction false} ReachedStep(qid: uint16, r0: Receiver, all: seq<Arrival>, tp: Option<Provider>, c0: Chain,
                                       i: nat, envs: seq<Envelope>, chains: seq<Chain>, r: Receiver, c: Chain)
    requires i < |all| && Reached(qid, r0, all, tp, c0, i, envs, chains, r, c)
    ensures var x := ReadMsg(all[i], tp, c);
            var d := Decide(qid, r, x.reply);
            var c' := AfterDecision(d, x.chain);
            if d.stop then Receive(qid, r0, all, tp, c0) == Session(Outcome(envs + [d.env], true), chains + [c], c')
            else Reached(qid, r0, all, tp, c0, i + 1, envs + [d.env], chains + [c], d.next, c')
  {
    hide ReadMsg, Decide;
    var rest := all[i..];
    assert rest[0] == all[i] && rest[1..] == all[i + 1..];
    var x := ReadMsg(all[i], tp, c);
    var d := Decide(qid, r, x.reply);
    var s := Receive(qid, d.next, all[i + 1..], tp, AfterDecision(d, x.chain));
    assert envs + ([d.env] + s.outcome.envs) == envs + [d.env] + s.outcome.envs;
    assert chains + ([c] + s.chains) == chains + [c] + s.chains;
  }

  lemma ReachedStart(qid: uint16, r0: Receiver, all: seq<Arrival>, tp: Option<Provider>, c0: Chain)
    ensures Reached(qid, r0, all, tp, c0, 0, [], [], r0, c0)
  {
    hide Receive;
    assert all[0..] == all;
    var s := Receive(qid, r0, all, tp, c0);
    assert [] + s.outcome.envs == s.outcome.envs && [] + s.chains == s.chains;
  }

  lemma ReachedEnd(qid: uint16, r0: Receiver, all: seq<Arrival>, tp: Option<Provider>, c0: Chain, envs: seq<Envelope>,
                   chains: seq<Chain>, r: Receiver, c: Chain)
    requires Reached(qid, r0, all, tp, c0, |all|, envs, chains, r, c)
    ensures Receive(qid, r0, all, tp, c0) == Session(Outcome(envs, false), chains, c)
  {
    assert all[|all|..] == [];
    assert envs + [] == envs && chains + [] == chains;
  }

  // ----- the record loop of inIxfr -----

  method ScanAnswer(rrs: seq<RR>, serial: uint32, axfr0: bool, n0: nat) returns (axfr: bool, n: nat, stop: bool)
    ensures Scan(rrs, serial, axfr0, n0) == Scanned(axfr, n, stop)
  {
    axfr, n, stop := axfr0, n0, false;
    for i := 0 to |rrs|
      invariant !stop && Scan(rrs, serial, axfr0, n0) == Scan(rrs[i..], serial, axfr, n)
    {
      assert rrs[i..][0] == rrs[i] && rrs[i..][1..] == rrs[i + 1..];
      if IsSOA(rrs[i]) {
        if Serial(rrs[i]) == serial {
          n := n + 1;
          // A full zone ends with the second current SOA, an incremental one with the third.
          if (axfr && n == 2) || n == 3 {
            stop := true;
            return;
          }
        } else if axfr {
          axfr := false;
        }
      }
    }
    assert rrs[|rrs|..] == [];
  }

  // ----- the client -----

  class Client {
    var tsigRequestMAC: seq<byte>
    var tsigTimersOnly: bool
    const provider: Option<Provider>

    function State(): Chain
      reads this
    {
      Chain(tsigRequestMAC, tsigTimersOnly)
    }

    constructor (tp: Option<Provider>)
      ensures provider == tp && State() == Chain([], false)
    {
      provider := tp;
      tsigRequestMAC, tsigTimersOnly := [], false;
    }

    method ReadMsg(a: Arrival) returns (reply: Reply)
      modifies this
      ensures Reading(reply, State()) == TransferTsig.ReadMsg(a, provider, old(State()))
    {
      hide UnpackMsg, Verify, FromRR;
      if a.Closed? {
        return Broken(ErrRead);
      }
      match UnpackMsg(a.octets)
      case BadMsg => return Broken(ErrUnpack);
      case Got(m) =>
        reply := Fine(m);
        if provider.Some? {
          var v := Verify(a.octets, provider.value, tsigRequestMAC, tsigTimersOnly, a.now);
          var ts := IsTsig(m);
          if ts.Some? {
            tsigRequestMAC := ts.value.mac;
          }
          if !v.Valid? {
            reply := Broken(ErrTsig);
          }
        }
    }

    method WriteMsg(m: Msg, now: uint48) returns (out: Option<seq<byte>>)
      modifies this
      ensures Writing(out, State()) == TransferTsig.WriteMsg(m, provider, old(State()), now)
    {
      hide Generate, PackMsg, FromRR;
      var ts := IsTsig(m);
      if ts.Some? && provider.Some? {
        match Generate(WithoutTsig(m), ts.value, provider.value, tsigRequestMAC, tsigTimersOnly, now)
        case Signed(o, mac) =>
          tsigRequestMAC := mac;
          return IfFits(o);
        case NotSigned =>
          tsigRequestMAC := [];
          return None;
      }
      match PackMsg(m, 0)
      case Sent(o) => return IfFits(o);
      case Refused(_) => return None;
    }

    method InAxfr(qid: uint16, arrivals: seq<Arrival>) returns (envs: seq<Envelope>, done: bool)
      modifies this
      ensures var s := Receive(qid, Axfr(true), arrivals, provider, old(State()));
              Outcome(envs, done) == s.outcome && State() == s.final
    {
      hide Receive, Reached, TransferTsig.ReadMsg;
      var first := true;
      ghost var chains: seq<Chain> := [];
      ghost var c0 := State();
      envs := [];
      ReachedStart(qid, Axfr(true), arrivals, provider, c0);
      for i := 0 to |arrivals|
        invariant Reached(qid, Axfr(true), arrivals, provider, c0, i, envs, chains, Axfr(first), State())
      {
        ReachedStep(qid, Axfr(true), arrivals, provider, c0, i, envs, chains, Axfr(first), State());
        chains := chains + [State()];
        var reply := ReadMsg(arrivals[i]);
        if reply.Broken? {
          return envs + [Envelope([], Some(reply.error))], true;
        }
        var m := reply.m;
        if m.hdr.id != qid {
          return envs + [Envelope(m.answer, Some(ErrId))], true;
        }
        if first {
          if m.hdr.rcode != 0 {
            return envs + [Envelope(m.answer, Some(ErrXfrRcode(m.hdr.rcode)))], true;
          }
          if !SOAFirst(m.answer) {
            return envs + [Envelope(m.answer, Some(ErrSoa))], true;
          }
          first := false;
          // A lone opening SOA: more is to come.
          if |m.answer| == 1 {
            tsigTimersOnly := true;
            envs := envs + [Envelope(m.answer, None)];
            continue;
          }
        }
        tsigTimersOnly := true;
        if SOALast(m.answer) {
          return envs + [Envelope(m.answer, None)], true;
        }
        envs := envs + [Envelope(m.answer, None)];
      }
      ReachedEnd(qid, Axfr(true), arrivals, provider, c0, envs, chains, Axfr(first), State());
      done := false;
    }

    method InIxfr(qid: uint16, qser: uint32, arrivals: seq<Arrival>) returns (envs: seq<Envelope>, done: bool)
      modifies this
      ensures var s := Receive(qid, Ixfr(qser, 0, true, 0), arrivals, provider, old(State()));
              Outcome(envs, done) == s.outcome && State() == s.final
    {
      hide Receive, Reached, Scan, TransferTsig.ReadMsg;
      var serial: uint32, axfr, n: nat := 0, true, 0;
      ghost var r0 := Ixfr(qser, 0, true, 0);
      ghost var chains: seq<Chain> := [];
      ghost var c0 := State();
      envs := [];
      ReachedStart(qid, r0, arrivals, provider, c0);
      for i := 0 to |arrivals|
        invariant Reached(qid, r0, arrivals, provider, c0, i, envs, chains, Ixfr(qser, serial, axfr, n), State())
      {
        ReachedStep(qid, r0, arrivals, provider, c0, i, envs, chains, Ixfr(qser, serial, axfr, n), State());
        chains := chains + [State()];
        var reply := ReadMsg(arrivals[i]);
        if reply.Broken? {
          return envs + [Envelope([], Some(reply.error))], true;
        }
        var m := reply.m;
        if m.hdr.id != qid {
          return envs + [Envelope(m.answer, Some(ErrId))], true;
        }
        if m.hdr.rcode != 0 {
          return envs + [Envelope(m.answer, Some(ErrXfrRcode(m.hdr.rcode)))], true;
        }
        if n == 0 {
          if !SOAFirst(m.answer) {
            return envs + [Envelope(m.answer, Some(ErrSoa))], true;
          }
          serial := Serial(m.answer[0]);
          if qser >= serial {
            return envs + [Envelope(m.answer, None)], true;
          }
        }
        tsigTimersOnly := true;
        var stop;
        axfr, n, stop := ScanAnswer(m.answer, serial, axfr, n);
        envs := envs + [Envelope(m.answer, None)];
        if stop {
          return envs, true;
        }
      }
      ReachedEnd(qid, r0, arrivals, provider, c0, envs, chains, Ixfr(qser, serial, axfr, n), State());
      done := false;
    }
  }

  // ----- the server -----

  class Response {
    var tsigRequestMAC: seq<byte>
    var tsigTimersOnly: bool
    var tsigStatus: Option<TsigError>
    const provider: Option<Provider>

    function State(): Chain
      reads this
    {
      Chain(tsigRequestMAC, tsigTimersOnly)
    }

    constructor (tp: Option<Provider>)
      ensures provider == tp && State() == Chain([], false) && tsigStatus == None
    {
      provider := tp;
      tsigRequestMAC, tsigTimersOnly, tsigStatus := [], false, None;
    }

    method ServeDNS(octets: seq<byte>, now: uint48) returns (req: Option<Msg>)
      modifies this
      ensures match Serve(octets, provider, old(State()), now)
              case Rejected => req == None && State() == old(State())
              case Served(m, status, c) => req == Some(m) && tsigStatus == status && State() == c
    {
      hide UnpackMsg, Verify, FromRR, ActionOn;
      if |octets| < HEADER_SIZE || ActionOn(octets) != Accept {
        return None;
      }
      match UnpackMsg(octets)
      case BadMsg => return None;
      case Got(m) =>
        tsigStatus := None;
        if provider.Some? {
          var t := IsTsig(m);
          if t.Some? {
            var v := Verify(octets, provider.value, [], false, now);
            tsigStatus := if v.Valid? then None else Some(v.error);
            tsigTimersOnly := false;
            tsigRequestMAC := t.value.mac;
          }
        }
        return Some(m);
    }

    method WriteMsg(m: Msg, now: uint48) returns (out: Option<seq<byte>>)
      modifies this`tsigRequestMAC
      ensures Writing(out, State()) == TransferTsig.WriteMsg(m, provider, old(State()), now)
    {
      hide Generate, PackMsg, FromRR;
      if provider.Some? {
        var t := IsTsig(m);
        if t.Some? {
          match Generate(WithoutTsig(m), t.value, provider.value, tsigRequestMAC, tsigTimersOnly, now)
          case Signed(o, mac) =>
            tsigRequestMAC := mac;
            return IfFits(o);
          case NotSigned =>
            tsigRequestMAC := [];
            return None;
        }
      }
      match PackMsg(m, 0)
      case Sent(o) => return IfFits(o);
      case Refused(_) => return None;
    }

    method TsigTimersOnly(b: bool)
      modifies this`tsigTimersOnly
      ensures State() == old(State()).(timersOnly := b)
    {
      tsigTimersOnly := b;
    }

    /** `Out`: one message per envelope, and after each the timers-only flag. */
    method Out(q: Msg, xs: seq<Parcel>) returns (octets: seq<seq<byte>>, ok: bool)
      modifies this`tsigRequestMAC, this`tsigTimersOnly
      ensures var o := OutAll(q, tsigStatus, xs, provider, old(State()));
              octets == o.octets && ok == o.ok && State() == o.final
    {
      hide TransferTsig.WriteMsg, OutMsg;
      octets, ok := [], true;
      ghost var all := OutAll(q, tsigStatus, xs, provider, State());
      for i := 0 to |xs|
        invariant var rest := OutAll(q, tsigStatus, xs[i..], provider, State());
                  all.octets == octets + rest.octets && all.ok == rest.ok && all.final == rest.final
      {
        ghost var rest := xs[i..];
        assert rest[0] == xs[i] && rest[1..] == xs[i + 1..];
        var out := WriteMsg(OutMsg(q, tsigStatus, xs[i]), xs[i].now);
        if out.None? {
          assert octets + [] == octets;
          return octets, false;
        }
        TsigTimersOnly(true);
        ghost var tail := OutAll(q, tsigStatus, xs[i + 1..], provider, State());
        assert octets + ([out.value] + tail.octets) == octets + [out.value] + tail.octets;
        octets := octets + [out.value];
      }
      assert xs[|xs|..] == [] && octets + [] == octets;
    }
  }
}
