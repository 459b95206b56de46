/** A signed zone transfer from end to end: request, replies, and what the client hands on. */
module TransferDelivery {
  import opened Octets
  import opened Wrappers
  import opened Presentation
  import opened Records
  import opened Message
  import opened MessageRoundTrip
  import opened Tsig
  import opened TsigRoundTrip
  import opened Transfer
  import opened Acceptance
  import opened TransferTsig

  // ----- normal form does not disturb a stream -----

  function Chunks(xs: seq<Parcel>): (cs: seq<seq<RR>>)
    ensures |cs| == |xs| && forall i :: 0 <= i < |cs| ==> cs[i] == xs[i].rrs
  {
    seq(|xs|, i requires 0 <= i < |xs| => xs[i].rrs)
  }

  function NormalChunks(cs: seq<seq<RR>>): (r: seq<seq<RR>>)
    ensures |r| == |cs| && forall i :: 0 <= i < |r| ==> r[i] == NormalRRs(cs[i])
  {
    if cs == [] then [] else [NormalRRs(cs[0])] + NormalChunks(cs[1..])
  }

  lemma NormalConcat(a: seq<RR>, b: seq<RR>)
    ensures NormalRRs(a + b) == NormalRRs(a) + NormalRRs(b)
  {
  }

  lemma {:induction false} NormalJoined(cs: seq<seq<RR>>)
    ensures Joined(NormalChunks(cs)) == NormalRRs(Joined(cs))
    decreases |cs|
  {
    hide NormalRRs;
    if cs == [] {
      assert NormalRRs([]) == [];
    } else {
      NormalJoined(cs[1..]);
      assert NormalChunks(cs)[1..] == NormalChunks(cs[1..]);
      NormalConcat(cs[0], Joined(cs[1..]));
    }
  }

  /** Type and serial are the same in normal form. */
  lemma {:induction false} NormalSerial(rr: RR)
    ensures IsSOA(NormalRR(rr)) == IsSOA(rr) && Serial(NormalRR(rr)) == Serial(rr)
  {
    hide Normal, NormalFields, Zeros, Layout;
    NormalFieldsAt(rr.rdata);
    ZerosAt(Layout(rr.rrtype));
    ZeroU32();
  }

  lemma {:induction false} ZerosAt(ks: seq<Kind>)
    ensures |Zeros(ks)| == |ks| && forall i :: 0 <= i < |ks| ==> Zeros(ks)[i] == Zero(ks[i])
    decreases |ks|
  {
    hide Zero;
    if ks != [] {
      ZerosAt(ks[1..]);
    }
  }

  lemma ZeroU32()
    ensures GetU32(seq(4, _ => 0), 0) == 0
  {
  }

  lemma {:induction false} NormalSlice(s: seq<RR>, i: nat, j: nat)
    requires i <= j <= |s|
    ensures NormalRRs(s)[i..j] == NormalRRs(s[i..j])
  {
    hide NormalRR;
  }

  lemma {:induction false} NormalNoSOA(s: seq<RR>)
    requires NoSOA(s)
    ensures NoSOA(NormalRRs(s))
  {
    hide NormalRR, IsSOA;
    forall i | 0 <= i < |s| ensures !IsSOA(NormalRRs(s)[i]) {
      NormalSerial(s[i]);
    }
  }

  lemma {:induction false} NormalAxfr(s: seq<RR>)
    requires AxfrStream(s)
    ensures AxfrStream(NormalRRs(s)) && Serial(NormalRRs(s)[0]) == Serial(s[0])
    ensures Serial(NormalRRs(s)[|s| - 1]) == Serial(s[|s| - 1])
  {
    hide NormalRR, IsSOA, NoSOA, Serial;
    NormalSerial(s[0]);
    NormalSerial(s[|s| - 1]);
    NormalSlice(s, 1, |s| - 1);
    NormalNoSOA(s[1..|s| - 1]);
  }

  function NormalDiff(d: Diff): Diff {
    Diff(NormalRR(d.oldSoa), NormalRRs(d.deleted), NormalRR(d.newSoa), NormalRRs(d.added))
  }

  function NormalDiffs(ds: seq<Diff>): (r: seq<Diff>)
    ensures |r| == |ds| && forall i :: 0 <= i < |r| ==> r[i] == NormalDiff(ds[i])
  {
    if ds == [] then [] else [NormalDiff(ds[0])] + NormalDiffs(ds[1..])
  }

  lemma {:induction false} NormalDiffRecords(ds: seq<Diff>)
    ensures DiffsRecords(NormalDiffs(ds)) == NormalRRs(DiffsRecords(ds))
    decreases |ds|
  {
    hide NormalRRs, NormalRR;
    if ds == [] {
      assert NormalRRs([]) == [];
    } else {
      var d := ds[0];
      NormalDiffRecords(ds[1..]);
      assert NormalDiffs(ds)[1..] == NormalDiffs(ds[1..]);
      NormalConcat(DiffRecords(d), DiffsRecords(ds[1..]));
      NormalConcat([d.oldSoa] + d.deleted + [d.newSoa], d.added);
      NormalConcat([d.oldSoa] + d.deleted, [d.newSoa]);
      NormalConcat([d.oldSoa], d.deleted);
      NormalSingle(d.oldSoa);
      NormalSingle(d.newSoa);
    }
  }

  lemma NormalSingle(rr: RR)
    ensures NormalRRs([rr]) == [NormalRR(rr)]
  {
    assert [rr][1..] == [];
  }

  lemma {:induction false} NormalGoodDiffs(ds: seq<Diff>, serial: uint32)
    requires GoodDiffs(ds, serial)
    ensures GoodDiffs(NormalDiffs(ds), serial)
  {
    hide NormalRR, NormalRRs, IsSOA, NoSOA, Serial, GoodDiff, NormalDiff, NormalDiffs;
    var r := NormalDiffs(ds);
    assert |r| == |ds| && r[|ds| - 1] == NormalDiff(ds[|ds| - 1]);
    forall i | 0 <= i < |ds|
      ensures GoodDiff(NormalDiff(ds[i]))
      ensures Serial(NormalDiff(ds[i]).oldSoa) == Serial(ds[i].oldSoa)
      ensures Serial(NormalDiff(ds[i]).newSoa) == Serial(ds[i].newSoa)
    {
      assert GoodDiff(ds[i]);
      NormalGoodDiff(ds[i]);
    }
  }

  lemma {:induction false} NormalGoodDiff(d: Diff)
    requires GoodDiff(d)
    ensures GoodDiff(NormalDiff(d))
    ensures Serial(NormalDiff(d).oldSoa) == Serial(d.oldSoa) && Serial(NormalDiff(d).newSoa) == Serial(d.newSoa)
  {
    hide NormalRR, NormalRRs, IsSOA, NoSOA, Serial;
    NormalSerial(d.oldSoa);
    NormalSerial(d.newSoa);
    NormalNoSOA(d.deleted);
    NormalNoSOA(d.added);
  }

  lemma {:induction false} NormalIncremental(s: seq<RR>, ds: seq<Diff>)
    requires IncrementalStream(s, ds)
    ensures IncrementalStream(NormalRRs(s), NormalDiffs(ds)) && Serial(NormalRRs(s)[0]) == Serial(s[0])
  {
    hide NormalRR, IsSOA, Serial, GoodDiffs, DiffsRecords;
    NormalSerial(s[0]);
    NormalSerial(s[|s| - 1]);
    NormalSlice(s, 1, |s| - 1);
    NormalDiffRecords(ds);
    NormalGoodDiffs(ds, Serial(s[0]));
  }

  // ----- the three kinds of stream -----

  /** A stream that receiver `r` is to be sent, cut into a non-empty first and last message. */
  predicate Deliverable(r: Receiver, chunks: seq<seq<RR>>, ds: seq<Diff>) {
    && chunks != [] && chunks[0] != [] && chunks[|chunks| - 1] != []
    && var s := Joined(chunks);
       match r
       case Axfr(first) => first && AxfrStream(s)
       case Ixfr(qser, serial, axfr, n) =>
         r == Ixfr(qser, 0, true, 0) && (FullStream(s) || IncrementalStream(s, ds)) && qser < Serial(s[0])
  }

  lemma {:induction false} NormalDeliverable(r: Receiver, chunks: seq<seq<RR>>, ds: seq<Diff>)
    requires Deliverable(r, chunks, ds)
    ensures Deliverable(r, NormalChunks(chunks), NormalDiffs(ds))
  {
    hide NormalRRs, NoSOA, GoodDiffs, SOAFirst, SOALast, Serial, DiffsRecords;
    var s := Joined(chunks);
    NormalJoined(chunks);
    NormalSameLength(chunks[0]);
    NormalSameLength(chunks[|chunks| - 1]);
    NormalSameLength(s);
    if AxfrStream(s) {
      NormalAxfr(s);
    }
    if r.Ixfr? && IncrementalStream(s, ds) {
      NormalIncremental(s, ds);
    }
  }

  lemma NormalSameLength(s: seq<RR>)
    ensures |NormalRRs(s)| == |s|
  {
  }

  lemma {:induction false} ReceiverDelivers(qid: uint16, r: Receiver, chunks: seq<seq<RR>>, replies: seq<Reply>,
                                            ds: seq<Diff>)
    requires Deliverable(r, chunks, ds) && Carry(replies, chunks, qid, true, true)
    ensures Run(qid, r, replies) == Outcome(Clean(chunks), true)
  {
    hide Run, NoSOA, GoodDiffs, SOAFirst, SOALast, Serial, DiffsRecords, Joined, FullStream, IncrementalStream,
         AxfrStream;
    assert replies + [] == replies;
    if r.Axfr? {
      AxfrDelivers(qid, chunks, replies, []);
    } else {
      IxfrStreamsDeliver(qid, r.qser, chunks, replies, [], ds);
    }
  }

  // ----- end to end -----

  /**
   * A signed transfer, from request to last envelope: the server accepts the request; the two
   * chains agree before every message; every signature is accepted; and the client hands on exactly
   * the records the server was given, message by message, and stops at the closing SOA.
   */
  lemma {:induction false} SignedTransferDelivers(
    m: Msg, t: Signature, p: Provider, now: uint48, now': uint48, before: Chain,
    r: Receiver, xs: seq<Parcel>, ds: seq<Diff>, times: seq<uint48>)
    requires Signable(m, t) && t.mac == [] && t.origId == m.hdr.id && WithDefaults(t, now).timeSigned != 0
    requires Distance(now', WithDefaults(t, now).timeSigned) <= WithDefaults(t, now).fudge
    requires WriteMsg(WithTsig(m, t), Some(p), Chain([], false), now).out.Some? && Acceptable(WithTsig(m, t))
    requires Deliverable(r, Chunks(xs), ds) && GoodParcels(xs) && InTime(xs, times, WithDefaults(t, now).fudge)
    requires var w := WriteMsg(WithTsig(m, t), Some(p), Chain([], false), now);
             var sv := Serve(w.out.value, Some(p), before, now');
             sv.Served? ==> OutAll(sv.req, sv.status, xs, Some(p), sv.chain).ok
    ensures var w := WriteMsg(WithTsig(m, t), Some(p), Chain([], false), now);
            var sv := Serve(w.out.value, Some(p), before, now');
            && sv.Served? && sv.status.None? && sv.chain == w.chain
            && var o := OutAll(sv.req, sv.status, xs, Some(p), sv.chain);
               && |o.octets| == |xs|
               && var s := Receive(m.hdr.id, r, Arrivals(o.octets, times), Some(p), w.chain);
                  && s.chains == o.chains
                  && s.outcome == Outcome(Clean(NormalChunks(Chunks(xs))), true)
  {
    hide WriteMsg, Serve, Acceptable, Signable, OutAll, Receive, Run, Deliverable, GoodParcels, InTime, Arrivals,
         ReturnedSigned, Heard, Carry, GoodRequest, WithTsig, Chunks, NormalChunks;
    var w := WriteMsg(WithTsig(m, t), Some(p), Chain([], false), now);
    var s := WithDefaults(t, now).(mac := w.chain.mac);
    RequestAccepted(m, t, p, now, now', before);
    var q := ReturnedSigned(m, s);
    RequestId(m, s);
    ChainsAgree(q, s, p, xs, times, w.chain, r);
    NormalDeliverable(r, Chunks(xs), ds);
    HeardCarries(q, xs);
    ReceiverDelivers(q.hdr.id, r, NormalChunks(Chunks(xs)), Heard(q, xs), NormalDiffs(ds));
    var o := OutAll(q, None, xs, Some(p), w.chain);
    assert o.chains[..|o.chains|] == o.chains;
  }

  lemma RequestId(m: Msg, s: Signature)
    ensures ReturnedSigned(m, s).hdr.id == s.origId
  {
  }

  lemma HeardCarries(q: Msg, xs: seq<Parcel>)
    ensures Carry(Heard(q, xs), NormalChunks(Chunks(xs)), q.hdr.id, true, true)
  {
    hide NormalRRs, Heard, NormalChunks;
  }
}
