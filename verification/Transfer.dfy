/**
 * The receiving side of zone transfers (AXFR, and IXFR of section 4 of RFC 1995): when it stops and
 * what it hands on, for every way a stream of records is cut into messages.
 */
module Transfer {
  import opened Octets
  import opened Wrappers
  import opened Records
  import opened Message

  const TYPE_SOA: uint16 := 6

  datatype XfrError = ErrRead | ErrUnpack | ErrTsig | ErrId | ErrXfrRcode(rcode: int) | ErrSoa

  /** What the receiver hands to its caller for one message. */
  datatype Envelope = Envelope(rrs: seq<RR>, error: Option<XfrError>)

  /** One attempt to read a message. */
  datatype Reply = Fine(m: Msg) | Broken(error: XfrError)

  // ----- the two receivers as step machines -----

  /** Variables of the loop of `inAxfr`, or of `inIxfr`. */
  datatype Receiver = Axfr(first: bool) | Ixfr(qser: uint32, serial: uint32, axfr: bool, n: nat)

  predicate IsSOA(rr: RR) {
    rr.rrtype == TYPE_SOA
  }

  predicate SOAFirst(rrs: seq<RR>) {
    rrs != [] && IsSOA(rrs[0])
  }

  predicate SOALast(rrs: seq<RR>) {
    rrs != [] && IsSOA(rrs[|rrs| - 1])
  }

  /** The serial of an SOA record: the first of its five numbers. */
  function Serial(rr: RR): uint32 {
    if |rr.rdata| > 2 && rr.rdata[2].Raw? && |rr.rdata[2].data| == 4 then GetU32(rr.rdata[2].data, 0) else 0
  }

  datatype Scanned = Scanned(axfr: bool, n: nat, stop: bool)

  /** One record of an IXFR answer: count the SOAs with the current serial. */
  function ScanOne(rr: RR, serial: uint32, axfr: bool, n: nat): Scanned {
    if !IsSOA(rr) then Scanned(axfr, n, false)
    else if Serial(rr) == serial then Scanned(axfr, n + 1, (axfr && n + 1 == 2) || n + 1 == 3)
    else Scanned(false, n, false)
  }

  /** The record loop of `inIxfr`, left at the record that ends the transfer. */
  function Scan(rrs: seq<RR>, serial: uint32, axfr: bool, n: nat): Scanned {
    if rrs == [] then Scanned(axfr, n, false)
    else
      var s := ScanOne(rrs[0], serial, axfr, n);
      if s.stop then s else Scan(rrs[1..], serial, s.axfr, s.n)
  }

  /** `env` is handed on; `stop` ends the loop; `timers` says that later messages carry timers only. */
  datatype Decision = Decision(env: Envelope, stop: bool, timers: bool, next: Receiver)

  function Stop(r: Receiver, rrs: seq<RR>, e: XfrError): Decision {
    Decision(Envelope(rrs, Some(e)), true, false, r)
  }

  function DecideAxfr(qid: uint16, r: Receiver, m: Msg): Decision
    requires r.Axfr?
  {
    if m.hdr.id != qid then Stop(r, m.answer, ErrId)
    else if r.first && m.hdr.rcode != 0 then Stop(r, m.answer, ErrXfrRcode(m.hdr.rcode))
    else if r.first && !SOAFirst(m.answer) then Stop(r, m.answer, ErrSoa)
    else if r.first && |m.answer| == 1 then Decision(Envelope(m.answer, None), false, true, Axfr(false))
    else Decision(Envelope(m.answer, None), SOALast(m.answer), true, Axfr(false))
  }

  function DecideIxfr(qid: uint16, r: Receiver, m: Msg): Decision
    requires r.Ixfr?
  {
    if m.hdr.id != qid then Stop(r, m.answer, ErrId)
    else if m.hdr.rcode != 0 then Stop(r, m.answer, ErrXfrRcode(m.hdr.rcode))
    else if r.n == 0 && !SOAFirst(m.answer) then Stop(r, m.answer, ErrSoa)
    else
      var serial := if r.n == 0 then Serial(m.answer[0]) else r.serial;
      if r.n == 0 && r.qser >= serial then Decision(Envelope(m.answer, None), true, false, r.(serial := serial))
      else
        var s := Scan(m.answer, serial, r.axfr, r.n);
        Decision(Envelope(m.answer, None), s.stop, true, Ixfr(r.qser, serial, s.axfr, s.n))
  }

  function Decide(qid: uint16, r: Receiver, reply: Reply): Decision {
    match reply
    case Broken(e) => Stop(r, [], e)
    case Fine(m) => if r.Axfr? then DecideAxfr(qid, r, m) else DecideIxfr(qid, r, m)
  }

  /** Envelopes handed on, one for each message read, and whether the receiver has ended. */
  datatype Outcome = Outcome(envs: seq<Envelope>, done: bool)

  function Run(qid: uint16, r: Receiver, replies: seq<Reply>): (o: Outcome)
    ensures |o.envs| <= |replies|
    decreases |replies|
  {
    if replies == [] then Outcome([], false)
    else
      var d := Decide(qid, r, replies[0]);
      if d.stop then Outcome([d.env], true)
      else
        var rest := Run(qid, d.next, replies[1..]);
        Outcome([d.env] + rest.envs, rest.done)
  }

  // ----- streams and how they are cut -----

  /** `chunks` laid end to end. */
  function Joined(chunks: seq<seq<RR>>): seq<RR> {
    if chunks == [] then [] else chunks[0] + Joined(chunks[1..])
  }

  function Clean(chunks: seq<seq<RR>>): (e: seq<Envelope>)
    ensures |e| == |chunks|
    ensures forall i :: 0 <= i < |e| ==> e[i] == Envelope(chunks[i], None)
  {
    seq(|chunks|, i requires 0 <= i < |chunks| => Envelope(chunks[i], None))
  }

  /** Replies that carry `chunks` under the right ID; only the IXFR receiver minds a later rcode. */
  predicate Carry(replies: seq<Reply>, chunks: seq<seq<RR>>, qid: uint16, strict: bool, first: bool) {
    && |replies| == |chunks|
    && (forall i :: 0 <= i < |replies| ==>
         replies[i].Fine? && replies[i].m.hdr.id == qid && replies[i].m.answer == chunks[i])
    && (forall i :: 0 <= i < |replies| && (strict || (first && i == 0)) ==>
         replies[i].Fine? && replies[i].m.hdr.rcode == 0)
  }

  lemma {:induction false} RunUnfold(qid: uint16, r: Receiver, replies: seq<Reply>, chunks: seq<seq<RR>>,
                                     more: seq<Reply>, strict: bool, first: bool)
    requires chunks != [] && Carry(replies, chunks, qid, strict, first)
    ensures Carry(replies[1..], chunks[1..], qid, strict, false)
    ensures Clean(chunks) == [Envelope(chunks[0], None)] + Clean(chunks[1..])
    ensures var d := Decide(qid, r, replies[0]);
            Run(qid, r, replies + more) ==
            if d.stop then Outcome([d.env], true)
            else Outcome([d.env] + Run(qid, d.next, replies[1..] + more).envs,
                Run(qid, d.next, replies[1..] + more).done)
  {
    hide Decide;
    assert (replies + more)[0] == replies[0] && (replies + more)[1..] == replies[1..] + more;
  }

  // ----- AXFR -----

  predicate NoSOA(rrs: seq<RR>) {
    forall i :: 0 <= i < |rrs| ==> !IsSOA(rrs[i])
  }

  /** A zone between two SOA records. */
  predicate AxfrStream(s: seq<RR>) {
    |s| >= 2 && SOAFirst(s) && SOALast(s) && NoSOA(s[1..|s| - 1])
  }

  /** Behind the opening SOA: records, then the closing SOA. */
  predicate AxfrTail(s: seq<RR>) {
    SOALast(s) && NoSOA(s[..|s| - 1])
  }

  /** Only the last chunk of a tail ends in an SOA; the others leave a tail behind. */
  lemma {:induction false} TailCut(c: seq<RR>, rest: seq<RR>)
    requires AxfrTail(c + rest) && rest != []
    ensures AxfrTail(rest) && !SOALast(c)
  {
    var s := c + rest;
    var inner := s[..|s| - 1];
    assert rest[|rest| - 1] == s[|s| - 1];
    var body := rest[..|rest| - 1];
    forall i | 0 <= i < |body| ensures !IsSOA(body[i]) {
      assert body[i] == inner[|c| + i];
    }
    assert c != [] ==> c[|c| - 1] == inner[|c| - 1];
  }

  lemma {:induction false} OneChunk(chunks: seq<seq<RR>>)
    requires |chunks| == 1
    ensures Joined(chunks) == chunks[0] && Clean(chunks[1..]) == []
  {
    assert chunks[1..] == [];
    assert Joined(chunks) == chunks[0] + [];
  }

  lemma {:induction false} AxfrTailDelivers(qid: uint16, chunks: seq<seq<RR>>, replies: seq<Reply>, more: seq<Reply>)
    requires chunks != [] && chunks[|chunks| - 1] != [] && Carry(replies, chunks, qid, false, false)
    requires AxfrTail(Joined(chunks))
    ensures Run(qid, Axfr(false), replies + more) == Outcome(Clean(chunks), true)
    decreases |chunks|
  {
    hide Run, NoSOA, SOALast, Decide, Clean, Joined;
    RunUnfold(qid, Axfr(false), replies, chunks, more, false, false);
    LaterMessage(qid, replies[0].m);
    if |chunks| == 1 {
      OneChunk(chunks);
    } else {
      var rest := chunks[1..];
      assert rest[|rest| - 1] == chunks[|chunks| - 1];
      JoinedNotEmpty(rest);
      JoinedUnfold(chunks);
      TailCut(chunks[0], Joined(rest));
      AxfrTailDelivers(qid, rest, replies[1..], more);
    }
  }

  lemma JoinedUnfold(chunks: seq<seq<RR>>)
    requires chunks != []
    ensures Joined(chunks) == chunks[0] + Joined(chunks[1..])
  {
  }

  /** A message behind the first one is handed on, and ends the transfer when it ends in an SOA. */
  lemma LaterMessage(qid: uint16, m: Msg)
    requires m.hdr.id == qid
    ensures Decide(qid, Axfr(false), Fine(m)) ==
            Decision(Envelope(m.answer, None), SOALast(m.answer), true, Axfr(false))
  {
  }

  lemma {:induction false} JoinedNotEmpty(chunks: seq<seq<RR>>)
    requires chunks != [] && chunks[|chunks| - 1] != []
    ensures Joined(chunks) != []
    decreases |chunks|
  {
    if |chunks| > 1 {
      assert chunks[1..][|chunks| - 2] == chunks[|chunks| - 1];
      JoinedNotEmpty(chunks[1..]);
    }
  }

  /**
   * However an AXFR stream is cut, the receiver hands on exactly its records, stops at the message
   * with the closing SOA, and reads nothing of what may follow.
   */
  lemma {:induction false} AxfrDelivers(qid: uint16, chunks: seq<seq<RR>>, replies: seq<Reply>, more: seq<Reply>)
    requires chunks != [] && chunks[0] != [] && chunks[|chunks| - 1] != [] && Carry(replies, chunks, qid, false, true)
    requires AxfrStream(Joined(chunks))
    ensures Run(qid, Axfr(true), replies + more) == Outcome(Clean(chunks), true)
  {
    hide Run, NoSOA, SOALast;
    RunUnfold(qid, Axfr(true), replies, chunks, more, false, true);
    if |chunks| == 1 {
      OneChunk(chunks);
    } else {
      assert chunks[1..][|chunks| - 2] == chunks[|chunks| - 1];
      JoinedNotEmpty(chunks[1..]);
      OpeningCut(chunks[0], Joined(chunks[1..]));
      AxfrTailDelivers(qid, chunks[1..], replies[1..], more);
    }
  }

  /** A first chunk that is not the whole stream ends in an SOA only when it is the opening SOA alone. */
  lemma {:induction false} OpeningCut(c: seq<RR>, rest: seq<RR>)
    requires AxfrStream(c + rest) && c != [] && rest != []
    ensures SOAFirst(c) && AxfrTail(rest) && (|c| > 1 ==> !SOALast(c))
  {
    hide NoSOA;
    var s := c + rest;
    var t := c[1..] + rest;
    assert s == [c[0]] + t;
    assert t[..|t| - 1] == s[1..|s| - 1];
    assert t[|t| - 1] == s[|s| - 1];
    TailCut(c[1..], rest);
    if |c| > 1 {
      assert c[1..][|c| - 2] == c[|c| - 1];
    }
  }

  // ----- IXFR -----

  lemma {:induction false} ScanJoin(a: seq<RR>, b: seq<RR>, serial: uint32, axfr: bool, n: nat)
    ensures var s := Scan(a, serial, axfr, n);
            Scan(a + b, serial, axfr, n) == if s.stop then s else Scan(b, serial, s.axfr, s.n)
    decreases |a|
  {
    hide ScanOne;
    if a == [] {
      assert a + b == b;
    } else {
      assert (a + b)[1..] == a[1..] + b;
      var s := ScanOne(a[0], serial, axfr, n);
      ScanJoin(a[1..], b, serial, s.axfr, s.n);
    }
  }

  lemma {:induction false} ScanSkips(rrs: seq<RR>, serial: uint32, axfr: bool, n: nat)
    requires NoSOA(rrs)
    ensures Scan(rrs, serial, axfr, n) == Scanned(axfr, n, false)
    decreases |rrs|
  {
    if rrs != [] {
      ScanSkips(rrs[1..], serial, axfr, n);
    }
  }

  lemma ScanSingle(rr: RR, serial: uint32, axfr: bool, n: nat)
    ensures Scan([rr], serial, axfr, n) == ScanOne(rr, serial, axfr, n)
  {
    assert [rr][1..] == [];
  }

  /** The scan ends at the last record of `s` and not before. */
  predicate EndsAtLast(s: seq<RR>, serial: uint32, axfr: bool, n: nat) {
    s != [] && Scan(s, serial, axfr, n).stop && !Scan(s[..|s| - 1], serial, axfr, n).stop
  }

  lemma {:induction false} CountNeverFalls(rrs: seq<RR>, serial: uint32, axfr: bool, n: nat)
    ensures Scan(rrs, serial, axfr, n).n >= n
    decreases |rrs|
  {
    if rrs != [] {
      var s := ScanOne(rrs[0], serial, axfr, n);
      CountNeverFalls(rrs[1..], serial, s.axfr, s.n);
    }
  }

  /** Cutting a stream does not change where the scan over it ends. */
  lemma {:induction false} EndsInLastChunk(chunks: seq<seq<RR>>, serial: uint32, axfr: bool, n: nat)
    requires chunks != [] && chunks[|chunks| - 1] != [] && EndsAtLast(Joined(chunks), serial, axfr, n)
    ensures var s := Scan(chunks[0], serial, axfr, n);
            && (s.stop <==> |chunks| == 1)
            && (|chunks| > 1 ==> EndsAtLast(Joined(chunks[1..]), serial, s.axfr, s.n))
  {
    hide Scan;
    var all, c, rest := Joined(chunks), chunks[0], Joined(chunks[1..]);
    if |chunks| == 1 {
      assert all == c;
    } else {
      assert chunks[1..][|chunks| - 2] == chunks[|chunks| - 1];
      JoinedNotEmpty(chunks[1..]);
      ScanJoin(c, rest, serial, axfr, n);
      assert all[..|all| - 1] == c + rest[..|rest| - 1];
      ScanJoin(c, rest[..|rest| - 1], serial, axfr, n);
    }
  }

  lemma {:induction false} IxfrTailDelivers(qid: uint16, r: Receiver, chunks: seq<seq<RR>>, replies: seq<Reply>,
                                            more: seq<Reply>)
    requires r.Ixfr? && r.n > 0
    requires chunks != [] && chunks[|chunks| - 1] != [] && Carry(replies, chunks, qid, true, false)
    requires EndsAtLast(Joined(chunks), r.serial, r.axfr, r.n)
    ensures Run(qid, r, replies + more) == Outcome(Clean(chunks), true)
    decreases |chunks|
  {
    hide Scan, Run, EndsAtLast;
    RunUnfold(qid, r, replies, chunks, more, true, false);
    EndsInLastChunk(chunks, r.serial, r.axfr, r.n);
    var d := Decide(qid, r, replies[0]);
    if |chunks| == 1 {
      assert Clean(chunks[1..]) == [];
    } else {
      CountNeverFalls(chunks[0], r.serial, r.axfr, r.n);
      assert chunks[1..][|chunks| - 2] == chunks[|chunks| - 1];
      IxfrTailDelivers(qid, d.next, chunks[1..], replies[1..], more);
    }
  }

  /** A stream on which the SOA count ends at the last record is delivered however it is cut. */
  lemma {:induction false} IxfrDelivers(qid: uint16, qser: uint32, chunks: seq<seq<RR>>, replies: seq<Reply>,
                                        more: seq<Reply>)
    requires chunks != [] && chunks[0] != [] && chunks[|chunks| - 1] != [] && Carry(replies, chunks, qid, true, true)
    requires SOAFirst(Joined(chunks)) && qser < Serial(Joined(chunks)[0])
    requires EndsAtLast(Joined(chunks), Serial(Joined(chunks)[0]), true, 0)
    ensures Run(qid, Ixfr(qser, 0, true, 0), replies + more) == Outcome(Clean(chunks), true)
  {
    hide Scan, Run, EndsAtLast;
    var r, serial := Ixfr(qser, 0, true, 0), Serial(Joined(chunks)[0]);
    RunUnfold(qid, r, replies, chunks, more, true, true);
    EndsInLastChunk(chunks, serial, true, 0);
    var d := Decide(qid, r, replies[0]);
    assert chunks[0][0] == Joined(chunks)[0];
    if |chunks| == 1 {
      assert Clean(chunks[1..]) == [];
    } else {
      OpeningCounts(chunks[0], serial, true);
      assert chunks[1..][|chunks| - 2] == chunks[|chunks| - 1];
      IxfrTailDelivers(qid, d.next, chunks[1..], replies[1..], more);
    }
  }

  lemma {:induction false} OpeningCounts(rrs: seq<RR>, serial: uint32, axfr: bool)
    requires SOAFirst(rrs) && Serial(rrs[0]) == serial
    ensures Scan(rrs, serial, axfr, 0).n >= 1
  {
    CountNeverFalls(rrs[1..], serial, axfr, 1);
  }

  /** A full zone sent in answer to an IXFR request: both SOA records have the current serial. */
  predicate FullStream(s: seq<RR>) {
    AxfrStream(s) && Serial(s[|s| - 1]) == Serial(s[0])
  }

  lemma {:induction false} FullStreamEnds(s: seq<RR>)
    requires FullStream(s)
    ensures EndsAtLast(s, Serial(s[0]), true, 0)
  {
    hide Scan;
    var serial, middle, last := Serial(s[0]), s[1..|s| - 1], s[|s| - 1];
    assert s[..|s| - 1] == [s[0]] + middle;
    assert s == s[..|s| - 1] + [last];
    ScanSingle(s[0], serial, true, 0);
    ScanJoin([s[0]], middle, serial, true, 0);
    ScanSkips(middle, serial, true, 1);
    ScanJoin(s[..|s| - 1], [last], serial, true, 0);
    ScanSingle(last, serial, true, 1);
  }

  /** One step between two versions of a zone. */
  datatype Diff = Diff(oldSoa: RR, deleted: seq<RR>, newSoa: RR, added: seq<RR>)

  function DiffRecords(d: Diff): seq<RR> {
    [d.oldSoa] + d.deleted + [d.newSoa] + d.added
  }

  function DiffsRecords(ds: seq<Diff>): seq<RR> {
    if ds == [] then [] else DiffRecords(ds[0]) + DiffsRecords(ds[1..])
  }

  predicate GoodDiff(d: Diff) {
    IsSOA(d.oldSoa) && IsSOA(d.newSoa) && NoSOA(d.deleted) && NoSOA(d.added)
  }

  /** Every step starts at a serial that is not the current one; only the last step ends at it. */
  predicate GoodDiffs(ds: seq<Diff>, serial: uint32) {
    && ds != []
    && (forall i :: 0 <= i < |ds| ==> GoodDiff(ds[i]) && Serial(ds[i].oldSoa) != serial)
    && (forall i :: 0 <= i < |ds| - 1 ==> Serial(ds[i].newSoa) != serial)
    && Serial(ds[|ds| - 1].newSoa) == serial
  }

  lemma {:induction false} ScanDiff(d: Diff, serial: uint32, axfr: bool)
    requires GoodDiff(d) && Serial(d.oldSoa) != serial
    ensures Scan(DiffRecords(d), serial, axfr, 1) == Scanned(false, if Serial(d.newSoa) == serial then 2 else 1, false)
  {
    hide Scan;
    var a := [d.oldSoa] + d.deleted;
    var b := a + [d.newSoa];
    ScanSingle(d.oldSoa, serial, axfr, 1);
    ScanJoin([d.oldSoa], d.deleted, serial, axfr, 1);
    ScanSkips(d.deleted, serial, false, 1);
    ScanJoin(a, [d.newSoa], serial, axfr, 1);
    ScanSingle(d.newSoa, serial, false, 1);
    ScanJoin(b, d.added, serial, axfr, 1);
    ScanSkips(d.added, serial, false, if Serial(d.newSoa) == serial then 2 else 1);
  }

  lemma {:induction false} ScanDiffs(ds: seq<Diff>, serial: uint32, axfr: bool)
    requires GoodDiffs(ds, serial)
    ensures Scan(DiffsRecords(ds), serial, axfr, 1) == Scanned(false, 2, false)
    decreases |ds|
  {
    hide Scan, GoodDiff;
    ScanDiff(ds[0], serial, axfr);
    if |ds| == 1 {
      assert DiffsRecords(ds) == DiffRecords(ds[0]) + [] == DiffRecords(ds[0]);
    } else {
      ScanJoin(DiffRecords(ds[0]), DiffsRecords(ds[1..]), serial, axfr, 1);
      assert ds[1..][|ds| - 2] == ds[|ds| - 1];
      ScanDiffs(ds[1..], serial, false);
    }
  }

  /** An incremental stream: the current SOA, the steps, the current SOA again. */
  predicate IncrementalStream(s: seq<RR>, ds: seq<Diff>) {
    && |s| >= 2 && SOAFirst(s) && SOALast(s) && Serial(s[|s| - 1]) == Serial(s[0])
    && s[1..|s| - 1] == DiffsRecords(ds) && GoodDiffs(ds, Serial(s[0]))
  }

  lemma {:induction false} IncrementalStreamEnds(s: seq<RR>, ds: seq<Diff>)
    requires IncrementalStream(s, ds)
    ensures EndsAtLast(s, Serial(s[0]), true, 0)
  {
    hide Scan, GoodDiffs, DiffsRecords;
    var serial, last := Serial(s[0]), s[|s| - 1];
    assert s[..|s| - 1] == [s[0]] + DiffsRecords(ds);
    assert s == s[..|s| - 1] + [last];
    ScanSingle(s[0], serial, true, 0);
    ScanJoin([s[0]], DiffsRecords(ds), serial, true, 0);
    ScanDiffs(ds, serial, true);
    ScanJoin(s[..|s| - 1], [last], serial, true, 0);
    ScanSingle(last, serial, false, 2);
  }

  /** Full and incremental answers to an IXFR request are both delivered whole, however they are cut. */
  lemma {:induction false} IxfrStreamsDeliver(qid: uint16, qser: uint32, chunks: seq<seq<RR>>, replies: seq<Reply>,
                                              more: seq<Reply>, ds: seq<Diff>)
    requires chunks != [] && chunks[0] != [] && chunks[|chunks| - 1] != [] && Carry(replies, chunks, qid, true, true)
    requires FullStream(Joined(chunks)) || IncrementalStream(Joined(chunks), ds)
    requires qser < Serial(Joined(chunks)[0])
    ensures Run(qid, Ixfr(qser, 0, true, 0), replies + more) == Outcome(Clean(chunks), true)
  {
    hide Scan, GoodDiffs, EndsAtLast, Run, Carry, NoSOA;
    var s := Joined(chunks);
    if FullStream(s) {
      FullStreamEnds(s);
    } else {
      IncrementalStreamEnds(s, ds);
    }
    IxfrDelivers(qid, qser, chunks, replies, more);
  }

  /**
   * The converse: with a requested serial that is not below the current one as a plain number, the
   * receiver stops at the first message. Serial numbers wrap (RFC 1982); this comparison does not.
   */
  lemma {:induction false} IxfrStopsAtFirst(qid: uint16, qser: uint32, chunks: seq<seq<RR>>, replies: seq<Reply>,
                                            more: seq<Reply>)
    requires chunks != [] && SOAFirst(chunks[0]) && Carry(replies, chunks, qid, true, true)
    requires qser >= Serial(chunks[0][0])
    ensures Run(qid, Ixfr(qser, 0, true, 0), replies + more) == Outcome([Envelope(chunks[0], None)], true)
  {
    RunUnfold(qid, Ixfr(qser, 0, true, 0), replies, chunks, more, true, true);
  }

  /**
   * Exactly when an answer to an IXFR request is delivered whole: its serial is above the requested
   * one as a plain number, or it came in one message.
   */
  lemma {:induction false} IxfrDeliversExactly(qid: uint16, qser: uint32, chunks: seq<seq<RR>>, replies: seq<Reply>,
                                               more: seq<Reply>, ds: seq<Diff>)
    requires chunks != [] && chunks[0] != [] && chunks[|chunks| - 1] != [] && Carry(replies, chunks, qid, true, true)
    requires FullStream(Joined(chunks)) || IncrementalStream(Joined(chunks), ds)
    ensures Run(qid, Ixfr(qser, 0, true, 0), replies + more) == Outcome(Clean(chunks), true) <==>
            qser < Serial(Joined(chunks)[0]) || |chunks| == 1
  {
    hide Run, GoodDiffs, Serial, NoSOA;
    if qser < Serial(Joined(chunks)[0]) {
      IxfrStreamsDeliver(qid, qser, chunks, replies, more, ds);
    } else {
      assert chunks[0][0] == Joined(chunks)[0];
      IxfrStopsAtFirst(qid, qser, chunks, replies, more);
      if |chunks| == 1 {
        assert Clean(chunks) == [Envelope(chunks[0], None)];
      }
    }
  }

  /** `b` is the later serial number (section 3.2 of RFC 1982). */
  predicate LaterSerial(a: uint32, b: uint32) {
    0 < (b - a) % 0x1_0000_0000 < 0x8000_0000
  }

  /** An SOA record with the given serial. */
  function SampleSoa(serial: uint32): RR {
    RR([DOT], TYPE_SOA, 1, 0, [NameField([DOT], true), NameField([DOT], true), Raw(PutU32(serial)), Raw(PutU32(0)),
                               Raw(PutU32(0)), Raw(PutU32(0)), Raw(PutU32(0))])
  }

  /**
   * Serial 1 is later than 0xFFFFFFFF, but a client that holds the latter drops the closing SOA of a
   * zone at serial 1 that comes in two messages.
   */
  lemma {:induction false} WrappedSerial(qid: uint16, h: MsgHdr)
    requires h.id == qid && h.rcode == 0
    ensures LaterSerial(0xFFFF_FFFF, 1)
    ensures var m := Msg(h, false, [], [SampleSoa(1)], [], []);
            && FullStream(m.answer + m.answer)
            && Run(qid, Ixfr(0xFFFF_FFFF, 0, true, 0), [Fine(m), Fine(m)]) == Outcome([Envelope(m.answer, None)], true)
  {
    hide PutU32, GetU32;
    var soa := SampleSoa(1);
    var replies := [Fine(Msg(h, false, [], [soa], [], [])), Fine(Msg(h, false, [], [soa], [], []))];
    assert soa.rdata[2].data == [] + PutU32(1) + [];
    U32RoundTrip(1, [], []);
    assert [soa] + [soa] == [soa, soa];
    IxfrStopsAtFirst(qid, 0xFFFF_FFFF, [[soa], [soa]], replies, []);
    assert replies + [] == replies;
  }

  // ----- errors -----

  /** What is wrong with reply `k` of a transfer; an IXFR receiver minds the rcode of every message. */
  function Fault(qid: uint16, reply: Reply, k: nat, ixfr: bool): Option<XfrError> {
    match reply
    case Broken(e) => Some(e)
    case Fine(m) =>
      if m.hdr.id != qid then Some(ErrId)
      else if (k == 0 || ixfr) && m.hdr.rcode != 0 then Some(ErrXfrRcode(m.hdr.rcode))
      else if k == 0 && (m.answer == [] || m.answer[0].rrtype != 6) then Some(ErrSoa)
      else None
  }

  predicate Fresh(r: Receiver) {
    if r.Axfr? then r.first else r.n == 0
  }

  lemma {:induction false} DecideFault(qid: uint16, r: Receiver, reply: Reply)
    ensures var d := Decide(qid, r, reply);
            && d.env == Envelope(if reply.Fine? then reply.m.answer else [],
                                 Fault(qid, reply, if Fresh(r) then 0 else 1, r.Ixfr?))
            && (d.env.error.Some? ==> d.stop) && (!d.stop ==> !Fresh(d.next) && d.next.Ixfr? == r.Ixfr?)
  {
    hide Scan;
    if reply.Fine? && r.Ixfr? && r.n == 0 && SOAFirst(reply.m.answer) {
      OpeningCounts(reply.m.answer, Serial(reply.m.answer[0]), r.axfr);
    }
    if reply.Fine? && r.Ixfr? && r.n > 0 {
      CountNeverFalls(reply.m.answer, r.serial, r.axfr, r.n);
    }
  }

  /**
   * Over a whole run: every envelope has the records of its reply and the fault of that reply, if it
   * has one, and the first fault ends the run.
   */
  lemma {:induction false} FaultsExactly(qid: uint16, r: Receiver, replies: seq<Reply>, k: nat)
    requires k < |Run(qid, r, replies).envs|
    ensures var o := Run(qid, r, replies);
            && o.envs[k] == Envelope(if replies[k].Fine? then replies[k].m.answer else [],
                                     Fault(qid, replies[k], if Fresh(r) then k else k + 1, r.Ixfr?))
            && (o.envs[k].error.Some? ==> k == |o.envs| - 1 && o.done)
    decreases k
  {
    hide Decide, Fault;
    DecideFault(qid, r, replies[0]);
    var d := Decide(qid, r, replies[0]);
    if k > 0 {
      FaultsExactly(qid, d.next, replies[1..], k - 1);
      LaterFault(qid, replies[k], k, r.Ixfr?);
    }
  }

  lemma LaterFault(qid: uint16, reply: Reply, k: nat, ixfr: bool)
    requires k > 0
    ensures Fault(qid, reply, k, ixfr) == Fault(qid, reply, k + 1, ixfr) == Fault(qid, reply, 1, ixfr)
  {
  }
}
