/** Truncating a reply to a size: what is kept, and why it is the most that fits. */
module Truncation {
  import opened Octets
  import opened Presentation
  import opened Qualified
  import opened NamePack
  import opened NameLength
  import opened Records
  import opened Message
  import opened MessageRoundTrip
  import opened MessageLength

  const MIN_MSG_SIZE := 512

  predicate IsTsig(m: Msg) {
    m.extra != [] && m.extra[|m.extra| - 1].rrtype == TYPE_TSIG
  }

  /** Running length, number of records kept and suffixes after one section. */
  datatype Kept = Kept(l: int, n: nat, seen: Seen)

  /** `truncateLoop`: records are taken while they fit; the first misfit closes the budget. */
  function Keep(rrs: seq<RR>, size: int, l: nat, x: Seen): (k: Kept)
    ensures k.n <= |rrs|
    ensures k.l >= l || k.l == size
  {
    if rrs == [] then Kept(l, 0, x)
    else
      var one := RRLen(rrs[0], l, x);
      if l + one.len > size then Kept(size, 0, one.seen)
      else if l + one.len == size then Kept(size, 1, one.seen)
      else
        var rest := Keep(rrs[1..], size, l + one.len, one.seen);
        Kept(rest.l, rest.n + 1, rest.seen)
  }

  /** A section is only looked at while there is room left. */
  function KeepSection(rrs: seq<RR>, size: int, so: Kept): (k: Kept)
    ensures k.n <= |rrs|
  {
    if 0 <= so.l < size then Keep(rrs, size, so.l, so.seen) else Kept(so.l, 0, so.seen)
  }

  /** The additional section without its last OPT record, and that record. */
  function WithoutOpt(extra: seq<RR>): seq<RR> {
    var i := OptIndex(extra);
    if i < 0 then extra else extra[..i] + extra[i + 1..]
  }

  function OptOf(extra: seq<RR>): seq<RR> {
    var i := OptIndex(extra);
    if i < 0 then [] else [extra[i]]
  }

  /** Octets set aside for the OPT record. */
  function OptLen(extra: seq<RR>): nat {
    var i := OptIndex(extra);
    if i < 0 then 0 else RRLen(extra[i], 0, NoSeen).len
  }

  function Limit(size: int): (n: int)
    ensures n >= 512 && n >= size && (n == 512 || n == size)
  {
    if size < MIN_MSG_SIZE then MIN_MSG_SIZE else size
  }

  /** `Truncate` as a function. */
  function Truncated(m: Msg, size: int): Msg {
    if IsTsig(m) then m
    else if MsgLen(m, NoSeen) <= Limit(size) then m.(compress := false)
    else
      var budget := Limit(size) - OptLen(m.extra);
      var extra := WithoutOpt(m.extra);
      var q := QuestionsLen(m.question, HEADER_SIZE, Seen({}));
      var a := KeepSection(m.answer, budget, Kept(q.len, 0, q.seen));
      var n := KeepSection(m.ns, budget, a);
      var e := KeepSection(extra, budget, n);
      m.(hdr := m.hdr.(truncated := m.hdr.truncated || |m.answer| > a.n || |m.ns| > n.n || |extra| > e.n),
         compress := true,
         answer := m.answer[..a.n], ns := m.ns[..n.n], extra := extra[..e.n] + OptOf(m.extra))
  }

  // ----- the records in question, and how long a prefix of them is -----

  /** The records truncation chooses from. */
  function Candidates(m: Msg): seq<RR> {
    m.answer + m.ns + WithoutOpt(m.extra)
  }

  /** The records that were chosen. */
  function Chosen(m: Msg, size: int): seq<RR> {
    var t := Truncated(m, size);
    t.answer + t.ns + WithoutOpt(t.extra)
  }

  /** Compressed length of header, questions and the first `k` candidates. */
  function PrefixLen(m: Msg, k: nat): nat
    requires k <= |Candidates(m)|
  {
    var q := QuestionsLen(m.question, HEADER_SIZE, Seen({}));
    RRsLen(Candidates(m)[..k], q.len, q.seen).len
  }

  lemma {:induction false} RRsLenAppend(a: seq<RR>, b: seq<RR>, off: nat, x: Seen)
    ensures var r := RRsLen(a, off, x); RRsLen(a + b, off, x) == RRsLen(b, r.len, r.seen)
    decreases |a|
  {
    hide RRLen;
    if a == [] {
      assert a + b == b;
    } else {
      var one := RRLen(a[0], off, x);
      assert (a + b)[1..] == a[1..] + b;
      RRsLenAppend(a[1..], b, off + one.len, one.seen);
    }
  }

  /** `k` records of `rrs` are exactly as many as fit, starting from length `l`. */
  ghost predicate Maximal(rrs: seq<RR>, k: nat, size: int, l: nat, x: Seen) {
    && k <= |rrs|
    && RRsLen(rrs[..k], l, x).len <= size
    && (k < |rrs| ==> RRsLen(rrs[..k + 1], l, x).len > size)
  }

  /** The loop keeps as many records of a section as fit, and closes the budget when one does not. */
  lemma {:induction false} KeepIsMaximal(rrs: seq<RR>, size: int, l: nat, x: Seen)
    requires l <= size
    ensures var k := Keep(rrs, size, l, x);
            && Maximal(rrs, k.n, size, l, x)
            && (k.n < |rrs| ==> k.l == size)
            && (k.n == |rrs| ==> k.l == RRsLen(rrs, l, x).len && k.seen == RRsLen(rrs, l, x).seen)
    decreases |rrs|
  {
    hide RRLen;
    if rrs == [] {
      assert rrs[..0] == rrs;
    } else {
      var one := RRLen(rrs[0], l, x);
      var k := Keep(rrs, size, l, x);
      if l + one.len < size {
        KeepIsMaximal(rrs[1..], size, l + one.len, one.seen);
        PrefixTail(rrs, k.n);
      } else {
        KeepStops(rrs, size, l, x);
      }
    }
  }

  /** The record that uses up the budget, or goes over it, is the last one looked at. */
  lemma {:induction false} KeepStops(rrs: seq<RR>, size: int, l: nat, x: Seen)
    requires l <= size && rrs != [] && l + RRLen(rrs[0], l, x).len >= size
    ensures var k := Keep(rrs, size, l, x);
            && Maximal(rrs, k.n, size, l, x)
            && (k.n < |rrs| ==> k.l == size)
            && (k.n == |rrs| ==> k.l == RRsLen(rrs, l, x).len && k.seen == RRsLen(rrs, l, x).seen)
  {
    hide RRLen;
    var one := RRLen(rrs[0], l, x);
    assert rrs[..1] == [rrs[0]] && rrs[..1][1..] == [] && rrs[..0] == [];
    assert RRsLen(rrs[..1], l, x) == RRsLen([], l + one.len, one.seen) == Sized(l + one.len, one.seen);
    if |rrs| > 1 {
      PrefixTail(rrs, 1);
      assert RRsLen(rrs[..2], l, x) == RRsLen(rrs[1..][..1], l + one.len, one.seen);
      RRsLenGrows(rrs[1..][..1], l + one.len, one.seen);
    } else {
      assert rrs[..1] == rrs;
    }
  }

  lemma PrefixTail(rrs: seq<RR>, k: nat)
    requires rrs != [] && 1 <= k <= |rrs|
    ensures rrs[..k][0] == rrs[0] && rrs[..k][1..] == rrs[1..][..k - 1]
    ensures k < |rrs| ==> rrs[..k + 1][0] == rrs[0] && rrs[..k + 1][1..] == rrs[1..][..k]
    ensures k == |rrs| ==> rrs[..k] == rrs
  {
  }

  lemma RRsLenGrows(rrs: seq<RR>, l: nat, x: Seen)
    requires rrs != []
    ensures RRsLen(rrs, l, x).len >= l + 10
  {
  }

  // ----- across the sections -----

  /** What one section leaves for the next: all of it and room, or a closed budget. */
  lemma {:induction false} SectionStep(rrs: seq<RR>, size: int, so: Kept)
    requires 0 <= so.l <= size
    ensures var k := KeepSection(rrs, size, so);
            && Maximal(rrs, k.n, size, so.l, so.seen)
            && 0 <= k.l <= size
            && (k.n < |rrs| ==> k.l == size)
            && (k.n == |rrs| ==> k.l == RRsLen(rrs, so.l, so.seen).len && k.seen == RRsLen(rrs, so.l, so.seen).seen)
  {
    hide RRLen;
    if so.l < size {
      KeepIsMaximal(rrs, size, so.l, so.seen);
      hide Keep;
      KeepBounded(rrs, size, so.l, so.seen);
    } else {
      assert rrs[..0] == [];
      if rrs != [] {
        RRsLenGrows(rrs[..1], so.l, so.seen);
      }
    }
  }

  lemma {:induction false} KeepBounded(rrs: seq<RR>, size: int, l: nat, x: Seen)
    requires l <= size
    ensures l <= Keep(rrs, size, l, x).l <= size
    decreases |rrs|
  {
    hide RRLen;
    if rrs != [] {
      var one := RRLen(rrs[0], l, x);
      if l + one.len < size {
        KeepBounded(rrs[1..], size, l + one.len, one.seen);
      }
    }
  }

  /** A maximal prefix of a list that is followed by another one. */
  lemma {:induction false} MaximalThen(a: seq<RR>, b: seq<RR>, ka: nat, kb: nat, size: int, l: nat, x: Seen)
    requires Maximal(a, ka, size, l, x)
    requires if ka < |a| then kb == 0
             else var r := RRsLen(a, l, x); Maximal(b, kb, size, r.len, r.seen)
    ensures Maximal(a + b, ka + kb, size, l, x)
    ensures (a + b)[..ka + kb] == a[..ka] + b[..kb]
  {
    hide RRLen, RRsLen;
    if ka < |a| {
      assert (a + b)[..ka] == a[..ka] && (a + b)[..ka + 1] == a[..ka + 1];
      assert a[..ka] + b[..0] == a[..ka];
    } else {
      assert a[..ka] == a;
      assert (a + b)[..ka + kb] == a + b[..kb];
      RRsLenAppend(a, b[..kb], l, x);
      if kb < |b| {
        assert (a + b)[..ka + kb + 1] == a + b[..kb + 1];
        RRsLenAppend(a, b[..kb + 1], l, x);
      }
    }
  }

  /** A closed budget: the next section keeps nothing, because nothing fits. */
  lemma {:induction false} ClosedKeepsNothing(rrs: seq<RR>, size: int, so: Kept)
    requires so.l == size
    ensures KeepSection(rrs, size, so) == Kept(size, 0, so.seen)
  {
  }

  /** Three sections in a row, under one budget. */
  lemma {:induction false} SectionsMaximal(an: seq<RR>, ns: seq<RR>, ex: seq<RR>, budget: int, so: Kept)
    requires 0 <= so.l <= budget
    ensures var a := KeepSection(an, budget, so);
            var n := KeepSection(ns, budget, a);
            var e := KeepSection(ex, budget, n);
            && Maximal(an + ns + ex, a.n + n.n + e.n, budget, so.l, so.seen)
            && (an + ns + ex)[..a.n + n.n + e.n] == an[..a.n] + ns[..n.n] + ex[..e.n]
  {
    hide RRLen, RRsLen, Keep, KeepSection, Maximal;
    var a := KeepSection(an, budget, so);
    var n := KeepSection(ns, budget, a);
    var e := KeepSection(ex, budget, n);
    SectionStep(an, budget, so);
    SectionStep(ns, budget, a);
    SectionStep(ex, budget, n);
    if a.l == budget {
      ClosedKeepsNothing(ns, budget, a);
    }
    if n.l == budget {
      ClosedKeepsNothing(ex, budget, n);
    }
    MaximalThen(ns, ex, n.n, e.n, budget, a.l, a.seen);
    MaximalThen(an, ns + ex, a.n, n.n + e.n, budget, so.l, so.seen);
    assert an + (ns + ex) == an + ns + ex;
    assert an[..a.n] + (ns[..n.n] + ex[..e.n]) == an[..a.n] + ns[..n.n] + ex[..e.n];
  }

  lemma {:induction false} PrefixLenGrows(m: Msg, i: nat, j: nat)
    requires i <= j <= |Candidates(m)|
    ensures PrefixLen(m, i) <= PrefixLen(m, j)
  {
    hide RRLen, RRsLen, QuestionsLen, Candidates;
    var q := QuestionsLen(m.question, HEADER_SIZE, Seen({}));
    var c := Candidates(m);
    assert c[..j] == c[..i] + c[i..j];
    RRsLenAppend(c[..i], c[i..j], q.len, q.seen);
  }

  /** Truncation keeps the longest prefix of the candidates that fits: that one does, and no longer one. */
  lemma {:induction false} TruncateKeepsLongestPrefix(m: Msg, size: int)
    requires !IsTsig(m) && MsgLen(m, NoSeen) > Limit(size)
    requires PrefixLen(m, 0) + OptLen(m.extra) <= Limit(size)
    ensures var k := |Chosen(m, size)|;
            && k <= |Candidates(m)| && Chosen(m, size) == Candidates(m)[..k]
            && PrefixLen(m, k) + OptLen(m.extra) <= Limit(size)
            && forall j :: k < j <= |Candidates(m)| ==> PrefixLen(m, j) + OptLen(m.extra) > Limit(size)
  {
    KeepsFittingPrefix(m, size);
    hide PrefixLen, Candidates, Chosen, OptLen, MsgLen;
    var k := |Chosen(m, size)|;
    forall j | k < j <= |Candidates(m)| ensures PrefixLen(m, j) + OptLen(m.extra) > Limit(size) {
      PrefixLenGrows(m, k + 1, j);
    }
  }

  lemma {:induction false} KeepsFittingPrefix(m: Msg, size: int)
    requires !IsTsig(m) && MsgLen(m, NoSeen) > Limit(size)
    requires PrefixLen(m, 0) + OptLen(m.extra) <= Limit(size)
    ensures var k := |Chosen(m, size)|;
            && k <= |Candidates(m)| && Chosen(m, size) == Candidates(m)[..k]
            && PrefixLen(m, k) + OptLen(m.extra) <= Limit(size)
            && (k < |Candidates(m)| ==> PrefixLen(m, k + 1) + OptLen(m.extra) > Limit(size))
  {
    hide RRLen, RRsLen, QuestionsLen, MsgLen, OptLen, KeepSection, WithoutOpt, OptOf, Chosen, Truncated;
    var budget := Limit(size) - OptLen(m.extra);
    var extra := WithoutOpt(m.extra);
    var q := QuestionsLen(m.question, HEADER_SIZE, Seen({}));
    assert Candidates(m)[..0] == [];
    RRsLenNone(q.len, q.seen);
    var so := Kept(q.len, 0, q.seen);
    var a := KeepSection(m.answer, budget, so);
    var n := KeepSection(m.ns, budget, a);
    var e := KeepSection(extra, budget, n);
    SectionsMaximal(m.answer, m.ns, extra, budget, so);
    TruncatedTakes(m, size);
    ChosenIs(m, size, a.n, n.n, e.n);
  }

  /** What truncation takes from each section. */
  lemma TruncatedTakes(m: Msg, size: int)
    requires !IsTsig(m) && MsgLen(m, NoSeen) > Limit(size)
    ensures var budget := Limit(size) - OptLen(m.extra);
            var q := QuestionsLen(m.question, HEADER_SIZE, Seen({}));
            var a := KeepSection(m.answer, budget, Kept(q.len, 0, q.seen));
            var n := KeepSection(m.ns, budget, a);
            var e := KeepSection(WithoutOpt(m.extra), budget, n);
            var t := Truncated(m, size);
            && t.answer == m.answer[..a.n] && t.ns == m.ns[..n.n]
            && t.extra == WithoutOpt(m.extra)[..e.n] + OptOf(m.extra)
  {
    hide MsgLen, QuestionsLen, KeepSection, OptLen, WithoutOpt, OptOf;
  }

  lemma RRsLenNone(l: nat, x: Seen)
    ensures RRsLen([], l, x) == Sized(l, x)
  {
  }

  /** Popping the OPT record that was put back leaves the chosen records. */
  lemma {:induction false} ChosenIs(m: Msg, size: int, an: nat, nn: nat, en: nat)
    requires !IsTsig(m) && MsgLen(m, NoSeen) > Limit(size)
    requires var t := Truncated(m, size);
             && an <= |m.answer| && nn <= |m.ns| && en <= |WithoutOpt(m.extra)|
             && t.answer == m.answer[..an] && t.ns == m.ns[..nn]
             && t.extra == WithoutOpt(m.extra)[..en] + OptOf(m.extra)
    ensures Chosen(m, size) == m.answer[..an] + m.ns[..nn] + WithoutOpt(m.extra)[..en]
  {
    hide Truncated, WithoutOpt, OptOf, MsgLen;
    PutBack(m.extra, en);
  }

  /** Putting the OPT record behind some of the others and popping it again. */
  lemma {:induction false} PutBack(extra: seq<RR>, n: nat)
    requires n <= |WithoutOpt(extra)|
    ensures var back := WithoutOpt(extra)[..n] + OptOf(extra);
            WithoutOpt(back) == WithoutOpt(extra)[..n] && OptOf(back) == OptOf(extra)
  {
    var kept, o := WithoutOpt(extra)[..n], OptOf(extra);
    var back := kept + o;
    hide OptIndex;
    if o == [] {
      assert back == kept;
      OptIndexIs(back, -1);
    } else {
      OptIndexIs(back, n);
      assert back[..n] + back[n + 1..] == kept;
    }
  }

  // ----- the resulting length -----

  /** The OPT record, if any, belongs to the root and has no names in its rdata (section 6.1.2 of RFC 6891). */
  predicate RootOpt(extra: seq<RR>) {
    var i := OptIndex(extra);
    i >= 0 ==> extra[i].name == [DOT] && forall j :: 0 <= j < |extra[i].rdata| ==> extra[i].rdata[j].Raw?
  }

  lemma {:induction false} RawLen(fs: seq<Field>, off: nat, off': nat, x: Seen, y: Seen)
    requires forall j :: 0 <= j < |fs| ==> fs[j].Raw?
    ensures FieldsLen(fs, off, x).len == FieldsLen(fs, off', y).len && FieldsLen(fs, off, x).seen == x
    decreases |fs|
  {
    hide NameLen;
    if fs != [] {
      RawLen(fs[1..], off + |fs[0].data|, off' + |fs[0].data|, x, y);
    }
  }

  /** A root-owned record without names has the same length everywhere and adds no suffix. */
  lemma {:induction false} RootRRLen(rr: RR, off: nat, x: Seen)
    requires rr.name == [DOT] && forall j :: 0 <= j < |rr.rdata| ==> rr.rdata[j].Raw?
    ensures RRLen(rr, off, x) == Sized(RRLen(rr, 0, NoSeen).len, x)
  {
    RawLen(rr.rdata, off + 11, 11, x, NoSeen);
  }

  /** A single name compresses to itself. */
  lemma {:induction false} FreshSearchFindsNothing(c: set<Text>, t: Text, at: nat)
    requires forall k :: k in c ==> |k| > |t|
    ensures LenSearch(c, t, at).NotFound?
    decreases |t|
  {
    hide AfterDot;
    if t != [] {
      FreshSearchFindsNothing(if at < MAX_COMPRESSION_OFFSET then c + {t} else c,
                              AfterDot(t), at + |t| - |AfterDot(t)|);
    }
  }

  lemma {:induction false} OneQuestionLen(qs: seq<Question>, off: nat)
    requires |qs| <= 1
    ensures QuestionsLen(qs, off, Seen({})).len == QuestionsLen(qs, off, NoSeen).len
  {
    if qs != [] {
      FreshSearchFindsNothing({}, qs[0].name, off);
      assert qs[1..] == [];
    }
  }

  /** Length of a message whose sections are `a`, `n` and `e` with root-owned records `o` at the end. */
  lemma {:induction false} SectionsLen(m: Msg, all: seq<RR>, o: seq<RR>, x: Seen)
    requires m.answer + m.ns + m.extra == all + o && |o| <= 1
    requires o != [] ==> o[0].name == [DOT] && forall j :: 0 <= j < |o[0].rdata| ==> o[0].rdata[j].Raw?
    ensures var q := QuestionsLen(m.question, HEADER_SIZE, x);
            MsgLen(m, x) == RRsLen(all, q.len, q.seen).len + if o == [] then 0 else RRLen(o[0], 0, NoSeen).len
  {
    hide QuestionsLen, RRLen;
    var q := QuestionsLen(m.question, HEADER_SIZE, x);
    RRsLenAppend(m.answer, m.ns, q.len, q.seen);
    RRsLenAppend(m.answer + m.ns, m.extra, q.len, q.seen);
    RRsLenAppend(all, o, q.len, q.seen);
    var r := RRsLen(all, q.len, q.seen);
    if o != [] {
      RootRRLen(o[0], r.len, r.seen);
      assert o[1..] == [];
    }
  }

  /** What is left when header, questions and OPT alone do not fit: no records. */
  lemma {:induction false} NothingFits(m: Msg, size: int)
    requires !IsTsig(m) && MsgLen(m, NoSeen) > Limit(size)
    requires PrefixLen(m, 0) + OptLen(m.extra) > Limit(size)
    ensures Chosen(m, size) == []
  {
    var q := QuestionsLen(m.question, HEADER_SIZE, Seen({}));
    assert Candidates(m)[..0] == [];
    hide RRLen, QuestionsLen, MsgLen, OptLen, WithoutOpt, OptOf, Chosen;
    RRsLenNone(q.len, q.seen);
    ChosenIs(m, size, 0, 0, 0);
  }

  /** The compressed length of a truncated message is that of the prefix it keeps, plus the OPT record. */
  lemma {:induction false} TruncatedLen(m: Msg, size: int)
    requires !IsTsig(m) && MsgLen(m, NoSeen) > Limit(size) && RootOpt(m.extra)
    requires |Chosen(m, size)| <= |Candidates(m)| && Chosen(m, size) == Candidates(m)[..|Chosen(m, size)|]
    ensures Len(Truncated(m, size)) == PrefixLen(m, |Chosen(m, size)|) + OptLen(m.extra)
  {
    var t := Truncated(m, size);
    var o := OptOf(m.extra);
    TruncatedShape(m, size);
    hide RRsLen, RRLen, MsgLen, Truncated, QuestionsLen;
    var q := QuestionsLen(m.question, HEADER_SIZE, Seen({}));
    if IsCompressible(t) {
      SectionsLen(t, Chosen(m, size), o, Seen({}));
    } else {
      var q' := QuestionsLen(m.question, HEADER_SIZE, NoSeen);
      SectionsLen(t, Chosen(m, size), o, NoSeen);
      OneQuestionLen(m.question, HEADER_SIZE);
      RRsLenNone(q.len, q.seen);
      RRsLenNone(q'.len, q'.seen);
    }
  }

  /** The OPT record survives at the end; everything else in the result is chosen or untouched. */
  lemma {:induction false} TruncatedShape(m: Msg, size: int)
    requires !IsTsig(m) && MsgLen(m, NoSeen) > Limit(size)
    ensures var t := Truncated(m, size);
            && t.question == m.question && t.compress
            && t.answer + t.ns + t.extra == Chosen(m, size) + OptOf(m.extra)
            && OptOf(t.extra) == OptOf(m.extra)
            && t.extra == WithoutOpt(t.extra) + OptOf(t.extra)
  {
    hide RRLen, QuestionsLen, MsgLen, KeepSection, OptLen, WithoutOpt, OptOf;
    var t := Truncated(m, size);
    var n :| 0 <= n <= |WithoutOpt(m.extra)| && t.extra == WithoutOpt(m.extra)[..n] + OptOf(m.extra);
    PutBack(m.extra, n);
    assert t.answer + t.ns + (WithoutOpt(t.extra) + OptOf(t.extra)) ==
        (t.answer + t.ns + WithoutOpt(t.extra)) + OptOf(t.extra);
  }

  // ----- compression only shortens -----

  lemma {:induction false} NameLenShorter(s: Text, off: nat, off': nat, x: Seen)
    requires FullyQualified(s)
    ensures NameLen(s, off, x, true).len <= NameLen(s, off', NoSeen, true).len
  {
    assert s != [];
    if s != [DOT] && x.Seen? {
      LenSearchShape(x.names, s, off);
      var r := LenSearch(x.names, s, off);
      if r.Found? {
        EndsInDotEndsWithDot(s);
        assert r.rest[|r.rest| - 1] == s[|s| - 1];
        DotCounts(r.rest);
      }
    }
  }

  /** A text that ends in a dot stands for at least one octet. */
  lemma DotCounts(t: Text)
    requires t != [] && t[|t| - 1] == DOT
    ensures EscapedLen(t) >= 1
  {
  }

  lemma {:induction false} QuestionsLenShorter(qs: seq<Question>, off: nat, off': nat, x: Seen)
    requires QuestionsNames(qs) && off <= off'
    ensures QuestionsLen(qs, off, x).len <= QuestionsLen(qs, off', NoSeen).len
    decreases |qs|
  {
    hide NameLen, FullyQualified;
    if qs != [] {
      assert QuestionsNames(qs[1..]);
      NameLenShorter(qs[0].name, off, off', x);
      NameLenKeepsSeen(qs[0].name, off', NoSeen, true);
      var one := QuestionLen(qs[0], off, x);
      QuestionsLenShorter(qs[1..], off + one.len, off' + QuestionLen(qs[0], off', NoSeen).len, one.seen);
    }
  }

  lemma {:induction false} RRsLenAtLeast(rrs: seq<RR>, i: nat, off: nat, x: Seen)
    requires i < |rrs| && rrs[i].name == [DOT] && forall j :: 0 <= j < |rrs[i].rdata| ==> rrs[i].rdata[j].Raw?
    ensures RRsLen(rrs, off, x).len >= off + RRLen(rrs[i], 0, NoSeen).len
    decreases i
  {
    hide RRLen;
    var one := RRLen(rrs[0], off, x);
    if i == 0 {
      RootRRLen(rrs[0], off, x);
    } else {
      assert rrs[1..][i - 1] == rrs[i];
      RRsLenAtLeast(rrs[1..], i - 1, off + one.len, one.seen);
    }
  }

  /** Header, questions and OPT are part of the message. */
  lemma {:induction false} FrameWithinMessage(m: Msg)
    requires FullNames(m) && RootOpt(m.extra)
    ensures PrefixLen(m, 0) + OptLen(m.extra) <= MsgLen(m, NoSeen)
  {
    var i := OptIndex(m.extra);
    assert Candidates(m)[..0] == [];
    hide RRLen, QuestionsLen, OptIndex;
    QuestionsLenShorter(m.question, HEADER_SIZE, HEADER_SIZE, Seen({}));
    var q := QuestionsLen(m.question, HEADER_SIZE, NoSeen);
    var a := RRsLen(m.answer, q.len, q.seen);
    var n := RRsLen(m.ns, a.len, a.seen);
    if i >= 0 {
      RRsLenAtLeast(m.extra, i, n.len, n.seen);
    }
  }

  // ----- the main results -----

  /**
   * The truncated message fits the requested size (512 octets at least) exactly when header,
   * questions and OPT record alone do.
   */
  lemma {:induction false} TruncateFits(m: Msg, size: int)
    requires !IsTsig(m) && RootOpt(m.extra) && FullNames(m)
    ensures Len(Truncated(m, size)) <= Limit(size) <==> PrefixLen(m, 0) + OptLen(m.extra) <= Limit(size)
  {
    hide Chosen, Candidates, PrefixLen, OptLen, RootOpt, FullNames, MsgLen;
    if MsgLen(m, NoSeen) <= Limit(size) {
      FrameWithinMessage(m);
      UncompressedLen(m);
    } else if PrefixLen(m, 0) + OptLen(m.extra) <= Limit(size) {
      TruncateKeepsLongestPrefix(m, size);
      TruncatedLen(m, size);
    } else {
      NothingFits(m, size);
      NoneIsPrefix(m);
      TruncatedLen(m, size);
    }
  }

  lemma NoneIsPrefix(m: Msg)
    ensures [] == Candidates(m)[..0]
  {
  }

  lemma UncompressedLen(m: Msg)
    ensures Len(m.(compress := false)) == MsgLen(m, NoSeen)
  {
  }

  /** TC is set exactly when it was set before or a record was dropped, and the OPT record stays. */
  lemma {:induction false} TruncateFlagsAndOpt(m: Msg, size: int)
    requires !IsTsig(m)
    ensures var t := Truncated(m, size);
            && (t.hdr.truncated <==> m.hdr.truncated || |Chosen(m, size)| < |Candidates(m)|)
            && t.hdr == m.hdr.(truncated := t.hdr.truncated)
            && OptOf(t.extra) == OptOf(m.extra) && t.question == m.question
  {
    hide RRLen, QuestionsLen, MsgLen, KeepSection, OptLen;
    if MsgLen(m, NoSeen) > Limit(size) {
      TruncatedShape(m, size);
    }
  }

  lemma {:induction false} TruncatedFullNames(m: Msg, size: int)
    requires FullNames(m)
    ensures FullNames(Truncated(m, size))
  {
    hide RRLen, QuestionsLen, MsgLen, KeepSection, OptLen, WithoutOpt, OptOf, RRNames, QuestionsNames;
    var t := Truncated(m, size);
    if !IsTsig(m) && MsgLen(m, NoSeen) > Limit(size) {
      var n :| 0 <= n <= |WithoutOpt(m.extra)| && t.extra == WithoutOpt(m.extra)[..n] + OptOf(m.extra);
      KeptNames(m.extra, n);
    }
  }

  lemma {:induction false} KeptNames(extra: seq<RR>, n: nat)
    requires RRsNames(extra) && n <= |WithoutOpt(extra)|
    ensures RRsNames(WithoutOpt(extra)[..n] + OptOf(extra))
  {
    hide RRNames;
    forall rr | rr in WithoutOpt(extra) ensures rr in extra {
    }
    var r := WithoutOpt(extra)[..n] + OptOf(extra);
    forall i | 0 <= i < |r| ensures RRNames(r[i]) {
      assert i < n ==> r[i] == WithoutOpt(extra)[i] && r[i] in WithoutOpt(extra);
      assert r[i] in extra;
    }
  }

  /** What goes on the wire after truncation is no longer than asked for. */
  lemma {:induction false} TruncatedPacketFits(m: Msg, size: int, buflen: nat)
    requires !IsTsig(m) && RootOpt(m.extra) && FullNames(m)
    requires PrefixLen(m, 0) + OptLen(m.extra) <= Limit(size) && PackMsg(Truncated(m, size), buflen).Sent?
    ensures |PackMsg(Truncated(m, size), buflen).octets| <= Limit(size)
  {
    hide Truncated, PackMsg, Len, PrefixLen, FullNames;
    TruncateFits(m, size);
    TruncatedFullNames(m, size);
    LenCoversPack(Truncated(m, size), buflen);
  }
}
