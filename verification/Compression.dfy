/**
 * The compression map over a growing message: every entry decodes to the labels of its key,
 * pointers go backward to a literal label, and packed names unpack to what was packed.
 */
module Compression {
  import opened Octets
  import opened Presentation
  import opened Qualified
  import opened NamePack
  import opened NameUnpack

  /**
   * The name at `pos` spells `ls` and uses at most `hops` pointers, each of which goes strictly
   * backward and lands on a literal label.
   */
  ghost predicate Decodes(buf: seq<byte>, pos: nat, ls: seq<Label>, hops: nat)
    decreases |ls| + hops
  {
    pos < |buf| &&
    var c := buf[pos] as int;
    if c == 0 then ls == []
    else if c < 64 then
      && ls != [] && pos + 1 + c <= |buf| && ls[0] == buf[pos + 1..pos + 1 + c]
      && Decodes(buf, pos + 1 + c, ls[1..], hops)
    else
      && c >= 192 && hops > 0 && pos + 1 < |buf|
      && Target(buf, pos) < pos && 1 <= buf[Target(buf, pos)] < 64
      && Decodes(buf, Target(buf, pos), ls, hops - 1)
  }

  /** The octets of the name at `pos` end just before `end`. */
  ghost predicate Spans(buf: seq<byte>, pos: nat, end: nat)
    decreases |buf| - pos
  {
    pos < |buf| &&
    var c := buf[pos] as int;
    if c == 0 then end == pos + 1
    else if c < 64 then pos + 1 + c <= |buf| && Spans(buf, pos + 1 + c, end)
    else c >= 192 && end == pos + 2 <= |buf|
  }

  lemma {:induction false} DecodesExtend(buf: seq<byte>, more: seq<byte>, pos: nat, ls: seq<Label>, hops: nat)
    requires Decodes(buf, pos, ls, hops)
    ensures Decodes(buf + more, pos, ls, hops)
    decreases |ls| + hops
  {
    var c := buf[pos] as int;
    if 0 < c < 64 {
      assert (buf + more)[pos + 1..pos + 1 + c] == buf[pos + 1..pos + 1 + c];
      DecodesExtend(buf, more, pos + 1 + c, ls[1..], hops);
    } else if c >= 192 {
      DecodesExtend(buf, more, Target(buf, pos), ls, hops - 1);
    }
  }

  lemma {:induction false} SpansExtend(buf: seq<byte>, more: seq<byte>, pos: nat, end: nat)
    requires Spans(buf, pos, end)
    ensures Spans(buf + more, pos, end) && end <= |buf|
    decreases |buf| - pos
  {
    var c := buf[pos] as int;
    if 0 < c < 64 {
      SpansExtend(buf, more, pos + 1 + c, end);
    }
  }

  lemma {:induction false} DecodesMore(buf: seq<byte>, pos: nat, ls: seq<Label>, h: nat, hops: nat)
    requires Decodes(buf, pos, ls, h) && h <= hops
    ensures Decodes(buf, pos, ls, hops)
    decreases |ls| + h
  {
    var c := buf[pos] as int;
    if 0 < c < 64 {
      DecodesMore(buf, pos + 1 + c, ls[1..], h, hops);
    } else if c >= 192 {
      DecodesMore(buf, Target(buf, pos), ls, h - 1, hops - 1);
    }
  }

  /** Entry `k` at `p`: a literal label within reach of a pointer, spelling the labels of `k`. */
  ghost predicate Entry(buf: seq<byte>, k: Text, p: nat) {
    && GoodName(k)
    && p < MAX_COMPRESSION_OFFSET && p < |buf| && 1 <= buf[p] < 64
    && Decodes(buf, p, Labels(k), |Labels(k)| - 1)
  }

  /** The entries whose keys are no longer than `n` are in order. */
  ghost predicate EntriesUpTo(buf: seq<byte>, x: Index, n: nat) {
    x.Index? ==> forall k :: k in x.at && |k| <= n ==> Entry(buf, k, x.at[k])
  }

  /** The compression-map invariant. */
  ghost predicate MapInv(buf: seq<byte>, x: Index) {
    x.Index? ==> forall k :: k in x.at ==> Entry(buf, k, x.at[k])
  }

  lemma {:induction false} EntryExtend(buf: seq<byte>, more: seq<byte>, k: Text, p: nat)
    requires Entry(buf, k, p)
    ensures Entry(buf + more, k, p)
  {
    DecodesExtend(buf, more, p, Labels(k), |Labels(k)| - 1);
  }

  lemma {:induction false} EntriesExtend(buf: seq<byte>, more: seq<byte>, x: Index, n: nat)
    requires EntriesUpTo(buf, x, n)
    ensures EntriesUpTo(buf + more, x, n)
  {
    if x.Index? {
      forall k | k in x.at && |k| <= n ensures Entry(buf + more, k, x.at[k]) {
        EntryExtend(buf, more, k, x.at[k]);
      }
    }
  }

  lemma {:induction false} MapExtend(buf: seq<byte>, more: seq<byte>, x: Index)
    requires MapInv(buf, x)
    ensures MapInv(buf + more, x)
  {
    if x.Index? {
      forall k | k in x.at ensures Entry(buf + more, k, x.at[k]) {
        EntryExtend(buf, more, k, x.at[k]);
      }
    }
  }

  /** `y` is `x` plus entries whose keys are no longer than `n`. */
  ghost predicate Grown(x: Index, y: Index, n: nat) {
    && y.Index? == x.Index?
    && (x.Index? ==> forall k :: k in x.at ==> k in y.at && y.at[k] == x.at[k])
    && (x.Index? ==> forall k :: k in y.at && |k| > n ==> k in x.at)
  }

  lemma {:induction false} PackLabelsGrows(t: Text, off: nat, cap: nat, x: Index, compress: bool)
    requires EndsInDot(t) && PackLabels(t, off, cap, x, compress).Packed?
    ensures Grown(x, PackLabels(t, off, cap, x, compress).index, |t|)
    decreases |t|
  {
    hide FirstDot, FirstLabel, HasEscape, PackLabels;
    if t == [] {
      PackNoLabels(off, cap, x, compress);
    } else {
      PackLabelsUnfold(t, off, cap, x, compress);
      if !(compress && x.Index? && t in x.at) {
        PackLabelsGrows(AfterDot(t), off + 1 + |FirstLabel(t)|, cap, Note(x, t, off), compress);
      }
    }
  }

  /** The labels of `t` lie at `pos` and end the message. */
  ghost predicate PlacedAt(b: seq<byte>, pos: nat, t: Text) {
    Decodes(b, pos, Labels(t), |Labels(t)|) && Spans(b, pos, |b|)
  }

  /** A pointer to an entry spells the key. */
  lemma {:induction false} PointerDecodes(buf: seq<byte>, t: Text, p: nat)
    requires Entry(buf, t, p)
    ensures PlacedAt(buf + Pointer(p), |buf|, t)
  {
    hide Pointer, Target, Labels, EndsInDot, GoodLabels;
    EntryExtend(buf, Pointer(p), t, p);
    PointerTarget(buf, p);
  }

  lemma {:induction false} PointerTarget(buf: seq<byte>, p: nat)
    requires p < MAX_COMPRESSION_OFFSET
    ensures var b := buf + Pointer(p); |b| == |buf| + 2 && b[|buf|] >= 192 && Target(b, |buf|) == p
  {
    var b := buf + Pointer(p);
    assert p / 256 % 256 == p / 256 < 64;
    assert b[|buf|] == 192 + p / 256 && b[|buf| + 1] == p % 256;
  }

  /** A literal label in front of a name that decodes. */
  lemma {:induction false} LabelDecodes(buf: seq<byte>, l: Label, rest: seq<byte>, ls: seq<Label>, hops: nat,
                                        b: seq<byte>)
    requires GoodLabel(l) && b == buf + ([|l|] + l) + rest
    requires Decodes(b, |buf| + 1 + |l|, ls, hops) && Spans(b, |buf| + 1 + |l|, |b|)
    ensures Decodes(b, |buf|, [l] + ls, hops) && Spans(b, |buf|, |b|) && b[|buf|] == |l|
  {
    assert b[|buf|] == |l|;
    assert b[|buf| + 1..|buf| + 1 + |l|] == l;
    LabelInFront(b, |buf|, l, ls, hops);
  }

  lemma {:induction false} LabelInFront(b: seq<byte>, p: nat, l: Label, ls: seq<Label>, hops: nat)
    requires GoodLabel(l) && p + 1 + |l| <= |b| && b[p] == |l| && b[p + 1..p + 1 + |l|] == l
    requires Decodes(b, p + 1 + |l|, ls, hops) && Spans(b, p + 1 + |l|, |b|)
    ensures Decodes(b, p, [l] + ls, hops) && Spans(b, p, |b|)
  {
    assert ([l] + ls)[1..] == ls;
  }

  /**
   * Packing labels at the end of `buf`: afterwards the name decodes with no more pointers than
   * labels, and all entries, old and new, are in order.
   */
  lemma {:induction false} PackLabelsInv(t: Text, buf: seq<byte>, cap: nat, x: Index, compress: bool)
    requires EndsInDot(t) && PackLabels(t, |buf|, cap, x, compress).Packed? && EntriesUpTo(buf, x, |t|)
    ensures GoodLabels(Labels(t))
    ensures var r := PackLabels(t, |buf|, cap, x, compress);
            PlacedAt(buf + r.out, |buf|, t) && EntriesUpTo(buf + r.out, r.index, |t|)
    decreases |t|
  {
    hide FirstDot, FirstLabel, HasEscape, PackLabels, PlacedAt, Pointer, EntriesUpTo, GoodLabels, Note, AfterDot, Grown;
    if t == [] {
      PackNoLabels(|buf|, cap, x, compress);
      RootDecodes(buf);
      EntriesExtend(buf, [0], x, 0);
    } else {
      PackLabelsUnfold(t, |buf|, cap, x, compress);
      if compress && x.Index? && t in x.at {
        EntryOf(buf, x, t);
        PointerDecodes(buf, t, x.at[t]);
        EntriesExtend(buf, Pointer(x.at[t]), x, |t|);
      } else {
        var l, u := FirstLabel(t), AfterDot(t);
        var x1 := Note(x, t, |buf|);
        NoteKeeps(buf, x, t, |u|);
        EntriesExtend(buf, [|l|] + l, x1, |u|);
        PackLabelsInv(u, buf + ([|l|] + l), cap, x1, compress);
        PackLabelsGrows(u, |buf| + 1 + |l|, cap, x1, compress);
        var rest := PackLabels(u, |buf| + 1 + |l|, cap, x1, compress);
        var b := buf + ([|l|] + l) + rest.out;
        PackLabelsStep(t, l, u, buf, x, rest.out, rest.index, b);
        assert b == buf + ([|l|] + l + rest.out);
      }
    }
  }

  lemma {:induction false} EntryOf(buf: seq<byte>, x: Index, t: Text)
    requires x.Index? && t in x.at && EntriesUpTo(buf, x, |t|)
    ensures Entry(buf, t, x.at[t]) && GoodLabels(Labels(t))
  {
  }

  lemma {:induction false} NoteKeeps(buf: seq<byte>, x: Index, t: Text, n: nat)
    requires n < |t| && EntriesUpTo(buf, x, |t|)
    ensures EntriesUpTo(buf, Note(x, t, |buf|), n)
  {
  }

  /** One literal label in front of what has been packed for the rest. */
  lemma {:induction false} PackLabelsStep(t: Text, l: Label, u: Text, buf: seq<byte>, x: Index, out: seq<byte>,
                                          y: Index, b: seq<byte>)
    requires GoodLabel(l) && b == buf + ([|l|] + l) + out && t != [] && u == AfterDot(t) && l == FirstLabel(t)
    requires PlacedAt(b, |buf| + 1 + |l|, u) && EntriesUpTo(b, y, |u|)
    requires GoodLabels(Labels(u)) && EntriesUpTo(buf, x, |t|) && Grown(Note(x, t, |buf|), y, |u|) && EndsInDot(t)
    ensures GoodLabels(Labels(t)) && PlacedAt(b, |buf|, t) && EntriesUpTo(b, y, |t|)
  {
    hide FirstDot, FirstLabel, EndsInDot, Decodes, Spans, Entry, EntriesUpTo, GoodLabels, Grown, Note, Labels;
    assert b == buf + ([|l|] + l + out);
    LabelsUnfold(t);
    GoodLabelsUnfold(t);
    var ls := Labels(u);
    LabelDecodes(buf, l, out, ls, |ls|, b);
    assert Labels(t) == [l] + ls;
    DecodesMore(b, |buf|, Labels(t), |ls|, |Labels(t)|);
    NewEntry(b, t, |buf|);
    EntriesCombine(buf, [|l|] + l + out, t, u, x, y);
  }

  lemma {:induction false} NewEntry(b: seq<byte>, t: Text, p: nat)
    requires t != [] && EndsInDot(t) && GoodLabels(Labels(t))
    requires p < |b| && 1 <= b[p] < 64 && Decodes(b, p, Labels(t), |Labels(t)| - 1)
    ensures p < MAX_COMPRESSION_OFFSET ==> Entry(b, t, p)
  {
  }

  /** Old entries, the entry for `t` and the entries for shorter suffixes together. */
  lemma {:induction false} EntriesCombine(buf: seq<byte>, out: seq<byte>, t: Text, u: Text, x: Index, y: Index)
    requires |u| < |t| && Grown(Note(x, t, |buf|), y, |u|)
    requires EntriesUpTo(buf, x, |t|) && EntriesUpTo(buf + out, y, |u|)
    requires |buf| < MAX_COMPRESSION_OFFSET ==> Entry(buf + out, t, |buf|)
    ensures EntriesUpTo(buf + out, y, |t|)
  {
    hide Entry;
    if x.Index? {
      EntriesExtend(buf, out, x, |t|);
      forall k | k in y.at && |k| <= |t| ensures Entry(buf + out, k, y.at[k]) {
        if |k| > |u| {
          assert k in Note(x, t, |buf|).at;
        }
      }
    }
  }

  lemma {:induction false} RootDecodes(buf: seq<byte>)
    ensures Decodes(buf + [0], |buf|, [], 0) && Spans(buf + [0], |buf|, |buf| + 1) && PlacedAt(buf + [0], |buf|, [])
  {
  }

  /** A name at `pos` that spells `ls` and ends before `end`. */
  ghost predicate NameAt(buf: seq<byte>, pos: nat, ls: seq<Label>, end: nat) {
    GoodLabels(ls) && Decodes(buf, pos, ls, |ls|) && Spans(buf, pos, end)
  }

  lemma {:induction false} NameAtExtend(buf: seq<byte>, more: seq<byte>, pos: nat, ls: seq<Label>, end: nat)
    requires NameAt(buf, pos, ls, end)
    ensures NameAt(buf + more, pos, ls, end)
  {
    DecodesExtend(buf, more, pos, ls, |ls|);
    SpansExtend(buf, more, pos, end);
  }

  /**
   * The map invariant is kept by packing any name at the end of a message, and the name is there
   * afterwards, reachable with no more pointers than it has labels.
   */
  lemma {:induction false} PackNameKeepsMap(s: Text, buf: seq<byte>, cap: nat, x: Index, compress: bool)
    requires FullyQualified(s) && MapInv(buf, x) && PackName(s, |buf|, cap, x, compress).Packed?
    ensures var r := PackName(s, |buf|, cap, x, compress);
            && MapInv(buf + r.out, r.index) && r.index.Index? == x.Index?
            && NameAt(buf + r.out, |buf|, NameLabels(s), |buf + r.out|)
  {
    assert s != [];
    hide PackLabels, Decodes, Spans, Entry, IsFqdn, EndsInDot;
    var r := PackName(s, |buf|, cap, x, compress);
    if s == [DOT] {
      RootDecodes(buf);
      MapExtend(buf, [0], x);
    } else {
      PackLabelsInv(s, buf, cap, x, compress);
      PackLabelsGrows(s, |buf|, cap, x, compress);
      MapExtend(buf, r.out, x);
      if x.Index? {
        forall k | k in r.index.at ensures Entry(buf + r.out, k, r.index.at[k]) {
          if |k| > |s| {
            assert k in x.at;
          }
        }
      }
    }
  }

  /**
   * Exactly when a name that decodes is accepted by the unpacker: its pointer chain fits the cap
   * and its wire form fits the budget. The unpacker then returns its labels and its end.
   */
  lemma {:induction false} FollowExact(buf: seq<byte>, pos: nat, ls: seq<Label>, h: nat, budget: int, ptr: nat)
    requires Decodes(buf, pos, ls, h) && 0 < budget && ptr <= MAX_POINTERS
    ensures Follow(buf, pos, budget, ptr).Name? <==>
            Decodes(buf, pos, ls, MAX_POINTERS - ptr) && WireLen(ls) <= budget
    ensures var r := Follow(buf, pos, budget, ptr); r.Name? ==> r.labels == ls && Spans(buf, pos, r.next)
    decreases |ls| + h
  {
    hide Follow;
    FollowUnfold(buf, pos, budget, ptr);
    var c := buf[pos] as int;
    if 0 < c < 64 {
      if budget - (c + 1) > 0 {
        FollowExact(buf, pos + 1 + c, ls[1..], h, budget - (c + 1), ptr);
      }
    } else if c >= 192 {
      if ptr + 1 <= MAX_POINTERS {
        FollowExact(buf, Target(buf, pos), ls, h - 1, budget, ptr + 1);
      }
    }
  }

  lemma {:induction false} SpansUnique(buf: seq<byte>, pos: nat, a: nat, b: nat)
    requires Spans(buf, pos, a) && Spans(buf, pos, b)
    ensures a == b
    decreases |buf| - pos
  {
    var c := buf[pos] as int;
    if 0 < c < 64 {
      SpansUnique(buf, pos + 1 + c, a, b);
    }
  }

  /** A name that is in place unpacks to its labels when it has at most 126 labels and 255 octets. */
  lemma {:induction false} NameAtUnpacks(buf: seq<byte>, pos: nat, ls: seq<Label>, end: nat)
    requires NameAt(buf, pos, ls, end)
    ensures UnpackName(buf, pos).Name? <==>
            Decodes(buf, pos, ls, 126) && WireLen(ls) <= 255
    ensures |ls| <= 126 && WireLen(ls) <= 255 ==> UnpackName(buf, pos) == Name(ls, end)
  {
    hide Follow, Decodes, Spans, WireLen, GoodLabels;
    FollowExact(buf, pos, ls, |ls|, MAX_WIRE_OCTETS, 0);
    if |ls| <= MAX_POINTERS && WireLen(ls) <= MAX_WIRE_OCTETS {
      DecodesMore(buf, pos, ls, |ls|, MAX_POINTERS);
      SpansUnique(buf, pos, end, UnpackName(buf, pos).next);
    }
  }

  /** Names the library can carry both ways (section 2.3.4 of RFC 1035, less the one label the pointer cap costs). */
  predicate Portable(s: Text) {
    && FullyQualified(s)
    && GoodLabels(NameLabels(s))
    && |NameLabels(s)| <= MAX_POINTERS
    && WireLen(NameLabels(s)) <= MAX_WIRE_OCTETS
  }

  lemma PortableIsNameable(s: Text)
    requires Portable(s)
    ensures Nameable(s)
  {
  }

  lemma PortableIsQualified(s: Text)
    requires Portable(s)
    ensures FullyQualified(s)
  {
  }

  /** Pack then unpack, with compression, anywhere in a message: the name comes back in normal form. */
  lemma {:induction false} NameRoundTrip(s: Text, buf: seq<byte>, more: seq<byte>, cap: nat, x: Index, compress: bool)
    requires Portable(s) && MapInv(buf, x) && PackName(s, |buf|, cap, x, compress).Packed?
    ensures var out := PackName(s, |buf|, cap, x, compress).out;
            UnpackName(buf + out + more, |buf|) == Name(NameLabels(s), |buf| + |out|)
  {
    hide PackName, NameAt, Follow, IsFqdn, EndsInDot, MapInv;
    var out := PackName(s, |buf|, cap, x, compress).out;
    PackNameKeepsMap(s, buf, cap, x, compress);
    NameAtExtend(buf + out, more, |buf|, NameLabels(s), |buf + out|);
    NameAtUnpacks(buf + out + more, |buf|, NameLabels(s), |buf + out|);
  }
}
