/** Packing domain names with compression (sections 3.1 and 4.1.4 of RFC 1035). */
module NamePack {
  import opened Octets
  import opened Wrappers
  import opened Presentation
  import opened Qualified

  /** Offsets below this fit the 14 bits of a pointer. */
  const MAX_COMPRESSION_OFFSET := 0x4000

  datatype PackError = ErrFqdn | ErrRdata | ErrBuf | ErrRcode | ErrExtendedRcode

  /** A compression map: absent, or offsets of name suffixes already written. */
  datatype Index = NoIndex | Index(at: map<Text, nat>)

  /** What packing produces: the octets written and the updated map, or an error. */
  datatype Packed = Packed(out: seq<byte>, index: Index) | Failed(error: PackError)

  /** Flip the top two bits of an octet. */
  function FlipTop(b: byte): byte {
    if b < 64 then b + 192 else if b < 128 then b + 64 else if b < 192 then b - 64 else b - 192
  }

  /** The two octets of a compression pointer. */
  function Pointer(p: nat): (o: seq<byte>)
    ensures |o| == 2
  {
    [FlipTop(p / 256 % 256), p % 256]
  }

  /** The map after a label that starts suffix `t` has been written at `off`. */
  function Note(x: Index, t: Text, off: nat): (y: Index)
    ensures y.Index? == x.Index?
  {
    if x.Index? && t !in x.at && off < MAX_COMPRESSION_OFFSET then Index(x.at[t := off]) else x
  }

  predicate HasEscape(t: Text) {
    BACKSLASH in t[..FirstDot(t)]
  }

  function Prepend(o: seq<byte>, p: Packed): Packed {
    match p
    case Packed(out, x) => Packed(o + out, x)
    case Failed(_) => p
  }

  /**
   * Label by label: what is written for the labels of `t` when the first of them goes at `off`
   * of a buffer of `cap` octets.
   */
  function PackLabels(t: Text, off: nat, cap: nat, x: Index, compress: bool): Packed
    decreases |t|
  {
    if HasEscape(t) && off + 1 > cap then Failed(ErrBuf)
    else if FirstDot(t) == |t| then
      if off < cap then Packed([0], x) else Failed(ErrBuf)
    else
      var l := FirstLabel(t);
      if !GoodLabel(l) then Failed(ErrRdata)
      else if off + 1 + |l| > cap then Failed(ErrBuf)
      else if compress && x.Index? && t in x.at then Packed(Pointer(x.at[t]), x)
      else Prepend([|l|] + l, PackLabels(AfterDot(t), off + 1 + |l|, cap, Note(x, t, off), compress))
  }

  /** `packDomainName` as a function: the octets written at `off` and the new map. */
  function PackName(s: Text, off: nat, cap: nat, x: Index, compress: bool): Packed {
    if s == [] then Packed([], x)
    else if !IsFqdn(s) then Failed(ErrFqdn)
    else if s == [DOT] then
      if off + 1 > cap then Failed(ErrBuf) else Packed([0], x)
    else PackLabels(s, off, cap, x, compress)
  }

  /** The map object shared by every name of one message. */
  class CompressionMap {
    var index: Index

    constructor (x: Index)
      ensures index == x
    {
      index := x;
    }

    method Insert(s: Text, pos: nat)
      requires index.Index?
      modifies this
      ensures index == Index(old(index).at[s := pos])
    {
      index := Index(index.at[s := pos]);
    }

    method Find(s: Text) returns (pos: nat, ok: bool)
      requires index.Index?
      ensures ok <==> s in index.at
      ensures ok ==> pos == index.at[s]
    {
      ok := s in index.at;
      pos := if ok then index.at[s] else 0;
    }
  }

  /** `after` is `before` with `out` written at `off`. */
  ghost predicate Written(before: seq<byte>, after: seq<byte>, off: nat, out: seq<byte>) {
    if out == [] then after == before
    else off + |out| <= |before| && after == before[..off] + out + before[off + |out|..]
  }

  lemma WrittenThen(a: seq<byte>, b: seq<byte>, c: seq<byte>, off: nat, o: seq<byte>, p: seq<byte>)
    requires Written(a, b, off, o) && Written(b, c, off + |o|, p)
    ensures Written(a, c, off, o + p)
  {
    if p == [] {
      assert o + p == o;
    } else if o == [] {
      assert o + p == p;
    } else {
      assert c == a[..off] + (o + p) + a[off + |o + p|..];
    }
  }

  lemma PrependPrepend(a: seq<byte>, b: seq<byte>, p: Packed)
    ensures Prepend(a, Prepend(b, p)) == Prepend(a + b, p)
    ensures Prepend([], p) == p
  {
    if p.Packed? {
      assert a + (b + p.out) == (a + b) + p.out;
      assert [] + p.out == p.out;
    }
  }

  /**
   * Reading position `k` inside the label that starts at `b`: `cur` holds the octets read so far,
   * and the rest of the label is the first label of what is left.
   */
  ghost predicate Inside(s: Text, b: nat, k: nat, cur: Label) {
    && b <= k <= |s|
    && b + FirstDot(s[b..]) == k + FirstDot(s[k..])
    && FirstLabel(s[b..]) == cur + FirstLabel(s[k..])
    && (cur == [] <==> b == k)
  }

  lemma {:induction false} InsideStart(s: Text, b: nat)
    requires b <= |s|
    ensures Inside(s, b, b, [])
  {
    assert [] + FirstLabel(s[b..]) == FirstLabel(s[b..]);
  }

  lemma {:induction false} InsideStep(s: Text, b: nat, k: nat, cur: Label)
    requires Inside(s, b, k, cur) && k < |s| && s[k] != DOT
    ensures Inside(s, b, k + UnitLen(s[k..]), cur + [UnitOctet(s[k..])])
    ensures BACKSLASH == s[k] ==> HasEscape(s[b..])
  {
    hide FirstDot, FirstLabel, UnitLen, UnitOctet;
    var t, u := s[k..], s[b..];
    var n := UnitLen(t);
    UnitStep(t);
    assert t[n..] == s[k + n..];
    var rest := FirstLabel(t[n..]);
    assert cur + ([UnitOctet(t)] + rest) == (cur + [UnitOctet(t)]) + rest;
    if s[k] == BACKSLASH {
      assert u[..FirstDot(u)][k - b] == s[k];
    }
  }

  lemma {:induction false} InsideAtDot(s: Text, b: nat, k: nat, cur: Label)
    requires Inside(s, b, k, cur) && (k == |s| || s[k] == DOT)
    ensures FirstLabel(s[b..]) == cur && FirstDot(s[b..]) == k - b
    ensures s[b..][..FirstDot(s[b..])] == s[b..k]
    ensures k < |s| ==> AfterDot(s[b..]) == s[k + 1..] && Inside(s, k + 1, k + 1, [])
  {
    LabelEnded(s[k..]);
    hide FirstDot, FirstLabel;
    var t := s[b..];
    assert cur + [] == cur;
    assert t[..k - b] == s[b..k];
    if k < |s| {
      assert t[k - b + 1..] == s[k + 1..];
      InsideStart(s, k + 1);
    }
  }

  lemma LabelEnded(t: Text)
    requires t == [] || t[0] == DOT
    ensures FirstLabel(t) == [] && FirstDot(t) == 0
  {
  }

  /** Reading the escape at position `i` of the shifted buffer sees what the text says there. */
  lemma {:induction false} ShiftedEscape(s: Text, k: nat, bs: seq<byte>, i: nat, ls: nat)
    requires k < |s| && s[|s| - 1] == DOT && s[k] == BACKSLASH
    requires i < ls <= |bs| && bs[i..ls] == s[k..]
    ensures IsDDD(bs, i + 1) <==> IsDDD(s[k..], 1)
    ensures k + 2 <= |s|
    ensures IsDDD(bs, i + 1) ==> k + 4 < |s| && DddToByte(bs, i + 1) == DddToByte(s[k..], 1)
  {
    assert forall j :: 0 <= j < |s| - k ==> bs[i + j] == bs[i..ls][j] == s[k..][j];
    if k + 4 > |s| {
      assert bs[i + (|s| - 1 - k)] == DOT;
    } else {
      assert bs[i + 1] == s[k + 1] && bs[i + 2] == s[k + 2] && bs[i + 3] == s[k + 3];
    }
  }

  // ----- one pass over the text, step by step -----

  /** What a packing run was started with, and what it has to arrive at. */
  datatype Job = Job(s: Text, off0: nat, cap: nat, x0: Index, compress: bool, result: Packed)

  /** The run has written `out` and holds map `x`; what remains is to pack the labels from `b` on. */
  ghost predicate Pending(j: Job, b: nat, out: seq<byte>, x: Index) {
    && b <= |j.s|
    && x.Index? == j.x0.Index?
    && j.result == Prepend(out, PackLabels(j.s[b..], j.off0 + |out|, j.cap, x, j.compress))
  }

  lemma {:induction false} PendingStart(j: Job)
    requires j.s != [] && j.s != [DOT] && IsFqdn(j.s)
    requires j.result == PackName(j.s, j.off0, j.cap, j.x0, j.compress)
    ensures Pending(j, 0, [], j.x0)
  {
    assert j.s[0..] == j.s;
    PrependPrepend([], [], PackLabels(j.s, j.off0, j.cap, j.x0, j.compress));
  }

  lemma {:induction false} PendingNoRoom(j: Job, b: nat, out: seq<byte>, x: Index)
    requires Pending(j, b, out, x) && HasEscape(j.s[b..]) && j.off0 + |out| + 1 > j.cap
    ensures j.result == Failed(ErrBuf)
  {
  }

  lemma PackNoLabels(off: nat, cap: nat, x: Index, compress: bool)
    ensures PackLabels([], off, cap, x, compress) == if off < cap then Packed([0], x) else Failed(ErrBuf)
    ensures Labels([]) == [] && GoodLabels([])
  {
  }

  lemma {:induction false} PackUnclosed(t: Text, off: nat, cap: nat, x: Index, compress: bool)
    requires FirstDot(t) == |t| && PackLabels(t, off, cap, x, compress).Packed?
    ensures PackLabels(t, off, cap, x, compress) == Packed([0], x)
  {
  }

  lemma {:induction false} PackLabelsUnfold(t: Text, off: nat, cap: nat, x: Index, compress: bool)
    requires FirstDot(t) < |t|
    ensures var l := FirstLabel(t);
            PackLabels(t, off, cap, x, compress) ==
            if HasEscape(t) && off + 1 > cap then Failed(ErrBuf)
            else if !GoodLabel(l) then Failed(ErrRdata)
            else if off + 1 + |l| > cap then Failed(ErrBuf)
            else if compress && x.Index? && t in x.at then Packed(Pointer(x.at[t]), x)
            else Prepend([|l|] + l, PackLabels(AfterDot(t), off + 1 + |l|, cap, Note(x, t, off), compress))
  {
    hide FirstDot, FirstLabel, HasEscape, Pointer, Note, Prepend, AfterDot;
  }

  lemma {:induction false} PendingDot(j: Job, k: nat, b: nat, cur: Label, out: seq<byte>, x: Index)
    requires b <= k < |j.s| && j.s[k] == DOT && (BACKSLASH in j.s[b..k] ==> j.off0 + |out| + 1 <= j.cap)
    requires Pending(j, b, out, x) && Inside(j.s, b, k, cur)
    ensures var off, t := j.off0 + |out|, j.s[b..];
            if !GoodLabel(cur) then j.result == Failed(ErrRdata)
            else if off + 1 + |cur| > j.cap then j.result == Failed(ErrBuf)
            else if j.compress && x.Index? && t in x.at then j.result == Packed(out + Pointer(x.at[t]), x)
            else Pending(j, k + 1, out + ([|cur|] + cur), Note(x, t, off))
  {
    hide FirstDot, FirstLabel, Inside, PackLabels, Pointer, Note;
    InsideAtDot(j.s, b, k, cur);
    var off, t := j.off0 + |out|, j.s[b..];
    PackLabelsUnfold(t, off, j.cap, x, j.compress);
    var rest := PackLabels(j.s[k + 1..], off + 1 + |cur|, j.cap, Note(x, t, off), j.compress);
    if GoodLabel(cur) {
      PrependPrepend(out, [|cur|] + cur, rest);
    }
  }

  lemma {:induction false} PendingEnd(j: Job, b: nat, cur: Label, out: seq<byte>, x: Index)
    requires Pending(j, b, out, x) && Inside(j.s, b, |j.s|, cur)
    requires BACKSLASH in j.s[b..] ==> j.off0 + |out| + 1 <= j.cap
    ensures j.result == if j.off0 + |out| < j.cap then Packed(out + [0], x) else Failed(ErrBuf)
  {
    InsideAtDot(j.s, b, |j.s|, cur);
  }

  /** The scratch buffer: the unread text has been moved down to position `i`. */
  ghost predicate Shifted(s: Text, view: seq<byte>, i: nat, compOff: nat) {
    |view| == |s| && i + compOff <= |s| && view[i..|s| - compOff] == s[i + compOff..]
  }

  /** Replace the escape at `i` by its octet and move the text behind it down. */
  method RemoveEscape(bs: array<byte>, i: nat, ls: nat, ghost s: Text, ghost compOff: nat) returns (removed: nat)
    requires bs.Length == |s| && ls == |s| - compOff && i < ls && s[|s| - 1] == DOT
    requires Shifted(s, bs[..], i, compOff) && s[i + compOff] == BACKSLASH
    modifies bs
    ensures 1 <= removed && removed + 1 == UnitLen(s[i + compOff..])
    ensures Shifted(s, bs[..], i + 1, compOff + removed)
    ensures bs[..i + 1] == old(bs[..i]) + [UnitOctet(s[i + compOff..])]
  {
    hide DddToByte;
    ghost var k := i + compOff;
    ghost var v := bs[..];
    ShiftedEscape(s, k, v, i, ls);
    if IsDDD(bs[..], i + 1) {
      Collapse(bs, i, ls, DddToByte(bs[..], i + 1), 3);
      removed := 3;
    } else {
      assert bs[i + 1] == s[k + 1] by { assert v[i..ls][1] == s[k..][1]; }
      Collapse(bs, i, ls, bs[i + 1], 1);
      removed := 1;
    }
    ShiftedOver(s, v, bs[..], i, compOff, removed);
  }

  /** Write `c` at `i` and move what is behind the next `n` bytes down over them. */
  method Collapse(bs: array<byte>, i: nat, ls: nat, c: byte, n: nat)
    requires i + 1 + n <= ls <= bs.Length
    modifies bs
    ensures bs[..i + 1] == old(bs[..i]) + [c]
    ensures bs[i + 1..ls - n] == old(bs[i + 1 + n..ls])
  {
    bs[i] := c;
    forall j | i + 1 <= j < ls - n {
      bs[j] := bs[j + n];
    }
  }

  lemma {:induction false} ShiftedOver(s: Text, v: seq<byte>, w: seq<byte>, i: nat, compOff: nat, n: nat)
    requires Shifted(s, v, i, compOff) && |w| == |v| && i + 1 + n <= |s| - compOff
    requires w[i + 1..|s| - compOff - n] == v[i + 1 + n..|s| - compOff]
    ensures Shifted(s, w, i + 1, compOff + n)
  {
    var ls := |s| - compOff;
    assert v[i + 1 + n..ls] == v[i..ls][1 + n..];
    assert s[i + compOff..][1 + n..] == s[i + 1 + compOff + n..];
  }

  method WriteLabel(msg: array<byte>, off: nat, l: Label)
    requires off + 1 + |l| <= msg.Length && |l| < 64
    modifies msg
    ensures Written(old(msg[..]), msg[..], off, [|l|] + l)
  {
    msg[off] := |l|;
    forall j | 0 <= j < |l| {
      msg[off + 1 + j] := l[j];
    }
  }

  /** Look a suffix up, note it for later names, and write its first label unless it is a hit. */
  method WriteOrPoint(key: Text, l: Label, msg: array<byte>, off: nat, comp: CompressionMap, compress: bool)
    returns (pointer: int)
    requires off + 1 + |l| <= msg.Length && |l| < 64
    modifies msg, comp
    ensures var x := old(comp.index);
            if compress && x.Index? && key in x.at then
              pointer == x.at[key] && comp.index == x && msg[..] == old(msg[..])
            else
              && pointer == -1
              && comp.index == Note(x, key, off)
              && Written(old(msg[..]), msg[..], off, [|l|] + l)
  {
    pointer := -1;
    if comp.index.Index? {
      var p, ok := comp.Find(key);
      if ok {
        if compress {
          return p;
        }
      } else if off < MAX_COMPRESSION_OFFSET {
        comp.Insert(key, off);
      }
    }
    WriteLabel(msg, off, l);
  }

  /**
   * The loop state: `bs` is the scratch copy with its text moved down by `compOff`, `i` the reading
   * position, the current label starts at `begin` in `bs` and at `b` in the text, and `out` is written.
   */
  ghost predicate Running(j: Job, bs: seq<byte>, i: nat, begin: nat, b: nat, compOff: nat, out: seq<byte>, x: Index) {
    && begin <= i && b <= i + compOff && Shifted(j.s, bs, i, compOff)
    && Inside(j.s, b, i + compOff, bs[begin..i])
    && (BACKSLASH in j.s[b..i + compOff] ==> j.off0 + |out| + 1 <= j.cap)
    && Pending(j, b, out, x)
  }

  lemma {:induction false} RunningStart(j: Job, x: Index)
    requires Pending(j, 0, [], x)
    ensures Running(j, j.s, 0, 0, 0, 0, [], x)
  {
    hide Pending, Inside;
    InsideStart(j.s, 0);
  }

  /** An ordinary character is read. */
  lemma {:induction false} PlainStep(j: Job, bs: seq<byte>, i: nat, begin: nat, b: nat, compOff: nat, out: seq<byte>,
                                     x: Index)
    requires Running(j, bs, i, begin, b, compOff, out, x)
    requires i + compOff < |j.s| && bs[i] != DOT && bs[i] != BACKSLASH
    ensures Running(j, bs, i + 1, begin, b, compOff, out, x)
  {
    hide Pending, Inside, UnitLen, UnitOctet, HasEscape, Shifted;
    var k := i + compOff;
    ShiftedAt(j.s, bs, i, compOff);
    ShiftedOn(j.s, bs, i, compOff);
    PlainUnit(j.s, k);
    InsideStep(j.s, b, k, bs[begin..i]);
    assert bs[begin..i + 1] == bs[begin..i] + [j.s[k]];
    assert j.s[b..k + 1] == j.s[b..k] + [j.s[k]];
  }

  lemma ShiftedOn(s: Text, v: seq<byte>, i: nat, compOff: nat)
    requires Shifted(s, v, i, compOff) && i + compOff < |s|
    ensures Shifted(s, v, i + 1, compOff)
  {
    assert v[i + 1..|s| - compOff] == v[i..|s| - compOff][1..];
    assert s[i + 1 + compOff..] == s[i + compOff..][1..];
  }

  lemma ShiftedAt(s: Text, v: seq<byte>, i: nat, compOff: nat)
    requires Shifted(s, v, i, compOff) && i + compOff < |s|
    ensures |v| == |s| && i < |v| && v[i] == s[i + compOff]
  {
    assert v[i..|s| - compOff][0] == s[i + compOff..][0];
  }

  /** A backslash is read: the escape is replaced by its octet in the scratch copy. */
  method EscapeStep(ghost j: Job, bs: array<byte>, i: nat, ls: nat, ghost begin: nat, ghost b: nat, ghost compOff: nat,
                    ghost out: seq<byte>, ghost x: Index) returns (removed: nat)
    requires Running(j, bs[..], i, begin, b, compOff, out, x)
    requires j.s != [] && j.s[|j.s| - 1] == DOT && ls == |j.s| - compOff && i < ls && bs[i] == BACKSLASH
    modifies bs
    ensures if j.off0 + |out| + 1 > j.cap then j.result == Failed(ErrBuf)
            else removed <= ls && Running(j, bs[..], i + 1, begin, b, compOff + removed, out, x)
                 && i + 1 + removed <= ls
  {
    hide Pending, Inside, HasEscape, UnitOctet, UnitLen, Shifted;
    ghost var k := i + compOff;
    ghost var v := bs[..];
    ShiftedAt(j.s, v, i, compOff);
    ghost var cur := v[begin..i];
    InsideStep(j.s, b, k, cur);
    if j.off0 + |out| + 1 > j.cap {
      PendingNoRoom(j, b, out, x);
    }
    removed := RemoveEscape(bs, i, ls, j.s, compOff);
    ghost var w := bs[..];
    assert w[..i + 1] == v[..i] + [UnitOctet(j.s[k..])];
    assert w[begin..i + 1] == w[..i + 1][begin..] == cur + [UnitOctet(j.s[k..])];
  }

  /** An unescaped dot is read: the label is closed. */
  method CloseLabel(ghost j: Job, b: nat, l: Label, msg: array<byte>, off: nat, comp: CompressionMap, s: Text,
                    compress: bool, ghost bs: seq<byte>, ghost i: nat, ghost begin: nat, ghost compOff: nat,
                    ghost out: seq<byte>, ghost before: seq<byte>)
    returns (pointer: int, err: Option<PackError>)
    requires j.s == s && j.cap == msg.Length && j.compress == compress && off == j.off0 + |out|
    requires Written(before, msg[..], j.off0, out)
    requires Running(j, bs, i, begin, b, compOff, out, comp.index) && i + compOff < |s| && bs[i] == DOT
    requires l == bs[begin..i]
    modifies msg, comp
    ensures err.Some? ==> j.result == Failed(err.value)
    ensures err.None? && pointer != -1 ==>
              && pointer >= 0 && off + 2 <= msg.Length && Written(before, msg[..], j.off0, out)
              && j.result == Packed(out + Pointer(pointer), comp.index)
    ensures err.None? && pointer == -1 ==>
              && |l| < 64 && Written(before, msg[..], j.off0, out + ([|l|] + l))
              && Running(j, bs, i + 1, i + 1, i + 1 + compOff, compOff, out + ([|l|] + l), comp.index)
  {
    hide Pending, Inside, Note, Written, HasEscape, Pointer;
    pointer, err := -1, None;
    ghost var k := i + compOff;
    assert bs[i] == bs[i..|s| - compOff][0] == s[k];
    PendingDot(j, k, b, l, out, comp.index);
    if |l| == 0 || |l| >= 64 {
      return -1, Some(ErrRdata);
    }
    if off + 1 + |l| > msg.Length {
      return -1, Some(ErrBuf);
    }
    ghost var m0 := msg[..];
    pointer := WriteOrPoint(s[b..], l, msg, off, comp, compress);
    if pointer == -1 {
      WrittenThen(before, m0, msg[..], j.off0, out, [|l|] + l);
      InsideStart(s, k + 1);
      assert bs[i + 1..i + 1] == [];
      assert bs[i + 1..|s| - compOff] == bs[i..|s| - compOff][1..] == s[k..][1..] == s[k + 1..];
    }
  }

  /** The end of the run: a pointer, the root octet, or no room for it. */
  method Finish(ghost j: Job, pointer: int, msg: array<byte>, off: nat, ghost x: Index, ghost out: seq<byte>,
                ghost before: seq<byte>)
    returns (off1: nat, err: Option<PackError>)
    requires j.cap == msg.Length && off == j.off0 + |out| && Written(before, msg[..], j.off0, out)
    requires pointer >= 0 ==> off + 2 <= msg.Length && j.result == Packed(out + Pointer(pointer), x)
    requires pointer < 0 ==> j.result == if off < msg.Length then Packed(out + [0], x) else Failed(ErrBuf)
    modifies msg
    ensures match j.result
            case Packed(o, y) => err.None? && off1 == j.off0 + |o| && y == x && Written(before, msg[..], j.off0, o)
            case Failed(e) => err == Some(e) && off1 >= msg.Length
  {
    hide Written, Pointer;
    ghost var m0 := msg[..];
    if pointer >= 0 {
      WriteOctets(msg, off, Pointer(pointer));
      WrittenThen(before, m0, msg[..], j.off0, out, Pointer(pointer));
      return off + 2, None;
    }
    if off < msg.Length {
      WriteOctets(msg, off, [0]);
      WrittenThen(before, m0, msg[..], j.off0, out, [0]);
      return off + 1, None;
    }
    return off, Some(ErrBuf);
  }

  method WriteOctets(msg: array<byte>, off: nat, o: seq<byte>)
    requires off + |o| <= msg.Length
    modifies msg
    ensures Written(old(msg[..]), msg[..], off, o)
  {
    forall j | 0 <= j < |o| {
      msg[off + j] := o[j];
    }
  }

  /** The loop of `packDomainName` over a text that ends in a dot. */
  method PackText(s: Text, msg: array<byte>, off0: nat, comp: CompressionMap, compress: bool, ghost j: Job)
    returns (off1: nat, err: Option<PackError>)
    requires s != [] && s[|s| - 1] == DOT
    requires j.s == s && j.off0 == off0 && j.cap == msg.Length && j.compress == compress
    requires Pending(j, 0, [], comp.index)
    modifies msg, comp
    ensures match j.result
            case Packed(out, x) =>
              err.None? && off1 == off0 + |out| && comp.index == x && Written(old(msg[..]), msg[..], off0, out)
            case Failed(e) => err == Some(e) && off1 >= msg.Length
  {
    hide Running, Pending, Inside, Written;
    var pointer: int := -1;
    var off, ls, i, begin, compBegin, compOff := off0, |s|, 0, 0, 0, 0;
    var bs := new byte[|s|](j requires 0 <= j < |s| => s[j]);
    ghost var before := msg[..];
    ghost var out: seq<byte> := [];
    assert bs[..] == s;
    RunningStart(j, comp.index);
    WrittenNothing(before, off0);
    while i < ls
      invariant ls == |s| - compOff && 0 <= begin <= i <= ls && bs.Length == |s| && 0 <= compBegin <= |s|
      invariant Running(j, bs[..], i, begin, compBegin, compOff, out, comp.index)
      invariant off == off0 + |out| && Written(before, msg[..], off0, out)
    {
      if bs[i] == BACKSLASH {
        var removed := EscapeStep(j, bs, i, ls, begin, compBegin, compOff, out, comp.index);
        if off + 1 > msg.Length {
          return msg.Length, Some(ErrBuf);
        }
        ls := ls - removed;
        compOff := compOff + removed;
      } else if bs[i] == DOT {
        var l := bs[begin..i];
        pointer, err := CloseLabel(j, compBegin, l, msg, off, comp, s, compress, bs[..], i, begin, compOff, out,
            before);
        if err.Some? {
          return msg.Length, err;
        }
        if pointer != -1 {
          break;
        }
        out := out + ([|l|] + l);
        off := off + 1 + |l|;
        begin := i + 1;
        compBegin := begin + compOff;
      } else {
        PlainStep(j, bs[..], i, begin, compBegin, compOff, out, comp.index);
      }
      i := i + 1;
    }
    if pointer == -1 {
      RunningEnd(j, bs[..], i, begin, compBegin, compOff, out, comp.index);
    }
    off1, err := Finish(j, pointer, msg, off, comp.index, out, before);
  }

  lemma {:induction false} RunningEnd(j: Job, bs: seq<byte>, i: nat, begin: nat, b: nat, compOff: nat, out: seq<byte>,
                                      x: Index)
    requires Running(j, bs, i, begin, b, compOff, out, x) && i + compOff == |j.s|
    ensures j.result == if j.off0 + |out| < j.cap then Packed(out + [0], x) else Failed(ErrBuf)
  {
    hide Pending, Inside;
    assert j.s[b..i + compOff] == j.s[b..];
    PendingEnd(j, b, bs[begin..i], out, x);
  }

  lemma WrittenNothing(m: seq<byte>, off: nat)
    ensures Written(m, m, off, [])
  {
  }

  /**
   * `packDomainName`. The lone dot takes one pass of the loop below in the source, with no label and
   * without touching the map; it is written directly here.
   */
  method PackDomainName(s: Text, msg: array<byte>, off0: nat, comp: CompressionMap, compress: bool)
    returns (off1: nat, err: Option<PackError>)
    modifies msg, comp
    ensures match PackName(s, off0, msg.Length, old(comp.index), compress)
            case Packed(out, x) =>
              err.None? && off1 == off0 + |out| && comp.index == x && Written(old(msg[..]), msg[..], off0, out)
            case Failed(e) => err == Some(e) && off1 >= msg.Length
  {
    if s == [] {
      return off0, None;
    }
    if !IsFqdn(s) {
      return msg.Length, Some(ErrFqdn);
    }
    if s == [DOT] {
      if off0 + 1 > msg.Length {
        return msg.Length, Some(ErrBuf);
      }
      msg[off0] := 0;
      return off0 + 1, None;
    }
    ghost var j := Job(s, off0, msg.Length, comp.index, compress, PackName(s, off0, msg.Length, comp.index, compress));
    PendingStart(j);
    off1, err := PackText(s, msg, off0, comp, compress, j);
  }

  /**
   * A pointer is its offset in 14 bits behind two bits that are set (section 4.1.4 of RFC 1035), and a
   * suffix is noted exactly when its offset has no more.
   */
  lemma PointerIs(p: nat, x: Index, t: Text)
    requires x.Index? && t !in x.at
    ensures p < 16384 ==> Pointer(p)[0] == 192 + p / 256 && Pointer(p)[1] == p % 256
    ensures Note(x, t, p) == if p < 16384 then Index(x.at[t := p]) else x
  {
  }
}
