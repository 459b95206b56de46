/** The bitmap packers: zeroing and setting bits in a shared buffer, and reading them back. */
module NsecCodec {
  import opened Octets
  import opened Wrappers
  import opened NsecBitmap

  // ----- the length, computed without packing -----

  /** Octets of closed blocks, and window and length of the open one. */
  datatype Running = Running(l: nat, window: byte, length: nat)

  /** A type out of order is skipped here, where the packer refuses. */
  function RunStep(r: Running, t: uint16): Running {
    if WindowOf(t) > r.window && r.length != 0 then Running(r.l + r.length + 2, WindowOf(t), LengthOf(t))
    else if WindowOf(t) < r.window || LengthOf(t) < r.length then r
    else Running(r.l, WindowOf(t), LengthOf(t))
  }

  function RunAll(ts: seq<uint16>): Running {
    if ts == [] then Running(0, 0, 0) else RunStep(RunAll(ts[..|ts| - 1]), ts[|ts| - 1])
  }

  function MapLen(ts: seq<uint16>): nat {
    RunAll(ts).l + RunAll(ts).length + 2
  }

  method TypeBitMapLen(bitmap: seq<uint16>) returns (n: nat)
    ensures n == MapLen(bitmap)
  {
    var l: nat, lastwindow: byte, lastlength: nat := 0, 0, 0;
    for i := 0 to |bitmap|
      invariant RunAll(bitmap[..i]) == Running(l, lastwindow, lastlength)
    {
      var window, length := WindowOf(bitmap[i]), LengthOf(bitmap[i]);
      assert bitmap[..i + 1][..i] == bitmap[..i];
      if window > lastwindow && lastlength != 0 {
        l := l + lastlength + 2;
        lastlength := 0;
      }
      if window < lastwindow || length < lastlength {
        continue;
      }
      lastwindow, lastlength := window, length;
    }
    assert bitmap[..|bitmap|] == bitmap;
    n := l + lastlength + 2;
  }

  lemma {:induction false} PrefixRefused(ts: seq<uint16>, k: nat)
    requires k <= |ts| && Blocks(ts).Some?
    ensures Blocks(ts[..k]).Some?
    decreases |ts|
  {
    hide AddType;
    if k == |ts| {
      assert ts[..k] == ts;
    } else {
      assert ts[..|ts| - 1][..k] == ts[..k];
      PrefixRefused(ts[..|ts| - 1], k);
    }
  }

  lemma {:induction false} LenGrows(ts: seq<uint16>, k: nat)
    requires k <= |ts|
    ensures MapLen(ts[..k]) <= MapLen(ts)
    decreases |ts|
  {
    if k == |ts| {
      assert ts[..k] == ts;
    } else {
      assert ts[..|ts| - 1][..k] == ts[..k];
      LenGrows(ts[..|ts| - 1], k);
    }
  }

  lemma {:induction false} FlatAdd(bs: seq<Block>, t: uint16)
    requires GoodBlocks(bs) && AddType(bs, t).Some?
    ensures GoodBlocks(AddType(bs, t).value)
    ensures var r := AddType(bs, t).value;
            if bs == [] || WindowOf(t) > bs[|bs| - 1].window then
              && |WithType(Block(WindowOf(t), []), t).bits| == LengthOf(t)
              && Flat(r) == Flat(bs) + BlockOctets(WithType(Block(WindowOf(t), []), t))
            else
              && |bs[|bs| - 1].bits| <= LengthOf(t) && WindowOf(t) == bs[|bs| - 1].window
              && |WithType(bs[|bs| - 1], t).bits| == LengthOf(t) && GoodBlocks(bs[..|bs| - 1])
              && Flat(r) == Flat(bs[..|bs| - 1]) + BlockOctets(WithType(bs[|bs| - 1], t))
  {
    AddTypeHolds(bs, t);
    var r := AddType(bs, t).value;
    if bs == [] || WindowOf(t) > bs[|bs| - 1].window {
      WithTypeShape(Block(WindowOf(t), []), t);
      assert r[..|r| - 1] == bs;
    } else {
      WithTypeShape(bs[|bs| - 1], t);
      assert r[..|r| - 1] == bs[..|bs| - 1];
    }
  }

  /** The running length that goes with blocks `bs`. */
  ghost function RunningOf(bs: seq<Block>): Running
    requires GoodBlocks(bs) && bs != []
  {
    assert GoodBlocks(bs[..|bs| - 1]);
    Running(|Flat(bs[..|bs| - 1])|, bs[|bs| - 1].window, |bs[|bs| - 1].bits|)
  }

  lemma {:induction false} RunningNext(bs: seq<Block>, t: uint16)
    requires GoodBlocks(bs) && bs != [] && AddType(bs, t).Some? && GoodBlocks(AddType(bs, t).value)
    ensures RunStep(RunningOf(bs), t) == RunningOf(AddType(bs, t).value)
  {
    hide Flat, WithType, WindowOf, LengthOf;
    var r, last := AddType(bs, t).value, bs[|bs| - 1];
    if WindowOf(t) > last.window {
      WithTypeShape(Block(WindowOf(t), []), t);
      assert r[..|r| - 1] == bs;
      FlatUnfold(bs);
    } else {
      WithTypeShape(last, t);
      assert r[..|r| - 1] == bs[..|bs| - 1];
    }
  }

  /** On a list the packer accepts, the running length is the length of the blocks so far. */
  lemma {:induction false} RunningIs(ts: seq<uint16>)
    requires ts != [] && Blocks(ts).Some?
    ensures Blocks(ts).value != [] && GoodBlocks(Blocks(ts).value)
    ensures RunAll(ts) == RunningOf(Blocks(ts).value)
    decreases |ts|
  {
    BlocksHold(ts);
    LastBlock(ts);
    hide Flat, WithType, GoodBlocks, RunStep, RunningOf;
    var init, t := ts[..|ts| - 1], ts[|ts| - 1];
    if init == [] {
      RunningFirst(t);
    } else {
      RunningIs(init);
      RunningNext(Blocks(init).value, t);
    }
  }

  lemma {:induction false} RunningFirst(t: uint16)
    requires AddType([], t).Some? && GoodBlocks(AddType([], t).value)
    ensures RunStep(Running(0, 0, 0), t) == RunningOf(AddType([], t).value)
  {
    hide WithType, WindowOf, LengthOf;
    WithTypeShape(Block(WindowOf(t), []), t);
    var r := AddType([], t).value;
    assert r == [WithType(Block(WindowOf(t), []), t)] && r[..|r| - 1] == [];
  }

  lemma FlatOfNothing()
    ensures GoodBlocks([]) && Flat([]) == []
  {
  }

  lemma FlatUnfold(bs: seq<Block>)
    requires GoodBlocks(bs) && bs != []
    ensures GoodBlocks(bs[..|bs| - 1])
    ensures Flat(bs) == Flat(bs[..|bs| - 1]) + BlockOctets(bs[|bs| - 1])
  {
  }

  /** The predicted length is exact for every non-empty list the packer accepts. */
  lemma {:induction false} MapLenExact(ts: seq<uint16>)
    requires ts != [] && Blocks(ts).Some?
    ensures GoodBlocks(Blocks(ts).value) && MapLen(ts) == |Flat(Blocks(ts).value)|
  {
    hide Blocks, Flat;
    RunningIs(ts);
    FlatUnfold(Blocks(ts).value);
  }

  /** For the empty list the prediction is two octets, though none are written. */
  lemma MapLenOfNothing()
    ensures MapLen([]) == 2 && Blocks([]) == Some([]) && Flat([]) == []
  {
  }

  // ----- packing in place -----

  /** `flat` lies at `off`, zeros follow up to `limit`, and nothing else is touched. */
  ghost predicate Laid(m: seq<byte>, m0: seq<byte>, off: nat, flat: seq<byte>, limit: nat) {
    && |m| == |m0| && off + |flat| <= |m|
    && m[..off] == m0[..off] && m[off..off + |flat|] == flat
    && (forall j :: off + |flat| <= j < |m| && j < limit ==> m[j] == 0)
    && (forall j :: limit <= j < |m| ==> m[j] == m0[j])
  }

  /** The buffer after the first `i` types. */
  ghost predicate Packing(m: seq<byte>, m0: seq<byte>, off: nat, ts: seq<uint16>, i: nat) {
    && i <= |ts| && Blocks(ts[..i]).Some? && GoodBlocks(Blocks(ts[..i]).value)
    && Laid(m, m0, off, Flat(Blocks(ts[..i]).value), off + MapLen(ts))
  }

  /** The three writes for a type whose block starts at `p`. */
  function Marked(m: seq<byte>, p: nat, t: uint16): (r: seq<byte>)
    requires p + 2 + LengthOf(t) <= |m|
    ensures |r| == |m|
  {
    var n := LengthOf(t);
    m[p := WindowOf(t)][p + 1 := n][p + 1 + n := SetBit(m[p + 1 + n], t % 8)]
  }

  /** Three writes turn the octets of a block into those of the block with one more type. */
  lemma {:induction false} WriteType(m: seq<byte>, p: nat, b: Block, t: uint16)
    requires b.window == WindowOf(t) && |b.bits| <= LengthOf(t) && p + 2 + LengthOf(t) <= |m|
    requires m[p + 2..p + 2 + |b.bits|] == b.bits
    requires forall j :: p + 2 + |b.bits| <= j < p + 2 + LengthOf(t) ==> m[j] == 0
    ensures var n := LengthOf(t);
            var m' := Marked(m, p, t);
            && |WithType(b, t).bits| == n
            && m'[p..p + 2 + n] == BlockOctets(WithType(b, t))
            && m'[..p] == m[..p] && m'[p + 2 + n..] == m[p + 2 + n..]
  {
    hide SetBit, WindowOf, LengthOf;
    var n := LengthOf(t);
    var wide := b.bits + Zeros(n - |b.bits|);
    assert m[p + 2..p + 2 + n] == wide by {
      forall j | 0 <= j < n ensures m[p + 2 + j] == wide[j] {
        if j < |b.bits| {
          assert m[p + 2 + j] == m[p + 2..p + 2 + |b.bits|][j];
        }
      }
    }
    assert m[p + 1 + n] == wide[n - 1];
    var m' := Marked(m, p, t);
    assert m'[p..p + 2 + n] == [WindowOf(t), n] + wide[n - 1 := SetBit(wide[n - 1], t % 8)];
  }

  lemma {:induction false} OpenBlockLies(m: seq<byte>, off: nat, front: seq<byte>, b: Block, flat: seq<byte>)
    requires |b.bits| < 256 && flat == (if b.bits == [] then front else front + BlockOctets(b))
    requires off + |flat| <= |m| && m[off..off + |flat|] == flat && off + |front| + 2 <= |m|
    ensures m[off..off + |front|] == front
    ensures off + |front| + 2 + |b.bits| <= |m| && m[off + |front| + 2..off + |front| + 2 + |b.bits|] == b.bits
  {
    SliceOf(m, off, flat, 0, |front|);
    assert flat[0..|front|] == front && m[off + 0..off + |front|] == m[off..off + |front|];
    if b.bits == [] {
      assert m[off + |front| + 2..off + |front| + 2] == [];
    } else {
      var q := |front| + 2;
      assert flat[q..q + |b.bits|] == b.bits;
      SliceOf(m, off, flat, q, q + |b.bits|);
    }
  }

  lemma SliceOf(m: seq<byte>, off: nat, flat: seq<byte>, i: nat, j: nat)
    requires off + |flat| <= |m| && m[off..off + |flat|] == flat && i <= j <= |flat|
    ensures m[off + i..off + j] == flat[i..j]
  {
    forall k | i <= k < j ensures m[off + k] == flat[k] {
      assert m[off..off + |flat|][k] == m[off + k];
    }
  }

  /** Writing a type into an open block whose octets lie behind `front`. */
  lemma {:induction false} LaidStep(m: seq<byte>, m0: seq<byte>, off: nat, front: seq<byte>, b: Block, t: uint16,
                                    limit: nat)
    requires b.window == WindowOf(t) && |b.bits| <= LengthOf(t)
    requires Laid(m, m0, off, if b.bits == [] then front else front + BlockOctets(b), limit)
    requires off + |front| + 2 + LengthOf(t) <= |m| && off + |front| + 2 + LengthOf(t) <= limit
    ensures var n, p := LengthOf(t), off + |front|;
            && |WithType(b, t).bits| == n
            && Laid(Marked(m, p, t), m0, off, front + BlockOctets(WithType(b, t)), limit)
  {
    hide SetBit, WithType, WindowOf, LengthOf, Marked;
    var n, p := LengthOf(t), off + |front|;
    var flat := if b.bits == [] then front else front + BlockOctets(b);
    OpenBlockLies(m, off, front, b, flat);
    WriteType(m, p, b, t);
    var m' := Marked(m, p, t);
    hide BlockOctets;
    var last := BlockOctets(WithType(b, t));
    assert |last| == n + 2 by { BlockOctetsLen(WithType(b, t)); }
    Relaid(m, m', m0, off, front, last, limit);
  }

  lemma BlockOctetsLen(b: Block)
    requires |b.bits| < 256
    ensures |BlockOctets(b)| == |b.bits| + 2
  {
  }

  /** Only the octets of the last block have changed. */
  lemma {:induction false} Relaid(m: seq<byte>, m': seq<byte>, m0: seq<byte>, off: nat, front: seq<byte>,
                                  last: seq<byte>, limit: nat)
    requires var p := off + |front|;
             && |m| == |m'| == |m0| && p + |last| <= |m| && p + |last| <= limit
             && m[..off] == m0[..off] && m[off..p] == front
             && m'[..p] == m[..p] && m'[p..p + |last|] == last && m'[p + |last|..] == m[p + |last|..]
             && (forall j :: p + |last| <= j < |m| && j < limit ==> m[j] == 0)
             && (forall j :: limit <= j < |m| ==> m[j] == m0[j])
    ensures Laid(m', m0, off, front + last, limit)
  {
    var p := off + |front|;
    assert m'[..off] == m'[..p][..off] && m[..off] == m[..p][..off];
    assert m'[off..p] == m'[..p][off..] && m[off..p] == m[..p][off..];
    assert m'[off..p + |last|] == m'[off..p] + m'[p..p + |last|];
    forall j | p + |last| <= j < |m| ensures m'[j] == m[j] {
      assert m'[j] == m'[p + |last|..][j - p - |last|];
      assert m[j] == m[p + |last|..][j - p - |last|];
    }
  }

  /** What a type adds: its block starts where the last one starts, or behind it. */
  lemma {:induction false} PackingStep(m: seq<byte>, m0: seq<byte>, off: nat, ts: seq<uint16>, i: nat, p: nat)
    requires i < |ts| && Packing(m, m0, off, ts, i) && Blocks(ts[..i + 1]).Some?
    requires var bs, t := Blocks(ts[..i]).value, ts[i];
             if bs == [] || WindowOf(t) > bs[|bs| - 1].window then p == off + |Flat(bs)|
             else GoodBlocks(bs[..|bs| - 1]) && p == off + |Flat(bs[..|bs| - 1])|
    requires p + 2 + LengthOf(ts[i]) <= |m|
    ensures Packing(Marked(m, p, ts[i]), m0, off, ts, i + 1)
  {
    hide SetBit, WithType, Flat, MapLen, WindowOf, LengthOf, Laid, BlockOctets, Marked;
    var bs, t := Blocks(ts[..i]).value, ts[i];
    assert ts[..i + 1][..i] == ts[..i];
    FlatAdd(bs, t);
    MapLenExact(ts[..i + 1]);
    LenGrows(ts, i + 1);
    var isNew := bs == [] || WindowOf(t) > bs[|bs| - 1].window;
    if !isNew {
      FlatUnfold(bs);
      assert 1 <= |bs[|bs| - 1].bits|;
    }
    var b := if isNew then Block(WindowOf(t), []) else bs[|bs| - 1];
    var front := if isNew then Flat(bs) else Flat(bs[..|bs| - 1]);
    hide Blocks, AddType, GoodBlocks;
    BlockOctetsLen(WithType(b, t));
    LaidStep(m, m0, off, front, b, t, off + MapLen(ts));
  }

  method PackDataNsec(bitmap: seq<uint16>, msg: array<byte>, off: nat) returns (end: nat, ok: bool)
    modifies msg
    ensures ok <==> bitmap == [] || (Blocks(bitmap).Some? && off + MapLen(bitmap) <= msg.Length)
    ensures ok && bitmap == [] ==> end == off && msg[..] == old(msg[..])
    ensures ok && bitmap != [] ==>
              && end == off + MapLen(bitmap) && GoodBlocks(Blocks(bitmap).value)
              && msg[..] == old(msg[..off]) + Flat(Blocks(bitmap).value) + old(msg[end..])
    ensures !ok && off <= msg.Length ==> msg[..off] == old(msg[..off])
  {
    hide Blocks, Flat, MapLen, GoodBlocks, WindowOf, LengthOf, Marked, Packing;
    if bitmap == [] {
      return off, true;
    }
    if off > msg.Length {
      return off, false;
    }
    ghost var m0 := msg[..];
    assert m0[..off] == msg[..off];
    ZeroBitmap(bitmap, msg, off);
    var lastwindow: byte, lastlength: nat := 0, 0;
    end := off;
    for i := 0 to |bitmap|
      invariant Packing(msg[..], m0, off, bitmap, i)
      invariant end >= off && RunAll(bitmap[..i]) == Running(end - off, lastwindow, lastlength)
    {
      var t := bitmap[i];
      var window, length := WindowOf(t), LengthOf(t);
      PackingKeeps(msg[..], m0, off, bitmap, i);
      RunningStep(bitmap, i, off);
      if window > lastwindow && lastlength != 0 {
        end := end + lastlength + 2;
        lastlength := 0;
      }
      if window < lastwindow || length < lastlength {
        if Blocks(bitmap).Some? {
          PrefixRefused(bitmap, i + 1);
          assert false;
        }
        return msg.Length, false;
      }
      if end + 2 + length > msg.Length {
        if Blocks(bitmap).Some? {
          PrefixRefused(bitmap, i + 1);
          LenGrows(bitmap, i + 1);
          MapLenIs(bitmap[..i + 1]);
        }
        return msg.Length, false;
      }
      PackingStep(msg[..], m0, off, bitmap, i, end);
      MarkType(msg, end, t);
      lastwindow, lastlength := window, length;
    }
    assert bitmap[..|bitmap|] == bitmap;
    end := end + lastlength + 2;
    PackingDone(msg[..], m0, off, bitmap);
    MapLenIs(bitmap);
    ok := true;
  }

  /** Window number, octet count, and the bit of the type. */
  method MarkType(msg: array<byte>, p: nat, t: uint16)
    requires p + 2 + LengthOf(t) <= msg.Length
    modifies msg
    ensures msg[..] == Marked(old(msg[..]), p, t)
  {
    hide SetBit, LengthOf, WindowOf;
    var n := LengthOf(t);
    msg[p] := WindowOf(t);
    msg[p + 1] := n;
    msg[p + 1 + n] := SetBit(msg[p + 1 + n], t % 8);
  }

  lemma {:induction false} PackingKeeps(m: seq<byte>, m0: seq<byte>, off: nat, ts: seq<uint16>, i: nat)
    requires Packing(m, m0, off, ts, i)
    ensures Blocks(ts[..i]).Some? && |m| == |m0| && off <= |m| && m[..off] == m0[..off]
  {
    hide Blocks, Flat, MapLen, GoodBlocks;
  }

  lemma MapLenIs(ts: seq<uint16>)
    ensures MapLen(ts) == RunAll(ts).l + RunAll(ts).length + 2
  {
  }

  lemma {:induction false} PackingDone(m: seq<byte>, m0: seq<byte>, off: nat, ts: seq<uint16>)
    requires ts != [] && Packing(m, m0, off, ts, |ts|)
    ensures Blocks(ts).Some? && GoodBlocks(Blocks(ts).value) && off + MapLen(ts) <= |m|
    ensures m == m0[..off] + Flat(Blocks(ts).value) + m0[off + MapLen(ts)..]
  {
    hide Blocks, Flat, MapLen, GoodBlocks;
    assert ts[..|ts|] == ts;
    MapLenExact(ts);
    var e := off + MapLen(ts);
    assert m[e..] == m0[e..];
    assert m == m[..off] + m[off..e] + m[e..];
  }

  /** The packer's variables tell where the next type's block starts and whether it is refused. */
  lemma {:induction false} RunningStep(ts: seq<uint16>, i: nat, off: nat)
    requires i < |ts| && Blocks(ts[..i]).Some?
    ensures var bs, t, r := Blocks(ts[..i]).value, ts[i], RunAll(ts[..i]);
            var fresh_ := WindowOf(t) > r.window && r.length != 0;
            && RunAll(ts[..i + 1]) == RunStep(r, t)
            && (Blocks(ts[..i + 1]).None? <==> !fresh_ && (WindowOf(t) < r.window || LengthOf(t) < r.length))
            && GoodBlocks(bs)
            && (if bs == [] || WindowOf(t) > bs[|bs| - 1].window
                then (if fresh_ then r.l + r.length + 2 else r.l) == |Flat(bs)|
                else !fresh_ && GoodBlocks(bs[..|bs| - 1]) && r.l == |Flat(bs[..|bs| - 1])|)
  {
    hide Flat, WithType, WindowOf, LengthOf;
    assert ts[..i + 1][..i] == ts[..i];
    BlocksHold(ts[..i]);
    var bs := Blocks(ts[..i]).value;
    if i == 0 {
      FlatOfNothing();
    } else {
      RunningIs(ts[..i]);
      FlatUnfold(bs);
      hide Blocks;
    }
  }

  /** The buffer is zeroed as far as the bitmap will reach, or to its end. */
  method ZeroBitmap(bitmap: seq<uint16>, msg: array<byte>, off: nat)
    requires off <= msg.Length
    modifies msg
    ensures Packing(msg[..], old(msg[..]), off, bitmap, 0)
  {
    var n := TypeBitMapLen(bitmap);
    hide MapLen;
    var stop := if off + n < msg.Length then off + n else msg.Length;
    for i := off to stop
      invariant forall j :: off <= j < i ==> msg[j] == 0
      invariant forall j :: 0 <= j < msg.Length && !(off <= j < i) ==> msg[j] == old(msg[j])
    {
      msg[i] := 0;
    }
    FlatOfNothing();
    assert bitmap[..0] == [];
  }

  // ----- unpacking -----

  lemma DecodeNothing()
    ensures forall last :: last < 256 ==> Decode([], last) == Types([])
  {
  }

  lemma {:induction false} DecodeAt(msg: seq<byte>, off: nat, last: int)
    requires off < |msg| && last < 256
    ensures Decode(msg[off..], last) ==
            if off + 2 > |msg| then BadBitmap
            else
              var window, length := msg[off], msg[off + 1];
              if window <= last || length == 0 || length > 32 || off + 2 + length > |msg| then BadBitmap
              else match Decode(msg[off + 2 + length..], window)
                case BadBitmap => BadBitmap
                case Types(ts) => Types(OctetsTypes(window as int * 256, msg[off + 2..off + 2 + length]) + ts)
  {
    hide OctetsTypes;
    var o := msg[off..];
    if off + 2 <= |msg| && off + 2 + msg[off + 1] <= |msg| {
      var n: nat := msg[off + 1];
      assert o[0] == msg[off] && o[1] == n;
      assert o[2 + n..] == msg[off + 2 + n..] && o[2..2 + n] == msg[off + 2..off + 2 + n];
    }
  }

  method UnpackDataNsec(msg: seq<byte>, off0: nat) returns (nsec: seq<uint16>, ok: bool)
    ensures match Decode(if off0 < |msg| then msg[off0..] else [], -1)
            case Types(ts) => ok && nsec == ts
            case BadBitmap => !ok
  {
    hide OctetsTypes, Decode;
    DecodeNothing();
    nsec, ok := [], true;
    if off0 >= |msg| {
      return;
    }
    var off: nat, lastwindow: int := off0, -1;
    ghost var all := Decode(msg[off0..], -1);
    while off < |msg|
      invariant off <= |msg| && ok && -1 <= lastwindow < 256
      invariant match Decode(msg[off..], lastwindow)
                case Types(ts) => all == Types(nsec + ts)
                case BadBitmap => all == BadBitmap
    {
      DecodeAt(msg, off, lastwindow);
      if off + 2 > |msg| {
        return nsec, false;
      }
      var window: int, length: nat := msg[off], msg[off + 1];
      off := off + 2;
      if window <= lastwindow || length == 0 || length > 32 || off + length > |msg| {
        return nsec, false;
      }
      var ts := BlockBits(window, msg[off..off + length]);
      ghost var rest := Decode(msg[off + length..], window);
      assert rest.Types? ==> nsec + (ts + rest.ts) == nsec + ts + rest.ts;
      nsec := nsec + ts;
      off := off + length;
      lastwindow := window;
    }
    assert msg[off..] == [] && nsec + [] == nsec;
  }

  /** The octets of a block, bit by bit. */
  method BlockBits(window: nat, bits: seq<byte>) returns (ts: seq<uint16>)
    requires window < 256 && |bits| <= 32
    ensures ts == OctetsTypes(window * 256, bits)
  {
    hide OctetTypes;
    ts := [];
    for j := 0 to |bits|
      invariant OctetsTypes(window * 256, bits) == ts + OctetsTypes(window * 256 + j * 8, bits[j..])
    {
      assert bits[j..][0] == bits[j] && bits[j..][1..] == bits[j + 1..];
      var base := window * 256 + j * 8;
      var o := OctetBits(base, bits[j]);
      ghost var rest := OctetsTypes(base + 8, bits[j + 1..]);
      assert ts + (o + rest) == ts + o + rest;
      ts := ts + o;
    }
    assert bits[|bits|..] == [];
  }

  method OctetBits(base: nat, b: byte) returns (ts: seq<uint16>)
    requires base + 8 <= 0x1_0000
    ensures ts == OctetTypes(base, b, 0)
  {
    hide HasBit, OctetTypes;
    ts := [];
    for k := 0 to 8
      invariant OctetTypes(base, b, 0) == ts + OctetTypes(base, b, k)
    {
      OctetTypesUnfold(base, b, k);
      ghost var rest := OctetTypes(base, b, k + 1);
      if HasBit(b, k) {
        assert ts + ([base + k] + rest) == ts + [base + k] + rest;
        ts := ts + [base + k];
      }
    }
    OctetTypesEnd(base, b);
  }

  lemma {:induction false} OctetTypesUnfold(base: nat, b: byte, k: nat)
    requires k < 8 && base + 8 <= 0x1_0000
    ensures var rest := OctetTypes(base, b, k + 1);
            OctetTypes(base, b, k) == if HasBit(b, k) then [base + k] + rest else rest
  {
  }

  lemma OctetTypesEnd(base: nat, b: byte)
    requires base + 8 <= 0x1_0000
    ensures OctetTypes(base, b, 8) == []
  {
  }
}
