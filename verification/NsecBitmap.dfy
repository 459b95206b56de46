/** NSEC type bitmaps (section 4.1.2 of RFC 4034): window blocks of at most 32 octets, one bit per type. */
module NsecBitmap {
  import opened Octets
  import opened Wrappers

  /** One window block; its octets hold the bits of types `window * 256` and up. */
  datatype Block = Block(window: byte, bits: seq<byte>)

  /** Bit `i` of `n`, counted from the low end. */
  predicate BitSet(n: nat, i: nat) {
    if i == 0 then n % 2 == 1 else BitSet(n / 2, i - 1)
  }

  /** `n | 1 << i`. */
  function OrBit(n: nat, i: nat): nat {
    if i == 0 then n / 2 * 2 + 1 else OrBit(n / 2, i - 1) * 2 + n % 2
  }

  function Pow2(n: nat): nat {
    if n == 0 then 1 else 2 * Pow2(n - 1)
  }

  lemma {:induction false} OrBitFits(n: nat, i: nat, width: nat)
    requires n < Pow2(width) && i < width
    ensures OrBit(n, i) < Pow2(width)
    decreases i
  {
    var p := Pow2(width - 1);
    assert Pow2(width) == 2 * p && n / 2 < p;
    hide Pow2;
    if i > 0 {
      OrBitFits(n / 2, i - 1, width - 1);
    }
  }

  lemma {:induction false} OrBitSets(n: nat, i: nat, j: nat)
    ensures BitSet(OrBit(n, i), j) <==> i == j || BitSet(n, j)
    decreases i
  {
    assert OrBit(n, i) / 2 == if i == 0 then n / 2 else OrBit(n / 2, i - 1);
    if i > 0 && j > 0 {
      OrBitSets(n / 2, i - 1, j - 1);
    }
  }

  /** Bit `k` of an octet, counted from the high end as types are. */
  predicate HasBit(b: byte, k: nat)
    requires k < 8
  {
    BitSet(b, 7 - k)
  }

  /** The octet with bit `k` set. */
  function SetBit(b: byte, k: nat): (r: byte)
    requires k < 8
  {
    assert Pow2(8) == 256;
    OrBitFits(b, 7 - k, 8);
    OrBit(b, 7 - k)
  }

  lemma {:induction false} SetBitSets(b: byte, k: nat, i: nat)
    requires k < 8 && i < 8
    ensures HasBit(SetBit(b, k), i) <==> i == k || HasBit(b, i)
  {
    OrBitSets(b, 7 - k, 7 - i);
  }

  function Zeros(n: nat): seq<byte> {
    seq(n, i => 0)
  }

  // ----- building the blocks -----

  function WindowOf(t: uint16): byte {
    t / 256
  }

  /** Octets a block needs to hold type `t`. */
  function LengthOf(t: uint16): (n: nat)
    ensures 1 <= n <= 32
  {
    t % 256 / 8 + 1
  }

  function WithType(b: Block, t: uint16): Block
    requires |b.bits| <= LengthOf(t)
  {
    var wide := b.bits + Zeros(LengthOf(t) - |b.bits|);
    b.(bits := wide[LengthOf(t) - 1 := SetBit(wide[LengthOf(t) - 1], t % 8)])
  }

  /** One more type: in a new block, in the last one, or out of order. */
  function AddType(bs: seq<Block>, t: uint16): Option<seq<Block>> {
    if bs == [] || WindowOf(t) > bs[|bs| - 1].window then Some(bs + [WithType(Block(WindowOf(t), []), t)])
    else
      var last := bs[|bs| - 1];
      if WindowOf(t) < last.window || LengthOf(t) < |last.bits| then None
      else Some(bs[..|bs| - 1] + [WithType(last, t)])
  }

  function Blocks(ts: seq<uint16>): Option<seq<Block>> {
    if ts == [] then Some([])
    else match Blocks(ts[..|ts| - 1])
      case None => None
      case Some(bs) => AddType(bs, ts[|ts| - 1])
  }

  function BlockOctets(b: Block): seq<byte> {
    [b.window, |b.bits| % 256] + b.bits
  }

  predicate GoodBlocks(bs: seq<Block>) {
    && (forall i :: 0 <= i < |bs| ==> 1 <= |bs[i].bits| <= 32)
    && (forall i, j :: 0 <= i < j < |bs| ==> bs[i].window < bs[j].window)
  }

  function Flat(bs: seq<Block>): seq<byte> {
    if bs == [] then [] else Flat(bs[..|bs| - 1]) + BlockOctets(bs[|bs| - 1])
  }

  // ----- what the blocks hold -----

  /** Octet and bit of a type in a block. */
  predicate InBlock(b: Block, t: uint16) {
    WindowOf(t) == b.window && LengthOf(t) <= |b.bits| && HasBit(b.bits[LengthOf(t) - 1], t % 8)
  }

  predicate InBlocks(bs: seq<Block>, t: uint16) {
    exists i :: 0 <= i < |bs| && InBlock(bs[i], t)
  }

  lemma HasBitZero(k: nat)
    requires k < 8
    ensures !HasBit(0, k)
  {
    NoBitInZero(7 - k);
  }

  lemma {:induction false} NoBitInZero(i: nat)
    ensures !BitSet(0, i)
  {
    if i > 0 {
      NoBitInZero(i - 1);
    }
  }

  lemma {:induction false} WithTypeHolds(b: Block, t: uint16, u: uint16)
    requires |b.bits| <= LengthOf(t) && b.window == WindowOf(t)
    ensures InBlock(WithType(b, t), u) <==> u == t || InBlock(b, u)
  {
    hide HasBit, SetBit;
    HasBitZero(u % 8);
    var wide := b.bits + Zeros(LengthOf(t) - |b.bits|);
    var k := LengthOf(t) - 1;
    SetBitSets(wide[k], t % 8, u % 8);
    if LengthOf(u) == LengthOf(t) && WindowOf(u) == b.window && u != t {
      SameOctet(t, u);
    }
  }

  lemma SameOctet(t: uint16, u: uint16)
    requires WindowOf(t) == WindowOf(u) && LengthOf(t) == LengthOf(u) && t != u
    ensures t % 8 != u % 8
  {
    assert t % 256 / 8 == u % 256 / 8;
    assert t % 256 % 8 == t % 8 && u % 256 % 8 == u % 8;
  }

  lemma {:induction false} AddTypeHolds(bs: seq<Block>, t: uint16)
    requires GoodBlocks(bs) && AddType(bs, t).Some?
    ensures GoodBlocks(AddType(bs, t).value)
    ensures forall u :: InBlocks(AddType(bs, t).value, u) <==> u == t || InBlocks(bs, u)
  {
    hide InBlock, WithType;
    var r := AddType(bs, t).value;
    var n := |r| - 1;
    var last := if |bs| == |r| then bs[n] else Block(WindowOf(t), []);
    assert |WithType(last, t).bits| == LengthOf(t)
           && WithType(last, t).window == last.window by { WithTypeShape(last, t); }
    assert r == bs[..n] + [WithType(last, t)];
    forall u: uint16 ensures InBlocks(r, u) <==> u == t || InBlocks(bs, u) {
      WithTypeHolds(last, t, u);
      EmptyHolds(WindowOf(t), u);
      if InBlocks(bs, u) {
        var i :| 0 <= i < |bs| && InBlock(bs[i], u);
        assert InBlock(r[i], u);
      }
      if u == t {
        assert InBlock(r[n], u);
      }
      if InBlocks(r, u) {
        var i :| 0 <= i < |r| && InBlock(r[i], u);
        if i < n {
          assert InBlock(bs[i], u);
        } else if u != t {
          assert |bs| == |r| && InBlock(bs[n], u);
        }
      }
    }
  }

  lemma WithTypeShape(b: Block, t: uint16)
    requires |b.bits| <= LengthOf(t)
    ensures |WithType(b, t).bits| == LengthOf(t) && WithType(b, t).window == b.window
  {
  }

  lemma EmptyHolds(w: byte, u: uint16)
    ensures !InBlock(Block(w, []), u)
  {
  }

  /** The blocks hold exactly the types of the list. */
  lemma {:induction false} BlocksHold(ts: seq<uint16>)
    requires Blocks(ts).Some?
    ensures GoodBlocks(Blocks(ts).value)
    ensures forall u :: InBlocks(Blocks(ts).value, u) <==> u in ts
    decreases |ts|
  {
    hide GoodBlocks, AddType, InBlock;
    if ts == [] {
      EmptyGood();
    } else {
      var init := ts[..|ts| - 1];
      BlocksHold(init);
      AddTypeHolds(Blocks(init).value, ts[|ts| - 1]);
      assert ts == init + [ts[|ts| - 1]];
    }
  }

  lemma EmptyGood()
    ensures GoodBlocks([])
  {
  }

  // ----- which lists are accepted -----

  /** No type lies in an earlier octet than the one before it. */
  predicate InOrder(ts: seq<uint16>) {
    forall i :: 0 < i < |ts| ==> ts[i - 1] as int / 8 <= ts[i] as int / 8
  }

  lemma OctetOrder(t: uint16, u: uint16)
    ensures t as int / 8 <= u as int / 8 <==>
            WindowOf(t) < WindowOf(u) || (WindowOf(t) == WindowOf(u) && LengthOf(t) <= LengthOf(u))
  {
    assert t as int / 8 == WindowOf(t) as int * 32 + LengthOf(t) - 1;
    assert u as int / 8 == WindowOf(u) as int * 32 + LengthOf(u) - 1;
  }

  /** The last block is the one the last type went into. */
  lemma {:induction false} LastBlock(ts: seq<uint16>)
    requires ts != [] && Blocks(ts).Some?
    ensures var bs := Blocks(ts).value;
            bs != [] && bs[|bs| - 1].window == WindowOf(ts[|ts| - 1]) && |bs[|bs| - 1].bits| == LengthOf(ts[|ts| - 1])
  {
    var bs := Blocks(ts[..|ts| - 1]).value;
    var t := ts[|ts| - 1];
    WithTypeShape(Block(WindowOf(t), []), t);
    if bs != [] && WindowOf(t) <= bs[|bs| - 1].window {
      WithTypeShape(bs[|bs| - 1], t);
    }
    hide WithType, LengthOf, WindowOf;
  }

  /** A list is accepted exactly when its types are in order, octet by octet; inside an octet any order will do. */
  lemma {:induction false} AcceptedExactly(ts: seq<uint16>)
    ensures Blocks(ts).Some? <==> InOrder(ts)
    decreases |ts|
  {
    if ts != [] {
      var init := ts[..|ts| - 1];
      AcceptedExactly(init);
      assert InOrder(ts) ==> InOrder(init);
      if |ts| == 1 {
        assert init == [];
      } else if InOrder(init) {
        LastBlock(init);
        OctetOrder(init[|init| - 1], ts[|ts| - 1]);
        hide WindowOf, LengthOf, WithType;
        assert init[|init| - 1] == ts[|ts| - 2];
        forall i | 0 < i < |ts| - 1 ensures ts[i - 1] as int / 8 <= ts[i] as int / 8 {
          assert init[i - 1] as int / 8 <= init[i] as int / 8;
        }
      }
    }
  }

  // ----- unpacking -----

  function OctetTypes(base: nat, b: byte, k: nat): seq<uint16>
    requires k <= 8 && base + 8 <= 0x1_0000
    decreases 8 - k
  {
    if k == 8 then [] else (if HasBit(b, k) then [base + k] else []) + OctetTypes(base, b, k + 1)
  }

  /** The types of consecutive octets, the first of which starts at type `base`. */
  function OctetsTypes(base: nat, bits: seq<byte>): seq<uint16>
    requires base + 8 * |bits| <= 0x1_0000
    decreases |bits|
  {
    if bits == [] then [] else OctetTypes(base, bits[0], 0) + OctetsTypes(base + 8, bits[1..])
  }

  datatype Decoded = Types(ts: seq<uint16>) | BadBitmap

  /** `unpackDataNsec` from the block that starts at the head of `o`; `last` is the last window. */
  function Decode(o: seq<byte>, last: int): Decoded
    requires last < 256
    decreases |o|
  {
    if o == [] then Types([])
    else if |o| < 2 || o[0] <= last || o[1] == 0 || o[1] > 32 || 2 + o[1] > |o| then BadBitmap
    else match Decode(o[2 + o[1]..], o[0])
      case BadBitmap => BadBitmap
      case Types(ts) => Types(OctetsTypes(o[0] as int * 256, o[2..2 + o[1]]) + ts)
  }

  predicate Increasing(ts: seq<uint16>) {
    forall i, j :: 0 <= i < j < |ts| ==> ts[i] < ts[j]
  }

  lemma {:induction false} OctetTypesHold(base: nat, b: byte, k: nat)
    requires k <= 8 && base + 8 <= 0x1_0000
    ensures Increasing(OctetTypes(base, b, k))
    ensures forall t: uint16 :: t in OctetTypes(base, b, k) <==> base + k <= t < base + 8 && HasBit(b, t - base)
    decreases 8 - k
  {
    if k < 8 {
      var head: seq<uint16>, rest := if HasBit(b, k) then [base + k] else [], OctetTypes(base, b, k + 1);
      assert OctetTypes(base, b, k) == head + rest;
      OctetTypesHold(base, b, k + 1);
      hide HasBit, OctetTypes;
      forall t: uint16 ensures t in OctetTypes(base, b, k) <==> base + k <= t < base + 8 && HasBit(b, t - base) {
        assert t in head + rest <==> t in head || t in rest;
      }
      JoinIncreasing(head, rest, base + k + 1);
    }
  }

  lemma {:induction false} JoinIncreasing(a: seq<uint16>, b: seq<uint16>, m: int)
    requires Increasing(a) && Increasing(b) && (forall t :: t in a ==> t < m) && (forall t :: t in b ==> m <= t)
    ensures Increasing(a + b)
  {
    forall i, j | 0 <= i < j < |a + b| ensures (a + b)[i] < (a + b)[j] {
      if i < |a| && j >= |a| {
        assert a[i] in a && b[j - |a|] in b;
      }
    }
  }

  predicate AtBit(base: nat, bits: seq<byte>, t: int) {
    base <= t < base + 8 * |bits| && HasBit(bits[(t - base) / 8], (t - base) % 8)
  }

  lemma {:induction false} AtBitUnfold(base: nat, bits: seq<byte>, t: int)
    requires bits != []
    ensures AtBit(base, bits, t) <==>
            (base <= t < base + 8 && HasBit(bits[0], t - base)) || AtBit(base + 8, bits[1..], t)
  {
    hide HasBit;
    if base + 8 <= t < base + 8 * |bits| {
      var q := (t - base) / 8;
      assert (t - (base + 8)) / 8 == q - 1 && (t - (base + 8)) % 8 == (t - base) % 8;
      assert bits[1..][q - 1] == bits[q];
    } else if base <= t < base + 8 {
      assert (t - base) / 8 == 0 && (t - base) % 8 == t - base;
    }
  }

  lemma {:induction false} OctetsTypesHold(base: nat, bits: seq<byte>)
    requires base + 8 * |bits| <= 0x1_0000
    ensures Increasing(OctetsTypes(base, bits))
    ensures forall t: uint16 :: t in OctetsTypes(base, bits) <==> AtBit(base, bits, t)
    decreases |bits|
  {
    hide HasBit, AtBit, OctetTypes;
    if bits == [] {
      forall t: uint16 ensures !AtBit(base, bits, t) {
        NoBits(base, t);
      }
    } else {
      OctetTypesHold(base, bits[0], 0);
      OctetsTypesHold(base + 8, bits[1..]);
      var head, rest := OctetTypes(base, bits[0], 0), OctetsTypes(base + 8, bits[1..]);
      forall t: uint16 ensures t in OctetsTypes(base, bits) <==> AtBit(base, bits, t) {
        AtBitUnfold(base, bits, t);
        assert t in head + rest <==> t in head || t in rest;
      }
      forall t | t in rest ensures t >= base + 8 {
        AtBitRange(base + 8, bits[1..], t);
      }
      JoinIncreasing(head, rest, base + 8);
      assert OctetsTypes(base, bits) == head + rest;
    }
  }

  lemma NoBits(base: nat, t: int)
    ensures !AtBit(base, [], t)
  {
  }

  lemma AtBitRange(base: nat, bits: seq<byte>, t: int)
    requires AtBit(base, bits, t)
    ensures base <= t < base + 8 * |bits|
  {
  }

  lemma AtBitIsInBlock(b: Block, t: uint16)
    requires |b.bits| <= 32
    ensures AtBit(b.window as int * 256, b.bits, t) <==> InBlock(b, t)
  {
    hide HasBit;
    if b.window == WindowOf(t) {
      assert t - b.window as int * 256 == t % 256;
      assert t % 256 % 8 == t % 8;
    } else if t >= b.window as int * 256 {
      assert t as int / 256 > b.window;
    }
  }

  function BlockTypes(b: Block): seq<uint16>
    requires |b.bits| <= 32
  {
    OctetsTypes(b.window as int * 256, b.bits)
  }

  function BlocksTypes(bs: seq<Block>): seq<uint16>
    requires GoodBlocks(bs)
  {
    if bs == [] then [] else BlockTypes(bs[0]) + BlocksTypes(bs[1..])
  }

  lemma {:induction false} FlatFront(bs: seq<Block>)
    requires bs != []
    ensures Flat(bs) == BlockOctets(bs[0]) + Flat(bs[1..])
    decreases |bs|
  {
    hide BlockOctets;
    var init, tail, last := bs[..|bs| - 1], bs[1..], BlockOctets(bs[|bs| - 1]);
    if |bs| == 1 {
      assert init == [] && tail == [];
      assert [] + last == last + [];
    } else {
      FlatFront(init);
      assert init[1..] == tail[..|tail| - 1];
      var x, y := BlockOctets(bs[0]), Flat(init[1..]);
      assert (x + y) + last == x + (y + last);
    }
  }

  /** Reading the octets of good blocks gives their types. */
  lemma {:induction false} DecodeFlat(bs: seq<Block>, last: int)
    requires GoodBlocks(bs) && last < 256 && (bs != [] ==> last < bs[0].window)
    ensures Decode(Flat(bs), last) == Types(BlocksTypes(bs))
    decreases |bs|
  {
    if bs != [] {
      var b, rest := bs[0], Flat(bs[1..]);
      FlatFront(bs);
      DecodeFlat(bs[1..], b.window);
      DecodeBlock(b, rest, last);
      hide Flat, OctetsTypes, GoodBlocks, Decode, BlockOctets;
    }
  }

  lemma {:induction false} DecodeBlock(b: Block, rest: seq<byte>, last: int)
    requires 1 <= |b.bits| <= 32 && last < b.window
    ensures Decode(BlockOctets(b) + rest, last) ==
            match Decode(rest, b.window)
            case BadBitmap => BadBitmap
            case Types(ts) => Types(BlockTypes(b) + ts)
  {
    hide OctetsTypes;
    var o := BlockOctets(b) + rest;
    assert o[0] == b.window && o[1] == |b.bits|;
    assert o[2..2 + |b.bits|] == b.bits && o[2 + |b.bits|..] == rest;
  }

  lemma {:induction false} BlocksTypesHold(bs: seq<Block>)
    requires GoodBlocks(bs)
    ensures Increasing(BlocksTypes(bs))
    ensures forall t :: t in BlocksTypes(bs) <==> InBlocks(bs, t)
    decreases |bs|
  {
    hide OctetsTypes, AtBit, InBlock;
    if bs != [] {
      var b := bs[0];
      OctetsTypesHold(b.window as int * 256, b.bits);
      BlocksTypesHold(bs[1..]);
      forall t: uint16 ensures t in BlocksTypes(bs) <==> InBlocks(bs, t) {
        AtBitIsInBlock(b, t);
        InBlocksFront(bs, t);
      }
      var m := (b.window as int + 1) * 256;
      forall t | t in BlockTypes(b) ensures t < m {
        AtBitRange(b.window as int * 256, b.bits, t);
      }
      forall t | t in BlocksTypes(bs[1..]) ensures m <= t {
        var i :| 0 <= i < |bs[1..]| && InBlock(bs[1..][i], t);
        InBlockWindow(bs[1..][i], t);
        assert bs[1..][i] == bs[i + 1];
      }
      JoinIncreasing(BlockTypes(b), BlocksTypes(bs[1..]), m);
    }
  }

  lemma InBlockWindow(b: Block, t: uint16)
    requires InBlock(b, t)
    ensures t as int / 256 == b.window
  {
  }

  lemma InBlocksFront(bs: seq<Block>, t: uint16)
    requires bs != []
    ensures InBlocks(bs, t) <==> InBlock(bs[0], t) || InBlocks(bs[1..], t)
  {
    hide InBlock;
    if InBlocks(bs[1..], t) {
      var i :| 0 <= i < |bs[1..]| && InBlock(bs[1..][i], t);
      assert InBlock(bs[i + 1], t);
    }
    if InBlocks(bs, t) {
      var i :| 0 <= i < |bs| && InBlock(bs[i], t);
      assert i > 0 ==> bs[1..][i - 1] == bs[i];
    }
  }

  /** The round trip: unpacking what was packed gives the list's types, sorted and each once. */
  lemma {:induction false} BitmapRoundTrip(ts: seq<uint16>)
    requires Blocks(ts).Some?
    ensures GoodBlocks(Blocks(ts).value)
    ensures var r := Decode(Flat(Blocks(ts).value), -1);
            r.Types? && Increasing(r.ts) && forall t :: t in r.ts <==> t in ts
  {
    hide InBlocks, Decode, GoodBlocks, Blocks, Increasing;
    BlocksHold(ts);
    var bs := Blocks(ts).value;
    DecodeFlat(bs, -1);
    BlocksTypesHold(bs);
  }

  // ----- what unpacks can be packed again -----

  lemma {:induction false} DecodedIncreasing(o: seq<byte>, last: int)
    requires -1 <= last < 256 && Decode(o, last).Types?
    ensures Increasing(Decode(o, last).ts)
    ensures forall t :: t in Decode(o, last).ts ==> t >= (last + 1) * 256
    decreases |o|
  {
    hide OctetsTypes, AtBit;
    if o != [] {
      var w := o[0] as int;
      var bits, rest := o[2..2 + o[1]], Decode(o[2 + o[1]..], w);
      DecodedIncreasing(o[2 + o[1]..], w);
      OctetsTypesHold(w * 256, bits);
      forall t | t in OctetsTypes(w * 256, bits) ensures w * 256 <= t < (w + 1) * 256 {
        AtBitRange(w * 256, bits, t);
      }
      JoinIncreasing(OctetsTypes(w * 256, bits), rest.ts, (w + 1) * 256);
    }
  }

  lemma FirstIn(s: seq<uint16>)
    ensures s == [] || s[0] in s
  {
  }

  lemma {:induction false} SameIncreasing(a: seq<uint16>, b: seq<uint16>)
    requires Increasing(a) && Increasing(b) && forall t :: t in a <==> t in b
    ensures a == b
    decreases |a|
  {
    FirstIn(a);
    FirstIn(b);
    if a != [] {
      assert a[0] in b;
      assert b[0] in a;
      assert a[0] == b[0];
      forall t: uint16 ensures t in a[1..] <==> t in b[1..] {
        assert t in a[1..] ==> t in a && t > a[0];
        assert t in b[1..] ==> t in b && t > b[0];
      }
      SameIncreasing(a[1..], b[1..]);
    }
  }

  /** Whatever octets were read, the types found pack again, and reading that gives the same types. */
  lemma {:induction false} RepackIsStable(o: seq<byte>)
    requires Decode(o, -1).Types?
    ensures var ts := Decode(o, -1).ts;
            Blocks(ts).Some? && GoodBlocks(Blocks(ts).value) && Decode(Flat(Blocks(ts).value), -1) == Types(ts)
  {
    hide Decode, Blocks, Flat, GoodBlocks;
    var ts := Decode(o, -1).ts;
    DecodedIncreasing(o, -1);
    AcceptedExactly(ts);
    BitmapRoundTrip(ts);
    SameIncreasing(Decode(Flat(Blocks(ts).value), -1).ts, ts);
  }

  // ----- the bits as numbers -----

  /** The weights of the eight bits of an octet, from the first type of the octet to the last. */
  const WEIGHTS: seq<nat> := [128, 64, 32, 16, 8, 4, 2, 1]

  lemma BitWeight(b: byte, k: nat)
    requires k < 8
    ensures HasBit(b, k) <==> b / WEIGHTS[k] % 2 == 1
  {
    Halves(b);
    Unfold(b, 7 - k);
  }

  lemma Halves(b: byte)
    ensures b / 2 / 2 == b / 4 && b / 4 / 2 == b / 8 && b / 8 / 2 == b / 16
    ensures b / 16 / 2 == b / 32 && b / 32 / 2 == b / 64 && b / 64 / 2 == b / 128
  {
  }

  lemma {:induction false} Unfold(n: nat, i: nat)
    ensures BitSet(n, 0) == (n % 2 == 1)
    ensures i >= 1 ==> BitSet(n, i) == BitSet(n / 2, i - 1)
    ensures i >= 2 ==> BitSet(n, i) == BitSet(n / 2 / 2, i - 2)
    ensures i >= 3 ==> BitSet(n, i) == BitSet(n / 2 / 2 / 2, i - 3)
    ensures i >= 4 ==> BitSet(n, i) == BitSet(n / 2 / 2 / 2 / 2, i - 4)
    ensures i >= 5 ==> BitSet(n, i) == BitSet(n / 2 / 2 / 2 / 2 / 2, i - 5)
    ensures i >= 6 ==> BitSet(n, i) == BitSet(n / 2 / 2 / 2 / 2 / 2 / 2, i - 6)
    ensures i >= 7 ==> BitSet(n, i) == BitSet(n / 2 / 2 / 2 / 2 / 2 / 2 / 2, i - 7)
  {
    if i > 0 {
      Unfold(n / 2, i - 1);
    }
  }

  /**
   * Which types a packed list holds, as section 4.1.2 of RFC 4034 counts: type `t` is bit `t % 8` of
   * octet `t % 256 / 8` of window `t / 256`, the first bit being the one of weight 128.
   */
  lemma {:induction false} ListedByWeight(ts: seq<uint16>, t: uint16)
    requires Blocks(ts).Some?
    ensures var bs := Blocks(ts).value;
            t in ts <==> exists i :: 0 <= i < |bs| && bs[i].window == t / 256 && t % 256 / 8 < |bs[i].bits|
                                     && bs[i].bits[t % 256 / 8] / WEIGHTS[t % 8] % 2 == 1
  {
    hide HasBit, Blocks, GoodBlocks;
    BlocksHold(ts);
    var bs := Blocks(ts).value;
    forall i | 0 <= i < |bs|
      ensures InBlock(bs[i], t) <==>
              bs[i].window == t / 256 && t % 256 / 8 < |bs[i].bits|
              && bs[i].bits[t % 256 / 8] / WEIGHTS[t % 8] % 2 == 1
    {
      if t % 256 / 8 < |bs[i].bits| {
        BitWeight(bs[i].bits[t % 256 / 8], t % 8);
      }
    }
  }

  /** A block on the wire: its window, its length and its octets. */
  lemma {:induction false} BlocksOnTheWire(bs: seq<Block>, b: Block)
    requires |b.bits| <= 32
    ensures Flat([]) == [] && Flat(bs + [b]) == Flat(bs) + [b.window, |b.bits|] + b.bits
  {
    assert (bs + [b])[..|bs|] == bs;
  }
}
