/** Which NSEC3 record of a chain speaks for a name (RFC 5155). The hash of the name is a parameter. */
module Nsec3 {
  import opened Octets
  import opened Presentation
  import opened LabelWalks
  import opened Subdomain
  import opened Ordering

  /** Owner name and next hashed owner. */
  datatype Nsec3 = Nsec3(owner: Text, next: Text)

  function Upper(b: byte): byte {
    if 97 <= b <= 122 then b - 32 else b
  }

  /** `strings.ToUpper` on ASCII text. */
  function UpperText(s: Text): (r: Text)
    ensures |r| == |s| && forall i :: 0 <= i < |s| ==> r[i] == Upper(s[i])
  {
    seq(|s|, i requires 0 <= i < |s| => Upper(s[i]))
  }

  /** The first label of the owner, and the zone behind it, when there are both. */
  function HashLabel(owner: Text): Text
    requires |Starts(owner)| >= 2
  {
    SecondStart(owner);
    owner[..Starts(owner)[1] - 1]
  }

  function Zone(owner: Text): Text
    requires |Starts(owner)| >= 2
  {
    SecondStart(owner);
    owner[Starts(owner)[1]..]
  }

  lemma {:induction false} SecondStart(owner: Text)
    requires |Starts(owner)| >= 2
    ensures 1 <= Starts(owner)[1] <= |owner|
  {
    StartsShape(owner);
  }

  predicate InZone(owner: Text, name: Text)
    requires |Starts(owner)| >= 2
  {
    SuffixOf(Folded(Zone(owner)), Folded(UpperText(name)))
  }

  /** `Cover`: `x` is the hash of `name`. */
  predicate Cover(rr: Nsec3, name: Text, x: Text) {
    var owner := UpperText(rr.owner);
    |Starts(owner)| >= 2 && InZone(owner, name) &&
    var own, next := HashLabel(owner), rr.next;
    if own == next && x != own then true
    else if LexLess(next, own) then LexLess(own, x) || LexLess(x, next)
    else !LexLess(x, own) && LexLess(x, next)
  }

  /** `Match`. */
  predicate Match(rr: Nsec3, name: Text, x: Text) {
    var owner := UpperText(rr.owner);
    |Starts(owner)| >= 2 && InZone(owner, name) && HashLabel(owner) == x
  }

  // ----- chains -----

  /** Text without dots, escapes and lower-case letters, as base 32 writes a hash. */
  predicate Plain(h: Text) {
    h != [] && forall i :: 0 <= i < |h| ==> h[i] != DOT && h[i] != BACKSLASH && Upper(h[i]) == h[i]
  }

  predicate Ascending(hs: seq<Text>) {
    forall i, j :: 0 <= i < j < |hs| ==> LexLess(hs[i], hs[j])
  }

  /** The complete chain of a zone: owners in order, each pointing at the next and the last at the first. */
  predicate Chain(rrs: seq<Nsec3>, hs: seq<Text>, zone: Text) {
    && |rrs| == |hs| >= 1 && zone != [] && Ascending(hs)
    && (forall i :: 0 <= i < |hs| ==> Plain(hs[i]))
    && (forall i :: 0 <= i < |hs| ==> rrs[i] == Nsec3(hs[i] + [DOT] + zone, hs[if i + 1 < |hs| then i + 1 else 0]))
  }

  lemma {:induction false} PlainFirstDot(h: Text, r: Text)
    requires forall i :: 0 <= i < |h| ==> h[i] != DOT && h[i] != BACKSLASH
    requires r != [] && r[0] == DOT
    ensures FirstDot(h + r) == |h|
    decreases |h|
  {
    var t := h + r;
    if h == [] {
      assert t == r;
    } else {
      assert t[UnitLen(t)..] == h[1..] + r;
      PlainFirstDot(h[1..], r);
    }
  }

  lemma UpperConcat(h: Text, zone: Text)
    requires Plain(h)
    ensures UpperText(h + [DOT] + zone) == h + [DOT] + UpperText(zone)
  {
  }

  /** The owner of a chain record splits into its hash and the zone. */
  lemma {:induction false} OwnerSplits(h: Text, zone: Text)
    requires Plain(h) && zone != []
    ensures var owner := UpperText(h + [DOT] + zone);
            |Starts(owner)| >= 2 && HashLabel(owner) == h && Zone(owner) == UpperText(zone)
  {
    UpperConcat(h, zone);
    hide UpperText;
    var z := UpperText(zone);
    var owner := h + [DOT] + z;
    assert owner == h + ([DOT] + z);
    PlainFirstDot(h, [DOT] + z);
    assert owner[0..] == owner;
    assert StartsFrom(owner, 0) == [0] + StartsFrom(owner, |h| + 1);
    assert StartsFrom(owner, |h| + 1)[0] == |h| + 1;
    assert owner[..|h|] == h && owner[|h| + 1..] == z;
  }

  predicate NameInZone(name: Text, zone: Text) {
    SuffixOf(Folded(UpperText(zone)), Folded(UpperText(name)))
  }

  /** What `Cover` and `Match` ask of record `i` for a name in the zone. */
  lemma {:induction false} RecordSays(rrs: seq<Nsec3>, hs: seq<Text>, zone: Text, name: Text, x: Text, i: nat)
    requires Chain(rrs, hs, zone) && NameInZone(name, zone) && i < |hs|
    ensures Match(rrs[i], name, x) <==> hs[i] == x
    ensures Cover(rrs[i], name, x) <==>
            if |hs| == 1 then x != hs[0]
            else if i == |hs| - 1 then LexLess(hs[i], x) || LexLess(x, hs[0])
            else !LexLess(x, hs[i]) && LexLess(x, hs[i + 1])
  {
    hide Starts, HashLabel, Zone, Folded, UpperText, LexLess;
    assert Plain(hs[i]);
    OwnerSplits(hs[i], zone);
    LexTrichotomy(hs[0], hs[0]);
    LexTrichotomy(x, hs[0]);
    if |hs| > 1 {
      LexTrichotomy(hs[0], hs[|hs| - 1]);
      assert LexLess(hs[0], hs[|hs| - 1]);
      if i < |hs| - 1 {
        LexTrichotomy(hs[i], hs[i + 1]);
        assert LexLess(hs[i], hs[i + 1]);
      }
    }
  }

  /** The interval an `x` falls into: the number of hashes at or below it. */
  lemma {:induction false} Position(hs: seq<Text>, x: Text) returns (p: nat)
    requires Ascending(hs)
    ensures p <= |hs|
    ensures forall i :: 0 <= i < |hs| ==> (LexLess(x, hs[i]) <==> i >= p)
    decreases |hs|
  {
    hide LexLess;
    p := |hs|;
    if hs != [] && LexLess(x, hs[|hs| - 1]) {
      p := Position(hs[..|hs| - 1], x);
    } else if hs != [] {
      forall i | 0 <= i < |hs| ensures !LexLess(x, hs[i]) {
        if LexLess(x, hs[i]) && i < |hs| - 1 {
          LexTransitive(x, hs[i], hs[|hs| - 1]);
        }
      }
    }
  }

  /** The record that covers position `p`. */
  function Interval(p: nat, n: nat): nat
    requires n >= 1 && p <= n
  {
    if p == 0 then n - 1 else p - 1
  }

  /** Record `i` covers the name and no other does. */
  predicate OnlyCover(rrs: seq<Nsec3>, name: Text, x: Text, i: nat) {
    i < |rrs| && forall j :: 0 <= j < |rrs| ==> (Cover(rrs[j], name, x) <==> j == i)
  }

  /** A hash that is no owner is covered by exactly one record of the chain, and matched by none. */
  lemma {:induction false} ChainPartition(rrs: seq<Nsec3>, hs: seq<Text>, zone: Text, name: Text, x: Text)
    requires Chain(rrs, hs, zone) && NameInZone(name, zone) && x !in hs
    ensures exists i :: OnlyCover(rrs, name, x, i)
    ensures forall j :: 0 <= j < |rrs| ==> !Match(rrs[j], name, x)
  {
    hide Cover, Match, LexLess, NameInZone;
    var p := Position(hs, x);
    var i := Interval(p, |hs|);
    forall j | 0 <= j < |rrs| ensures (Cover(rrs[j], name, x) <==> j == i) && !Match(rrs[j], name, x) {
      RecordSays(rrs, hs, zone, name, x, j);
      LexTrichotomy(x, hs[j]);
      assert hs[j] in hs && hs[0] in hs;
    }
    assert OnlyCover(rrs, name, x, i);
  }

  /**
   * An owner hash is matched by exactly its own record. That record, unless it is the last, also
   * says that it covers the hash, though a record should not cover its own owner; no other does.
   */
  lemma {:induction false} ChainMatch(rrs: seq<Nsec3>, hs: seq<Text>, zone: Text, name: Text, i: nat)
    requires Chain(rrs, hs, zone) && NameInZone(name, zone) && i < |hs|
    ensures forall j :: 0 <= j < |rrs| ==> (Match(rrs[j], name, hs[i]) <==> j == i)
    ensures forall j :: 0 <= j < |rrs| ==> (Cover(rrs[j], name, hs[i]) <==> j == i && i < |hs| - 1)
  {
    hide Cover, Match, LexLess, NameInZone;
    var x := hs[i];
    forall j | 0 <= j < |rrs|
      ensures (Match(rrs[j], name, x) <==> j == i) && (Cover(rrs[j], name, x) <==> j == i && i < |hs| - 1)
    {
      RecordSays(rrs, hs, zone, name, x, j);
      LexTrichotomy(x, hs[j]);
      LexTrichotomy(x, hs[0]);
      if j + 1 < |hs| {
        LexTrichotomy(x, hs[j + 1]);
      }
    }
  }

  lemma {:induction false} HashAlone(h: Text)
    requires Plain(h)
    ensures Starts(UpperText(h + [DOT])) == [0]
  {
    UpperConcat(h, []);
    hide UpperText;
    assert h + [DOT] + [] == h + [DOT];
    assert UpperText([]) == [];
    var owner := h + [DOT];
    PlainFirstDot(h, [DOT]);
    assert owner[0..] == owner;
    assert StartsFrom(owner, |h| + 1) == [];
  }

  /** In the root zone an owner is one label, and no record ever covers or matches anything. */
  lemma {:induction false} RootZoneSilent(h: Text, next: Text, name: Text, x: Text)
    requires Plain(h)
    ensures !Cover(Nsec3(h + [DOT], next), name, x) && !Match(Nsec3(h + [DOT], next), name, x)
  {
    HashAlone(h);
  }

  /** For a name that is not in the zone, no record of the chain says anything. */
  lemma {:induction false} OutsideTheZone(rrs: seq<Nsec3>, hs: seq<Text>, zone: Text, name: Text, x: Text, i: nat)
    requires Chain(rrs, hs, zone) && !NameInZone(name, zone) && i < |hs|
    ensures !Cover(rrs[i], name, x) && !Match(rrs[i], name, x)
  {
    hide Starts, HashLabel, Zone, Folded, UpperText, LexLess, SuffixOf;
    assert Plain(hs[i]);
    OwnerSplits(hs[i], zone);
    var rr := rrs[i];
    assert rr == Nsec3(hs[i] + [DOT] + zone, hs[if i + 1 < |hs| then i + 1 else 0]);
  }

  // ----- octet by octet -----

  /** Upper case moves the letters a to z and nothing else. */
  lemma UpperIs(b: byte)
    ensures Upper(b) == if 'a' as int <= b <= 'z' as int then b - ('a' as int - 'A' as int) else b
  {
  }

  /** What record `i` of a chain covers, by the first octet in which two hashes differ. */
  lemma {:induction false} CoverByOctets(rrs: seq<Nsec3>, hs: seq<Text>, zone: Text, name: Text, x: Text, i: nat)
    requires Chain(rrs, hs, zone) && NameInZone(name, zone) && i < |hs|
    ensures Cover(rrs[i], name, x) <==>
            if |hs| == 1 then x != hs[0]
            else if i == |hs| - 1 then Before(hs[i], x) || Before(x, hs[0])
            else !Before(x, hs[i]) && Before(x, hs[i + 1])
  {
    hide Cover, Before, LexLess, Chain;
    RecordSays(rrs, hs, zone, name, x, i);
    ChainNotEmpty(rrs, hs, zone);
    LexIsBefore(hs[i], x);
    LexIsBefore(x, hs[0]);
    LexIsBefore(x, hs[i]);
    if i + 1 < |hs| {
      LexIsBefore(x, hs[i + 1]);
    }
  }

  lemma ChainNotEmpty(rrs: seq<Nsec3>, hs: seq<Text>, zone: Text)
    requires Chain(rrs, hs, zone)
    ensures |rrs| == |hs| >= 1
  {
  }
}
