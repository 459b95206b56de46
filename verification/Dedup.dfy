/** Removing duplicate records: TTLs change through the heap, the slice is compacted in place. */
module Dedup {
  import opened Octets

  /** A record on the heap. Its key is the printed form without the TTL, owner in lower case. */
  class Record {
    const key: Text
    var ttl: uint32

    constructor (k: Text, t: uint32)
      ensures key == k && ttl == t
    {
      key := k;
      ttl := t;
    }
  }

  /** The caller's map, which only holds records while the call lasts. */
  class Store {
    var at: map<Text, Record>

    constructor ()
      ensures at == map[]
    {
      at := map[];
    }
  }

  // ----- specification -----

  function Keys(s: seq<Record>): (ks: seq<Text>)
    ensures |ks| == |s| && forall i :: 0 <= i < |s| ==> ks[i] == s[i].key
  {
    seq(|s|, i requires 0 <= i < |s| => s[i].key)
  }

  ghost function Ttls(s: seq<Record>): (ts: seq<uint32>)
    reads s
    ensures |ts| == |s| && forall i :: 0 <= i < |s| ==> ts[i] == s[i].ttl
  {
    seq(|s|, i requires 0 <= i < |s| reads s => s[i].ttl)
  }

  /** Positions below `n` whose key has not occurred before. */
  function Firsts(keys: seq<Text>, n: nat): (fs: seq<nat>)
    requires n <= |keys|
    ensures |fs| <= n
    ensures forall j :: 0 <= j < |fs| ==> fs[j] < n
  {
    if n == 0 then []
    else if keys[n - 1] in keys[..n - 1] then Firsts(keys, n - 1)
    else Firsts(keys, n - 1) + [n - 1]
  }

  /** Where key `k` occurs first. */
  function FirstAt(keys: seq<Text>, k: Text): (i: nat)
    requires k in keys
    ensures i < |keys| && keys[i] == k && k !in keys[..i]
  {
    if keys[0] == k then 0 else
      var i := 1 + FirstAt(keys[1..], k);
      assert keys[..i] == [keys[0]] + keys[1..][..i - 1];
      i
  }

  const NO_TTL := 0x1_0000_0000

  /** The smallest TTL among the records below `n` with key `k`. */
  function Least(keys: seq<Text>, ttls: seq<uint32>, k: Text, n: nat): nat
    requires n <= |keys| == |ttls|
  {
    if n == 0 then NO_TTL
    else
      var rest := Least(keys, ttls, k, n - 1);
      if keys[n - 1] == k && ttls[n - 1] < rest then ttls[n - 1] else rest
  }

  lemma {:induction false} LeastIs(keys: seq<Text>, ttls: seq<uint32>, k: Text, n: nat)
    requires n <= |keys| == |ttls|
    ensures forall i :: 0 <= i < n && keys[i] == k ==> Least(keys, ttls, k, n) <= ttls[i]
    ensures k in keys[..n] ==> exists i :: 0 <= i < n && keys[i] == k && Least(keys, ttls, k, n) == ttls[i]
    ensures k !in keys[..n] ==> Least(keys, ttls, k, n) == NO_TTL
  {
    if n > 0 {
      LeastIs(keys, ttls, k, n - 1);
      assert keys[..n] == keys[..n - 1] + [keys[n - 1]];
      if keys[n - 1] == k && k !in keys[..n - 1] {
        assert Least(keys, ttls, k, n) == ttls[n - 1];
      }
    }
  }

  lemma {:induction false} FirstsAll(keys: seq<Text>, n: nat)
    requires n <= |keys| && |Firsts(keys, n)| == n
    ensures forall j :: 0 <= j < n ==> Firsts(keys, n)[j] == j
  {
    if n > 0 {
      FirstsAll(keys, n - 1);
    }
  }

  /** `n` is a first position exactly when its key's first occurrence is there. */
  lemma FirstIsHere(keys: seq<Text>, n: nat)
    requires n < |keys|
    ensures keys[n] !in keys[..n] <==> FirstAt(keys, keys[n]) == n
    ensures FirstAt(keys, keys[n]) <= n
  {
    var i := FirstAt(keys, keys[n]);
    InPrefix(keys, n, i);
    InPrefix(keys, i, n);
  }

  lemma InPrefix(keys: seq<Text>, i: nat, n: nat)
    requires n <= |keys|
    ensures i < n ==> keys[i] in keys[..n]
  {
    if i < n {
      assert keys[..n][i] == keys[i];
    }
  }

  /** No key first occurs from `i` on, so there are no more first positions. */
  lemma {:induction false} FirstsDone(keys: seq<Text>, i: nat, n: nat)
    requires i <= n <= |keys| && forall k :: k in keys ==> FirstAt(keys, k) < i
    ensures Firsts(keys, n) == Firsts(keys, i)
    decreases n
  {
    if i < n {
      assert keys[n - 1] in keys;
      FirstIsHere(keys, n - 1);
      FirstsDone(keys, i, n - 1);
    }
  }

  // ----- first loop: the map and the TTLs -----

  /** A map under the keys of its records, as an earlier call leaves it. */
  ghost predicate KeyedMap(at: map<Text, Record>) {
    forall k :: k in at ==> at[k].key == k
  }

  ghost function MapTtls(at: map<Text, Record>): (ts: map<Text, uint32>)
    reads at.Values
    ensures ts.Keys == at.Keys && forall k :: k in at ==> ts[k] == at[k].ttl
  {
    map k | k in at :: at[k].ttl
  }

  /** The map holds what it held, and the first record of every other key below `i`. */
  ghost predicate Mapped(s: seq<Record>, m0: map<Text, Record>, at: map<Text, Record>, i: nat) {
    var keys := Keys(s);
    && i <= |s|
    && (forall k :: k in at <==> k in m0 || k in keys[..i])
    && (forall k :: k in at ==> if k in m0 then at[k] == m0[k] else k in keys && at[k] == s[FirstAt(keys, k)])
  }

  /** The smallest TTL under key `k`, that of the record held at the start included. */
  ghost function Low(held: map<Text, uint32>, keys: seq<Text>, ttls: seq<uint32>, k: Text, n: nat): nat
    requires n <= |keys| == |ttls|
  {
    var l := Least(keys, ttls, k, n);
    if k in held && held[k] < l then held[k] else l
  }

  /** Records in the map have the smallest TTL so far; the others are untouched. */
  ghost predicate Lowered(s: seq<Record>, at: map<Text, Record>, ttls: seq<uint32>, held: map<Text, uint32>, i: nat)
    reads s, at.Values
    requires |ttls| == |s|
  {
    && i <= |s|
    && (forall k :: k in at ==> at[k].ttl == Low(held, Keys(s), ttls, k, i))
    && (forall j :: 0 <= j < |s| && (s[j].key !in at || at[s[j].key] != s[j]) ==> s[j].ttl == ttls[j])
  }

  lemma {:induction false} PrefixNext(keys: seq<Text>, i: nat)
    requires i < |keys|
    ensures forall k :: k in keys[..i + 1] <==> k in keys[..i] || k == keys[i]
  {
    assert keys[..i + 1] == keys[..i] + [keys[i]];
  }

  lemma {:induction false} MappedNew(s: seq<Record>, m0: map<Text, Record>, at: map<Text, Record>, i: nat)
    requires Mapped(s, m0, at, i) && i < |s| && s[i].key !in at
    ensures Mapped(s, m0, at[s[i].key := s[i]], i + 1)
  {
    hide FirstAt, Keys;
    var keys := Keys(s);
    FirstIsHere(keys, i);
    PrefixNext(keys, i);
  }

  lemma {:induction false} MappedOld(s: seq<Record>, m0: map<Text, Record>, at: map<Text, Record>, i: nat)
    requires Mapped(s, m0, at, i) && i < |s| && s[i].key in at
    ensures Mapped(s, m0, at, i + 1)
  {
    hide FirstAt, Keys;
    PrefixNext(Keys(s), i);
  }

  lemma {:induction false} LowNext(held: map<Text, uint32>, keys: seq<Text>, ttls: seq<uint32>, i: nat)
    requires i < |keys| == |ttls|
    ensures forall k :: k != keys[i] ==> Low(held, keys, ttls, k, i + 1) == Low(held, keys, ttls, k, i)
    ensures var l := Low(held, keys, ttls, keys[i], i);
            Low(held, keys, ttls, keys[i], i + 1) == if ttls[i] < l then ttls[i] else l
  {
  }

  lemma {:induction false} LoweredNew(s: seq<Record>, m0: map<Text, Record>, at: map<Text, Record>, ttls: seq<uint32>,
                                      held: map<Text, uint32>, i: nat)
    requires |ttls| == |s| && Mapped(s, m0, at, i) && Lowered(s, at, ttls, held, i) && i < |s| && s[i].key !in at
    requires held.Keys == m0.Keys
    ensures Lowered(s, at[s[i].key := s[i]], ttls, held, i + 1)
  {
    var keys, key := Keys(s), s[i].key;
    LeastIs(keys, ttls, key, i);
    LowNext(held, keys, ttls, i);
    assert Low(held, keys, ttls, key, i + 1) == ttls[i];
    hide Low, Keys, FirstAt;
  }

  /** Snapshots agree on an object that occurs more than once. */
  ghost predicate Snapshots(s: seq<Record>, m0: map<Text, Record>, ttls: seq<uint32>, held: map<Text, uint32>) {
    && |ttls| == |s| && held.Keys == m0.Keys
    && (forall j, k :: 0 <= j < |s| && 0 <= k < |s| && s[j] == s[k] ==> ttls[j] == ttls[k])
    && (forall j, k :: 0 <= j < |s| && k in m0 && m0[k] == s[j] ==> held[k] == ttls[j])
  }

  lemma {:induction false} SameObject(s: seq<Record>, m0: map<Text, Record>, at: map<Text, Record>, ttls: seq<uint32>,
                                      held: map<Text, uint32>, i: nat)
    requires Snapshots(s, m0, ttls, held) && KeyedMap(m0)
    requires Mapped(s, m0, at, i) && Lowered(s, at, ttls, held, i) && i < |s| && s[i].key in at
    ensures var keys, key := Keys(s), s[i].key;
            && at[key].ttl == Low(held, keys, ttls, key, i) && at[key].key == key
            && (at[key] in s || at[key] in m0.Values)
            && (s[i] != at[key] ==> s[i].ttl == ttls[i])
            && (s[i] == at[key] ==> ttls[i] >= Low(held, keys, ttls, key, i))
  {
    var keys, key := Keys(s), s[i].key;
    LeastIs(keys, ttls, key, i);
    if key !in m0 {
      var f := FirstAt(keys, key);
      FirstIsHere(keys, i);
      FirstIn(keys, key, i);
      assert at[key] == s[f];
    }
  }

  lemma FirstIn(keys: seq<Text>, k: Text, i: nat)
    requires i <= |keys| && k in keys[..i]
    ensures k in keys && FirstAt(keys, k) < i
  {
    var p :| 0 <= p < i && keys[..i][p] == k;
    assert keys[p] == k;
    InPrefix(keys, p, FirstAt(keys, k));
  }

  /** The loop that fills the map; a repeated record may be the same object. */
  method Gather(s: seq<Record>, m: Store)
    requires KeyedMap(m.at)
    modifies m, s, m.at.Values
    ensures Mapped(s, old(m.at), m.at, |s|)
    ensures Lowered(s, m.at, old(Ttls(s)), old(MapTtls(m.at)), |s|)
  {
    ghost var m0, ttls, held := m.at, Ttls(s), MapTtls(m.at);
    hide Least, Low, FirstAt, Mapped, Keys, Firsts, Lowered, Snapshots, Ttls, MapTtls, KeyedMap;
    StartLowered(s, m0, ttls, held);
    for i := 0 to |s|
      invariant Mapped(s, m0, m.at, i)
      invariant Lowered(s, m.at, ttls, held, i)
    {
      GatherOne(s, m, m0, ttls, held, i);
    }
  }

  /** One record: it lowers the TTL of the one in the map, or goes into the map itself. */
  method GatherOne(s: seq<Record>, m: Store, ghost m0: map<Text, Record>, ghost ttls: seq<uint32>,
                   ghost held: map<Text, uint32>, i: nat)
    requires Snapshots(s, m0, ttls, held) && KeyedMap(m0) && i < |s| && |ttls| == |s|
    requires Mapped(s, m0, m.at, i) && Lowered(s, m.at, ttls, held, i)
    modifies m, s, m0.Values
    ensures Mapped(s, m0, m.at, i + 1) && Lowered(s, m.at, ttls, held, i + 1)
  {
    hide Least, Low, FirstAt, Mapped, Keys, Firsts, Lowered, Snapshots, KeyedMap;
    var r := s[i];
    var key := r.key;
    if key in m.at {
      Lower(s, m0, m.at, ttls, held, i);
      MappedOld(s, m0, m.at, i);
    } else {
      SnapshotKeys(s, m0, ttls, held);
      MappedNew(s, m0, m.at, i);
      LoweredNew(s, m0, m.at, ttls, held, i);
      m.at := m.at[key := r];
    }
  }

  lemma SnapshotKeys(s: seq<Record>, m0: map<Text, Record>, ttls: seq<uint32>, held: map<Text, uint32>)
    requires Snapshots(s, m0, ttls, held)
    ensures |ttls| == |s| && held.Keys == m0.Keys
  {
  }

  lemma StartLowered(s: seq<Record>, m0: map<Text, Record>, ttls: seq<uint32>, held: map<Text, uint32>)
    requires KeyedMap(m0) && ttls == Ttls(s) && held == MapTtls(m0)
    ensures Mapped(s, m0, m0, 0) && Snapshots(s, m0, ttls, held) && Lowered(s, m0, ttls, held, 0)
  {
    assert Keys(s)[..0] == [];
  }

  /** Shortest TTL wins. */
  method Lower(s: seq<Record>, ghost m0: map<Text, Record>, at: map<Text, Record>, ghost ttls: seq<uint32>,
               ghost held: map<Text, uint32>, i: nat)
    requires Snapshots(s, m0, ttls, held) && KeyedMap(m0) && i < |s| && s[i].key in at
    requires |ttls| == |s| && Mapped(s, m0, at, i) && Lowered(s, at, ttls, held, i)
    modifies s, m0.Values
    ensures Lowered(s, at, ttls, held, i + 1)
  {
    hide Low, Mapped, Keys, Snapshots, FirstAt;
    var r, mr := s[i], at[s[i].key];
    SameObject(s, m0, at, ttls, held, i);
    LowNext(held, Keys(s), ttls, i);
    MapKeyed(s, m0, at, i);
    if mr.ttl > r.ttl {
      mr.ttl := r.ttl;
    }
  }

  lemma MapKeyed(s: seq<Record>, m0: map<Text, Record>, at: map<Text, Record>, i: nat)
    requires Mapped(s, m0, at, i) && KeyedMap(m0)
    ensures KeyedMap(at) && forall k :: k in at ==> at[k] in s || at[k] in m0.Values
  {
    hide FirstAt;
    forall k | k in at && k !in m0 ensures at[k].key == k {
      FirstHolds(Keys(s), k);
    }
  }

  // ----- second loop: compaction -----

  /** The records at the first positions below `i`. */
  function Kept(s: seq<Record>, i: nat): (r: seq<Record>)
    requires i <= |s|
    ensures |r| == |Firsts(Keys(s), i)| <= i
  {
    var fs := Firsts(Keys(s), i);
    seq(|fs|, j requires 0 <= j < |fs| => s[fs[j]])
  }

  /** The map still holds exactly the keys that first occur from `i` on, and `others`, which do not occur. */
  ghost predicate Draining(s: seq<Record>, others: set<Text>, at: map<Text, Record>, i: nat) {
    var keys := Keys(s);
    && i <= |s| && (forall k :: k in others ==> k !in keys)
    && forall k :: k in at <==> k in others || (k in keys && FirstAt(keys, k) >= i)
  }

  /** What is left of a map after keys were taken out: the records under the other keys stay. */
  ghost predicate LeftOf(at: map<Text, Record>, before: map<Text, Record>) {
    forall k :: k in at ==> k in before && at[k] == before[k]
  }

  /** Keys held at the start that do not occur in the slice. */
  ghost function Others(s: seq<Record>, m0: map<Text, Record>): set<Text> {
    set k | k in m0 && k !in Keys(s)
  }

  lemma {:induction false} DrainStart(s: seq<Record>, m0: map<Text, Record>, at: map<Text, Record>)
    requires Mapped(s, m0, at, |s|)
    ensures Draining(s, Others(s, m0), at, 0)
  {
    hide FirstAt;
    assert Keys(s)[..|s|] == Keys(s);
  }

  lemma {:induction false} DrainStep(s: seq<Record>, others: set<Text>, at: map<Text, Record>, i: nat)
    requires Draining(s, others, at, i) && i < |s|
    ensures s[i].key in at ==> Draining(s, others, at - {s[i].key}, i + 1) && Kept(s, i + 1) == Kept(s, i) + [s[i]]
    ensures s[i].key !in at ==> Draining(s, others, at, i + 1) && Kept(s, i + 1) == Kept(s, i)
  {
    hide FirstAt;
    var keys := Keys(s);
    FirstIsHere(keys, i);
    assert keys[i] in keys;
    forall k | k in keys && FirstAt(keys, k) == i ensures k == keys[i] {
      FirstHolds(keys, k);
    }
  }

  lemma FirstHolds(keys: seq<Text>, k: Text)
    requires k in keys
    ensures FirstAt(keys, k) < |keys| && keys[FirstAt(keys, k)] == k
  {
  }

  lemma {:induction false} Drained(s: seq<Record>, others: set<Text>, at: map<Text, Record>, i: nat)
    requires Draining(s, others, at, i) && at == map[]
    ensures Kept(s, i) == Kept(s, |s|) && others == {}
  {
    hide FirstAt;
    FirstsDone(Keys(s), i, |s|);
  }

  /** Records are moved down over slots that have been read already; the loop ends when the map is empty. */
  method Compact(rrs: array<Record>, m: Store, ghost others: set<Text>) returns (j: nat)
    requires Draining(rrs[..], others, m.at, 0)
    modifies rrs, m
    ensures j <= rrs.Length && rrs[..j] == Kept(old(rrs[..]), rrs.Length) && rrs[j..] == old(rrs[j..])
    ensures m.at.Keys == others && LeftOf(m.at, old(m.at))
  {
    hide Draining, Kept, Keys, Firsts, FirstAt;
    ghost var s := rrs[..];
    j := 0;
    KeptNone(s);
    for i := 0 to rrs.Length
      invariant j <= i && Draining(s, others, m.at, i) && LeftOf(m.at, old(m.at))
      invariant rrs[..j] == Kept(s, i) && rrs[j..] == s[j..]
    {
      var r := rrs[i];
      assert r == s[i] by { assert rrs[j..][i - j] == s[j..][i - j]; }
      DrainStep(s, others, m.at, i);
      if r.key in m.at {
        m.at := m.at - {r.key};
        Keep(rrs, j, r);
        assert rrs[j + 1..] == s[j + 1..] by { assert s[j..][1..] == s[j + 1..]; }
        j := j + 1;
      }
      if |m.at| == 0 {
        assert m.at == map[];
        Drained(s, others, m.at, i + 1);
        return;
      }
    }
    DrainedAll(s, others, m.at);
  }

  method Keep(rrs: array<Record>, j: nat, r: Record)
    requires j < rrs.Length
    modifies rrs
    ensures rrs[..j + 1] == old(rrs[..j]) + [r] && rrs[j + 1..] == old(rrs[j..])[1..]
  {
    rrs[j] := r;
  }

  lemma KeptNone(s: seq<Record>)
    ensures Kept(s, 0) == []
  {
  }

  lemma {:induction false} DrainedAll(s: seq<Record>, others: set<Text>, at: map<Text, Record>)
    requires Draining(s, others, at, |s|)
    ensures at.Keys == others
  {
    forall k ensures k in at <==> k in others {
      if k in Keys(s) {
        FirstHolds(Keys(s), k);
      }
    }
  }

  // ----- the whole -----

  ghost function Members(keys: seq<Text>): set<Text> {
    set k | k in keys
  }

  ghost function KeySet(s: seq<Record>): set<Text> {
    Members(Keys(s))
  }

  /** The slice is handed back as it is when there are as many records as keys, held ones included. */
  ghost predicate Whole(s: seq<Record>, m0: map<Text, Record>) {
    |m0.Keys + KeySet(s)| == |s|
  }

  /** The record that stands for key `k` while TTLs are lowered: the one held, or the first in the slice. */
  ghost function Holder(s: seq<Record>, m0: map<Text, Record>, k: Text): Record
    requires k in Keys(s)
  {
    if k in m0 then m0[k] else s[FirstAt(Keys(s), k)]
  }

  /** Every record of a map is the one held under its key at the start, or stands for a key of the slice. */
  ghost predicate HeldOrFirst(s: seq<Record>, m0: map<Text, Record>, at: map<Text, Record>) {
    forall k :: k in at ==> if k in m0 then at[k] == m0[k] else k in Keys(s) && at[k] == Holder(s, m0, k)
  }

  /**
   * For any map under the keys of its records: the slice keeps the first record of every key in the
   * original order, unless there happen to be as many records as keys, held ones included, and then
   * it is left as it is. Of the records with a key, the one held, or else the first in the slice,
   * gets the smallest TTL; the others keep theirs. So the TTL of a record that is only in the map
   * can be lowered, by a record that then leaves the slice or stays with its own larger TTL. Keys of
   * the slice leave the map, unless the slice was left as it is, and then the map also holds the first
   * record of every key that it did not have.
   */
  method Dedup(rrs: array<Record>, m: Store) returns (n: nat)
    requires KeyedMap(m.at)
    modifies rrs, m, rrs[..], m.at.Values
    ensures n <= rrs.Length && rrs[n..] == old(rrs[n..])
    ensures rrs[..n] == HandedBack(old(rrs[..]), old(m.at))
    ensures forall i :: 0 <= i < rrs.Length ==>
              var s, r := old(rrs[..]), old(rrs[i]);
              r.ttl == if Holder(s, old(m.at), r.key) == r
                       then Low(old(MapTtls(m.at)), Keys(s), old(Ttls(rrs[..])), r.key, |s|)
                       else old(rrs[i].ttl)
    ensures forall k :: k in old(m.at) ==>
              old(m.at)[k].ttl
              == Low(old(MapTtls(m.at)), Keys(old(rrs[..])), old(Ttls(rrs[..])), k, |old(rrs[..])|)
    ensures m.at.Keys == if Whole(old(rrs[..]), old(m.at))
                         then old(m.at).Keys + KeySet(old(rrs[..]))
                         else Others(old(rrs[..]), old(m.at))
    ensures HeldOrFirst(old(rrs[..]), old(m.at), m.at)
  {
    hide FirstAt, Least, Low, Mapped, Kept, Firsts, Lowered, Draining, Keys, KeySet, Others, Holder, Ttls, MapTtls,
         KeyedMap;
    ghost var s, m0, ttls, held := rrs[..], m.at, Ttls(rrs[..]), MapTtls(m.at);
    Gather(rrs[..], m);
    ghost var at := m.at;
    MapSize(s, m0, at);
    MapHolds(s, m0, at);
    HeldLowered(s, m0, at, ttls, held);
    if |m.at| == rrs.Length {
      LoweredAll(s, m0, at, ttls, held);
      assert rrs[..rrs.Length] == s;
      return rrs.Length;
    }
    DrainStart(s, m0, at);
    n := Compact(rrs, m, Others(s, m0));
    LoweredAll(s, m0, at, ttls, held);
    HeldLowered(s, m0, at, ttls, held);
    LeftHolds(s, m0, at, m.at);
  }

  lemma {:induction false} MapHolds(s: seq<Record>, m0: map<Text, Record>, at: map<Text, Record>)
    requires Mapped(s, m0, at, |s|)
    ensures HeldOrFirst(s, m0, at)
  {
    hide FirstAt, Keys;
  }

  lemma {:induction false} LeftHolds(s: seq<Record>, m0: map<Text, Record>, at: map<Text, Record>,
                                     left: map<Text, Record>)
    requires HeldOrFirst(s, m0, at) && LeftOf(left, at)
    ensures HeldOrFirst(s, m0, left)
  {
    hide Holder, Keys;
  }

  /** Records held at the start stay in the map while TTLs are lowered. */
  lemma {:induction false} HeldLowered(s: seq<Record>, m0: map<Text, Record>, at: map<Text, Record>, ttls: seq<uint32>,
                                       held: map<Text, uint32>)
    requires |ttls| == |s| && Mapped(s, m0, at, |s|) && Lowered(s, at, ttls, held, |s|)
    ensures forall k :: k in m0 ==> m0[k].ttl == Low(held, Keys(s), ttls, k, |s|)
  {
    hide FirstAt, Low, Keys;
  }

  lemma {:induction false} MapSize(s: seq<Record>, m0: map<Text, Record>, at: map<Text, Record>)
    requires Mapped(s, m0, at, |s|)
    ensures at.Keys == m0.Keys + KeySet(s) && |at| == |m0.Keys + KeySet(s)|
  {
    hide FirstAt;
    assert Keys(s)[..|s|] == Keys(s);
    assert at.Keys == m0.Keys + KeySet(s);
    assert |at| == |at.Keys|;
  }

  lemma {:induction false} LoweredAll(s: seq<Record>, m0: map<Text, Record>, at: map<Text, Record>, ttls: seq<uint32>,
                                      held: map<Text, uint32>)
    requires |ttls| == |s| && Mapped(s, m0, at, |s|) && Lowered(s, at, ttls, held, |s|)
    ensures forall i :: 0 <= i < |s| ==>
              s[i].key in Keys(s) &&
              s[i].ttl == if Holder(s, m0, s[i].key) == s[i] then Low(held, Keys(s), ttls, s[i].key, |s|) else ttls[i]
  {
    hide FirstAt, Low, Least;
    var keys := Keys(s);
    assert keys[..|s|] == keys;
    forall i | 0 <= i < |s| ensures s[i].key in keys {
      assert keys[i] == s[i].key;
    }
  }

  // ----- the promise -----

  ghost predicate AllDiffer(s: seq<Record>) {
    forall i, j :: 0 <= i < j < |s| ==> s[i].key != s[j].key
  }

  /** What `Dedup` hands back of the slice. */
  ghost function HandedBack(s: seq<Record>, m0: map<Text, Record>): seq<Record> {
    if Whole(s, m0) then s else Kept(s, |s|)
  }

  /** The slice is handed back without duplicates exactly when it had none, or was not left as it is. */
  lemma {:induction false} HandedBackExactly(s: seq<Record>, m0: map<Text, Record>)
    ensures HandedBack(s, m0) == Kept(s, |s|) <==> !Whole(s, m0) || AllDiffer(s)
  {
    hide Whole, Kept;
    KeptAllExactly(s);
  }

  /** Everything is kept exactly when all keys differ. */
  lemma {:induction false} KeptAllExactly(s: seq<Record>)
    ensures Kept(s, |s|) == s <==> AllDiffer(s)
    ensures |Kept(s, |s|)| == |s| ==> Kept(s, |s|) == s
  {
    var keys := Keys(s);
    if |Firsts(keys, |s|)| == |s| {
      FirstsAll(keys, |s|);
      assert Kept(s, |s|) == s;
    }
    AllFirst(keys, |s|);
  }

  lemma {:induction false} AllFirst(keys: seq<Text>, n: nat)
    requires n <= |keys|
    ensures |Firsts(keys, n)| == n <==> forall i, j :: 0 <= i < j < n ==> keys[i] != keys[j]
  {
    if n > 0 {
      AllFirst(keys, n - 1);
      if keys[n - 1] in keys[..n - 1] {
        var i :| 0 <= i < n - 1 && keys[..n - 1][i] == keys[n - 1];
        assert keys[i] == keys[n - 1];
      } else {
        forall i | 0 <= i < n - 1 ensures keys[i] != keys[n - 1] {
          InPrefix(keys, i, n - 1);
        }
      }
    }
  }

  /**
   * Two records under one key and a map that holds one record under another key: as many records as
   * keys, so the slice is left with its duplicate.
   */
  lemma {:induction false} DuplicateStays(a: Record, b: Record, other: Record)
    requires a.key == b.key && other.key != a.key
    ensures KeyedMap(map[other.key := other]) && Whole([a, b], map[other.key := other])
    ensures HandedBack([a, b], map[other.key := other]) == [a, b] && Kept([a, b], 2) == [a]
  {
    var s, m0 := [a, b], map[other.key := other];
    var keys := Keys(s);
    assert keys == [a.key, b.key];
    assert m0.Keys + KeySet(s) == {other.key, a.key};
    assert keys[..0] == [] && keys[..1] == [a.key];
    assert Firsts(keys, 1) == Firsts(keys, 0) + [0] == [0];
    assert Firsts(keys, 2) == [0];
  }

  // ----- an empty map -----

  /** With an empty map nothing special can happen: the slice is left as it is only when all keys differ. */
  lemma {:induction false} EmptyMapWhole(s: seq<Record>)
    ensures Whole(s, map[]) ==> Kept(s, |s|) == s
  {
    var keys := Keys(s);
    assert keys[..|s|] == keys;
    FirstsCount(keys, |s|);
    var none: map<Text, Record> := map[];
    assert none.Keys + KeySet(s) == Members(keys[..|s|]);
    KeptAllExactly(s);
  }

  lemma {:induction false} FirstsCount(keys: seq<Text>, n: nat)
    requires n <= |keys|
    ensures |Members(keys[..n])| == |Firsts(keys, n)|
  {
    if n == 0 {
      assert keys[..0] == [];
    } else {
      FirstsCount(keys, n - 1);
      PrefixNext(keys, n - 1);
      var before, k := Members(keys[..n - 1]), keys[n - 1];
      assert Members(keys[..n]) == before + {k};
      if k in keys[..n - 1] {
        assert before + {k} == before;
      } else {
        assert k !in before && |before + {k}| == |before| + 1;
      }
    }
  }

  /** The record kept for a key is the one that gets the smallest TTL. */
  lemma {:induction false} KeptAreFirst(s: seq<Record>, j: nat)
    requires j < |Kept(s, |s|)|
    ensures var r := Kept(s, |s|)[j]; r.key in Keys(s) && Holder(s, map[], r.key) == r
  {
    hide FirstAt;
    var keys := Keys(s);
    var f := Firsts(keys, |s|)[j];
    FirstsAre(keys, |s|, j);
    assert keys[f] in keys;
    FirstIsHere(keys, f);
  }

  /**
   * With a nil or empty map: the slice keeps the first record of every key in the original order,
   * each with the smallest TTL of its duplicates.
   */
  method DedupNil(rrs: array<Record>) returns (n: nat)
    modifies rrs, rrs[..]
    ensures n <= rrs.Length && rrs[..n] == Kept(old(rrs[..]), rrs.Length) && rrs[n..] == old(rrs[n..])
    ensures forall i :: 0 <= i < n ==>
            rrs[i].ttl == Least(Keys(old(rrs[..])), old(Ttls(rrs[..])), rrs[i].key, rrs.Length)
  {
    hide FirstAt, Least, Kept, Firsts, Holder, Whole, KeySet, Others;
    ghost var s, ttls := rrs[..], Ttls(rrs[..]);
    var m := new Store();
    EmptyMapWhole(s);
    n := Dedup(rrs, m);
    forall i | 0 <= i < n ensures rrs[i].ttl == Least(Keys(s), ttls, rrs[i].key, |s|) {
      assert rrs[i] == rrs[..n][i] == Kept(s, |s|)[i];
      KeptAreFirst(s, i);
      KeptIn(s, i);
      var j :| 0 <= j < |s| && s[j] == rrs[i];
    }
  }

  lemma {:induction false} KeptIn(s: seq<Record>, j: nat)
    requires j < |Kept(s, |s|)|
    ensures Kept(s, |s|)[j] in s
  {
  }

  lemma {:induction false} FirstsAre(keys: seq<Text>, n: nat, j: nat)
    requires n <= |keys| && j < |Firsts(keys, n)|
    ensures keys[Firsts(keys, n)[j]] !in keys[..Firsts(keys, n)[j]]
    decreases n
  {
    if j < |Firsts(keys, n - 1)| {
      FirstsAre(keys, n - 1, j);
    }
  }
}
