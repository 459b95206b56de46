/** The octets a signature covers (section 6.3 of RFC 4034): canonical records, sorted, each once. */
module SignedData {
  import opened Octets
  import opened Wrappers
  import opened Presentation
  import opened Qualified
  import opened NamePack
  import opened NameUnpack
  import opened NameLength
  import opened Records
  import opened Message
  import opened Ordering
  import opened CanonicalForm
  import opened ExactSizes
  import opened Wildcard

  type Octs = seq<byte>

  /** One record in canonical form on the wire, in a buffer one octet longer than needed. */
  function WireOf(rr: RR, labels: nat, origTtl: uint32): Packed {
    var c := CanonicalRR(rr, labels, origTtl);
    PackRR(c, 0, RRLen(c, 0, NoSeen).len + 1, NoIndex, false)
  }

  function Wires(rrs: seq<RR>, labels: nat, origTtl: uint32): Option<seq<Octs>> {
    if rrs == [] then Some([])
    else match (Wires(rrs[..|rrs| - 1], labels, origTtl), WireOf(rrs[|rrs| - 1], labels, origTtl))
      case (Some(ws), Packed(w, _)) => Some(ws + [w])
      case _ => None
  }

  /** What records are compared by: everything behind the owner name and the fixed header. */
  function RdataOf(w: Octs): Octs {
    match UnpackName(w, 0)
    case Name(_, next) => if next + 10 <= |w| then w[next + 10..] else []
    case Bad(_) => []
  }

  /** `wireSlice.Less`. */
  predicate Less(a: Octs, b: Octs) {
    LexLess(RdataOf(a), RdataOf(b))
  }

  predicate Sorted(r: seq<Octs>) {
    forall i, j :: 0 <= i < j < |r| ==> !Less(r[j], r[i])
  }

  /** A result `sort.Sort` may leave: it is not stable, so there can be several. */
  predicate SortOf(ws: seq<Octs>, r: seq<Octs>) {
    multiset(ws) == multiset(r) && Sorted(r)
  }

  /** The distinct wires of a sorted list. */
  function Distinct(r: seq<Octs>): seq<Octs> {
    if r == [] then []
    else if |r| > 1 && r[|r| - 1] == r[|r| - 2] then Distinct(r[..|r| - 1])
    else Distinct(r[..|r| - 1]) + [r[|r| - 1]]
  }

  function Flattened(ws: seq<Octs>): Octs {
    if ws == [] then [] else Flattened(ws[..|ws| - 1]) + ws[|ws| - 1]
  }

  // ----- the method -----

  /** Insertion; nothing but the order is promised to the caller. */
  method SortWires(ws: seq<Octs>) returns (r: seq<Octs>)
    ensures SortOf(ws, r)
  {
    hide Less;
    r := [];
    for i := 0 to |ws|
      invariant SortOf(ws[..i], r)
    {
      assert ws[..i + 1] == ws[..i] + [ws[i]];
      r := Insert(r, ws[i]);
    }
    assert ws[..|ws|] == ws;
  }

  method Insert(r: seq<Octs>, w: Octs) returns (s: seq<Octs>)
    requires Sorted(r)
    ensures multiset(s) == multiset(r) + multiset{w} && Sorted(s)
  {
    hide Less;
    var k := |r|;
    while k > 0 && Less(w, r[k - 1])
      invariant 0 <= k <= |r|
      invariant forall j :: k <= j < |r| ==> Less(w, r[j])
    {
      k := k - 1;
    }
    s := r[..k] + [w] + r[k..];
    assert r == r[..k] + r[k..];
    InsertSorted(r, w, k);
  }

  lemma {:induction false} InsertSorted(r: seq<Octs>, w: Octs, k: nat)
    requires k <= |r| && Sorted(r) && (forall j :: k <= j < |r| ==> Less(w, r[j])) && (k > 0 ==> !Less(w, r[k - 1]))
    ensures Sorted(r[..k] + [w] + r[k..])
  {
    hide RdataOf, LexLess;
    var s := r[..k] + [w] + r[k..];
    forall i, j | 0 <= i < j < |s| ensures !Less(s[j], s[i]) {
      if j == k {
        assert s[i] == r[i];
        if Less(w, r[i]) {
          LexTrichotomy(RdataOf(r[k - 1]), RdataOf(r[i]));
          if RdataOf(r[k - 1]) != RdataOf(r[i]) {
            assert !Less(r[k - 1], r[i]);
            LexTransitive(RdataOf(w), RdataOf(r[i]), RdataOf(r[k - 1]));
          }
        }
      } else if i == k {
        assert s[j] == r[j - 1];
        LexTrichotomy(RdataOf(w), RdataOf(r[j - 1]));
      } else {
        assert s[i] == r[if i < k then i else i - 1] && s[j] == r[if j < k then j else j - 1];
      }
    }
  }

  /** `rawSignatureData`. */
  method RawSignatureData(rrset: seq<RR>, labels: nat, origTtl: uint32) returns (buf: Option<Octs>)
    ensures buf.Some? <==> Wires(rrset, labels, origTtl).Some?
    ensures buf.Some? ==>
              exists r :: SortOf(Wires(rrset, labels, origTtl).value, r) && buf.value == Flattened(Distinct(r))
  {
    hide WireOf, SortOf;
    var wires: seq<Octs> := [];
    for i := 0 to |rrset|
      invariant Wires(rrset[..i], labels, origTtl) == Some(wires)
    {
      assert rrset[..i + 1][..i] == rrset[..i];
      match WireOf(rrset[i], labels, origTtl)
      case Failed(_) =>
        WiresPrefix(rrset, i + 1, labels, origTtl);
        return None;
      case Packed(w, _) =>
        wires := wires + [w];
    }
    assert rrset[..|rrset|] == rrset;
    var r := SortWires(wires);
    var out: Octs := [];
    for i := 0 to |r|
      invariant out == Flattened(Distinct(r[..i]))
    {
      DistinctStep(r, i);
      if i > 0 && r[i] == r[i - 1] {
        continue;
      }
      out := out + r[i];
    }
    assert r[..|r|] == r;
    buf := Some(out);
  }

  lemma {:induction false} DistinctStep(r: seq<Octs>, i: nat)
    requires i < |r|
    ensures Flattened(Distinct(r[..i + 1])) ==
            if i > 0 && r[i] == r[i - 1] then Flattened(Distinct(r[..i])) else Flattened(Distinct(r[..i])) + r[i]
  {
    var s := r[..i + 1];
    assert s[..i] == r[..i];
    assert s[i] == r[i] && (i > 0 ==> s[i - 1] == r[i - 1]);
    var d := Distinct(r[..i]);
    assert (d + [r[i]])[..|d|] == d;
  }

  lemma {:induction false} WiresPrefix(rrs: seq<RR>, k: nat, labels: nat, origTtl: uint32)
    requires k <= |rrs| && Wires(rrs[..k], labels, origTtl).None?
    ensures Wires(rrs, labels, origTtl).None?
    decreases |rrs|
  {
    hide WireOf;
    if k == |rrs| {
      assert rrs[..k] == rrs;
    } else {
      assert rrs[..|rrs| - 1][..k] == rrs[..k];
      WiresPrefix(rrs[..|rrs| - 1], k, labels, origTtl);
    }
  }

  // ----- a wire is known by its rdata -----

  /** The wire of a record with plain owner `name`. */
  function Framed(name: Text, rrtype: uint16, class_: uint16, ttl: uint32, d: Octs): Octs
    requires GoodLabels(NameLabels(name)) && |d| <= 0xFFFF
  {
    Wire(NameLabels(name)) + FixedHeader(rrtype, class_, ttl, |d|) + d
  }

  lemma {:induction false} PlainNameIs(s: Text, off: nat, cap: nat)
    requires FullyQualified(s) && GoodLabels(NameLabels(s)) && PackName(s, off, cap, NoIndex, false).Packed?
    ensures PackName(s, off, cap, NoIndex, false).out == Wire(NameLabels(s))
  {
    hide IsFqdn, PackLabels, Labels;
    assert s != [] by { QualifiedNotEmpty(s); }
    if s == [DOT] {
      WireOfNothing();
    } else {
      PackLabelsPlain(s, off, cap, false);
    }
  }

  lemma QualifiedNotEmpty(s: Text)
    requires FullyQualified(s)
    ensures s != []
  {
  }

  lemma {:induction false} WireIsFramed(c: RR, cap: nat)
    requires Nameable(c.name) && PackRR(c, 0, cap, NoIndex, false).Packed?
    ensures var w := PackRR(c, 0, cap, NoIndex, false).out;
            |RdataOf(w)| <= 0xFFFF && w == Framed(c.name, c.rrtype, c.class_, c.ttl, RdataOf(w))
  {
    hide PackName, PackFields, Follow, IsFqdn, EndsInDot, Wire, NameLabels, GoodLabels, FixedHeader;
    var p := PackName(c.name, 0, cap, NoIndex, false);
    var d := PackFields(c.rdata, |p.out| + 10, cap, p.index, false).out;
    var w := PackRR(c, 0, cap, NoIndex, false).out;
    PlainNameIs(c.name, 0, cap);
    var more := FixedHeader(c.rrtype, c.class_, c.ttl, |d|) + d;
    assert [] + p.out + more == w;
    WireUnpacks(NameLabels(c.name), [], more, MAX_WIRE_OCTETS);
    assert w[|p.out| + 10..] == d;
  }

  // ----- what comes out depends on the set of wires alone -----

  /** Wires that are equal when their rdata is. */
  ghost predicate Keyed(ws: set<Octs>) {
    forall a, b :: a in ws && b in ws && RdataOf(a) == RdataOf(b) ==> a == b
  }

  ghost predicate Ascending(u: seq<Octs>) {
    forall i, j :: 0 <= i < j < |u| ==> Less(u[i], u[j])
  }

  lemma {:induction false} DistinctHolds(r: seq<Octs>)
    ensures forall w :: w in Distinct(r) <==> w in r
    decreases |r|
  {
    if r != [] {
      var init := r[..|r| - 1];
      DistinctHolds(init);
      assert r == init + [r[|r| - 1]];
      if |r| > 1 {
        assert init[|r| - 2] in init;
      }
    }
  }

  lemma {:induction false} DistinctAscends(r: seq<Octs>, ws: set<Octs>)
    requires Sorted(r) && Keyed(ws) && forall w :: w in r ==> w in ws
    ensures Ascending(Distinct(r))
    decreases |r|
  {
    hide Less;
    if r != [] {
      var init, last := r[..|r| - 1], r[|r| - 1];
      assert Sorted(init) by {
        forall i, j | 0 <= i < j < |init| ensures !Less(init[j], init[i]) {
          assert !Less(r[j], r[i]);
        }
      }
      assert forall w :: w in init ==> w in r;
      DistinctAscends(init, ws);
      if |r| == 1 {
        assert Distinct(init) == [];
      } else if last != r[|r| - 2] {
        DistinctHolds(init);
        forall i | 0 <= i < |Distinct(init)| ensures Less(Distinct(init)[i], last) {
          assert Distinct(init)[i] in init;
          var k :| 0 <= k < |init| && init[k] == Distinct(init)[i];
          BelowLast(r, ws, k);
        }
      }
    }
  }

  lemma {:induction false} BelowLast(r: seq<Octs>, ws: set<Octs>, k: nat)
    requires Sorted(r) && Keyed(ws) && (forall w :: w in r ==> w in ws) && k < |r| - 1 && r[|r| - 1] != r[|r| - 2]
    ensures Less(r[k], r[|r| - 1])
  {
    hide RdataOf, LexLess;
    var n := |r|;
    assert !Less(r[n - 1], r[k]) && !Less(r[n - 1], r[n - 2]);
    LexTrichotomy(RdataOf(r[k]), RdataOf(r[n - 1]));
    LexTrichotomy(RdataOf(r[n - 2]), RdataOf(r[n - 1]));
    assert r[n - 1] in ws && r[n - 2] in ws;
    assert RdataOf(r[n - 2]) != RdataOf(r[n - 1]);
    assert k < n - 2 ==> !Less(r[n - 2], r[k]);
  }

  lemma FirstIn(u: seq<Octs>)
    ensures u == [] || u[0] in u
  {
  }

  lemma {:induction false} SameAscending(u: seq<Octs>, v: seq<Octs>)
    requires Ascending(u) && Ascending(v) && forall w :: w in u <==> w in v
    ensures u == v
    decreases |u|
  {
    hide Less;
    FirstIn(u);
    FirstIn(v);
    if u != [] {
      assert u[0] in v;
      assert v[0] in u;
      FirstSame(u, v);
      forall w ensures w in u[1..] <==> w in v[1..] {
        NotFirst(u, w);
        NotFirst(v, w);
      }
      SameAscending(u[1..], v[1..]);
    }
  }

  lemma {:induction false} FirstSame(u: seq<Octs>, v: seq<Octs>)
    requires Ascending(u) && Ascending(v) && u != [] && v != [] && u[0] in v && v[0] in u
    ensures u[0] == v[0]
  {
    hide RdataOf, LexLess;
    var i :| 0 <= i < |v| && v[i] == u[0];
    var j :| 0 <= j < |u| && u[j] == v[0];
    if i > 0 && j > 0 {
      assert Less(v[0], v[i]) && Less(u[0], u[j]);
      LexTrichotomy(RdataOf(u[0]), RdataOf(v[0]));
    }
  }

  lemma {:induction false} NotFirst(u: seq<Octs>, w: Octs)
    requires Ascending(u) && u != []
    ensures w in u[1..] <==> w in u && w != u[0]
  {
    hide RdataOf, LexLess;
    if w in u[1..] {
      var i :| 0 <= i < |u| - 1 && u[1..][i] == w;
      assert Less(u[0], u[i + 1]);
      LexIrreflexive(RdataOf(u[0]));
    }
  }

  /** Whatever order the sort leaves, and however often a wire occurs, the output is that of the set. */
  lemma {:induction false} OutputOfSet(ws1: seq<Octs>, ws2: seq<Octs>, r1: seq<Octs>, r2: seq<Octs>, ws: set<Octs>)
    requires SortOf(ws1, r1) && SortOf(ws2, r2) && Keyed(ws)
    requires (forall w :: w in ws1 <==> w in ws) && (forall w :: w in ws2 <==> w in ws)
    ensures Distinct(r1) == Distinct(r2)
  {
    hide Less, Distinct, Keyed, Ascending;
    forall w ensures w in r1 <==> w in ws {
      assert w in r1 <==> w in multiset(r1);
      assert w in ws1 <==> w in multiset(ws1);
    }
    forall w ensures w in r2 <==> w in ws {
      assert w in r2 <==> w in multiset(r2);
      assert w in ws2 <==> w in multiset(ws2);
    }
    DistinctAscends(r1, ws);
    DistinctAscends(r2, ws);
    DistinctHolds(r1);
    DistinctHolds(r2);
    SameAscending(Distinct(r1), Distinct(r2));
  }

  // ----- the theorem -----

  /** Records of one type and one class that are signed under one owner. */
  predicate SignedUnder(rrs: seq<RR>, name: Text, rrtype: uint16, class_: uint16, labels: nat) {
    Nameable(name) &&
    forall i :: 0 <= i < |rrs| ==>
        rrs[i].rrtype == rrtype && rrs[i].class_ == class_ && SignedOwner(rrs[i].name, labels) == name
  }

  /** Every record of `a` has one in `b` that a signature cannot tell from it. */
  predicate Within(a: seq<RR>, b: seq<RR>, labels: nat) {
    forall i :: 0 <= i < |a| ==> exists j :: 0 <= j < |b| && SameSigned(a[i], b[j], labels)
  }

  lemma {:induction false} WiresAre(rrs: seq<RR>, labels: nat, origTtl: uint32)
    ensures Wires(rrs, labels, origTtl).None? <==> exists i :: 0 <= i < |rrs| && WireOf(rrs[i], labels, origTtl).Failed?
    ensures Wires(rrs, labels, origTtl).Some? ==>
              var ws := Wires(rrs, labels, origTtl).value;
              |ws| == |rrs| && forall i :: 0 <= i < |rrs| ==>
                  WireOf(rrs[i], labels, origTtl).Packed? && ws[i] == WireOf(rrs[i], labels, origTtl).out
    decreases |rrs|
  {
    hide WireOf;
    if rrs != [] {
      var init := rrs[..|rrs| - 1];
      WiresAre(init, labels, origTtl);
      if i :| 0 <= i < |init| && WireOf(init[i], labels, origTtl).Failed? {
        assert WireOf(rrs[i], labels, origTtl).Failed?;
      }
      if i :| 0 <= i < |rrs| && WireOf(rrs[i], labels, origTtl).Failed? {
        assert i < |init| ==> WireOf(init[i], labels, origTtl).Failed?;
      }
    }
  }

  lemma {:induction false} SameWire(a: RR, b: RR, labels: nat, origTtl: uint32)
    requires SameSigned(a, b, labels)
    ensures WireOf(a, labels, origTtl) == WireOf(b, labels, origTtl)
  {
    hide PackRR, RRLen, SameSigned, CanonicalRR;
    SameSignedIsCanonical(a, b, labels, origTtl);
  }

  /** The wires of `a` are among those of `b`, and if `b` packs so does `a`. */
  lemma {:induction false} WithinWires(a: seq<RR>, b: seq<RR>, labels: nat, origTtl: uint32)
    requires Within(a, b, labels) && Wires(b, labels, origTtl).Some?
    ensures Wires(a, labels, origTtl).Some?
    ensures forall w :: w in Wires(a, labels, origTtl).value ==> w in Wires(b, labels, origTtl).value
  {
    hide WireOf, SameSigned, Wires;
    WiresAre(a, labels, origTtl);
    WiresAre(b, labels, origTtl);
    forall i | 0 <= i < |a|
      ensures WireOf(a[i], labels, origTtl).Packed?
      ensures WireOf(a[i], labels, origTtl).out in Wires(b, labels, origTtl).value
    {
      var j :| 0 <= j < |b| && SameSigned(a[i], b[j], labels);
      SameWire(a[i], b[j], labels, origTtl);
      assert Wires(b, labels, origTtl).value[j] == WireOf(b[j], labels, origTtl).out;
    }
  }

  lemma {:induction false} RRsetKeyed(rrs: seq<RR>, name: Text, rrtype: uint16, class_: uint16, labels: nat,
                                      origTtl: uint32)
    requires SignedUnder(rrs, name, rrtype, class_, labels) && Wires(rrs, labels, origTtl).Some?
    ensures Keyed(set w | w in Wires(rrs, labels, origTtl).value)
  {
    hide WireOf, Wires, RdataOf, Nameable, SignedOwner, Framed;
    WiresAre(rrs, labels, origTtl);
    var ws := Wires(rrs, labels, origTtl).value;
    forall w | w in ws ensures GoodLabels(NameLabels(name)) && |RdataOf(w)| <= 0xFFFF
        && w == Framed(name, rrtype, class_, origTtl, RdataOf(w)) {
      var i :| 0 <= i < |ws| && ws[i] == w;
      WireOfFramed(rrs[i], name, labels, origTtl);
    }
  }

  lemma {:induction false} WireOfFramed(rr: RR, name: Text, labels: nat, origTtl: uint32)
    requires SignedOwner(rr.name, labels) == name && Nameable(name) && WireOf(rr, labels, origTtl).Packed?
    ensures var w := WireOf(rr, labels, origTtl).out;
            && GoodLabels(NameLabels(name)) && |RdataOf(w)| <= 0xFFFF
            && w == Framed(name, rr.rrtype, rr.class_, origTtl, RdataOf(w))
  {
    hide SignedOwner, CanonicalFields, RdataOf, FullyQualified, GoodLabels, NameLabels, WireLen, Framed, FoldsRdata,
         PackRR, RRLen;
    var c := CanonicalRR(rr, labels, origTtl);
    WireIsFramed(c, RRLen(c, 0, NoSeen).len + 1);
  }

  /** Corresponding records that are signed under one owner give the same octets, or both give none. */
  lemma {:induction false} SameDataOrNone(a: seq<RR>, b: seq<RR>, name: Text, rrtype: uint16, class_: uint16,
                                          labels: nat, origTtl: uint32, r1: seq<Octs>, r2: seq<Octs>)
    requires SignedUnder(a, name, rrtype, class_, labels) && Within(a, b, labels) && Within(b, a, labels)
    requires Wires(a, labels, origTtl).Some? ==> SortOf(Wires(a, labels, origTtl).value, r1)
    requires Wires(b, labels, origTtl).Some? ==> SortOf(Wires(b, labels, origTtl).value, r2)
    ensures Wires(a, labels, origTtl).Some? <==> Wires(b, labels, origTtl).Some?
    ensures Wires(a, labels, origTtl).Some? ==> Flattened(Distinct(r1)) == Flattened(Distinct(r2))
  {
    hide Wires, SortOf, Within, Keyed, SignedUnder, Distinct;
    if Wires(b, labels, origTtl).Some? {
      WithinWires(a, b, labels, origTtl);
    }
    if Wires(a, labels, origTtl).Some? {
      WithinWires(b, a, labels, origTtl);
      RRsetKeyed(a, name, rrtype, class_, labels, origTtl);
      var ws1, ws2 := Wires(a, labels, origTtl).value, Wires(b, labels, origTtl).value;
      var ws := set w | w in ws1;
      OutputOfSet(ws1, ws2, r1, r2, ws);
    }
  }

  /** With a label count of zero the wildcard is `*..`, which does not pack: no data for any named owner. */
  lemma {:induction false} NoLabelsNoData(rr: RR, origTtl: uint32)
    requires SplitName(rr.name) != []
    ensures WireOf(rr, 0, origTtl).Failed?
  {
    hide CanonicalFields, RRLen, PackFields, PackName, SplitName, CanonicalName, FoldsRdata;
    StarDots(rr.name);
    StarDotsNotPacked(RRLen(CanonicalRR(rr, 0, origTtl), 0, NoSeen).len + 1);
  }

  lemma StarDotsNotPacked(cap: nat)
    ensures PackName([STAR, DOT, DOT], 0, cap, NoIndex, false).Failed?
  {
    var s: Text := [STAR, DOT, DOT];
    assert s[1..] == [DOT, DOT] && FirstDot(s[1..]) == 0;
    assert FirstDot(s) == 1;
    assert AfterDot(s) == s[2..] == [DOT];
    assert FirstDot([DOT]) == 0 && FirstLabel([DOT]) == [];
    assert PackLabels([DOT], 2, cap, NoIndex, false).Failed?;
    assert FirstLabel(s) == [STAR] by { assert FirstLabel(s[1..]) == []; }
  }

  // ----- data comes out -----

  /** Canonical form keeps what the fields need: names stay nameable, and nothing changes its size. */
  lemma {:induction false} CanonicalFieldsSize(fs: seq<Field>)
    requires NameableFields(fs)
    ensures NameableFields(CanonicalFields(fs)) && Size(CanonicalFields(fs)) == Size(fs)
    decreases |fs|
  {
    hide Nameable, CanonicalName, NameSize;
    if fs != [] {
      var c := CanonicalFields(fs);
      CanonicalFieldsSize(fs[1..]);
      assert c[1..] == CanonicalFields(fs[1..]);
      if fs[0].NameField? {
        CanonicalNameable(fs[0].text);
      }
      forall i | 0 <= i < |c| && c[i].NameField? ensures Nameable(c[i].text) {
        CanonicalNameable(fs[i].text);
      }
    }
  }

  /**
   * Exactly when a record yields data: the label count is not zero, unless the owner is the root, and
   * the rdata fits 65535 octets.
   */
  lemma {:induction false} DataExactly(rr: RR, labels: nat, origTtl: uint32)
    requires Nameable(rr.name) && NameableFields(rr.rdata)
    ensures WireOf(rr, labels, origTtl).Packed? <==>
            (labels >= 1 || SplitName(rr.name) == []) && Size(rr.rdata) <= 0xFFFF
  {
    hide Nameable, NameableFields, Size, SplitName, SignedOwner, CanonicalFields, FoldsRdata, PackRR, RRLen;
    if labels == 0 && SplitName(rr.name) != [] {
      NoLabelsNoData(rr, origTtl);
    } else {
      SignedOwnerNameable(rr.name, labels);
      CanonicalFieldsSize(rr.rdata);
      var c := CanonicalRR(rr, labels, origTtl);
      RRPacksExactly(c, RRLen(c, 0, NoSeen).len + 1);
    }
  }

  /** An RRset: one type, one class, owners one signature covers, names and rdata that fit the wire. */
  predicate OneRRset(rrs: seq<RR>, rrtype: uint16, class_: uint16, labels: nat) {
    forall i :: 0 <= i < |rrs| ==>
      && rrs[i].rrtype == rrtype && rrs[i].class_ == class_ && SameOwner(rrs[i].name, rrs[0].name, labels)
      && Nameable(rrs[i].name) && NameableFields(rrs[i].rdata) && Size(rrs[i].rdata) <= 0xFFFF
  }

  lemma {:induction false} RRsetSigned(rrs: seq<RR>, rrtype: uint16, class_: uint16, labels: nat, origTtl: uint32)
    requires OneRRset(rrs, rrtype, class_, labels) && labels >= 1 && rrs != []
    ensures SignedUnder(rrs, SignedOwner(rrs[0].name, labels), rrtype, class_, labels)
    ensures Wires(rrs, labels, origTtl).Some?
  {
    hide Nameable, NameableFields, Size, SplitName, SignedOwner, SameOwner, WireOf, Wires;
    SignedOwnerNameable(rrs[0].name, labels);
    forall i | 0 <= i < |rrs|
      ensures SignedOwner(rrs[i].name, labels) == SignedOwner(rrs[0].name, labels)
      ensures WireOf(rrs[i], labels, origTtl).Packed?
    {
      SignedOwnerSame(rrs[i].name, rrs[0].name, labels);
      DataExactly(rrs[i], labels, origTtl);
    }
    WiresAre(rrs, labels, origTtl);
  }

  /**
   * Signed data is canonical. For an RRset and a label count of at least one data comes out; and it
   * comes out as the same octets for any records that correspond: in any order, any number of times,
   * with any TTLs, in any letter case of the owner and the listed rdata names, and with any owners
   * that match the same wildcard.
   */
  lemma {:induction false} SignedDataCanonical(a: seq<RR>, b: seq<RR>, rrtype: uint16, class_: uint16, labels: nat,
                                               origTtl: uint32, r1: seq<Octs>, r2: seq<Octs>)
    requires OneRRset(a, rrtype, class_, labels) && labels >= 1 && Within(a, b, labels) && Within(b, a, labels)
    requires Wires(a, labels, origTtl).Some? ==> SortOf(Wires(a, labels, origTtl).value, r1)
    requires Wires(b, labels, origTtl).Some? ==> SortOf(Wires(b, labels, origTtl).value, r2)
    ensures Wires(a, labels, origTtl).Some? && Wires(b, labels, origTtl).Some?
    ensures Flattened(Distinct(r1)) == Flattened(Distinct(r2))
  {
    hide SortOf, OneRRset, SameSigned, Flattened, Distinct, WireOf, SignedOwner;
    if a == [] {
      NothingWithin(b, a, labels);
      NoWires(labels, origTtl);
      NothingSorted(r1);
      NothingSorted(r2);
    } else {
      RRsetSigned(a, rrtype, class_, labels, origTtl);
      SameDataOrNone(a, b, SignedOwner(a[0].name, labels), rrtype, class_, labels, origTtl, r1, r2);
    }
  }

  /**
   * The octets that are signed: the wires of the RRset one behind the other, each once, ascending by
   * their rdata as octet strings (section 6.3 of RFC 4034).
   */
  lemma {:induction false} SignedDataAscends(rrs: seq<RR>, rrtype: uint16, class_: uint16, labels: nat,
                                             origTtl: uint32, r: seq<Octs>)
    requires OneRRset(rrs, rrtype, class_, labels) && labels >= 1 && rrs != []
    requires Wires(rrs, labels, origTtl).Some? ==> SortOf(Wires(rrs, labels, origTtl).value, r)
    ensures var u := Distinct(r);
            && (forall i, j :: 0 <= i < j < |u| ==> Before(RdataOf(u[i]), RdataOf(u[j])))
            && (forall w :: w in u <==> exists i :: 0 <= i < |rrs| && WireOf(rrs[i], labels, origTtl).Packed?
                                                    && w == WireOf(rrs[i], labels, origTtl).out)
  {
    hide OneRRset, WireOf, SignedOwner, Distinct, RdataOf, LexLess, Before;
    RRsetSigned(rrs, rrtype, class_, labels, origTtl);
    RRsetKeyed(rrs, SignedOwner(rrs[0].name, labels), rrtype, class_, labels, origTtl);
    var ws := Wires(rrs, labels, origTtl).value;
    SortHolds(ws, r);
    DistinctAscends(r, set w | w in ws);
    DistinctHolds(r);
    WiresAre(rrs, labels, origTtl);
    var u := Distinct(r);
    forall i, j | 0 <= i < j < |u| ensures Before(RdataOf(u[i]), RdataOf(u[j])) {
      assert Less(u[i], u[j]);
      LexIsBefore(RdataOf(u[i]), RdataOf(u[j]));
    }
  }

  lemma SortHolds(ws: seq<Octs>, r: seq<Octs>)
    requires SortOf(ws, r)
    ensures forall w :: w in r <==> w in ws
  {
    forall w ensures w in r <==> w in ws {
      assert w in r <==> w in multiset(r);
      assert w in ws <==> w in multiset(ws);
    }
  }

  lemma NothingWithin(b: seq<RR>, a: seq<RR>, labels: nat)
    requires Within(b, a, labels)
    ensures a == [] ==> b == []
  {
    hide SameSigned;
    if |b| > 0 {
      var r := b[0];
      var j :| 0 <= j < |a| && SameSigned(r, a[j], labels);
    }
  }

  lemma NoWires(labels: nat, origTtl: uint32)
    ensures Wires([], labels, origTtl) == Some([])
  {
  }

  lemma NothingSorted(r: seq<Octs>)
    requires SortOf([], r)
    ensures r == []
  {
    var none: seq<Octs> := [];
    SameMembers(none, r);
  }

  lemma SameMembers(s: seq<Octs>, r: seq<Octs>)
    requires multiset(s) == multiset(r)
    ensures s == [] ==> r == []
  {
    assert |s| == |multiset(s)| && |r| == |multiset(r)|;
  }
}
