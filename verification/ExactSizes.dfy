/** Exact sizes without compression, of names, fields and records, as they are and in canonical form. */
module ExactSizes {
  import opened Octets
  import opened Presentation
  import opened Qualified
  import opened NamePack
  import opened NameUnpack
  import opened NameLength
  import opened Subdomain
  import opened CanonicalForm
  import opened Records
  import opened Message

  // ----- folding keeps the size of labels -----

  lemma {:induction false} FoldFirstLabel(t: Text)
    ensures |FirstLabel(FoldText(t))| == |FirstLabel(t)|
    decreases |t|
  {
    if t != [] && t[0] != DOT {
      var n := UnitLen(t);
      FoldUnitLen(t);
      FoldSlice(t, n, |t|);
      assert FoldText(t)[n..] == FoldText(t)[n..|t|] == FoldText(t[n..]);
      FoldFirstLabel(t[n..]);
    }
  }

  lemma {:induction false} FoldAfterDot(t: Text)
    requires t != []
    ensures FoldText(t) != [] && AfterDot(FoldText(t)) == FoldText(AfterDot(t))
  {
    hide FirstDot;
    FoldFirstDot(t);
    var d := FirstDot(t);
    if d < |t| {
      FoldSlice(t, d + 1, |t|);
      assert FoldText(t)[d + 1..] == FoldText(t)[d + 1..|t|] && t[d + 1..] == t[d + 1..|t|];
    }
  }

  lemma {:induction false} FoldLabels(t: Text)
    ensures EndsInDot(FoldText(t)) == EndsInDot(t) && |Labels(FoldText(t))| == |Labels(t)|
    ensures WireLen(Labels(FoldText(t))) == WireLen(Labels(t))
    ensures GoodLabels(Labels(FoldText(t))) == GoodLabels(Labels(t))
    decreases |t|
  {
    hide FirstDot, FirstLabel, Labels, WireLen, GoodLabels, AfterDot;
    var f := FoldText(t);
    if t == [] {
      assert f == [];
    } else {
      FoldFirstDot(t);
      FoldFirstLabel(t);
      FoldAfterDot(t);
      FoldLabels(AfterDot(t));
      LabelsUnfold(t);
      LabelsUnfold(f);
      WireUnfold(t);
      WireUnfold(f);
      GoodLabelsUnfold(t);
      GoodLabelsUnfold(f);
    }
  }

  lemma FoldDotOnly(s: Text)
    ensures FoldText(s) == [DOT] <==> s == [DOT]
  {
    if |s| == 1 {
      FoldKeepsMarks(s[0]);
      assert FoldText(s)[0] == Fold(s[0]);
    }
  }

  // ----- exact sizes -----

  /** Octets of a name on the wire without compression. */
  function NameSize(s: Text): nat {
    WireLen(NameLabels(s))
  }

  /** A canonical name is as long as the name, and as good. */
  lemma {:induction false} CanonicalNameable(s: Text)
    requires Nameable(s)
    ensures Nameable(CanonicalName(s)) && NameSize(CanonicalName(s)) == NameSize(s)
    ensures |NameLabels(CanonicalName(s))| == |NameLabels(s)|
  {
    hide IsFqdn, EndsInDot, GoodLabels, Labels, WireLen;
    FoldIsFqdn(s);
    FoldLabels(s);
    FoldDotOnly(s);
  }

  predicate NameableFields(fs: seq<Field>) {
    forall i :: 0 <= i < |fs| && fs[i].NameField? ==> Nameable(fs[i].text)
  }

  /** Octets a field takes without compression. */
  function FieldSize(f: Field): nat {
    match f
    case Raw(d) => |d|
    case NameField(t, _) => NameSize(t)
  }

  function Size(fs: seq<Field>): nat {
    if fs == [] then 0 else FieldSize(fs[0]) + Size(fs[1..])
  }

  /** A name that can be carried packs exactly when its wire form fits. */
  lemma {:induction false} NamePacksExactly(s: Text, off: nat, cap: nat)
    requires Nameable(s)
    ensures var r := PackName(s, off, cap, NoIndex, false);
            if off + NameSize(s) <= cap then r.Packed? && |r.out| == NameSize(s) && r.index == NoIndex else r.Failed?
  {
    assert s != [];
    hide IsFqdn, PackLabels, GoodLabels, Labels, Wire, WireLen, EndsInDot;
    if s == [DOT] {
      WireOfNothing();
    } else {
      PackLabelsPlain(s, off, cap, false);
    }
  }

  lemma {:induction false} FieldsPackExactly(fs: seq<Field>, off: nat, cap: nat)
    requires NameableFields(fs) && off <= cap
    ensures var r := PackFields(fs, off, cap, NoIndex, false);
            if off + Size(fs) <= cap then r.Packed? && |r.out| == Size(fs) else r.Failed?
    decreases |fs|
  {
    hide PackName, Nameable, WireLen, NameLabels;
    if fs != [] {
      if fs[0].NameField? {
        NamePacksExactly(fs[0].text, off, cap);
      }
      if off + FieldSize(fs[0]) <= cap {
        FieldsPackExactly(fs[1..], off + FieldSize(fs[0]), cap);
      }
    }
  }

  /** Without a set of suffixes the predicted length of a name is its wire length. */
  lemma {:induction false} NameLenIs(s: Text, off: nat, c: bool)
    requires Nameable(s)
    ensures NameLen(s, off, NoSeen, c) == Sized(NameSize(s), NoSeen)
  {
    assert s != [];
    hide IsFqdn, GoodLabels, EscapedLen, WireLen;
    if s == [DOT] {
      WireOfNothing();
    } else {
      EscapedLenIsWireLen(s);
    }
  }

  lemma {:induction false} FieldsLenIs(fs: seq<Field>, off: nat)
    requires NameableFields(fs)
    ensures FieldsLen(fs, off, NoSeen).len == Size(fs)
    decreases |fs|
  {
    hide NameLen, Nameable, WireLen, NameLabels;
    if fs != [] {
      if fs[0].NameField? {
        NameLenIs(fs[0].text, off, fs[0].compressible);
      }
      FieldsLenIs(fs[1..], off + FieldSize(fs[0]));
    }
  }

  lemma {:induction false} SizeFew(fs: seq<Field>)
    requires 1 <= |fs| <= 4
    ensures Size(fs) == FieldSize(fs[0]) + (if |fs| > 1 then FieldSize(fs[1]) else 0)
                        + (if |fs| > 2 then FieldSize(fs[2]) else 0) + (if |fs| > 3 then FieldSize(fs[3]) else 0)
  {
    hide FieldSize;
    SizeStep(fs);
    if |fs| == 1 {
      assert fs[1..] == [];
    } else {
      SizeFew(fs[1..]);
    }
  }

  lemma SizeStep(fs: seq<Field>)
    requires fs != []
    ensures Size(fs) == FieldSize(fs[0]) + Size(fs[1..])
  {
  }

  lemma {:induction false} SizeConcat(a: seq<Field>, b: seq<Field>)
    ensures Size(a + b) == Size(a) + Size(b)
    decreases |a|
  {
    hide FieldSize;
    if a == [] {
      assert a + b == b;
    } else {
      assert (a + b)[1..] == a[1..] + b;
      SizeConcat(a[1..], b);
    }
  }

  /**
   * A record whose names can be carried packs into a buffer of its predicted length or more exactly when
   * its rdata fits 16 bits.
   */
  lemma {:induction false} RRPacksExactly(rr: RR, cap: nat)
    requires Nameable(rr.name) && NameableFields(rr.rdata) && cap >= RRLen(rr, 0, NoSeen).len
    ensures var r := PackRR(rr, 0, cap, NoIndex, false);
            if Size(rr.rdata) <= 0xFFFF then r.Packed? && |r.out| == NameSize(rr.name) + 10 + Size(rr.rdata)
            else r.Failed?
  {
    hide Nameable, PackFields, PackName, NameLen, FieldsLen, Size, NameableFields, WireLen, NameLabels, FixedHeader;
    var n := NameSize(rr.name);
    NameLenIs(rr.name, 0, true);
    FieldsLenIs(rr.rdata, n + 10);
    NamePacksExactly(rr.name, 0, cap);
    FieldsPackExactly(rr.rdata, n + 10, cap);
  }
}
