/**
 * The pointer cap is one short: a message in which 127 names each add a label to the one before,
 * and the longest is then repeated, packs but does not unpack.
 */
module PointerCap {
  import opened Octets
  import opened Presentation
  import opened Qualified
  import opened NamePack
  import opened NameUnpack
  import opened Compression

  const LETTER: byte := 97

  /** The name with `k` labels of one letter. */
  function Letters(k: nat): (t: Text)
    ensures |t| == 2 * k
  {
    if k == 0 then [] else [LETTER, DOT] + Letters(k - 1)
  }

  lemma {:induction false} NameShape(k: nat)
    requires k > 0
    ensures var t := Letters(k);
            FirstDot(t) == 1 && FirstLabel(t) == [LETTER] && AfterDot(t) == Letters(k - 1) && !HasEscape(t)
  {
    var t := Letters(k);
    assert t[0] == LETTER && t[1] == DOT && t[1..][0] == DOT;
    assert FirstDot(t[1..]) == 0 && FirstLabel(t[1..]) == [];
    assert t[2..] == Letters(k - 1);
    assert t[..1] == [LETTER];
  }

  lemma NoLetters()
    ensures Letters(0) == [] && Labels([]) == []
  {
  }

  lemma {:induction false} NameGood(k: nat)
    ensures |Labels(Letters(k))| == k && WireLen(Labels(Letters(k))) == 2 * k + 1 && EndsInDot(Letters(k))
    ensures GoodLabels(Labels(Letters(k)))
  {
    hide FirstDot, FirstLabel, Labels, WireLen, GoodLabels, AfterDot, Letters;
    if k == 0 {
      NoLetters();
      WireOfNothing();
    } else {
      var t := Letters(k);
      NameShape(k);
      NameGood(k - 1);
      LabelsUnfold(t);
      WireUnfold(t);
      GoodLabelsUnfold(t);
    }
  }

  lemma {:induction false} NameAscii(k: nat)
    ensures Ascii(Letters(k))
  {
    if k > 0 {
      NameAscii(k - 1);
      var r := Letters(k - 1);
      forall i | 0 <= i < |Letters(k)| ensures Letters(k)[i] < 128 {
        assert i >= 2 ==> Letters(k)[i] == r[i - 2];
      }
    }
  }

  lemma {:induction false} NameQualified(k: nat)
    requires k > 0
    ensures FullyQualified(Letters(k)) && NameLabels(Letters(k)) == Labels(Letters(k))
  {
    NameGood(k);
    NameAscii(k);
    IsFqdnOnAscii(Letters(k));
  }

  // ----- the ladder of names -----

  /** From `p`, `k` labels, each but the last followed by a pointer to the next. */
  predicate Rungs(b: seq<byte>, p: nat, k: nat)
    decreases k
  {
    && k > 0 && p + 3 < |b| + (if k == 1 then 1 else 0) && b[p] == 1
    && (if k == 1 then b[p + 2] == 0 else b[p + 2] >= 192 && Rungs(b, Target(b, p + 2), k - 1))
  }

  lemma {:induction false} RungsExtend(b: seq<byte>, more: seq<byte>, p: nat, k: nat)
    requires Rungs(b, p, k)
    ensures Rungs(b + more, p, k)
    decreases k
  {
    if k > 1 {
      RungsExtend(b, more, Target(b, p + 2), k - 1);
    }
  }

  /** Such a name needs as many pointers as it has rungs less one. */
  lemma {:induction false} RungsNeed(b: seq<byte>, p: nat, k: nat, ls: seq<Label>, h: nat)
    requires Rungs(b, p, k) && Decodes(b, p, ls, h)
    ensures h >= k - 1
    decreases k
  {
    assert Decodes(b, p + 2, ls[1..], h);
    if k > 1 {
      RungsNeed(b, Target(b, p + 2), k - 1, ls[1..], h - 1);
    }
  }

  datatype Ladder = Ladder(buf: seq<byte>, index: Index)

  /** The message after `k` names. */
  function Build(k: nat, cap: nat): Ladder {
    if k == 0 then Ladder([], Index(map[]))
    else
      var d := Build(k - 1, cap);
      match PackName(Letters(k), |d.buf|, cap, d.index, true)
      case Packed(out, x) => Ladder(d.buf + out, x)
      case Failed(_) => d
  }

  predicate Built(d: Ladder, k: nat) {
    && |d.buf| == (if k == 0 then 0 else 4 * k - 1) && d.index.Index?
    && (forall t :: t in d.index.at ==> |t| <= 2 * k)
    && (k > 0 ==> Letters(k) in d.index.at && d.index.at[Letters(k)] < 512 && Rungs(d.buf, d.index.at[Letters(k)], k))
  }

  /** Every name but the first is one label and a pointer to the one before. */
  lemma {:induction false} NextRung(d: Ladder, k: nat, cap: nat)
    requires Built(d, k) && k < 127 && cap > 512
    ensures var r := PackName(Letters(k + 1), |d.buf|, cap, d.index, true);
            r.Packed? && Built(Ladder(d.buf + r.out, r.index), k + 1)
  {
    hide FirstDot, FirstLabel, PackLabels, HasEscape, IsFqdn, Pointer, EndsInDot, Rungs, Letters, AfterDot, Labels,
         NameLabels;
    var t, off, x := Letters(k + 1), |d.buf|, d.index;
    NameQualified(k + 1);
    NameShape(k + 1);
    PackLabelsUnfold(t, off, cap, x, true);
    var y := Note(x, t, off);
    var rest := PackLabels(Letters(k), off + 2, cap, y, true);
    if k == 0 {
      NoLetters();
      PackNoLabels(2, cap, y, true);
    } else {
      NameShape(k);
      PackLabelsUnfold(Letters(k), off + 2, cap, y, true);
    }
    assert rest.Packed? && rest.index == y;
    RungPlaced(d, k, rest.out);
    assert [1] + [LETTER] == [1, LETTER];
  }

  lemma {:induction false} RungPlaced(d: Ladder, k: nat, out: seq<byte>)
    requires Built(d, k) && k < 127
    requires out == if k == 0 then [0] else Pointer(d.index.at[Letters(k)])
    ensures Rungs(d.buf + ([1, LETTER] + out), |d.buf|, k + 1)
  {
    var b := d.buf + ([1, LETTER] + out);
    if k > 0 {
      var p := d.index.at[Letters(k)];
      RungsExtend(d.buf, [1, LETTER] + out, p, k);
      PointerTarget(d.buf + [1, LETTER], p);
      assert b == (d.buf + [1, LETTER]) + Pointer(p);
    }
  }

  lemma {:induction false} BuildIs(k: nat, cap: nat)
    requires k <= 127 && cap > 512
    ensures Built(Build(k, cap), k) && MapInv(Build(k, cap).buf, Build(k, cap).index)
  {
    hide PackName, Built, MapInv;
    if k == 0 {
      BuiltNone();
    } else {
      BuildIs(k - 1, cap);
      NextRung(Build(k - 1, cap), k - 1, cap);
      NameQualified(k);
      PackNameKeepsMap(Letters(k), Build(k - 1, cap).buf, cap, Build(k - 1, cap).index, true);
    }
  }

  lemma BuiltNone()
    ensures Built(Ladder([], Index(map[])), 0) && MapInv([], Index(map[]))
  {
  }

  /**
   * A name of 127 labels and 255 octets, within every limit of section 2.3.4 of RFC 1035, that packs
   * into two octets here and that the unpacker refuses.
   */
  lemma {:induction false} OneLabelTooMany(cap: nat)
    requires cap > 512
    ensures var d, s := Build(127, cap), Letters(127);
            var r := PackName(s, |d.buf|, cap, d.index, true);
            && FullyQualified(s) && GoodLabels(NameLabels(s)) && |NameLabels(s)| == 127
            && WireLen(NameLabels(s)) == 255
            && MapInv(d.buf, d.index) && r.Packed? && !UnpackName(d.buf + r.out, |d.buf|).Name?
  {
    hide FirstDot, FirstLabel, PackLabels, HasEscape, IsFqdn, Pointer, EndsInDot, Rungs, Build, MapInv, Decodes,
         Labels, WireLen, GoodLabels;
    var d, s := Build(127, cap), Letters(127);
    BuildIs(127, cap);
    NameGood(127);
    NameQualified(127);
    NameShape(127);
    PackLabelsUnfold(s, |d.buf|, cap, d.index, true);
    PackNameKeepsMap(s, d.buf, cap, d.index, true);
    var p := d.index.at[s];
    var b := d.buf + Pointer(p);
    NameAtUnpacks(b, |d.buf|, NameLabels(s), |b|);
    RepeatNeeds(d, p, NameLabels(s));
  }

  lemma {:induction false} RepeatNeeds(d: Ladder, p: nat, ls: seq<Label>)
    requires p < 512 && Rungs(d.buf, p, 127)
    ensures !Decodes(d.buf + Pointer(p), |d.buf|, ls, MAX_POINTERS)
  {
    hide Rungs;
    var b := d.buf + Pointer(p);
    PointerTarget(d.buf, p);
    RungsExtend(d.buf, Pointer(p), p, 127);
    if Decodes(b, |d.buf|, ls, MAX_POINTERS) {
      RungsNeed(b, p, 127, ls, MAX_POINTERS - 1);
    }
  }
}
