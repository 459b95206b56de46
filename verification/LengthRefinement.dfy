/**
 * The length simulation against the packer: it never predicts too little, and it is exact on
 * names without escapes.
 */
module LengthRefinement {
  import opened Octets
  import opened Presentation
  import opened Qualified
  import opened NamePack
  import opened Compression
  import opened NameLength

  /** Dropping the first label of a key no longer than `n` gives a key again. */
  ghost predicate ClosedUpTo(x: Index, n: nat) {
    x.Index? ==> forall k :: k in x.at && |k| <= n ==> k != [] && (AfterDot(k) == [] || AfterDot(k) in x.at)
  }

  /** Dropping the first label of a key gives a key again. */
  ghost predicate Closed(x: Index) {
    x.Index? ==> forall k :: k in x.at ==> k != [] && (AfterDot(k) == [] || AfterDot(k) in x.at)
  }

  /**
   * The simulation at offset `so` covers the packer at offset `po`: it is not behind, it knows
   * no suffix the packer does not, and while suffixes can still be added the map is closed.
   */
  ghost predicate Covers(x: Index, po: nat, seen: Seen, so: nat) {
    && x.Index? == seen.Seen?
    && po <= so
    && (x.Index? ==> seen.names <= x.at.Keys)
    && (po < MAX_COMPRESSION_OFFSET ==> Closed(x))
  }

  /** The simulation and the packer agree: same offset, same suffixes. */
  ghost predicate Agrees(x: Index, po: nat, seen: Seen, so: nat) {
    && Covers(x, po, seen, so)
    && po == so
    && (x.Index? ==> seen.names == x.at.Keys)
  }

  lemma {:induction false} ClosedNote(x: Index, t: Text, off: nat, n: nat)
    requires ClosedUpTo(x, |t|) && n < |t|
    ensures ClosedUpTo(Note(x, t, off), n)
  {
  }

  /** Suffixes below a known one are known, so the search adds nothing new. */
  lemma {:induction false} SearchWithin(c: set<Text>, t: Text, at: nat, x: Index)
    requires x.Index? && c <= x.at.Keys
    requires at < MAX_COMPRESSION_OFFSET ==> ClosedUpTo(x, |t|) && (t == [] || t in x.at)
    ensures LenSearch(c, t, at).seen <= x.at.Keys
    decreases |t|
  {
    hide AfterDot, LenSearch;
    LenSearchUnfold(c, t, at);
    if t != [] && t !in c {
      SearchWithin(if at < MAX_COMPRESSION_OFFSET then c + {t} else c, AfterDot(t), at + |t| - |AfterDot(t)|, x);
    }
  }

  /** After a label: what closedness of the rest says about the whole. */
  lemma {:induction false} ClosedCombine(t: Text, u: Text, x: Index, off: nat, y: Index)
    requires t != [] && u == AfterDot(t) && x.Index? && off < MAX_COMPRESSION_OFFSET
    requires Grown(Note(x, t, off), y, |u|)
    requires ClosedUpTo(x, |t|) && ClosedUpTo(y, |u|) && (u == [] || u in y.at)
    ensures ClosedUpTo(y, |t|) && t in y.at
  {
    hide AfterDot;
    assert t in Note(x, t, off).at;
    forall k | k in y.at && |k| <= |t| ensures k != [] && (AfterDot(k) == [] || AfterDot(k) in y.at) {
      if |k| > |u| {
        assert k in Note(x, t, off).at;
        if k != t {
          assert k in x.at;
        }
      }
    }
  }

  /** Packing the labels of `t` against searching them. */
  lemma {:induction false} LabelsCovered(t: Text, po: nat, at: nat, cap: nat, x: Index, c: set<Text>, compress: bool)
    requires EndsInDot(t) && x.Index? && PackLabels(t, po, cap, x, compress).Packed?
    requires c <= x.at.Keys && po <= at && (po < MAX_COMPRESSION_OFFSET ==> ClosedUpTo(x, |t|))
    ensures var r, q := PackLabels(t, po, cap, x, compress), LenSearch(c, t, at);
            && r.index.Index? && q.seen <= r.index.at.Keys
            && (compress ==> |r.out| <= SearchLen(t, q))
            && (po + |r.out| < MAX_COMPRESSION_OFFSET ==> ClosedUpTo(r.index, |t|) && (t == [] || t in r.index.at))
    decreases |t|
  {
    hide FirstDot, FirstLabel, LenSearch, PackLabels, EscapedLen, HasEscape, Note, Grown, ClosedUpTo;
    LenSearchUnfold(c, t, at);
    if t == [] {
      PackNoLabels(po, cap, x, compress);
    } else {
      PackLabelsUnfold(t, po, cap, x, compress);
      PackLabelsGrows(t, po, cap, x, compress);
      EscapedLenAfterDot(t);
      if compress && t in x.at {
        LenSearchShape(c, t, at);
        SearchWithin(c, t, at, x);
      } else {
        var l, u := FirstLabel(t), AfterDot(t);
        var x1 := Note(x, t, po);
        var c1 := if at < MAX_COMPRESSION_OFFSET then c + {t} else c;
        var rest := PackLabels(u, po + 1 + |l|, cap, x1, compress);
        NoteKeys(x, t, po);
        if po + 1 + |l| < MAX_COMPRESSION_OFFSET {
          ClosedNote(x, t, po, |u|);
        }
        LabelsCovered(u, po + 1 + |l|, at + |t| - |u|, cap, x1, if t in c then c else c1, compress);
        PackLabelsGrows(u, po + 1 + |l|, cap, x1, compress);
        GrownKeys(x1, rest.index, |u|);
        if po + 1 + |l| + |rest.out| < MAX_COMPRESSION_OFFSET {
          ClosedCombine(t, u, x, po, rest.index);
        }
      }
    }
  }

  lemma NoteKeys(x: Index, t: Text, off: nat)
    requires x.Index?
    ensures Note(x, t, off).at.Keys == if off < MAX_COMPRESSION_OFFSET then x.at.Keys + {t} else x.at.Keys
  {
  }

  lemma GrownKeys(x: Index, y: Index, n: nat)
    requires x.Index? && Grown(x, y, n)
    ensures x.at.Keys <= y.at.Keys
  {
  }

  // ----- without escapes: exact -----

  lemma {:induction false} NoEscapeLabel(t: Text)
    requires BACKSLASH !in t
    ensures |FirstLabel(t)| == FirstDot(t)
  {
    if t != [] && t[0] != DOT {
      assert t[0] in t;
      NoEscapeLabel(t[1..]);
    }
  }

  /** Packing a name whose suffixes are all known, without compressing it, adds nothing to the map. */
  lemma {:induction false} KnownAddsNothing(t: Text, po: nat, cap: nat, x: Index)
    requires EndsInDot(t) && x.Index? && PackLabels(t, po, cap, x, false).Packed?
    requires po < MAX_COMPRESSION_OFFSET ==> ClosedUpTo(x, |t|) && (t == [] || t in x.at)
    ensures PackLabels(t, po, cap, x, false).index == x
    decreases |t|
  {
    hide FirstDot, FirstLabel, PackLabels, HasEscape;
    if t == [] {
      PackNoLabels(po, cap, x, false);
    } else {
      PackLabelsUnfold(t, po, cap, x, false);
      KnownAddsNothing(AfterDot(t), po + 1 + |FirstLabel(t)|, cap, x);
    }
  }

  lemma {:induction false} LabelsExact(t: Text, po: nat, cap: nat, x: Index, compress: bool)
    requires EndsInDot(t) && BACKSLASH !in t && x.Index? && PackLabels(t, po, cap, x, compress).Packed?
    requires po < MAX_COMPRESSION_OFFSET ==> ClosedUpTo(x, |t|)
    ensures var r, q := PackLabels(t, po, cap, x, compress), LenSearch(x.at.Keys, t, po);
            && r.index.Index? && q.seen == r.index.at.Keys
            && (compress ==> |r.out| == SearchLen(t, q))
    decreases |t|
  {
    hide FirstDot, FirstLabel, LenSearch, PackLabels, EscapedLen, HasEscape, Note, ClosedUpTo;
    var c := x.at.Keys;
    LenSearchUnfold(c, t, po);
    if t == [] {
      PackNoLabels(po, cap, x, compress);
    } else {
      PackLabelsUnfold(t, po, cap, x, compress);
      EscapedLenAfterDot(t);
      NoEscapeLabel(t);
      if t in x.at {
        if !compress {
          KnownAddsNothing(t, po, cap, x);
        }
      } else {
        var l, u := FirstLabel(t), AfterDot(t);
        NoteKeys(x, t, po);
        if po + 1 + |l| < MAX_COMPRESSION_OFFSET {
          ClosedNote(x, t, po, |u|);
        }
        LabelsExact(u, po + 1 + |l|, cap, Note(x, t, po), compress);
      }
    }
  }

  // ----- without compression -----

  lemma {:induction false} LabelsUncompressed(t: Text, po: nat, cap: nat, x: Index, compress: bool)
    requires EndsInDot(t) && PackLabels(t, po, cap, x, compress).Packed? && (x.NoIndex? || !compress)
    ensures |PackLabels(t, po, cap, x, compress).out| == EscapedLen(t) + 1
    ensures x.NoIndex? ==> PackLabels(t, po, cap, x, compress).index.NoIndex?
    decreases |t|
  {
    hide FirstDot, FirstLabel, PackLabels, HasEscape;
    if t == [] {
      PackNoLabels(po, cap, x, compress);
    } else {
      PackLabelsUnfold(t, po, cap, x, compress);
      EscapedLenAfterDot(t);
      LabelsUncompressed(AfterDot(t), po + 1 + |FirstLabel(t)|, cap, Note(x, t, po), compress);
    }
  }

  // ----- one name -----

  lemma {:induction false} ClosedWhole(x: Index, y: Index, s: Text)
    requires Closed(x) && Grown(x, y, |s|) && ClosedUpTo(y, |s|)
    ensures Closed(y)
  {
    hide AfterDot;
    if y.Index? {
      forall k | k in y.at ensures k != [] && (AfterDot(k) == [] || AfterDot(k) in y.at) {
        if |k| > |s| {
          assert k in x.at;
        }
      }
    }
  }


  /**
   * The prediction for a name is never below what packing it takes, whichever side of the 16384 boundary
   * either is on.
   */
  lemma {:induction false} NameCovered(s: Text, po: nat, so: nat, cap: nat, x: Index, seen: Seen, compress: bool)
    requires FullyQualified(s) && PackName(s, po, cap, x, compress).Packed? && Covers(x, po, seen, so)
    ensures var r, q := PackName(s, po, cap, x, compress), NameLen(s, so, seen, compress);
            |r.out| <= q.len && Covers(r.index, po + |r.out|, q.seen, so + q.len)
  {
    assert s != [];
    hide PackLabels, LenSearch, EscapedLen, IsFqdn, Closed, Grown, AfterDot, ClosedUpTo, EndsInDot;
    if s != [DOT] {
      if x.NoIndex? {
        var r := PackName(s, po, cap, x, compress);
        PackLabelsGrows(s, po, cap, x, compress);
        LabelsUncompressed(s, po, cap, x, compress);
        ClosedTrivial(r.index);
      } else {
        NameCoveredByMap(s, po, so, cap, x, seen, compress);
      }
    }
  }

  lemma {:induction false} NameCoveredByMap(s: Text, po: nat, so: nat, cap: nat, x: Index, seen: Seen, compress: bool)
    requires FullyQualified(s) && s != [DOT] && x.Index? && PackName(s, po, cap, x, compress).Packed?
    requires Covers(x, po, seen, so)
    ensures var r, q := PackName(s, po, cap, x, compress), NameLen(s, so, seen, compress);
            |r.out| <= q.len && Covers(r.index, po + |r.out|, q.seen, so + q.len)
  {
    assert s != [];
    hide PackLabels, LenSearch, EscapedLen, IsFqdn, Closed, Grown, AfterDot, ClosedUpTo, EndsInDot;
    var r := PackName(s, po, cap, x, compress);
    PackLabelsGrows(s, po, cap, x, compress);
    if po < MAX_COMPRESSION_OFFSET {
      ClosedToUpTo(x, |s|);
    }
    LabelsCovered(s, po, so, cap, x, seen.names, compress);
    GrownKeys(x, r.index, |s|);
    if !compress {
      LabelsUncompressed(s, po, cap, x, compress);
    }
    if po + |r.out| < MAX_COMPRESSION_OFFSET {
      ClosedWhole(x, r.index, s);
    }
  }

  lemma ClosedTrivial(x: Index)
    requires x.NoIndex?
    ensures Closed(x)
  {
  }

  lemma ClosedToUpTo(x: Index, n: nat)
    requires Closed(x)
    ensures ClosedUpTo(x, n)
  {
  }

  /** On a name without escapes the prediction is exact and both sides know the same suffixes afterwards. */
  lemma {:induction false} NameExact(s: Text, po: nat, cap: nat, x: Index, seen: Seen, compress: bool)
    requires FullyQualified(s) && BACKSLASH !in s && PackName(s, po, cap, x, compress).Packed?
    requires Agrees(x, po, seen, po)
    ensures var r, q := PackName(s, po, cap, x, compress), NameLen(s, po, seen, compress);
            |r.out| == q.len && Agrees(r.index, po + |r.out|, q.seen, po + q.len)
  {
    NameCovered(s, po, po, cap, x, seen, compress);
    assert s != [];
    hide PackLabels, LenSearch, EscapedLen, IsFqdn, Closed, AfterDot, ClosedUpTo, EndsInDot;
    if s != [DOT] {
      var r := PackName(s, po, cap, x, compress);
      if x.NoIndex? {
        LabelsUncompressed(s, po, cap, x, compress);
      } else {
        if po < MAX_COMPRESSION_OFFSET {
          ClosedToUpTo(x, |s|);
        }
        LabelsExact(s, po, cap, x, compress);
        if !compress {
          LabelsUncompressed(s, po, cap, x, compress);
          if po >= MAX_COMPRESSION_OFFSET {
            NothingBeyond(s, po, x.at.Keys);
          }
        }
      }
    }
  }

  /** Beyond the boundary the search adds nothing. */
  lemma {:induction false} NothingBeyond(t: Text, at: nat, c: set<Text>)
    requires at >= MAX_COMPRESSION_OFFSET
    ensures LenSearch(c, t, at).seen == c
    decreases |t|
  {
    hide AfterDot;
    if t != [] && t !in c {
      NothingBeyond(AfterDot(t), at + |t| - |AfterDot(t)|, c);
    }
  }
}
