/**
 * Predicting the packed length of names without packing them: a simulation of the packer that
 * runs on the escaped text and remembers which suffixes would be in the compression map.
 */
module NameLength {
  import opened Octets
  import opened Presentation
  import opened LabelWalks
  import opened NamePack

  /** Number of octets a text stands for, dots included; a dangling backslash stands for none. */
  function EscapedLen(t: Text): (n: nat)
    ensures n <= |t|
  {
    if t == [] then 0
    else if t[0] == BACKSLASH && UnitLen(t) == 1 then 0
    else 1 + EscapedLen(t[UnitLen(t)..])
  }

  /** Where the simulation stops: at a known suffix, or at the end of the name. */
  datatype Search = Found(rest: Text, seen: set<Text>) | NotFound(seen: set<Text>)

  /** Walk the suffixes of `t`, the first of which is taken to go at offset `at`. */
  function LenSearch(c: set<Text>, t: Text, at: nat): Search
    decreases |t|
  {
    if t == [] then NotFound(c)
    else if t in c then Found(t, c)
    else LenSearch(if at < MAX_COMPRESSION_OFFSET then c + {t} else c, AfterDot(t), at + |t| - |AfterDot(t)|)
  }

  lemma LenSearchUnfold(c: set<Text>, t: Text, at: nat)
    ensures LenSearch(c, t, at) ==
            if t == [] then NotFound(c)
            else if t in c then Found(t, c)
            else LenSearch(if at < MAX_COMPRESSION_OFFSET then c + {t} else c, AfterDot(t), at + |t| - |AfterDot(t)|)
  {
  }

  /** The suffixes known so far, or none when nothing is compressed. */
  datatype Seen = NoSeen | Seen(names: set<Text>)

  datatype Sized = Sized(len: nat, seen: Seen)

  /** Octets the labels of `t` take given where the simulation stopped. */
  function SearchLen(t: Text, r: Search): int {
    match r
    case Found(rest, _) => EscapedLen(t) - EscapedLen(rest) + 2
    case NotFound(_) => EscapedLen(t) + 1
  }

  /** `domainNameLen` as a function. */
  function NameLen(s: Text, off: nat, x: Seen, compress: bool): Sized {
    if s == [] || s == [DOT] then Sized(1, x)
    else if x.Seen? && (compress || off < MAX_COMPRESSION_OFFSET) then
      var r := LenSearch(x.names, s, off);
      LenSearchShape(x.names, s, off);
      Sized(if compress then SearchLen(s, r) else EscapedLen(s) + 1, Seen(r.seen))
    else Sized(EscapedLen(s) + 1, x)
  }

  /** The search stops at a suffix, and a suffix never stands for more octets than the text. */
  lemma {:induction false} LenSearchShape(c: set<Text>, t: Text, at: nat)
    ensures var r := LenSearch(c, t, at);
            && c <= r.seen
            && (r.Found? ==>
                  && |r.rest| <= |t| && t[|t| - |r.rest|..] == r.rest && r.rest != []
                  && EscapedLen(r.rest) <= EscapedLen(t))
    decreases |t|
  {
    hide FirstDot, FirstLabel, EscapedLen, AfterDot;
    if t == [] {
    } else if t in c {
      assert t[0..] == t;
    } else {
      var u := AfterDot(t);
      LenSearchShape(if at < MAX_COMPRESSION_OFFSET then c + {t} else c, u, at + |t| - |u|);
      EscapedLenAfterDot(t);
      AfterDotIsSuffix(t);
      var r := LenSearch(c, t, at);
      if r.Found? {
        assert t[|t| - |r.rest|..] == t[|t| - |u|..][|u| - |r.rest|..];
      }
    }
  }

  /** The suffixes of `t` that start at a label, longest first. */
  function Suffixes(t: Text): (ss: seq<Text>)
    ensures forall i :: 0 <= i < |ss| ==> |ss[i]| <= |t|
    decreases |t|
  {
    if t == [] then [] else [t] + Suffixes(AfterDot(t))
  }

  /** Position of the longest suffix that is known, or their number. */
  function FirstKnown(c: set<Text>, ss: seq<Text>): (k: nat)
    ensures k <= |ss| && (k < |ss| ==> ss[k] in c) && forall i :: 0 <= i < k ==> ss[i] !in c
  {
    if ss == [] || ss[0] in c then 0 else 1 + FirstKnown(c, ss[1..])
  }

  /** Those of `ss` that start below 16384 when the text ends at `end`. */
  function Reachable(ss: seq<Text>, end: nat): set<Text> {
    set i | 0 <= i < |ss| && end - |ss[i]| < MAX_COMPRESSION_OFFSET :: ss[i]
  }

  lemma {:induction false} KnownApart(c: set<Text>, t: Text, ss: seq<Text>)
    requires forall i :: 0 <= i < |ss| ==> |ss[i]| < |t|
    ensures FirstKnown(c + {t}, ss) == FirstKnown(c, ss)
    decreases |ss|
  {
    if ss != [] && ss[0] !in c {
      KnownApart(c, t, ss[1..]);
    }
  }

  lemma ReachableFront(t: Text, ss: seq<Text>, end: nat)
    ensures Reachable([t] + ss, end) == (if end - |t| < MAX_COMPRESSION_OFFSET then {t} else {}) + Reachable(ss, end)
  {
    var r := [t] + ss;
    forall x | x in Reachable(ss, end) ensures x in Reachable(r, end) {
      var i :| 0 <= i < |ss| && end - |ss[i]| < MAX_COMPRESSION_OFFSET && ss[i] == x;
      assert r[i + 1] == x;
    }
    assert r[0] == t;
    forall x | x in Reachable(r, end) ensures x == t || x in Reachable(ss, end) {
      var i :| 0 <= i < |r| && end - |r[i]| < MAX_COMPRESSION_OFFSET && r[i] == x;
      if i > 0 {
        assert ss[i - 1] == x;
      }
    }
  }

  /**
   * What the search does: it stops at the longest suffix that is known, and adds exactly the longer
   * ones that a pointer can reach.
   */
  lemma {:induction false} LenSearchExactly(c: set<Text>, t: Text, at: nat)
    ensures var ss := Suffixes(t);
            var k := FirstKnown(c, ss);
            var seen := c + Reachable(ss[..k], at + |t|);
            LenSearch(c, t, at) == if k < |ss| then Found(ss[k], seen) else NotFound(seen)
    decreases |t|
  {
    hide AfterDot, LenSearch, FirstKnown, Reachable, Suffixes;
    LenSearchUnfold(c, t, at);
    if t == [] {
      NoSuffixes(c, at);
      assert Suffixes([])[..0] == [];
    } else {
      var u := AfterDot(t);
      var rest, end := Suffixes(u), at + |t|;
      SuffixesFront(t);
      KnownFront(c, t, rest);
      if t in c {
        NothingReachable([t] + rest, end);
      } else {
        var c' := if at < MAX_COMPRESSION_OFFSET then c + {t} else c;
        KnownApart(c, t, rest);
        LenSearchExactly(c', u, end - |u|);
        var k := FirstKnown(c, rest);
        assert ([t] + rest)[..k + 1] == [t] + rest[..k];
        ReachableFront(t, rest[..k], end);
        SetsJoin(c, t, at, Reachable(rest[..k], end));
      }
    }
  }

  lemma SetsJoin(c: set<Text>, t: Text, at: nat, r: set<Text>)
    ensures (if at < MAX_COMPRESSION_OFFSET then c + {t} else c) + r ==
            c + ((if at < MAX_COMPRESSION_OFFSET then {t} else {}) + r)
  {
  }

  lemma NoSuffixes(c: set<Text>, at: nat)
    ensures Suffixes([]) == [] && FirstKnown(c, []) == 0 && c + Reachable([], at) == c
  {
  }

  lemma NothingReachable(ss: seq<Text>, end: nat)
    ensures Reachable(ss[..0], end) == {}
  {
  }

  lemma SuffixesFront(t: Text)
    requires t != []
    ensures Suffixes(t) == [t] + Suffixes(AfterDot(t))
  {
  }

  lemma KnownFront(c: set<Text>, t: Text, rest: seq<Text>)
    ensures FirstKnown(c, [t] + rest) == if t in c then 0 else 1 + FirstKnown(c, rest)
  {
    assert ([t] + rest)[1..] == rest;
  }

  lemma {:induction false} AfterDotIsSuffix(t: Text)
    requires t != []
    ensures t[|t| - |AfterDot(t)|..] == AfterDot(t)
  {
  }

  /** A label and its dot stand for one octet more than the label has. */
  lemma {:induction false} EscapedStep(t: Text)
    requires t != []
    ensures t[0] == DOT ==> UnitLen(t) == 1
    ensures EscapedLen([]) == 0
    ensures EscapedLen(t) ==
            if t[0] == BACKSLASH && t[UnitLen(t)..] == [] && UnitLen(t) == 1 then 0
            else 1 + EscapedLen(t[UnitLen(t)..])
  {
  }

  lemma {:induction false} EscapedLenAfterDot(t: Text)
    requires t != []
    ensures FirstDot(t) < |t| ==> EscapedLen(t) == |FirstLabel(t)| + 1 + EscapedLen(AfterDot(t))
    ensures EscapedLen(AfterDot(t)) <= EscapedLen(t)
    decreases |t|
  {
    hide FirstDot, FirstLabel, UnitLen, EscapedLen;
    EscapedStep(t);
    if t[0] == DOT {
      DotInFront(t);
      assert AfterDot(t) == t[1..];
    } else {
      UnitStep(t);
      var r := t[UnitLen(t)..];
      if r != [] {
        EscapedLenAfterDot(r);
        assert FirstDot(t) < |t| ==> t[FirstDot(t) + 1..] == r[FirstDot(r) + 1..];
        assert AfterDot(t) == AfterDot(r);
      }
    }
  }

  /** Counting dots as length octets, the text stands for its wire form less the root octet. */
  lemma {:induction false} EscapedLenIsWireLen(t: Text)
    requires EndsInDot(t)
    ensures EscapedLen(t) + 1 == WireLen(Labels(t))
    decreases |t|
  {
    if t != [] {
      EscapedLenAfterDot(t);
      WireUnfold(t);
      EscapedLenIsWireLen(AfterDot(t));
    }
  }

  // ----- the loops -----

  /** Offset `b` of `t` lies between two units. */
  predicate AtUnit(t: Text, b: nat) {
    b == 0 || (t != [] && UnitLen(t) <= b <= |t| && AtUnit(t[UnitLen(t)..], b - UnitLen(t)))
  }

  lemma {:induction false} AtUnitThen(t: Text, a: nat, b: nat)
    requires AtUnit(t, a) && a <= |t| && AtUnit(t[a..], b)
    ensures AtUnit(t, a + b)
    decreases |t|
  {
    hide UnitLen;
    if a == 0 {
      assert t[0..] == t;
    } else {
      var n := UnitLen(t);
      assert t[n..][a - n..] == t[a..];
      AtUnitThen(t[n..], a - n, b);
      assert a - n + b == a + b - n;
    }
  }

  lemma {:induction false} AtUnitDot(t: Text)
    requires FirstDot(t) < |t|
    ensures AtUnit(t, FirstDot(t) + 1)
    decreases |t|
  {
    if t[0] != DOT {
      AtUnitDot(t[UnitLen(t)..]);
    } else {
      assert AtUnit(t[1..], 0);
    }
  }

  /** Cutting between units splits the count. */
  lemma {:induction false} EscapedLenSplit(t: Text, b: nat)
    requires AtUnit(t, b) && b <= |t|
    ensures EscapedLen(t[..b]) + EscapedLen(t[b..]) == EscapedLen(t)
    decreases |t|
  {
    if b == 0 {
      assert t[0..] == t && t[..0] == [];
    } else {
      var n := UnitLen(t);
      assert t[..b][n..] == t[n..][..b - n];
      assert t[n..][b - n..] == t[b..];
      assert UnitLen(t[..b]) == n;
      EscapedLenSplit(t[n..], b - n);
    }
  }

  /** `escapedNameLen`: the length of the text less what its escapes take. */
  method EscapedNameLen(s: Text) returns (nameLen: nat)
    ensures nameLen == EscapedLen(s)
  {
    var n: int := |s|;
    var i := 0;
    assert s[0..] == s;
    while i < |s|
      invariant 0 <= i <= |s| + 1
      invariant i <= |s| ==> n == EscapedLen(s) + (|s| - i) - EscapedLen(s[i..])
      invariant i == |s| + 1 ==> n == EscapedLen(s)
    {
      var t := s[i..];
      if s[i] == BACKSLASH {
        if IsDDD(s, i + 1) {
          assert IsDDD(t, 1) && t[4..] == s[i + 4..];
          n := n - 3;
          i := i + 3;
        } else {
          assert !IsDDD(t, 1);
          assert |t| >= 2 ==> t[2..] == s[i + 2..];
          n := n - 1;
          i := i + 1;
        }
      } else {
        assert t[1..] == s[i + 1..];
      }
      i := i + 1;
    }
    assert i == |s| ==> s[i..] == [];
    nameLen := n;
  }

  lemma {:induction false} NoEscapeLen(t: Text)
    requires BACKSLASH !in t
    ensures EscapedLen(t) == |t|
  {
    if t != [] {
      assert t[0] in t;
      NoEscapeLen(t[1..]);
    }
  }

  /** The set of suffixes that `Len` threads through a message. */
  class SuffixSet {
    var names: set<Text>

    constructor ()
      ensures names == {}
    {
      names := {};
    }
  }

  lemma {:induction false} SearchStep(c: set<Text>, s: Text, msgOff: nat, off: nat, i: nat, end: bool)
    requires off < |s| && LabelStart(s, off) && AtUnit(s, off) && s[off..] !in c
    requires !end ==> off < i < |s| && RealDot(s, i - 1) && forall k :: off <= k < i - 1 ==> !RealDot(s, k)
    requires end ==> forall k :: off <= k < |s| - 1 ==> !RealDot(s, k)
    ensures var c' := if msgOff + off < MAX_COMPRESSION_OFFSET then c + {s[off..]} else c;
            if end then LenSearch(c, s[off..], msgOff + off) == NotFound(c')
            else LabelStart(s, i) && AtUnit(s, i)
                 && LenSearch(c, s[off..], msgOff + off) == LenSearch(c', s[i..], msgOff + i)
  {
    hide LabelStart, RealDot, FirstDot, AtUnit, LenSearch;
    NextLabelSteps(s, off, i, end);
    var t := s[off..];
    LenSearchUnfold(c, t, msgOff + off);
    if end {
      assert AfterDot(t) == [];
      var c' := if msgOff + off < MAX_COMPRESSION_OFFSET then c + {t} else c;
      LenSearchUnfold(c', [], msgOff + |s|);
    } else {
      NextStart(s, off);
      AtUnitDot(t);
      AtUnitThen(s, off, FirstDot(t) + 1);
      assert AfterDot(t) == s[i..];
    }
  }

  /** `compressionLenSearch`: inserts the suffixes it passes and stops at the first known one. */
  method CompressionLenSearch(c: SuffixSet, s: Text, msgOff: nat) returns (l: nat, ok: bool)
    requires s != []
    modifies c
    ensures var r := LenSearch(old(c.names), s, msgOff);
            && c.names == r.seen && (ok <==> r.Found?)
            && (ok ==> l <= |s| && s[l..] == r.rest && AtUnit(s, l))
  {
    hide LabelStart, RealDot, AtUnit;
    var off, end := 0, false;
    StartAtFront(s);
    UnitAtFront(s);
    assert s[0..] == s;
    while !end
      invariant !end ==> off < |s| && LabelStart(s, off) && AtUnit(s, off)
      invariant LenSearch(old(c.names), s, msgOff) ==
        if end then NotFound(c.names) else LenSearch(c.names, s[off..], msgOff + off)
      decreases !end, |s| - off
    {
      if s[off..] in c.names {
        return off, true;
      }
      ghost var before := c.names;
      if msgOff + off < MAX_COMPRESSION_OFFSET {
        c.names := c.names + {s[off..]};
      }
      var i, e := NextLabel(s, off);
      SearchStep(before, s, msgOff, off, i, e);
      off, end := i, e;
    }
    return 0, false;
  }

  lemma UnitAtFront(s: Text)
    ensures AtUnit(s, 0)
  {
  }

  function SeenIn(c: SuffixSet?): Seen
    reads c
  {
    if c == null then NoSeen else Seen(c.names)
  }

  /** `domainNameLen`. */
  method DomainNameLen(s: Text, off: nat, c: SuffixSet?, compress: bool) returns (n: nat)
    modifies c
    ensures var r := NameLen(s, off, old(SeenIn(c)), compress); n == r.len && SeenIn(c) == r.seen
  {
    if s == [] || s == [DOT] {
      return 1;
    }
    hide LenSearch, EscapedLen, AtUnit;
    var escaped := BACKSLASH in s;
    if !escaped {
      NoEscapeLen(s);
    }
    if c != null && (compress || off < MAX_COMPRESSION_OFFSET) {
      var l, ok := CompressionLenSearch(c, s, off);
      if ok && compress {
        EscapedLenSplit(s, l);
        if escaped {
          var e := EscapedNameLen(s[..l]);
          return e + 2;
        }
        NoEscapeLen(s[..l]);
        return l + 2;
      }
    }
    if escaped {
      var e := EscapedNameLen(s);
      return e + 1;
    }
    return |s| + 1;
  }
}
