/** `IsDomainName`, the copy of the packer's loop that only checks. */
module DomainName {
  import opened Octets
  import opened Wrappers
  import opened Presentation
  import opened Qualified
  import opened LabelWalks
  import opened NamePack
  import opened NameUnpack

  const CHECK_LIMIT := 256

  /** The escape flag at the end of `t`: flipped by every escape, cleared by anything else. */
  predicate Toggled(t: Text, e: bool) {
    if t == [] then e else Toggled(t[UnitLen(t)..], t[0] == BACKSLASH && !e)
  }

  /** The number of closed labels of `t`, unless one is refused; `off` octets are taken already. */
  function Closed(t: Text, off: nat): Option<nat>
    decreases |t|
  {
    if HasEscape(t) && off + 1 > CHECK_LIMIT then None
    else if FirstDot(t) == |t| then Some(0)
    else
      var l := FirstLabel(t);
      if !GoodLabel(l) || off + 1 + |l| > CHECK_LIMIT then None
      else match Closed(AfterDot(t), off + 1 + |l|)
        case None => None
        case Some(n) => Some(n + 1)
  }

  /** `IsDomainName` as a function: the label count, or nothing. The root counts as one label. */
  function Checked(s: Text): Option<nat> {
    if s == [] then None
    else
      var t := Fqdn(s);
      if t == [DOT] then Some(1)
      else if Closed(t, 0).None? || Toggled(t, false) then None
      else Closed(t, 0)
  }

  // ----- the loop -----

  /** Position `k` in the loop: label starting at `b`, `off` octets before it, `count` labels closed. */
  ghost predicate At(t: Text, b: nat, k: nat, cur: Label, off: nat, count: nat, escape: bool) {
    && Inside(t, b, k, cur) && off <= CHECK_LIMIT
    && (BACKSLASH in t[b..k] ==> off + 1 <= CHECK_LIMIT)
    && Toggled(t, false) == Toggled(t[k..], escape)
    && Closed(t, 0) == match Closed(t[b..], off)
                       case None => None
                       case Some(n) => Some(n + count)
  }

  lemma AtStart(t: Text)
    ensures At(t, 0, 0, [], 0, 0, false)
  {
    hide Closed, Toggled;
    InsideStart(t, 0);
    assert t[0..] == t;
  }

  lemma InsideBounds(t: Text, b: nat, k: nat, cur: Label)
    requires Inside(t, b, k, cur)
    ensures b <= k <= |t|
  {
  }

  lemma {:induction false} AtUnit(t: Text, b: nat, k: nat, cur: Label, off: nat, count: nat, escape: bool)
    requires At(t, b, k, cur, off, count, escape) && k < |t| && t[k] != DOT
    ensures var u := t[k..];
            var e := t[k] == BACKSLASH && !escape;
            if t[k] == BACKSLASH && off + 1 > CHECK_LIMIT then Closed(t, 0).None?
            else At(t, b, k + UnitLen(u), cur + [UnitOctet(u)], off, count, e)
  {
    hide FirstLabel, FirstDot, Inside, UnitOctet, UnitLen, Toggled, Closed;
    var u := t[k..];
    InsideBounds(t, b, k, cur);
    InsideStep(t, b, k, cur);
    ToggledUnit(u, escape);
    assert u[UnitLen(u)..] == t[k + UnitLen(u)..];
    if t[k] == BACKSLASH {
      if off + 1 > CHECK_LIMIT {
        ClosedNoRoom(t[b..], off);
      }
    } else {
      PlainUnit(t, k);
      assert t[b..k + 1] == t[b..k] + [t[k]];
    }
  }

  lemma ClosedNoRoom(t: Text, off: nat)
    requires HasEscape(t) && off + 1 > CHECK_LIMIT
    ensures Closed(t, off).None?
  {
  }

  lemma {:induction false} AtDot(t: Text, b: nat, k: nat, cur: Label, off: nat, count: nat, escape: bool)
    requires At(t, b, k, cur, off, count, escape) && k < |t| && t[k] == DOT
    ensures if !GoodLabel(cur) || off + 1 + |cur| > CHECK_LIMIT then Closed(t, 0).None?
            else At(t, k + 1, k + 1, [], off + 1 + |cur|, count + 1, false)
  {
    hide FirstLabel, FirstDot, Inside, UnitLen, Toggled, Closed, AfterDot, HasEscape;
    InsideBounds(t, b, k, cur);
    InsideAtDot(t, b, k, cur);
    var u := t[k..];
    AtFirstDot(u);
    ToggledUnit(u, escape);
    assert u[1..] == t[k + 1..];
    assert t[k + 1..k + 1] == [];
    EscapeBefore(t, b, k);
    ClosedUnfold(t[b..], off);
  }

  lemma EscapeBefore(t: Text, b: nat, k: nat)
    requires b <= k <= |t| && FirstDot(t[b..]) == k - b
    ensures HasEscape(t[b..]) <==> BACKSLASH in t[b..k]
  {
    hide FirstDot;
    assert t[b..][..k - b] == t[b..k];
  }

  lemma {:induction false} ClosedUnfold(t: Text, off: nat)
    requires FirstDot(t) < |t|
    ensures var l := FirstLabel(t);
            Closed(t, off) ==
            if (HasEscape(t) && off + 1 > CHECK_LIMIT) || !GoodLabel(l) || off + 1 + |l| > CHECK_LIMIT then None
            else match Closed(AfterDot(t), off + 1 + |l|)
              case None => None
              case Some(n) => Some(n + 1)
  {
    hide FirstDot, FirstLabel, HasEscape;
  }

  lemma {:induction false} AtEnd(t: Text, b: nat, cur: Label, off: nat, count: nat, escape: bool)
    requires At(t, b, |t|, cur, off, count, escape)
    ensures Closed(t, 0) == Some(count) && Toggled(t, false) == escape
  {
    hide FirstLabel;
    InsideAtDot(t, b, |t|, cur);
    assert t[|t|..] == [];
    assert HasEscape(t[b..]) ==> BACKSLASH in t[b..|t|];
    assert cur == [] ==> t[b..] == [];
  }

  method IsDomainName(s0: Text) returns (labels: nat, ok: bool)
    ensures match Checked(s0)
            case Some(n) => ok && labels == n
            case None => !ok
  {
    hide Closed, Toggled, Fqdn;
    if s0 == [] {
      return 0, false;
    }
    if Fqdn(s0) == [DOT] {
      return 1, true;
    }
    labels, ok := CheckText(Fqdn(s0));
  }

  method CheckText(s: Text) returns (labels: nat, ok: bool)
    requires s != [DOT]
    ensures ok <==> Closed(s, 0).Some? && !Toggled(s, false)
    ensures ok ==> Closed(s, 0) == Some(labels)
  {
    hide Closed, Toggled, At, UnitOctet, UnitLen;
    ok := false;
    var off: nat, begin: int, wasDot, escape := 0, 0, false, false;
    labels := 0;
    ghost var b, cur: Label := 0, [];
    AtStart(s);
    var i: nat := 0;
    while i < |s|
      invariant i <= |s| && |cur| == i - begin
      invariant At(s, b, i, cur, off, labels, escape)
      invariant i == 0 ==> cur == []
      invariant i > 0 ==> (wasDot <==> cur == [])
    {
      if s[i] == DOT {
        AtDot(s, b, i, cur, off, labels, escape);
        escape := false;
        // No empty label, at the front or between two dots.
        if i == 0 || wasDot {
          return labels, false;
        }
        wasDot := true;
        var labelLen := i - begin;
        if labelLen >= 64 {
          return labels, false;
        }
        off := off + 1 + labelLen;
        if off > CHECK_LIMIT {
          return labels, false;
        }
        labels := labels + 1;
        begin := i + 1;
        b, cur := i + 1, [];
        i := i + 1;
      } else {
        AtUnit(s, b, i, cur, off, labels, escape);
        cur := cur + [UnitOctet(s[i..])];
        wasDot := false;
        if s[i] == BACKSLASH {
          escape := !escape;
          if off + 1 > CHECK_LIMIT {
            return labels, false;
          }
          var skip := Skipped(s, i);
          i := i + skip;
          begin := begin + skip;
        } else {
          PlainUnit(s, i);
          escape := false;
        }
        i := i + 1;
      }
    }
    AtEnd(s, b, cur, off, labels, escape);
    ok := !escape;
  }

  /** Bytes of an escape behind its backslash; the last byte of a text has none. */
  method Skipped(s: Text, i: nat) returns (n: nat)
    requires i < |s| && s[i] == BACKSLASH
    ensures n + 1 == UnitLen(s[i..])
  {
    if IsDDD(s, i + 1) {
      assert IsDDD(s[i..], 1);
      return 3;
    }
    assert !IsDDD(s[i..], 1);
    return if i + 1 < |s| then 1 else 0;
  }

  // ----- agreement with the packer -----

  /** The labels of `t` that an unescaped dot closes. */
  function ClosedLabels(t: Text): seq<Label>
    decreases |t|
  {
    if FirstDot(t) == |t| then [] else [FirstLabel(t)] + ClosedLabels(AfterDot(t))
  }

  /** What follows the last unescaped dot. */
  function Tail(t: Text): Text
    decreases |t|
  {
    if FirstDot(t) == |t| then t else Tail(AfterDot(t))
  }

  /**
   * The loop refuses exactly when a closed label is empty or too long, when the closed labels take
   * more than 256 octets, or when they take all of them and an escape follows.
   */
  lemma {:induction false} ClosedExactly(t: Text, off: nat)
    requires off <= CHECK_LIMIT
    ensures var ls := ClosedLabels(t);
            Closed(t, off) ==
            if GoodLabels(ls) && off + WireLen(ls) <= 257
                && (BACKSLASH in Tail(t) ==> off + WireLen(ls) <= 256)
            then Some(|ls|) else None
    decreases |t|
  {
    hide FirstDot, FirstLabel, GoodLabels, WireLen, AfterDot;
    if FirstDot(t) == |t| {
      WireOfNothing();
      assert t[..|t|] == t;
    } else {
      var l, u := FirstLabel(t), AfterDot(t);
      ClosedUnfold(t, off);
      GoodFront(l, ClosedLabels(u));
      LabelBeforeTail(t);
      if off + 1 + |l| <= CHECK_LIMIT {
        ClosedExactly(u, off + 1 + |l|);
      }
    }
  }

  lemma GoodFront(l: Label, ls: seq<Label>)
    ensures GoodLabels([l] + ls) <==> GoodLabel(l) && GoodLabels(ls)
    ensures WireLen([l] + ls) == 1 + |l| + WireLen(ls) && WireLen(ls) >= 1
  {
    var r := [l] + ls;
    assert r[0] == l && r[1..] == ls;
    assert forall i :: 0 <= i < |ls| ==> ls[i] == r[i + 1];
  }

  /** A label with an escape is not empty. */
  lemma {:induction false} LabelBeforeTail(t: Text)
    requires FirstDot(t) < |t|
    ensures HasEscape(t) ==> |FirstLabel(t)| >= 1
  {
  }

  /** On a text that ends in an unescaped dot all labels are closed. */
  lemma {:induction false} AllClosed(t: Text)
    requires EndsInDot(t)
    ensures ClosedLabels(t) == Labels(t) && Tail(t) == []
    decreases |t|
  {
    hide FirstDot, FirstLabel, AfterDot;
    if t == [] {
      NoEscape();
    } else {
      AllClosed(AfterDot(t));
    }
  }

  /** On a text that ends in an escaped dot the tail holds the escape. */
  lemma {:induction false} TailEscaped(t: Text)
    requires t != [] && t[|t| - 1] == DOT && !EndsInDot(t)
    ensures BACKSLASH in Tail(t)
    decreases |t|
  {
    if FirstDot(t) == |t| {
      if BACKSLASH !in t {
        DotIsFound(t);
      }
    } else {
      var u := AfterDot(t);
      hide FirstDot;
      assert u == [] || u[|u| - 1] == t[|t| - 1];
      TailEscaped(u);
    }
  }

  lemma {:induction false} DotIsFound(t: Text)
    requires BACKSLASH !in t && DOT in t
    ensures FirstDot(t) < |t|
    decreases |t|
  {
    if t[0] != DOT {
      assert t[0] in t;
      assert t == [t[0]] + t[1..];
      DotIsFound(t[1..]);
    }
  }

  // ----- the escape flag -----

  /** The units of a text: octets and escapes. */
  function Units(t: Text): (us: seq<Text>)
    ensures forall i :: 0 <= i < |us| ==> us[i] != []
  {
    if t == [] then [] else [t[..UnitLen(t)]] + Units(t[UnitLen(t)..])
  }

  /** Number of adjacent escapes at the end of a list of units. */
  function EscapesAtEnd(us: seq<Text>): (n: nat)
    ensures n <= |us|
  {
    if us == [] || us[|us| - 1] == [] || us[|us| - 1][0] != BACKSLASH then 0 else 1 + EscapesAtEnd(us[..|us| - 1])
  }

  lemma {:induction false} EscapesCons(u: Text, us: seq<Text>)
    requires u != []
    ensures EscapesAtEnd([u] + us) ==
            if EscapesAtEnd(us) == |us| && u[0] == BACKSLASH then |us| + 1 else EscapesAtEnd(us)
    decreases |us|
  {
    var q := [u] + us;
    if us == [] {
      assert q[..0] == [];
    } else {
      assert q[..|q| - 1] == [u] + us[..|us| - 1];
      assert q[|q| - 1] == us[|us| - 1];
      EscapesCons(u, us[..|us| - 1]);
    }
  }

  /** The flag is up at the end exactly when the run of adjacent escapes there is odd. */
  lemma {:induction false} ToggledByRun(t: Text, e: bool)
    ensures var us := Units(t);
            Toggled(t, e) <==> (EscapesAtEnd(us) + if EscapesAtEnd(us) == |us| && e then 1 else 0) % 2 == 1
    decreases |t|
  {
    if t != [] {
      var u, r := t[..UnitLen(t)], t[UnitLen(t)..];
      hide UnitLen, EscapesAtEnd;
      assert u[0] == t[0];
      ToggledByRun(r, t[0] == BACKSLASH && !e);
      EscapesCons(u, Units(r));
    }
  }

  lemma NoEscape()
    ensures !HasEscape([]) && FirstDot([]) == 0
  {
  }

  lemma {:induction false} ToggledAfterDot(t: Text, e: bool)
    requires FirstDot(t) < |t|
    ensures Toggled(t, e) == Toggled(AfterDot(t), false)
    decreases |t|
  {
    hide FirstDot, UnitLen, Toggled, AfterDot;
    ToggledUnit(t, e);
    if t[0] == DOT {
      AtFirstDot(t);
    } else {
      AfterDotUnit(t, UnitLen(t));
      ToggledAfterDot(t[UnitLen(t)..], t[0] == BACKSLASH && !e);
    }
  }

  lemma ToggledUnit(t: Text, e: bool)
    requires t != []
    ensures Toggled(t, e) == Toggled(t[UnitLen(t)..], t[0] == BACKSLASH && !e)
  {
  }

  lemma {:induction false} NotToggled(t: Text, e: bool)
    requires t != [] && EndsInDot(t)
    ensures !Toggled(t, e)
    decreases |t|
  {
    hide FirstDot;
    ToggledAfterDot(t, e);
    if AfterDot(t) != [] {
      NotToggled(AfterDot(t), false);
    }
  }

  /**
   * The two copies of the loop agree: a name is accepted exactly when the packer can write it,
   * uncompressed, into 257 octets, and then the count is that of `CountLabel`.
   */
  lemma {:induction false} CheckedIsPackable(s: Text)
    requires s != [] && FullyQualified(Fqdn(s))
    ensures Checked(s).Some? <==> PackName(Fqdn(s), 0, 257, NoIndex, false).Packed?
    ensures Checked(s).Some? && Fqdn(s) != [DOT] ==> Checked(s).value == |Starts(Fqdn(s))|
  {
    hide IsFqdn, PackLabels, Closed, Toggled, GoodLabels, Labels, WireLen, StartsFrom, FirstDot, ClosedLabels, Tail;
    var t := Fqdn(s);
    if t != [DOT] {
      AllClosed(t);
      ClosedExactly(t, 0);
      NotToggled(t, false);
      PackLabelsPlain(t, 0, CHECK_LIMIT + 1, false);
      CountIsLabels(t, 0);
      assert t[0..] == t;
    }
  }

  /**
   * Exactly when a name can be completed, for every text: the dot at the end is unescaped, and the
   * backslashes before it do not follow a rune of even width.
   */
  lemma {:induction false} CompletedExactly(s: Text)
    ensures FullyQualified(Fqdn(s)) <==> EndsInDot(Fqdn(s)) && !EvenRuneBeforeEscapes(Fqdn(s))
    ensures EndsInDot(Fqdn(s)) <==> if IsFqdn(s) then !EvenRuneBeforeEscapes(s) else TrailingBackslashes(s) % 2 == 0
    ensures Ascii(s) ==> (FullyQualified(Fqdn(s)) <==> TrailingBackslashes(s) % 2 == 0)
  {
    hide IsFqdn, EndsInDot;
    var t := Fqdn(s);
    IsFqdnExact(t);
    if IsFqdn(s) {
      IsFqdnExact(s);
    } else {
      assert t[..|t| - 1] == s;
      ParityIsLeftToRight(t);
    }
    if Ascii(s) {
      IsFqdnOnAscii(t);
    }
  }

  /** Packing without compression, also when there is something behind the last unescaped dot. */
  lemma {:induction false} PacksExactly(t: Text, off: nat, cap: nat)
    ensures PackLabels(t, off, cap, NoIndex, false).Packed? <==>
            GoodLabels(ClosedLabels(t)) && off + WireLen(ClosedLabels(t)) <= cap
    decreases |t|
  {
    hide FirstDot, FirstLabel, GoodLabels, WireLen, AfterDot, HasEscape;
    if FirstDot(t) == |t| {
      WireOfNothing();
    } else {
      var l, u := FirstLabel(t), AfterDot(t);
      hide PackLabels;
      PackLabelsUnfold(t, off, cap, NoIndex, false);
      GoodFront(l, ClosedLabels(u));
      PacksExactly(u, off + 1 + |l|, cap);
    }
  }

  /** A completed text has a dot at the end, so what is open behind the last real dot holds its escape. */
  lemma {:induction false} TailExactly(t: Text)
    requires t != [] && t[|t| - 1] == DOT
    ensures BACKSLASH in Tail(t) <==> !EndsInDot(t)
  {
    hide Tail, EndsInDot;
    if EndsInDot(t) {
      AllClosed(t);
    } else {
      TailEscaped(t);
    }
  }

  /**
   * A completed text that the check accepts as far as its labels go, although an escape is open at
   * its end: the flag is down when the run of adjacent escapes there is even.
   */
  predicate Overlooked(t: Text) {
    WireLen(ClosedLabels(t)) <= CHECK_LIMIT && EscapesAtEnd(Units(t)) % 2 == 0
  }

  /**
   * Exactly when the check and the packer agree, for every text but the empty one, which the check
   * refuses: the closed labels are too long, or both go through, or both refuse. The packer goes by
   * `IsFqdn`; the check accepts what ends in an unescaped dot and what it overlooks.
   */
  lemma {:induction false} DisagreeExactly(s: Text)
    requires s != []
    ensures var t := Fqdn(s);
            (Checked(s).Some? <==> PackName(t, 0, 257, NoIndex, false).Packed?) <==>
            || !GoodLabels(ClosedLabels(t)) || WireLen(ClosedLabels(t)) > 257
            || (IsFqdn(t) <==> EndsInDot(t) || Overlooked(t))
  {
    hide IsFqdn, Fqdn, Closed, Toggled, EndsInDot, PackLabels, GoodLabels, WireLen, ClosedLabels, Tail, Units,
         EscapesAtEnd;
    var t := Fqdn(s);
    if t == [DOT] {
      RootIsQualified();
    } else {
      ClosedExactly(t, 0);
      PacksExactly(t, 0, CHECK_LIMIT + 1);
      TailExactly(t);
      ToggledByRun(t, false);
      if EndsInDot(t) {
        NotToggled(t, false);
      }
    }
  }

  /** On ASCII text: the packer refuses every odd run of backslashes, the check only some of them. */
  lemma {:induction false} DisagreeOnAscii(s: Text)
    requires s != [] && Ascii(s)
    ensures var t := Fqdn(s);
            !(Checked(s).Some? <==> PackName(t, 0, 257, NoIndex, false).Packed?) <==>
            TrailingBackslashes(s) % 2 == 1 && GoodLabels(ClosedLabels(t)) && Overlooked(t)
  {
    hide IsFqdn, Fqdn, Closed, Toggled, EndsInDot, PackLabels, GoodLabels, WireLen, ClosedLabels, Units, EscapesAtEnd,
         TrailingBackslashes, Checked, PackName, EvenRuneBeforeEscapes;
    DisagreeExactly(s);
    CompletedExactly(s);
    IsFqdnOnAscii(Fqdn(s));
  }

  lemma RootIsQualified()
    ensures FullyQualified([DOT])
  {
    assert AfterDot([DOT]) == [];
  }

  /** Three backslashes: accepted with no label, but not packable. */
  lemma CheckedAcceptsDanglingEscape()
    ensures var s := [BACKSLASH, BACKSLASH, BACKSLASH];
            Checked(s) == Some(0) && PackName(Fqdn(s), 0, 257, NoIndex, false).Failed?
  {
    var s: Text := [BACKSLASH, BACKSLASH, BACKSLASH];
    var t := s + [DOT];
    assert t[..3] == s;
    assert TrailingBackslashes(s) == 3 by { assert s[..2][..1] == s[..1]; assert s[..1][..0] == []; }
    assert !IsFqdn(t);
    assert t[2..][2..] == [] && t[UnitLen(t)..] == t[2..];
    assert FirstDot(t[2..]) == 2 && FirstDot(t) == 4;
    assert Toggled(t[2..], true) == Toggled(t[2..][2..], false);
  }
}
