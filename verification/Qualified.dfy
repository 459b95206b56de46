/**
 * Fully qualified names: the right-to-left test of `IsFqdn` against the
 * left-to-right reading of escapes.
 */
module Qualified {
  import opened Octets
  import opened Presentation

  /** Number of backslashes at the end of `p`. */
  function TrailingBackslashes(p: Text): (n: nat)
    ensures n <= |p|
    ensures n < |p| ==> p[|p| - 1 - n] != BACKSLASH
    ensures forall i :: |p| - n <= i < |p| ==> p[i] == BACKSLASH
  {
    if p == [] || p[|p| - 1] != BACKSLASH then 0 else 1 + TrailingBackslashes(p[..|p| - 1])
  }

  predicate Continuation(b: byte) {
    0x80 <= b <= 0xBF
  }

  /** The last two, three or four bytes of `p` are one well-formed UTF-8 sequence. */
  predicate EndsInRune2(p: Text) {
    |p| >= 2 && 0xC2 <= p[|p| - 2] <= 0xDF && Continuation(p[|p| - 1])
  }

  predicate EndsInRune3(p: Text) {
    |p| >= 3 &&
    var a, b, c := p[|p| - 3], p[|p| - 2], p[|p| - 1];
    && Continuation(c)
    && (|| (a == 0xE0 && 0xA0 <= b <= 0xBF)
        || (a == 0xED && 0x80 <= b <= 0x9F)
        || (0xE1 <= a <= 0xEF && a != 0xED && Continuation(b)))
  }

  predicate EndsInRune4(p: Text) {
    |p| >= 4 &&
    var a, b := p[|p| - 4], p[|p| - 3];
    && Continuation(p[|p| - 2]) && Continuation(p[|p| - 1])
    && (|| (a == 0xF0 && 0x90 <= b <= 0xBF)
        || (a == 0xF4 && 0x80 <= b <= 0x8F)
        || (0xF1 <= a <= 0xF3 && Continuation(b)))
  }

  /** Width in bytes of the last rune of `p`, as Go's backward decoder sees it; stray bytes are one wide. */
  function LastRuneWidth(p: Text): (w: nat)
    requires p != []
    ensures 1 <= w <= |p|
  {
    if EndsInRune2(p) then 2 else if EndsInRune3(p) then 3 else if EndsInRune4(p) then 4 else 1
  }

  /** Where the last rune of `p` that is not a backslash starts, or -1. */
  function LastNonBackslash(p: Text): int {
    var stem := p[..|p| - TrailingBackslashes(p)];
    if stem == [] then -1 else |stem| - LastRuneWidth(stem)
  }

  predicate IsFqdn(s: Text) {
    && s != []
    && s[|s| - 1] == DOT
    && var p := s[..|s| - 1];
       || p == []
       || p[|p| - 1] != BACKSLASH
       || (|p| - LastNonBackslash(p)) % 2 != 0
  }

  function Fqdn(s: Text): (r: Text)
    ensures r != [] && r[|r| - 1] == DOT
    ensures r == s || r == s + [DOT]
    ensures r == s <==> IsFqdn(s)
  {
    if IsFqdn(s) then s else s + [DOT]
  }

  /** The final dot follows backslashes that follow a rune of even width. */
  predicate EvenRuneBeforeEscapes(s: Text) {
    s != [] &&
    var p := s[..|s| - 1];
    var n := TrailingBackslashes(p);
    0 < n < |p| && LastRuneWidth(p[..|p| - n]) % 2 == 0
  }

  predicate Ascii(s: Text) {
    forall i :: 0 <= i < |s| ==> s[i] < 128
  }

  lemma {:induction false} TrailingCons(a: byte, p: Text)
    ensures TrailingBackslashes([a] + p) ==
            if TrailingBackslashes(p) == |p| && a == BACKSLASH then |p| + 1 else TrailingBackslashes(p)
    decreases |p|
  {
    var q := [a] + p;
    assert q[..|q| - 1] == if p == [] then [] else [a] + p[..|p| - 1];
    if p != [] && p[|p| - 1] == BACKSLASH {
      assert q[|q| - 1] == p[|p| - 1];
      TrailingCons(a, p[..|p| - 1]);
    }
  }

  /** Dropping one unit from the front changes neither side of the parity law. */
  lemma {:induction false} DropUnit(t: Text)
    requires t != [] && t[|t| - 1] == DOT && UnitLen(t) < |t|
    ensures var r := t[UnitLen(t)..];
            && EndsInDot(t) == EndsInDot(r)
            && TrailingBackslashes(t[..|t| - 1]) % 2 == TrailingBackslashes(r[..|r| - 1]) % 2
  {
    hide EndsInDot, TrailingBackslashes, UnitLen;
    var n := UnitLen(t);
    EndsAfterUnit(t);
    UnitShape(t);
    var p, q := t[..|t| - 1], t[n..][..|t| - n - 1];
    assert q == p[n..];
    TrailingDropUnit(p, n, q);
  }

  lemma UnitShape(t: Text)
    requires t != [] && UnitLen(t) < |t|
    ensures var n := UnitLen(t);
            || (n == 1 && t[0] != BACKSLASH)
            || (n == 2 && t[0] == BACKSLASH)
            || (n == 4 && IsDigit(t[3]))
  {
  }

  lemma {:induction false} EndsAfterUnit(t: Text)
    requires t != [] && UnitLen(t) < |t|
    ensures EndsInDot(t) == EndsInDot(t[UnitLen(t)..])
  {
    hide FirstDot, UnitLen, AfterDot;
    if t[0] == DOT {
      AtFirstDot(t);
    } else {
      UnitStep(t);
      if FirstDot(t) < |t| {
        AfterDotUnit(t, UnitLen(t));
      }
    }
  }

  lemma {:induction false} TrailingDropUnit(p: Text, n: nat, q: Text)
    requires n <= |p| && q == p[n..]
    requires || (n == 1 && p[0] != BACKSLASH)
             || (n == 2 && p[0] == BACKSLASH)
             || (n == 4 && IsDigit(p[3]))
    ensures TrailingBackslashes(p) % 2 == TrailingBackslashes(q) % 2
  {
    if n == 1 {
      assert p == [p[0]] + q;
      TrailingCons(p[0], q);
    } else if n == 2 {
      assert p == [p[0]] + ([p[1]] + q);
      TrailingCons(p[1], q);
      TrailingCons(p[0], [p[1]] + q);
    } else {
      assert p == [p[0]] + ([p[1]] + ([p[2]] + ([p[3]] + q)));
      TrailingCons(p[3], q);
      TrailingCons(p[2], [p[3]] + q);
      TrailingCons(p[1], [p[2]] + ([p[3]] + q));
      TrailingCons(p[0], [p[1]] + ([p[2]] + ([p[3]] + q)));
    }
  }

  /** Backslash-run parity agrees with reading the escapes from left to right. */
  lemma {:induction false} ParityIsLeftToRight(t: Text)
    requires t != [] && t[|t| - 1] == DOT
    ensures EndsInDot(t) <==> TrailingBackslashes(t[..|t| - 1]) % 2 == 0
    decreases |t|
  {
    if UnitLen(t) < |t| {
      DropUnit(t);
      ParityIsLeftToRight(t[UnitLen(t)..]);
    } else if |t| == 1 {
      assert AfterDot(t) == [];
    } else if IsDDD(t, 1) {
      assert false;
    } else {
      assert t[..1] == [BACKSLASH];
      assert FirstDot(t) == 2;
    }
  }

  lemma {:induction false} EndsInDotEndsWithDot(t: Text)
    requires t != [] && EndsInDot(t)
    ensures t[|t| - 1] == DOT
    decreases |t|
  {
    if AfterDot(t) != [] {
      EndsInDotEndsWithDot(AfterDot(t));
    }
  }

  /**
   * What `IsFqdn` decides, for every text: whether the final dot is unescaped, except that the
   * answer is inverted when the backslashes before the dot follow a rune of even width.
   */
  lemma {:induction false} IsFqdnExact(s: Text)
    requires s != []
    ensures IsFqdn(s) <==>
            s[|s| - 1] == DOT && (EndsInDot(s) <==> !EvenRuneBeforeEscapes(s))
    ensures IsFqdn(s) == EndsInDot(s) <==> !(s[|s| - 1] == DOT && EvenRuneBeforeEscapes(s))
  {
    if s[|s| - 1] == DOT {
      ParityIsLeftToRight(s);
      IsFqdnByParity(s);
    } else if EndsInDot(s) {
      EndsInDotEndsWithDot(s);
    }
  }

  lemma {:induction false} IsFqdnByParity(s: Text)
    requires s != [] && s[|s| - 1] == DOT
    ensures IsFqdn(s) <==> (TrailingBackslashes(s[..|s| - 1]) % 2 == 0 <==> !EvenRuneBeforeEscapes(s))
  {
    var p := s[..|s| - 1];
    var n := TrailingBackslashes(p);
    if n > 0 {
      RuneParity(p);
      var w := if n == |p| then 1 else LastRuneWidth(p[..|p| - n]);
      assert |p| - LastNonBackslash(p) == n + w;
      assert (n + w) % 2 != 0 <==> (n % 2 == 0 <==> w % 2 != 0);
      assert EvenRuneBeforeEscapes(s) <==> w % 2 == 0;
    }
  }

  /** The distance `IsFqdn` tests is the run of backslashes plus the width of the rune before it. */
  lemma {:induction false} RuneParity(p: Text)
    ensures var n := TrailingBackslashes(p);
            var stem := p[..|p| - n];
            |p| - LastNonBackslash(p) == n + if stem == [] then 1 else LastRuneWidth(stem)
  {
  }

  /** On ASCII text the test is right. */
  lemma {:induction false} IsFqdnOnAscii(s: Text)
    requires s != [] && Ascii(s)
    ensures IsFqdn(s) <==> EndsInDot(s)
  {
    IsFqdnExact(s);
  }

  /** Fully qualified under both readings: the names the packer handles as promised. */
  predicate FullyQualified(s: Text) {
    IsFqdn(s) && EndsInDot(s)
  }

  /** `é\.` ends in an escaped dot and passes; `é\\.` ends in a real dot and is refused. */
  lemma IsFqdnWrongBeyondAscii()
    ensures IsFqdn([0xC3, 0xA9, BACKSLASH, DOT]) && !EndsInDot([0xC3, 0xA9, BACKSLASH, DOT])
    ensures !IsFqdn([0xC3, 0xA9, BACKSLASH, BACKSLASH, DOT])
    ensures EndsInDot([0xC3, 0xA9, BACKSLASH, BACKSLASH, DOT])
  {
    var s: Text := [0xC3, 0xA9, BACKSLASH, DOT];
    var p := s[..3];
    assert p[..2] == [0xC3, 0xA9];
    assert TrailingBackslashes(p[..2]) == 0 && TrailingBackslashes(p) == 1;
    assert EvenRuneBeforeEscapes(s);
    ParityIsLeftToRight(s);
    IsFqdnExact(s);
    var s2: Text := [0xC3, 0xA9, BACKSLASH, BACKSLASH, DOT];
    var q := s2[..4];
    assert q[..3] == p;
    assert TrailingBackslashes(q) == 2 && q[..2] == [0xC3, 0xA9];
    assert EvenRuneBeforeEscapes(s2);
    ParityIsLeftToRight(s2);
    IsFqdnExact(s2);
  }

  /** Text printed by the unpacker is always fully qualified, whatever octets it was printed from. */
  lemma {:induction false} NameTextIsFqdn(ls: seq<Label>)
    ensures FullyQualified(NameText(ls))
  {
    if ls == [] {
      assert AfterDot([DOT]) == [];
    } else {
      TextOfReads(ls);
      TextOfAscii(ls);
      IsFqdnOnAscii(TextOf(ls));
    }
  }

  lemma {:induction false} EscapeLabelAscii(l: Label)
    ensures Ascii(EscapeLabel(l))
  {
    if l != [] {
      EscapeLabelAscii(l[1..]);
    }
  }

  lemma {:induction false} TextOfAscii(ls: seq<Label>)
    ensures Ascii(TextOf(ls))
  {
    if ls != [] {
      EscapeLabelAscii(ls[0]);
      TextOfAscii(ls[1..]);
    }
  }

  // ----- runes -----

  /** The UTF-8 encoding of a code point (section 3 of RFC 3629). */
  function Utf8(c: nat): (o: Text)
    requires c < 0x11_0000
  {
    if c < 0x80 then [c]
    else if c < 0x800 then [0xC0 + c / 0x40, 0x80 + c % 0x40]
    else if c < 0x1_0000 then [0xE0 + c / 0x1000, 0x80 + c / 0x40 % 0x40, 0x80 + c % 0x40]
    else [0xF0 + c / 0x4_0000, 0x80 + c / 0x1000 % 0x40, 0x80 + c / 0x40 % 0x40, 0x80 + c % 0x40]
  }

  /** A code point that is not one half of a surrogate pair. */
  predicate IsScalar(c: nat) {
    c < 0xD800 || 0xE000 <= c < 0x11_0000
  }

  predicate EndsIn(p: Text, o: Text) {
    |o| <= |p| && p[|p| - |o|..] == o
  }

  /** A text that ends in a character has that character for its last rune. */
  lemma {:induction false} RuneIs(p: Text, c: nat)
    requires IsScalar(c) && EndsIn(p, Utf8(c))
    ensures p != [] && LastRuneWidth(p) == |Utf8(c)|
  {
    var o := Utf8(c);
    assert forall i :: 0 <= i < |o| ==> p[|p| - |o| + i] == o[i];
  }

  /** A last rune of more than one byte is a character. */
  lemma {:induction false} RuneFound(p: Text) returns (c: nat)
    requires p != [] && LastRuneWidth(p) > 1
    ensures IsScalar(c) && c >= 0x80 && EndsIn(p, Utf8(c))
  {
    var n := |p|;
    if LastRuneWidth(p) == 2 {
      c := Rune2(p[n - 2], p[n - 1]);
      assert p[n - 2..] == [p[n - 2], p[n - 1]];
    } else if LastRuneWidth(p) == 3 {
      c := Rune3(p[n - 3], p[n - 2], p[n - 1]);
      assert p[n - 3..] == [p[n - 3], p[n - 2], p[n - 1]];
    } else {
      c := Rune4(p[n - 4], p[n - 3], p[n - 2], p[n - 1]);
      assert p[n - 4..] == [p[n - 4], p[n - 3], p[n - 2], p[n - 1]];
    }
  }

  lemma Rune2(a: byte, b: byte) returns (c: nat)
    requires EndsInRune2([a, b])
    ensures IsScalar(c) && c >= 0x80 && Utf8(c) == [a, b]
  {
    c := Digits(a as int - 0xC0, b as int - 0x80);
  }

  lemma Rune3(a: byte, b: byte, d: byte) returns (c: nat)
    requires EndsInRune3([a, b, d])
    ensures IsScalar(c) && c >= 0x80 && Utf8(c) == [a, b, d]
  {
    var hi := Digits(a as int - 0xE0, b as int - 0x80);
    c := Digits(hi, d as int - 0x80);
    assert c / 0x1000 == hi / 0x40;
  }

  lemma Rune4(a: byte, b: byte, d: byte, e: byte) returns (c: nat)
    requires EndsInRune4([a, b, d, e])
    ensures IsScalar(c) && c >= 0x80 && Utf8(c) == [a, b, d, e]
  {
    var hi := Digits(a as int - 0xF0, b as int - 0x80);
    var mid := Digits(hi, d as int - 0x80);
    c := Digits(mid, e as int - 0x80);
    assert c / 0x1000 == mid / 0x40 && c / 0x4_0000 == hi / 0x40;
  }

  /** Six more bits. */
  lemma Digits(hi: nat, lo: nat) returns (c: nat)
    requires lo < 0x40
    ensures c == hi * 0x40 + lo && c / 0x40 == hi && c % 0x40 == lo
  {
    c := hi * 0x40 + lo;
  }
}
