/** Which text names and SVCB values are printed as, character by character. */
module Spelling {
  import opened Octets
  import opened Presentation
  import opened Svcb

  /** Characters with a meaning in a zone file, and the dot and the space. */
  const SPECIAL := ". '@;()\"\\"

  /**
   * `t` spells octet `b`: a special character behind a backslash, another printable character alone,
   * and any other octet as a backslash and its value in three decimal digits.
   */
  predicate Spells(t: Text, b: byte) {
    SpellsBut(SPECIAL, t, b)
  }

  predicate SpellsBut(special: string, t: Text, b: byte) {
    if b as char in special then t == ['\\' as int, b]
    else if ' ' as int <= b <= '~' as int then t == [b]
    else
      && |t| == 4 && t[0] == '\\' as int
      && (forall i :: 1 <= i < 4 ==> '0' as int <= t[i] <= '9' as int)
      && (t[1] - '0' as int) * 100 + (t[2] - '0' as int) * 10 + (t[3] - '0' as int) == b
  }

  /** `t` spells the octets of a label one behind the other. */
  ghost predicate SpellsLabel(t: Text, l: Label) {
    if l == [] then t == []
    else exists n :: 0 <= n <= |t| && Spells(t[..n], l[0]) && SpellsLabel(t[n..], l[1..])
  }

  /** Every label and a dot behind it. */
  ghost predicate SpellsLabels(t: Text, ls: seq<Label>) {
    if ls == [] then t == []
    else
      exists n ::
        0 <= n < |t| && SpellsLabel(t[..n], ls[0]) && t[n] == '.' as int && SpellsLabels(t[n + 1..], ls[1..])
  }

  /** The root is a lone dot. */
  ghost predicate SpellsName(t: Text, ls: seq<Label>) {
    if ls == [] then t == ['.' as int] else SpellsLabels(t, ls)
  }

  lemma {:induction false} OctetSpelling(t: Text, b: byte)
    ensures Spells(t, b) <==> t == EscapeOctet(b)
  {
    SpecialSet(b);
    ByteSpelling(t, b);
  }

  /** The three-digit form. */
  lemma {:induction false} ByteSpelling(t: Text, b: byte)
    ensures t == EscapeByte(b) <==>
            && |t| == 4 && t[0] == '\\' as int
            && (forall i :: 1 <= i < 4 ==> '0' as int <= t[i] <= '9' as int)
            && (t[1] - '0' as int) * 100 + (t[2] - '0' as int) * 10 + (t[3] - '0' as int) == b
  {
    var d := EscapeByte(b);
    assert (d[1] - 48) * 100 + (d[2] - 48) * 10 + (d[3] - 48) == b;
    if |t| == 4 && forall i :: 1 <= i < 4 ==> '0' as int <= t[i] <= '9' as int {
      var x: int, y: int, z: int := t[1] - 48, t[2] - 48, t[3] - 48;
      if x * 100 + y * 10 + z == b {
        SameDigits(x, y, z, b);
        assert t == [t[0], t[1], t[2], t[3]];
      }
    }
  }

  lemma SpecialSet(b: byte)
    ensures b as char in SPECIAL <==> IsSpecial(b)
  {
    var c := b as char;
    assert c in SPECIAL <==> (c == SPECIAL[0] || c == SPECIAL[1] || c == SPECIAL[2] || c == SPECIAL[3]
                              || c == SPECIAL[4] || c == SPECIAL[5] || c == SPECIAL[6] || c == SPECIAL[7]
                              || c == SPECIAL[8]);
  }

  lemma SameDigits(x: int, y: int, z: int, b: int)
    requires 0 <= x <= 9 && 0 <= y <= 9 && 0 <= z <= 9 && x * 100 + y * 10 + z == b
    ensures x == b / 100 && y == b / 10 % 10 && z == b % 10
  {
  }

  lemma {:induction false} LabelSpelling(t: Text, l: Label)
    ensures SpellsLabel(t, l) <==> t == EscapeLabel(l)
    decreases |l|
  {
    hide Spells, EscapeOctet;
    if l != [] {
      var e := EscapeOctet(l[0]);
      OctetSpelling(e, l[0]);
      LabelSpelling(EscapeLabel(l[1..]), l[1..]);
      if t == EscapeLabel(l) {
        assert t[..|e|] == e && t[|e|..] == EscapeLabel(l[1..]);
      }
      if n :| 0 <= n <= |t| && Spells(t[..n], l[0]) && SpellsLabel(t[n..], l[1..]) {
        OctetSpelling(t[..n], l[0]);
        LabelSpelling(t[n..], l[1..]);
        assert t == t[..n] + t[n..];
      }
    }
  }

  lemma {:induction false} LabelsSpelled(ls: seq<Label>)
    ensures SpellsLabels(TextOf(ls), ls)
  {
    hide SpellsLabel, EscapeLabel;
    if ls != [] {
      var t, e := TextOf(ls), EscapeLabel(ls[0]);
      LabelSpelling(e, ls[0]);
      LabelsSpelled(ls[1..]);
      assert t[..|e|] == e && t[|e|] == DOT && t[|e| + 1..] == TextOf(ls[1..]);
    }
  }

  lemma {:induction false} OnlySpelling(t: Text, ls: seq<Label>)
    requires SpellsLabels(t, ls)
    ensures t == TextOf(ls)
    decreases |ls|
  {
    hide SpellsLabels, SpellsLabel, EscapeLabel;
    if ls == [] {
      NothingSpelled(t);
    } else {
      var n := FirstSpelled(t, ls);
      LabelSpelling(t[..n], ls[0]);
      OnlySpelling(t[n + 1..], ls[1..]);
      assert t == t[..n] + [t[n]] + t[n + 1..];
    }
  }

  lemma NothingSpelled(t: Text)
    requires SpellsLabels(t, [])
    ensures t == []
  {
  }

  lemma FirstSpelled(t: Text, ls: seq<Label>) returns (n: nat)
    requires ls != [] && SpellsLabels(t, ls)
    ensures n < |t| && SpellsLabel(t[..n], ls[0]) && t[n] == '.' as int && SpellsLabels(t[n + 1..], ls[1..])
  {
    hide SpellsLabel;
    n :| 0 <= n < |t| && SpellsLabel(t[..n], ls[0]) && t[n] == '.' as int && SpellsLabels(t[n + 1..], ls[1..]);
  }

  /** The printed text of a name is the one text that spells it. */
  lemma {:induction false} NameSpelling(t: Text, ls: seq<Label>)
    ensures SpellsName(t, ls) <==> t == NameText(ls)
  {
    hide SpellsLabels, TextOf;
    LabelsSpelled(ls);
    if SpellsLabels(t, ls) {
      OnlySpelling(t, ls);
    }
  }

  // ----- reading -----

  /** Three digits stand for their value, taken modulo 256: `\300` is the octet 44. */
  lemma {:induction false} DigitsRead(v: nat, rest: Text)
    requires v < 1000
    ensures var t := ['\\' as int, 48 + v / 100, 48 + v / 10 % 10, 48 + v % 10] + rest;
            UnitLen(t) == 4 && UnitOctet(t) == v % 256
  {
    var t: Text := ['\\' as int, 48 + v / 100, 48 + v / 10 % 10, 48 + v % 10] + rest;
    assert t[1] == 48 + v / 100 && t[2] == 48 + v / 10 % 10 && t[3] == 48 + v % 10;
    assert v / 100 * 100 + v / 10 % 10 * 10 + v % 10 == v;
  }

  /** Any other character behind a backslash stands for itself, and so does a backslash at the very end. */
  lemma {:induction false} EscapeRead(b: byte, rest: Text)
    requires |rest| < 2 || !(forall i :: 0 <= i < 3 ==> '0' as int <= ([b] + rest)[i] <= '9' as int)
    ensures UnitLen(['\\' as int, b] + rest) == 2 && UnitOctet(['\\' as int, b] + rest) == b
    ensures UnitLen(['\\' as int]) == 1 && UnitOctet(['\\' as int]) == '\\' as int
  {
    var t: Text := ['\\' as int, b] + rest;
    assert t[1] == ([b] + rest)[0] && (|rest| >= 2 ==> t[2] == ([b] + rest)[1] && t[3] == ([b] + rest)[2]);
  }

  // ----- SVCB values -----

  /** An octet of a plain parameter, with a backslash before quotes, semicolons, spaces and backslashes. */
  lemma {:induction false} ParamSpelling(t: Text, b: byte)
    ensures SpellsBut("\"; \\", t, b) <==> t == ParamByte(b)
  {
    var s, c := "\"; \\", b as char;
    assert c in s <==> (c == s[0] || c == s[1] || c == s[2] || c == s[3]);
    ByteSpelling(t, b);
  }

  /** An octet of an ALPN id: comma and backslash twice escaped, quotes, semicolons and spaces once. */
  lemma {:induction false} AlpnSpelling(t: Text, b: byte)
    ensures t == AlpnByte(b) <==>
            if b as char == ',' then t == Codes("\\\\\\044")
            else if b as char == '\\' then t == Codes("\\\\\\092")
            else SpellsBut("\"; ", t, b)
  {
    var s, c := "\"; ", b as char;
    assert c in s <==> (c == s[0] || c == s[1] || c == s[2]);
    ByteSpelling(t, b);
    assert Codes("\\\\\\044") == [92, 92, 92, 48, 52, 52] && Codes("\\\\\\092") == [92, 92, 92, 48, 57, 50];
  }

  /** The bytes of an ASCII string. */
  function Codes(s: string): (t: seq<int>)
    ensures |t| == |s|
  {
    seq(|s|, i requires 0 <= i < |s| => s[i] as int)
  }

  /** The text of a parameter is that of its octets in order; a list has its ids between commas. */
  lemma {:induction false} TextsInOrder(s: seq<byte>, e: byte, ids: seq<seq<byte>>, id: seq<byte>)
    ensures ParamText([]) == [] && ParamText(s + [e]) == ParamText(s) + ParamByte(e)
    ensures AlpnId([]) == [] && AlpnId(s + [e]) == AlpnId(s) + AlpnByte(e)
    ensures AlpnText([]) == [] && AlpnText([id]) == AlpnId(id)
    ensures ids != [] ==> AlpnText(ids + [id]) == AlpnText(ids) + Codes(",") + AlpnId(id)
  {
    hide ParamByte, AlpnByte;
    assert (s + [e])[..|s|] == s && (ids + [id])[..|ids|] == ids && [id][..0] == [];
    assert Codes(",") == [44];
  }
}
