/**
 * Presentation text of domain names: escapes, and how a text splits into labels.
 *
 * The functions here read a text from left to right and are the reference that the
 * index-moving loops of the packer, the length simulator and the label walks are
 * proved against. They work on suffixes of a text, because a suffix is also what
 * the compression map is keyed by.
 */
module Presentation {
  import opened Octets

  /** The octets of one label on the wire. */
  type Label = seq<byte>

  predicate IsDigit(b: byte) {
    48 <= b <= 57
  }

  /** Three digits at offset `i`. */
  predicate IsDDD(s: Text, i: nat) {
    i + 3 <= |s| && IsDigit(s[i]) && IsDigit(s[i + 1]) && IsDigit(s[i + 2])
  }

  /** The octet written by three digits; byte arithmetic wraps. */
  function DddToByte(s: Text, i: nat): byte
    requires IsDDD(s, i)
  {
    ((s[i] as int - 48) * 100 + (s[i + 1] as int - 48) * 10 + (s[i + 2] as int - 48)) % 256
  }

  /** Number of text bytes the unit at the head of `t` takes: an octet, `\X` or `\DDD`. */
  function UnitLen(t: Text): (n: nat)
    requires t != []
    ensures 1 <= n <= |t|
  {
    if t[0] != BACKSLASH then 1
    else if IsDDD(t, 1) then 4
    else if |t| >= 2 then 2
    else 1
  }

  /** The octet the unit at the head of `t` stands for. */
  function UnitOctet(t: Text): byte
    requires t != []
  {
    if t[0] != BACKSLASH then t[0]
    else if IsDDD(t, 1) then DddToByte(t, 1)
    else if |t| >= 2 then t[1]
    else BACKSLASH
  }

  /** Offset of the first unescaped dot of `t`, or `|t|` when there is none. */
  function FirstDot(t: Text): (d: nat)
    ensures d <= |t|
    ensures d < |t| ==> t[d] == DOT
  {
    if t == [] || t[0] == DOT then 0
    else UnitLen(t) + FirstDot(t[UnitLen(t)..])
  }

  /** The octets written before the first unescaped dot of `t`. */
  function FirstLabel(t: Text): (l: Label)
    ensures |l| <= FirstDot(t)
    ensures FirstDot(t) > 0 ==> |l| > 0
  {
    if t == [] || t[0] == DOT then []
    else [UnitOctet(t)] + FirstLabel(t[UnitLen(t)..])
  }

  /** Everything after the first unescaped dot. */
  function AfterDot(t: Text): (r: Text)
    requires t != []
    ensures |r| < |t|
  {
    if FirstDot(t) == |t| then [] else t[FirstDot(t) + 1..]
  }

  /** The labels a text spells, from left to right. */
  function Labels(t: Text): (ls: seq<Label>)
    ensures |ls| <= |t|
    decreases |t|
  {
    if t == [] then [] else [FirstLabel(t)] + Labels(AfterDot(t))
  }

  /** Every label of `t` is closed by an unescaped dot. */
  predicate EndsInDot(t: Text)
    decreases |t|
  {
    t == [] || (FirstDot(t) < |t| && EndsInDot(AfterDot(t)))
  }

  /** A label that fits the wire format (section 3.1 of RFC 1035). */
  predicate GoodLabel(l: Label) {
    1 <= |l| <= 63
  }

  predicate GoodLabels(ls: seq<Label>) {
    forall i :: 0 <= i < |ls| ==> GoodLabel(ls[i])
  }

  /** A non-root name all of whose labels fit the wire format. */
  predicate GoodName(t: Text) {
    t != [] && EndsInDot(t) && GoodLabels(Labels(t))
  }

  /** Octets a list of labels takes on the wire without compression, root octet included. */
  function WireLen(ls: seq<Label>): (n: nat)
    ensures n >= 1 + |ls|
  {
    if ls == [] then 1 else 1 + |ls[0]| + WireLen(ls[1..])
  }

  /** The uncompressed wire form of a list of labels. */
  function Wire(ls: seq<Label>): (o: seq<byte>)
    requires GoodLabels(ls)
    ensures |o| == WireLen(ls)
  {
    if ls == [] then [0] else [|ls[0]|] + ls[0] + Wire(ls[1..])
  }

  // ----- printing -----

  /** Octets that are printed with a backslash in front. */
  predicate IsSpecial(b: byte) {
    b == 46 || b == 32 || b == 39 || b == 64 || b == 59 || b == 40 || b == 41 || b == 34 || b == 92
  }

  /** The `\DDD` form of an octet. */
  function EscapeByte(b: byte): (t: Text)
    ensures |t| == 4
  {
    [BACKSLASH, 48 + b / 100, 48 + b / 10 % 10, 48 + b % 10]
  }

  function EscapeOctet(b: byte): (t: Text)
    ensures 1 <= |t| <= 4
  {
    if IsSpecial(b) then [BACKSLASH, b]
    else if b < 32 || b > 126 then EscapeByte(b)
    else [b]
  }

  function EscapeLabel(l: Label): (t: Text)
    ensures |l| <= |t| <= 4 * |l|
  {
    if l == [] then [] else EscapeOctet(l[0]) + EscapeLabel(l[1..])
  }

  /** The text of a list of labels, each closed by a dot. */
  function TextOf(ls: seq<Label>): (t: Text)
    ensures t == [] <==> ls == []
  {
    if ls == [] then [] else EscapeLabel(ls[0]) + [DOT] + TextOf(ls[1..])
  }

  /** The printed name: the root is a lone dot. */
  function NameText(ls: seq<Label>): (t: Text)
    ensures t != []
  {
    if ls == [] then [DOT] else TextOf(ls)
  }

  /** The labels of a printed name; the lone dot has none. */
  function NameLabels(s: Text): seq<Label> {
    if s == [DOT] then [] else Labels(s)
  }

  /** The same name with every escape in the form the unpacker prints. */
  function Normal(s: Text): Text {
    NameText(NameLabels(s))
  }

  // ----- printing and reading are inverse -----

  lemma {:induction false} EscapeOctetReads(b: byte, r: Text)
    ensures var t := EscapeOctet(b) + r;
            t[0] != DOT && UnitLen(t) == |EscapeOctet(b)| && UnitOctet(t) == b && t[UnitLen(t)..] == r
  {
    var t := EscapeOctet(b) + r;
    if !IsSpecial(b) && (b < 32 || b > 126) {
      assert t[1] == 48 + b / 100 && t[2] == 48 + b / 10 % 10 && t[3] == 48 + b % 10;
      assert b / 100 * 100 + b / 10 % 10 * 10 + b % 10 == b;
    } else if IsSpecial(b) {
      assert t[1] == b;
    }
  }

  lemma DotInFront(t: Text)
    requires t == [] || t[0] == DOT
    ensures FirstDot(t) == 0 && FirstLabel(t) == []
  {
  }

  lemma {:induction false} EscapeLabelReads(l: Label, r: Text)
    requires r == [] || r[0] == DOT
    ensures FirstDot(EscapeLabel(l) + r) == |EscapeLabel(l)|
    ensures FirstLabel(EscapeLabel(l) + r) == l
  {
    hide FirstDot, FirstLabel, EscapeOctet, UnitLen, UnitOctet;
    if l == [] {
      assert EscapeLabel(l) + r == r;
      DotInFront(r);
    } else {
      var rest := EscapeLabel(l[1..]) + r;
      assert EscapeLabel(l) + r == EscapeOctet(l[0]) + rest;
      EscapeOctetReads(l[0], rest);
      UnitStep(EscapeLabel(l) + r);
      EscapeLabelReads(l[1..], r);
    }
  }

  /** Reading back a printed list of labels returns it, whatever octets the labels hold. */
  lemma {:induction false} TextOfReads(ls: seq<Label>)
    ensures Labels(TextOf(ls)) == ls
    ensures EndsInDot(TextOf(ls))
  {
    if ls != [] {
      var t, r := TextOf(ls), TextOf(ls[1..]);
      assert t == EscapeLabel(ls[0]) + ([DOT] + r);
      EscapeLabelReads(ls[0], [DOT] + r);
      assert AfterDot(t) == r;
      TextOfReads(ls[1..]);
    }
  }

  lemma {:induction false} NameTextReads(ls: seq<Label>)
    requires GoodLabels(ls)
    ensures NameLabels(NameText(ls)) == ls
    ensures ls != [] ==> GoodName(NameText(ls))
  {
    TextOfReads(ls);
    if ls != [] && TextOf(ls) == [DOT] {
      assert false;
    }
  }

  // ----- small facts used throughout -----

  lemma NoLabels()
    ensures Labels([]) == [] && FirstDot([]) == 0
  {
  }

  lemma {:induction false} LabelsUnfold(t: Text)
    requires t != []
    ensures Labels(t) == [FirstLabel(t)] + Labels(AfterDot(t))
    ensures Labels(t)[0] == FirstLabel(t) && Labels(t)[1..] == Labels(AfterDot(t))
  {
  }

  lemma {:induction false} GoodLabelsUnfold(t: Text)
    requires t != []
    ensures GoodLabels(Labels(t)) <==> GoodLabel(FirstLabel(t)) && GoodLabels(Labels(AfterDot(t)))
  {
    var ls, r := Labels(t), Labels(AfterDot(t));
    LabelsUnfold(t);
    assert ls[0] == FirstLabel(t);
    assert forall i :: 0 <= i < |r| ==> r[i] == ls[i + 1];
  }

  lemma {:induction false} WireUnfold(t: Text)
    requires t != []
    ensures WireLen(Labels(t)) == 1 + |FirstLabel(t)| + WireLen(Labels(AfterDot(t)))
    ensures GoodLabels(Labels(t)) ==>
              && GoodLabel(FirstLabel(t)) && GoodLabels(Labels(AfterDot(t)))
              && Wire(Labels(t)) == [|FirstLabel(t)|] + FirstLabel(t) + Wire(Labels(AfterDot(t)))
  {
    LabelsUnfold(t);
    GoodLabelsUnfold(t);
  }

  lemma WireOfNothing()
    ensures WireLen([]) == 1 && GoodLabels([]) && Wire([]) == [0]
  {
  }

  /** One unit of a label is read. */
  lemma {:induction false} UnitStep(t: Text)
    requires t != [] && t[0] != DOT
    ensures FirstDot(t) == UnitLen(t) + FirstDot(t[UnitLen(t)..])
    ensures FirstLabel(t) == [UnitOctet(t)] + FirstLabel(t[UnitLen(t)..])
  {
  }

  lemma PlainUnit(s: Text, i: nat)
    requires i < |s| && s[i] != BACKSLASH
    ensures UnitLen(s[i..]) == 1 && UnitOctet(s[i..]) == s[i]
  {
  }

  lemma AtFirstDot(t: Text)
    requires t != [] && t[0] == DOT
    ensures UnitLen(t) == 1 && FirstDot(t) == 0 && AfterDot(t) == t[1..]
  {
  }

  lemma {:induction false} AfterDotUnit(t: Text, n: nat)
    requires t != [] && t[0] != DOT && FirstDot(t) < |t| && n == UnitLen(t)
    ensures var u := t[n..]; FirstDot(u) < |u| && AfterDot(u) == AfterDot(t)
  {
    hide FirstDot, UnitLen;
    UnitStep(t);
    var u := t[n..];
    var d := FirstDot(u);
    assert u[d + 1..] == t[n + d + 1..];
  }
}
