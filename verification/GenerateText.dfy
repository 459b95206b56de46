/** What one run of a `$GENERATE` template prints, item by item. */
module GenerateText {
  import opened Octets
  import opened Wrappers
  import opened Generate

  /**
   * What a template is made of: octets, octets behind a backslash, doubled dollars, dollars that stand
   * for the value, and dollars with a modifier block.
   */
  datatype Item = Plain(b: byte) | Escaped(b: byte) | Dollars | Value | Block(s: Text, format: Text, offset: int)

  /** How an item is written. */
  function Source(i: Item): (t: Text)
    ensures t != []
  {
    match i
    case Plain(b) => [b]
    case Escaped(b) => ['\\' as int, b]
    case Dollars => ['$' as int, '$' as int]
    case Value => ['$' as int]
    case Block(s, _, _) => ['$' as int, '{' as int] + s + ['}' as int]
  }

  /** The item is what stands in front of `rest`. */
  predicate Fits(t: Template, i: Item, rest: Text) {
    match i
    case Plain(b) => b != '\\' as int && b != '$' as int
    case Escaped(_) => true
    case Dollars => true
    case Value => rest == [] || (rest[0] != '$' as int && rest[0] != '{' as int)
    case Block(s, format, offset) =>
      && '}' as int !in s && t.modifier(s) == Some((format, offset))
      && Wrap(t.start + offset) >= 0 && Wrap(t.end + offset) <= 0x7FFF_FFFF
  }

  /** The items that `text` is made of; `open` says that a lone backslash is left at its end. */
  ghost predicate MadeOf(t: Template, text: Text, items: seq<Item>, open: bool) {
    if items == [] then text == if open then ['\\' as int] else []
    else
      && Source(items[0]) <= text
      && var rest := text[|Source(items[0])|..];
         Fits(t, items[0], rest) && MadeOf(t, rest, items[1..], open)
  }

  function Number(t: Template, format: Text, v: int): Text {
    var (b, more) := t.print_(format, v);
    [b] + more
  }

  /** What an item prints in the run with value `v`. */
  function Prints(t: Template, i: Item, v: int): Text {
    match i
    case Plain(b) => [b]
    case Escaped(b) => if b == '\\' as int || b == '$' as int then [b] else []
    case Dollars => ['$' as int]
    case Value => Number(t, ['%' as int, 'd' as int], v)
    case Block(_, format, offset) => Number(t, format, Wrap(v + offset))
  }

  function PrintsAll(t: Template, items: seq<Item>, v: int): Text {
    if items == [] then [] else Prints(t, items[0], v) + PrintsAll(t, items[1..], v)
  }

  /** What is left of the template, with the backslash that the flag stands for in front. */
  function Left(t: Template, si: nat, e: bool): Text
    requires si <= |t.s|
  {
    (if e then ['\\' as int] else []) + t.s[si..]
  }

  // ----- one step of the reader -----

  lemma {:induction false} CloseIs(s: Text, i: nat)
    requires i < |s| && s[i] == CLOSE && CLOSE !in s[..i]
    ensures CloseAt(s) == i
  {
    if i > 0 {
      assert s[..i][0] == s[0] && s[..i] == [s[0]] + s[1..][..i - 1];
      CloseIs(s[1..], i - 1);
    }
  }

  lemma {:induction false} CloseFound(s: Text)
    ensures var i := CloseAt(s); i >= 0 ==> s[i] == CLOSE && CLOSE !in s[..i]
  {
    if s != [] && s[0] != CLOSE {
      CloseFound(s[1..]);
      var i := CloseAt(s[1..]);
      if i >= 0 {
        assert s[..i + 1] == [s[0]] + s[1..][..i];
      }
    }
  }

  /** A template without a closing brace from `si` on has no block there. */
  lemma {:induction false} NoClose(s: Text)
    ensures CloseAt(s) < 0 ==> CLOSE !in s
  {
    if s != [] && CloseAt(s) < 0 {
      NoClose(s[1..]);
      assert s == [s[0]] + s[1..];
    }
  }

  /** The item at `si`, if one stands there, is what the reader makes of it. */
  lemma {:induction false} ItemRead(t: Template, si: nat, v: int, i: Item)
    requires si <= |t.s| && Source(i) <= t.s[si..] && !i.Escaped? && Fits(t, i, t.s[si + |Source(i)|..])
    ensures si < |t.s|
    ensures var p := PieceAt(t, si, v, false);
            p.Emit? && [p.first] + p.more == Prints(t, i, v) && p.next == si + |Source(i)|
  {
    hide Wrap;
    var u, n := t.s[si..], |Source(i)|;
    assert forall j :: 0 <= j < n ==> u[j] == t.s[si + j] == Source(i)[j];
    assert PLAIN == ['%' as int, 'd' as int];
    match i
    case Plain(b) =>
    case Dollars =>
    case Value =>
      assert si + 1 < |t.s| ==> t.s[si + 1..][0] == t.s[si + 1];
    case Block(s, format, offset) =>
      var w := t.s[si + 2..];
      assert w[..|s|] == s && w[|s|] == CLOSE by {
        assert forall j :: 0 <= j < |s| ==> w[j] == Source(i)[j + 2] == s[j];
        assert Source(i)[|s| + 2] == CLOSE;
      }
      CloseIs(w, |s|);
      assert t.s[si + 2..si + 2 + |s|] == s;
  }

  /** An octet behind a backslash. */
  lemma EscapedRead(t: Template, si: nat, v: int)
    requires si < |t.s|
    ensures PieceAt(t, si, v, true) ==
            if t.s[si] == '\\' as int || t.s[si] == '$' as int then Emit(t.s[si], [], si + 1) else Skip(si + 1, false)
  {
  }

  lemma OpenRead(t: Template, si: nat, v: int)
    requires si < |t.s| && t.s[si] == '\\' as int
    ensures PieceAt(t, si, v, false) == Skip(si + 1, true)
  {
  }

  lemma LineStep(t: Template, si: nat, v: int, e: bool)
    ensures LineFrom(t, si, v, e) ==
            if si >= |t.s| then Line(['\n' as int], e, false)
            else match PieceAt(t, si, v, e)
              case Bad => Line([], e, true)
              case Skip(next, f) => LineFrom(t, next, v, f)
              case Emit(b, more, next) =>
                var l := LineFrom(t, next, v, false);
                l.(text := [b] + more + l.text)
  {
    hide PieceAt;
  }

  lemma MadeFront(t: Template, text: Text, items: seq<Item>, open: bool)
    requires items != [] && MadeOf(t, text, items, open)
    ensures Source(items[0]) <= text && text != [] && Source(items[0])[0] == text[0]
    ensures var rest := text[|Source(items[0])|..]; Fits(t, items[0], rest) && MadeOf(t, rest, items[1..], open)
  {
    hide Fits, Source;
  }

  lemma MadeCons(t: Template, text: Text, i: Item, items: seq<Item>, open: bool)
    requires Source(i) <= text && Fits(t, i, text[|Source(i)|..]) && MadeOf(t, text[|Source(i)|..], items, open)
    ensures MadeOf(t, text, [i] + items, open)
  {
    hide Fits, Source;
    assert ([i] + items)[1..] == items;
  }

  lemma MadeNothing(t: Template, text: Text, open: bool)
    ensures MadeOf(t, text, [], open) <==> text == if open then ['\\' as int] else []
  {
  }

  /** Behind a flag or a backslash an octet is left, behind that the rest. */
  lemma LeftIs(t: Template, si: nat)
    requires si < |t.s|
    ensures Left(t, si, true) == ['\\' as int, t.s[si]] + Left(t, si + 1, false)
    ensures Left(t, si, true)[2..] == Left(t, si + 1, false)
    ensures t.s[si] == '\\' as int ==> Left(t, si + 1, true) == Left(t, si, false)
    ensures Left(t, si, false) == t.s[si..] && Left(t, si, false)[0] == t.s[si]
  {
  }

  lemma LeftBehind(t: Template, si: nat, n: nat)
    requires si + n <= |t.s|
    ensures Left(t, si, false)[n..] == Left(t, si + n, false) == t.s[si + n..]
  {
  }

  // ----- what a run prints -----

  /**
   * A template made of items prints them one after the other, and a newline behind them; a backslash
   * left open goes over to the next run.
   */
  lemma {:induction false} RunPrints(t: Template, si: nat, e: bool, items: seq<Item>, open: bool, v: int)
    requires si <= |t.s| && MadeOf(t, Left(t, si, e), items, open)
    ensures LineFrom(t, si, v, e) == Line(PrintsAll(t, items, v) + ['\n' as int], open, false)
    decreases |t.s| - si
  {
    hide LineFrom, PieceAt, Prints, Fits, MadeOf, Left, Source;
    LineStep(t, si, v, e);
    if si == |t.s| {
      AtTheEnd(t, e, items, open);
    } else {
      LeftIs(t, si);
      if e {
        BehindBackslash(t, si, items, open);
        EscapedRead(t, si, v);
        RunPrints(t, si + 1, false, items[1..], open, v);
        EscapedPrints(t, items, v);
      } else if t.s[si] == '\\' as int {
        OpenRead(t, si, v);
        RunPrints(t, si + 1, true, items, open, v);
      } else {
        NotBackslash(t, si, items, open);
        var i, n := items[0], |Source(items[0])|;
        LeftBehind(t, si, n);
        ItemRead(t, si, v, i);
        RunPrints(t, si + n, false, items[1..], open, v);
        assert Prints(t, i, v) + (PrintsAll(t, items[1..], v) + ['\n' as int])
            == (Prints(t, i, v) + PrintsAll(t, items[1..], v)) + ['\n' as int];
      }
    }
  }

  lemma {:induction false} AtTheEnd(t: Template, e: bool, items: seq<Item>, open: bool)
    requires MadeOf(t, Left(t, |t.s|, e), items, open)
    ensures items == [] && open == e
  {
    hide MadeOf, Source;
    if items == [] {
      MadeNothing(t, Left(t, |t.s|, e), open);
    } else {
      MadeFront(t, Left(t, |t.s|, e), items, open);
      SourceFront(items[0]);
    }
  }

  /** Only an escaped octet begins with a backslash, and takes two octets. */
  lemma SourceFront(i: Item)
    ensures i.Escaped? ==> Source(i)[0] == '\\' as int && |Source(i)| == 2
    ensures !i.Escaped? ==> Source(i)[0] == if i.Plain? then i.b else '$' as int
  {
  }

  /** With the flag up, the first item is an escaped octet. */
  lemma {:induction false} BehindBackslash(t: Template, si: nat, items: seq<Item>, open: bool)
    requires si < |t.s| && MadeOf(t, Left(t, si, true), items, open)
    ensures items != [] && items[0] == Escaped(t.s[si]) && MadeOf(t, Left(t, si + 1, false), items[1..], open)
  {
    hide MadeOf, Left;
    LeftIs(t, si);
    if items == [] {
      MadeNothing(t, Left(t, si, true), open);
    } else {
      MadeFront(t, Left(t, si, true), items, open);
      SourceFront(items[0]);
      assert Left(t, si, true)[0] == Source(items[0])[0];
      assert Left(t, si, true)[1] == Source(items[0])[1];
    }
  }

  /** Elsewhere it is another one. */
  lemma {:induction false} NotBackslash(t: Template, si: nat, items: seq<Item>, open: bool)
    requires si < |t.s| && t.s[si] != '\\' as int && MadeOf(t, Left(t, si, false), items, open)
    ensures items != [] && !items[0].Escaped? && Source(items[0]) <= t.s[si..]
    ensures var n := |Source(items[0])|;
            && si + n <= |t.s| && Fits(t, items[0], t.s[si + n..])
            && MadeOf(t, Left(t, si + n, false), items[1..], open)
  {
    hide MadeOf, Left, Fits;
    LeftIs(t, si);
    if items == [] {
      MadeNothing(t, Left(t, si, false), open);
    } else {
      MadeFront(t, Left(t, si, false), items, open);
      SourceFront(items[0]);
      assert Left(t, si, false)[0] == Source(items[0])[0];
      LeftBehind(t, si, |Source(items[0])|);
    }
  }

  lemma {:induction false} EscapedPrints(t: Template, items: seq<Item>, v: int)
    requires items != [] && items[0].Escaped?
    ensures var b := items[0].b;
            PrintsAll(t, items, v) ==
            (if b == '\\' as int || b == '$' as int then [b] else []) + PrintsAll(t, items[1..], v)
  {
  }

  /** The other way round: a run without an error has a template made of items. */
  lemma {:induction false} RunReads(t: Template, si: nat, e: bool, v: int) returns (items: seq<Item>, open: bool)
    requires si <= |t.s| && !LineFrom(t, si, v, e).failed
    ensures MadeOf(t, Left(t, si, e), items, open)
    decreases |t.s| - si
  {
    hide LineFrom, PieceAt, MadeOf, Left, Fits, Source;
    LineStep(t, si, v, e);
    if si == |t.s| {
      items, open := [], e;
      MadeNothing(t, Left(t, si, e), open);
      NothingLeft(t, e);
    } else {
      LeftIs(t, si);
      if e {
        EscapedRead(t, si, v);
        items, open := RunReads(t, si + 1, false, v);
        EscapedFits(t, t.s[si], Left(t, si + 1, false));
        MadeCons(t, Left(t, si, true), Escaped(t.s[si]), items, open);
        items := [Escaped(t.s[si])] + items;
      } else if t.s[si] == '\\' as int {
        OpenRead(t, si, v);
        items, open := RunReads(t, si + 1, true, v);
      } else {
        var i := ItemFound(t, si, v);
        LeftBehind(t, si, |Source(i)|);
        items, open := RunReads(t, si + |Source(i)|, false, v);
        MadeCons(t, Left(t, si, false), i, items, open);
        items := [i] + items;
      }
    }
  }

  lemma NothingLeft(t: Template, e: bool)
    ensures Left(t, |t.s|, e) == if e then ['\\' as int] else []
  {
  }

  lemma EscapedFits(t: Template, b: byte, rest: Text)
    ensures Source(Escaped(b)) == ['\\' as int, b] && Fits(t, Escaped(b), rest)
  {
  }

  /** What the reader makes of a template that does not stand at a backslash. */
  lemma {:induction false} ItemFound(t: Template, si: nat, v: int) returns (i: Item)
    requires si < |t.s| && t.s[si] != '\\' as int && !PieceAt(t, si, v, false).Bad?
    ensures Source(i) <= t.s[si..] && Fits(t, i, t.s[si + |Source(i)|..])
    ensures PieceAt(t, si, v, false).Emit? && PieceAt(t, si, v, false).next == si + |Source(i)|
  {
    hide Wrap, CloseAt;
    var rest := t.s[si + 1..];
    if t.s[si] != '$' as int {
      i := Plain(t.s[si]);
    } else if si + 1 == |t.s| || (rest[0] != '$' as int && rest[0] != '{' as int) {
      i := Value;
    } else if rest[0] == '$' as int {
      i := Dollars;
    } else {
      i := BlockFound(t, si, v);
    }
  }

  lemma {:induction false} BlockFound(t: Template, si: nat, v: int) returns (i: Item)
    requires si + 1 < |t.s| && t.s[si] == '$' as int && t.s[si + 1] == '{' as int && !DollarAt(t, si, v).Bad?
    ensures Source(i) <= t.s[si..] && Fits(t, i, t.s[si + |Source(i)|..])
    ensures DollarAt(t, si, v).Emit? && DollarAt(t, si, v).next == si + |Source(i)|
  {
    hide Wrap, CloseAt;
    var w := t.s[si + 2..];
    CloseFound(w);
    var sep := CloseAt(w);
    var s := t.s[si + 2..si + 2 + sep];
    var m := t.modifier(s).value;
    i := Block(s, m.0, m.1);
    assert w[..sep] == s;
    assert t.s[si..][..sep + 3] == Source(i);
  }

  /** The text can be read as items. */
  ghost predicate Readable(t: Template, text: Text) {
    exists items, open :: MadeOf(t, text, items, open)
  }

  /** A run gets through exactly when the template, behind the flag, is made of items. */
  lemma {:induction false} RunSucceeds(t: Template, e: bool, v: int)
    ensures !LineFrom(t, 0, v, e).failed <==> Readable(t, Left(t, 0, e))
  {
    hide LineFrom, MadeOf, Left;
    if !LineFrom(t, 0, v, e).failed {
      var items, open := RunReads(t, 0, e, v);
    }
    if items, open :| MadeOf(t, Left(t, 0, e), items, open) {
      RunPrints(t, 0, e, items, open, v);
    }
  }

  /** Run `k` prints the items of the template with the value `start + k * step`, or is an error. */
  lemma {:induction false} RunText(t: Template, k: nat)
    ensures !RunAt(t, k).failed <==> Readable(t, Left(t, 0, FlagAt(t, k)))
    ensures forall items, open :: MadeOf(t, Left(t, 0, FlagAt(t, k)), items, open) ==>
              RunAt(t, k) == Line(PrintsAll(t, items, t.start + k * t.step) + ['\n' as int], open, false)
  {
    hide LineFrom, MadeOf, FlagAt, Left, Readable;
    var e, v := FlagAt(t, k), t.start + k * t.step;
    forall items, open | MadeOf(t, Left(t, 0, e), items, open)
      ensures RunAt(t, k) == Line(PrintsAll(t, items, v) + ['\n' as int], open, false)
    {
      RunPrints(t, 0, e, items, open, v);
    }
    RunSucceeds(t, e, v);
  }

  /** A range is accepted exactly when it has at most 65536 values. */
  lemma {:induction false} RangeExactly(start: int, end: int, step: int)
    ensures Accepted(start, end, step) <==> step > 0 && 0 <= start <= end && start + 65536 * step > end
  {
    if step > 0 && start <= end {
      var q := (end - start) / step;
      Quotient(end - start, step);
      if q <= 65535 {
        Scale(q + 1, 65536, step);
      } else {
        Scale(65536, q, step);
      }
    }
  }

  // ----- the value of a block -----

  /**
   * A block prints the value plus its offset exactly when that sum is a 64-bit number. It can be
   * another: the check of the upper end wraps around too.
   */
  lemma {:induction false} BlockValue(t: Template, i: Item, rest: Text, k: nat)
    requires GoodTemplate(t) && k < Runs(t) && i.Block? && Fits(t, i, rest) && -MAX_INT64 - 1 <= i.offset <= MAX_INT64
    ensures var v := t.start + k * t.step;
            && (Prints(t, i, v) == Number(t, i.format, v + i.offset) || v + i.offset > MAX_INT64)
            && (Wrap(v + i.offset) == v + i.offset <==> v + i.offset <= MAX_INT64)
            && (t.end + i.offset <= MAX_INT64 ==> 0 <= v + i.offset <= 0x7FFF_FFFF)
  {
    var v := t.start + k * t.step;
    RunValues(t, k);
    assert k * t.step >= 0;
    OffsetInRange(t.start, t.end, v, i.offset);
    hide Wrap;
  }

  lemma OffsetInRange(start: int, end: int, v: int, offset: int)
    requires 0 <= start <= v <= end <= MAX_INT64 && -MAX_INT64 - 1 <= offset <= MAX_INT64
    requires Wrap(start + offset) >= 0 && Wrap(end + offset) <= 0x7FFF_FFFF
    ensures 0 <= v + offset
    ensures Wrap(v + offset) == v + offset <==> v + offset <= MAX_INT64
    ensures end + offset <= MAX_INT64 ==> v + offset <= 0x7FFF_FFFF
  {
    WrapAbove(start + offset);
    WrapAbove(end + offset);
    WrapAbove(v + offset);
    hide Wrap;
  }

  /** Start 0, end 1 and the largest offset pass the check, and the second value printed is negative. */
  lemma WrappedOffset()
    ensures Wrap(0 + 0x7FFF_FFFF_FFFF_FFFF) >= 0 && Wrap(1 + 0x7FFF_FFFF_FFFF_FFFF) <= 0x7FFF_FFFF
    ensures Wrap(1 + 0x7FFF_FFFF_FFFF_FFFF) == -0x8000_0000_0000_0000
  {
  }
}
