/** The `$GENERATE` reader, which runs a template once per value of a range. */
module Generate {
  import opened Octets
  import opened Wrappers

  const MAX_INT64 := 0x7FFF_FFFF_FFFF_FFFF
  const DOLLAR: byte := 36
  const BRACE: byte := 123
  const CLOSE: byte := 125
  const NEWLINE: byte := 10

  /** Two's-complement 64-bit wrap-around. */
  function Wrap(x: int): (r: int)
    ensures -MAX_INT64 - 1 <= r <= MAX_INT64
  {
    (x + MAX_INT64 + 1) % (2 * (MAX_INT64 + 1)) - (MAX_INT64 + 1)
  }

  /** Printing a number under a format: never empty, so a first byte and the rest. */
  type Printer = (Text, int) -> (byte, Text)

  /** A modifier block: format and offset, or nothing when it is malformed. */
  type Modifier = Text -> Option<(Text, int)>

  datatype Template = Template(s: Text, start: int, end: int, step: int, print_: Printer, modifier: Modifier)

  const PLAIN: Text := [37, 100]

  /** The range check of `generate`. */
  predicate Accepted(start: int, end: int, step: int) {
    step > 0 && !(end < 0 || start < 0 || end < start || (end - start) / step > 65535)
  }

  predicate GoodTemplate(t: Template) {
    Accepted(t.start, t.end, t.step) && t.end <= MAX_INT64 && t.step <= MAX_INT64
  }

  /** Position of the first closing brace. */
  function CloseAt(s: Text): (i: int)
    ensures -1 <= i < |s|
  {
    if s == [] then -1 else if s[0] == CLOSE then 0
    else if CloseAt(s[1..]) < 0 then -1 else 1 + CloseAt(s[1..])
  }

  // ----- one run of the template -----

  /** What stands at one position: nothing to print, something to print, or an error. */
  datatype Piece = Skip(next: nat, escape: bool) | Emit(first: byte, more: Text, next: nat) | Bad

  function Printed(t: Template, format: Text, v: int, next: nat): Piece {
    var (b, more) := t.print_(format, v);
    Emit(b, more, next)
  }

  function DollarAt(t: Template, si: nat, cur: int): Piece
    requires si < |t.s|
  {
    if si >= |t.s| - 1 then Printed(t, PLAIN, cur, si + 1)
    else if t.s[si + 1] == DOLLAR then Emit(DOLLAR, [], si + 2)
    else if t.s[si + 1] != BRACE then Printed(t, PLAIN, cur, si + 1)
    else
      var sep := CloseAt(t.s[si + 2..]);
      if sep < 0 then Bad
      else match t.modifier(t.s[si + 2..si + 2 + sep])
        case None => Bad
        case Some((format, offset)) =>
          if Wrap(t.start + offset) < 0 || Wrap(t.end + offset) > 0x7FFF_FFFF then Bad
          else Printed(t, format, Wrap(cur + offset), si + 3 + sep)
  }

  function PieceAt(t: Template, si: nat, cur: int, escape: bool): (p: Piece)
    requires si < |t.s|
    ensures !p.Bad? ==> si < p.next <= |t.s|
  {
    var c := t.s[si];
    if c == BACKSLASH then
      if escape then Emit(BACKSLASH, [], si + 1) else Skip(si + 1, true)
    else if c == DOLLAR then
      if escape then Emit(DOLLAR, [], si + 1) else DollarAt(t, si, cur)
    else if escape then Skip(si + 1, false)
    else Emit(c, [], si + 1)
  }

  /** Text of a run from position `si` on, and the escape flag it leaves for the next run. */
  datatype Line = Line(text: Text, escape: bool, failed: bool)

  function LineFrom(t: Template, si: nat, cur: int, escape: bool): (l: Line)
    ensures !l.failed ==> l.text != []
    decreases |t.s| - si
  {
    if si >= |t.s| then Line([NEWLINE], escape, false)
    else match PieceAt(t, si, cur, escape)
      case Bad => Line([], escape, true)
      case Skip(next, e) => LineFrom(t, next, cur, e)
      case Emit(b, more, next) =>
        var l := LineFrom(t, next, cur, false);
        l.(text := [b] + more + l.text)
  }

  // ----- all runs -----

  /** Everything still to be read, and whether it ends in an error. */
  datatype Output = Output(text: Text, failed: bool)

  function Follow(a: Text, o: Output): Output {
    Output(a + o.text, o.failed)
  }

  /** What follows the run for `cur`: the counter wraps, and a negative value ends the reader too. */
  function After(t: Template, cur: int, escape: bool): Output
    requires GoodTemplate(t) && 0 <= cur <= t.end
    decreases t.end - cur
  {
    var next := Wrap(cur + t.step);
    if next > t.end || next < 0 then Output([], false)
    else
      WrapAbove(cur + t.step);
      var l := LineFrom(t, 0, next, escape);
      if l.failed then Output(l.text, true) else Follow(l.text, After(t, next, l.escape))
  }

  /** A sum of a 64-bit value and a non-negative one is itself, or comes out negative. */
  lemma WrapAbove(x: int)
    requires -MAX_INT64 - 1 <= x <= 2 * MAX_INT64
    ensures Wrap(x) == if x <= MAX_INT64 then x else x - 2 * (MAX_INT64 + 1)
  {
  }

  class Reader {
    const t: Template
    var si: nat
    var cur: int
    var mod: Text
    var escape: bool
    var eof: bool

    ghost predicate Valid()
      reads this
    {
      GoodTemplate(t) && si <= |t.s| && (!eof ==> 0 <= cur <= t.end)
    }

    ghost function Remaining(): Output
      reads this
      requires Valid()
    {
      if eof then Output([], false)
      else
        var l := LineFrom(t, si, cur, escape);
        Follow(mod, if l.failed then Output(l.text, true) else Follow(l.text, After(t, cur, l.escape)))
    }

    constructor (t0: Template)
      requires GoodTemplate(t0)
      ensures Valid() && !eof && t == t0 && Remaining() == Total(t0, 0, Runs(t0), false)
    {
      t := t0;
      si, cur, mod, escape, eof := 0, t0.start, [], false, false;
      new;
      TotalUnfold(t0);
    }

    /** One byte of what remains, an error where that ends in one, and from then on the end of the input. */
    method ReadByte() returns (b: byte, status: Status)
      requires Valid()
      modifies this
      ensures Valid()
      ensures old(eof) ==> status == EOF && eof
      ensures !old(eof) ==>
                if old(Remaining()) == Output([], true) then status == Err && eof
                else status == Ok && old(Remaining()) == Follow([b], Remaining())
      decreases |t.s| - si
    {
      hide After, PieceAt, Wrap;
      if eof {
        return 0, EOF;
      }
      if mod != [] {
        b, status := mod[0], Ok;
        assert mod == [mod[0]] + mod[1..];
        mod := mod[1..];
        return;
      }
      if si >= |t.s| {
        var before := cur;
        si := 0;
        cur := Wrap(cur + t.step);
        eof := cur > t.end || cur < 0;
        AfterUnfold(t, before, escape);
        return NEWLINE, Ok;
      }
      match PieceAt(t, si, cur, escape)
      case Bad =>
        eof := true;
        return 0, Err;
      case Skip(next, e) =>
        si, escape := next, e;
        b, status := ReadByte();
      case Emit(first, more, next) =>
        EmitSplits(first, more, LineFrom(t, next, cur, false).text);
        si, mod, escape := next, more, false;
        b, status := first, Ok;
    }
  }

  datatype Status = Ok | EOF | Err

  lemma EmitSplits(b: byte, more: Text, text: Text)
    ensures [b] + more + text == [b] + (more + text)
  {
  }

  lemma {:induction false} AfterUnfold(t: Template, cur: int, escape: bool)
    requires GoodTemplate(t) && 0 <= cur <= t.end
    ensures var next := Wrap(cur + t.step);
            After(t, cur, escape) ==
            if next > t.end || next < 0 then Output([], false)
            else
              var l := LineFrom(t, 0, next, escape);
              if l.failed then Output(l.text, true) else Follow(l.text, After(t, next, l.escape))
  {
  }

  // ----- the number of runs -----

  function Runs(t: Template): nat
    requires GoodTemplate(t)
  {
    (t.end - t.start) / t.step + 1
  }

  /** Runs `k` to `n`, run number `k` with the value `start + k * step`, up to the first error. */
  function Total(t: Template, k: nat, n: nat, escape: bool): Output
    decreases n - k
  {
    if k >= n then Output([], false)
    else
      var l := LineFrom(t, 0, t.start + k * t.step, escape);
      if l.failed then Output(l.text, true) else Follow(l.text, Total(t, k + 1, n, l.escape))
  }

  lemma {:induction false} RunValues(t: Template, k: nat)
    requires GoodTemplate(t)
    ensures 1 <= Runs(t) <= 65536
    ensures t.start + k * t.step <= t.end <==> k < Runs(t)
  {
    var d, m := t.end - t.start, t.step;
    var q := d / m;
    Quotient(d, m);
    if k <= q {
      Scale(k, q, m);
    } else {
      Scale(q + 1, k, m);
    }
  }

  lemma Quotient(d: nat, m: nat)
    requires m > 0
    ensures d / m * m <= d < (d / m + 1) * m
  {
  }

  lemma Scale(a: nat, b: nat, m: nat)
    requires a <= b
    ensures a * m <= b * m
  {
  }

  /** After the run for `start + k * step` come exactly the runs that are left, even where the counter wraps. */
  lemma {:induction false} AfterIsTotal(t: Template, k: nat, escape: bool)
    requires GoodTemplate(t) && k < Runs(t)
    ensures 0 <= t.start + k * t.step <= t.end
    ensures After(t, t.start + k * t.step, escape) == Total(t, k + 1, Runs(t), escape)
    decreases Runs(t) - k
  {
    hide Wrap, LineFrom;
    var cur := t.start + k * t.step;
    RunValues(t, k);
    RunValues(t, k + 1);
    assert k * t.step >= 0;
    assert cur + t.step == t.start + (k + 1) * t.step;
    AfterUnfold(t, cur, escape);
    WrapAbove(cur + t.step);
    if k + 1 < Runs(t) {
      var l := LineFrom(t, 0, cur + t.step, escape);
      if !l.failed {
        AfterIsTotal(t, k + 1, l.escape);
      }
    }
  }

  /** A fresh reader has all runs before it. */
  lemma {:induction false} TotalUnfold(t: Template)
    requires GoodTemplate(t)
    ensures var l := LineFrom(t, 0, t.start, false);
            Total(t, 0, Runs(t), false) ==
                Follow([], if l.failed then Output(l.text, true) else Follow(l.text, After(t, t.start, l.escape)))
  {
    hide LineFrom;
    RunValues(t, 0);
    var l := LineFrom(t, 0, t.start, false);
    assert t.start + 0 * t.step == t.start;
    AfterIsTotal(t, 0, l.escape);
    var o := Total(t, 0, Runs(t), false);
    assert [] + o.text == o.text;
  }

  // ----- run by run -----

  /** The escape flag run `k` starts with: an unfinished escape carries over from the run before. */
  function FlagAt(t: Template, k: nat): bool {
    if k == 0 then false else LineFrom(t, 0, t.start + (k - 1) * t.step, FlagAt(t, k - 1)).escape
  }

  /** Run number `k`, with the value `start + k * step`. */
  function RunAt(t: Template, k: nat): Line {
    LineFrom(t, 0, t.start + k * t.step, FlagAt(t, k))
  }

  /** The texts of the first `n` runs, one behind the other. */
  function FirstRuns(t: Template, n: nat): Text {
    if n == 0 then [] else FirstRuns(t, n - 1) + RunAt(t, n - 1).text
  }

  /** Whether a run fails, and the flag it leaves, do not depend on the value. */
  lemma {:induction false} ValueDoesNotMatter(t: Template, si: nat, v: int, w: int, e: bool)
    ensures LineFrom(t, si, v, e).failed == LineFrom(t, si, w, e).failed
    ensures LineFrom(t, si, v, e).escape == LineFrom(t, si, w, e).escape
    decreases |t.s| - si
  {
    if si < |t.s| {
      SamePiece(t, si, v, w, e);
      hide PieceAt;
      match PieceAt(t, si, v, e)
      case Bad =>
      case Skip(next, e') => ValueDoesNotMatter(t, next, v, w, e');
      case Emit(_, _, next) => ValueDoesNotMatter(t, next, v, w, false);
    }
  }

  lemma {:induction false} SamePiece(t: Template, si: nat, v: int, w: int, e: bool)
    requires si < |t.s|
    ensures match (PieceAt(t, si, v, e), PieceAt(t, si, w, e))
            case (Bad, Bad) => true
            case (Skip(a, f), Skip(b, g)) => a == b && f == g
            case (Emit(_, _, a), Emit(_, _, b)) => a == b
            case _ => false
  {
    hide Wrap, CloseAt;
  }

  /** A template that gets through its first run and, if there is one, its second. */
  predicate ErrorFree(t: Template)
    requires GoodTemplate(t)
  {
    !RunAt(t, 0).failed && (Runs(t) > 1 ==> !RunAt(t, 1).failed)
  }

  lemma {:induction false} FlagStaysDown(t: Template, k: nat)
    requires !FlagAt(t, 1) && k > 0
    ensures !FlagAt(t, k)
  {
    hide LineFrom;
    if k > 1 {
      FlagStaysDown(t, k - 1);
      ValueDoesNotMatter(t, 0, t.start, t.start + (k - 1) * t.step, false);
      assert FlagAt(t, 1) == LineFrom(t, 0, t.start + 0 * t.step, FlagAt(t, 0)).escape;
    }
  }

  /** Two runs show what every run will do. */
  lemma {:induction false} EveryRun(t: Template, k: nat)
    requires GoodTemplate(t) && ErrorFree(t) && k < Runs(t)
    ensures !RunAt(t, k).failed
  {
    hide LineFrom;
    if k > 1 {
      if !FlagAt(t, 1) {
        FlagStaysDown(t, k);
      }
      var first := if FlagAt(t, k) then 1 else 0;
      assert FlagAt(t, first) == FlagAt(t, k);
      ValueDoesNotMatter(t, 0, t.start + first * t.step, t.start + k * t.step, FlagAt(t, k));
    }
  }

  /** What is left at run `k` when no run fails. */
  lemma {:induction false} TotalFrom(t: Template, k: nat, n: nat)
    requires k <= n && forall j :: k <= j < n ==> !RunAt(t, j).failed
    ensures FirstRuns(t, n) == FirstRuns(t, k) + Total(t, k, n, FlagAt(t, k)).text
    ensures !Total(t, k, n, FlagAt(t, k)).failed
    decreases n - k
  {
    hide LineFrom;
    if k < n {
      var l := RunAt(t, k);
      TotalFrom(t, k + 1, n);
      assert FlagAt(t, k + 1) == l.escape;
      var rest := Total(t, k + 1, n, l.escape).text;
      assert (FirstRuns(t, k) + l.text) + rest == FirstRuns(t, k) + (l.text + rest);
    } else {
      assert FirstRuns(t, n) + [] == FirstRuns(t, n);
    }
  }

  lemma {:induction false} TotalFails(t: Template, k: nat, n: nat)
    requires k < n && RunAt(t, k).failed
    ensures Total(t, k, n, FlagAt(t, k)).failed
  {
  }

  /**
   * What a fresh reader holds: the texts of exactly `(end - start) / step + 1` runs, at most 65536,
   * when the first two runs get through; an error otherwise.
   */
  lemma {:induction false} RunsExactly(t: Template)
    requires GoodTemplate(t)
    ensures 1 <= Runs(t) <= 65536
    ensures if ErrorFree(t) then Total(t, 0, Runs(t), false) == Output(FirstRuns(t, Runs(t)), false)
            else Total(t, 0, Runs(t), false).failed
  {
    hide LineFrom;
    RunValues(t, 0);
    var n := Runs(t);
    if ErrorFree(t) {
      forall j | 0 <= j < n ensures !RunAt(t, j).failed {
        EveryRun(t, j);
      }
      TotalFrom(t, 0, n);
      assert [] + Total(t, 0, n, false).text == Total(t, 0, n, false).text;
    } else if RunAt(t, 0).failed {
      TotalFails(t, 0, n);
    } else {
      TotalFails(t, 1, n);
      assert FlagAt(t, 1) == RunAt(t, 0).escape;
    }
  }

  // ----- reading to the end -----

  /** Bytes are read until the reader reports the end or an error, as the zone lexer does. */
  method Drain(r: Reader) returns (out: Text, status: Status)
    requires r.Valid() && !r.eof
    modifies r
    ensures r.Valid() && r.eof
    ensures out == old(r.Remaining()).text && status == if old(r.Remaining()).failed then Err else EOF
  {
    out := [];
    ghost var all := r.Remaining();
    status := Ok;
    assert [] + all.text == all.text;
    while status == Ok
      invariant r.Valid() && r.eof == (status != Ok || r.Remaining() == Output([], false))
      invariant status == Ok ==> all == Follow(out, r.Remaining())
      invariant status == EOF ==> all == Output(out, false)
      invariant status == Err ==> all == Output(out, true)
      decreases status == Ok, |r.Remaining().text|
    {
      ghost var before := r.Remaining();
      var b;
      b, status := r.ReadByte();
      if status == Ok {
        ghost var rest := r.Remaining().text;
        assert out + ([b] + rest) == out + [b] + rest;
        out := out + [b];
      } else {
        assert out + [] == out;
      }
    }
  }

  /**
   * A `$GENERATE` directive read to its end: the template is run exactly `(end - start) / step + 1`
   * times with the values `start + k * step`, and then the end of the input is reported.
   */
  method Generated(t: Template) returns (out: Text, status: Status)
    requires GoodTemplate(t)
    ensures if ErrorFree(t) then status == EOF && out == FirstRuns(t, Runs(t)) else status == Err
  {
    var r := new Reader(t);
    RunsExactly(t);
    RunValues(t, 0);
    hide LineFrom, After, Total;
    assert !r.eof;
    out, status := Drain(r);
  }
}
