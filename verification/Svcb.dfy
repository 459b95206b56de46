/** Presentation of SVCB parameters, where a list value is escaped twice (appendix A.1 of RFC 9460). */
module Svcb {
  import opened Octets
  import opened Wrappers
  import opened Presentation

  const COMMA: byte := 44
  const SPACE: byte := 32
  const QUOTE: byte := 34
  const SEMICOLON: byte := 59

  /** `nextByte` at the head of `t`: an octet and the bytes it takes, zero of them for a dangling escape. */
  function NextByte(t: Text): (byte, nat) {
    if t == [] then (0, 0)
    else if t[0] != BACKSLASH then (t[0], 1)
    else if |t| == 1 then (0, 0)
    else if IsDDD(t, 1) then (DddToByte(t, 1), 4)
    else (t[1], 2)
  }

  lemma NextByteFits(t: Text)
    ensures NextByte(t).1 <= |t|
  {
  }

  predicate Printable(e: byte) {
    32 <= e <= 126
  }

  // ----- plain parameters -----

  function ParamByte(e: byte): (t: Text)
    ensures t != []
  {
    if !Printable(e) then EscapeByte(e)
    else if e in {QUOTE, SEMICOLON, SPACE, BACKSLASH} then [BACKSLASH, e]
    else [e]
  }

  /** `svcbParamToStr`. */
  function ParamText(s: seq<byte>): Text {
    if s == [] then [] else ParamText(s[..|s| - 1]) + ParamByte(s[|s| - 1])
  }

  method ParamToStr(s: seq<byte>) returns (str: Text)
    ensures str == ParamText(s)
  {
    str := [];
    for i := 0 to |s|
      invariant str == ParamText(s[..i])
    {
      var e := s[i];
      assert s[..i + 1][..i] == s[..i];
      if 32 <= e <= 126 {
        if e == QUOTE || e == SEMICOLON || e == SPACE || e == BACKSLASH {
          str := str + [BACKSLASH, e];
        } else {
          str := str + [e];
        }
      } else {
        str := str + EscapeByte(e);
      }
    }
    assert s[..|s|] == s;
  }

  /** The three digits as a number; unlike in names, more than 255 is an error. */
  function Number(t: Text, i: nat): nat
    requires IsDDD(t, i)
  {
    (t[i] as int - 48) * 100 + (t[i + 1] as int - 48) * 10 + (t[i + 2] as int - 48)
  }

  /** `svcbParseParam` from the head of `t`. */
  function ParseFrom(t: Text): Option<seq<byte>>
    decreases |t|
  {
    if t == [] then Some([])
    else
      var (c, n) :=
        if t[0] != BACKSLASH then (t[0], 1)
        else if |t| == 1 then (0, 0)
        else if !IsDigit(t[1]) then (t[1], 2)
        else if IsDDD(t, 1) && Number(t, 1) < 256 then (Number(t, 1), 4)
        else (0, 0);
      if n == 0 then None
      else Then(c, ParseFrom(t[n..]))
  }

  ghost predicate Parsing(b: Text, i: nat, data: seq<byte>) {
    && i <= |b|
    && match ParseFrom(b[i..])
       case None => ParseFrom(b).None?
       case Some(d) => ParseFrom(b) == Some(data + d)
  }

  lemma {:induction false} ParsingStep(b: Text, i: nat, data: seq<byte>, c: byte, n: nat)
    requires Parsing(b, i, data) && i < |b| && 0 < n <= |b| - i
    requires var rest := ParseFrom(b[i..][n..]);
             ParseFrom(b[i..]) == if rest.None? then None else Some([c] + rest.value)
    ensures Parsing(b, i + n, data + [c])
  {
    hide ParseFrom;
    assert b[i..][n..] == b[i + n..];
    var rest := ParseFrom(b[i + n..]);
    assert rest.Some? ==> data + ([c] + rest.value) == data + [c] + rest.value;
  }

  method ParseParam(b: Text) returns (data: seq<byte>, ok: bool)
    ensures match ParseFrom(b)
            case Some(d) => ok && data == d
            case None => !ok
  {
    hide ParseFrom;
    data, ok := [], true;
    var i: nat := 0;
    assert b[0..] == b && (ParseFrom(b).Some? ==> [] + ParseFrom(b).value == ParseFrom(b).value);
    while i < |b|
      invariant Parsing(b, i, data)
    {
      ParseUnfold(b, i);
      if b[i] != BACKSLASH {
        ParsingStep(b, i, data, b[i], 1);
        data := data + [b[i]];
        i := i + 1;
        continue;
      }
      if i + 1 == |b| {
        return [], false;
      }
      if IsDigit(b[i + 1]) {
        if IsDDD(b, i + 1) && Number(b, i + 1) < 256 {
          ParsingStep(b, i, data, Number(b, i + 1), 4);
          data := data + [Number(b, i + 1)];
          i := i + 4;
          continue;
        }
        return [], false;
      } else {
        ParsingStep(b, i, data, b[i + 1], 2);
        data := data + [b[i + 1]];
        i := i + 2;
      }
    }
    ParseNothing(b);
    assert data + [] == data;
  }

  lemma ParseNothing(b: Text)
    ensures ParseFrom(b[|b|..]) == Some([])
  {
  }

  /** One round of the loop, with positions in the whole text. */
  lemma {:induction false} ParseUnfold(b: Text, i: nat)
    requires i < |b|
    ensures var t := b[i..];
            if b[i] != BACKSLASH then ParseFrom(t) == Then(b[i], ParseFrom(t[1..]))
            else if i + 1 == |b| then ParseFrom(t).None?
            else if !IsDigit(b[i + 1]) then ParseFrom(t) == Then(b[i + 1], ParseFrom(t[2..]))
            else if IsDDD(b, i + 1) && Number(b, i + 1) < 256
                then ParseFrom(t) == Then(Number(b, i + 1), ParseFrom(t[4..]))
            else ParseFrom(t).None?
  {
    var t := b[i..];
    assert t[0] == b[i] && (i + 1 < |b| ==> t[1] == b[i + 1]);
    if i + 4 <= |b| {
      assert t[2] == b[i + 2] && t[3] == b[i + 3];
    }
  }

  function Then(c: byte, rest: Option<seq<byte>>): Option<seq<byte>> {
    match rest
    case None => None
    case Some(d) => Some([c] + d)
  }

  lemma {:induction false} ParamByteReads(e: byte, r: Text)
    ensures ParseFrom(ParamByte(e) + r) == match ParseFrom(r) case None => None case Some(d) => Some([e] + d)
  {
    var t := ParamByte(e) + r;
    assert t[|ParamByte(e)|..] == r;
    if !Printable(e) {
      EscapeNumber(e, t);
    }
  }

  lemma EscapeNumber(e: byte, t: Text)
    requires |t| >= 4 && t[..4] == EscapeByte(e)
    ensures IsDDD(t, 1) && Number(t, 1) == e && DddToByte(t, 1) == e
  {
    assert t[0] == t[..4][0] && t[1] == t[..4][1] && t[2] == t[..4][2] && t[3] == t[..4][3];
    assert e / 100 * 100 + e / 10 % 10 * 10 + e % 10 == e;
  }

  lemma {:induction false} ParamTextReads(s: seq<byte>, r: Text)
    ensures ParseFrom(ParamText(s) + r) == match ParseFrom(r) case None => None case Some(d) => Some(s + d)
    decreases |s|
  {
    hide ParamByte, ParseFrom;
    if s == [] {
      assert ParamText(s) + r == r;
      assert ParseFrom(r).Some? ==> [] + ParseFrom(r).value == ParseFrom(r).value;
    } else {
      var init, e := s[..|s| - 1], s[|s| - 1];
      assert ParamText(s) + r == ParamText(init) + (ParamByte(e) + r);
      ParamTextReads(init, ParamByte(e) + r);
      ParamByteReads(e, r);
      assert ParseFrom(r).Some? ==> init + ([e] + ParseFrom(r).value) == s + ParseFrom(r).value;
    }
  }

  /** Every byte string survives printing and parsing. */
  lemma {:induction false} ParamRoundTrip(s: seq<byte>)
    ensures ParseFrom(ParamText(s)) == Some(s)
  {
    ParamTextReads(s, []);
    assert ParamText(s) + [] == ParamText(s) && s + [] == s;
  }

  // ----- ALPN lists -----

  /** One octet of an id: comma and backslash are escaped for the list and again for the zone file. */
  function AlpnByte(e: byte): (t: Text)
    ensures t != []
  {
    if !Printable(e) then EscapeByte(e)
    else if e in {QUOTE, SEMICOLON, SPACE} then [BACKSLASH, e]
    else if e == COMMA then [BACKSLASH, BACKSLASH, BACKSLASH, 48, 52, 52]
    else if e == BACKSLASH then [BACKSLASH, BACKSLASH, BACKSLASH, 48, 57, 50]
    else [e]
  }

  function AlpnId(id: seq<byte>): Text {
    if id == [] then [] else AlpnId(id[..|id| - 1]) + AlpnByte(id[|id| - 1])
  }

  /** `SVCBAlpn.String`. */
  function AlpnText(ids: seq<seq<byte>>): Text {
    if ids == [] then []
    else AlpnText(ids[..|ids| - 1]) + (if |ids| > 1 then [COMMA] else []) + AlpnId(ids[|ids| - 1])
  }

  method AlpnString(ids: seq<seq<byte>>) returns (str: Text)
    ensures str == AlpnText(ids)
  {
    str := [];
    for i := 0 to |ids|
      invariant str == AlpnText(ids[..i])
    {
      assert ids[..i + 1][..i] == ids[..i];
      if i > 0 {
        str := str + [COMMA];
      }
      var id := AlpnIdString(ids[i]);
      str := str + id;
    }
    assert ids[..|ids|] == ids;
  }

  method AlpnIdString(alpn: seq<byte>) returns (str: Text)
    ensures str == AlpnId(alpn)
  {
    str := [];
    for j := 0 to |alpn|
      invariant str == AlpnId(alpn[..j])
    {
      var e := alpn[j];
      assert alpn[..j + 1][..j] == alpn[..j];
      if 32 > e || e > 126 {
        str := str + EscapeByte(e);
        continue;
      }
      if e == QUOTE || e == SEMICOLON || e == SPACE {
        str := str + [BACKSLASH, e];
      } else if e == COMMA {
        str := str + [BACKSLASH, BACKSLASH, BACKSLASH, 48, 52, 52];
      } else if e == BACKSLASH {
        str := str + [BACKSLASH, BACKSLASH, BACKSLASH, 48, 57, 50];
      } else {
        str := str + [e];
      }
    }
    assert alpn[..|alpn|] == alpn;
  }

  /** The loop of `SVCBAlpn.parse` from the head of `t`, with ids `alpn` read and `a` of the next. */
  function AlpnFrom(t: Text, alpn: seq<seq<byte>>, a: seq<byte>): Option<seq<seq<byte>>>
    decreases |t|
  {
    if t == [] then
      if a == [] then None else Some(alpn + [a])
    else
      var (c, q) := NextByte(t);
      if q == 0 then None
      else
        NextByteFits(t);
        if c == COMMA then
          if a == [] then None else AlpnFrom(t[q..], alpn + [a], [])
        else if c == BACKSLASH then
          var (dc, dq) := NextByte(t[q..]);
          if dq == 0 || (dc != BACKSLASH && dc != COMMA) then None
          else
            NextByteFits(t[q..]);
            AlpnFrom(t[q + dq..], alpn, a + [dc])
        else AlpnFrom(t[q..], alpn, a + [c])
  }

  function AlpnParsed(b: Text): Option<seq<seq<byte>>> {
    if b == [] then Some([]) else AlpnFrom(b, [], [])
  }

  lemma AlpnEnd(b: Text, alpn: seq<seq<byte>>, a: seq<byte>)
    ensures AlpnFrom(b[|b|..], alpn, a) == if a == [] then None else Some(alpn + [a])
  {
    assert b[|b|..] == [];
  }

  /** One round of the loop, with positions in the whole text. */
  lemma {:induction false} AlpnUnfold(b: Text, p: nat, alpn: seq<seq<byte>>, a: seq<byte>)
    requires p < |b|
    ensures var (c, q) := NextByte(b[p..]);
            p + q <= |b| &&
            var (dc, dq) := NextByte(b[p + q..]);
            && p + q + dq <= |b|
            && AlpnFrom(b[p..], alpn, a) ==
               if q == 0 then None
               else if c == COMMA then (if a == [] then None else AlpnFrom(b[p + q..], alpn + [a], []))
               else if c != BACKSLASH then AlpnFrom(b[p + q..], alpn, a + [c])
               else if dq == 0 || (dc != BACKSLASH && dc != COMMA) then None
               else AlpnFrom(b[p + q + dq..], alpn, a + [dc])
  {
    var t := b[p..];
    var q := NextByte(t).1;
    NextByteFits(t);
    assert t[q..] == b[p + q..];
    var dq := NextByte(t[q..]).1;
    NextByteFits(t[q..]);
    assert t[q + dq..] == b[p + q + dq..];
    hide NextByte;
  }

  method AlpnParse(b: Text) returns (ids: seq<seq<byte>>, ok: bool)
    ensures match AlpnParsed(b)
            case Some(l) => ok && ids == l
            case None => !ok
  {
    if b == [] {
      return [], true;
    }
    hide NextByte, AlpnFrom;
    var alpn: seq<seq<byte>>, a: seq<byte>, p: nat := [], [], 0;
    assert b[0..] == b;
    while p < |b|
      invariant p <= |b| && AlpnFrom(b, [], []) == AlpnFrom(b[p..], alpn, a)
    {
      var (c, q) := NextByte(b[p..]);
      NextByteFits(b[p..]);
      AlpnUnfold(b, p, alpn, a);
      if q == 0 {
        return [], false;
      }
      p := p + q;
      if c == COMMA {
        if a == [] {
          return [], false;
        }
        alpn := alpn + [a];
        a := [];
        continue;
      }
      if c == BACKSLASH {
        var (dc, dq) := NextByte(b[p..]);
        NextByteFits(b[p..]);
        if dq == 0 {
          return [], false;
        }
        if dc != BACKSLASH && dc != COMMA {
          return [], false;
        }
        p := p + dq;
        c := dc;
      }
      a := a + [c];
    }
    AlpnEnd(b, alpn, a);
    if a == [] {
      return [], false;
    }
    ids, ok := alpn + [a], true;
  }

  /** Both escape layers of one octet are undone together, whatever follows. */
  lemma {:induction false} AlpnByteReads(e: byte, r: Text, alpn: seq<seq<byte>>, a: seq<byte>)
    ensures AlpnFrom(AlpnByte(e) + r, alpn, a) == AlpnFrom(r, alpn, a + [e])
  {
    var t := AlpnByte(e) + r;
    assert t[|AlpnByte(e)|..] == r;
    if !Printable(e) {
      EscapeNumber(e, t);
      assert NextByte(t) == (e, 4);
    } else if e in {QUOTE, SEMICOLON, SPACE} {
      assert NextByte(t) == (e, 2);
    } else if e == COMMA || e == BACKSLASH {
      assert NextByte(t) == (BACKSLASH, 2);
      var u := t[2..];
      assert u[..4] == EscapeByte(e);
      EscapeNumber(e, u);
      assert NextByte(u) == (e, 4);
      assert t[2 + 4..] == r;
    }
  }

  lemma {:induction false} AlpnIdReads(id: seq<byte>, r: Text, alpn: seq<seq<byte>>, a: seq<byte>)
    ensures AlpnFrom(AlpnId(id) + r, alpn, a) == AlpnFrom(r, alpn, a + id)
    decreases |id|
  {
    hide AlpnFrom, AlpnByte;
    if id == [] {
      assert AlpnId(id) + r == r && a + id == a;
    } else {
      var init, e := id[..|id| - 1], id[|id| - 1];
      assert AlpnId(id) + r == AlpnId(init) + (AlpnByte(e) + r);
      AlpnIdReads(init, AlpnByte(e) + r, alpn, a);
      AlpnByteReads(e, r, alpn, a + init);
      assert a + init + [e] == a + id;
    }
  }

  predicate NonEmptyIds(ids: seq<seq<byte>>) {
    forall i :: 0 <= i < |ids| ==> ids[i] != []
  }

  /** All but the last id have been read when its first octet comes. */
  lemma {:induction false} AlpnTextReads(ids: seq<seq<byte>>, r: Text)
    requires ids != [] && NonEmptyIds(ids)
    ensures AlpnFrom(AlpnText(ids) + r, [], []) == AlpnFrom(r, ids[..|ids| - 1], ids[|ids| - 1])
    decreases |ids|
  {
    hide AlpnFrom, AlpnId;
    var init, id := ids[..|ids| - 1], ids[|ids| - 1];
    if |ids| == 1 {
      assert AlpnText(ids) + r == AlpnId(id) + r;
      AlpnIdReads(id, r, [], []);
      assert [] + id == id && init == [];
    } else {
      assert AlpnText(ids) + r == AlpnText(init) + ([COMMA] + (AlpnId(id) + r));
      AlpnTextReads(init, [COMMA] + (AlpnId(id) + r));
      CommaEnds(AlpnId(id) + r, init[..|init| - 1], init[|init| - 1]);
      assert init[..|init| - 1] + [init[|init| - 1]] == init;
      AlpnIdReads(id, r, init, []);
      assert [] + id == id;
    }
  }

  lemma CommaEnds(r: Text, alpn: seq<seq<byte>>, a: seq<byte>)
    requires a != []
    ensures AlpnFrom([COMMA] + r, alpn, a) == AlpnFrom(r, alpn + [a], [])
  {
    assert ([COMMA] + r)[1..] == r;
  }

  /** No list with an empty id is ever parsed. */
  lemma {:induction false} ParsedNonEmpty(t: Text, alpn: seq<seq<byte>>, a: seq<byte>)
    requires NonEmptyIds(alpn) && AlpnFrom(t, alpn, a).Some?
    ensures NonEmptyIds(AlpnFrom(t, alpn, a).value)
    decreases |t|
  {
    hide NextByte;
    if t != [] {
      var (c, q) := NextByte(t);
      NextByteFits(t);
      if c == COMMA {
        ParsedNonEmpty(t[q..], alpn + [a], []);
      } else if c == BACKSLASH {
        var (dc, dq) := NextByte(t[q..]);
        NextByteFits(t[q..]);
        ParsedNonEmpty(t[q + dq..], alpn, a + [dc]);
      } else {
        ParsedNonEmpty(t[q..], alpn, a + [c]);
      }
    }
  }

  /** A list survives printing and parsing, whatever octets its ids hold, exactly when no id is empty. */
  lemma {:induction false} AlpnRoundTrip(ids: seq<seq<byte>>)
    ensures AlpnParsed(AlpnText(ids)) == Some(ids) <==> NonEmptyIds(ids)
  {
    hide NextByte, AlpnId;
    var b := AlpnText(ids);
    if NonEmptyIds(ids) && ids != [] {
      AlpnTextReads(ids, []);
      assert b + [] == b && ids[..|ids| - 1] + [ids[|ids| - 1]] == ids;
      assert AlpnFrom([], ids[..|ids| - 1], ids[|ids| - 1]) == Some(ids);
      assert b != [] by {
        assert AlpnFrom([], [], []).None?;
      }
    } else if AlpnParsed(b) == Some(ids) && b != [] {
      ParsedNonEmpty(b, [], []);
    }
  }
}
