/** Unpacking domain names: following labels and pointers under a budget (section 4.1.4 of RFC 1035). */
module NameUnpack {
  import opened Octets
  import opened Wrappers
  import opened Presentation
  import opened Qualified
  import opened NamePack

  const MAX_WIRE_OCTETS := 255
  const MAX_POINTERS := 126

  datatype UnpackError = Short | LongDomain | TooManyPointers | ReservedLabel

  /** The labels found and the offset of whatever comes after the name, or an error. */
  datatype Unpacked = Name(labels: seq<Label>, next: nat) | Bad(error: UnpackError)

  /** Where a pointer whose two octets are at `off` leads. */
  function Target(msg: seq<byte>, off: nat): nat
    requires off + 1 < |msg| && msg[off] >= 192
  {
    (msg[off] as int - 192) * 256 + msg[off + 1]
  }

  /** Read labels and follow pointers from `off`, with `budget` octets left and `ptr` pointers behind. */
  function Follow(msg: seq<byte>, off: nat, budget: int, ptr: nat): (r: Unpacked)
    requires 0 < budget && ptr <= MAX_POINTERS
    ensures r.Name? ==> GoodLabels(r.labels) && WireLen(r.labels) <= budget
    ensures r.Name? ==> r.next <= |msg|
    decreases budget + MAX_POINTERS - ptr
  {
    if off >= |msg| then Bad(Short)
    else
      var c := msg[off] as int;
      if c == 0 then Name([], off + 1)
      else if c < 64 then
        if off + 1 + c > |msg| then Bad(Short)
        else if budget - (c + 1) <= 0 then Bad(LongDomain)
        else match Follow(msg, off + 1 + c, budget - (c + 1), ptr)
             case Name(ls, next) => Name([msg[off + 1..off + 1 + c]] + ls, next)
             case Bad(e) => Bad(e)
      else if c >= 192 then
        if off + 1 >= |msg| then Bad(Short)
        else if ptr + 1 > MAX_POINTERS then Bad(TooManyPointers)
        else match Follow(msg, Target(msg, off), budget, ptr + 1)
             case Name(ls, _) => Name(ls, off + 2)
             case Bad(e) => Bad(e)
      else Bad(ReservedLabel)
  }

  /** `UnpackDomainName` as a function. */
  function UnpackName(msg: seq<byte>, off: nat): Unpacked {
    Follow(msg, off, MAX_WIRE_OCTETS, 0)
  }

  // ----- the loop -----

  /** The result once `done` labels have been read, if reading goes on with result `rest`. */
  ghost function Continue(done: seq<Label>, ptr: nat, off1: nat, rest: Unpacked): Unpacked {
    match rest
    case Name(ls, next) => Name(done + ls, if ptr == 0 then next else off1)
    case Bad(e) => Bad(e)
  }

  lemma {:induction false} TextOfAppend(ls: seq<Label>, l: Label)
    ensures TextOf(ls + [l]) == TextOf(ls) + EscapeLabel(l) + [DOT]
  {
    if ls == [] {
      assert TextOf([l]) == EscapeLabel(l) + [DOT] + [];
      assert ls + [l] == [l];
    } else {
      assert (ls + [l])[1..] == ls[1..] + [l];
      TextOfAppend(ls[1..], l);
    }
  }

  lemma {:induction false} EscapeLabelAppend(l: Label, b: byte)
    ensures EscapeLabel(l + [b]) == EscapeLabel(l) + EscapeOctet(b)
  {
    if l == [] {
      assert l + [b] == [b];
      assert EscapeLabel([]) == [];
    } else {
      assert (l + [b])[1..] == l[1..] + [b];
      EscapeLabelAppend(l[1..], b);
    }
  }

  /** Append the octets of a label, escaped one by one, and a dot. */
  method AppendLabel(s: Text, l: Label) returns (r: Text)
    ensures r == s + EscapeLabel(l) + [DOT]
  {
    hide EscapeLabel, IsSpecial, EscapeByte;
    r := s;
    EscapeNothing();
    for i := 0 to |l|
      invariant r == s + EscapeLabel(l[..i])
    {
      var b := l[i];
      EscapeLabelAppend(l[..i], b);
      assert l[..i + 1] == l[..i] + [b];
      if IsSpecial(b) {
        r := r + [BACKSLASH, b];
      } else if b < 32 || b > 126 {
        r := r + EscapeByte(b);
      } else {
        r := r + [b];
      }
    }
    assert l[..|l|] == l;
    r := r + [DOT];
  }

  lemma EscapeNothing()
    ensures EscapeLabel([]) == []
  {
  }

  /**
   * `UnpackDomainName`. It is total: any buffer, cyclic and forward pointers included, ends the loop
   * after at most 127 labels and 126 pointers.
   */
  method UnpackDomainName(msg: seq<byte>, off0: nat)
    returns (s: Text, off1: nat, err: Option<UnpackError>, ghost labelSteps: nat, ghost pointerSteps: nat)
    ensures match UnpackName(msg, off0)
            case Name(ls, next) => err.None? && s == NameText(ls) && off1 == next
            case Bad(e) => err == Some(e) && s == [] && off1 == |msg|
    ensures labelSteps <= 127 && pointerSteps <= 126
  {
    hide TextOf, EscapeLabel, Follow, Target, GoodLabels, WireLen;
    s, off1, err := [], 0, None;
    labelSteps, pointerSteps := 0, 0;
    var off, budget, ptr := off0, MAX_WIRE_OCTETS, 0;
    ghost var done: seq<Label> := [];
    TextOfEmpty(done);
    ContinueNothing(Follow(msg, off, budget, ptr), off1);
    var reading := true;
    while reading
      invariant 0 <= off && 0 < budget && 0 <= ptr == pointerSteps <= MAX_POINTERS
      invariant budget + 2 * labelSteps <= MAX_WIRE_OCTETS
      invariant s == TextOf(done) && err.None?
      invariant reading ==> UnpackName(msg, off0) == Continue(done, ptr, off1, Follow(msg, off, budget, ptr))
      invariant !reading ==> UnpackName(msg, off0) == Continue(done, ptr, off1, Name([], off))
      decreases reading, budget + MAX_POINTERS - ptr
    {
      FollowUnfold(msg, off, budget, ptr);
      if off >= |msg| {
        return [], |msg|, Some(Short), labelSteps, pointerSteps;
      }
      var c := msg[off] as int;
      if c == 0 {
        off := off + 1;
        reading := false;
      } else if c < 64 {
        if off + 1 + c > |msg| {
          return [], |msg|, Some(Short), labelSteps, pointerSteps;
        }
        if budget - (c + 1) <= 0 {
          return [], |msg|, Some(LongDomain), labelSteps, pointerSteps;
        }
        var l := msg[off + 1..off + 1 + c];
        s := AppendLabel(s, l);
        TextOfAppend(done, l);
        ContinueLabel(done, l, ptr, off1, Follow(msg, off + 1 + c, budget - (c + 1), ptr));
        done := done + [l];
        budget := budget - (c + 1);
        labelSteps := labelSteps + 1;
        off := off + 1 + c;
      } else if c >= 192 {
        if off + 1 >= |msg| {
          return [], |msg|, Some(Short), labelSteps, pointerSteps;
        }
        if ptr == 0 {
          off1 := off + 2;
        }
        if ptr + 1 > MAX_POINTERS {
          return [], |msg|, Some(TooManyPointers), labelSteps, pointerSteps;
        }
        ptr := ptr + 1;
        pointerSteps := pointerSteps + 1;
        off := Target(msg, off);
      } else {
        return [], |msg|, Some(ReservedLabel), labelSteps, pointerSteps;
      }
    }
    assert done + [] == done;
    TextOfEmpty(done);
    if ptr == 0 {
      off1 := off;
    }
    if s == [] {
      s := [DOT];
    }
  }

  lemma TextOfEmpty(ls: seq<Label>)
    ensures ls == [] <==> TextOf(ls) == []
  {
  }

  lemma ContinueNothing(r: Unpacked, off1: nat)
    ensures Continue([], 0, off1, r) == r
  {
    if r.Name? {
      assert [] + r.labels == r.labels;
    }
  }

  /** One step of `Follow`, spelled out. */
  lemma {:induction false} FollowUnfold(msg: seq<byte>, off: nat, budget: int, ptr: nat)
    requires 0 < budget && ptr <= MAX_POINTERS
    ensures off >= |msg| ==> Follow(msg, off, budget, ptr) == Bad(Short)
    ensures off < |msg| ==>
              var r, c := Follow(msg, off, budget, ptr), msg[off] as int;
              && (c == 0 ==> r == Name([], off + 1))
              && (0 < c < 64 ==>
                    if off + 1 + c > |msg| then r == Bad(Short)
                    else if budget - (c + 1) <= 0 then r == Bad(LongDomain)
                    else match Follow(msg, off + 1 + c, budget - (c + 1), ptr)
                         case Name(ls, next) => r == Name([msg[off + 1..off + 1 + c]] + ls, next)
                         case Bad(e) => r == Bad(e))
              && (c >= 192 ==>
                    if off + 1 >= |msg| then r == Bad(Short)
                    else if ptr + 1 > MAX_POINTERS then r == Bad(TooManyPointers)
                    else match Follow(msg, Target(msg, off), budget, ptr + 1)
                         case Name(ls, _) => r == Name(ls, off + 2)
                         case Bad(e) => r == Bad(e))
              && (64 <= c < 192 ==> r == Bad(ReservedLabel))
  {
  }

  lemma ContinueLabel(done: seq<Label>, l: Label, ptr: nat, off1: nat, rest: Unpacked)
    ensures rest.Name? ==>
              Continue(done, ptr, off1, Name([l] + rest.labels, rest.next)) == Continue(done + [l], ptr, off1, rest)
  {
    if rest.Name? {
      assert done + ([l] + rest.labels) == (done + [l]) + rest.labels;
    }
  }

  // ----- what a successful unpack guarantees -----

  /** The text of labels that fit 255 octets has at most 1004 bytes. */
  lemma {:induction false} TextFits(ls: seq<Label>)
    requires GoodLabels(ls) && WireLen(ls) <= MAX_WIRE_OCTETS
    ensures |NameText(ls)| <= 1004
  {
    hide WireLen, TextOf;
    TextLength(ls);
  }

  /** Wire length and number of labels bound the length of the printed text. */
  lemma {:induction false} TextLength(ls: seq<Label>)
    requires GoodLabels(ls)
    ensures |TextOf(ls)| + 3 * |ls| <= 4 * (WireLen(ls) - 1)
    ensures WireLen(ls) - 1 <= 64 * |ls|
  {
    if ls != [] {
      assert GoodLabels(ls[1..]);
      assert GoodLabel(ls[0]);
      TextLength(ls[1..]);
    }
  }

  /** Packing plain: the labels one after the other, exactly when they fit. */
  lemma {:induction false} PackLabelsPlain(t: Text, off: nat, cap: nat, compress: bool)
    requires EndsInDot(t)
    ensures var r := PackLabels(t, off, cap, NoIndex, compress);
            if GoodLabels(Labels(t)) && off + WireLen(Labels(t)) <= cap
            then r == Packed(Wire(Labels(t)), NoIndex)
            else r.Failed?
    decreases |t|
  {
    hide FirstDot, FirstLabel, GoodLabels, PackLabels, HasEscape, Labels, Wire, WireLen;
    if t == [] {
      PackNoLabels(off, cap, NoIndex, compress);
      WireOfNothing();
    } else {
      var l, u := FirstLabel(t), AfterDot(t);
      PackLabelsUnfold(t, off, cap, NoIndex, compress);
      LabelsUnfold(t);
      GoodLabelsUnfold(t);
      PackLabelsPlain(u, off + 1 + |l|, cap, compress);
      WireUnfold(t);
    }
  }

  /**
   * Whatever buffer it came from, a name that unpacks has at most 127 labels and at most 1004 bytes
   * of text, the text is fully qualified, and packing it again without compression gives exactly
   * the expanded labels.
   */
  lemma {:induction false} UnpackThenPack(msg: seq<byte>, off: nat)
    requires UnpackName(msg, off).Name?
    ensures var ls := UnpackName(msg, off).labels;
            && |ls| <= 127 && |NameText(ls)| <= 1004
            && WireLen(ls) <= 255
            && PackName(NameText(ls), 0, 255, NoIndex, false) == Packed(Wire(ls), NoIndex)
  {
    var ls := UnpackName(msg, off).labels;
    TextLength(ls);
    WireLenBound(ls);
    NameTextReads(ls);
    NameTextIsFqdn(ls);
    if ls != [] {
      PackLabelsPlain(NameText(ls), 0, MAX_WIRE_OCTETS, false);
    }
  }

  lemma {:induction false} WireLenBound(ls: seq<Label>)
    requires GoodLabels(ls)
    ensures WireLen(ls) >= 1 + 2 * |ls|
  {
    if ls != [] {
      assert GoodLabel(ls[0]);
      WireLenBound(ls[1..]);
    }
  }

  /** Names of at most 255 octets (section 2.3.4 of RFC 1035), whatever the number of their labels. */
  predicate Nameable(s: Text) {
    FullyQualified(s) && GoodLabels(NameLabels(s)) && WireLen(NameLabels(s)) <= MAX_WIRE_OCTETS
  }

  /** An uncompressed name unpacks wherever it lies: 127 labels are no obstacle when there is no pointer. */
  lemma {:induction false} WireUnpacks(ls: seq<Label>, buf: seq<byte>, more: seq<byte>, budget: int)
    requires GoodLabels(ls) && WireLen(ls) <= budget
    ensures Follow(buf + Wire(ls) + more, |buf|, budget, 0) == Name(ls, |buf| + WireLen(ls))
    decreases |ls|
  {
    hide Follow, Target;
    var msg := buf + Wire(ls) + more;
    FollowUnfold(msg, |buf|, budget, 0);
    if ls == [] {
      assert msg[|buf|] == 0;
    } else {
      var l, rest := ls[0], ls[1..];
      assert GoodLabel(l) && GoodLabels(rest);
      var front := buf + ([|l|] + l);
      assert msg == front + Wire(rest) + more;
      assert msg[|buf|] == |l|;
      assert msg[|buf| + 1..|buf| + 1 + |l|] == l;
      WireUnpacks(rest, front, more, budget - (|l| + 1));
    }
  }
}
