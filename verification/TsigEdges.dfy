/** TSIG at its edges: messages without a signature, and MACs of one octet. */
module TsigEdges {
  import opened Octets
  import opened Wrappers
  import opened Presentation
  import opened Qualified
  import opened NamePack
  import opened NameUnpack
  import opened Compression
  import opened CanonicalForm
  import opened Records
  import opened Message
  import opened Tsig
  import opened ExactSizes
  import opened TsigProgress

  // ----- no signature -----

  /** The "no signature" error is about the record count alone; the test behind the search never fires. */
  lemma {:induction false} NoSigExactly(msg: seq<byte>)
    ensures StripTsig(msg) == StripFailed(ErrNoSig) <==> |msg| >= HEADER_SIZE && GetU16(msg, 10) == 0
  {
    hide SkipQuestions, UnpackRRs, FindTsig, FromRR, GetU16, SetArcount;
  }

  /** A message of one root-owned address record without rdata, in the additional section. */
  const Unsigned: seq<byte> := [0, 0, 0, 0, 0, 0, 0, 0, 0, 0, 0, 1, 0, 0, 1, 0, 1, 0, 0, 0, 0, 0, 0]

  /** It has no TSIG, and yet it is stripped: what is left is the bare header, and the signature is empty. */
  lemma {:induction false} UnsignedIsStripped()
    ensures |Unsigned| == 23 && FindTsig(1, Unsigned, HEADER_SIZE, 0) == NoneFound(HEADER_SIZE)
    ensures StripTsig(Unsigned) == Stripped(Unsigned[..HEADER_SIZE], NoSignature)
  {
    hide UnpackRR, GetU16, FindTsig, UnpackRRs, SkipQuestions, FromRR;
    UnsignedHeader(Unsigned);
    UnsignedRecord(Unsigned);
    NothingRead(Unsigned, HEADER_SIZE);
    OneRead(Unsigned, HEADER_SIZE);
  }

  lemma UnsignedHeader(msg: seq<byte>)
    requires msg == Unsigned
    ensures |msg| == 23 && GetU16(msg, 2) == 0 && GetU16(msg, 4) == 0 && GetU16(msg, 6) == 0 && GetU16(msg, 8) == 0
    ensures GetU16(msg, 10) == 1
  {
  }

  lemma {:induction false} UnsignedRecord(msg: seq<byte>)
    requires msg == Unsigned
    ensures UnpackRR(msg, HEADER_SIZE).Record? && UnpackRR(msg, HEADER_SIZE).rr.rrtype == 1
  {
    hide Layout, Zeros, NameText, Follow, GetU32, UnpackFields;
    assert |msg| == 23 && GetU16(msg, 13) == 1 && GetU16(msg, 21) == 0;
    FollowUnfold(msg, HEADER_SIZE, MAX_WIRE_OCTETS, 0);
  }

  lemma NothingRead(msg: seq<byte>, off: nat)
    ensures SkipQuestions(0, msg, off) == Some(off) && UnpackRRs(0, msg, off) == Records([], off)
  {
  }

  lemma {:induction false} OneRead(msg: seq<byte>, off: nat)
    requires UnpackRR(msg, off).Record? && UnpackRR(msg, off).rr.rrtype != TYPE_TSIG
    ensures FindTsig(1, msg, off, 0) == NoneFound(off)
  {
    hide UnpackRR;
    assert FindTsig(0, msg, UnpackRR(msg, off).next, off) == NoneFound(off);
  }

  /** A well-formed message with additional records, none of them a TSIG; `last` is where the last one starts. */
  ghost predicate WithoutSignature(msg: seq<byte>, last: nat) {
    && |msg| >= HEADER_SIZE && GetU16(msg, 10) > 0 && GetU16(msg, 2) % 16 != RCODE_NOTAUTH
    && var q := SkipQuestions(GetU16(msg, 4), msg, HEADER_SIZE);
       q.Some? &&
       var a := UnpackRRs(GetU16(msg, 6), msg, q.value);
       a.Records? &&
       var n := UnpackRRs(GetU16(msg, 8), msg, a.next);
       n.Records? && FindTsig(GetU16(msg, 10), msg, n.next, 0) == NoneFound(last)
  }

  // ----- offsets only grow -----

  lemma {:induction false} FollowGrows(msg: seq<byte>, off: nat, budget: int, ptr: nat)
    requires 0 < budget && ptr <= MAX_POINTERS && Follow(msg, off, budget, ptr).Name?
    ensures off < Follow(msg, off, budget, ptr).next
    decreases budget + MAX_POINTERS - ptr
  {
    if msg[off] as int > 0 && msg[off] as int < 64 {
      FollowGrows(msg, off + 1 + msg[off], budget - (msg[off] + 1), ptr);
    }
  }

  lemma {:induction false} RRGrows(msg: seq<byte>, off: nat)
    requires UnpackRR(msg, off).Record?
    ensures off <= UnpackRR(msg, off).next
  {
    hide UnpackFields, Layout, Zeros, NameText, Follow;
    if off != |msg| {
      FollowGrows(msg, off, MAX_WIRE_OCTETS, 0);
    }
  }

  lemma {:induction false} RRsGrow(n: nat, msg: seq<byte>, off: nat)
    requires UnpackRRs(n, msg, off).Records?
    ensures off <= UnpackRRs(n, msg, off).next
    decreases n
  {
    hide UnpackRR;
    if n > 0 {
      RRGrows(msg, off);
      if UnpackRR(msg, off).next != off {
        RRsGrow(n - 1, msg, UnpackRR(msg, off).next);
      }
    }
  }

  lemma {:induction false} QuestionsGrow(n: nat, msg: seq<byte>, off: nat)
    requires SkipQuestions(n, msg, off).Some?
    ensures off <= SkipQuestions(n, msg, off).value
    decreases n
  {
    hide Follow, NameText, GetU16;
    if n > 0 {
      FollowGrows(msg, off, MAX_WIRE_OCTETS, 0);
      QuestionsGrow(n - 1, msg, UnpackQuestion(msg, off).next);
    }
  }

  lemma {:induction false} SearchGrows(n: nat, msg: seq<byte>, off: nat, last: nat)
    requires FindTsig(n, msg, off, last).NoneFound? && (n == 0 ==> off <= last)
    ensures off <= FindTsig(n, msg, off, last).last
    decreases n
  {
    hide UnpackRR;
    if n > 0 {
      RRGrows(msg, off);
      var next := UnpackRR(msg, off).next;
      if n > 1 {
        SearchGrows(n - 1, msg, next, off);
      }
    }
  }

  /** What is cut off is never part of the header. */
  lemma {:induction false} CutBehindHeader(msg: seq<byte>, last: nat)
    requires WithoutSignature(msg, last)
    ensures last >= HEADER_SIZE && |msg| >= HEADER_SIZE
    ensures StripTsig(msg) == Stripped(if last <= |msg| then msg[..last] else msg, NoSignature)
  {
    hide SkipQuestions, UnpackRRs, FindTsig, FromRR, GetU16, SetArcount;
    var q := SkipQuestions(GetU16(msg, 4), msg, HEADER_SIZE);
    var a := UnpackRRs(GetU16(msg, 6), msg, q.value);
    var n := UnpackRRs(GetU16(msg, 8), msg, a.next);
    QuestionsGrow(GetU16(msg, 4), msg, HEADER_SIZE);
    RRsGrow(GetU16(msg, 6), msg, q.value);
    RRsGrow(GetU16(msg, 8), msg, a.next);
    SearchGrows(GetU16(msg, 10), msg, n.next, 0);
  }

  /** The empty signature's variables: both names are the root, written as one octet each. */
  lemma {:induction false} EmptyVariablesPack(now: uint48, timersOnly: bool)
    ensures PackFields(VariableFields(WithDefaults(NoSignature, now), timersOnly), 0, VARIABLES_SIZE, NoIndex,
            false).Packed?
  {
    hide PackFields, Portable, CanonicalName, PutU16, PutU32, PutU48, Size;
    var d := WithDefaults(NoSignature, now);
    EmptyCanonical();
    var r := d.(name := [DOT], algorithm := [DOT]);
    RootPortable();
    RootCanonical();
    assert VariableFields(d, timersOnly) == VariableFields(r, timersOnly);
    VariablesPackExactly(r, timersOnly);
  }

  lemma EmptyCanonical()
    ensures CanonicalName([]) == [DOT]
  {
  }

  lemma RootCanonical()
    ensures CanonicalName([DOT]) == [DOT]
  {
    NameTextIsFqdn([]);
  }

  lemma RootPortable()
    ensures Portable([DOT]) && NameSize([DOT]) == 1
  {
    NameTextIsFqdn([]);
    WireOfNothing();
    assert NameLabels([DOT]) == [];
  }

  /** The octets the receiver of an unsigned message has authenticated. */
  function UnsignedBuffer(octets: seq<byte>, requestMac: seq<byte>, timersOnly: bool, now: uint48): Option<seq<byte>>
    requires |octets| >= HEADER_SIZE
  {
    TsigBuffer(octets, WithDefaults(NoSignature, now), requestMac, timersOnly)
  }

  /**
   * The verdict on a message without a signature: it is never "no signature". It is valid exactly
   * when the provider answers an empty MAC for a key and an algorithm without a name, on what is
   * left of the message; the clock does not matter.
   */
  lemma {:induction false} UnsignedVerdict(msg: seq<byte>, last: nat, provider: Provider, requestMac: seq<byte>,
                                           timersOnly: bool, now: uint48)
    requires WithoutSignature(msg, last)
    ensures last >= HEADER_SIZE && |msg| >= HEADER_SIZE
    ensures var octets := if last <= |msg| then msg[..last] else msg;
            var buf := UnsignedBuffer(octets, requestMac, timersOnly, now);
            && (buf.None? <==> |requestMac| == 1)
            && Verify(msg, provider, requestMac, timersOnly, now) ==
               if buf.None? then Invalid(ErrMessage)
               else if provider([], [], buf.value) == Some([]) then Valid
               else Invalid(ErrSig)
  {
    hide StripTsig, WithoutSignature, PackFields, VariableFields, SetId;
    CutBehindHeader(msg, last);
    EmptyVariablesPack(now, timersOnly);
  }

  // ----- a MAC of one octet -----

  /** Behind a MAC of one octet nothing can be signed and nothing is valid, whatever the message and the key. */
  lemma {:induction false} OneOctetMac(m: Msg, t: Signature, msg: seq<byte>, p: Provider, requestMac: seq<byte>,
                                       timersOnly: bool, now: uint48)
    requires |requestMac| == 1
    ensures Generate(m, t, p, requestMac, timersOnly, now) == NotSigned
    ensures !Verify(msg, p, requestMac, timersOnly, now).Valid?
  {
    hide PackMsg, StripTsig, PackFields, VariableFields, Filled, PackRR;
  }
}
