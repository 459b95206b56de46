/**
 * What the rdata of each type looks like on the wire, octet by octet and type by type, for a record
 * at any place of any message.
 */
module RdataFormats {
  import opened Octets
  import opened Presentation
  import opened NameUnpack
  import opened Records

  /** At `off` a name that reads as `ls`, behind it at `h` a header for type `t` and `n` octets of rdata. */
  predicate RecordAt(msg: seq<byte>, off: nat, ls: seq<Label>, h: nat, t: nat, n: nat) {
    && off != |msg| && UnpackName(msg, off) == Name(ls, h) && h + 10 + n <= |msg|
    && msg[h] as int * 256 + msg[h + 1] == t
    && msg[h + 8] as int * 256 + msg[h + 9] == n
  }

  /** The record with the header at `h`, given its fields. */
  function Headed(msg: seq<byte>, ls: seq<Label>, h: nat, fs: seq<Field>): RR
    requires h + 10 <= |msg|
  {
    RR(NameText(ls), msg[h] as int * 256 + msg[h + 1], msg[h + 2] as int * 256 + msg[h + 3],
       msg[h + 4] as int * 0x100_0000 + msg[h + 5] as int * 0x1_0000 + msg[h + 6] as int * 0x100 + msg[h + 7], fs)
  }

  // ----- the parts of rdata -----

  /**
   * Fields read so far from rdata that ends where `m` ends. A record may end between two fields, and
   * the others are then zero; only right behind a counted field (`open`) nobody looks for the end.
   */
  datatype Part = Part(fs: seq<Field>, next: nat, count: nat, open: bool) | Broken

  predicate Ended(m: seq<byte>, s: Part) {
    s.Part? && !s.open && s.next == |m|
  }

  /** `k` octets. */
  function Number(m: seq<byte>, s: Part, k: nat): Part {
    if s.Broken? then Broken
    else if Ended(m, s) then s.(fs := s.fs + [Raw(seq(k, i => 0))])
    else if s.next + k > |m| then Broken
    else Part(s.fs + [Raw(m[s.next..s.next + k])], s.next + k, s.count, false)
  }

  /** A domain name, which the packer may compress or not. */
  function Domain(m: seq<byte>, s: Part, compressible: bool): Part {
    if s.Broken? then Broken
    else if Ended(m, s) then s.(fs := s.fs + [NameField([], compressible)])
    else match UnpackName(m, s.next)
      case Bad(_) => Broken
      case Name(ls, next) => Part(s.fs + [NameField(NameText(ls), compressible)], next, s.count, false)
  }

  /** A length octet and as many octets. */
  function String(m: seq<byte>, s: Part): Part {
    if s.Broken? then Broken
    else if Ended(m, s) then s.(fs := s.fs + [Raw([0])])
    else if s.next >= |m| || s.next + 1 + m[s.next] > |m| then Broken
    else Part(s.fs + [Raw(m[s.next..s.next + 1 + m[s.next]])], s.next + 1 + m[s.next], s.count, false)
  }

  /** Two octets that count what follows. */
  function Count(m: seq<byte>, s: Part): Part {
    if s.Broken? then Broken
    else if Ended(m, s) then s.(fs := s.fs + [Raw([0, 0])])
    else if s.next + 2 > |m| then Broken
    else Part(s.fs + [Raw(m[s.next..s.next + 2])], s.next + 2, m[s.next] as int * 256 + m[s.next + 1], false)
  }

  /** As many octets as were counted. */
  function Counted(m: seq<byte>, s: Part): Part {
    if s.Broken? then Broken
    else if Ended(m, s) then s.(fs := s.fs + [Raw([])])
    else if s.next + s.count > |m| then Broken
    else Part(s.fs + [Raw(m[s.next..s.next + s.count])], s.next + s.count, s.count, true)
  }

  /** All that is left. */
  function Rest(m: seq<byte>, s: Part): Part {
    if s.Broken? then Broken
    else if Ended(m, s) then s.(fs := s.fs + [Raw([])])
    else if s.next > |m| then Broken
    else Part(s.fs + [Raw(m[s.next..])], |m|, s.count, false)
  }

  function Begin(h: nat): Part {
    Part([], h + 10, 0, false)
  }

  /** The record with those fields, if they take the rdata to its end. */
  function Whole(msg: seq<byte>, ls: seq<Label>, h: nat, n: nat, s: Part): UnpackedRR
    requires h + 10 + n <= |msg|
  {
    if s.Part? && s.next == h + 10 + n then Record(Headed(msg, ls, h, s.fs), h + 10 + n) else BadRecord
  }

  // ----- reading by a layout is reading part by part -----

  function Take(k: Kind, m: seq<byte>, s: Part): Part {
    match k
    case KFixed(n) => Number(m, s, n)
    case KName(c) => Domain(m, s, c)
    case KText => String(m, s)
    case KCount => Count(m, s)
    case KSized => Counted(m, s)
    case KRest => Rest(m, s)
  }

  function TakeAll(ks: seq<Kind>, m: seq<byte>, s: Part): Part {
    if ks == [] then s else TakeAll(ks[1..], m, Take(ks[0], m, s))
  }

  /** What the generated unpackers make of the fields that are left. */
  function Resumed(ks: seq<Kind>, m: seq<byte>, s: Part): UnpackedFields {
    if s.Broken? then BadRdata
    else match UnpackFields(ks, m, s.next, s.count, !s.open)
      case BadRdata => BadRdata
      case Fields(fs, next) => Fields(s.fs + fs, next)
  }

  lemma {:induction false} EndedZeros(ks: seq<Kind>, m: seq<byte>, s: Part)
    requires Ended(m, s)
    ensures Resumed(ks, m, s) == Fields(s.fs + Zeros(ks), s.next)
  {
  }

  /** One field, read before the end is reached. */
  lemma {:induction false} FieldTaken(k: Kind, ks: seq<Kind>, m: seq<byte>, s: Part) returns (f: Field)
    requires s.Part? && !Ended(m, s)
    ensures var u, r := Take(k, m, s), UnpackFields([k] + ks, m, s.next, s.count, !s.open);
            if u.Broken? then r == BadRdata
            else u.fs == s.fs + [f] && r == Cons(f, UnpackFields(ks, m, u.next, u.count, !u.open))
  {
    hide UnpackName, NameText, Zeros, Cons, UnpackFields;
    Unfolded([k] + ks, m, s.next, s.count, !s.open);
    assert ([k] + ks)[0] == k && ([k] + ks)[1..] == ks;
    var u := Take(k, m, s);
    f := Raw([]);
    if u.Part? {
      match k
      case KFixed(n) => f := Raw(m[s.next..s.next + n]);
      case KName(c) => f := NameField(NameText(UnpackName(m, s.next).labels), c);
      case KText => f := Raw(m[s.next..s.next + 1 + m[s.next]]);
      case KCount => f := Raw(m[s.next..s.next + 2]);
      case KSized => f := Raw(m[s.next..s.next + s.count]);
      case KRest => f := Raw(m[s.next..]);
    }
  }

  lemma {:induction false} Unfolded(ks: seq<Kind>, m: seq<byte>, off: nat, count: nat, check: bool)
    requires ks != [] && !(check && off == |m|)
    ensures UnpackFields(ks, m, off, count, check) ==
            match ks[0]
            case KFixed(n) =>
              if off + n > |m| then BadRdata
              else Cons(Raw(m[off..off + n]), UnpackFields(ks[1..], m, off + n, count, true))
            case KName(c) =>
              (match UnpackName(m, off)
               case Bad(_) => BadRdata
               case Name(ls, next) => Cons(NameField(NameText(ls), c), UnpackFields(ks[1..], m, next, count, true)))
            case KText =>
              if off + 1 > |m| || off + 1 + m[off] > |m| then BadRdata
              else Cons(Raw(m[off..off + 1 + m[off]]), UnpackFields(ks[1..], m, off + 1 + m[off], count, true))
            case KCount =>
              if off + 2 > |m| then BadRdata
              else Cons(Raw(m[off..off + 2]), UnpackFields(ks[1..], m, off + 2, GetU16(m, off), true))
            case KSized =>
              if off + count > |m| then BadRdata
              else Cons(Raw(m[off..off + count]), UnpackFields(ks[1..], m, off + count, count, false))
            case KRest =>
              if off > |m| then BadRdata
              else Cons(Raw(m[off..]), UnpackFields(ks[1..], m, |m|, count, true))
  {
    hide UnpackName, NameText, Zeros, Cons;
  }

  lemma {:induction false} TakeOne(k: Kind, ks: seq<Kind>, m: seq<byte>, s: Part)
    ensures Resumed([k] + ks, m, s) == Resumed(ks, m, Take(k, m, s))
  {
    hide Take, UnpackFields, Zeros;
    if s.Broken? {
      StaysBroken(k, m, s);
    } else if Ended(m, s) {
      ZeroTaken(k, m, s);
      EndedZeros([k] + ks, m, s);
      EndedZeros(ks, m, Take(k, m, s));
      ZerosCons(k, ks);
      assert s.fs + ([Zero(k)] + Zeros(ks)) == (s.fs + [Zero(k)]) + Zeros(ks);
    } else {
      var f := FieldTaken(k, ks, m, s);
      var u := Take(k, m, s);
      if u.Part? {
        var rest := UnpackFields(ks, m, u.next, u.count, !u.open);
        assert rest.Fields? ==> s.fs + ([f] + rest.fs) == (s.fs + [f]) + rest.fs;
      }
    }
  }

  lemma StaysBroken(k: Kind, m: seq<byte>, s: Part)
    requires s.Broken?
    ensures Take(k, m, s).Broken?
  {
  }

  lemma ZerosCons(k: Kind, ks: seq<Kind>)
    ensures Zeros([k] + ks) == [Zero(k)] + Zeros(ks)
  {
    assert ([k] + ks)[1..] == ks;
  }

  lemma ZeroTaken(k: Kind, m: seq<byte>, s: Part)
    requires Ended(m, s)
    ensures Take(k, m, s) == s.(fs := s.fs + [Zero(k)]) && Ended(m, Take(k, m, s))
  {
  }

  lemma {:induction false} TakesAll(ks: seq<Kind>, m: seq<byte>, s: Part)
    ensures Resumed(ks, m, s) == var u := TakeAll(ks, m, s); if u.Broken? then BadRdata else Fields(u.fs, u.next)
    decreases |ks|
  {
    hide Take;
    if ks == [] {
      assert s.Part? ==> s.fs + [] == s.fs;
    } else {
      assert ks == [ks[0]] + ks[1..];
      TakeOne(ks[0], ks[1..], m, s);
      TakesAll(ks[1..], m, Take(ks[0], m, s));
    }
  }

  /** A record is read by the layout of its type. */
  lemma {:induction false} ReadsBy(msg: seq<byte>, off: nat, ls: seq<Label>, h: nat, t: uint16, n: nat)
    requires RecordAt(msg, off, ls, h, t, n)
    ensures UnpackRR(msg, off) == Whole(msg, ls, h, n, TakeAll(Layout(t), msg[..h + 10 + n], Begin(h)))
  {
    hide UnpackName, NameText, Layout, UnpackFields, TakeAll;
    var m := msg[..h + 10 + n];
    TakesAll(Layout(t), m, Begin(h));
    if n == 0 {
      EndedZeros(Layout(t), m, Begin(h));
    } else {
      NotEndedYet(Layout(t), m, h + 10);
    }
    NoFields(Resumed(Layout(t), m, Begin(h)));
  }

  lemma NotEndedYet(ks: seq<Kind>, m: seq<byte>, off: nat)
    requires off < |m|
    ensures UnpackFields(ks, m, off, 0, false) == UnpackFields(ks, m, off, 0, true)
  {
    hide UnpackName, NameText;
  }

  lemma NoFields(r: UnpackedFields)
    ensures r.Fields? ==> [] + r.fs == r.fs
  {
  }

  // ----- type by type -----

  lemma NothingLeft(m: seq<byte>, s: Part)
    ensures TakeAll([], m, s) == s
  {
  }

  lemma {:induction false} TakeFront(k: Kind, ks: seq<Kind>, m: seq<byte>, s: Part)
    ensures TakeAll([k] + ks, m, s) == TakeAll(ks, m, Take(k, m, s))
  {
    hide Take;
    assert ([k] + ks)[1..] == ks;
  }

  lemma {:induction false} TakeTwo(a: Kind, b: Kind, ks: seq<Kind>, m: seq<byte>, s: Part)
    ensures TakeAll([a, b] + ks, m, s) == TakeAll(ks, m, Take(b, m, Take(a, m, s)))
  {
    hide Take, TakeAll;
    assert [a, b] + ks == [a] + ([b] + ks);
    TakeFront(a, [b] + ks, m, s);
    TakeFront(b, ks, m, Take(a, m, s));
  }

  lemma {:induction false} TakeFour(a: Kind, b: Kind, c: Kind, d: Kind, ks: seq<Kind>, m: seq<byte>, s: Part)
    ensures TakeAll([a, b, c, d] + ks, m, s) == TakeAll(ks, m, Take(d, m, Take(c, m, Take(b, m, Take(a, m, s)))))
  {
    hide Take, TakeAll;
    assert [a, b, c, d] + ks == [a, b] + ([c, d] + ks);
    TakeTwo(a, b, [c, d] + ks, m, s);
    TakeTwo(c, d, ks, m, Take(b, m, Take(a, m, s)));
  }

  /** A: four octets. */
  lemma {:induction false} AddressReads(msg: seq<byte>, off: nat, ls: seq<Label>, h: nat, n: nat)
    requires RecordAt(msg, off, ls, h, 1, n)
    ensures var m := msg[..h + 10 + n];
            UnpackRR(msg, off) == Whole(msg, ls, h, n, Number(m, Begin(h), 4))
  {
    hide UnpackRR, TakeAll, Number, Domain, String, Count, Counted, Rest, Whole, UnpackName;
    ReadsBy(msg, off, ls, h, 1, n);
    var m, s := msg[..h + 10 + n], Begin(h);
    assert Layout(1) == [KFixed(4)] + [];
    TakeFront(KFixed(4), [], m, s);
    NothingLeft(m, Take(KFixed(4), m, s));
  }

  /** AAAA: sixteen octets. */
  lemma {:induction false} LongAddressReads(msg: seq<byte>, off: nat, ls: seq<Label>, h: nat, n: nat)
    requires RecordAt(msg, off, ls, h, 28, n)
    ensures var m := msg[..h + 10 + n];
            UnpackRR(msg, off) == Whole(msg, ls, h, n, Number(m, Begin(h), 16))
  {
    hide UnpackRR, TakeAll, Number, Domain, String, Count, Counted, Rest, Whole, UnpackName;
    ReadsBy(msg, off, ls, h, 28, n);
    var m, s := msg[..h + 10 + n], Begin(h);
    assert Layout(28) == [KFixed(16)] + [];
    TakeFront(KFixed(16), [], m, s);
    NothingLeft(m, Take(KFixed(16), m, s));
  }

  /** NS, MD, MF, CNAME, MB, MG, MR and PTR: a name that may be compressed. */
  lemma {:induction false} NameReads(msg: seq<byte>, off: nat, ls: seq<Label>, h: nat, t: uint16, n: nat)
    requires t in {2, 3, 4, 5, 7, 8, 9, 12} && RecordAt(msg, off, ls, h, t, n)
    ensures var m := msg[..h + 10 + n];
            UnpackRR(msg, off) == Whole(msg, ls, h, n, Domain(m, Begin(h), true))
  {
    hide UnpackRR, TakeAll, Number, Domain, String, Count, Counted, Rest, Whole, UnpackName;
    ReadsBy(msg, off, ls, h, t, n);
    var m, s := msg[..h + 10 + n], Begin(h);
    assert Layout(t) == [KName(true)] + [];
    TakeFront(KName(true), [], m, s);
    NothingLeft(m, Take(KName(true), m, s));
  }

  /** NSAP-PTR and DNAME: a name that may not be compressed. */
  lemma {:induction false} PlainNameReads(msg: seq<byte>, off: nat, ls: seq<Label>, h: nat, t: uint16, n: nat)
    requires t in {23, 39} && RecordAt(msg, off, ls, h, t, n)
    ensures var m := msg[..h + 10 + n];
            UnpackRR(msg, off) == Whole(msg, ls, h, n, Domain(m, Begin(h), false))
  {
    hide UnpackRR, TakeAll, Number, Domain, String, Count, Counted, Rest, Whole, UnpackName;
    ReadsBy(msg, off, ls, h, t, n);
    var m, s := msg[..h + 10 + n], Begin(h);
    assert Layout(t) == [KName(false)] + [];
    TakeFront(KName(false), [], m, s);
    NothingLeft(m, Take(KName(false), m, s));
  }

  /** SOA: two names that may be compressed and five numbers. */
  lemma {:induction false} SoaReads(msg: seq<byte>, off: nat, ls: seq<Label>, h: nat, n: nat)
    requires RecordAt(msg, off, ls, h, 6, n)
    ensures var m := msg[..h + 10 + n];
            var s1 := Domain(m, Domain(m, Begin(h), true), true);
            var s2 := Number(m, Number(m, s1, 4), 4);
            var s3 := Number(m, Number(m, s2, 4), 4);
            UnpackRR(msg, off) == Whole(msg, ls, h, n, Number(m, s3, 4))
  {
    hide UnpackRR, TakeAll, Number, Domain, String, Count, Counted, Rest, Whole, UnpackName;
    ReadsBy(msg, off, ls, h, 6, n);
    var m, s := msg[..h + 10 + n], Begin(h);
    var back := [KFixed(4)] + [];
    var middle := [KFixed(4), KFixed(4)] + back;
    assert Layout(6) == [KName(true), KName(true), KFixed(4), KFixed(4)] + middle;
    TakeFour(KName(true), KName(true), KFixed(4), KFixed(4), middle, m, s);
    s := Take(KFixed(4), m, Take(KFixed(4), m, Take(KName(true), m, Take(KName(true), m, s))));
    TakeTwo(KFixed(4), KFixed(4), back, m, s);
    s := Take(KFixed(4), m, Take(KFixed(4), m, s));
    TakeFront(KFixed(4), [], m, s);
    NothingLeft(m, Take(KFixed(4), m, s));
  }

  /** MINFO: two names that may be compressed. */
  lemma {:induction false} MinfoReads(msg: seq<byte>, off: nat, ls: seq<Label>, h: nat, n: nat)
    requires RecordAt(msg, off, ls, h, 14, n)
    ensures var m := msg[..h + 10 + n];
            UnpackRR(msg, off) == Whole(msg, ls, h, n, Domain(m, Domain(m, Begin(h), true), true))
  {
    hide UnpackRR, TakeAll, Number, Domain, String, Count, Counted, Rest, Whole, UnpackName;
    ReadsBy(msg, off, ls, h, 14, n);
    var m, s := msg[..h + 10 + n], Begin(h);
    assert Layout(14) == [KName(true), KName(true)] + [];
    TakeTwo(KName(true), KName(true), [], m, s);
    NothingLeft(m, Take(KName(true), m, Take(KName(true), m, s)));
  }

  /** MX: a preference and a name that may be compressed. */
  lemma {:induction false} MxReads(msg: seq<byte>, off: nat, ls: seq<Label>, h: nat, n: nat)
    requires RecordAt(msg, off, ls, h, 15, n)
    ensures var m := msg[..h + 10 + n];
            UnpackRR(msg, off) == Whole(msg, ls, h, n, Domain(m, Number(m, Begin(h), 2), true))
  {
    hide UnpackRR, TakeAll, Number, Domain, String, Count, Counted, Rest, Whole, UnpackName;
    ReadsBy(msg, off, ls, h, 15, n);
    var m, s := msg[..h + 10 + n], Begin(h);
    assert Layout(15) == [KFixed(2), KName(true)] + [];
    TakeTwo(KFixed(2), KName(true), [], m, s);
    NothingLeft(m, Take(KName(true), m, Take(KFixed(2), m, s)));
  }

  /** RP and TALINK: two names that may not be compressed. */
  lemma {:induction false} TwoNamesRead(msg: seq<byte>, off: nat, ls: seq<Label>, h: nat, t: uint16, n: nat)
    requires t in {17, 58} && RecordAt(msg, off, ls, h, t, n)
    ensures var m := msg[..h + 10 + n];
            UnpackRR(msg, off) == Whole(msg, ls, h, n, Domain(m, Domain(m, Begin(h), false), false))
  {
    hide UnpackRR, TakeAll, Number, Domain, String, Count, Counted, Rest, Whole, UnpackName;
    ReadsBy(msg, off, ls, h, t, n);
    var m, s := msg[..h + 10 + n], Begin(h);
    assert Layout(t) == [KName(false), KName(false)] + [];
    TakeTwo(KName(false), KName(false), [], m, s);
    NothingLeft(m, Take(KName(false), m, Take(KName(false), m, s)));
  }

  /** AFSDB, RT, KX and LP: a number and a name that may not be compressed. */
  lemma {:induction false} PreferredNameReads(msg: seq<byte>, off: nat, ls: seq<Label>, h: nat, t: uint16, n: nat)
    requires t in {18, 21, 36, 107} && RecordAt(msg, off, ls, h, t, n)
    ensures var m := msg[..h + 10 + n];
            UnpackRR(msg, off) == Whole(msg, ls, h, n, Domain(m, Number(m, Begin(h), 2), false))
  {
    hide UnpackRR, TakeAll, Number, Domain, String, Count, Counted, Rest, Whole, UnpackName;
    ReadsBy(msg, off, ls, h, t, n);
    var m, s := msg[..h + 10 + n], Begin(h);
    assert Layout(t) == [KFixed(2), KName(false)] + [];
    TakeTwo(KFixed(2), KName(false), [], m, s);
    NothingLeft(m, Take(KName(false), m, Take(KFixed(2), m, s)));
  }

  /** SIG and RRSIG: type, algorithm, labels, three times, key tag, the signer and the signature. */
  lemma {:induction false} SignatureReads(msg: seq<byte>, off: nat, ls: seq<Label>, h: nat, t: uint16, n: nat)
    requires t in {24, 46} && RecordAt(msg, off, ls, h, t, n)
    ensures var m := msg[..h + 10 + n];
            var s1 := Number(m, Number(m, Begin(h), 2), 1);
            var s2 := Number(m, Number(m, s1, 1), 4);
            var s3 := Number(m, Number(m, s2, 4), 4);
            var s4 := Domain(m, Number(m, s3, 2), false);
            UnpackRR(msg, off) == Whole(msg, ls, h, n, Rest(m, s4))
  {
    hide UnpackRR, TakeAll, Number, Domain, String, Count, Counted, Rest, Whole, UnpackName;
    ReadsBy(msg, off, ls, h, t, n);
    var m, s := msg[..h + 10 + n], Begin(h);
    var back := [KRest] + [];
    var middle := [KFixed(4), KFixed(4), KFixed(2), KName(false)] + back;
    assert Layout(t) == [KFixed(2), KFixed(1), KFixed(1), KFixed(4)] + middle;
    TakeFour(KFixed(2), KFixed(1), KFixed(1), KFixed(4), middle, m, s);
    s := Take(KFixed(4), m, Take(KFixed(1), m, Take(KFixed(1), m, Take(KFixed(2), m, s))));
    TakeFour(KFixed(4), KFixed(4), KFixed(2), KName(false), back, m, s);
    s := Take(KName(false), m, Take(KFixed(2), m, Take(KFixed(4), m, Take(KFixed(4), m, s))));
    TakeFront(KRest, [], m, s);
    NothingLeft(m, Take(KRest, m, s));
  }

  /** PX: a preference and two names. */
  lemma {:induction false} PxReads(msg: seq<byte>, off: nat, ls: seq<Label>, h: nat, n: nat)
    requires RecordAt(msg, off, ls, h, 26, n)
    ensures var m := msg[..h + 10 + n];
            UnpackRR(msg, off) == Whole(msg, ls, h, n, Domain(m, Domain(m, Number(m, Begin(h), 2), false), false))
  {
    hide UnpackRR, TakeAll, Number, Domain, String, Count, Counted, Rest, Whole, UnpackName;
    ReadsBy(msg, off, ls, h, 26, n);
    var m, s := msg[..h + 10 + n], Begin(h);
    var back := [KName(false)] + [];
    assert Layout(26) == [KFixed(2), KName(false)] + back;
    TakeTwo(KFixed(2), KName(false), back, m, s);
    s := Take(KName(false), m, Take(KFixed(2), m, s));
    TakeFront(KName(false), [], m, s);
    NothingLeft(m, Take(KName(false), m, s));
  }

  /** SRV: priority, weight, port and a name. */
  lemma {:induction false} SrvReads(msg: seq<byte>, off: nat, ls: seq<Label>, h: nat, n: nat)
    requires RecordAt(msg, off, ls, h, 33, n)
    ensures var m := msg[..h + 10 + n];
            var s1 := Number(m, Number(m, Begin(h), 2), 2);
            UnpackRR(msg, off) == Whole(msg, ls, h, n, Domain(m, Number(m, s1, 2), false))
  {
    hide UnpackRR, TakeAll, Number, Domain, String, Count, Counted, Rest, Whole, UnpackName;
    ReadsBy(msg, off, ls, h, 33, n);
    var m, s := msg[..h + 10 + n], Begin(h);
    assert Layout(33) == [KFixed(2), KFixed(2), KFixed(2), KName(false)] + [];
    TakeFour(KFixed(2), KFixed(2), KFixed(2), KName(false), [], m, s);
    NothingLeft(m, Take(KName(false), m, Take(KFixed(2), m, Take(KFixed(2), m, Take(KFixed(2), m, s)))));
  }

  /** NAPTR: order, preference, three strings and a name. */
  lemma {:induction false} NaptrReads(msg: seq<byte>, off: nat, ls: seq<Label>, h: nat, n: nat)
    requires RecordAt(msg, off, ls, h, 35, n)
    ensures var m := msg[..h + 10 + n];
            var s1 := Number(m, Number(m, Begin(h), 2), 2);
            var s2 := String(m, String(m, s1));
            UnpackRR(msg, off) == Whole(msg, ls, h, n, Domain(m, String(m, s2), false))
  {
    hide UnpackRR, TakeAll, Number, Domain, String, Count, Counted, Rest, Whole, UnpackName;
    ReadsBy(msg, off, ls, h, 35, n);
    var m, s := msg[..h + 10 + n], Begin(h);
    var back := [KText, KName(false)] + [];
    assert Layout(35) == [KFixed(2), KFixed(2), KText, KText] + back;
    TakeFour(KFixed(2), KFixed(2), KText, KText, back, m, s);
    s := Take(KText, m, Take(KText, m, Take(KFixed(2), m, Take(KFixed(2), m, s))));
    TakeTwo(KText, KName(false), [], m, s);
    NothingLeft(m, Take(KName(false), m, Take(KText, m, s)));
  }

  /** NXT and NSEC: a name and a bitmap. */
  lemma {:induction false} NextReads(msg: seq<byte>, off: nat, ls: seq<Label>, h: nat, t: uint16, n: nat)
    requires t in {30, 47} && RecordAt(msg, off, ls, h, t, n)
    ensures var m := msg[..h + 10 + n];
            UnpackRR(msg, off) == Whole(msg, ls, h, n, Rest(m, Domain(m, Begin(h), false)))
  {
    hide UnpackRR, TakeAll, Number, Domain, String, Count, Counted, Rest, Whole, UnpackName;
    ReadsBy(msg, off, ls, h, t, n);
    var m, s := msg[..h + 10 + n], Begin(h);
    assert Layout(t) == [KName(false), KRest] + [];
    TakeTwo(KName(false), KRest, [], m, s);
    NothingLeft(m, Take(KRest, m, Take(KName(false), m, s)));
  }

  /** SVCB and HTTPS: a priority, a name and parameters. */
  lemma {:induction false} ServiceReads(msg: seq<byte>, off: nat, ls: seq<Label>, h: nat, t: uint16, n: nat)
    requires t in {64, 65} && RecordAt(msg, off, ls, h, t, n)
    ensures var m := msg[..h + 10 + n];
            UnpackRR(msg, off) == Whole(msg, ls, h, n, Rest(m, Domain(m, Number(m, Begin(h), 2), false)))
  {
    hide UnpackRR, TakeAll, Number, Domain, String, Count, Counted, Rest, Whole, UnpackName;
    ReadsBy(msg, off, ls, h, t, n);
    var m, s := msg[..h + 10 + n], Begin(h);
    var back := [KRest] + [];
    assert Layout(t) == [KFixed(2), KName(false)] + back;
    TakeTwo(KFixed(2), KName(false), back, m, s);
    s := Take(KName(false), m, Take(KFixed(2), m, s));
    TakeFront(KRest, [], m, s);
    NothingLeft(m, Take(KRest, m, s));
  }

  /** TKEY: algorithm, two times, mode, error, and two counted octet strings. */
  lemma {:induction false} TkeyReads(msg: seq<byte>, off: nat, ls: seq<Label>, h: nat, n: nat)
    requires RecordAt(msg, off, ls, h, 249, n)
    ensures var m := msg[..h + 10 + n];
            var s1 := Number(m, Domain(m, Begin(h), false), 4);
            var s2 := Number(m, Number(m, s1, 4), 2);
            var s3 := Count(m, Number(m, s2, 2));
            var s4 := Count(m, Counted(m, s3));
            UnpackRR(msg, off) == Whole(msg, ls, h, n, Counted(m, s4))
  {
    hide UnpackRR, TakeAll, Number, Domain, String, Count, Counted, Rest, Whole, UnpackName;
    ReadsBy(msg, off, ls, h, 249, n);
    var m, s := msg[..h + 10 + n], Begin(h);
    var back := [KSized] + [];
    var middle := [KFixed(2), KCount, KSized, KCount] + back;
    assert Layout(249) == [KName(false), KFixed(4), KFixed(4), KFixed(2)] + middle;
    TakeFour(KName(false), KFixed(4), KFixed(4), KFixed(2), middle, m, s);
    s := Take(KFixed(2), m, Take(KFixed(4), m, Take(KFixed(4), m, Take(KName(false), m, s))));
    TakeFour(KFixed(2), KCount, KSized, KCount, back, m, s);
    s := Take(KCount, m, Take(KSized, m, Take(KCount, m, Take(KFixed(2), m, s))));
    TakeFront(KSized, [], m, s);
    NothingLeft(m, Take(KSized, m, s));
  }

  /** TSIG: algorithm, time, fudge, MAC, original ID, error and other data. */
  lemma {:induction false} TsigReads(msg: seq<byte>, off: nat, ls: seq<Label>, h: nat, n: nat)
    requires RecordAt(msg, off, ls, h, 250, n)
    ensures var m := msg[..h + 10 + n];
            var s1 := Number(m, Domain(m, Begin(h), false), 6);
            var s2 := Count(m, Number(m, s1, 2));
            var s3 := Number(m, Counted(m, s2), 2);
            var s4 := Count(m, Number(m, s3, 2));
            UnpackRR(msg, off) == Whole(msg, ls, h, n, Counted(m, s4))
  {
    hide UnpackRR, TakeAll, Number, Domain, String, Count, Counted, Rest, Whole, UnpackName;
    ReadsBy(msg, off, ls, h, 250, n);
    var m, s := msg[..h + 10 + n], Begin(h);
    var back := [KSized] + [];
    var middle := [KSized, KFixed(2), KFixed(2), KCount] + back;
    assert Layout(250) == [KName(false), KFixed(6), KFixed(2), KCount] + middle;
    TakeFour(KName(false), KFixed(6), KFixed(2), KCount, middle, m, s);
    s := Take(KCount, m, Take(KFixed(2), m, Take(KFixed(6), m, Take(KName(false), m, s))));
    TakeFour(KSized, KFixed(2), KFixed(2), KCount, back, m, s);
    s := Take(KCount, m, Take(KFixed(2), m, Take(KFixed(2), m, Take(KSized, m, s))));
    TakeFront(KSized, [], m, s);
    NothingLeft(m, Take(KSized, m, s));
  }

  /** Every other type: the octets as they are. */
  lemma {:induction false} OtherReads(msg: seq<byte>, off: nat, ls: seq<Label>, h: nat, t: uint16, n: nat)
    requires t !in {1, 2, 3, 4, 5, 6, 7, 8, 9, 12, 14, 15, 17, 18, 21, 23, 24, 26, 28, 30, 33, 35, 36, 39, 46, 47}
    requires t !in {58, 64, 65, 107, 249, 250} && RecordAt(msg, off, ls, h, t, n)
    ensures UnpackRR(msg, off) == Record(Headed(msg, ls, h, [Raw(msg[h + 10..h + 10 + n])]), h + 10 + n)
  {
    hide UnpackRR, TakeAll, UnpackName;
    ReadsBy(msg, off, ls, h, t, n);
    var m, s := msg[..h + 10 + n], Begin(h);
    assert Layout(t) == [KRest] + [];
    TakeFront(KRest, [], m, s);
    NothingLeft(m, Take(KRest, m, s));
    assert m[h + 10..] == msg[h + 10..h + 10 + n];
    assert n == 0 ==> m[h + 10..] == [];
    assert Take(KRest, m, s).fs == [Raw(m[h + 10..])];
  }

  // ----- in full -----

  lemma NumberIs(m: seq<byte>, s: Part)
    ensures Number(m, s, 4) ==
            if s.Broken? then Broken
            else if Ended(m, s) then s.(fs := s.fs + [Raw([0, 0, 0, 0])])
            else if s.next + 4 > |m| then Broken
            else Part(s.fs + [Raw(m[s.next..s.next + 4])], s.next + 4, s.count, false)
  {
    assert seq(4, i => 0) == [0, 0, 0, 0];
  }

  /** An A record has exactly four octets; only without any it is read as zeros. */
  lemma {:induction false} AddressIs(msg: seq<byte>, off: nat, ls: seq<Label>, h: nat, n: nat)
    requires RecordAt(msg, off, ls, h, 1, n)
    ensures UnpackRR(msg, off) ==
            if n == 4 then
              Record(Headed(msg, ls, h, [Raw([msg[h + 10], msg[h + 11], msg[h + 12], msg[h + 13]])]), h + 14)
            else if n == 0 then Record(Headed(msg, ls, h, [Raw([0, 0, 0, 0])]), h + 10)
            else BadRecord
  {
    hide UnpackRR, UnpackName, Number, Headed;
    AddressReads(msg, off, ls, h, n);
    var s := Number(msg[..h + 10 + n], Begin(h), 4);
    NumberIs(msg[..h + 10 + n], Begin(h));
    if n == 4 {
      assert msg[..h + 14][h + 10..h + 14] == [msg[h + 10], msg[h + 11], msg[h + 12], msg[h + 13]];
      assert s.fs == [Raw([msg[h + 10], msg[h + 11], msg[h + 12], msg[h + 13]])];
    } else if n == 0 {
      assert s.fs == [Raw([0, 0, 0, 0])];
    }
  }

  /** An AAAA record has exactly sixteen. */
  lemma {:induction false} LongAddressIs(msg: seq<byte>, off: nat, ls: seq<Label>, h: nat, n: nat)
    requires RecordAt(msg, off, ls, h, 28, n)
    ensures UnpackRR(msg, off) ==
            if n == 16 then Record(Headed(msg, ls, h, [Raw(msg[h + 10..h + 26])]), h + 26)
            else if n == 0 then Record(Headed(msg, ls, h, [Raw(seq(16, i => 0))]), h + 10)
            else BadRecord
  {
    hide UnpackRR, UnpackName, Headed;
    LongAddressReads(msg, off, ls, h, n);
    var s := Number(msg[..h + 10 + n], Begin(h), 16);
    if n == 16 {
      assert msg[..h + 26][h + 10..h + 26] == msg[h + 10..h + 26];
      assert s.fs == [Raw(msg[h + 10..h + 26])];
    } else if n == 0 {
      assert s.fs == [Raw(seq(16, i => 0))];
    }
  }

  /** An MX record: two octets, and a name that ends where the rdata ends. */
  lemma {:induction false} MxIs(msg: seq<byte>, off: nat, ls: seq<Label>, h: nat, n: nat)
    requires RecordAt(msg, off, ls, h, 15, n) && n > 2
    ensures var end := h + 10 + n;
            UnpackRR(msg, off) ==
            match UnpackName(msg[..end], h + 12)
            case Bad(_) => BadRecord
            case Name(mx, next) =>
              if next != end then BadRecord
              else Record(Headed(msg, ls, h, [Raw([msg[h + 10], msg[h + 11]]), NameField(NameText(mx), true)]), end)
  {
    hide UnpackRR, UnpackName, NameText;
    MxReads(msg, off, ls, h, n);
    assert msg[..h + 10 + n][h + 10..h + 12] == [msg[h + 10], msg[h + 11]];
  }

  /** An SRV record: three numbers of two octets, and a name that is not compressed. */
  lemma {:induction false} SrvIs(msg: seq<byte>, off: nat, ls: seq<Label>, h: nat, n: nat)
    requires RecordAt(msg, off, ls, h, 33, n) && n > 6
    ensures var end := h + 10 + n;
            UnpackRR(msg, off) ==
            match UnpackName(msg[..end], h + 16)
            case Bad(_) => BadRecord
            case Name(target, next) =>
              if next != end then BadRecord
              else Record(Headed(msg, ls, h, [Raw([msg[h + 10], msg[h + 11]]), Raw([msg[h + 12], msg[h + 13]]),
                                              Raw([msg[h + 14], msg[h + 15]]), NameField(NameText(target), false)]),
                     end)
  {
    hide UnpackRR, UnpackName, NameText;
    SrvReads(msg, off, ls, h, n);
    var m := msg[..h + 10 + n];
    assert m[h + 10..h + 12] == [msg[h + 10], msg[h + 11]] && m[h + 12..h + 14] == [msg[h + 12], msg[h + 13]];
    assert m[h + 14..h + 16] == [msg[h + 14], msg[h + 15]];
  }

  /** An SOA record: two names, and five numbers of four octets each to the end of the rdata. */
  lemma {:induction false} SoaIs(msg: seq<byte>, off: nat, ls: seq<Label>, h: nat, n: nat, ns: seq<Label>, p: nat,
                                 mbox: seq<Label>, q: nat)
    requires RecordAt(msg, off, ls, h, 6, n) && n > 0
    requires UnpackName(msg[..h + 10 + n], h + 10) == Name(ns, p) && p < h + 10 + n
    requires UnpackName(msg[..h + 10 + n], p) == Name(mbox, q) && (q <= h + 10 + n < q + 4 || h + 10 + n >= q + 20)
    ensures var end := h + 10 + n;
            UnpackRR(msg, off) ==
            if end == q + 20 then
              Record(Headed(msg, ls, h, [NameField(NameText(ns), true), NameField(NameText(mbox), true),
                                         Raw(msg[q..q + 4]), Raw(msg[q + 4..q + 8]), Raw(msg[q + 8..q + 12]),
                                         Raw(msg[q + 12..q + 16]), Raw(msg[q + 16..q + 20])]), end)
            else if end == q then
              var zero := Raw([0, 0, 0, 0]);
              Record(Headed(msg, ls, h, [NameField(NameText(ns), true), NameField(NameText(mbox), true),
                                         zero, zero, zero, zero, zero]), end)
            else BadRecord
  {
    hide UnpackRR, UnpackName, NameText, Number;
    SoaReads(msg, off, ls, h, n);
    var m := msg[..h + 10 + n];
    var s1 := Domain(m, Domain(m, Begin(h), true), true);
    var s2 := Number(m, Number(m, s1, 4), 4);
    var s3 := Number(m, Number(m, s2, 4), 4);
    assert s1 == Part([NameField(NameText(ns), true), NameField(NameText(mbox), true)], q, 0, false);
    NumberIs(m, s1);
    NumberIs(m, Number(m, s1, 4));
    NumberIs(m, s2);
    NumberIs(m, Number(m, s2, 4));
    NumberIs(m, s3);
    if h + 10 + n == q + 20 {
      assert m[q..q + 4] == msg[q..q + 4] && m[q + 4..q + 8] == msg[q + 4..q + 8];
      assert m[q + 8..q + 12] == msg[q + 8..q + 12] && m[q + 12..q + 16] == msg[q + 12..q + 16];
      assert m[q + 16..q + 20] == msg[q + 16..q + 20];
    }
  }
}
