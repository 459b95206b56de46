/**
 * Resource records as a header and a list of fields: raw octets, or domain names that may or may
 * not be compressed. Which fields a type has is a table, as in the generated packers.
 */
module Records {
  import opened Octets
  import opened Presentation
  import opened Qualified
  import opened NamePack
  import opened NameUnpack
  import opened Compression

  datatype Field = Raw(data: seq<byte>) | NameField(text: Text, compressible: bool)

  datatype RR = RR(name: Text, rrtype: uint16, class_: uint16, ttl: uint32, rdata: seq<Field>)

  datatype Question = Question(name: Text, qtype: uint16, qclass: uint16)

  const TYPE_OPT: uint16 := 41
  const TYPE_TSIG: uint16 := 250

  // ----- packing -----

  function PackField(f: Field, off: nat, cap: nat, x: Index, compress: bool): Packed {
    match f
    case Raw(d) => if off + |d| > cap then Failed(ErrBuf) else Packed(d, x)
    case NameField(t, c) => PackName(t, off, cap, x, compress && c)
  }

  function PackFields(fs: seq<Field>, off: nat, cap: nat, x: Index, compress: bool): Packed {
    if fs == [] then Packed([], x)
    else match PackField(fs[0], off, cap, x, compress)
      case Failed(e) => Failed(e)
      case Packed(o, y) => Prepend(o, PackFields(fs[1..], off + |o|, cap, y, compress))
  }

  /** The ten fixed octets of a record header. */
  function FixedHeader(rrtype: uint16, class_: uint16, ttl: uint32, rdlength: uint16): (o: seq<byte>)
    ensures |o| == 10
  {
    PutU16(rrtype) + PutU16(class_) + PutU32(ttl) + PutU16(rdlength)
  }

  /** `packRR`: owner name, fixed header and rdata, with the rdata length filled in. */
  function PackRR(rr: RR, off: nat, cap: nat, x: Index, compress: bool): Packed {
    match PackName(rr.name, off, cap, x, compress)
    case Failed(e) => Failed(e)
    case Packed(o, y) =>
      if off + |o| + 10 > cap then Failed(ErrBuf)
      else match PackFields(rr.rdata, off + |o| + 10, cap, y, compress)
        case Failed(e) => Failed(e)
        case Packed(d, z) =>
          if |d| > 0xFFFF then Failed(ErrRdata)
          else Packed(o + FixedHeader(rr.rrtype, rr.class_, rr.ttl, |d|) + d, z)
  }

  function PackQuestion(q: Question, off: nat, cap: nat, x: Index, compress: bool): Packed {
    match PackName(q.name, off, cap, x, compress)
    case Failed(e) => Failed(e)
    case Packed(o, y) =>
      if off + |o| + 4 > cap then Failed(ErrBuf)
      else Packed(o + (PutU16(q.qtype) + PutU16(q.qclass)), y)
  }

  // ----- layouts -----

  /**
   * How a field is laid out: a fixed width, a name, a two-octet count, as many octets as the last count
   * says, or the rest.
   */
  datatype Kind = KFixed(n: nat) | KName(compressible: bool) | KText | KCount | KSized | KRest

  function Layout(t: uint16): seq<Kind> {
    if t in {2, 3, 4, 5, 7, 8, 9, 12} then [KName(true)]                  // NS MD MF CNAME MB MG MR PTR
    else if t == 1 then [KFixed(4)]                                        // A
    else if t == 28 then [KFixed(16)]                                      // AAAA
    else if t == 6 then                                                    // SOA
      [KName(true), KName(true), KFixed(4), KFixed(4), KFixed(4), KFixed(4), KFixed(4)]
    else if t == 14 then [KName(true), KName(true)]                        // MINFO
    else if t == 15 then [KFixed(2), KName(true)]                          // MX
    else if t == 17 || t == 58 then [KName(false), KName(false)]           // RP TALINK
    else if t in {18, 21, 36, 107} then [KFixed(2), KName(false)]          // AFSDB RT KX LP
    else if t == 24 || t == 46 then                                        // SIG RRSIG
      [KFixed(2), KFixed(1), KFixed(1), KFixed(4), KFixed(4), KFixed(4), KFixed(2), KName(false), KRest]
    else if t == 23 then [KName(false)]                                    // NSAP-PTR
    else if t == 26 then [KFixed(2), KName(false), KName(false)]           // PX
    else if t == 35 then                                                   // NAPTR
      [KFixed(2), KFixed(2), KText, KText, KText, KName(false)]
    else if t == 33 then [KFixed(2), KFixed(2), KFixed(2), KName(false)]   // SRV
    else if t == 39 then [KName(false)]                                    // DNAME
    else if t == 30 || t == 47 then [KName(false), KRest]                  // NXT NSEC
    else if t == 64 || t == 65 then [KFixed(2), KName(false), KRest]       // SVCB HTTPS
    else if t == 249 then                                                  // TKEY
      [KName(false), KFixed(4), KFixed(4), KFixed(2), KFixed(2), KCount, KSized, KCount, KSized]
    else if t == TYPE_TSIG then
      [KName(false), KFixed(6), KFixed(2), KCount, KSized, KFixed(2), KFixed(2), KCount, KSized]
    else [KRest]
  }

  /** The value a field has when the record ends before it: zero, or empty text. */
  function Zero(k: Kind): Field {
    match k
    case KFixed(n) => Raw(seq(n, i => 0))
    case KName(c) => NameField([], c)
    case KText => Raw([0])
    case KCount => Raw([0, 0])
    case KSized => Raw([])
    case KRest => Raw([])
  }

  function Zeros(ks: seq<Kind>): seq<Field> {
    if ks == [] then [] else [Zero(ks[0])] + Zeros(ks[1..])
  }

  // ----- unpacking -----

  datatype UnpackedFields = Fields(fs: seq<Field>, next: nat) | BadRdata

  function Cons(f: Field, r: UnpackedFields): UnpackedFields {
    match r
    case Fields(fs, next) => Fields([f] + fs, next)
    case BadRdata => BadRdata
  }

  /**
   * The generated unpackers: field by field, leaving the remaining fields at zero when the record
   * ends. `check` says whether the end is looked for before this field: not before the first one,
   * and not right behind a counted one.
   */
  function UnpackFields(ks: seq<Kind>, msg: seq<byte>, off: nat, count: nat, check: bool): UnpackedFields {
    if ks == [] then Fields([], off)
    else if check && off == |msg| then Fields(Zeros(ks), off)
    else match ks[0]
      case KFixed(n) =>
        if off + n > |msg| then BadRdata
        else Cons(Raw(msg[off..off + n]), UnpackFields(ks[1..], msg, off + n, count, true))
      case KName(c) =>
        (match UnpackName(msg, off)
         case Bad(_) => BadRdata
         case Name(ls, next) => Cons(NameField(NameText(ls), c), UnpackFields(ks[1..], msg, next, count, true)))
      case KText =>
        if off + 1 > |msg| || off + 1 + msg[off] > |msg| then BadRdata
        else Cons(Raw(msg[off..off + 1 + msg[off]]), UnpackFields(ks[1..], msg, off + 1 + msg[off], count, true))
      case KCount =>
        if off + 2 > |msg| then BadRdata
        else Cons(Raw(msg[off..off + 2]), UnpackFields(ks[1..], msg, off + 2, GetU16(msg, off), true))
      case KSized =>
        if off + count > |msg| then BadRdata
        else Cons(Raw(msg[off..off + count]), UnpackFields(ks[1..], msg, off + count, count, false))
      case KRest =>
        if off > |msg| then BadRdata
        else Cons(Raw(msg[off..]), UnpackFields(ks[1..], msg, |msg|, count, true))
  }

  datatype UnpackedRR = Record(rr: RR, next: nat) | BadRecord

  /** `UnpackRR`. At the very end of the buffer it yields an empty record without advancing. */
  function UnpackRR(msg: seq<byte>, off: nat): UnpackedRR {
    if off == |msg| then Record(RR([], 0, 0, 0, Zeros(Layout(0))), off)
    else match UnpackName(msg, off)
      case Bad(_) => BadRecord
      case Name(ls, h) =>
        if h + 10 > |msg| then BadRecord
        else
          var t, n := GetU16(msg, h), GetU16(msg, h + 8);
          var end := h + 10 + n;
          if end > |msg| then BadRecord
          else
            var rd := if n == 0 then Fields(Zeros(Layout(t)), end)
                      else UnpackFields(Layout(t), msg[..end], h + 10, 0, false);
            if rd.BadRdata? || rd.next != end then BadRecord
            else Record(RR(NameText(ls), t, GetU16(msg, h + 2), GetU32(msg, h + 4), rd.fs), end)
  }

  datatype UnpackedQuestion = Asked(q: Question, next: nat) | BadQuestion

  /** `unpackQuestion`: a question may end early, with type or class left at zero. */
  function UnpackQuestion(msg: seq<byte>, off: nat): UnpackedQuestion {
    match UnpackName(msg, off)
    case Bad(_) => BadQuestion
    case Name(ls, h) =>
      if h == |msg| then Asked(Question(NameText(ls), 0, 0), h)
      else if h + 2 > |msg| then BadQuestion
      else if h + 2 == |msg| then Asked(Question(NameText(ls), GetU16(msg, h), 0), h + 2)
      else if h + 4 > |msg| then BadQuestion
      else Asked(Question(NameText(ls), GetU16(msg, h), GetU16(msg, h + 2)), h + 4)
  }

  // ----- records that can be carried both ways -----

  /** The fields fill the layout; `count` is the value of the last count field. */
  predicate Matches(ks: seq<Kind>, fs: seq<Field>, count: nat) {
    if ks == [] then fs == []
    else
      fs != [] &&
      match ks[0]
      case KFixed(n) => fs[0].Raw? && |fs[0].data| == n > 0 && Matches(ks[1..], fs[1..], count)
      case KName(c) => fs[0].NameField? && fs[0].compressible == c && Portable(fs[0].text)
          && Matches(ks[1..], fs[1..], count)
      case KText => fs[0].Raw? && fs[0].data != [] && |fs[0].data| == 1 + fs[0].data[0] as int
          && Matches(ks[1..], fs[1..], count)
      case KCount => fs[0].Raw? && |fs[0].data| == 2 && Matches(ks[1..], fs[1..], GetU16(fs[0].data, 0))
      case KSized => fs[0].Raw? && |fs[0].data| == count && Matches(ks[1..], fs[1..], count)
      case KRest => fs[0].Raw? && ks[1..] == [] && fs[1..] == []
  }

  /** The rdata fills the layout of the type, or there is none, as in dynamic updates. */
  predicate GoodRR(rr: RR) {
    Portable(rr.name) && (rr.rdata == [] || Matches(Layout(rr.rrtype), rr.rdata, 0))
  }

  function NormalField(f: Field): Field {
    match f
    case Raw(_) => f
    case NameField(t, c) => NameField(Normal(t), c)
  }

  function NormalFields(fs: seq<Field>): seq<Field> {
    if fs == [] then [] else [NormalField(fs[0])] + NormalFields(fs[1..])
  }

  /** The record with its names in the form the unpacker prints; fields that were not sent are zero. */
  function NormalRR(rr: RR): RR {
    rr.(name := Normal(rr.name), rdata := if rr.rdata == [] then Zeros(Layout(rr.rrtype)) else NormalFields(rr.rdata))
  }

  function NormalQuestion(q: Question): Question {
    q.(name := Normal(q.name))
  }

  // ----- round trips -----

  lemma {:induction false} PackedNameNotEmpty(s: Text, off: nat, cap: nat, x: Index, compress: bool)
    requires FullyQualified(s) && PackName(s, off, cap, x, compress).Packed?
    ensures PackName(s, off, cap, x, compress).out != []
  {
    assert s != [];
    hide IsFqdn, EndsInDot, FirstDot, FirstLabel;
    if s != [DOT] && FirstDot(s) < |s| {
      PackLabelsUnfold(s, off, cap, x, compress);
    }
  }

  /** Fields that pack to nothing are zero fields. */
  lemma {:induction false} EmptyFieldsAreZeros(ks: seq<Kind>, fs: seq<Field>, count: nat, off: nat, cap: nat, x: Index,
                                               compress: bool)
    requires Matches(ks, fs, count) && PackFields(fs, off, cap, x, compress).Packed?
    requires PackFields(fs, off, cap, x, compress).out == []
    ensures NormalFields(fs) == Zeros(ks)
  {
    hide PackName, Portable, Normal;
    if ks != [] {
      match fs[0]
      case Raw(d) =>
        assert d == [];
        EmptyFieldsAreZeros(ks[1..], fs[1..], count, off, cap, x, compress);
      case NameField(t, c) =>
        PackedPortableNotEmpty(t, off, cap, x, compress && c);
        assert false;
    }
  }

  lemma PackedPortableNotEmpty(s: Text, off: nat, cap: nat, x: Index, compress: bool)
    requires Portable(s) && PackName(s, off, cap, x, compress).Packed?
    ensures PackName(s, off, cap, x, compress).out != []
  {
    PackedNameNotEmpty(s, off, cap, x, compress);
  }

  /** A name at the end of `buf` and whatever follows it. */
  lemma {:induction false} NameStep(t: Text, buf: seq<byte>, more: seq<byte>, cap: nat, x: Index, compress: bool)
    requires Portable(t) && MapInv(buf, x) && PackName(t, |buf|, cap, x, compress).Packed?
    ensures var r := PackName(t, |buf|, cap, x, compress);
            && MapInv(buf + r.out, r.index)
            && UnpackName(buf + r.out + more, |buf|) == Name(NameLabels(t), |buf| + |r.out|)
  {
    PackNameKeepsMap(t, buf, cap, x, compress);
    NameRoundTrip(t, buf, more, cap, x, compress);
  }

  /**
   * Fields packed at the end of a message unpack to themselves with their names in normal form.
   */
  lemma {:induction false} FieldsRoundTrip(ks: seq<Kind>, fs: seq<Field>, count: nat, check: bool, buf: seq<byte>,
                                           cap: nat, x: Index, compress: bool)
    requires Matches(ks, fs, count) && MapInv(buf, x) && PackFields(fs, |buf|, cap, x, compress).Packed?
    ensures var r := PackFields(fs, |buf|, cap, x, compress);
            UnpackFields(ks, buf + r.out, |buf|, count, check) == Fields(NormalFields(fs), |buf + r.out|)
    decreases |fs|, 1
  {
    hide PackName, UnpackName, UnpackFields, Portable, MapInv, Normal;
    var r := PackFields(fs, |buf|, cap, x, compress);
    if ks == [] {
      EndStep(ks, buf + r.out, |buf|, count, check);
    } else if r.out == [] && check {
      EmptyFieldsAreZeros(ks, fs, count, |buf|, cap, x, compress);
      EndStep(ks, buf + r.out, |buf|, count, check);
    } else if fs[0].Raw? {
      RawFieldRoundTrip(ks, fs, count, check, buf, cap, x, compress);
    } else {
      NameFieldRoundTrip(ks, fs, count, check, buf, cap, x, compress);
    }
  }

  lemma {:induction false} RawFieldRoundTrip(ks: seq<Kind>, fs: seq<Field>, count: nat, check: bool, buf: seq<byte>,
                                             cap: nat, x: Index, compress: bool)
    requires Matches(ks, fs, count) && MapInv(buf, x) && PackFields(fs, |buf|, cap, x, compress).Packed?
    requires ks != [] && fs[0].Raw? && (check ==> PackFields(fs, |buf|, cap, x, compress).out != [])
    ensures var r := PackFields(fs, |buf|, cap, x, compress);
            UnpackFields(ks, buf + r.out, |buf|, count, check) == Fields(NormalFields(fs), |buf + r.out|)
    decreases |fs|, 0
  {
    hide PackName, UnpackName, UnpackFields, Portable, MapInv, Normal;
    var r := PackFields(fs, |buf|, cap, x, compress);
    var msg, d := buf + r.out, fs[0].data;
    var rest := PackFields(fs[1..], |buf| + |d|, cap, x, compress);
    assert msg == (buf + d) + rest.out;
    assert msg[|buf|..|buf| + |d|] == d;
    RawStep(ks, fs, count, msg, |buf|, check);
    if ks[0].KRest? {
      EndStep(ks[1..], msg, |msg|, count, true);
    } else {
      MapExtend(buf, d, x);
      FieldsRoundTrip(ks[1..], fs[1..], if ks[0].KCount? then GetU16(d, 0) else count, !ks[0].KSized?,
                      buf + d, cap, x, compress);
    }
  }

  lemma {:induction false} NameFieldRoundTrip(ks: seq<Kind>, fs: seq<Field>, count: nat, check: bool, buf: seq<byte>,
                                              cap: nat, x: Index, compress: bool)
    requires Matches(ks, fs, count) && MapInv(buf, x) && PackFields(fs, |buf|, cap, x, compress).Packed?
    requires ks != [] && fs[0].NameField?
    ensures var r := PackFields(fs, |buf|, cap, x, compress);
            UnpackFields(ks, buf + r.out, |buf|, count, check) == Fields(NormalFields(fs), |buf + r.out|)
    decreases |fs|, 0
  {
    hide PackName, UnpackName, UnpackFields, Portable, MapInv, Normal, NameLabels, NameText;
    var r := PackFields(fs, |buf|, cap, x, compress);
    var msg, t := buf + r.out, fs[0].text;
    var p := PackName(t, |buf|, cap, x, compress && fs[0].compressible);
    var rest := PackFields(fs[1..], |buf| + |p.out|, cap, p.index, compress);
    assert msg == (buf + p.out) + rest.out;
    PackedPortableNotEmpty(t, |buf|, cap, x, compress && fs[0].compressible);
    NameStep(t, buf, rest.out, cap, x, compress && fs[0].compressible);
    NameFieldStep(ks, msg, |buf|, count, check);
    FieldsRoundTrip(ks[1..], fs[1..], count, true, buf + p.out, cap, p.index, compress);
    NormalOf(t);
  }

  lemma NormalOf(t: Text)
    ensures Normal(t) == NameText(NameLabels(t))
  {
  }

  lemma {:induction false} EndStep(ks: seq<Kind>, msg: seq<byte>, off: nat, count: nat, check: bool)
    requires ks == [] || (check && off == |msg|)
    ensures UnpackFields(ks, msg, off, count, check) == Fields(Zeros(ks), off)
  {
  }

  /** Reading a raw field that is in place. */
  lemma {:induction false} RawStep(ks: seq<Kind>, fs: seq<Field>, count: nat, msg: seq<byte>, off: nat, check: bool)
    requires Matches(ks, fs, count) && ks != [] && fs[0].Raw? && (check ==> off < |msg|)
    requires off + |fs[0].data| <= |msg| && msg[off..off + |fs[0].data|] == fs[0].data
    requires ks[0].KRest? ==> off + |fs[0].data| == |msg|
    ensures var n := |fs[0].data|;
            UnpackFields(ks, msg, off, count, check) ==
            Cons(fs[0], UnpackFields(ks[1..], msg, off + n,
                                     if ks[0].KCount? then GetU16(fs[0].data, 0) else count, !ks[0].KSized?))
  {
    hide Portable, UnpackName;
    var d := fs[0].data;
    assert ks[0].KRest? ==> msg[off..] == msg[off..off + |d|];
    if ks[0].KText? {
      assert msg[off..off + |d|][0] == d[0];
    }
    if ks[0].KCount? {
      assert msg[off..off + 2][0] == d[0] && msg[off..off + 2][1] == d[1];
    }
  }

  lemma {:induction false} NameFieldStep(ks: seq<Kind>, msg: seq<byte>, off: nat, count: nat, check: bool)
    requires ks != [] && ks[0].KName? && (check ==> off < |msg|) && UnpackName(msg, off).Name?
    ensures var u := UnpackName(msg, off);
            UnpackFields(ks, msg, off, count, check) ==
            Cons(NameField(NameText(u.labels), ks[0].compressible), UnpackFields(ks[1..], msg, u.next, count, true))
  {
    hide UnpackName;
  }

  /** Every name among the fields is fully qualified. */
  predicate FieldNames(fs: seq<Field>) {
    forall i :: 0 <= i < |fs| && fs[i].NameField? ==> FullyQualified(fs[i].text)
  }

  /** Fields that match a layout have names that can be carried. */
  lemma {:induction false} MatchesNames(ks: seq<Kind>, fs: seq<Field>, n: nat)
    requires Matches(ks, fs, n)
    ensures forall i :: 0 <= i < |fs| && fs[i].NameField? ==> Portable(fs[i].text)
    ensures FieldNames(fs)
    decreases |fs|
  {
    hide Portable, FullyQualified;
    if fs != [] {
      var count := if ks[0].KCount? && fs[0].Raw? && |fs[0].data| == 2 then GetU16(fs[0].data, 0) as nat else n;
      MatchesNames(ks[1..], fs[1..], count);
      if fs[0].NameField? {
        PortableIsQualified(fs[0].text);
      }
      forall i | 0 <= i < |fs| && fs[i].NameField? ensures Portable(fs[i].text) && FullyQualified(fs[i].text) {
        if i > 0 {
          assert fs[i] == fs[1..][i - 1];
        }
        PortableIsQualified(fs[i].text);
      }
    }
  }

  /** Fields never disturb the map, read back or not. */
  lemma {:induction false} FieldsKeepMap(fs: seq<Field>, buf: seq<byte>, cap: nat, x: Index, compress: bool)
    requires FieldNames(fs) && MapInv(buf, x) && PackFields(fs, |buf|, cap, x, compress).Packed?
    ensures var r := PackFields(fs, |buf|, cap, x, compress); MapInv(buf + r.out, r.index)
    decreases |fs|
  {
    hide PackField, FullyQualified, MapInv;
    var r := PackFields(fs, |buf|, cap, x, compress);
    if fs == [] {
      assert buf + r.out == buf;
    } else {
      var p := PackField(fs[0], |buf|, cap, x, compress);
      var rest := PackFields(fs[1..], |buf| + |p.out|, cap, p.index, compress);
      FieldKeepsMap(fs[0], buf, cap, x, compress);
      FieldsKeepMap(fs[1..], buf + p.out, cap, p.index, compress);
      assert buf + r.out == (buf + p.out) + rest.out;
    }
  }

  lemma {:induction false} FieldKeepsMap(f: Field, buf: seq<byte>, cap: nat, x: Index, compress: bool)
    requires f.NameField? ==> FullyQualified(f.text)
    requires MapInv(buf, x) && PackField(f, |buf|, cap, x, compress).Packed?
    ensures var r := PackField(f, |buf|, cap, x, compress); MapInv(buf + r.out, r.index)
  {
    hide PackName, FullyQualified, MapInv;
    match f
    case Raw(d) => MapExtend(buf, d, x);
    case NameField(t, c) => PackNameKeepsMap(t, buf, cap, x, compress && c);
  }

  lemma {:induction false} FixedHeaderReads(a: seq<byte>, t: uint16, c: uint16, ttl: uint32, n: uint16, b: seq<byte>)
    ensures var msg := a + FixedHeader(t, c, ttl, n) + b;
            && GetU16(msg, |a|) == t && GetU16(msg, |a| + 2) == c
            && GetU32(msg, |a| + 4) == ttl && GetU16(msg, |a| + 8) == n
  {
    hide GetU16, GetU32, PutU16, PutU32;
    var msg := a + FixedHeader(t, c, ttl, n) + b;
    assert msg == a + PutU16(t) + (PutU16(c) + PutU32(ttl) + PutU16(n) + b);
    U16RoundTrip(t, a, PutU16(c) + PutU32(ttl) + PutU16(n) + b);
    assert msg == (a + PutU16(t)) + PutU16(c) + (PutU32(ttl) + PutU16(n) + b);
    U16RoundTrip(c, a + PutU16(t), PutU32(ttl) + PutU16(n) + b);
    assert msg == (a + PutU16(t) + PutU16(c)) + PutU32(ttl) + (PutU16(n) + b);
    U32RoundTrip(ttl, a + PutU16(t) + PutU16(c), PutU16(n) + b);
    assert msg == (a + PutU16(t) + PutU16(c) + PutU32(ttl)) + PutU16(n) + b;
    U16RoundTrip(n, a + PutU16(t) + PutU16(c) + PutU32(ttl), b);
  }

  /** Reading a record whose parts are in place. */
  lemma {:induction false} RRInPlace(rr: RR, a: seq<byte>, d: seq<byte>, more: seq<byte>, off: nat, ls: seq<Label>,
                                     fs: seq<Field>)
    requires |d| <= 0xFFFF && off < |a|
    requires var msg := a + FixedHeader(rr.rrtype, rr.class_, rr.ttl, |d|) + (d + more);
              UnpackName(msg, off) == Name(ls, |a|)
    requires if d == [] then fs == Zeros(Layout(rr.rrtype))
             else var b := a + FixedHeader(rr.rrtype, rr.class_, rr.ttl, |d|);
                  UnpackFields(Layout(rr.rrtype), b + d, |b|, 0, false) == Fields(fs, |b + d|)
    ensures var msg := a + FixedHeader(rr.rrtype, rr.class_, rr.ttl, |d|) + (d + more);
            UnpackRR(msg, off) == Record(RR(NameText(ls), rr.rrtype, rr.class_, rr.ttl, fs), |a| + 10 + |d|)
  {
    hide UnpackName, UnpackFields, Layout, Zeros, GetU16, GetU32, NameText;
    var fixed := FixedHeader(rr.rrtype, rr.class_, rr.ttl, |d|);
    var msg := a + fixed + (d + more);
    FixedHeaderReads(a, rr.rrtype, rr.class_, rr.ttl, |d|, d + more);
    assert msg[..|a| + 10 + |d|] == (a + fixed) + d;
  }

  lemma OwnerGood(rr: RR)
    requires GoodRR(rr)
    ensures Portable(rr.name)
  {
  }

  lemma NormalHeader(rr: RR)
    ensures NormalRR(rr) == RR(Normal(rr.name), rr.rrtype, rr.class_, rr.ttl, NormalRR(rr).rdata)
  {
  }

  /** Packed rdata reads back, and rdata that packs to nothing is the zero fields. */
  lemma {:induction false} RdataReads(rr: RR, b: seq<byte>, cap: nat, x: Index, compress: bool)
    requires GoodRR(rr) && MapInv(b, x) && PackFields(rr.rdata, |b|, cap, x, compress).Packed?
    ensures var q := PackFields(rr.rdata, |b|, cap, x, compress);
            && MapInv(b + q.out, q.index)
            && if q.out == [] then NormalRR(rr).rdata == Zeros(Layout(rr.rrtype))
               else UnpackFields(Layout(rr.rrtype), b + q.out, |b|, 0, false) == Fields(NormalRR(rr).rdata, |b + q.out|)
  {
    hide PackField, UnpackFields, Portable, MapInv, Layout, Matches, Zeros, Normal;
    if rr.rdata == [] {
      assert b + [] == b;
    } else {
      var ks := Layout(rr.rrtype);
      MatchesNames(ks, rr.rdata, 0);
      FieldsKeepMap(rr.rdata, b, cap, x, compress);
      FieldsRoundTrip(ks, rr.rdata, 0, false, b, cap, x, compress);
      if PackFields(rr.rdata, |b|, cap, x, compress).out == [] {
        EmptyFieldsAreZeros(ks, rr.rdata, 0, |b|, cap, x, compress);
      }
    }
  }

  /** A record packed at the end of a message keeps the map invariant and unpacks to its normal form. */
  lemma {:induction false} RRRoundTrip(rr: RR, buf: seq<byte>, more: seq<byte>, cap: nat, x: Index, compress: bool)
    requires GoodRR(rr) && MapInv(buf, x) && PackRR(rr, |buf|, cap, x, compress).Packed?
    ensures var r := PackRR(rr, |buf|, cap, x, compress);
            && r.out != [] && MapInv(buf + r.out, r.index)
            && UnpackRR(buf + r.out + more, |buf|) == Record(NormalRR(rr), |buf| + |r.out|)
  {
    hide PackName, PackFields, UnpackName, UnpackFields, UnpackRR, MapInv, GoodRR, FixedHeader, NormalRR, Normal,
         NameText, NameLabels;
    OwnerGood(rr);
    var r := PackRR(rr, |buf|, cap, x, compress);
    var p := PackName(rr.name, |buf|, cap, x, compress);
    var q := PackFields(rr.rdata, |buf| + |p.out| + 10, cap, p.index, compress);
    var fixed := FixedHeader(rr.rrtype, rr.class_, rr.ttl, |q.out|);
    var a := buf + p.out;
    var b := a + fixed;
    PackedPortableNotEmpty(rr.name, |buf|, cap, x, compress);
    NameStep(rr.name, buf, fixed + (q.out + more), cap, x, compress);
    MapExtend(a, fixed, p.index);
    RdataReads(rr, b, cap, p.index, compress);
    assert buf + r.out == b + q.out;
    assert buf + r.out + more == a + fixed + (q.out + more) == buf + p.out + (fixed + (q.out + more));
    RRInPlace(rr, a, q.out, more, |buf|, NameLabels(rr.name), NormalRR(rr).rdata);
    NormalOf(rr.name);
    NormalHeader(rr);
  }

  /** A question packed at the end of a message unpacks to its normal form. */
  lemma {:induction false} QuestionRoundTrip(q: Question, buf: seq<byte>, more: seq<byte>, cap: nat, x: Index,
                                             compress: bool)
    requires Portable(q.name) && MapInv(buf, x) && PackQuestion(q, |buf|, cap, x, compress).Packed?
    ensures var r := PackQuestion(q, |buf|, cap, x, compress);
            && r.out != [] && MapInv(buf + r.out, r.index)
            && UnpackQuestion(buf + r.out + more, |buf|) == Asked(NormalQuestion(q), |buf| + |r.out|)
  {
    hide PackName, UnpackName, Portable, MapInv, Normal, NameText, NameLabels, GetU16, PutU16;
    var r := PackQuestion(q, |buf|, cap, x, compress);
    var p := PackName(q.name, |buf|, cap, x, compress);
    var a := buf + p.out;
    var tail := PutU16(q.qtype) + PutU16(q.qclass);
    var msg := buf + r.out + more;
    assert msg == a + (tail + more);
    NameStep(q.name, buf, tail + more, cap, x, compress);
    MapExtend(a, tail, p.index);
    assert buf + r.out == a + tail;
    assert msg == a + PutU16(q.qtype) + (PutU16(q.qclass) + more);
    U16RoundTrip(q.qtype, a, PutU16(q.qclass) + more);
    assert msg == (a + PutU16(q.qtype)) + PutU16(q.qclass) + more;
    U16RoundTrip(q.qclass, a + PutU16(q.qtype), more);
    NormalOf(q.name);
  }
}
