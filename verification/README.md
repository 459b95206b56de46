# A verified model of a DNS library

This project models the protocol core of a Go DNS library in Dafny and proves what that core is
for: that messages survive packing and unpacking, that the length computed without packing is the
length packed, that truncation is optimal, that a signed zone transfer verifies message by message
and delivers exactly the records sent, and that the set-like, escaped and canonical encodings around
it mean what they should.

`dafny verify dfyconfig.toml` checks everything.

## How the model is built

- A Go string or buffer is a `seq<byte>`; text is presentation text, byte by byte. Integers are
  unbounded, and every 16-, 32-, 48- or 64-bit truncation that matters is written out.
- `Presentation` reads a text from left to right, and its functions work on suffixes, since a suffix
  is what the compression map is keyed by. The index-moving loops (the packer with its scratch
  buffer, the length simulator, the label walks, the validity check) are methods proved against it.
- A record is a header and a list of fields: raw octets, or names that may or may not be compressed.
  `Records.Layout` is the table of the generated packers and unpackers for the types whose rdata has
  names, but for three named under "Left out".
- What the source updates in place is a class or an array here: the compression map, the suffix set
  of the simulator, the message, the transfer client, the server's response, the bitmap buffer, the
  records of `Dedup`, the `$GENERATE` reader. Each method is proved against a function, and the laws
  are lemmas about the functions.
- Round trips say nothing about a table that both directions share, so the formats are also stated by
  their octets and characters: `WireFormats`, `RdataFormats`, `TsigFormats`, `Spelling`, `GenerateText`.
- The MAC provider is an arbitrary function, the hash of a name an arbitrary text, a record's
  duplicate key an arbitrary TTL-independent text; clocks and what a connection brings are parameters.

Main theorems, by component:

| component | theorem |
|---|---|
| names and compression | `Compression.PackNameKeepsMap`, `Compression.FollowExact`, `Compression.NameRoundTrip`, `NameUnpack.UnpackThenPack`, `PointerCap.OneLabelTooMany` |
| messages | `MessageRoundTrip.MessageReturns`, `MessageLength.LenCoversPack`, `MessageLength.PackSucceeds` |
| truncation | `Truncation.TruncateKeepsLongestPrefix`, `Truncation.TruncateFits`, `Truncation.TruncatedPacketFits` |
| TSIG and transfers | `TsigRoundTrip.HonestMessageVerifies`, `TsigProgress.GenerateExactly`, `TransferTsig.ChainsAgree`, `TransferDelivery.SignedTransferDelivers`, `TransferProgress.OutExactly`, `TransferProgress.SignedTransferCompletes`, `TransferReuse.AcceptedExactly` |
| bitmaps and parameters | `NsecBitmap.BitmapRoundTrip`, `NsecCodec.MapLenExact`, `Svcb.AlpnRoundTrip` |
| DNSSEC | `SignedData.SignedDataCanonical`, `SignedData.DataExactly`, `Wildcard.SignKeepsOwner`, `Nsec3.ChainPartition`, `Nsec3.ChainMatch` |
| text walks | `DomainName.DisagreeExactly`, `Qualified.IsFqdnExact`, `LabelWalks.PrevLabel`, `Subdomain.IsSubDomain` |
| formats | `RdataFormats.SoaIs`, `WireFormats.HeaderSays`, `TsigFormats.DigestIs`, `Spelling.NameSpelling`, `GenerateText.RunText`, `SignedData.SignedDataAscends`, `MessageRoundTrip.ExtraReturns` |
| in-place algorithms | `Dedup.Dedup`, `Dedup.HandedBackExactly`, `Generate.RunsExactly`, `Generate.Generated` |

## Where the code and its promise part

- **Pointer cap.** A name of 127 labels fits 255 octets, but when it is packed again at the end of a
  ladder of shorter names it needs 127 pointers and the cap is 126 (`PointerCap.OneLabelTooMany`).
  `Compression.NameAtUnpacks` gives the exact condition.
- **`IsFqdn` beyond ASCII.** The parity of the backslash run is measured from the start of the rune
  before it, so a rune of two or four bytes inverts the answer (`Qualified.IsFqdnExact`).
- **`IsDomainName`.** Its limit is 257 octets, not 255, and its escape flag is flipped rather than
  recomputed, so three backslashes are accepted as a name. `DomainName.DisagreeExactly` says for every
  text when the check and the packer part, and `DomainName.DisagreeOnAscii` names the ASCII texts: they
  end in an odd run of backslashes, but in an even run of adjacent escapes.
- **`stripTsig`.** The test for a missing TSIG never fires (`TsigEdges.NoSigExactly`): additional
  records without a TSIG lead to a cut message and an empty signature (`TsigEdges.UnsignedIsStripped`),
  which is valid exactly for a provider that answers an empty MAC for an unnamed key and algorithm
  (`TsigEdges.UnsignedVerdict`).
- **One-octet MACs.** The buffer for the request MAC is too short for a MAC of one octet, so nothing
  is signed or valid behind one (`TsigEdges.OneOctetMac`, `TsigProgress.GenerateExactly`), and a chain
  that holds one is stuck (`TransferProgress.OneOctetChain`, `TransferProgress.OneOctetRead`).
- **IXFR serials** are compared as plain numbers, although they wrap: an answer is delivered whole
  exactly when its serial is the larger number or it came in one message
  (`Transfer.IxfrDeliversExactly`), so a client at 0xFFFFFFFF drops the rest of a zone at serial 1
  (`Transfer.WrappedSerial`).
- **A label count of zero** makes the wildcard owner `*..`, which no packer accepts
  (`SignedData.NoLabelsNoData`). With any other count, and for the root, a record yields data exactly
  when its rdata fits 65535 octets (`SignedData.DataExactly`).
- **`Sign` and the asterisk.** Its label count is one less for every owner that begins with an
  asterisk, also where that is not a label: `*foo.example.` is signed as `*.example.`, and `*.` gets the
  count zero. `Wildcard.SignKeepsOwner` says exactly when the owner signed is the owner given.
- **`Cover`** holds of a record's own owner hash unless it is the last of the chain
  (`Nsec3.ChainMatch`), and neither `Cover` nor `Match` ever holds in the root zone
  (`Nsec3.RootZoneSilent`).
- **`typeBitMapLen`** of the empty list is 2, though nothing is written (`NsecCodec.MapLenOfNothing`).
- **`Dedup`** leaves the caller's map full when there was nothing to remove. With a map that still
  holds records, the slice can be handed back with its duplicates (`Dedup.DuplicateStays`; exactly
  when, `Dedup.HandedBackExactly`), and a TTL can be lowered in a record that is only in the map.
  `Dedup.Dedup` gives the slice, the TTL of every record of slice and map, and the map afterwards.
- **A `Transfer` is for one transfer.** Its timers-only flag is never reset (`TransferReuse.UsedClient`),
  while a server always verifies a request with the full variables and no request MAC. With MACs that
  tell buffers apart a request is authentic exactly from a fresh chain (`TransferReuse.AcceptedExactly`);
  `TransferReuse.UsedClientRefused` is a provider under which every used client is refused.
- **The accept function** lets one authority record through, for IXFR, where its comment says none
  (`Acceptance.PackedAccepted`).
- **`$GENERATE` offsets.** The check of the upper end of the range wraps around at 64 bits, so an offset
  next to the largest is accepted and prints negative values (`GenerateText.WrappedOffset`);
  `GenerateText.BlockValue` says when the value printed is the sum.
- **A full buffer.** `PackRR` at the very end of a buffer reports a record without rdata as packed
  although no header is written, and overwrites the two octets before the end (`RecordCodec.PackRecord`).

## Model

| member | source | states |
|---|---|---|
| Presentation.EscapeLabelReads | types.go:653-693 | a label of arbitrary octets, escaped and followed by a dot or the end, reads back to the same octets and ends at the same place |
| Presentation.TextOfReads | msg.go:400-420 | printing any list of labels and splitting the text at unescaped dots returns the list |
| Presentation.NameTextReads | msg.go:445-452 | the printed form of good labels, the lone dot for none, reads back to them and is a good name |
| Spelling.OctetSpelling | types.go:653-693 | an octet is printed behind a backslash exactly when it is one of `. ' @ ; ( ) " \` or a space, as a backslash and three decimal digits exactly when it is below 32 or above 126, and alone otherwise |
| Spelling.NameSpelling | msg.go:400-420 | the printed text of a name is the one text that spells its labels octet by octet, each with a dot behind it, and a lone dot for the root |
| Spelling.DigitsRead | msg.go:554-558 | three digits behind a backslash stand for their value modulo 256 |
| Spelling.EscapeRead | msg.go:246-266 | any other octet behind a backslash stands for itself |
| Qualified.Fqdn | defaults.go:322-327 | the result ends in a dot, and a dot is added exactly when `IsFqdn` does not hold |
| Qualified.ParityIsLeftToRight | defaults.go:279-298 | for a text ending in a dot, an even backslash run before it means that left-to-right reading ends in an unescaped dot, and conversely |
| Qualified.IsFqdnExact | defaults.go:279-298 | exactly when `IsFqdn` agrees with left-to-right reading: unless the rune before the backslash run has an even width |
| Qualified.IsFqdnOnAscii | defaults.go:279-298 | on ASCII text `IsFqdn` is left-to-right reading |
| Qualified.IsFqdnWrongBeyondAscii | defaults.go:279-298 | a concrete text that ends in an escaped dot and passes, and one that ends in a real dot and is refused |
| Qualified.RuneIs | defaults.go:279-298 | a text that ends in the UTF-8 encoding of a character has that for its last rune |
| Qualified.RuneFound | defaults.go:279-298 | a last rune of more than one byte is the encoding of a character |
| Qualified.NameTextIsFqdn | msg.go:445-452 | whatever the unpacker prints is fully qualified, by the code's test and by reading |
| LabelWalks.FirstDotParity | labels.go:128-150 | a dot is the first unescaped one exactly when the backslash run before it is even |
| LabelWalks.NextLabel | labels.go:128-150 | the offset behind the next unescaped dot that is not the last byte, or the end and the offset that goes with it, and no such dot in between |
| LabelWalks.Split | labels.go:107-121 | the offsets of all labels in left-to-right reading; none for the root |
| LabelWalks.CountLabel | labels.go:88-101 | the number of entries of `Split` |
| LabelWalks.StartsShape | labels.go:107-121 | the entries are 0 and the places behind unescaped dots, strictly increasing |
| LabelWalks.PrevLabel | labels.go:154-187 | the n-th entry from the end of `Split`, and `start` exactly when there are fewer than n labels; the empty text and the lone dot as well |
| Subdomain.Equal | labels.go:190-212 | true exactly when the two texts are equal after folding ASCII case |
| Subdomain.CompareDomainName | labels.go:49-84 | the length of the longest common suffix of the two case-folded label lists |
| Subdomain.CommonSuffixWhole | labels.go:49-84 | the common suffix is the whole list exactly when the list is a suffix of the other |
| Subdomain.IsSubDomain | defaults.go:261-264 | true exactly when the parent's case-folded labels are a suffix of the child's |
| Subdomain.SubdomainIsPreorder | defaults.go:261-264 | the relation is reflexive and transitive, and the root is above every name |
| NamePack.RemoveEscape | msg.go:246-266 | in the scratch buffer an escape becomes its octet and the text behind it moves down, nothing before it changes |
| NamePack.WriteOrPoint | msg.go:287-318 | a known suffix gives its pointer and writes nothing; otherwise the label is written and the suffix noted when its offset fits 14 bits |
| NamePack.PointerIs | msg.go:287-336 | a pointer is 0xC000 plus its offset, and a suffix is noted exactly below 16384 |
| NamePack.CloseLabel | msg.go:268-322 | at an unescaped dot: the error of an empty, long or overflowing label, a pointer that completes the name, or the loop state with the label written |
| NamePack.Finish | msg.go:327-347 | the pointer, the root octet, or the overflow error, with nothing else written |
| NamePack.PackText | msg.go:232-347 | the loop over the shifting scratch buffer writes what packing label by label from the original text writes, and leaves the same map |
| NamePack.PackDomainName | msg.go:206-348 | the in-place packer refines `PackName`: same octets at the same place, same map, same error |
| NameUnpack.UnpackDomainName | msg.go:381-452 | total on every buffer: at most 127 label steps and 126 pointer steps, and the text, end or error of the recursive reader |
| NameUnpack.TextFits | msg.go:39-46 | text of good labels in 255 octets has at most 1004 bytes |
| NameUnpack.WireUnpacks | msg.go:381-452 | an uncompressed name of at most 255 octets unpacks wherever it lies, 127 labels included |
| NameUnpack.PackLabelsPlain | msg.go:206-348 | without compression a name packs exactly when its labels are good and fit, and then to its wire form |
| NameUnpack.UnpackThenPack | msg.go:381-452 | a name that unpacks, from any buffer, has at most 127 labels, 255 octets and 1004 bytes of text, and repacking the text gives exactly the expanded labels |
| Compression.PackLabelsGrows | msg.go:291-310 | packing adds only entries for suffixes of the name and never changes one |
| Compression.PackNameKeepsMap | msg.go:168-193 | over any run of packings every map entry is below 16384 and decodes to the labels of its key through strictly backward pointers to literal labels, and the name just packed is reachable with no more pointers than labels |
| Compression.FollowExact | msg.go:381-452 | a name that decodes is accepted exactly when its pointers fit the cap and its octets the budget, and then its labels and end are returned |
| Compression.NameAtUnpacks | msg.go:381-452 | a name in place unpacks exactly under those limits; 126 labels and 255 octets suffice |
| Compression.NameRoundTrip | msg.go:206-452 | pack then unpack, compressed, anywhere in a message: the same labels, and the offset behind the name |
| PointerCap.RungsNeed | msg.go:423-440 | a name of k labels chained by pointers cannot be read with fewer than k - 1 of them |
| PointerCap.BuildIs | msg.go:291-336 | packing names of 1 to k equal letters leaves a chain of one label and one pointer per name, and the map invariant holds |
| PointerCap.OneLabelTooMany | msg.go:28-36 | a name of 127 labels and 255 octets that packs at the end of such a message and does not unpack |
| NameLength.EscapedLenIsWireLen | msg.go:1033-1050 | the escaped length of a name ending in a dot is its wire length without the root octet |
| NameLength.EscapedNameLen | msg.go:1033-1050 | the loop computes the escaped length |
| NameLength.LenSearchExactly | msg.go:1052-1064 | the search stops at the longest suffix that is in the set, and adds exactly the longer ones that start below 16384 |
| NameLength.CompressionLenSearch | msg.go:1052-1064 | the loop that inserts into the set refines the search |
| NameLength.DomainNameLen | msg.go:1007-1031 | predicted length and new set, with and without compression |
| LengthRefinement.LabelsCovered | msg.go:1007-1064 | the search never finds a shorter match than the packer, although the two sides test different offsets against 16384 |
| LengthRefinement.NameCovered | msg.go:1007-1064 | the prediction for a fully qualified name is never below the octets packed, and the sets stay related for the next name |
| LengthRefinement.NameExact | msg.go:1007-1064 | without escapes the prediction is the length packed and both sides hold the same suffixes |
| Records.FieldsRoundTrip | zmsg.go:2035-2051 | rdata fields packed after any message read back, names in normal form, for every layout |
| Records.EndStep | zmsg.go:2622-2667 | fields missing at the end of the rdata are left at zero |
| Records.EmptyFieldsAreZeros | zmsg.go:2622-2667 | fields that pack to nothing are those zero fields, so a record without rdata reads back |
| Records.FieldsKeepMap | zmsg.go:927-958 | packing rdata keeps the compression-map invariant |
| Records.RRRoundTrip | msg.go:582-650 | a record packed after any message, one without rdata as dynamic updates use it included, reads back in normal form and ends where it was written to end |
| Records.QuestionRoundTrip | msg.go:1105-1150 | the same for a question |
| RdataFormats.AddressReads | zmsg.go:1221-1230 | A: four octets of rdata |
| RdataFormats.AddressIs | zmsg.go:1221-1230 | an A record with four octets is read as those octets, one without rdata as zeros, and any other is refused |
| RdataFormats.LongAddressReads | zmsg.go:1232-1241 | AAAA: sixteen octets of rdata |
| RdataFormats.LongAddressIs | zmsg.go:1232-1241 | an AAAA record with sixteen octets is read as those octets, one without rdata as zeros, and any other is refused |
| RdataFormats.NameReads | zmsg.go:2139-2148 | NS, MD, MF, CNAME, MB, MG, MR and PTR: one name, compressible |
| RdataFormats.PlainNameReads | zmsg.go:2150-2159 | NSAP-PTR and DNAME: one name, not compressible |
| RdataFormats.SoaReads | zmsg.go:2622-2673 | SOA: two compressible names and five numbers of four octets, at whatever field the rdata ends |
| RdataFormats.SoaIs | zmsg.go:2622-2673 | an SOA with both names is read with five times four octets to the end of its rdata, or with none; otherwise it is refused |
| RdataFormats.MinfoReads | zmsg.go:2006-2022 | MINFO: two compressible names |
| RdataFormats.MxReads | zmsg.go:2035-2051 | MX: two octets and a compressible name |
| RdataFormats.MxIs | zmsg.go:2035-2051 | an MX with more than two octets is its preference and a name that ends with the rdata, or is refused |
| RdataFormats.TwoNamesRead | zmsg.go:2420-2436 | RP and TALINK: two names, not compressible |
| RdataFormats.PreferredNameReads | zmsg.go:1243-1259 | AFSDB, RT, KX and LP: two octets and a name, not compressible |
| RdataFormats.SignatureReads | zmsg.go:2438-2503 | SIG and RRSIG: 2, 1, 1, 4, 4, 4 and 2 octets, the signer and the signature |
| RdataFormats.PxReads | zmsg.go:2341-2364 | PX: two octets and two names |
| RdataFormats.SrvReads | zmsg.go:2686-2716 | SRV: three times two octets and a name, not compressible |
| RdataFormats.SrvIs | zmsg.go:2686-2716 | an SRV with more than six octets is its three numbers and a name that ends with the rdata, or is refused |
| RdataFormats.NaptrReads | zmsg.go:2053-2097 | NAPTR: twice two octets, three strings with their lengths and a name |
| RdataFormats.NextReads | zmsg.go:2161-2177 | NXT and NSEC: a name and the rest |
| RdataFormats.ServiceReads | zmsg.go:2743-2766 | SVCB and HTTPS: two octets, a name and the rest |
| RdataFormats.TkeyReads | zmsg.go:2818-2880 | TKEY: a name, 4, 4, 2 and 2 octets, and two counted octet strings |
| RdataFormats.TsigReads | zmsg.go:2914-2976 | TSIG: a name, 6 and 2 octets, a counted MAC, 2 and 2 octets, and counted other data |
| RdataFormats.OtherReads | zmsg.go:2377-2386 | every other type, raw in this model: the octets as they are |
| RecordCodec.PackRdata | zmsg.go:541-551 | the packers run over a shared buffer and map and write what the functions say |
| RecordCodec.PackHeader | msg_helpers.go:102-130 | owner name and fixed header with a zero rdata length are written; a full buffer is left alone without an error |
| RecordCodec.PackRecord | msg.go:582-605 | the rdata length is patched in behind the rdata; the whole record is as `PackRR` says, or its error; at the end of a full buffer a record without rdata overwrites the two octets before it |
| RecordCodec.PackSection | msg.go:778-800 | a section is packed record by record with one shared map |
| Message.BitsRoundTrip | msg.go:1213-1225 | every header flag survives the flag word, and the rcode its low four bits |
| MessageRoundTrip.HeaderReads | msg.go:1180-1210 | the twelve octets of a header read back to its ID, flag word and counts |
| MessageRoundTrip.RcodeReturns | edns.go:171-180 | a rcode up to 0xFFF goes out in the OPT record and the header and comes back whole |
| MessageRoundTrip.OnlyTopOctet | edns.go:178-180 | in what is sent, only the top octet of the TTL of the last OPT record differs, and is `rcode / 16`: version, DO bit and every other record are as they were |
| MessageRoundTrip.ExtraReturns | msg.go:739-880 | the additional section received, record by record against the one of the message: types, classes, rdata octets and TTLs, but for that octet |
| WireFormats.HeaderIs | msg.go:1180-1210 | the twelve octets of a header: ID, QR, opcode, AA, TC, RD, RA, Z, AD, CD, rcode and four counts, each at its bit |
| WireFormats.HeaderSays | msg.go:1213-1225 | what those octets say of a received message |
| WireFormats.QuestionIs | msg.go:1105-1125 | a question is its name, two octets of type and two of class |
| WireFormats.RecordIs | msg.go:582-605 | a record is its name, type, class, TTL and length, high octets first, and the octets of its rdata in order |
| WireFormats.TypeFromOctets | types.go:33-107 | SOA, OPT and TSIG are the types 6, 41 and 250 on the wire |
| WireFormats.QuestionReads | msg.go:1126-1150 | a question ends where the message does, with zeros for a missing type or class; one or three octets are refused |
| WireFormats.RecordRefused | msg.go:620-650 | a record is refused when its name is, or when the message ends before it |
| WireFormats.CountTooHigh | msg.go:653-674 | at the end of a message nothing is read, however many records are promised |
| WireFormats.HeaderAlone | msg.go:827-836 | twelve octets are a message without sections, whatever its counts; fewer are refused |
| MessageRoundTrip.SectionsRoundTrip | msg.go:739-880 | the sections read back whatever stands before and behind them |
| MessageRoundTrip.MessageReturns | msg.go:739-880 | the whole-message round trip, compressed or not, in any caller's buffer: header, questions and every record in its section, names in normal form |
| MessageLength.LenCoversPack | msg.go:961-1004 | `Len` is never below the packed length, and equal to it when no name has an escape, raw fields counted by their octets |
| MessageLength.PackSucceeds | msg.go:752-760 | the buffer allocated from the uncompressed length is long enough for every message that can be carried |
| MessageObject.RecordLen | msg.go:982-1004 | the running length of a record with its suffixes inserted into the shared set |
| MessageObject.Packet.Length | msg.go:982-1004 | the running length over all sections, message unchanged |
| MessageObject.Packet.PopEdns0 | defaults.go:160-172 | the last OPT record is taken out and the others keep their order |
| MessageObject.Packet.Edns0Index | defaults.go:147-156 | the position of the last OPT record |
| MessageObject.TruncateLoop | msg_truncate.go:99-117 | running length and number of records kept, as `Keep` says |
| MessageObject.Packet.Truncate | msg_truncate.go:29-92 | the fields afterwards are those of `Truncated` |
| MessageObject.Packet.Unpack | msg.go:827-880 | the fields afterwards are those of `UnpackMsg`, or an error |
| MessageObject.Packet.PackInto | msg.go:778-815 | all sections in the buffer behind the header, one map through all of them |
| MessageObject.Packet.StoreRcode | msg.go:740-751 | the high rcode bits go into the OPT record; without one, or beyond 0xFFF, the error |
| MessageObject.Packet.PackBuffer | msg.go:727-820 | the octets or the error of `PackMsg`, and the message left with its OPT record updated |
| MessageObject.UnpackSlice | msg.go:653-674 | records read until the count or until the offset stops growing, all or nothing |
| Truncation.KeepIsMaximal | msg_truncate.go:99-117 | the loop keeps as many records as fit and closes the budget at the first that does not |
| Truncation.TruncateKeepsLongestPrefix | msg_truncate.go:29-117 | the records kept are a prefix of answer, authority and additional (less the OPT) that fits, and no longer prefix does |
| Truncation.TruncatedLen | msg_truncate.go:29-117 | the compressed length of the result is that of the prefix plus the OPT record |
| Truncation.TruncateFits | msg_truncate.go:29-117 | the result is within max(size, 512) exactly when header, questions and OPT record alone are |
| Truncation.TruncateFlagsAndOpt | msg_truncate.go:60-92 | TC is set exactly when it was set before or a record was dropped; the OPT record and the questions stay |
| Truncation.TruncatedPacketFits | msg_truncate.go:29-117 | what is packed after truncation is no longer than asked for |
| TsigRoundTrip.FromToRR | tsig.go:95-110 | a signature read back from its record is the same |
| TsigRoundTrip.StripUndoesAttach | tsig.go:325-381 | stripping what was attached gives the packed message under its original ID and the signature sent |
| TsigRoundTrip.MacFits | tsig.go:205-213 | a record that packs has a MAC that fits its size field |
| TsigRoundTrip.SignedMessageReturns | tsig.go:171-216 | a signed message unpacks to the message that was signed with the TSIG as last record |
| TsigRoundTrip.VerdictIs | tsig.go:231-260 | the verdict on a signed message for any request MAC and flag of the receiver: what it authenticates, and every error |
| TsigRoundTrip.HonestMessageVerifies | tsig.go:231-260 | the receiver authenticates byte for byte what the sender did: the verdict is valid, or the time error exactly when the clocks are further apart than the fudge |
| TsigCodec.StripInPlace | tsig.go:325-381 | the walk over the buffer with ARCOUNT decremented in place refines `StripTsig`, error cases included |
| TsigCodec.BufferInPlace | tsig.go:263-322 | the octets for the MAC, and the buffer left under the original ID |
| TsigFormats.DigestIs | tsig.go:263-322 | what a MAC covers, octet by octet: request MAC with its length, original ID, message, and key name, class, TTL, algorithm, time, fudge, error and other data in that order |
| TsigFormats.TimersDigestIs | tsig.go:286-300 | for later messages time and fudge alone |
| TsigFormats.SignatureIs | zmsg.go:1111-1149 | the record attached, octet by octet |
| TsigFormats.ReplySignature | xfr.go:229-235 | a reply is to be signed exactly when the request was and its signature was valid, with the key, algorithm and fudge of the request, class 255 and the ID of the request |
| TsigFormats.NotAuthExactly | tsig.go:336-343 | the authentication error is given exactly for an additional record and rcode 9 |
| TsigFormats.ErrorUnsigned | tsig.go:188-203 | behind the errors 16 and 17 the provider is not asked, and the record has neither MAC nor time |
| TsigFormats.TimeWindow | tsig.go:250-258 | an honest message is valid exactly within the fudge of its time, before or after, with 300 seconds for a fudge of zero |
| Transfer.AxfrDelivers | xfr.go:87-138 | for every cut of an AXFR stream with a non-empty first message: one clean envelope per message, stop at the closing SOA, nothing read after it |
| Transfer.EndsInLastChunk | xfr.go:184-203 | cutting a stream does not move the record at which the SOA count ends it |
| Transfer.FullStreamEnds | xfr.go:184-203 | a full zone sent for an IXFR request ends the count at its last record and not before |
| Transfer.IncrementalStreamEnds | xfr.go:184-203 | so does an incremental stream of any number of steps whose intermediate serials differ from the current one |
| Transfer.IxfrStreamsDeliver | xfr.go:140-204 | both kinds are delivered whole, however they are cut, when the requested serial is below the current one |
| Transfer.IxfrStopsAtFirst | xfr.go:176-182 | with a requested serial not below it the receiver stops at the first message |
| Transfer.IxfrDeliversExactly | xfr.go:140-204 | either kind of answer, however it is cut, is delivered whole exactly when its serial is above the requested one as a plain number or it came in one message |
| Transfer.WrappedSerial | xfr.go:176-182 | a zone at serial 1 in two messages, which is later than 0xFFFFFFFF, is cut off after the first |
| Transfer.FaultsExactly | xfr.go:87-204 | over any run: every envelope has the records of its reply and exactly the fault of that reply (read, ID, rcode, missing SOA), and the first fault ends the run |
| WireFormats.SerialFromOctets | xfr.go:176-182 | the serial compared is the four octets behind the two names of the SOA |
| WireFormats.AxfrQueryIs | defaults.go:98-117 | the request of a zone transfer, octet by octet |
| WireFormats.ReplyHeaderIs | defaults.go:15-30 | the header of every reply: ID and opcode of the request, QR and AA, RD and CD copied for queries, one question at most |
| Acceptance.HeaderDecides | acceptfunc.go:33-59 | the action on a packed message, from the fields its header was made from |
| Acceptance.PackedAccepted | acceptfunc.go:33-59 | a packed message is handed on exactly when it is a query or notification with one question, at most one answer and one authority record and at most two additional records |
| Acceptance.SignedAccepted | acceptfunc.go:33-59 | the same for a signed message, the TSIG being one additional record more |
| WireFormats.ActionFromOctets | acceptfunc.go:33-59 | the action read off the octets of the header |
| TransferTsig.StepAgrees | xfr.go:243-278 | from any common chain, an honest message written by one side and read in time by the other is accepted and leaves both with the same chain |
| TransferTsig.RequestAccepted | server.go:628-683 | the server hands on a signed request exactly when it is acceptable, finds it authentic and starts from the client's chain |
| TransferTsig.ChainsAgree | xfr.go:223-278 | over any number of envelopes: before every message the client's MAC and timers-only flag are those the server held before writing it, and every signature is accepted |
| TransferDelivery.SignedTransferDelivers | xfr.go:49-278 | request to last envelope: chains equal at every message, every signature valid, and the client hands on exactly the records sent, message by message |
| ExactSizes.CanonicalNameable | defaults.go:332-339 | the canonical form of a name that can be written can be written, in as many octets and labels |
| ExactSizes.RRPacksExactly | msg.go:582-605 | a record with names that can be written packs uncompressed into its predicted length exactly when its rdata fits 65535 octets, and then takes the sum of its parts |
| TsigProgress.VariablesPackExactly | tsig.go:286-314 | the TSIG variables pack exactly when they take at most 4096 octets |
| TsigProgress.RecordPacksExactly | tsig.go:205-210 | the record packs into a buffer of its predicted length exactly when its rdata takes at most 65535 octets, and then to that length |
| TsigProgress.GenerateExactly | tsig.go:171-216 | for any provider: signing goes through exactly when the message packs, the request MAC is not of one octet, the variables fit 4096 octets, the provider answers, and the rdata with that answer fits 65535; the length is exact |
| TsigEdges.NoSigExactly | tsig.go:325-340 | the missing-signature error is given exactly when the message has no additional record |
| TsigEdges.UnsignedIsStripped | tsig.go:364-381 | a message of 23 octets without a TSIG is stripped, to its header and an empty signature |
| TsigEdges.UnsignedVerdict | tsig.go:231-260 | the verdict on a message whose additional records hold no TSIG: valid exactly when the provider answers an empty MAC for an empty name and algorithm |
| TsigEdges.OneOctetMac | tsig.go:275-286 | behind a request MAC of one octet nothing can be signed and nothing is valid |
| TransferProgress.AxfrQuerySignable | defaults.go:98-117 | a transfer request for any zone and key that can be named can be signed, and is acceptable with its signature |
| TransferProgress.WriteExactly | xfr.go:266-278 | for any provider: a signed message is written exactly when it packs, the chain's MAC is not of one octet, the variables fit, the provider answers, and message and record take at most 65535 octets |
| TransferProgress.OutExactly | xfr.go:223-240 | all envelopes are written, for any number of them, exactly when every reply fits with its signature and none has to be signed behind a MAC of one octet |
| TransferProgress.OneOctetChain | xfr.go:223-240 | a server whose last MAC has one octet writes nothing more and loses the MAC |
| TransferProgress.OneOctetRead | xfr.go:243-263 | a client whose last MAC has one octet accepts nothing more |
| TransferReuse.BuffersAgreeExactly | tsig.go:263-322 | without other data, the client authenticates what the server rebuilds from a request exactly when its chain is fresh |
| TransferReuse.RequestVerdict | server.go:628-683 | the server's verdict on a request written under any chain: handed on exactly when acceptable, and authentic exactly when the MAC sent is the provider's for the fresh chain |
| TransferReuse.AuthenticExactly | server.go:628-683 | with MACs that tell buffers apart, whatever the signature holds: handed on as authentic exactly when acceptable and the client authenticated the octets the server rebuilds |
| TransferReuse.AcceptedExactly | server.go:628-683 | without other data: exactly when acceptable and the client's chain is fresh |
| TransferReuse.UsedClient | xfr.go:119-126 | after a first clean AXFR message the client's timers-only flag stays set |
| TransferReuse.UsedClientRefused | server.go:670-677 | a concrete provider under which the next request of every used client is written and refused |
| TransferProgress.SignedTransferCompletes | xfr.go:49-278 | the whole signed transfer with nothing assumed to succeed: request and every reply signed and accepted, chains equal at every message, exactly the records of the stream delivered, stop at the closing SOA |
| TransferObject.ScanAnswer | xfr.go:187-201 | the record loop with its SOA count |
| TransferObject.Client.ReadMsg | xfr.go:243-263 | the message or error, and the chain moved on even when the signature is bad |
| TransferObject.Client.WriteMsg | xfr.go:266-278 | the octets, and the chain after signing; a failed signature clears the MAC |
| TransferObject.Client.InAxfr | xfr.go:87-138 | the loop hands on the envelopes of the step machine and leaves its chain |
| TransferObject.Client.InIxfr | xfr.go:140-204 | the same for IXFR |
| TransferObject.Response.ServeDNS | server.go:628-683 | the request handed on, status and chain, or nothing changed for a request that is not accepted or does not decode |
| TransferObject.Response.WriteMsg | server.go:747-769 | the octets, and the chain after signing |
| TransferObject.Response.Out | xfr.go:223-240 | one message per envelope with the timers-only flag set after each, up to the first failure |
| NsecBitmap.OrBitSets | msg_helpers.go:575-576 | OR with one bit sets that bit and leaves the others |
| NsecBitmap.AcceptedExactly | msg_helpers.go:560-571 | a list is accepted exactly when no type lies in an earlier octet than the one before it |
| NsecBitmap.BlocksHold | msg_helpers.go:545-581 | the blocks built hold exactly the types of the list, in increasing windows of 1 to 32 octets |
| NsecBitmap.BitmapRoundTrip | msg_helpers.go:462-520 | unpacking what was packed gives the types of the list, sorted and each once |
| NsecBitmap.RepackIsStable | msg_helpers.go:462-581 | whatever was unpacked packs again, and unpacking that gives the same types |
| NsecBitmap.ListedByWeight | msg_helpers.go:545-581 | type t is listed exactly when in window t / 256 octet t % 256 / 8 has the bit of weight 128 >> (t % 8) |
| NsecBitmap.BlocksOnTheWire | msg_helpers.go:545-581 | a block is its window, its length and its octets, blocks in order |
| NsecCodec.TypeBitMapLen | msg_helpers.go:524-543 | the running length over the list |
| NsecCodec.MapLenExact | msg_helpers.go:524-543 | for every non-empty accepted list the predicted length is the number of octets written |
| NsecCodec.MapLenOfNothing | msg_helpers.go:524-550 | for the empty list it is 2 although nothing is written |
| NsecCodec.PackDataNsec | msg_helpers.go:545-581 | succeeds exactly when the list is accepted and fits; then the buffer holds the blocks whatever it held before and is otherwise unchanged |
| NsecCodec.UnpackDataNsec | msg_helpers.go:462-520 | the types, or an error exactly for a window out of order, an empty, long or overflowing block |
| DomainName.IsDomainName | defaults.go:182-257 | the loop refines `Checked`: acceptance and label count |
| DomainName.ClosedExactly | defaults.go:219-248 | the loop refuses exactly when a closed label is empty or too long, the closed labels take more than 256 octets, or all of them with an escape behind |
| DomainName.ToggledByRun | defaults.go:204-218 | the escape flag is up at the end exactly when the run of adjacent escapes there is odd |
| DomainName.CompletedExactly | defaults.go:279-327 | exactly when a text can be completed to a fully qualified name, for every text; for ASCII, when it does not end in an odd run of backslashes |
| DomainName.CheckedIsPackable | defaults.go:182-257 | for a name that can be completed: accepted exactly when it packs uncompressed into 257 octets, with the count of `CountLabel` |
| DomainName.PacksExactly | msg.go:206-348 | without compression, what ends in an open label packs exactly when its closed labels are good and fit |
| DomainName.DisagreeExactly | defaults.go:182-257 | for every non-empty text: the check and the packer agree exactly when the closed labels do not fit, or the packer's test for the final dot and the check's go the same way |
| DomainName.DisagreeOnAscii | defaults.go:204-218 | on ASCII text they disagree exactly on texts that end in an odd run of backslashes and an even run of adjacent escapes, behind closed labels that all fit |
| DomainName.CheckedAcceptsDanglingEscape | defaults.go:250-254 | three backslashes are accepted and cannot be packed |
| Svcb.ParamToStr | svcb.go:922-939 | the loop prints `ParamText` |
| Svcb.ParseParam | svcb.go:942-969 | the loop parses as `ParseFrom`, errors included |
| Svcb.ParamRoundTrip | svcb.go:922-969 | every byte string survives printing and parsing |
| Svcb.AlpnString | svcb.go:348-391 | the loop prints `AlpnText` |
| Svcb.AlpnParse | svcb.go:425-468 | the loop parses as `AlpnParsed`, errors included |
| Svcb.AlpnByteReads | svcb.go:375-386 | both escape layers of one octet are undone together whatever follows |
| Svcb.ParsedNonEmpty | svcb.go:442-466 | no parsed list has an empty id |
| Svcb.AlpnRoundTrip | svcb.go:348-468 | a list of ids of arbitrary octets survives printing and parsing exactly when no id is empty |
| Spelling.ParamSpelling | svcb.go:922-939 | an octet of a parameter: backslash before quote, semicolon, space and backslash, digits outside the printable range |
| Spelling.AlpnSpelling | svcb.go:362-391 | an octet of an ALPN id: comma and backslash as `\\\044` and `\\\092` |
| Spelling.TextsInOrder | svcb.go:348-391 | octets in order, and ids between commas |
| CanonicalForm.CanonicalUpToCase | defaults.go:332-339 | canonical names depend on a text only up to letter case |
| CanonicalForm.SplitDomainName | labels.go:12-40 | the texts of the labels without the dots that close them |
| CanonicalForm.SignedOwnerSame | dnssec.go:676-686 | owners equal up to case, or sharing their last k labels up to case when both have more than k, are signed as the same name |
| CanonicalForm.SameSignedIsCanonical | dnssec.go:687-738 | records that differ in TTL, letter case of owner and listed rdata names, or wildcard labels have one canonical form |
| CanonicalForm.CanonicalIsLower | defaults.go:332-339 | a canonical name is the completed name with A to Z in lower case and nothing else changed |
| CanonicalForm.SignedRdata | dnssec.go:687-738 | for which types the rdata names of the signed form are in lower case; everything else but the TTL is as it was |
| SignedData.RawSignatureData | dnssec.go:671-760 | the output is the distinct wires of some sorted arrangement, or nothing exactly when a record does not pack |
| SignedData.WireIsFramed | dnssec.go:665-669 | a wire is determined by its header fields and the part it is compared by |
| SignedData.DistinctAscends | dnssec.go:751-758 | skipping equal neighbours of a sorted list leaves a strictly ascending list |
| SignedData.OutputOfSet | dnssec.go:750-759 | the output depends on the set of wires alone, not on the order the unstable sort leaves or on repetition |
| SignedData.SameDataOrNone | dnssec.go:671-760 | corresponding records signed under one owner give the same octets, or both give none |
| SignedData.NoLabelsNoData | dnssec.go:681-684 | with a label count of zero no named owner can be signed |
| SignedData.DataExactly | dnssec.go:671-760 | a record whose names can be written yields data exactly when the label count is not zero or the owner is the root, and its rdata fits 65535 octets |
| SignedData.SignedDataCanonical | dnssec.go:671-760 | for an RRset and a label count of at least one data comes out, and any records that correspond, in any order and number, with any TTLs, letter case and owners of one wildcard, give the same octets |
| Ordering.LexIsBefore | dnssec.go:660-669 | the order of records: at the first difference one has ended or has the smaller octet |
| SignedData.SignedDataAscends | dnssec.go:750-759 | the octets signed are the wires of the RRset, each once, with their rdata ascending in that order |
| Wildcard.SignedOwnerNameable | dnssec.go:676-686 | the owner that is signed can be written whenever the owner given can, for every label count but zero, and for the root |
| Wildcard.SignKeepsOwner | dnssec.go:286-290 | with the count that `Sign` takes, the owner signed is the canonical owner given exactly when that does not begin with an asterisk, or begins with a label that is one and has more behind it |
| Wildcard.SignedOwnerIs | dnssec.go:676-686 | with a label count of at least one: `*.` and the last labels of a longer name, and otherwise the name, in canonical form |
| Wildcard.StarredOwner | dnssec.go:286-290 | an owner of several labels that begins with an asterisk is signed as `*.` and its labels from the second on |
| Nsec3.OwnerSplits | nsecx.go:49-55 | the owner of a chain record splits into its hash and the zone |
| Nsec3.ChainPartition | nsecx.go:47-95 | over a complete chain of any length, an in-zone hash that is no owner is covered by exactly one record and matched by none |
| Nsec3.ChainMatch | nsecx.go:47-95 | an owner hash is matched by exactly its record; that record covers it too unless it is the last, and no other does |
| Nsec3.RootZoneSilent | nsecx.go:50-53 | with a one-label owner nothing is covered or matched |
| Nsec3.CoverByOctets | nsecx.go:47-76 | what a record of a chain covers, by the first octet in which hashes differ |
| Nsec3.OutsideTheZone | nsecx.go:57-62 | for a name outside the zone no record covers or matches |
| Dedup.LeastIs | sanitize.go:20-27 | the TTL kept is at most that of every duplicate and is that of one of them |
| Dedup.Gather | sanitize.go:17-31 | for any map at the start: it keeps its records and gains the first of every other key, each with the smallest TTL, other records untouched, even where one object occurs twice |
| Dedup.Compact | sanitize.go:38-49 | records move down over slots already read; the kept prefix is the first occurrences in order, the rest of the slice is unchanged, and the map keeps only keys that do not occur |
| Dedup.Dedup | sanitize.go:7-50 | for any map at the start: the slice, the TTL of every record of slice and map, and which records the map holds afterwards; the slice keeps first occurrences in order unless records and keys happen to be equally many |
| Dedup.HandedBackExactly | sanitize.go:29-33 | the slice handed back is that of the first occurrences exactly when records and keys are not equally many, or all keys differ |
| Dedup.DuplicateStays | sanitize.go:29-33 | two records under one key and a map that holds one other key: the slice is handed back with its duplicate |
| Dedup.DedupNil | sanitize.go:7-50 | with a nil or empty map the slice keeps the first record of every key in the original order, each with the smallest TTL of its duplicates |
| Generate.Reader.constructor | generate.go:84-96 | a fresh reader has all runs before it, run k with the value start + k * step |
| Generate.Reader.ReadByte | generate.go:129-208 | one byte of what remains, the error where that ends in one, and the end of input from then on |
| Generate.RunValues | generate.go:52 | an accepted range has 1 to 65536 values, and start + k * step is within it exactly for the first (end - start) / step + 1 values of k |
| Generate.AfterIsTotal | generate.go:137-143 | after a run come exactly the runs that are left, even when the counter wraps at 64 bits |
| Generate.ValueDoesNotMatter | generate.go:145-208 | whether a run fails, and the escape flag it leaves, do not depend on the value |
| Generate.EveryRun | generate.go:129-208 | a template that gets through its first two runs gets through all of them |
| Generate.RunsExactly | generate.go:129-208 | a fresh reader holds the texts of exactly (end - start) / step + 1 runs, at most 65536, run k with start + k * step, when its first two runs get through, and an error otherwise |
| GenerateText.RunPrints | generate.go:129-208 | the text of a run: octets, `\x`, `$$`, `$` and `${block}` printed in order and a newline; a backslash at the end goes over to the next run |
| GenerateText.RunReads | generate.go:129-208 | a template that gets through is made of such items |
| GenerateText.RunText | generate.go:129-208 | run k gets through exactly when the template, behind an open backslash, is made of items, and prints them with the value start + k * step |
| GenerateText.BlockValue | generate.go:176-199 | a block prints the value plus its offset exactly when the sum fits 64 bits, and within 0 and 2^31 - 1 when the end plus the offset does |
| GenerateText.RangeExactly | generate.go:52 | a range is accepted exactly when it has at most 65536 values |
| GenerateText.WrappedOffset | generate.go:192-194 | start 0, end 1 and the largest offset pass the check, and the second value is negative |
| Generate.Drain | generate.go:129-208 | reading until the end or an error yields what remained, byte for byte |
| Generate.Generated | generate.go:52-96 | a directive read to its end: those texts and then the end of input, or an error exactly when one of the first two runs fails |

## Left out

- Sockets, TLS, timeouts, goroutines and channels: what a connection brings is a list of arrivals, and a channel a list of envelopes.
- Cryptography: MACs and hashes are parameters, and key generation, signatures and digests are not modelled.
- The zone lexer and parser, printing of whole records, and the sub-structure of rdata without names: it is raw octets here, NSEC, OPT and TXT rdata inside a message as well, and so are the parameters of SVCB and HTTPS. The strings of NAPTR are octets with their length.
- RdataFormats.OtherReads: types with sub-structure but no names, such as TXT, LOC or OPT, are read raw; the source refuses some of their rdata.
- HIP, IPSECKEY and AMTRELAY: their rdata has names whose place or presence depends on earlier octets, and is raw here, so those names do not enter the compression map.
- ValidityPeriod, time formatting, LOC, reflection-based formatting and client configuration.
- NamePack.PackDomainName: the map and the buffer after a failed call are not described; the scratch copy is always made, and the lone dot is written without a pass of the loop.
- RecordCodec.PackRecord: the one case in which the source has no result is excluded: a record whose rdata packs to nothing at the end of a full buffer of fewer than two octets, where it indexes before the start of the buffer.
- RecordCodec.PackSection: it asks for a spare octet at every record, which `PackBuffer` provides.
- MessageLength.LenCoversPack: character strings count by their octets, where the source counts their escapes too, and an empty NSEC bitmap by none, where it counts two (`NsecCodec.MapLenOfNothing`); for those types the source predicts more than is packed.
- MessageObject.Packet.PackBuffer: the errors of the integer packers are one error, and nil records are not represented.
- TsigRoundTrip.HonestMessageVerifies: the size of the other data is taken to be its length, and names are ASCII in the form the unpacker prints.
- TransferProgress.OutExactly: stated for providers whose MACs all have one length, as those of an HMAC have, and `TransferProgress.SignedTransferCompletes` with it; for others `TransferProgress.WriteExactly` decides every message, and `TransferDelivery.SignedTransferDelivers` holds whenever the writes succeed.
- Acceptance.DefaultAction: the default accept function, not one set by the user; the error replies of the server to requests that it does not hand on are not modelled.
- TransferReuse.AcceptedExactly: stated for signatures without other data, as `SetTsig` leaves them; with other data chosen for the purpose two buffers can coincide, and `TransferReuse.AuthenticExactly` is the condition.
- CanonicalForm.SplitDomainName: case folding is ASCII folding, so names with other letters are not covered by the lemmas built on it.
- SignedData.RawSignatureData: an owner longer than 255 octets, on which the comparison would index past the end, compares as empty rdata.
- Dedup.Dedup: the key of a record is given, so the normalised text it is computed from is not modelled; a map passed in is under the keys of its records.
- Generate.Reader.ReadByte: printing under a format and parsing a modifier are parameters; printing never yields an empty text.
- Svcb.AlpnRoundTrip: only the presentation forms of ALPN lists and opaque parameters are modelled, not the other parameter kinds.
