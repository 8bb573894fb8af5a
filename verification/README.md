# A verified model of the HSS and lawful-intercept code of docker_open5gs

This project models, in Dafny 4.11, the parts of the repository whose behaviour is decided by
code rather than by configuration, and proves what that code computes:

- the Diameter AVP printer and its schema-less parser (`diameter.py`), over hex text, with the
  explicit work stack and the failsafe counter of the parser;
- what a peer reads out of a packet, of a generated charging rule and of an answer with
  authentication vectors;
- the Milenage functions (`milenage.py`) against the bit-level formulas of section 4.1 of
  TS 35.206, and whole runs of the HSS sequence counter against a card, with re-synchronisation
  as in section 6.3.5 of TS 33.102;
- `bencode`/`bdecode` (`li_mirror.py`);
- HEP3 reassembly from TCP segments (`li_agent.py`);
- the operation log, its textual undo format and the serving-APN table (`database.py`).

`dafny verify dfyconfig.toml` checks everything.

## How it is laid out

| file | what it models |
|---|---|
| `PyText.dfy` | Python slices with negative bounds, `int(text, base)` with sign, blanks, underscores and `0x`, `format`, `zfill`, `find`, `split`, `join`, `replace` |
| `Octets.dfy` | hex text, big-endian values, UTF-8 |
| `AvpCodec.dfy` | the AVP printer; the parser as loops, and as recursive functions that the loops are proved equal to |
| `AvpForest.dfy` | AVP trees, the flattening order, the round trip and its exact condition |
| `AvpQuery.dfy`, `DiameterPacket.dfy`, `AvpText.dfy` | lookups, the packet header, text payloads |
| `ChargingRule.dfy`, `Splicing.dfy`, `ChargingRuleDecode.dfy` | the charging-rule generator, what splicing does to a template, and what is read back |
| `Milenage.dfy`, `AuthVectors.dfy`, `AuthCentre.dfy`, `SqnRuns.dfy` | f1 to f5*, tokens and vectors, the stored record, whole runs |
| `AirRequest.dfy`, `AirAnswer.dfy` | the Authentication-Information request from its text on; the answer and what is read back from it |
| `Bencode.dfy`, `HepStream.dfy` | bencode, HEP3 |
| `OperationLog.dfy`, `UndoText.dfy`, `ServingApn.dfy` | stored HSS state |

Code that changes things step by step is a method or a class whose contract ties it to a
function; what the code is for is then proved about that function.

## Where the code does not do what one would expect

Each of the conditions below is proved in both directions, on the inputs themselves:

- The AVP round trip holds for a list of AVPs exactly if every field fits its width, vendor ids
  stand exactly under the flags c0 and 80, nested flags are known, payloads are whole bytes, no leaf
  payload passes for an AVP, there are at most 100 AVPs, and the packet does not end in a bare
  eight-byte header (`RoundTripIff`, without any hypothesis). Failing inputs:
  `MismatchedVendorIsMisread`, `OverlongIsMisread`, `TooManyAreMisread`, `HundredIsTheLimit`, `SpelledAvpIsMisread`,
  `PrintedAvpIsMisread`, `BareHeaderIsLost`. The code prints Vendor-Id (266) as a vendor AVP under
  flags 40; `VendorBecomesPayload` says what a reader sees there. For too many AVPs and trailing bare
  headers `DecodeOfEncode` says what is returned instead.
- The install AVP of a charging rule with numbers of 32 bits reads back exactly if it stays below
  2^24 bytes, has at most 100 AVPs and no text of it passes for an AVP (`InstalledRuleReadsBack`). Nine
  templates of two million letters are too long (`NineLongTemplates`).
- The payloads that the parser takes for AVPs are known byte by byte (`PassesIff`): the fifth byte is a
  flag value and the length behind it does not go beyond the payload.
- Splicing an address without braces into flow templates leaves no placeholder in any template exactly
  if the address is not itself a piece of the placeholder, as the empty text is (`SplicingCompleteIff`).
- An Authentication-Information answer reads back exactly if it has at most 15 vectors and none of
  its payloads passes for an AVP (`AnswerReadsBack`), although up to 32 vectors are sent.
- Undoing an UPDATE cuts the last character off the old value, so that only None and False come
  back (`UpdatedReadsIff`, and `UpdatedReads` for what comes instead).
- Undoing a DELETE fails exactly for dates, for values that contain CRLF CRLF, and for values in
  which an arrow begins (`DeleteUndoneIff`). The arrow can also begin with the blank in front of the
  value or end with the arrow behind it, so a value that merely starts with `----> ` or ends in
  ` ---->` is lost too (`LostValues`).
- The HEP3 buffer loop hangs exactly if a header at the start of a frame declares length zero and at
  least one more byte is there (`HangsIff`); seven bytes are enough (`SevenBytesHang`).
- A request for vectors is answered exactly if each of its tokens and counts can be read, the count
  is not negative and the last sequence number can be printed (`AirVectors`). Otherwise the vectors
  issued so far have moved the stored value all the same (`BatchShape`). Values of 49 to 52 bits
  cannot be printed (`CeilingOf48Bits`).
- A re-synchronisation token can be read exactly if it is hex text with RAND and six bytes of AUTS,
  or empty (`TokenReads`); an empty one puts the stored value back to 100 (`EmptyTokenResets`).
- A re-synchronisation token helps exactly while it is less than one step old (`StaleToken`), which
  is why runs have one challenge under way at a time.
- A serving-APN row that is not there is created for any PGW name, usable or not; one that is there
  is removed by an unusable name (`StepMeaning`).

The comment above `decodeAvpPacket` about an eight-byte header being invalid and the loop guard
disagree for an eight-byte header at the end of a longer packet; the model follows the loop guard.

## Model

| member | source | states |
|---|---|---|
| `PyText.HexFieldReads` | diameter.py:279-295 | a printed field of fixed width has that width and reads back as its number |
| `PyText.ParseDigits` | diameter.py:351-355 | `int(text, 16)` of plain digits is their value |
| `PyText.DecimalReads` | li_mirror.py:13 | a printed integer reads back, sign included |
| `PyText.OtherForms` | diameter.py:351-355 | `int` also takes blanks around a number, a sign, and `0x` in base 16 |
| `AvpCodec.Padding` | diameter.py:286-293 | the padding is zeros that fill an AVP up to a multiple of four bytes, as the parser's rounding expects |
| `AvpCodec.DrainStack` | diameter.py:467-507 | the sub-AVP loop emits no more records than it counts, stays within the failsafe, and raises only below it |
| `AvpCodec.SubAvpRound` | diameter.py:475-502 | one round pushes children below remaining siblings and empties the payload of a group; an exception leaves the popped stack |
| `AvpCodec.DrainSubAvps` | diameter.py:467-513 | the loop with its stack computes `DrainStack`; the stack is never popped empty, on any input |
| `AvpCodec.DecodeFromBounded` | diameter.py:426-523 | from any state of the main loop, malformed input and retries included, the failsafe bounds everything that is still returned, and everything returned is regular |
| `AvpCodec.DecodeBounded` | diameter.py:416-432 | on every input string at most 100 AVPs come back, nested ones included, all regular: fields within their widths, a vendor id exactly under c0 and 80, no payload longer than declared and none that passes for an AVP, known flags on nested ones |
| `AvpCodec.DecodeAvpPacket` | diameter.py:403-525 | the main loop terminates on every string and computes `Decode` |
| `AvpForest.AvpAligned` | diameter.py:278-320 | a printed AVP is header, payload and zero padding, a whole number of 32-bit words |
| `AvpForest.ReadEncoded` | diameter.py:435-459 | a printed AVP is read back field by field, whatever follows it, what follows is what is left, and it passes for an AVP exactly if its flags are known |
| `AvpForest.LengthSuffices` | diameter.py:278-320 | an AVP and everything inside it fit their length fields exactly if the outermost one does |
| `AvpForest.ContentLooksLikeGroup` | diameter.py:454-458 | a payload passes for an AVP exactly where the tree has children, if no leaf payload does |
| `AvpForest.RoundOnEncoded` | diameter.py:475-502 | one round on the printed stack is one round on the stack of trees |
| `AvpForest.DrainRefinesFlat` | diameter.py:467-513 | for every stack of printed sibling lists the loop emits the recursive flattening in order, cut only by the failsafe, without raising, and empties the stack |
| `AvpForest.FlatIsPermutation` | diameter.py:467-513 | every descendant is emitted exactly once |
| `AvpForest.DecodesForest` | diameter.py:426-523 | the main loop on printed trees, from any counter value |
| `AvpForest.DecodeOfEncode` | diameter.py:403-525 | parsing what was printed returns the first 100 AVPs in flattening order, without a last bare header |
| `AvpForest.RegularMeansGood` | diameter.py:435-505 | trees of which the parser could emit every record are good, so no other trees can be read back |
| `AvpForest.RoundTripIff` | diameter.py:403-525 | for every list of AVPs: parsing what was printed returns every AVP, with code, flags, length, vendor, payload and flat descendants, exactly if the fields fit, vendor ids agree with the flags, nested flags are known, payloads are whole bytes, no leaf passes for a group, there are at most 100 AVPs and no bare header ends the packet |
| `AvpForest.BareHeaderIsLost` | diameter.py:418-426 | a packet of one bare header comes back empty |
| `AvpForest.MismatchedVendorIsMisread` | diameter.py:443-452 | a vendor AVP under other flags than c0 and 80, or the reverse, does not come back |
| `AvpForest.VendorBecomesPayload` | diameter.py:1359-1365 | a vendor AVP under such flags has the text of an AVP without vendor whose payload starts with the vendor id |
| `AvpForest.OverlongIsMisread` | diameter.py:278-320 | an AVP of 2^24 bytes or more does not come back |
| `AvpForest.TooManyAreMisread` | diameter.py:427-432 | any AVPs that are more than 100 with all their descendants do not all come back |
| `AvpForest.HundredIsTheLimit` | diameter.py:427-432 | n copies of a leaf come back exactly if n is at most 100 |
| `AvpForest.BrokenTail` | diameter.py:426-523 | text behind printed AVPs that cannot be read as an AVP, or is too short for one, costs none of them |
| `AvpForest.SpelledAvpIsMisread` | diameter.py:454-458 | a leaf whose payload passes for an AVP does not come back |
| `AvpForest.PrintedAvpIsMisread` | diameter.py:454-458 | the text of any AVP is such a payload |
| `AvpQuery.GetAvpData` | diameter.py:527-540 | the two nested loops compute `Select` |
| `AvpQuery.SelectMeaning` | diameter.py:527-540 | on faithful records a lookup lists, in visiting order, exactly the AVPs with the code |
| `AvpQuery.FlatCount` | diameter.py:527-540 | the flattening has as many AVPs of a code as the trees |
| `AvpQuery.NestedLookup` | diameter.py:527-540 | a code that no top-level AVP has finds the payloads of the nested AVPs with it, in visiting order |
| `AvpQuery.LookupAfterRoundTrip` | diameter.py:527-540 | looking a code up in a parsed packet gives one entry per AVP with it anywhere in the trees, and none exactly if there is none |
| `DiameterPacket.DecodeDiameterPacket` | diameter.py:365-401 | a packet is its header and its parsed AVPs, or an exception |
| `DiameterPacket.PacketHeaderReads` | diameter.py:322-336 | a printed header reads back, and its length field is the real byte count |
| `DiameterPacket.PacketRoundTrip` | diameter.py:322-401 | a printed packet reads back, header with the real byte count and AVPs, exactly if it is shorter than 2^24 bytes and its AVPs read back; its byte count is then a multiple of four |
| `DiameterPacket.FlagBitsSpell` | diameter.py:381 | the binary view of the flags is eight bits that spell the flags byte |
| `DiameterPacket.SignedFlags` | diameter.py:381 | a signed flags field is not refused and leaves a letter among the bits |
| `AvpText.PrintableIsNoAvp` | diameter.py:346-362 | bytes from 0x20 up, fewer than 0x202020, never pass for an AVP |
| `AvpText.TextIsNoAvp` | diameter.py:137-139 | text without control characters is never taken for a group |
| `AvpText.ShortIsNoAvp` | diameter.py:142-144 | neither is a 32-bit number |
| `AvpText.PassesIff` | diameter.py:346-362 | a payload passes for an AVP exactly if its fifth byte is 80, 40, 20, 00 or c0 and the length in the next three bytes, or what there is of them, does not go beyond it, or beyond a bare header |
| `AvpText.StringToHexReads` | diameter.py:137-139 | the hex text of a string decodes to its own code points |
| `AvpText.IntToHexReads` | diameter.py:142-144 | a 32-bit number is printed in eight digits that read back |
| `Octets.HexRoundTrip` | diameter.py:137-139 | hex text of bytes reads back |
| `Octets.TextReads` | diameter.py:137-139 | UTF-8 text reads back code point by code point |
| `Octets.HexlifyValue` | milenage.py:225-226 | reading hex text as a number is reading its bytes big-endian |
| `ChargingRule.GenerateFlows` | diameter.py:1164-1178 | the flow AVPs are the printed trees of the spliced templates, which replace the caller's |
| `ChargingRule.GenerateBandwidth` | diameter.py:1196-1205 | rates are printed in order, guaranteed rates only if not zero |
| `ChargingRule.GenerateQos` | diameter.py:1184-1209 | the QoS AVP is the printed QoS tree |
| `ChargingRule.ChargingRuleGenerator` | diameter.py:1139-1233 | the install or remove AVP is a printed tree, and None comes back exactly for a bad action or a missing argument |
| `Splicing.SplicedFills` | diameter.py:1169-1174 | in a template whose opening braces all belong to placeholders every placeholder of both spellings becomes the address, and nothing else changes |
| `Splicing.SplicedLeavesNone` | diameter.py:1169-1174 | no template keeps a placeholder if the address has no braces and is no piece of a placeholder |
| `Splicing.SplicingCompleteIff` | diameter.py:1169-1174 | for addresses without braces that condition is exact |
| `Splicing.SplicedAllFills` | diameter.py:1166-1174 | the templates that the generator sends, for templates written in pieces |
| `ChargingRuleDecode.InstallFits` | diameter.py:1153-1233 | the install AVP is in range, and one of its leaves passes for a group exactly if the name or a template text does |
| `ChargingRuleDecode.InstallSize` | diameter.py:1153-1233 | an install AVP with n templates has exactly 13 + 3n AVPs, and one more for a rating group and for each guaranteed rate that is not zero |
| `ChargingRuleDecode.InstallFlat` | diameter.py:1153-1233 | the descendants of an install AVP in the order of the parser: siblings first, the insides of the QoS information next, the templates' own AVPs last and in reverse |
| `ChargingRuleDecode.InstallPayloads` | diameter.py:1153-1233 | in that list every leaf code stands for exactly one field of the rule, or for one field of each template |
| `ChargingRuleDecode.InstallHeaders` | diameter.py:1153-1233 | every AVP of an install AVP carries the flags and vendor id of its code |
| `ChargingRuleDecode.InstalledRuleReadsBack` | diameter.py:1153-1233 | for any texts the install AVP parses completely exactly if it is shorter than 2^24 bytes, has at most 100 AVPs and no text passes for an AVP; then looking up any leaf code gives exactly the rule's values: name, precedence, QCI, ARP and rates once each, a guaranteed rate only if it is not zero, template texts (507) and directions (1080) once each in reverse order, and nothing for any other code |
| `ChargingRuleDecode.OverlongRuleIsMisread` | diameter.py:1164-1233 | templates of 2^24 bytes in all do not come back |
| `ChargingRuleDecode.NineLongTemplates` | diameter.py:1164-1233 | nine plain templates of two million letters are an install AVP of few AVPs that does not come back |
| `ChargingRuleDecode.RemovedRuleReadsBack` | diameter.py:1145-1151 | the remove AVP parses completely exactly if it fits its length field and the name does not pass for an AVP; then it is an AVP 1002 and code 1005 finds exactly the name |
| `ChargingRuleDecode.SplicedIsPlain` | diameter.py:1169-1174 | splicing the address in keeps text free of control characters |
| `ChargingRuleDecode.GeneratedRuleReadsBack` | diameter.py:1164-1233 | the same for the caller's own templates and the address spliced into them; plain texts never pass for an AVP |
| `Bencode.Sorted` | li_mirror.py:16 | the keys in strictly ascending order, each once |
| `Bencode.AscendingUnique` | li_mirror.py:16 | there is only one such order, so insertion order cannot be seen |
| `Bencode.DictInOrder` | li_mirror.py:15-16 | a dictionary is written in the ascending order of its keys, whatever order they came in |
| `Bencode.TextBeforeMeaning` | li_mirror.py:16 | text keys are ordered by the first difference, prefixes first |
| `Bencode.Bdecode` | li_mirror.py:19-36 | the recursive parser with its loops terminates on every text and computes `Decode` |
| `Bencode.ReadsBack` | li_mirror.py:11-36 | wherever the encoding of a value stands, exactly that value is read and the index stops right after it |
| `Bencode.RoundTrip` | li_mirror.py:11-36 | a value reads back from the middle of any text |
| `Bencode.PrefixFree` | li_mirror.py:11-36 | no encoding is a prefix of another's, so encodings are injective |
| `Bencode.CutText` | li_mirror.py:34-36 | text that ends before its declared length is taken as it is, and the next index lies beyond the end |
| `Bencode.CutOff` | li_mirror.py:19-36 | lists and dictionaries that are cut off raise; an unknown first character gives nothing |
| `Milenage.XorTwice` | milenage.py:438-453 | adding the same bytes twice gives the operand back |
| `Milenage.RotateInBits` | milenage.py:456-466 | rotating by n bytes is rotating by 8n bits |
| `Milenage.F1Refines` | milenage.py:231-256 | f1 and f1* are OUT1 of the bit-level formula, although c1 is passed as initialisation vector |
| `Milenage.OutRefines` | milenage.py:259-336 | rotating by bytes and adding a byte constant is OUT2 to OUT5 of the bit-level formula, for each of its constants |
| `Milenage.FunctionsRefine` | milenage.py:259-336 | f2 is the second half and f5 the first 48 bits of OUT2, f3 is OUT3, f4 is OUT4, f5* the first 48 bits of OUT5, with the rotations and constants of section 4.1 of TS 35.206 |
| `Milenage.FunctionSizes` | milenage.py:231-336 | the sizes of all outputs |
| `AuthVectors.SqnBytesRead` | milenage.py:51 | a 48-bit sequence number is written in six bytes that read back |
| `AuthVectors.SqnBytesOverflow` | milenage.py:51 | a 49-bit one cannot be written |
| `AuthVectors.AutnFormula` | milenage.py:392-407 | AUTN in bits is SQN ^ AK, AMF, MAC-A |
| `AuthVectors.AutsFormula` | milenage.py:194-209 | AUTS in bits is SQN ^ AK*, MAC-S |
| `AuthVectors.VectorFormula` | milenage.py:29-139 | RES, CK and IK of a vector are the parts of OUT2, OUT3 and OUT4, and KASME is derived from CK, IK, PLMN and the front of AUTN |
| `AuthVectors.CeilingStep` | milenage.py:51 | steps of up to 100 can be printed until a value has one digit more, and not right after that |
| `AuthVectors.ResyncReads` | milenage.py:211-228 | a token can be read exactly if RAND and the first six bytes of AUTS are whole or RAND is missing; then the value read is zero |
| `AuthVectors.ResyncInvertsAuts` | milenage.py:194-228 | re-synchronisation recovers the card's sequence number and its MAC-S |
| `AuthVectors.ResyncInfoSplits` | diameter.py:1802-1804 | RAND and AUTS are recovered from Re-Synchronization-Info |
| `AuthVectors.CardReadsAutn` | milenage.py:392-407 | a card recovers the sequence number from AUTN, never sees a bad MAC, and accepts exactly if it is above its own |
| `AuthVectors.BothEndsAgree` | milenage.py:29-86 | a card that accepts a vector answers with its XRES and derives its KASME from RAND and AUTN alone |
| `AuthCentre.Centre.Air` | database.py:1571-1581 | the vector is made from the stored value, which moves by 100 unless making it raises |
| `AuthCentre.Centre.SipAuth` | database.py:1591-1600 | as for Air, with CK and IK |
| `AuthCentre.Centre.EapAka` | database.py:1621-1639 | as for Air, with MAC and AK |
| `AuthCentre.Centre.SqnResync` | database.py:1583-1589 | the stored value becomes the value in the token plus 100, or stays if reading the token raises |
| `AuthCentre.Centre.ScanInfo` | diameter.py:1786-1813 | re-synchronisations are applied as they come, the last vector count wins and is capped, an exception leaves the value of the tokens before it |
| `AuthCentre.Centre.ScanRequest` | diameter.py:1778-1814 | the sub-AVPs of the first AVP 1408 are scanned; without one, one vector is asked for |
| `AuthCentre.Centre.AnswerAir` | diameter.py:1778-1830 | the vector loop ends for every count, negative ones included, prints the trees of the vectors it issues and leaves the stored value after the last one issued |
| `AuthCentre.BatchShape` | diameter.py:1818-1830 | for every stored value and count: a batch raises exactly if the count is negative or the last value cannot be printed; it issues all vectors, or as many as can be printed, and the stored value has moved by 100 for each in both cases |
| `AuthCentre.BatchItem` | diameter.py:1818-1830 | Item-Numbers go down by one while sequence numbers go up by 100 |
| `AuthCentre.PlanMeaning` | diameter.py:1786-1813 | for every request: the scan raises exactly if a token or a count cannot be read; the last token read decides the stored value; without a count one vector is asked for, and with a last count n it is n below 32 and 32 from there on |
| `AuthCentre.TokenReads` | diameter.py:1802-1806 | a Re-Synchronization-Info text can be read exactly if it is hex text of even length with at least 44 digits, or empty |
| `AuthCentre.EmptyTokenResets` | diameter.py:1802-1806 | an empty Re-Synchronization-Info puts the stored value to 100 |
| `AuthCentre.AirVectors` | diameter.py:1778-1830 | for every list of AVPs and stored value: vectors are sent exactly if AVP 1408 does not hold text, all tokens and counts in it can be read, the count is not negative and the last value can be printed; then they are as many as the last count says, at most 32, or one, numbered downwards, from the value of the last token or the stored one upwards, and the stored value ends one step above them |
| `AuthCentre.ResyncPlan` | diameter.py:1784-1814 | a request that carries a failure token of the card restarts one step above the card, with any readable AVPs before it and any others than tokens after it |
| `AirRequest.InfoOfRequest` | diameter.py:1779-1786 | in a printed request the AVPs inside the first AVP 1408 are scanned, in the order of the parser |
| `AirRequest.NestedInfoIsIgnored` | diameter.py:1779-1786 | if that AVP is itself nested, what is in it is not scanned |
| `AirRequest.RequestWithoutInfo` | diameter.py:1778-1786 | a request without AVP 1408 gets one vector from the stored value |
| `AirRequest.RequestPlan` | diameter.py:1778-1814 | the last token and the last count in the group 1408 of a printed request decide |
| `AirRequest.CountedRequest` | diameter.py:1809-1814 | a request that asks for n vectors gets n, or 32 |
| `AirRequest.ResyncRequest` | diameter.py:1786-1806 | a request with a failure token in its group 1408 restarts one step above the card |
| `AirRequest.RequestVectors` | diameter.py:1778-1830 | the number, numbering and sequence numbers of the vectors that a printed request gets, and when it gets none |
| `AirAnswer.PrintAnswer` | diameter.py:1832-1840 | the AVPs of the answer are the printed trees, with the literal application id as a group of two |
| `AirAnswer.BatchSizes` | milenage.py:29-86 | every vector of a batch has the sizes of its functions |
| `AirAnswer.AnswerSize` | diameter.py:1816-1840 | an answer with n vectors has 9 + 6n AVPs |
| `AirAnswer.AnswerReadsBack` | diameter.py:1816-1840 | the answer parses completely exactly if it has at most 15 vectors, no RAND, XRES, AUTN or KASME passes for an AVP, and session id and origin fit; then looking up a vector field gives that field of every vector, last vector first |
| `AirAnswer.AnswerTopReads` | diameter.py:1832-1840 | the peer reads session id, vectors, origin, result 2001, no state maintained and the S6a application, in this order and with these flags |
| `AirAnswer.VectorHeaders` | diameter.py:1818-1830 | every AVP inside the vectors is a mandatory 3GPP AVP |
| `AirAnswer.RequestAnswered` | diameter.py:1778-1840 | the same for the answer to a request, in terms of the number of vectors it asks for |
| `SqnRuns.AnswerIff` | database.py:1571-1600 | in every reachable state the card accepts the challenge under way exactly if the HSS was ahead |
| `SqnRuns.StepKeeps` | database.py:1571-1639 | every step keeps the invariant, never moves the HSS back, and keeps HSS and card in step |
| `SqnRuns.RunKeeps` | database.py:1571-1639 | the invariant holds after every run from any stored values |
| `SqnRuns.NeverRefusedAgain` | database.py:1571-1639 | after one answered failure or one accepted challenge, no later challenge of the run is refused |
| `SqnRuns.OneResyncSuffices` | database.py:1583-1589 | a refused challenge, one re-synchronisation, and the next challenge is accepted |
| `SqnRuns.IssuedRise` | database.py:1571-1639 | over a whole run, re-synchronisations included, issued values rise by at least 100, so none is issued twice |
| `SqnRuns.IssuedByHundreds` | database.py:1571-1600 | between re-synchronisations issued values are exactly 100 apart |
| `SqnRuns.StepsAreCalls` | database.py:1571-1639 | the steps of a run are the calls on the stored record, for every kind of vector |
| `SqnRuns.StaleToken` | database.py:1583-1589 | an old failure token helps exactly while the card has moved by less than one step |
| `SqnRuns.BatchAccepted` | diameter.py:1818-1830 | vectors of one answer used in the order of issue, with any of them left out: a card below the first one used accepts them all with the expected responses |
| `HepStream.HandleClient` | li_agent.py:385-396 | the client loop holds what draining everything received so far gives |
| `HepStream.TakeFrames` | li_agent.py:392-396 | the inner loop computes `Drain` |
| `HepStream.SplitDoesNotMatter` | li_agent.py:387-396 | frames and leftover depend on the bytes received, not on how they were cut into segments |
| `HepStream.DrainConserves` | li_agent.py:392-396 | frames and leftover together are the bytes received |
| `HepStream.DrainStops` | li_agent.py:392-396 | no whole frame stays behind |
| `HepStream.HangsIff` | li_agent.py:392-396 | the loop hangs exactly if, at a position of the input where a frame starts, a header with at least one more byte declares length zero |
| `HepStream.LengthsSuffice` | li_agent.py:392-396 | a stream whose headers at frame starts all declare a length is drained |
| `HepStream.SevenBytesHang` | li_agent.py:392-396 | seven bytes with a zero length hang the loop at once |
| `HepStream.FramesAreWhole` | li_agent.py:392-396 | every frame has the length it declares |
| `HepStream.ParseHep3` | li_agent.py:364-383 | the chunk loop computes the chunk table and looks call id and SIP message up |
| `HepStream.ChunksReadBack` | li_agent.py:367-377 | written chunks are read back, the last of a kind winning, up to a tail too short for a chunk or one that declares fewer than six bytes |
| `HepStream.CutChunk` | li_agent.py:367-377 | a last chunk that is cut off keeps what there is of its payload |
| `HepStream.ParseWritten` | li_agent.py:364-380 | of a message written in chunks the last 0x0011 is the call id and the last 0x000f the SIP message |
| `OperationLog.Log.FindOldest` | database.py:490 | a row with the smallest timestamp |
| `OperationLog.Log.UpdateOldRecord` | database.py:489-498 | the oldest row is overwritten in place and keeps its id |
| `OperationLog.Log.LogChange` | database.py:500-530 | a full table overwrites, another appends, a rollback does nothing |
| `OperationLog.LogRefinesNewest` | database.py:489-530 | after any calls under an increasing clock the table holds exactly the newest 1000 records, or all of fewer |
| `OperationLog.TimeOrderUnique` | database.py:633 | the table determines its order of time |
| `OperationLog.LatestIsLast` | database.py:633 | the row that a rollback looks at is the last record logged |
| `UndoText.DeletedReadsIff` | database.py:678-692 | a column comes back on the DELETE path exactly if it is not a date and no arrow begins in it |
| `UndoText.UpdatedReadsIff` | database.py:653-664 | a column comes back on the UPDATE path exactly if it was None or False |
| `UndoText.UpdatedReads` | database.py:653-664 | what the UPDATE path puts into a column: text without its last character, a number without its last digit, False for a flag, an exception for empty text, one digit or a date |
| `UndoText.ChangeText` | database.py:508 | the logged text of a deleted text column, written out |
| `UndoText.RollbackDelete` | database.py:678-692 | the loop over the logged columns computes `Restore` |
| `UndoText.DeleteUndoneIff` | database.py:508-692 | a deleted row comes back exactly if each of its values is free of dates, separators and arrows |
| `UndoText.LostValues` | database.py:678-692 | a date, a text that starts with `----> ` or ends in ` ---->`, or a text with CRLF CRLF in it spoils the undoing of its row |
| `ServingApn.DefaultFirst` | database.py:1909-1916 | the list of APN identifiers starts with the default one |
| `ServingApn.DefaultFirstMembers` | database.py:1909-1916 | no other identifier is lost or repeated by that |
| `ServingApn.RemoveFirstKeepsOrder` | database.py:1909-1916 | only the first default identifier goes, and the others keep their order |
| `ServingApn.ChooseApn` | database.py:1919-1926 | the loop computes `Chosen` |
| `ServingApn.ChosenMeaning` | database.py:1919-1926 | the first match before an unknown identifier, the last identifier without a match, an exception exactly otherwise |
| `ServingApn.TargetMeaning` | database.py:1907-1926 | the default APN is tried first and the others in their order; the first of the wanted name is taken, letter case aside, and the last if none has it |
| `ServingApn.ServingTable.GetServingApn` | database.py:2010-2025 | the first row of a subscriber on an APN |
| `ServingApn.ServingTable.UpdateServingApn` | database.py:1896-1987 | one call changes the table by `StepRows` for the chosen APN, or not at all, and keeps rows unique |
| `ServingApn.StepRefines` | database.py:1951-1987 | one call keeps one row per subscriber and APN and does to the table what it does to a plain map |
| `ServingApn.StepMeaning` | database.py:1951-1987 | a PGW name that is not empty and does not contain None stores the session, row there or not; any other name removes a row that is there and creates one that is not; no name removes the row; other keys stay as they were |
| `ServingApn.RunRefines` | database.py:1896-1987 | after any sequence of calls rows are unique and the table is the map that the same calls build |
| `ServingApn.LastCallDecides` | database.py:1896-1987 | after any run the last call on a subscriber's APN decides: a usable name leaves its session, and no name leaves none |

## Left out

- Characters outside ASCII in `int(text, base)` and in `str.isdigit`: Unicode digits and blanks are treated as errors; text that comes from `bytes.hex()` has none.
- The interpreter's limit on the number of decimal digits of an integer, and its recursion limit.
- Lone surrogates in text: they are not characters here, where Python raises on encoding them.
- Booleans and None in `bencode`; dictionaries with keys of mixed kinds, which Python cannot sort.
- AES, HMAC-SHA256 and the random source are parameters: the cipher is any function from blocks to blocks. Nothing is said about secrecy. MAC-S is computed and not compared, as in the code.
- The "2g3g" action, which repeats one vector, and "Digest-MD5".
- SqnRuns.NeverRefusedAgain: one challenge under way at a time, as explained under StaleToken; each call on the record is atomic, as no other process is modelled.
- The other request and answer builders: straight-line concatenation of AVPs. PLMN, session id and origin of the Authentication-Information answer are parameters.
- Ciphering buffers of more than one block, and keys and OPc of other sizes than 16 bytes.
- Payloads that are not hex text: which of them pass for an AVP is said by `ValidateSingleAvp` itself, for hex text by `PassesIff`.
- Templates are values in an array: the same template object listed twice is not modelled.
- UTF-8 decoding of call id and SIP message, the target lookup and the mediation calls after a HEP3 frame.
- The thread that hangs on a HEP3 frame of length zero is modelled by a state in which nothing more is read.
- OperationLog.LogRefinesNewest: one strictly increasing clock is assumed; the code stamps inserted rows with the database clock and overwritten rows with its own.
- UndoText.UpdatedReadsIff: is about one logged column; how CRLF CRLF in a value splits an UPDATE record is not stated.
- Floating-point column values: the tables have none.
- APN identifiers are numbers; the comma-separated list of their decimal forms is not parsed. Lower-casing is a parameter.
- Database errors, webhooks, geographic redundancy, Redis, sockets, HTTP, metrics and logging.
