# A verified model of the dlms-cosem library

This project models, in Dafny, the core of a DLMS/COSEM smart-meter protocol library written in
Rust, together with the small Python maintenance script that ships with it. DLMS/COSEM is the
application protocol of IEC 62056: a client associates with a meter (AARQ/AARE), reads and writes
attributes of interface objects (GET, SET, ACTION services over A-XDR-encoded data), and releases
the association (RLRQ/RLRE), over HDLC or M-Bus framing.

What is modelled, group by group:

- **The structural text patcher** (`fix_profile_generic.py`), as pure functions on strings: the
  literal insertion after every anchor, the collapse of whitespace-separated duplicate copies,
  and the diagnostic count (module `ProfilePatcher`).
- **The A-XDR data codec and the xDLMS APDUs**: big-endian integers (`Bytes`, `Wire`), COSEM
  data values, dates and times (`AxdrData`), OBIS codes (`Obis`), units (`Units`), the
  GET/SET/ACTION requests and responses (`GetService`, `SetService`, `ActionService`), the
  security-control octet (`Security`), general-glo and general-ded ciphering framing
  (`Ciphering`) and data notifications (`DataNotification`). Every encoder is a function with a
  method that builds the same octets, every parser a function on `seq<byte>` returning the value
  and the unconsumed input, and each pair is connected by a round-trip lemma and a soundness
  lemma (whatever parses re-encodes to the octets consumed).
- **The association layer**: BER identifier and definite-length octets (ITU-T X.690 sections
  8.1.2 and 8.1.3, module `Ber`), the ACSE enumerations and object identifiers (`AcseEnums`),
  the conformance block (`Conformance`), InitiateRequest/Response (`Initiate`), the shared
  context-field machinery (`AcseFields`), and the AARQ, AARE, RLRQ and RLRE APDUs (`Aarq`,
  `Aare`, `Release`).
- **Link-layer framing**: the M-Bus control-information field (`ControlInfo`), M-Bus segment
  reassembly (`MBus`), the HDLC LLC header and frame sequencing (`HdlcLink`), the FCS-16 and the
  HDLC address encoding (`HdlcCodec`), and the in-place frame building and checking in a
  2048-octet buffer of the asynchronous HDLC transport (`AsyncHdlc`, a class over an `array`).
- **COSEM interface objects**: access-right bit sets and the attribute/method descriptions
  (`CosemAccess`), the shared value helpers (`CosemObject`), and the classes Data, Register, Extended
  Register, Demand Register, Clock and Profile Generic, each a Dafny `class` whose fields are the
  object's attributes and whose methods are `get_attribute`, `set_attribute` and
  `invoke_method` with "nothing else changes" guarantees.
- **The client session** (`ClientSession`): the invoke-id counter, request generation, the
  mapping of responses to results, the association state, and a client over an abstract
  transport (the frames sent and the replies still to be received), including the chunked
  multi-attribute read and write.

Integers are unbounded in Dafny; the source's fixed widths appear as subset types (`byte`,
`u16`, `i8`, ...) and every wrap-around or truncation of the source is written out (`% 256`,
`% 0x1_0000_0000`). Where the source panics by design (an encoder given a tag over 30 or a
length over 65535, a chunk size of zero), the model has a precondition; where it returns an
error, the model returns `None` or `Err` with the same error. Four integer operations overflow
on unexpected input, where a debug build panics; for each of them the model follows a release
build, which wraps around, and "## Left out" names it:
- the length subtractions of the ciphered envelopes (src/ded_apdu.rs:247 and
  src/general_glo_ciphering.rs:55);
- the information-length subtraction of `unwrap_hdlc` (src/transport/hdlc/async.rs:225);
- the hour increment of the clock (src/cosem/clock.rs:239).

## Model

| member | source | states |
|---|---|---|
| Bytes.BeValueOfBytes | src/data.rs:611-647 | the n big-endian octets of a value below 256^n read back as that value |
| Bytes.BeBytesOfValue | src/data.rs:611-647 | any octet string is the big-endian encoding of the value it denotes |
| Bytes.TwosRoundTrip | src/data.rs:628-642 | a signed value survives its two's-complement octet pattern (`push_i16` and friends) |
| Bytes.TwosOfSigned | src/data.rs:685-700 | every unsigned pattern is the two's complement of exactly one signed value |
| Bytes.TakeUnsigned | src/data.rs:705-716 | a `be_uN` read succeeds exactly when n octets remain, gives an n-octet unsigned value and leaves the rest |
| Bytes.TakeSigned | src/data.rs:689-700 | a `be_iN` read succeeds exactly when n octets remain and gives a value in the signed range |
| Bytes.TakeUnsignedEncoded | src/data.rs:705-716 | reading back a written unsigned value gives it and the following octets |
| Bytes.TakeSignedEncoded | src/data.rs:689-700 | reading back a written signed value gives it and the following octets |
| Bytes.TakeUnsignedSound | src/data.rs:705-716 | what an unsigned read consumed is exactly the encoding of the value it returned |
| Bytes.TakeSignedSound | src/data.rs:689-700 | what a signed read consumed is exactly the encoding of the value it returned |
| Wire.TakeU16Of | src/get.rs:472 | a big-endian u16 reads back with the rest of the input |
| Wire.TakeU32Of | src/get.rs:458-461 | a big-endian u32 (block numbers) reads back with the rest of the input |
| Wire.AppendMany | src/get.rs:322-331 | the loop appending every element's encoding builds exactly the concatenation of the encodings |
| Wire.ParseManyLoop | src/get.rs:464-483 | the loop reading `count` elements returns exactly what the recursive reading of `count` elements returns |
| Wire.ParseManyEncoded | src/get.rs:464-483 | `count` elements encoded one after another are read back in order, for any element codec that round-trips |
| Wire.ParseManySound | src/get.rs:464-483 | what a list read consumed is exactly the concatenated encodings of the elements it returned |
| AxdrData.DataTypeFromByteExact | src/data.rs:49-80 | `DataType::try_from` accepts exactly the declared codes, returns the type with that code, and returns the byte itself otherwise |
| AxdrData.DataTypeRoundTrip | src/data.rs:22-80 | every type's code converts back to that type |
| AxdrData.EncodeDate | src/data.rs:95-102 | five octets: the big-endian year, then month, day of month and day of week |
| AxdrData.ParseDate | src/data.rs:164-171 | any five octets are accepted as a date; the rest of the input is returned |
| AxdrData.DateRoundTrip | src/data.rs:91-171 | a date reads back from its encoding, whatever follows |
| AxdrData.ParseTimeAccepts | src/data.rs:278-303 | a time is accepted exactly when each octet is 0xFF or at most 23, 59, 59 and 99 respectively |
| AxdrData.TimeRoundTrip | src/data.rs:204-303 | a time whose present fields are in range reads back from its encoding |
| AxdrData.TimeWildcardCollapses | src/data.rs:209-300 | a present hour of 0xFF is written as the wildcard and comes back absent |
| AxdrData.EncodeDateTime | src/data.rs:386-393 | twelve octets: the date, then the time, then offset and status |
| AxdrData.DateTimeRoundTrip | src/data.rs:380-528 | a date-time with valid time fields reads back from its encoding |
| AxdrData.DateTimeWildcards | src/data.rs:386-528 | an absent offset is written 0x8000 and an absent status 0xFF, and both read back absent |
| AxdrData.ParseDateTimeSound | src/data.rs:518-527 | every parsed date-time has valid fields and re-encodes to the twelve octets it consumed |
| AxdrData.ClockStatusFlags | src/data.rs:337-369 | daylight saving is the top bit of the status octet and invalid-value the bottom bit |
| AxdrData.Encode | src/data.rs:736-855 | `Data::encode` builds exactly the A-XDR encoding: type tag first, counts taken modulo 256 |
| AxdrData.EncodedLenExact | src/data.rs:860-883 | `encoded_len` equals the length of the encoding, for every value |
| AxdrData.ParseCounted | src/data.rs:673-676 | `length_count(u8, u8)` succeeds exactly when the count octet is followed by that many octets |
| AxdrData.ParseUnknownTag | src/data.rs:650-654 | an unknown type tag makes `Data::parse` fail |
| AxdrData.ParseEncoding | src/data.rs:650-855 | every well-formed value (counts below 256, valid times, valid UTF-8) reads back from its encoding, whatever follows |
| AxdrData.IntegerRoundTrip | src/data.rs:685-688 | an Integer's octet reads back as that Integer |
| AxdrData.LongRoundTrip | src/data.rs:689-692 | a Long's two octets read back as that Long (likewise for every fixed-width number) |
| AxdrData.Long64UnsignedRoundTrip | src/data.rs:713-716 | a Long64Unsigned's eight octets read back as that value |
| AxdrData.Float32RoundTrip | src/data.rs:677-680 | a Float32, held as its IEEE bit pattern, reads back from its four octets |
| AxdrData.Float64RoundTrip | src/data.rs:681-684 | a Float64, held as its IEEE bit pattern, reads back from its eight octets |
| AxdrData.StringEncoding | src/data.rs:812-826 | an octet string or UTF-8 string with fewer than 256 octets reads back from its counted encoding |
| AxdrData.ClockEncoding | src/data.rs:827-844 | a date-time, date or time value with valid fields reads back from its encoding |
| AxdrData.StructureEncoding | src/data.rs:845-855 | a structure of well-formed elements reads back from its count and the elements' encodings |
| AxdrData.ParseDateSound | src/data.rs:164-171 | a parsed date re-encodes to the five octets consumed |
| AxdrData.ParseTimeSound | src/data.rs:278-303 | a parsed time has valid fields and re-encodes to the four octets consumed |
| AxdrData.EncodedLenSumExact | src/data.rs:879-881 | the summed `encoded_len` of structure elements equals the length of their encodings |
| AxdrData.ParseSound | src/data.rs:650-730 | every parsed value is well formed and re-encodes to exactly the octets the parse consumed |
| Obis.Parse | src/obis_code.rs:26-29 | parsing needs six octets and returns the rest of the input |
| Obis.ParseEncode | src/obis_code.rs:26-47 | a code reads back from its six octets, whatever follows |
| Obis.EncodeParse | src/obis_code.rs:26-47 | six octets parse to a code whose encoding is those octets |
| Obis.EncodeWithTypeIsOctetString | src/obis_code.rs:67-69 | `encode_with_type` is the A-XDR octet string of the six octets, eight octets in all, and parses back as such |
| Obis.LessIsStrictTotalOrder | src/obis_code.rs:11 | the derived ordering is irreflexive, transitive and total |
| Obis.LessByE | src/obis_code.rs:11 | codes equal on a to d are ordered by e |
| Obis.DisplayReadsBack | src/obis_code.rs:72-76 | the `a-b:c.d.e*f` rendering can be read back to the code |
| Obis.DisplayInjective | src/obis_code.rs:72-76 | distinct codes render differently |
| Obis.DisplayExample | src/obis_code.rs:72-76 | 1.0.1.8.0.255 renders as `1-0:1.8.0*255` |
| Units.UnitFromByte | src/unit.rs:13-94 | `Unit::try_from` succeeds exactly on the declared discriminants and returns the unit with that code |
| Units.EncodeUnit | src/unit.rs:100-102 | the encoded discriminant converts back to the unit |
| Units.ReservedRejected | src/unit.rs:13-94 | 0, 58, 59, 68, 69, 73, 127 and 253 are not units |
| Units.AsI8 | src/unit.rs:130-132 | `as_i8` reinterprets the code as two's complement |
| Units.AsI8Special | src/unit.rs:130-132 | Other is -2 and Count is -1 |
| Units.SymbolDefined | src/unit.rs:134-207 | `as_str` is absent exactly for Other and Count, and otherwise non-empty |
| Units.DefaultScalerUnit | src/unit.rs:240-257 | the default scaler-unit is scaler 0 with unit Count |
| Units.ScalerUnitBytes | src/unit.rs:263-269 | a scaler-unit encodes as `02 02 0F scaler 16 unit` |
| Units.ScalerUnitRoundTrip | src/unit.rs:263-307 | a scaler-unit reads back from its encoding, whatever follows |
| Units.ScalerUnitSound | src/unit.rs:274-307 | a parsed scaler-unit re-encodes to exactly the octets consumed |
| Units.ParseScalerUnitIsData | src/unit.rs:274-307 | what parses as a scaler-unit is the two-element structure of an integer and an enum with a unit code |
| Units.ScalerUnitExample | src/unit.rs:263-269 | scaler -2 with Wh encodes as `02 02 0F FE 16 1E` |
| ProfilePatcher.ReplaceLength | fix_profile_generic.py:22 | `str.replace` grows the text by the replacement's extra length once per non-overlapping occurrence |
| ProfilePatcher.UnreplaceReplace | fix_profile_generic.py:22 | when the replacement begins with the pattern, undoing the replacement recovers the original text |
| ProfilePatcher.InsertLength | fix_profile_generic.py:22 | the insertion adds exactly 47 characters (newline, indentation, field) per anchor |
| ProfilePatcher.InsertIsReversible | fix_profile_generic.py:22 | the insertion loses nothing: removing every inserted field gives back the input |
| ProfilePatcher.InsertFollowsEveryAnchor | fix_profile_generic.py:22 | after the insertion every `executed_time: 0,` is followed by the indented field |
| ProfilePatcher.CollapseHasNoDuplicate | fix_profile_generic.py:39 | after the `re.sub` no copy of the field is followed, across whitespace only, by another copy |
| ProfilePatcher.CollapseShorter | fix_profile_generic.py:39 | the `re.sub` strictly shortens any text holding a whitespace-separated duplicate |
| ProfilePatcher.CollapseFixedIffNoDuplicate | fix_profile_generic.py:39 | the `re.sub` leaves a text unchanged exactly when it holds no whitespace-separated duplicate |
| ProfilePatcher.CollapseIdempotent | fix_profile_generic.py:39 | applying the `re.sub` twice is the same as applying it once |
| ProfilePatcher.CollapseDoubled | fix_profile_generic.py:28-39 | an already-present field that the insertion doubled collapses back to one copy after the indentation |
| ProfilePatcher.CollapseMergesRun | fix_profile_generic.py:39 | any run of copies separated by whitespace becomes a single copy, the whitespace dropped |
| ProfilePatcher.CollapseSeparated | fix_profile_generic.py:39 | two copies separated by anything that is not whitespace are both kept |
| ProfilePatcher.ReplaceKeepsCount | fix_profile_generic.py:22 | the insertion keeps the number of anchors: none starts inside an inserted indentation and field |
| ProfilePatcher.CollapseKeepsCount | fix_profile_generic.py:39 | the `re.sub` keeps the number of anchors when an anchor and the field cannot overlap |
| ProfilePatcher.RewriteKeepsCount | fix_profile_generic.py:22-39 | insertion then collapse neither adds nor loses an anchor |
| ProfilePatcher.RewriteIsClean | fix_profile_generic.py:22-39 | insertion then collapse leaves every anchor followed by exactly one indented field and no duplicate runs |
| ProfilePatcher.PatchIsClean | fix_profile_generic.py:22-39 | the script's text transformation produces a clean file for the script's literals |
| ProfilePatcher.PatchKeepsAnchors | fix_profile_generic.py:22-39 | the patched file has exactly as many `executed_time: 0,` anchors as the input |
| ProfilePatcher.PatchFixesClean | fix_profile_generic.py:22-39 | a file that is already clean is left unchanged |
| ProfilePatcher.PatchIdempotent | fix_profile_generic.py:22-39 | running the script a second time changes nothing |
| ProfilePatcher.PatchWithoutAnchor | fix_profile_generic.py:22-39 | a file with no anchor and no duplicate run is left unchanged |
| ProfilePatcher.CollapseFixedExactly | fix_profile_generic.py:39 | for the script's field and `\s`: unchanged exactly when there is no duplicate run |
| ProfilePatcher.DiagnosticAfterPatch | fix_profile_generic.py:11-12 | after patching, the diagnostic count of correct patterns equals the number of anchors in the patched file, which is the number of anchors in the input |
| ProfilePatcher.DocCommentDuplicateSurvives | fix_profile_generic.py:39 | two copies separated by a `//` comment line are not merged (`\s` does not span comments) |
| ProfilePatcher.IndentIsNormalised | fix_profile_generic.py:22-39 | a field present with another indentation is re-indented to twelve spaces, so the file changes |
| GetService.AccessResultFromByteExact | src/get.rs:258-284 | `DataAccessResult::from_u8` succeeds exactly on the defined codes and returns the code unchanged |
| GetService.AccessResultRoundTrip | src/get.rs:219-284 | every data-access-result code converts back to itself |
| GetService.DescriptorRoundTrip | src/get.rs:431-434 | an attribute descriptor (class id, OBIS code, attribute id) reads back from its nine octets |
| GetService.AttributeIdCast | src/get.rs:303 | the `as u8` / `as i8` casts of an attribute id map -1 to 0xFF and back |
| GetService.AccessRoundTrip | src/get.rs:305-312 | an optional access selector reads back from its presence flag, selector and parameter data |
| GetService.AccessFlagLenient | src/get.rs:437-445 | any presence flag other than 0x01 is read as "no access selection" |
| GetService.RequestBytes | src/get.rs:293-338 | a GET-Request starts with tag 0xC0, its choice and the invoke id; the Next and WithList forms have the stated lengths |
| GetService.DescriptorsLength | src/get.rs:326-330 | a list of descriptors encodes to nine octets per descriptor |
| GetService.EncodeRequest | src/get.rs:293-338 | the imperative encoder builds exactly the request's octets |
| GetService.ParseRequest | src/get.rs:420-496 | the parser, with its loop over the descriptor list, returns exactly the request reading |
| GetService.RequestRoundTrip | src/get.rs:293-496 | every well-formed GET-Request (fewer than 256 descriptors, well-formed selector data) reads back from its encoding, whatever follows |
| GetService.NormalRequestRoundTrip | src/get.rs:298-313 | a GET-Request-Normal reads back from its encoding |
| GetService.NextRequestRoundTrip | src/get.rs:314-318 | a GET-Request-Next reads back from its encoding |
| GetService.ListRequestRoundTrip | src/get.rs:319-332 | a GET-Request-With-List reads back from its encoding |
| GetService.ListCountWraps | src/get.rs:323-324 | with 256 descriptors the `len() as u8` count wraps to 0, so the request reads back as an empty list with the descriptors left over |
| GetService.ReadRequestChoice | src/get.rs:420-496 | after tag 0xC0 the choice octet selects Normal, Next or WithList |
| GetService.RequestBadTagOrChoice | src/get.rs:424-428 | a first octet other than 0xC0 or an unknown choice is refused |
| GetService.GreenBookRequestExample | src/get.rs:671-693 | reading attribute 2 of register 1.0.1.8.0.255 encodes as `C0 01 00 00 03 01 00 01 08 00 FF 02 00` |
| GetService.ResultRoundTrip | src/get.rs:356-366 | a get-data-result (data or an access error) reads back from its encoding |
| GetService.ResponseBytes | src/get.rs:347-412 | a GET-Response starts with tag 0xC4, its choice and the invoke id |
| GetService.EncodeResponse | src/get.rs:347-412 | the imperative encoder builds exactly the response's octets |
| GetService.ParseResponse | src/get.rs:501-605 | the parser, with its loop over the result list, returns exactly the response reading |
| GetService.ResponseRoundTrip | src/get.rs:347-605 | every well-formed GET-Response whose raw block data ends the input reads back from its encoding |
| GetService.NormalResponseRoundTrip | src/get.rs:352-367 | a GET-Response-Normal reads back from its encoding |
| GetService.BlockHeader | src/get.rs:532-538 | a data-block response is read as invoke id, last-block flag, block number and then the block result |
| GetService.BlockResponseBytes | src/get.rs:368-385 | a data-block response encodes as its header followed by the block result |
| GetService.BlockResponseRoundTrip | src/get.rs:532-563 | a data-block response whose raw data ends the input reads back from its encoding |
| GetService.RawBlockKeepsInput | src/get.rs:541-543 | raw block data takes all remaining input as its contents and does not consume it |
| GetService.RawBlockResult | src/get.rs:541-543 | the raw-data choice returns the rest of the input both as the data and as the remainder |
| GetService.ListResponseRoundTrip | src/get.rs:386-410 | a GET-Response-With-List reads back from its encoding |
| GetService.BadErrorCode | src/get.rs:521-527 | an access-error code with no meaning makes the response parse fail |
| GetService.ResponseBadTagOrChoice | src/get.rs:505-509 | a first octet other than 0xC4 or an unknown choice is refused |
| SetService.RawBytes | src/set.rs:292-294 | a raw block is written as octet-string tag 0x09, its length modulo 256 and the octets |
| SetService.RawRoundTrip | src/set.rs:486-495 | a raw block of at most 255 octets reads back from its encoding |
| SetService.RawCountWraps | src/set.rs:302-303 | a 256-octet block's length wraps to 0, so it reads back empty with the octets left over |
| SetService.ListDescriptorRoundTrip | src/set.rs:313-318 | a list item's structure header, descriptor and access flag read back as the descriptor |
| SetService.ListDescriptorNeedsHeader | src/set.rs:524-537 | an item whose header is not structure-of-four is refused |
| SetService.ResultCodeRoundTrip | src/set.rs:345-348 | a result code reads back as that data-access-result |
| SetService.ResultCodeRejected | src/set.rs:653-656 | a result octet with no meaning is refused |
| SetService.AppendArray | src/set.rs:322-327 | the loop writing the array tag, count and each element builds exactly the A-XDR array |
| SetService.ReadArrayLoop | src/set.rs:556-568 | the loop reading a counted array returns exactly the array reading |
| SetService.ArrayRoundTrip | src/set.rs:556-568 | an array of at most 255 elements reads back, for an element codec that round-trips |
| SetService.RequestBytes | src/set.rs:247-332 | a SET-Request starts with tag 0xC1, its choice and the invoke id |
| SetService.EncodeRequest | src/set.rs:247-332 | the imperative encoder builds exactly the request's octets |
| SetService.ParseRequest | src/set.rs:396-581 | the parser returns exactly the request reading |
| SetService.ParseListRequest | src/set.rs:506-578 | the parser of SET-Request-With-List, with its two loops, returns exactly the list-request reading |
| SetService.ReadRequestChoice | src/set.rs:396-581 | after tag 0xC1 the choice octet selects Normal, FirstDataBlock, WithDataBlock or WithList |
| SetService.RequestRoundTrip | src/set.rs:247-581 | every well-formed SET-Request reads back from its encoding, whatever follows |
| SetService.TargetRoundTrip | src/set.rs:254-266 | invoke id, descriptor and optional access selector read back in order |
| SetService.BlockRoundTrip | src/set.rs:481-495 | the last-block flag, block number and raw block read back |
| SetService.NormalRequestRoundTrip | src/set.rs:406-435 | a SET-Request-Normal reads back from its encoding |
| SetService.FirstBlockRequestRoundTrip | src/set.rs:436-479 | a SET-Request-FirstDataBlock reads back from its encoding |
| SetService.BlockRequestRoundTrip | src/set.rs:480-505 | a SET-Request-WithDataBlock reads back from its encoding |
| SetService.ListRequestRoundTrip | src/set.rs:506-578 | a SET-Request-With-List reads back, the per-item access flag being written 0 and ignored |
| SetService.RequestBadTagOrChoice | src/set.rs:399-403 | a first octet other than 0xC1 or an unknown choice is refused |
| SetService.ResponseBytes | src/set.rs:339-388 | a SET-Response starts with tag 0xC5, its choice and the invoke id |
| SetService.NormalResponseLayout | src/set.rs:343-347 | a SET-Response-Normal is the four octets `C5 01 id result` |
| SetService.EncodeResponse | src/set.rs:339-388 | the imperative encoder builds exactly the response's octets |
| SetService.ParseResponse | src/set.rs:589-697 | the parser returns exactly the response reading |
| SetService.ReadResponseChoice | src/set.rs:589-697 | after tag 0xC5 the choice octet selects one of the five response forms |
| SetService.ResultsRoundTrip | src/set.rs:364-369 | an array of at most 255 results reads back from its encoding |
| SetService.ResponseRoundTrip | src/set.rs:339-697 | every well-formed SET-Response reads back from its encoding, whatever follows |
| SetService.ResultResponseRoundTrip | src/set.rs:599-636 | a Normal or LastDataBlock response reads back |
| SetService.DataBlockResponseRoundTrip | src/set.rs:609-618 | a DataBlock response (its block number) reads back |
| SetService.ListResponseRoundTrip | src/set.rs:637-694 | a LastDataBlockWithList or WithList response reads back |
| SetService.BadResultCode | src/set.rs:599-636 | an unknown result code makes the Normal and LastDataBlock responses fail |
| SetService.ResponseBadTagOrChoice | src/set.rs:592-596 | a first octet other than 0xC5 or an unknown choice is refused |
| ActionService.AddressRoundTrip | src/action.rs:575-578 | class id, OBIS code and method id read back from their nine octets |
| ActionService.ParamBytes | src/action.rs:327-333 | the parameter flag is 0x01 exactly when parameters are present; absent parameters are the single octet 0x00 |
| ActionService.ParamsRoundTrip | src/action.rs:579-584 | optional invocation parameters read back from their flag and data |
| ActionService.ParamsFlagLenient | src/action.rs:579-584 | any non-zero flag is read as "parameters present" |
| ActionService.MethodDescriptorRoundTrip | src/action.rs:348-359 | a method descriptor of a list request reads back from its encoding |
| ActionService.PBlockBytes | src/action.rs:367-371 | a parameter block is the last-block flag, the block number and the raw octets |
| ActionService.ReadPBlock | src/action.rs:653-658 | a parameter block needs five octets and takes all remaining input as its raw data, leaving nothing |
| ActionService.PBlockRoundTrip | src/action.rs:653-667 | a parameter block reads back with whatever follows appended to its raw data |
| ActionService.GetDataResultRoundTrip | src/action.rs:529-545 | the optional return data (data or an error code) reads back from its encoding |
| ActionService.ErrorCodeRoundTrip | src/action.rs:458-498 | every failure reads back from its error code, which is one of the defined codes or 250 |
| ActionService.FromErrorCodeExact | src/action.rs:478-498 | a defined code is decoded to the result with that code; every other code becomes OtherReason |
| ActionService.ActionResultBytes | src/action.rs:502-524 | an action result starts with 0x00 exactly when it is a success |
| ActionService.ActionResultRoundTrip | src/action.rs:502-831 | every well-formed action result reads back from its encoding |
| ActionService.ErrorChoiceZero | src/action.rs:823-827 | the error choice with code 0 reads back as a success without data |
| ActionService.RequestBytes | src/action.rs:315-400 | an ACTION-Request starts with tag 0xC3 |
| ActionService.NormalRequestExample | src/action.rs:315-334 | invoking method 1 of clock 0.0.1.0.0.255 without parameters encodes as `C3 01 01 00 08 00 00 01 00 00 FF 01 00` |
| ActionService.EncodeRequest | src/action.rs:315-400 | the imperative encoder builds exactly the request's octets |
| ActionService.ReadMethodsLoop | src/action.rs:609-646 | the loop reading the method descriptors returns exactly the list reading |
| ActionService.ParseRequest | src/action.rs:563-719 | the parser returns exactly the request reading |
| ActionService.ReadRequestChoice | src/action.rs:563-719 | after tag 0xC3 the choice octet selects one of the five request forms |
| ActionService.RequestRoundTrip | src/action.rs:315-719 | every well-formed request without a parameter block reads back from its encoding, whatever follows |
| ActionService.NormalRequestRoundTrip | src/action.rs:573-598 | an ACTION-Request-Normal reads back from its encoding |
| ActionService.NextPBlockRequestRoundTrip | src/action.rs:599-608 | an ACTION-Request-NextPBlock reads back from its encoding |
| ActionService.ListRequestRoundTrip | src/action.rs:609-646 | an ACTION-Request-WithList reads back from its encoding |
| ActionService.MethodsRoundTrip | src/action.rs:609-646 | the invoke id, count and descriptors read back |
| ActionService.MethodsEncoded | src/action.rs:617-643 | the method descriptors read back one after another |
| ActionService.PBlockRequestRoundTrip | src/action.rs:648-719 | a request with a parameter block reads back, the block absorbing whatever follows |
| ActionService.FirstPBlockRequestRoundTrip | src/action.rs:648-670 | an ACTION-Request-WithFirstPBlock reads back, the block absorbing whatever follows |
| ActionService.ListPBlockRequestRoundTrip | src/action.rs:671-716 | an ACTION-Request-WithListAndFirstPBlock reads back, the block absorbing whatever follows |
| ActionService.RequestBadTagOrChoice | src/action.rs:563-719 | a first octet other than 0xC3 or an unknown choice is refused |
| ActionService.ResponseBytes | src/action.rs:419-452 | an ACTION-Response starts with tag 0xC7 |
| ActionService.NormalResponseExample | src/action.rs:419-452 | a successful response without data is `C7 01 01 00 00` |
| ActionService.EncodeResponse | src/action.rs:419-452 | the imperative encoder builds exactly the response's octets |
| ActionService.ParseResponse | src/action.rs:733-800 | the parser returns exactly the response reading |
| ActionService.ReadResponseChoice | src/action.rs:733-800 | after tag 0xC7 the choice octet selects one of the four response forms |
| ActionService.ResponseRoundTrip | src/action.rs:419-800 | every well-formed response without a parameter block reads back from its encoding |
| ActionService.ListResponseRoundTrip | src/action.rs:766-784 | an ACTION-Response-WithList reads back from its encoding |
| ActionService.PBlockResponseRoundTrip | src/action.rs:750-765 | an ACTION-Response-WithPBlock reads back, the block absorbing whatever follows |
| ActionService.ResponseBadTagOrChoice | src/action.rs:733-800 | a first octet other than 0xC7 or an unknown choice is refused |
| Ber.ClassOf | src/association/ber.rs:38-58 | `from_bits` reads the class from the top two bits, and `to_bits` of the result gives those two bits back |
| Ber.TypeOf | src/association/ber.rs:71-89 | `from_bit` reads the constructed bit, and `to_bit` of the result gives that bit back |
| Ber.ParseTag | src/association/ber.rs:115-127 | a tag needs one octet and is refused for tag number 31 (multi-octet tags); otherwise the number is at most 30 |
| Ber.TagFields | src/association/ber.rs:105-108 | the identifier octet keeps class, type and number apart |
| Ber.TagRoundTrip | src/association/ber.rs:105-127 | an identifier octet reads back as its class, type and number |
| Ber.TagSound | src/association/ber.rs:115-127 | a parsed identifier re-encodes to the octet it came from |
| Ber.TagExamples | src/association/ber.rs:445-468 | the identifiers used by the ACSE APDUs: 0x05, 0x06, 0x30, 0x60, 0x61, 0xA0, 0xA1 |
| Ber.EncodeLength | src/association/ber.rs:149-163 | definite lengths take one octet up to 127, two up to 255 and three up to 65535; larger lengths panic (precondition) |
| Ber.ParseLength | src/association/ber.rs:169-203 | the indefinite form 0x80 and more than two length octets are refused with LengthValue; a parsed length is at most 65535 |
| Ber.ParseLengthLoop | src/association/ber.rs:169-203 | the loop shifting in the length octets returns exactly the length reading |
| Ber.LengthRoundTrip | src/association/ber.rs:149-203 | every length up to 65535 reads back from its encoding |
| Ber.LongFormOfShortLength | src/association/ber.rs:169-203 | the non-minimal long forms `81 05` and `82 00 05` are accepted as length 5 |
| Ber.EncodeTlv | src/association/ber.rs:216-330 | the TLV builder writes tag, definite length and content, of the stated length |
| Ber.ParseBody | src/association/ber.rs:343-349 | after the length the content is taken and the rest returned |
| Ber.ParseUniversal | src/association/ber.rs:337-349 | a wrong identifier octet is refused with Tag |
| Ber.BodyRoundTrip | src/association/ber.rs:149-349 | a length and content read back, whatever follows |
| Ber.UniversalRoundTrip | src/association/ber.rs:216-432 | a universal TLV reads back as its content |
| Ber.ObjectIdentifierRoundTrip | src/association/ber.rs:216-349 | an OBJECT IDENTIFIER reads back as its content octets |
| Ber.OctetStringRoundTrip | src/association/ber.rs:252-391 | an OCTET STRING reads back as its octets |
| Ber.SequenceRoundTrip | src/association/ber.rs:295-432 | a SEQUENCE (identifier 0x30) reads back as its content |
| Ber.ParseBitString | src/association/ber.rs:357-371 | a BIT STRING needs identifier 0x03 |
| Ber.BitStringRoundTrip | src/association/ber.rs:234-371 | a BIT STRING reads back as its unused-bit count and octets |
| Ber.EmptyBitStringRefused | src/association/ber.rs:365-367 | a BIT STRING of length 0 (no unused-bits octet) is refused with Eof |
| Ber.EncodeExamples | src/association/ber.rs:528-587 | the encodings of a bit string, the LN application-context OID, a context-specific and an application TLV |
| Ber.ParseContextSpecific | src/association/ber.rs:398-414 | a context-specific field is accepted only with the expected tag number |
| Ber.ContextSpecificRoundTrip | src/association/ber.rs:276-414 | a context-specific TLV reads back under its own number |
| Ber.ContextSpecificWrongTag | src/association/ber.rs:401-403 | another class or another number is refused with Tag |
| Ber.DeclaredLengthBeyondInput | src/association/ber.rs:337-432 | a declared length beyond the input is refused with Eof by every parser |
| AcseEnums.ResultFromByte | src/association/enums.rs:23-31 | an association result is accepted exactly for codes 0, 1 and 2 |
| AcseEnums.ResultCodes | src/association/enums.rs:21-36 | `from_u8` and `as_u8` are inverse on association results |
| AcseEnums.DiagnosticFromByte | src/association/enums.rs:72-84 | a service-user diagnostic is accepted exactly for codes 0-2 and 11-14 |
| AcseEnums.DiagnosticCodes | src/association/enums.rs:70-89 | `from_u8` and `as_u8` are inverse on diagnostics |
| AcseEnums.ContextOid | src/association/enums.rs:136-149 | each application-context name is a seven-octet OID under 2.16.756.5.8.1 |
| AcseEnums.ContextOidRoundTrip | src/association/enums.rs:136-165 | `from_oid_bytes` inverts `oid_bytes`, and what it accepts is the OID of what it returns |
| AcseEnums.ContextProperties | src/association/enums.rs:168-179 | a context uses ciphering exactly when its last arc is 3 or 4, and logical names exactly when the arc is odd |
| AcseEnums.ContextExamples | src/association/enums.rs:330-361 | the LN, LN-with-ciphering and SN OIDs and their properties; a short octet string is no context |
| AcseEnums.MechanismOid | src/association/enums.rs:229-249 | each authentication mechanism is a seven-octet OID under 2.16.756.5.8.2 |
| AcseEnums.MechanismFromOid | src/association/enums.rs:252-264 | a mechanism is recognised exactly for the prefix with last arc 0-7 |
| AcseEnums.MechanismOidRoundTrip | src/association/enums.rs:229-264 | `from_oid_bytes` inverts `oid_bytes` on mechanisms, in both directions |
| AcseEnums.OidTablesDisjoint | src/association/enums.rs:136-264 | no application-context OID is a mechanism OID, and neither parser accepts the other's |
| Conformance.FromBits | src/association/conformance.rs:126-128 | `from_bits` keeps only the 24 conformance bits |
| Conformance.FromBitsKeepsFitting | src/association/conformance.rs:126-128 | a block already within 24 bits is unchanged by `from_bits` |
| Conformance.Complement | src/association/conformance.rs:232-237 | `!` is masked back to 24 bits |
| Conformance.ContainsIsSubset | src/association/conformance.rs:158-187 | `contains` holds exactly when the union adds nothing, and exactly when the difference is empty |
| Conformance.NegotiatedInBoth | src/association/conformance.rs:172-178 | the intersection used in negotiation lies in both blocks and is the largest block that does |
| Conformance.DifferenceClears | src/association/conformance.rs:185-187 | `difference` stays inside the left block, shares nothing with the right, and with the intersection restores the left block |
| Conformance.ComplementWithin | src/association/conformance.rs:101-104 | a block and its complement are disjoint and together make ALL |
| Conformance.SymmetricDifferenceInverts | src/association/conformance.rs:180-182 | `symmetric_difference` with the same block twice gives the original |
| Conformance.FromBytes | src/association/conformance.rs:143-146 | three big-endian octets give a 24-bit block |
| Conformance.ToBytes | src/association/conformance.rs:149-155 | a block is sent as three octets |
| Conformance.BytesRoundTrip | src/association/conformance.rs:143-155 | `from_bytes` inverts `to_bytes` on 24-bit blocks |
| Conformance.BytesExample | src/association/conformance.rs:264-272 | 0x1F8000 is sent as `1F 80 00` and read back |
| Conformance.TypicalClients | src/association/conformance.rs:106-123 | the typical LN client has GET, SET, ACTION and selective access but not READ/WRITE; the SN client the opposite |
| Conformance.NegotiationExample | src/association/conformance.rs:295-305 | negotiating {GET, SET, ACTION} with {GET, ACTION, READ} keeps exactly GET and ACTION |
| Initiate.NewRequest | src/association/initiate.rs:49-58 | a new request asks for a response, proposes version 6, has no dedicated key or quality of service, and carries the given conformance and PDU size |
| Initiate.NewRequestLn | src/association/initiate.rs:61-63 | the LN request offers GET, SET and ACTION and not READ |
| Initiate.NewRequestSn | src/association/initiate.rs:66-68 | the SN request offers READ and WRITE and not GET or SET |
| Initiate.NewResponse | src/association/initiate.rs:227-236 | a new response has version 6, no quality of service, and the given conformance, PDU size and VAA name |
| Initiate.NewResponseLn | src/association/initiate.rs:238-240 | the LN response carries VAA name 0x0007 |
| Initiate.ReadConformance | src/association/initiate.rs:171-173 | the conformance needs three octets and is a 24-bit block |
| Initiate.ConformanceRoundTrip | src/association/initiate.rs:98-173 | the three conformance octets read back as the block |
| Initiate.OptionalByteRoundTrip | src/association/initiate.rs:90-96 | an optional octet behind its presence flag reads back |
| Initiate.KeyBytes | src/association/initiate.rs:78-84 | an absent dedicated key is the octet 0x00; a present one takes two octets more than its length |
| Initiate.KeyRoundTrip | src/association/initiate.rs:145-152 | a dedicated key of at most 255 octets reads back |
| Initiate.LongKeyLengthWraps | src/association/initiate.rs:80 | a 256-octet key's `len() as u8` wraps to 0: it reads back empty and its octets are left over |
| Initiate.CoreRoundTrip | src/association/initiate.rs:165-173 | the version, conformance and PDU size read back |
| Initiate.EncodeRequest | src/association/initiate.rs:74-108 | the imperative encoder builds exactly the request's octets |
| Initiate.RequestEncodedLen | src/association/initiate.rs:112-140 | `encoded_len` equals the length of the encoding |
| Initiate.RequestRoundTrip | src/association/initiate.rs:74-185 | every request with a key of at most 255 octets and a 24-bit conformance reads back, whatever follows |
| Initiate.NewRequestLayout | src/association/initiate.rs:361-389 | a new request encodes as `00 01 00 06`, the conformance octets and the PDU size: nine octets |
| Initiate.EncodeResponse | src/association/initiate.rs:246-270 | the imperative encoder builds exactly the response's octets |
| Initiate.ResponseEncodedLen | src/association/initiate.rs:275-296 | `encoded_len` equals the length of the encoding |
| Initiate.ResponseRoundTrip | src/association/initiate.rs:246-329 | every response with a 24-bit conformance reads back, whatever follows |
| Initiate.ResponseExample | src/association/initiate.rs:414-439 | the LN response with GET and PDU size 0x0400 is `00 06 00 80 00 04 00 00 07` |
| AcseFields.TlvRoundTrip | src/association/aarq.rs:316-327 | one field of the content loop (identifier, length, content) reads back, with the rest of the content |
| AcseFields.FoldFieldsBytes | src/association/aarq.rs:315-529 | running the field loop over encoded fields is applying its body to each field in turn |
| AcseFields.VersionRoundTrip | src/association/aarq.rs:169-171 | the protocol-version bit string reads back as version 0 when written for 0, and 1 otherwise |
| AcseFields.ReadVersion | src/association/aarq.rs:332-341 | the parsed protocol version is 0 or 1 |
| AcseFields.ContextRoundTrip | src/association/aarq.rs:343-350 | the application-context field reads back as that context |
| AcseFields.MechanismRoundTrip | src/association/aarq.rs:471-478 | the mechanism-name field reads back as that mechanism |
| AcseFields.OctetsFitExact | src/association/aarq.rs:178-189 | a title or qualifier can be written exactly when it and its OCTET STRING wrapper fit the 65535-octet BER length |
| AcseFields.OctetsRoundTrip | src/association/aarq.rs:352-368 | a title or qualifier field reads back as its octets |
| AcseFields.AcseRoundTrip | src/association/aarq.rs:460-469 | the sender-ACSE-requirements field reads back as its octet |
| AcseFields.InvocationIdCases | src/association/aarq.rs:370-387 | an invocation-id field is kept only when it is an INTEGER of at most four octets that are all present; otherwise it is skipped, and a missing tag octet is an error |
| AcseFields.InvocationIdValue | src/association/aarq.rs:379-382 | the shifting loop computes the big-endian value of the digits |
| AcseFields.AuthRoundTrip | src/association/aarq.rs:223-245 | the calling-authentication-value field reads back as the password or bit string |
| AcseFields.CharAuthRoundTrip | src/association/aarq.rs:225-229 | a password of up to 65531 octets reads back as a character string |
| AcseFields.BitAuthRoundTrip | src/association/aarq.rs:231-240 | a challenge of up to 65526 octets reads back as a bit string |
| AcseFields.ApplicationRoundTrip | src/association/aarq.rs:277-294 | the APPLICATION envelope reads back as its content and the rest of the input |
| AcseFields.ParseApplication | src/association/aarq.rs:277-284 | the envelope must be APPLICATION class with the expected number |
| AcseFields.AppendOptional | src/association/aarq.rs:178-250 | appending an optional field extends the content by its encoding, or not at all |
| Aarq.NewSimpleLn | src/association/aarq.rs:82-99 | LN context, lowest-level security, no authentication value, and the typical LN InitiateRequest |
| Aarq.NewWithPassword | src/association/aarq.rs:102-119 | LN context, low-level security with the password as character string |
| Aarq.NewWithCiphering | src/association/aarq.rs:122-139 | the ciphered LN context, HLS-GMAC and the system title as calling AP title |
| Aarq.EncodeAarq | src/association/aarq.rs:165-254 | the imperative encoder builds exactly the AARQ's octets |
| Aarq.AarqFirstOctet | src/association/aarq.rs:253-254 | an AARQ begins with 0x60 |
| Aarq.ParseAarq | src/association/aarq.rs:276-556 | the parser, with its loop over the context fields, returns exactly the AARQ reading |
| Aarq.AarqRoundTrip | src/association/aarq.rs:165-556 | every encodable AARQ reads back up to the invocation ids, which are parsed but never written |
| Aarq.UnknownFieldSkipped | src/association/aarq.rs:526-528 | an unknown context field is skipped |
| Aarq.UnparsableUserInformationDropped | src/association/aarq.rs:510-524 | user information that does not parse as an InitiateRequest is dropped without error |
| Aarq.MissingContextRefused | src/association/aarq.rs:531-533 | an AARQ without application context is refused |
| Aarq.ForeignFieldRefused | src/association/aarq.rs:318-320 | a field that is not context-specific is refused |
| Aarq.NewSimpleLnRoundTrip | src/association/aarq.rs:82-556 | the simple LN AARQ reads back exactly |
| Aarq.SimpleLnSize | src/association/aarq.rs:82-99 | the simple LN AARQ can always be encoded |
| Aare.NewAccepted | src/association/aare.rs:79-97 | an accepted AARE carries the given context and InitiateResponse, result Accepted, diagnostic Null and no authentication |
| Aare.NewRejected | src/association/aare.rs:106-125 | a rejected AARE carries the given result and diagnostic and no user information; it counts as accepted exactly when the result is Accepted |
| Aare.ReadSmallInteger | src/association/aare.rs:332-341 | an INTEGER is read only when it starts with tag 0x02 and length 1 and a value byte follows |
| Aare.ResultRoundTrip | src/association/aare.rs:328-344 | the encoded result field reads back as that result |
| Aare.DiagnosticRoundTrip | src/association/aare.rs:346-377 | the encoded acse-service-user diagnostic reads back as that diagnostic |
| Aare.DiagnosticPastChoiceLength | src/association/aare.rs:359-362 | the CHOICE length is only checked against what follows, so a zero length still yields the diagnostic |
| Aare.EncodeAare | src/association/aare.rs:154-234 | the encoder emits the fields in order inside an APPLICATION 1 constructed envelope |
| Aare.AareFirstOctet | src/association/aare.rs:232-233 | every encoded AARE starts with 0x61 |
| Aare.ParseAare | src/association/aare.rs:254-535 | the parser loop computes the field-by-field decoding of the envelope |
| Aare.AareRoundTrip | src/association/aare.rs:154-535 | an encodable AARE reads back as itself, with the trailing input left over |
| Aare.UnknownResultRefused | src/association/aare.rs:341-342 | a result code outside 0-2 leaves the result unset, so the AARE is refused |
| Aare.UnknownFieldSkipped | src/association/aare.rs:502-504 | a context-specific field numbered 11 to 29 is skipped without changing the outcome |
| Aare.ForeignFieldRefused | src/association/aare.rs:293-296 | a field that is not context-specific is refused |
| Aare.RequestTagRefused | src/association/aare.rs:256-262 | an AARQ envelope (APPLICATION 0) is not read as an AARE |
| Aare.NewAcceptedRoundTrip | src/association/aare.rs:79-97 | an accepted AARE built by the constructor can be encoded and reads back exactly |
| Aare.AcceptedSize | src/association/aare.rs:79-97 | an accepted AARE always fits the encoder's length limits |
| Release.ReasonFromCode | src/association/rlrq.rs:118-119 | only the reason codes 0 and 1 are known, and each names its code |
| Release.ReasonRoundTrip | src/association/rlrq.rs:62-121 | a reason code reads back as its reason |
| Release.New | src/association/rlrq.rs:44-47 | a new release request has reason Normal and no user information |
| Release.WithReason | src/association/rlrq.rs:49-52 | the reason is the one given and there is no user information |
| Release.WithUserInfo | src/association/rlrq.rs:54-59 | reason Normal with the given user information |
| Release.Encode | src/association/rlrq.rs:62-87 | the reason and user-information fields are emitted inside the APPLICATION envelope with the given number (2 for RLRQ, 3 for RLRE) |
| Release.Parse | src/association/rlrq.rs:94-140 | the parser loop computes the field-by-field decoding |
| Release.RoundTrip | src/association/rlre.rs:65-143 | an encodable release APDU reads back as itself, with the trailing input left over |
| Release.RlrqNewBytes | src/association/rlrq.rs:44-87 | the default RLRQ encodes as 62 03 80 01 00 |
| Release.RlreNewBytes | src/association/rlre.rs:47-90 | the default RLRE encodes as 63 03 80 01 00 |
| Release.EmptyApdu | src/association/rlrq.rs:62-140 | an APDU with neither field encodes as an empty envelope and reads back |
| Release.ReasonLengthRefused | src/association/rlrq.rs:114-117 | a reason field whose length is not 1 is refused |
| Release.WrongTagRefused | src/association/rlrq.rs:96-99 | an envelope other than the expected APPLICATION tag is refused |
| Release.PrimitiveEnvelopeAccepted | src/association/rlrq.rs:96-99 | the envelope's primitive/constructed bit is ignored |
| Release.UnknownFieldSkipped | src/association/rlrq.rs:131-136 | a field other than context 0 and context 30 is skipped |
| Release.UnknownReasonIgnored | src/association/rlrq.rs:118-119 | an unknown reason code leaves the reason unset without error |
| Security.SuiteOf | src/security_control.rs:39-41 | the security suite is the low nibble, at most 15 |
| Security.WithFlagReadsBack | src/security_control.rs:43-89 | setting one flag bit makes it read back as set or cleared and leaves the other flags and the suite as they were |
| Security.WithFlagIdempotent | src/security_control.rs:47-53 | setting a flag twice is the same as once, and setting it to its current value changes nothing |
| Security.FlagExamples | src/security_control.rs:99-165 | the byte examples: clearing authentication in 0xFF gives 0xEF, setting it in 0x00 gives 0x10, suite of 0xF0 is 0 and of 0xFF is 15 |
| Security.ParseSecurityControl | src/security_control.rs:34-37 | one byte is taken as the security control, the rest is left; empty input is refused |
| Security.SecurityControl.constructor | src/security_control.rs:34-37 | the object holds the byte it was read from |
| Security.SecurityControl.SetAuthentication | src/security_control.rs:47-53 | only the authentication bit 0x10 changes |
| Security.SecurityControl.SetEncryption | src/security_control.rs:59-65 | only the encryption bit 0x20 changes |
| Security.SecurityControl.SetBroadcast | src/security_control.rs:71-77 | only the broadcast bit 0x40 changes |
| Security.SecurityControl.SetCompression | src/security_control.rs:83-89 | only the compression bit 0x80 changes |
| ControlInfo.FromByteDomain | src/control_information.rs:28-43 | the conversion succeeds exactly on 0x00-0x1F, 0x60, 0x61, 0x7C and 0x7D, and returns any other octet as the error |
| ControlInfo.SegmentBits | src/control_information.rs:32-37 | a segment octet carries the segment number in its low four bits and the last-segment flag in bit 4 |
| ControlInfo.FromByteInjective | src/control_information.rs:28-43 | every accepted octet is recovered from its decoding, so distinct octets decode differently |
| ControlInfo.ToByteRoundTrip | src/control_information.rs:28-43 | every control information decodes from its own octet |
| Ciphering.TotalLength | src/ded_apdu.rs:166-170 | the length field counts the control octet, four counter octets when authentication or encryption is flagged, and the payload |
| Ciphering.LengthBytes | src/ded_apdu.rs:172-181 | the length is written in one to three octets |
| Ciphering.LengthForms | src/ded_apdu.rs:172-181 | up to 127 one octet, up to 255 as 0x81 and one octet, otherwise 0x82 and a big-endian u16 |
| Ciphering.CounterBytes | src/ded_apdu.rs:186-189 | the counter takes four octets when present and none otherwise |
| Ciphering.EncodeDed | src/ded_apdu.rs:157-193 | the encoder writes 0x08, the system title, the length, the control octet, the counter and the payload |
| Ciphering.ReadCounter | src/ded_apdu.rs:238-241 | a counter is read exactly when flagged, and reading fails only when four octets are missing |
| Ciphering.ParseDed | src/ded_apdu.rs:216-256 | a parsed envelope starts with 0x08, takes the next eight octets as system title, and has a counter exactly when flagged |
| Ciphering.DedRoundTrip | src/ded_apdu.rs:157-256 | an envelope whose counter matches its flags reads back as itself, with the trailing input left over |
| Ciphering.DedUnflaggedCounter | src/ded_apdu.rs:186-241 | a counter that is present but not flagged is still written, and then reads back as the start of the payload |
| Ciphering.Encrypt | src/ded_apdu.rs:75-103 | encryption sets the encryption flag and the counter, and keeps the authentication flag and the suite |
| Ciphering.EncryptAuthenticated | src/ded_apdu.rs:117-148 | authenticated encryption sets both flags and the counter, and keeps the broadcast and compression flags and the suite |
| Ciphering.EncryptedRoundTrip | src/ded_apdu.rs:75-256 | whatever either encryption produces reads back exactly |
| Ciphering.WrapperBytes | src/ded_apdu.rs:325-330 | each wrapper is its tag octet followed by the envelope |
| Ciphering.WrapperRoundTrip | src/ded_apdu.rs:325-673 | the six tags are distinct, and the envelope after the tag reads back |
| Ciphering.ParseGlo | src/general_glo_ciphering.rs:43-67 | a parsed global envelope starts with 0x08 and has a counter exactly when flagged |
| Ciphering.GloBody | src/general_glo_ciphering.rs:55-64 | the payload is the declared length less five octets, whether or not a counter is present |
| Ciphering.ReadGloLengthOf | src/general_glo_ciphering.rs:48-54 | a one-octet length or 0x82 with a u16 reads back |
| Ciphering.GloReadsDed | src/general_glo_ciphering.rs:43-67 | an envelope with a counter, written with a 0x82 or one-octet length, reads back with the global parser |
| Ciphering.GloWithoutCounter | src/general_glo_ciphering.rs:55-64 | without a counter the global parser still drops four octets from the payload and leaves them in the input |
| Ciphering.GloExample | src/general_glo_ciphering.rs:43-67 | a concrete authenticated envelope with counter 1 and a four-octet payload |
| Ciphering.ExampleBytes | src/ded_apdu.rs:157-193 | the same envelope encodes to those octets |
| DataNotification.InvokeIdOf | src/data_notification.rs:58-60 | the invoke id is the low 24 bits |
| DataNotification.AccessorsOfCompose | src/data_notification.rs:38-60 | a word built from priority, service class, processing option, self-descriptive flag and invoke id yields each of them back |
| DataNotification.ComposeOfAccessors | src/data_notification.rs:38-60 | with bits 24-27 clear, the five accessors determine the word |
| DataNotification.AccessorExamples | src/data_notification.rs:38-60 | concrete words: 0x12345678 has invoke id 0x345678, 0xF0FFFFFF has every flag set |
| DataNotification.ParseLongInvokeId | src/data_notification.rs:13-17 | four octets are taken, and the rest left |
| DataNotification.LongInvokeIdRoundTrip | src/data_notification.rs:13-17 | the word is read big-endian |
| DataNotification.ParseLengthPrefixedDateTime | src/data_notification.rs:93 | the date-time is read from inside a length-prefixed field at least 12 octets long, and the input resumes after the field |
| DataNotification.LengthPrefixedDateTimeRoundTrip | src/data_notification.rs:93 | a date-time in a longer length-prefixed field reads back, the padding discarded |
| DataNotification.ParseNotification | src/data_notification.rs:91-96 | a notification takes at least 17 octets |
| DataNotification.NotificationRoundTrip | src/data_notification.rs:91-96 | word, length-prefixed date-time and body read back as the notification |
| MBus.Reassemble | src/mbus.rs:16-71 | the telegrams left over are a suffix of the input and strictly fewer than were given |
| MBus.NextFrame | src/mbus.rs:16-71 | the loop computes the reassembly of the next message from the telegrams |
| MBus.Segments | src/mbus.rs:33-41 | one telegram per block, numbered from the start segment modulo 16 |
| MBus.UnsegmentedMessage | src/mbus.rs:42-54 | a whole-message telegram yields its user data after a six-octet (long) or three-octet (short) header |
| MBus.MessageReassembled | src/mbus.rs:23-64 | consecutive segments from 0 up to the last-segment flag yield their user data, each after its two-octet header, joined |
| MBus.SegmentsReassemble | src/mbus.rs:23-64 | the same from any start segment, appended to what was already gathered |
| MBus.MissingLastSegment | src/mbus.rs:62-70 | segments that never carry the last-segment flag leave the message incomplete |
| MBus.AfterIsModulo | src/mbus.rs:38 | the expected segment number advances modulo 16 |
| MBus.SegmentOutOfOrder | src/mbus.rs:35-37 | a segment whose number is not the expected one is refused, with the checksum-mismatch error |
| MBus.InvalidTelegramRefused | src/mbus.rs:30-31 | a telegram that is not a long frame, or whose control information is not known, is refused as invalid |
| MBus.SuccessiveMessages | src/mbus.rs:16-71 | two segmented messages in a row are read one after the other |
| MBus.UnsegmentedAfterSegments | src/mbus.rs:42-54 | a whole-message telegram that follows open segments returns only its own user data, and the gathered segments are dropped |
| HdlcLink.ParseLlcHeader | src/hdlc.rs:24-42 | the LLC header is accepted exactly when its destination is 0xE6 or 0xFF, its source 0xE6 or 0xE7 and its quality 0, and otherwise refused as invalid |
| HdlcLink.LlcHeaderFields | src/hdlc.rs:30-39 | 0xE6 as destination is unicast and 0xFF broadcast; 0xE6 as source is a command and 0xE7 a response |
| HdlcLink.FirstUnsegmented | src/hdlc.rs:62-69 | the search finds the first frame after the given one that ends a message, or reports that none does |
| HdlcLink.NextFrame | src/hdlc.rs:48-76 | the loop computes the next message from the frames |
| HdlcLink.UnsegmentedFrame | src/hdlc.rs:53-56 | an unsegmented frame yields its information after the LLC header |
| HdlcLink.SegmentedMessage | src/hdlc.rs:57-71 | segmented frames up to the first unsegmented one are joined, only the first carrying an LLC header |
| HdlcLink.AllSegmentedIncomplete | src/hdlc.rs:70-73 | frames that are all segmented leave the message incomplete |
| HdlcLink.BadLlcRefused | src/hdlc.rs:51-60 | no frames is incomplete, and a bad LLC header in the first frame is invalid |
| HdlcLink.TwoSegmentsJoined | src/hdlc.rs:57-71 | a segmented frame followed by an unsegmented one yields both information fields joined |
| HdlcCodec.ComputeFcs | src/transport/hdlc.rs:281-296 | the loop computes the FCS-16 of the data: initial 0xFFFF, polynomial 0x1021 MSB first, output XOR 0xFFFF |
| HdlcCodec.ShiftOctet | src/transport/hdlc.rs:285-292 | one octet: XOR into the high eight bits, then eight shifts that fold in the polynomial when the top bit is set |
| HdlcCodec.FcsOfNothing | src/transport/hdlc.rs:281-296 | the FCS of no data is 0 |
| HdlcCodec.RegisterAppend | src/transport/hdlc.rs:284-293 | the register after two pieces of data is the register after the first, continued over the second |
| HdlcCodec.RegistersStayApart | src/transport/hdlc.rs:284-293 | two different register values stay different over any data |
| HdlcCodec.SingleOctetChangeDetected | src/transport/hdlc.rs:281-296 | changing any one octet of the data changes the FCS |
| HdlcCodec.WidenInjective | src/transport/hdlc.rs:285 | widening an octet to 16 bits loses nothing |
| HdlcCodec.LowHigh | src/transport/hdlc/async.rs:152-154 | a check sequence is written as two octets |
| HdlcCodec.LowHighValue | src/transport/hdlc/async.rs:152-154 | the low octet comes first and the high octet second |
| HdlcCodec.LowHighInjective | src/transport/hdlc/async.rs:152-154 | different check sequences are written differently |
| HdlcCodec.AddressSize | src/transport/hdlc.rs:329-366 | an address takes one to four octets |
| HdlcCodec.AddressBytes | src/transport/hdlc.rs:329-366 | only the last address octet has its low bit set |
| HdlcCodec.AddressOctets | src/transport/hdlc.rs:337-365 | up to 0x7F one octet, up to 0x3FFF two, up to 0x1FFFFF three, otherwise four, each carrying seven bits of the address, lowest first |
| HdlcCodec.AddressRoundTrip | src/transport/hdlc.rs:329-366 | the address reads back from its octets modulo 2^28, and exactly when it is at most 0x0FFFFFFF |
| HdlcCodec.OneOctetAddress | src/transport/hdlc.rs:337-340 | an address up to 0x7F is the single octet 2a+1 |
| HdlcCodec.EncodeAddress | src/transport/hdlc.rs:329-366 | the address octets are written at the offset, their count returned, and nothing else in the buffer changes |
| AsyncHdlc.WrittenFrame | src/transport/hdlc/async.rs:114-183 | the frame as written has the size of the intended frame |
| AsyncHdlc.FrameLayout | src/transport/hdlc/async.rs:114-183 | flag, format 0xA0, length, server address, client address, control, HCS, LLC header, data, FCS (low octet first), flag |
| AsyncHdlc.LengthByteTruncated | src/transport/hdlc/async.rs:179-180 | the length is the frame size without the flags, truncated to eight bits |
| AsyncHdlc.ScanAddress | src/transport/hdlc/async.rs:210-215 | the scan stops at the first octet with its low bit set, or four octets before the end |
| AsyncHdlc.InfoStart | src/transport/hdlc/async.rs:203-223 | where the information field is taken to start, between octet 6 and the last octet |
| AsyncHdlc.WrappingSub | src/transport/hdlc/async.rs:224-225 | the information length is a usize subtraction that wraps around on underflow |
| AsyncHdlc.ShortFrameLengthWraps | src/transport/hdlc/async.rs:224-230 | on an eleven-octet frame whose address scan runs to its limit, `fcs_pos - pos` wraps as in a release build, so the frame is refused but never as `InvalidFrame` |
| AsyncHdlc.ReceivedFcs | src/transport/hdlc/async.rs:233-235 | the received FCS equals the computed one exactly when its octets are the computed value low octet first |
| AsyncHdlc.Unwrap | src/transport/hdlc/async.rs:186-255 | an accepted frame is at least 11 octets long, has flags at both ends and a matching FCS, and yields no more than the output holds |
| AsyncHdlc.UnwrapAfterScan | src/transport/hdlc/async.rs:224-255 | after the scan the errors come in the source's order: too little information, FCS, closing flag, output too small |
| AsyncHdlc.UnwrapRefusals | src/transport/hdlc/async.rs:187-197 | a frame under 11 octets is too short and one without an opening flag is refused |
| AsyncHdlc.FrameUnwrapped | src/transport/hdlc/async.rs:186-255 | an intended frame unwraps to its data preceded by the last header octets, as many as the client address has, because the scan stops at the end of the server address and the client address is skipped as if it were the control octet |
| AsyncHdlc.OneOctetAddressesUnwrapped | src/transport/hdlc/async.rs:203-255 | with one-octet addresses the data comes back after the last LLC octet 0x00 |
| AsyncHdlc.WrittenFrameChecked | src/transport/hdlc/async.rs:114-255 | the frame as written fails the FCS check exactly when the octet left in the length position differs from the length |
| AsyncHdlc.FirstFrameRefused | src/transport/hdlc/async.rs:85-255 | the first frame from a new transport, for server 0x10, client 0x01 and two data octets, fails its own FCS check |
| AsyncHdlc.AsyncHdlcTransport.constructor | src/transport/hdlc/async.rs:85-94 | both buffers zeroed, nothing received |
| AsyncHdlc.AsyncHdlcTransport.WrapHdlc | src/transport/hdlc/async.rs:114-183 | as written: data over 2028 octets is too large; otherwise the frame is built with HCS and FCS computed before the length is stored |
| AsyncHdlc.AsyncHdlcTransport.WrapHdlcCorrected | src/transport/hdlc/async.rs:114-183 | the same frame with the length stored before the check sequences are computed; nothing after it in the buffer changes |
| AsyncHdlc.AsyncHdlcTransport.UnwrapHdlc | src/transport/hdlc/async.rs:186-255 | the method computes the unwrap, copying the data into the output only when the frame is accepted |
| AsyncHdlc.AsyncHdlcTransport.Send | src/transport/hdlc/async.rs:261-268 | as written: data over 2028 octets is too large and leaves the buffer alone; otherwise the frame sent is the frame as written, whose check sequences cover the length octet the previous send left behind, the new length is stored and the buffer past the frame is untouched; a refusal of the inner transport is a transport error |
| AsyncHdlc.AsyncHdlcTransport.SendCorrected | src/transport/hdlc/async.rs:261-268 | with the corrected wrap, the frame sent is exactly the intended frame, and the buffer holds that frame followed by its untouched remainder |
| AsyncHdlc.StaleLengthMatches | src/transport/hdlc/async.rs:151-180 | when the octet left in the length position already equals the new length (a second send of data as long as the first), the frame as written is the intended frame |
| AsyncHdlc.AsyncHdlcTransport.Recv | src/transport/hdlc/async.rs:270-283 | nothing received is a transport error; otherwise the received length is kept and the frame unwrapped |
| CosemAccess.Flags | src/cosem.rs:400-407 | an access value stands for the set of its bit positions below 8 |
| CosemAccess.SameBits | src/cosem.rs:400-407 | two access values with the same bits are equal |
| CosemAccess.OrIsUnion | src/cosem.rs:428-430 | OR of two access values is the union of their flags |
| CosemAccess.AndIsIntersection | src/cosem.rs:436-438 | AND of two access values is the intersection of their flags |
| CosemAccess.NoAccessIsEmpty | src/cosem.rs:420-422 | no access is exactly the empty flag set |
| CosemAccess.ContainsIsSubset | src/cosem.rs:410-412 | `contains` holds exactly when the other's flags are a subset |
| CosemAccess.IntersectsIsOverlap | src/cosem.rs:415-417 | `intersects` holds exactly when the flag sets overlap |
| CosemAccess.ReadWriteIsBoth | src/cosem.rs:373-388 | READ_ONLY or WRITE_ONLY is READ_WRITE, which contains both and is the flags {0, 1} |
| CosemAccess.SingleFlag | src/cosem.rs:373-388 | each one-bit constant is a single flag |
| CosemAccess.ReadableWritableBits | src/cosem.rs:312-332 | an attribute is readable exactly when bit 0 is set, writable exactly when bit 1 is |
| CosemAccess.AuthenticatedBits | src/cosem.rs:335-342 | authenticated read is bit 2 and authenticated write bit 3 |
| CosemAccess.MethodBits | src/cosem.rs:477-555 | a method is accessible exactly when bit 0 is set and needs authentication exactly when bit 1 is, and both ways of asking agree |
| CosemObject.LogicalNameValue | src/cosem/register.rs:137 | attribute 1 is a six-octet octet string that parses back as the logical name |
| CosemObject.UnitOctet | src/cosem/register.rs:139-145 | the unit is sent as its own code |
| CosemObject.ScalerUnitValue | src/cosem/register.rs:139-145 | attribute 3 is the scaler-unit structure of the unit stack |
| CosemObject.ScalerUnitFrom | src/cosem/register.rs:162-180 | a value is accepted as scaler-unit exactly when it is a two-element structure of an Integer and an Enum naming a known unit |
| CosemObject.ScalerUnitRoundTrip | src/cosem/register.rs:135-180 | what the getter returns the setter accepts unchanged |
| CosemObject.ScalerUnitFromSound | src/cosem/register.rs:135-180 | what the setter accepts is what the getter would return for it |
| CosemObject.WriteScalerFirst | src/cosem/extended_register.rs:200-217 | the two-step write stores the scaler before the unit is checked, so a rejected unit leaves the new scaler with the old unit |
| CosemObject.ReservedUnitKeepsNewScaler | src/cosem/extended_register.rs:206-212 | unit code 0 takes the new scaler and is refused |
| CosemObject.ResetValue | src/cosem/register.rs:194 | a reset without parameters stores DoubleLongUnsigned(0), which is numeric; otherwise the parameters |
| CosemObject.WildcardsAgreeOnWire | src/cosem/demand_register.rs:316-331 | the demand register's all-0xFF capture time and the extended register's capture time without time fields encode alike, and parse back as the latter |
| CosemObject.TimeFirstFourWild | src/cosem/demand_register.rs:323-328 | either unspecified time is four 0xFF octets |
| DataClass.DataObject.constructor | src/cosem/data.rs:66-68 | the object holds the given logical name and value |
| DataClass.DataObject.GetAttribute | src/cosem/data.rs:84-90 | attribute 1 is the logical name and 2 the value; any other id is undefined |
| DataClass.DataObject.SetAttribute | src/cosem/data.rs:92-101 | attribute 1 is read-only, attribute 2 takes any value and reads back, any other id is undefined; a refused write changes nothing |
| DataClass.DataObject.InvokeMethod | src/cosem/data.rs:104-111 | the class has no methods |
| RegisterClass.Register.constructor | src/cosem/register.rs:78-80 | the register holds the given logical name, value and scaler-unit |
| RegisterClass.Register.GetAttribute | src/cosem/register.rs:135-148 | attributes 1 to 3 are the logical name, the value and the scaler-unit; any other id is undefined |
| RegisterClass.Register.SetAttribute | src/cosem/register.rs:150-184 | the logical name is read-only, the value takes only numeric data, the scaler-unit only a valid structure; an accepted write reads back and a refused one changes nothing |
| RegisterClass.Register.InvokeMethod | src/cosem/register.rs:187-205 | method 1 resets the value to the parameters or to 0 when that is numeric; other methods are undefined; the scaler-unit never changes |
| ExtendedRegisterClass.ExtendedRegister.constructor | src/cosem/extended_register.rs:99-120 | the register holds the given logical name, value, scaler-unit, status and capture time |
| ExtendedRegisterClass.ExtendedRegister.GetAttribute | src/cosem/extended_register.rs:168-183 | attributes 1 to 5 are the logical name, the value, the scaler-unit, the status and the capture time; any other id is undefined |
| ExtendedRegisterClass.WriteOutcome | src/cosem/extended_register.rs:185-233 | outside attribute 3, a write succeeds exactly for numeric data in attribute 2, anything in attribute 4 and a date-time in attribute 5; attribute 1 is read-only and other ids are undefined |
| ExtendedRegisterClass.ExtendedRegister.SetAttribute | src/cosem/extended_register.rs:185-233 | as written: an accepted write reads back, but a scaler-unit with an unknown unit is refused after its scaler has been stored |
| ExtendedRegisterClass.ExtendedRegister.SetAttributeAtomic | src/cosem/extended_register.rs:185-233 | the same writes, with a refused scaler-unit leaving the object unchanged |
| ExtendedRegisterClass.ExtendedRegister.ReservedUnitChangesScaler | src/cosem/extended_register.rs:206-212 | writing unit code 0 is refused and still changes the scaler |
| ExtendedRegisterClass.ExtendedRegister.ReservedUnitRefusedAtomically | src/cosem/extended_register.rs:206-212 | with the corrected write the same value is refused and changes nothing |
| ExtendedRegisterClass.ExtendedRegister.InvokeMethod | src/cosem/extended_register.rs:238-269 | method 1 resets the value as the register does and clears the capture time; scaler-unit and status never change |
| DemandRegisterClass.DemandRegister.constructor | src/cosem/demand_register.rs:79-116 | the register holds every field as given |
| DemandRegisterClass.DemandRegister.GetAttribute | src/cosem/demand_register.rs:170-199 | attributes 1 to 9 are the logical name, current and last average, scaler-unit, status, capture time, start time, period and number of periods; other ids are undefined |
| DemandRegisterClass.WriteOutcome | src/cosem/demand_register.rs:201-289 | outside attribute 4, a write succeeds exactly for numeric averages, any status, date-times in attributes 6 and 7, a double-long-unsigned period and a long-unsigned count; attribute 1 is read-only |
| DemandRegisterClass.DemandRegister.SetAttribute | src/cosem/demand_register.rs:201-289 | as written: an accepted write reads back and numeric averages stay numeric, but a scaler-unit with an unknown unit is refused after its scaler has been stored |
| DemandRegisterClass.DemandRegister.SetAttributeAtomic | src/cosem/demand_register.rs:201-289 | the same writes, with a refused scaler-unit leaving the object unchanged |
| DemandRegisterClass.DemandRegister.ReservedUnitChangesScaler | src/cosem/demand_register.rs:229-240 | writing unit code 0 is refused and still changes the scaler |
| DemandRegisterClass.DemandRegister.ReservedUnitRefusedAtomically | src/cosem/demand_register.rs:229-240 | with the corrected write the same value is refused and changes nothing |
| DemandRegisterClass.DemandRegister.InvokeMethod | src/cosem/demand_register.rs:292-427 | reset moves current to last and stores the parameter or 0; next period moves current to last, zeroes current and restarts the period; reset to maximum stores the maximum in the current value's type and zeroes last; each answers Integer(0), stamps the capture time and keeps the averages numeric |
| DemandRegisterClass.Clamp | src/cosem/demand_register.rs:389-398 | a float-to-integer cast saturates at the type's bounds and keeps values inside them |
| DemandRegisterClass.MaximumValue | src/cosem/demand_register.rs:385-402 | the maximum keeps the current value's numeric type, saturated into its range; a non-numeric current value becomes DoubleLongUnsigned(0) |
| DemandRegisterClass.MaximumKeepsFittingValue | src/cosem/demand_register.rs:385-402 | a maximum equal to the current value stores the current value unchanged |
| ClockClass.ClockBaseToByte | src/cosem/clock.rs:177-179 | each clock base has a code from 0 to 5 |
| ClockClass.ClockBaseFromByte | src/cosem/clock.rs:164-175 | the codes 0 to 5 are known, each naming its clock base |
| ClockClass.ClockBaseRoundTrip | src/cosem/clock.rs:164-179 | a clock base's code reads back as it |
| ClockClass.Inc | src/cosem/clock.rs:239 | the hour increment `hour + 1` on a u8, wrapping at 255 as a release build does, 0 to 254 moving up by one |
| ClockClass.QuarterOf | src/cosem/clock.rs:226-244 | the new minute is 0, 15, 30 or 45, and the hour moves only from minute 53 on |
| ClockClass.QuarterIsNearest | src/cosem/clock.rs:226-244 | for a valid time the result is the nearest quarter hour, at most 7 minutes away, modulo one day |
| ClockClass.MinuteOf | src/cosem/clock.rs:281-295 | up to 30 seconds the hour and minute stay |
| ClockClass.MinuteIsNearest | src/cosem/clock.rs:281-295 | for a valid time the result is the minute rounded up from 31 seconds, modulo one day |
| ClockClass.TruncRem | src/cosem/clock.rs:379 | Rust's `%` keeps the sign of the dividend |
| ClockClass.NormalizedIsModulo | src/cosem/clock.rs:379 | adding a day and taking the remainder again gives the non-negative remainder |
| ClockClass.ShiftedClock | src/cosem/clock.rs:366-389 | the shifted hour, minute and second are in range and are the old time plus the shift, modulo one day |
| ClockClass.ShiftByZero | src/cosem/clock.rs:366-389 | a shift by zero keeps a valid time |
| ClockClass.ShiftThenBack | src/cosem/clock.rs:366-389 | a shift followed by the opposite shift restores a valid time |
| ClockClass.WithTime | src/cosem/clock.rs:394-409 | only the four time fields change, the date, deviation and status stay |
| ClockClass.QuarteredIdempotent | src/cosem/clock.rs:226-244 | adjusting to the quarter twice is adjusting once |
| ClockClass.MinuteRoundedIdempotent | src/cosem/clock.rs:281-295 | adjusting to the minute twice is adjusting once |
| ClockClass.ShiftedInverse | src/cosem/clock.rs:366-389 | on a full time, shifting back undoes a shift, and a zero shift changes nothing |
| ClockClass.DateTimeFrom | src/cosem/clock.rs:483-498 | a date-time is taken only from a 12-octet octet string that parses, and encodes back to it |
| ClockClass.DateTimeFromEncoded | src/cosem/clock.rs:424-498 | what attribute 2 returns for a valid time is accepted back as that time |
| ClockClass.WriteOutcome | src/cosem/clock.rs:477-592 | which writes succeed: date-times in 2, 5 and 6, a time zone within ±720 in 3, Unsigned in 4 and 8, Integer in 7, a known clock base in 9; out-of-range values are OtherReason, attribute 1 is read-only |
| ClockClass.Clock.constructor | src/cosem/clock.rs:190-204 | every date-time unspecified, every number 0, clock base not defined |
| ClockClass.Clock.UpdateTimeComponents | src/cosem/clock.rs:394-409 | only the time of day changes |
| ClockClass.Clock.AdjustToQuarter | src/cosem/clock.rs:226-244 | the time moves to the quarter hour and nothing else changes |
| ClockClass.Clock.AdjustToMeasuringPeriod | src/cosem/clock.rs:260-263 | the same as adjusting to the quarter |
| ClockClass.Clock.AdjustToMinute | src/cosem/clock.rs:281-295 | the time moves to the rounded minute and nothing else changes |
| ClockClass.Clock.AdjustToPresetTime | src/cosem/clock.rs:312-318 | the time becomes the given one |
| ClockClass.Clock.PresetAdjustingTime | src/cosem/clock.rs:339-346 | only the preset time changes |
| ClockClass.Clock.ShiftTime | src/cosem/clock.rs:366-389 | the time is shifted by the given seconds over the day |
| ClockClass.Clock.GetAttribute | src/cosem/clock.rs:424-475 | attributes 1 to 9 with date-times as 12-octet strings that read back; on a valid clock the time zone reported is within twelve hours; other ids are undefined |
| ClockClass.Clock.SetAttribute | src/cosem/clock.rs:477-592 | the write outcome above; an accepted write reads back and a refused one changes nothing |
| ClockClass.Clock.InvokeMethod | src/cosem/clock.rs:594-661 | methods 1 to 3 take no parameters, 4 and 5 a date-time string, 6 a Long; anything else is a type mismatch; each success answers Integer(0) |
| ProfileGenericClass.SortMethodToByte | src/cosem/profile_generic.rs:351 | each sort method is written as a code from 1 to 6 |
| ProfileGenericClass.SortMethodFromByte | src/cosem/profile_generic.rs:154-164 | exactly the codes 1 to 6 are known, each naming its method; any other code is TypeUnmatched |
| ProfileGenericClass.SortMethodRoundTrip | src/cosem/profile_generic.rs:154-164 | a sort method's code reads back as it |
| ProfileGenericClass.CaptureObjectValue | src/cosem/profile_generic.rs:340-345 | a capture object definition is a four-field structure of the shape attribute 3 accepts |
| ProfileGenericClass.CaptureObjectFrom | src/cosem/profile_generic.rs:375-406 | a definition is read exactly from a structure of LongUnsigned, a six-octet logical name, Integer and LongUnsigned, and it writes back to the same value |
| ProfileGenericClass.CaptureObjectRoundTrip | src/cosem/profile_generic.rs:340-406 | a definition written as a structure reads back as it |
| ProfileGenericClass.CaptureObjectsValue | src/cosem/profile_generic.rs:334-348 | attribute 3 lists every capture object, in order |
| ProfileGenericClass.CaptureObjectsFrom | src/cosem/profile_generic.rs:370-416 | the list is accepted exactly when every element is a definition, and then holds those definitions in order |
| ProfileGenericClass.CaptureObjectsRoundTrip | src/cosem/profile_generic.rs:334-416 | the list attribute 3 returns is accepted back as the same list |
| ProfileGenericClass.CaptureObjectsSound | src/cosem/profile_generic.rs:334-416 | an accepted list writes back to the value it was read from |
| ProfileGenericClass.ParseCaptureObjects | src/cosem/profile_generic.rs:372-413 | the element-by-element loop returns the list read above, or nothing at the first malformed element |
| ProfileGenericClass.Position | src/cosem/profile_generic.rs:918 | `position` finds the first index holding the value, and only values in the sequence have one |
| ProfileGenericClass.SortColumn | src/cosem/profile_generic.rs:915-919 | the sort column exists exactly when a sort object is set and is one of the capture objects, and it names that capture object |
| ProfileGenericClass.SortValue | src/cosem/profile_generic.rs:899-907 | a row has a sort value exactly when the column exists, lies inside the row and holds an integer type |
| ProfileGenericClass.ScanStep | src/cosem/profile_generic.rs:855-885 | the worst row so far is always a row with a sort value, at or before the current one |
| ProfileGenericClass.ScanStepKeepsWorst | src/cosem/profile_generic.rs:855-885 | one step of the scan keeps "the worst of the rows seen, first of equals under min_by, last under max_by" |
| ProfileGenericClass.WorstFromCorrect | src/cosem/profile_generic.rs:855-885 | the rest of the scan ends with the worst row of the whole buffer |
| ProfileGenericClass.WorstIndexIsWorst | src/cosem/profile_generic.rs:844-897 | for a sorted method, the index found is the row the method drops first (smallest for Largest, largest for Smallest, farthest from zero for NearestToZero, nearest for FarthestFromZero), and none is found only when no row has a sort value |
| ProfileGenericClass.RemoveAt | src/cosem/profile_generic.rs:828 | removing an index inside the buffer removes exactly one row |
| ProfileGenericClass.FifoAddedKeepsNewest | src/cosem/profile_generic.rs:780-786 | FIFO keeps the newest rows in order with the entry last, never more than the capacity, and nothing at capacity 0 |
| ProfileGenericClass.LifoAddedKeepsFront | src/cosem/profile_generic.rs:787-793 | LIFO puts the entry first and drops rows from the back down to the capacity |
| ProfileGenericClass.SortedAddedRemovesOne | src/cosem/profile_generic.rs:817-842 | below capacity the entry is appended; over it exactly one row goes, the worst one, or the front row when no row has a sort value |
| ProfileGenericClass.NoSortColumnDropsOldest | src/cosem/profile_generic.rs:834-840 | without a sort column a full sorted buffer drops its front row |
| ProfileGenericClass.AddedBounded | src/cosem/profile_generic.rs:778-815 | adding never grows the buffer past the larger of its size and the capacity, and FIFO and LIFO stay within the capacity |
| ProfileGenericClass.ZeroCapacityStaysEmpty | src/cosem/profile_generic.rs:778-815 | with capacity 0 an empty buffer stays empty in every mode |
| ProfileGenericClass.PlaceholderEntry | src/cosem/profile_generic.rs:746-755 | the captured row has one DoubleLongUnsigned(0) per capture object |
| ProfileGenericClass.Rows | src/cosem/profile_generic.rs:324-325 | each buffer row becomes one structure, in order |
| ProfileGenericClass.WriteOutcome | src/cosem/profile_generic.rs:367-485 | which writes succeed: a capture object list in 3, DoubleLongUnsigned in 4 and 8, a code 1 to 6 in 5, Null or a definition in 6; attributes 1, 2 and 7 are read-only and ids past 8 undefined |
| ProfileGenericClass.ProfileGeneric.constructor | src/cosem/profile_generic.rs:522-535 | an empty FIFO profile with the given capacity |
| ProfileGenericClass.ProfileGeneric.WithFifo | src/cosem/profile_generic.rs:573-591 | an empty FIFO profile with the given columns, period and capacity |
| ProfileGenericClass.ProfileGeneric.WithLifo | src/cosem/profile_generic.rs:627-645 | an empty LIFO profile with the given columns, period and capacity |
| ProfileGenericClass.ProfileGeneric.AddFifo | src/cosem/profile_generic.rs:780-786 | the buffer becomes the FIFO addition above and the configuration stays |
| ProfileGenericClass.ProfileGeneric.AddLifo | src/cosem/profile_generic.rs:787-793 | the buffer becomes the LIFO addition above and the configuration stays |
| ProfileGenericClass.ProfileGeneric.AddSorted | src/cosem/profile_generic.rs:817-842 | the buffer becomes the sorted addition above and the configuration stays |
| ProfileGenericClass.ProfileGeneric.AddEntry | src/cosem/profile_generic.rs:778-815 | the buffer is the addition for the current method, and entries in use is its length as a u32 |
| ProfileGenericClass.ProfileGeneric.Reset | src/cosem/profile_generic.rs:688-693 | the buffer, entries in use and executed time become empty and zero |
| ProfileGenericClass.ProfileGeneric.Capture | src/cosem/profile_generic.rs:745-759 | one placeholder row is added as an entry would be |
| ProfileGenericClass.ProfileGeneric.InvokeMethod | src/cosem/profile_generic.rs:487-497 | method 1 resets, method 2 captures, any other id is undefined and changes nothing |
| ProfileGenericClass.ProfileGeneric.GetAttribute | src/cosem/profile_generic.rs:319-365 | attributes 1 to 8: the buffer as rows (compact only when asked and non-empty), the capture objects and sort object in the shape that reads back, the numbers as DoubleLongUnsigned, and on a valid profile `entries_in_use` is the number of rows in the buffer |
| ProfileGenericClass.ProfileGeneric.SetAttribute | src/cosem/profile_generic.rs:367-485 | the write outcome above; an accepted write reads back and a refused one changes nothing |
| ClientSession.AareHandled | src/client/sync.rs:210-228 | the AARE's result and diagnostic are recorded, the session is associated exactly when the AARE accepts, and an accepted AARE with user information sets the negotiated PDU size and conformance bytes |
| ClientSession.NegotiatedConformanceKept | src/client/sync.rs:218-220 | the stored conformance bytes are three octets that read back as the server's conformance block |
| ClientSession.IdsDistinctWithinWindow | src/client/sync.rs:241-245 | invoke ids handed out by `wrapping_add` differ within any 256 consecutive requests and repeat after 256 |
| ClientSession.DlmsSession.constructor | src/client/sync.rs:179-181 | the settings given, the default state and invoke id 0 |
| ClientSession.DlmsSession.GenerateAarq | src/client/sync.rs:194-207 | the AARQ carries the configured context, mechanism and secret as a character string, and an initiate request for the configured PDU size |
| ClientSession.DefaultAarqIsSimpleLn | src/client/sync.rs:138-149 | with the default settings the AARQ is the simple logical-name AARQ, and its encoding parses back |
| ClientSession.DlmsSession.HandleAare | src/client/sync.rs:210-228 | the state becomes the handled AARE's, and the call succeeds exactly when the AARE accepts, else it returns the result |
| ClientSession.DlmsSession.GenerateReleaseRequest | src/client/sync.rs:231-233 | a normal release request with no user information, encoded as 62 03 80 01 00 |
| ClientSession.DlmsSession.HandleReleaseResponse | src/client/sync.rs:236-238 | the session is no longer associated and nothing else changes |
| ClientSession.DlmsSession.NextInvokeId | src/client/sync.rs:241-245 | returns the current id and advances it by one modulo 256 |
| ClientSession.DlmsSession.GenerateGetRequest | src/client/sync.rs:251-266 | a GET-Request-Normal for the attribute, carrying the current invoke id in its third octet |
| ClientSession.DlmsSession.GenerateSetRequest | src/client/sync.rs:297-314 | a SET-Request-Normal for the attribute and value, carrying the current invoke id |
| ClientSession.DlmsSession.GenerateActionRequest | src/client/sync.rs:344-359 | an ACTION-Request-Normal for the method, carrying the current invoke id |
| ClientSession.DlmsSession.HandleGetResponse | src/client/sync.rs:270-291 | a normal response yields its data or its access error; any other response is OtherReason; the invoke id is not compared |
| ClientSession.DlmsSession.HandleSetResponse | src/client/sync.rs:318-338 | a normal response succeeds exactly on Success and otherwise returns its result; any other response is OtherReason |
| ClientSession.DlmsSession.HandleActionResponse | src/client/sync.rs:363-393 | a successful normal response yields its data or nothing, returned access errors become OtherReason, other results are returned, other responses are OtherReason |
| ClientSession.Drop | src/client/sync.rs:623-641 | the replies left after n of them are consumed |
| ClientSession.ReadOutcome | src/client/sync.rs:705-736 | an empty reply is ConnectionClosed, an unparsable one ParseError, else the handled GET response |
| ClientSession.ServedValueIsRead | src/client/sync.rs:705-736 | a server's normal GET response with data is read as that data |
| ClientSession.ServedRefusalIsReported | src/client/sync.rs:705-736 | a server's access error is reported as that error |
| ClientSession.WriteOutcome | src/client/sync.rs:773-810 | an empty reply is ConnectionClosed, an unparsable one ParseError, else the handled SET response |
| ClientSession.ServedSetResult | src/client/sync.rs:773-810 | a server's SET result is success exactly when it is Success, else that error |
| ClientSession.MethodOutcome | src/client/sync.rs:845-876 | an empty reply is ConnectionClosed, an unparsable one ParseError, else the handled ACTION response |
| ClientSession.ServedActionValue | src/client/sync.rs:845-876 | a server's successful ACTION response with data is read as that data |
| ClientSession.ListResults | src/client/sync.rs:968-977 | each result of the list becomes its data or its access error, in order |
| ClientSession.ListReadOutcome | src/client/sync.rs:955-982 | a list result is accepted exactly from a parsed GET-Response-With-List with the request's invoke id |
| ClientSession.ServedListIsRead | src/client/sync.rs:955-982 | a server's list response is read when its invoke id matches and is InvokeIdMismatch otherwise |
| ClientSession.ListWriteOutcome | src/client/sync.rs:1063-1084 | a list result is accepted exactly from a parsed SET-Response-With-List with the request's invoke id |
| ClientSession.ServedListIsWritten | src/client/sync.rs:1063-1084 | a server's list response is returned when its invoke id matches and is InvokeIdMismatch otherwise |
| ClientSession.ChunkSize | src/client/sync.rs:1356-1358 | the explicit maximum wins, then the configured one, then the whole list |
| ClientSession.FlattenChunks | src/client/sync.rs:1363-1366 | `chunks` splits a list into pieces that join back to the list |
| ClientSession.ChunksShape | src/client/sync.rs:1363 | every piece is non-empty and at most the chunk size, and all but the last are full |
| ClientSession.OutcomeAt | src/client/sync.rs:1363-1366 | the k-th chunk is answered by the k-th remaining reply under the k-th following invoke id |
| ClientSession.OutcomesAt | src/client/sync.rs:1363-1366 | every chunk at once: the k-th chunk is answered by the k-th remaining reply under the k-th following invoke id |
| ClientSession.TriedIsFirstFailure | src/client/sync.rs:1363-1366 | the chunked call succeeds exactly when every chunk does, and then all chunks were tried; otherwise the exchanges tried end with the first failing chunk, whose error is the call's |
| ClientSession.JoinedFirstError | src/client/sync.rs:1364 | the first failing chunk's error ends the whole request |
| ClientSession.JoinedResultCount | src/client/sync.rs:1363-1369 | when every chunk answers one result per item, so does the whole request |
| ClientSession.ChunkedReadCount | src/client/sync.rs:1343-1370 | a chunked read whose every chunk is answered in full returns one result per request |
| ClientSession.ChunkedWriteCount | src/client/sync.rs:1421-1448 | a chunked write whose every chunk is answered in full returns one result per item |
| ClientSession.ListReadRequestAt | src/client/sync.rs:1363-1366 | the k-th frame sent is the GET-Request-With-List for the k-th chunk under the k-th invoke id |
| ClientSession.ListWriteRequestAt | src/client/sync.rs:1441-1444 | the k-th frame sent is the SET-Request-With-List for the k-th chunk under the k-th invoke id |
| ClientSession.WriteListRequest | src/client/sync.rs:1045-1062 | the request lists the items' descriptors and values pairwise in order |
| ClientSession.DlmsClient.SplitItems | src/client/sync.rs:1045-1062 | the descriptors and values split off the items form that request |
| ClientSession.DlmsClient.constructor | src/client/sync.rs:555-557 | a fresh session with the settings and a transport that has sent nothing |
| ClientSession.DlmsClient.Exchange | src/client/sync.rs:627-633 | one frame is sent and the next reply consumed and returned |
| ClientSession.DlmsClient.Connect | src/client/sync.rs:623-641 | the AARQ is sent; an empty reply is ConnectionClosed and an unparsable one ParseError, both leaving the state; a parsed AARE is handled and succeeds exactly when accepted |
| ClientSession.DlmsClient.Disconnect | src/client/sync.rs:646-670 | without an association nothing is sent; otherwise the release request is sent, an empty or parsed reply ends the association and an unparsable one is ParseError |
| ClientSession.DlmsClient.Read | src/client/sync.rs:705-736 | without an association NotAssociated and nothing sent; otherwise the GET request is sent under the current id and the reply read as above |
| ClientSession.DlmsClient.Write | src/client/sync.rs:773-810 | without an association NotAssociated and nothing sent; otherwise the SET request is sent and the reply read as above |
| ClientSession.DlmsClient.Method | src/client/sync.rs:845-876 | without an association NotAssociated and nothing sent; otherwise the ACTION request is sent and the reply read as above |
| ClientSession.DlmsClient.ReadMultiple | src/client/sync.rs:925-983 | no association is NotAssociated, no requests is an empty result with nothing sent, else one GET-Request-With-List and its list outcome |
| ClientSession.DlmsClient.WriteMultiple | src/client/sync.rs:1030-1085 | no association is NotAssociated, no items is an empty result with nothing sent, else one SET-Request-With-List and its list outcome |
| ClientSession.DlmsClient.ReadMultipleChunked | src/client/sync.rs:1343-1370 | without an association nothing is sent and the call fails; an empty request list sends nothing and yields no results; otherwise the requests go out chunk by chunk, the result is the chunks' joined outcomes, and whether it succeeds or fails, exactly the frames of the chunks tried (up to and including the first failing one) were sent, as many replies consumed and as many invoke ids used |
| ClientSession.DlmsClient.ReadChunks | src/client/sync.rs:1363-1366 | the loop over the chunks stops at the first failing chunk; its result, frames sent, replies consumed and invoke ids used are those of the chunks tried, and it succeeds only after trying every chunk |
| ClientSession.DlmsClient.WriteMultipleChunked | src/client/sync.rs:1421-1448 | without an association nothing is sent and the call fails; an empty item list sends nothing and yields no results; otherwise the items go out chunk by chunk, the result is the chunks' joined outcomes, and whether it succeeds or fails, exactly the frames of the chunks tried (up to and including the first failing one) were sent, as many replies consumed and as many invoke ids used |
| ClientSession.DlmsClient.WriteChunks | src/client/sync.rs:1441-1445 | the loop over the chunks stops at the first failing chunk; its result, frames sent, replies consumed and invoke ids used are those of the chunks tried, and it succeeds only after trying every chunk |
| ClientSession.DlmsClient.ReadClock | src/client/sync.rs:1226-1238 | without an association the call fails and nothing is sent, received or used; otherwise the GET-Request-Normal for attribute 2 of the clock 0-0:1.0.0.255 is sent under the next invoke id, one reply is consumed, and only a date-time value is accepted |
| ClientSession.DlmsClient.SetClock | src/client/sync.rs:1280-1289 | without an association the call fails and nothing is sent, received or used; otherwise the SET-Request-Normal writing the date-time to attribute 2 of the clock 0-0:1.0.0.255 is sent under the next invoke id, one reply is consumed, and the result is the write's outcome |

## Left out

- Network and transport I/O: the TCP transports, the `Transport` and `AsyncTransport` traits, timeouts and `recv_timeout` are not modelled. The client's transport is a list of frames sent and a list of replies still to come, and each receive hands back one whole reply. The receive buffer's 4096-octet capacity and the truncation it implies are not modelled.
- AsyncHdlc.AsyncHdlcTransport.Send and AsyncHdlc.AsyncHdlcTransport.Recv: what the inner transport does is a parameter (`accepted`, `delivered`), because the inner transport is foreign code.
- `src/client/async.rs` is an asynchronous copy of the synchronous client and is not part of this model.
- The buffer plumbing of the client (`build_with_heap`, `build_with_heapless`, the `Buffer` trait) is memory management with no protocol logic, and is left out.
- ClientSession.DlmsClient.Connect and the other transport-driven calls never return `TransportError`, because the abstract transport cannot fail.
- `read_load_profile` (src/client/sync.rs:1143-1190) builds a range-descriptor access selector. The selective-access types are not part of this model, so neither is this call.
- Cryptography: AES-GCM in `encrypt`/`encrypt_authenticated` of src/ded_apdu.rs comes from a foreign crate. The model takes the ciphertext and tag as a parameter and keeps only the framing and the security-control flags. `decrypt` in src/ded_apdu.rs and src/general_glo_ciphering.rs is left out for the same reason.
- The `glo_apdu.rs` wrappers are not part of this model. They only prefix an inner encoding with a tag and call the same cipher.
- Floating point: Float32 and Float64 values are carried as their IEEE 754 bit patterns, which is all the codec reads and writes. The `scaled_value` helpers of the register classes compute in `f64` and are left out.
- DemandRegisterClass.MaximumValue: the float arithmetic of method 3 (`max_val / 10^scaler` and the float results) is a parameter. Only the clamping into the value's own type is modelled.
- ProfileGenericClass.SortValue: only the eight integer variants are sort values. The source also sorts on Float32/Float64 columns, and compares 64-bit integers by their `f64` approximation. In the model, float columns count as having no sort value, and integers are compared exactly.
- AxdrData.Parse: the tags of Array, Bool, BitString, VisibleString, Bcd and CompactArray reach `unimplemented!` in the source. The model reports them as a parse failure, and the `Data` datatype has no variants for them.
- ProfileGenericClass.ProfileGeneric.GetAttribute: the buffer comes back as an Array or CompactArray of rows in the attribute value itself, because `Data` has no such variants. Their A-XDR encoding is not modelled.
- `Data::is_numeric` is not part of this model. It is taken to hold for the eight integer variants and the two float variants.
- `ReleaseRequestReason` and `ReleaseResponseReason` are not part of this model. Only Normal = 0 and NotFinished = 1 are known; any other reason code is dropped, as the parser's unknown-code path does.
- The `mbusparse` telegram and `hdlcparse` frame types are external crates. They are re-declared with only the fields the layers read, and their own parsers are not modelled.
- `nom` distinguishes incomplete input from malformed input. Both become `None`, except where the source maps them to different errors (M-Bus, HDLC, `unwrap_hdlc`).
- Panics become preconditions: `encode_tag` above 30, `encode_length` above 65535, and `chunks(0)` in the chunked client calls (a chunk size of 0).
- Ciphering.ParseDed and Ciphering.ParseGlo: a length smaller than the fields it counts makes the source's usize subtraction (src/ded_apdu.rs:247, src/general_glo_ciphering.rs:55) panic in a debug build. The model follows the release build, where the wrapped length is larger than any input, so the parse fails.
- AsyncHdlc.Unwrap and AsyncHdlc.WrappingSub: `fcs_pos - pos` (src/transport/hdlc/async.rs:225) underflows when the address scan runs to its limit on a short frame, for example an eleven-octet frame whose octets 3 to 6 all have the low bit clear. A debug build panics there. The model follows the release build: the wrapped length passes the LLC-header check, and the frame fails a later check instead (`AsyncHdlc.ShortFrameLengthWraps`).
- ClockClass.Inc: `hour + 1` on a u8 hour of 0xFF (the wildcard that `Clock::new` stores) panics in a debug build. The model follows the release build, which wraps to 0.
- ClockClass.Clock.GetAttribute: the `TemporaryFailure` answer for date-time attributes when the `encode` feature is off is not modelled. The model assumes the `encode` and `parse` features are on everywhere.
- The `class_id` and `version` getters of the interface classes are constants of the Dafny classes and have no contract.
- `src/getrandom_impl.rs` is a platform random-number hook and is not part of this model. Neither are the print-only example programs, nor the tests in `src/lib_tests.rs` of code that is not shown.
- The file read and write and the prints of `fix_profile_generic.py` are I/O and are left out. The patcher is modelled as a function from input text to output text.
- Concurrency plays no part: the library is single-threaded apart from the async runtimes, which are left out with the transports.

## Findings

| source | as written | input that shows it | evidently intended | confidence | as-written member | corrected member |
|---|---|---|---|---|---|---|
| src/transport/hdlc/async.rs:151-180 | `wrap_hdlc` computes the HCS and the FCS over the buffer before it stores the length octet, so both cover whatever octet was left in position 2 | a new transport (zeroed buffer), server 0x10, client 0x01, two data octets: the stale octet is 0 and the length is 14, so `unwrap_hdlc` refuses the frame with `FcsError` | store the length octet before computing either check sequence, so every frame passes its own FCS check | not executed | AsyncHdlc.AsyncHdlcTransport.WrapHdlc, AsyncHdlc.AsyncHdlcTransport.Send, AsyncHdlc.WrittenFrameChecked, AsyncHdlc.FirstFrameRefused | AsyncHdlc.AsyncHdlcTransport.WrapHdlcCorrected, AsyncHdlc.AsyncHdlcTransport.SendCorrected, AsyncHdlc.FrameUnwrapped |
| src/cosem/extended_register.rs:206-212 | `set_attribute(3)` stores the new scaler and then checks the unit code, so a refused write still changes the scaler | an extended register with scaler 0, written `Structure([Integer(3), Enum(0)])`: the result is `TypeUnmatched` and the scaler is now 3 | a refused write leaves the scaler-unit unchanged, as the Register class does | not executed | ExtendedRegisterClass.ExtendedRegister.SetAttribute, ExtendedRegisterClass.ExtendedRegister.ReservedUnitChangesScaler | ExtendedRegisterClass.ExtendedRegister.SetAttributeAtomic, ExtendedRegisterClass.ExtendedRegister.ReservedUnitRefusedAtomically |
| src/cosem/demand_register.rs:229-240 | `set_attribute(4)` stores the new scaler and then checks the unit code, so a refused write still changes the scaler | a demand register with scaler 0, written `Structure([Integer(3), Enum(0)])`: the result is `TypeUnmatched` and the scaler is now 3 | a refused write leaves the scaler-unit unchanged | not executed | DemandRegisterClass.DemandRegister.SetAttribute, DemandRegisterClass.DemandRegister.ReservedUnitChangesScaler | DemandRegisterClass.DemandRegister.SetAttributeAtomic, DemandRegisterClass.DemandRegister.ReservedUnitRefusedAtomically |
