# Protocol engine: a verified model

The repository compiles descriptions of byte protocols into frozen plans and runs them: a bounded
framer cuts a byte stream into candidate frames, a codec encodes and decodes complete records, and
a session joins the two for a host. The compiler refuses every description whose run could go
wrong. This project models that code in Dafny and proves what it is for:

* **Framing.** A ten-state machine over a fixed buffer, a work budget and a frame quota delivers
  exactly the frames of a naive parser that sees the whole stream at once, however the stream is
  cut and however often the host is interrupted; every byte is delivered, discarded or held, every
  malformed candidate is counted once, and the work charged is exactly what the stream costs, which
  is linear in its length whatever its bytes.
* **Compile-time proofs.** The CRLF automaton, the matcher intersection test, the layout checks,
  the matcher conflict check and the prefix tables are sound *and* complete for the run-time
  property they stand for; above all, no frame is ambiguous among accepted Binary messages.
* **Codec.** What Encode accepts, Decode gives back, for Binary frames (bit containers, signed,
  enum, decimal, computed length, bounded payload, CRC and SUM8) and for text records; the reviews
  Encode makes of its own output fail only for a conflict that the caller caused.
* **End to end.** Messages encoded, sent as a stream and cut anywhere arrive as the values that were
  sent, for Binary pipelines and for text pipelines, through the bare framer and through a session.
* **Decimals.** 256-bit limb arithmetic is exact, conversions undo each other, and every derived
  descriptor keeps the conversions clear of their internal-error branches.
* **Host.** Session keys, channels, faults and counters over whole runs; what a session costs and
  whether it opens; the plan arena against its estimate; two UTF-8 checkers against encoding itself.

Code that the repository writes as loops over fields, buffers or limbs is written as methods with
loops here, each proved against a specification function or a stated property; the classes are
`StreamFramingWorkspace`, `PlanMemoryLayout`, `PlanArena`, `Channel` and `Session`.

The definitions that contracts speak of are read back in bytes, bits, offsets and numbers by lemmas
of their own, most of them in the modules called `...Meaning` and in `CrcDivision`.

| modules | subject |
|---|---|
| `Bytes`, `Arithmetic`, `Words` | octets, laws of products and quotients, single machine words |
| `Kmp` | prefix tables and the fallback loop, shared by framer and text codec |
| `FramingSpec`, `FramingWork`, `FramingMeaning` | the naive parser, what a stream costs, both in bytes and numbers |
| `StreamFramer`, `FramerRuns` | the framer, runs of the framer |
| `TextTemplates`, `AsciiSets`, `AsciiBoundary`, `TextCodec`, `TextRecords`, `TextMeaning`, `TextPipeline`, `AsciiStream` | text templates, character sets, the CRLF proof, the walk, whole records, all this in bytes and lists, several messages, records in a stream |
| `WideIntegers`, `DecimalConversion`, `DecimalLaws`, `DecimalDescriptor` | limbs, both conversions, their laws, descriptor derivation |
| `Integrity`, `CrcDivision` | CRC and SUM8, the CRC as polynomial division |
| `Matchers`, `PipelineMatch` | matchers, candidate groups, look-up of a frame's message |
| `WireIntegers`, `BinaryPlan`, `BinaryImage`, `BinaryDecode`, `BinaryEncode`, `BinaryCodec`, `BinaryMeaning`, `MatcherConflicts`, `LayoutMeaning`, `BinaryStream` | Binary messages from wire integers to the round trip and to streams |
| `Session`, `SessionRuns`, `SessionCreation`, `SessionMeaning`, `SessionMessages` | host sessions, alone and with the codecs |
| `PlanMemory` | the arena and its estimator |
| `Utf8` | the two UTF-8 checks |

What the proofs brought out:

* Decoding a decimal and encoding it again returns the raw bits only if no bit above the wire width
  is set: `DecimalLaws.DecodeThenEncode` has the exact condition and `DecimalLaws.BitsAboveAreLost`
  a pattern that is lost. The codec never passes such a pattern, because what it loads from a field
  is below the field's limit (`WireIntegers.LoadBound`).
* The compiler's promise that no record is ambiguous ends at text messages, which it does not
  compare; Decode reports ambiguity exactly when two of them read the record
  (`TextPipeline.DecodeTextPipeline`, `TextPipeline.TwinsAreAmbiguous`).
* The compiler's check of a stream profile accepts only messages all of whose frames the framer cuts
  out, but not all of those. `BinaryStream.AllFramesCut` says exactly which messages have this
  property: those that for each of their sizes pin sync bytes and length by themselves. For fixed
  lengths the check finds them all, as far as matchers go (`BinaryStream.RefusedForFrame`). For
  length fields it needlessly refuses, among the messages without a computed length, exactly those
  whose matchers hold the right length as constants (`BinaryStream.ConstantLengthIsRefused`, with an
  instance in `BinaryStream.ConstantLengthExists`).
* The check of matchers against what Encode writes by itself refuses no message that could ever pass
  its own review, matchers on the computed length apart (`LayoutMeaning.DisagreementNeverPasses`).
* A text message's two templates are checked apart. Decode gives back what Encode wrote exactly if
  the Decode template, filled with the same values, spells the same record with no early end
  (`TextRecords.RestoredExactly`); `TextRecords.TemplatesMayDisagree` has two that do not.
* A fault on an encode channel is final, because only decode channels can be reset
  (`Session.EncodeFaultsStay`).

## Model

| member | source | states |
|---|---|---|
| Kmp.FindIsLeftmost | src/protocol_core/complete_record_codec.cpp:259-279 | the reference search returns an occurrence with none before it, or there is none |
| Kmp.Advance | src/protocol_framing/stream_framer.cpp:451-479 | one byte through the fallback loop yields the longest prefix of the pattern that the text now ends with; the charge is two units and two for every fallback, at most four per byte against a potential of two per matched byte |
| Kmp.BuildPrefixTable | src/config_compiler/config_compiler.cpp:4172-4181 | every row is the longest proper border of its prefix |
| Kmp.NoEarlierStart | src/protocol_framing/stream_framer.cpp:328-362 | an occurrence that begins inside the text read so far begins in its last matched bytes, however the text goes on |
| Kmp.ScanStep | src/protocol_framing/stream_framer.cpp:328-362 | a byte either keeps a scan free of occurrences or completes the leftmost one |
| FramingSpec.DecisionStable | src/protocol_framing/stream_framer.cpp:389-433 | what the naive parser decides at the front of a stream is not changed by later bytes |
| FramingSpec.RescanFinds | src/protocol_framing/stream_framer.cpp:328-362 | restarting at the leftmost further header inside a bad candidate parses like restarting one byte on, and leaves one malformed candidate behind |
| FramingSpec.RescanFails | src/protocol_framing/stream_framer.cpp:328-362 | when no further header is found, the partial match at the end is all that must be kept, and one malformed candidate is left behind |
| FramingSpec.LeftmostSimulates | src/protocol_framing/stream_framer.cpp:451-479 | bytes before the leftmost header deliver nothing and count for nothing |
| FramingMeaning.RecordsMean | src/protocol_framing/stream_framer.cpp:260-302 | where it cuts CRLF records: at the first 0D 0A, delivered exactly if it ends within the maximum |
| FramingMeaning.DeclaredMeans | src/protocol_framing/stream_framer.cpp:399-412 | the declared length from its one, two or four bytes in either order |
| FramingWork.SearchCosts | src/protocol_framing/stream_framer.cpp:451-479 | what the search costs, a byte at a time: its step, and a unit for each sync byte copied when the header is complete |
| FramingMeaning.StepPriceMeans | src/protocol_framing/stream_framer.cpp:457-464 | a step costs two units, and two more for every fallback |
| FramingMeaning.CandidateCosts | src/protocol_framing/stream_framer.cpp:389-450 | a candidate costs two units a byte and one for each byte of its length field, and a bad one the rescan |
| FramingMeaning.RescanCosts | src/protocol_framing/stream_framer.cpp:328-387 | the rescan costs its steps, and one unit for every byte of the candidate that is moved |
| FramingMeaning.WorkBounded | src/protocol_framing/stream_framer.cpp:188-494 | every stream costs at least two units and at most a constant a byte, whatever its bytes: 4 + sync + width + 5 header bytes |
| FramingMeaning.NestedHeaderCosts | src/protocol_framing/stream_framer.cpp:328-387 | an instance: three bytes with one header inside another cost twelve units |
| StreamFramer.CreateStreamFramingWorkspace | src/protocol_framing/stream_framer.cpp:115-186 | the exact status for every profile and limits; a created workspace is valid, empty, able to pay for any single step, and has each limit as requested, or the default where 0 is requested |
| StreamFramer.StreamFramingWorkspace.PushStreamChunk | src/protocol_framing/stream_framer.cpp:188-494 | a call refines the naive parser in frames and in malformed candidates, accounts for every byte, charges exactly what the consumed bytes cost, keeps to budget, quota and sink, makes progress, stops early only when the quota is used up or the rest of the budget does not pay for the very next step, ends for want of input only with all consumed and nothing left to do, and never reports an internal error |
| StreamFramer.StreamFramingWorkspace.ScanBuffer | src/protocol_framing/stream_framer.cpp:328-352 | the rescan ends at the leftmost further header, at the end of the buffer, or where the budget cannot pay for a step, and resumes from there; the stretch costs at most four units a byte against two per matched byte in hand |
| StreamFramer.StreamFramingWorkspace.TurnSearchSync | src/protocol_framing/stream_framer.cpp:451-479 | one byte of the search keeps the ledger and is charged so that any stretch of the search sums to at most four units a byte |
| StreamFramer.StreamFramingWorkspace.TurnRescan | src/protocol_framing/stream_framer.cpp:328-362 | one turn of the rescan keeps the ledger and strictly progresses unless it stops for want of budget |
| StreamFramer.StreamFramingWorkspace.TurnCompact | src/protocol_framing/stream_framer.cpp:364-387 | a compaction in budgeted slices stands for one move of the candidate and is charged a unit for each byte it moves |
| StreamFramer.StreamFramingWorkspace.CompactSlice | src/protocol_framing/stream_framer.cpp:366-378 | one slice: as many bytes as the budget pays for, each charged one unit; incomplete only with the budget spent to the last unit |
| StreamFramer.StreamFramingWorkspace.MoveDown | src/protocol_framing/stream_framer.cpp:364-387 | a slice moved inside the buffer damages neither what is in place nor what is to be moved |
| StreamFramer.StreamFramingWorkspace.SettleLength | src/protocol_framing/stream_framer.cpp:389-433 | a complete header is collected at its declared length exactly if that is within bounds, otherwise counted and rescanned, and either way the ledger holds |
| StreamFramer.StreamFramingWorkspace.TakeAscii | src/protocol_framing/stream_framer.cpp:260-286 | a byte of a text record costs two units and keeps the ledger, whether it ends the record, extends it or fills the buffer; an internal error is impossible |
| StreamFramer.StreamFramingWorkspace.TakeDiscarding | src/protocol_framing/stream_framer.cpp:288-302 | a byte of an over-long record costs two units and keeps the ledger: nothing of the record is delivered, whatever calls it spans |
| StreamFramer.StreamFramingWorkspace.Deliver | src/protocol_framing/stream_framer.cpp:233-253 | the sink sees exactly the pending frame, once, whatever it answers |
| StreamFramer.StreamFramingWorkspace.Reset | src/protocol_framing/stream_framer.cpp:496-510 | a half frame is dropped, lifetime totals stay, and refusals change nothing |
| FramerRuns.DriveStream | src/protocol_framing/stream_framer.cpp:188-494 | a host that resubmits what was not consumed terminates, and gets the naive parser's frames for the whole stream, for every chunking and every interruption; the work charged in all is exactly what the stream costs; all bytes are delivered, discarded or held, and the lifetime count of malformed candidates grows by the naive parser's, plus one while an over-long record has not ended |
| FramerRuns.SubmittedMeans | src/protocol_framing/stream_framer.cpp:188-494 | the contract of a submission clause by clause: frames, counts, price, counters, the sink's answers, why it ended, progress |
| FramerRuns.ParsedFramesValid | src/protocol_framing/stream_framer.cpp:188-494 | every delivered frame is a frame of the profile, and they stand in the stream in order without overlap |
| FramerRuns.FramesParseBack | src/protocol_framing/stream_framer.cpp:188-494 | frames sent back to back arrive as sent, and nothing is malformed |
| FramerRuns.NoiseIsSkipped | src/protocol_framing/stream_framer.cpp:328-362 | noise without a header does not harm the frame behind it |
| FramerRuns.RecordsParseBack | src/protocol_framing/stream_framer.cpp:260-302 | of CRLF records exactly the over-long ones are dropped and counted |
| AsciiBoundary.AdvanceCrLfStates | src/config_compiler/config_compiler.cpp:2756-2768 | one field character, from every possible state at once |
| AsciiBoundary.ProveAsciiCrLfBoundary | src/config_compiler/config_compiler.cpp:2777-2815 | true exactly for templates that end in CRLF, refer to existing fields, and all of whose records have their first CRLF at the very end |
| AsciiBoundary.RestIsStationary | src/config_compiler/config_compiler.cpp:2797-2812 | once a step changes no state, the remaining lengths need not be walked |
| AsciiBoundary.FieldBreaks | src/config_compiler/config_compiler.cpp:2797-2812 | a CRLF inside some unfinished field value is a record whose first CRLF is early |
| AsciiBoundary.LiteralBreaks | src/config_compiler/config_compiler.cpp:2790-2795 | the same for a literal, so refusal is never overcautious |
| TextMeaning.BoundaryMeans | src/config_compiler/config_compiler.cpp:2777-2815 | what the proof proves, in bytes: the template ends with 0D 0A, and in no record does 0D 0A stand earlier |
| AsciiSets.AddAllowedAscii | src/config_compiler/config_compiler.cpp:1863-1869 | one more character is allowed, and no other |
| AsciiSets.ParseAllowed | src/config_compiler/config_compiler.cpp:1914-1947 | accepted exactly for ascending control bytes; the set then allows exactly the printable characters and the listed ones |
| TextCodec.ValidateTextAction | src/config_compiler/config_compiler.cpp:2612-2670 | accepted exactly if every variable field is ended by a literal, each field is used once, and record lengths fit their counters |
| TextCodec.FreezeTextAction | src/config_compiler/config_compiler.cpp:4227-4235 | an accepted template freezes into a valid action with its lengths and prefix tables |
| TextCodec.FindTextLiteral | src/protocol_core/complete_record_codec.cpp:259-279 | the cut-off scan returns the leftmost occurrence at an offset the field can reach, or none |
| TextCodec.FindFirstAcrossBoundary | src/protocol_core/complete_record_codec.cpp:345-359 | where value and terminator together are first seen to end |
| TextCodec.WalkTextAction | src/protocol_core/complete_record_codec.cpp:281-335 | the walk matches exactly the inputs that can be read as the template, reports the slices of that reading, and judges characters exactly |
| TextCodec.ParseUnique | src/protocol_core/complete_record_codec.cpp:281-335 | a record can be read in one way only |
| TextMeaning.ReadingMeans | src/protocol_core/complete_record_codec.cpp:281-335 | what a reading is: literals in place, values within their bounds, and no terminator that begins inside a searched value |
| TextMeaning.WalkListed | src/protocol_core/complete_record_codec.cpp:253-256 | for fields built from lists: InvalidCharacter exactly if some character of a value is neither printable nor listed |
| TextRecords.PrepareEncodeInputs | src/protocol_core/complete_record_codec.cpp:810-975 | inputs are accepted exactly if complete and admitted; otherwise the first offending input's own reason is reported, a missing field last |
| TextMeaning.CompleteMeans | src/protocol_core/complete_record_codec.cpp:810-975 | the complete inputs in terms of the template, lengths and the author's lists |
| TextMeaning.ReasonMeans | src/protocol_core/complete_record_codec.cpp:828-957 | why a single input is refused, in the source's order |
| TextMeaning.RefusalMeans | src/protocol_core/complete_record_codec.cpp:810-975 | the first input with a reason decides, and a missing field only if there is none |
| TextRecords.EncodeTextRecord | src/protocol_core/complete_record_codec.cpp:1826-1956 | the exact status in the source's order, the exact bytes, nothing else touched; the final review never fails |
| TextMeaning.RecordMeans | src/protocol_core/complete_record_codec.cpp:1896-1910 | the record is the literals and the caller's values in template order |
| TextMeaning.UnmistakableMeans | src/protocol_core/complete_record_codec.cpp:1845-1870 | a terminator conflict is a terminator that begins inside a value |
| TextRecords.Review | src/protocol_core/complete_record_codec.cpp:1920-1950 | the re-walk passes exactly the record of the inputs and no other bytes |
| TextRecords.RecordParses | src/protocol_core/complete_record_codec.cpp:1845-1870 | if no value can be mistaken for ending early, the record reads back as the caller's pieces |
| TextRecords.DecodeTextRecord | src/protocol_core/complete_record_codec.cpp:1476-1528 | the one reading's slices, or the exact reason why there are none |
| TextMeaning.DecodesMeans | src/protocol_core/complete_record_codec.cpp:1476-1528 | too few slots, then an unlisted character, otherwise the reading's slices |
| TextRecords.RestorableDecodes | src/protocol_core/complete_record_codec.cpp:1476-1528 | a record that the Decode template spells with the same values decodes to these values, each in a slot of its field |
| TextRecords.RestoredExactly | src/config_compiler/config_compiler.cpp:2708-2717 | whatever wrote a record, Decode returns exactly the given values if and only if its template, filled with them, spells that record without an early end |
| TextRecords.TemplatesMayDisagree | src/config_compiler/config_compiler.cpp:2708-2717 | two templates that are legal together and do not understand each other |
| TextRecords.EncodeThenDecode | src/protocol_core/complete_record_codec.cpp:1826-1956 | exactly when Encode accepts, and exactly when Decode, with a template of its own, then returns the values and nothing else; with the same template always |
| TextPipeline.FindTextMatch | src/protocol_core/complete_record_codec.cpp:338-343 | counts exactly the messages that read the input |
| TextPipeline.DecodeTextPipeline | src/protocol_core/complete_record_codec.cpp:1452-1528 | unsupported, unknown and ambiguous exactly when none decodes, none reads, two read; otherwise the one reader's slices |
| TextPipeline.MessagesCanIntersect | src/config_compiler/config_compiler.cpp:2560-2602 | true exactly if both messages are Binary and some frame satisfies both |
| TextPipeline.TwinsAreAmbiguous | src/config_compiler/config_compiler.cpp:2560-2565 | the comparison finds no fault with a text message and its twin, and every record they read is ambiguous |
| TextPipeline.ReceiveRecord | src/protocol_core/complete_record_codec.cpp:1452-1528 | a record of a message's Encode template arrives as its values exactly if the Decode template understands it and no other message reads it; it is reported ambiguous exactly if two read it |
| AsciiStream.CheckAsciiPipeline | src/config_compiler/config_compiler.cpp:3699-3714 | accepted exactly if some message decodes and every decodable one is safe in the stream |
| AsciiStream.RecordsArrive | src/config_compiler/config_compiler.cpp:3699-3714 | with an accepted pipeline a stream of records parses into those records |
| AsciiStream.TransmitRecords | src/protocol_framing/stream_framer.cpp:260-302 | the same through the real framer, for all limits, chunks and interruptions |
| AsciiStream.UnderstoodIsRecord | src/config_compiler/config_compiler.cpp:3699-3714 | a record that its message understands is one of those the CRLF proof speaks of |
| AsciiStream.TransmitMessages | src/protocol_core/complete_record_codec.cpp:1452-1528 | values encoded, streamed in any chunks, framed and decoded: each record arrives in its place, and its values exactly as above |
| AsciiStream.EncodedIsRecord | src/protocol_core/complete_record_codec.cpp:1896-1910 | what Encode writes is one of the records the CRLF proof speaks of |
| WideIntegers.Compare | src/protocol_core/decimal_conversion_internal.cpp:30-37 | the order of the integers that limbs stand for |
| WideIntegers.Add | src/protocol_core/decimal_conversion_internal.cpp:41-53 | exact, or refused exactly on overflow |
| WideIntegers.Subtract | src/protocol_core/decimal_conversion_internal.cpp:55-65 | the difference modulo 2^256 |
| WideIntegers.Multiply | src/protocol_core/decimal_conversion_internal.cpp:67-89 | exact, or refused exactly on overflow |
| WideIntegers.Divide | src/protocol_core/decimal_conversion_internal.cpp:91-117 | n == q d + r with r < d for every n and every non-zero d, the carried 257th bit included |
| WideIntegers.To64 | src/protocol_core/decimal_conversion_internal.cpp:119-126 | narrowing is refused exactly when it would lose something |
| DecimalConversion.SignedAdd | src/protocol_core/decimal_conversion_internal.cpp:148-161 | the signed sum, or refusal exactly on overflow |
| DecimalConversion.FitsRaw | src/protocol_core/decimal_conversion_internal.cpp:190-203 | true exactly for the integers of the wire type |
| DecimalConversion.RawSigned | src/protocol_core/decimal_conversion_internal.cpp:230-243 | two's complement of the wire width |
| DecimalConversion.Normalize | src/protocol_core/decimal_conversion_internal.cpp:205-228 | trailing zeros go before narrowing, so it fails only if the stripped value does not fit |
| DecimalConversion.DecodeDecimal | src/protocol_core/decimal_conversion_internal.cpp:245-260 | raw A + B in lowest scale, or the exact reason; no internal error for a derived descriptor |
| DecimalConversion.EncodeDecimal | src/protocol_core/decimal_conversion_internal.cpp:262-311 | the exact quotient in wire bits, or the exact reason; no internal error for a derived descriptor |
| DecimalLaws.EncodesExactly | src/protocol_core/decimal_conversion_internal.cpp:262-311 | Encode succeeds exactly if the scale is legal and an in-range integer solves the conversion equation; that integer is what it writes |
| DecimalLaws.PatternValue | src/protocol_core/decimal_conversion_internal.cpp:230-243 | what a raw pattern stands for, in closed form |
| DecimalLaws.PatternsFillRange | src/protocol_core/decimal_conversion_internal.cpp:190-203 | an integer is in range exactly if it is the value of a pattern of the wire width |
| DecimalLaws.DecodesExactly | src/protocol_core/decimal_conversion_internal.cpp:245-260 | a pattern of the wire width decodes to d exactly if d solves the equation, is stripped and fits; otherwise only LogicalOutOfRange is answered |
| DecimalLaws.EncodesPattern | src/protocol_core/decimal_conversion_internal.cpp:262-311 | Encode writes a pattern exactly if its value solves the equation; otherwise the reason, in the source's order |
| DecimalLaws.DecodeThenEncode | src/protocol_core/decimal_conversion_internal.cpp:245-311 | the raw bits come back, exactly if none lies above the wire width |
| DecimalLaws.BitsAboveAreLost | src/protocol_core/decimal_conversion_internal.cpp:230-243 | a pattern with bits above the width that does not come back |
| DecimalLaws.EncodeThenDecode | src/protocol_core/decimal_conversion_internal.cpp:245-311 | an equal decimal comes back |
| DecimalLaws.DecimalEqual | src/protocol_core/decimal_conversion_internal.cpp:313-327 | true exactly for two legal decimals of the same value |
| DecimalLaws.StrippedUnique | src/protocol_core/decimal_conversion_internal.cpp:205-228 | a value has one form without trailing zeros |
| DecimalDescriptor.Reduce | src/protocol_plan/decimal_conversion_internal.cpp:102-121 | the same rational in lowest terms, for the most negative numerator too |
| DecimalDescriptor.DecimalPlaces | src/protocol_plan/decimal_conversion_internal.cpp:27-40 | succeeds exactly if the denominator divides 10^18, with the fewest places that do |
| DecimalDescriptor.MultiplyWords | src/protocol_plan/decimal_conversion_internal.cpp:50-82 | exact, or refused exactly if the product does not fit 256 bits |
| DecimalDescriptor.DeriveLinearConversion | src/protocol_plan/decimal_conversion_internal.cpp:123-162 | the exact outcome; success means coefficients exactly scale 10^t and bias 10^t for the least such t, small enough that neither conversion can overflow |
| DecimalDescriptor.DescribesMeans | src/protocol_plan/decimal_conversion_internal.cpp:123-162 | the coefficients are the rationals times 10^t for the least t that makes both integers, and the reduced rationals have no common factor |
| DecimalDescriptor.TerminatesMeans | src/protocol_plan/decimal_conversion_internal.cpp:27-40 | a rational is refused exactly if it has no 18 decimal places |
| Integrity.ReverseLowBits | src/protocol_core/complete_record_codec.cpp:553-560 | the loop computes the reversal that the laws below speak of |
| CrcDivision.ReversalMeans | src/protocol_core/complete_record_codec.cpp:553-560 | of all 32 bits, the low ones come back in the opposite order and the rest are 0 |
| Integrity.Crc | src/protocol_core/complete_record_codec.cpp:562-596 | the byte and bit loops compute the register's fold over the covered bytes |
| CrcDivision.CrcIsRemainder | src/protocol_core/complete_record_codec.cpp:562-596 | the CRC is the remainder of a long division over bits: the message's bits, each byte lowest first if the input is reflected, with the initial value added in front and zeros behind, divided by the generator; reversed if the output is reflected, plus the final value, and no bit above the width |
| CrcDivision.RemainderMeans | src/protocol_core/complete_record_codec.cpp:575-590 | the remainder ignores leading zeros and multiples of the divisor at the front |
| CrcDivision.MessageMeans | src/protocol_core/complete_record_codec.cpp:569-574 | the bits of a byte in both orders |
| Integrity.StepXor | src/protocol_core/complete_record_codec.cpp:575-590 | the register step is linear |
| Integrity.StepInjective | src/config_compiler/config_compiler.cpp:1718-1723 | the step loses nothing because the polynomial's low bit is set |
| Integrity.CrcSeesBursts | src/protocol_core/complete_record_codec.cpp:562-596 | data that differ only within as many bytes as the CRC has cannot have the same CRC |
| Integrity.Sum8 | src/protocol_core/complete_record_codec.cpp:534-550 | the covered bytes' sum modulo 256 |
| Integrity.SumMeans | src/protocol_core/complete_record_codec.cpp:534-550 | nothing sums to 0, a byte to itself, and parts add up modulo 256 |
| Integrity.SumSeesBytes | src/protocol_core/complete_record_codec.cpp:534-550 | data that differ in one byte cannot have the same sum |
| Matchers.ValidateMatchers | src/config_compiler/config_compiler.cpp:3313-3356 | accepted exactly if lengths agree, bytes lie in reach and no byte is asked two values; the map built is the union |
| Matchers.FixedMatchersCanIntersect | src/config_compiler/config_compiler.cpp:2560-2602 | true exactly if some frame satisfies both messages |
| Matchers.SatisfiedByContent | src/protocol_core/complete_record_codec.cpp:222-243 | a frame satisfies a message exactly if its length is in bounds and every clause's content stands at its offset |
| PipelineMatch.FreezeMatchers | src/protocol_plan/plan_builder.cpp:1586-1649 | the frozen bytes ask for exactly what the clauses ask for |
| PipelineMatch.MessageMatches | src/protocol_core/complete_record_codec.cpp:222-243 | true exactly if the frame satisfies the message |
| PipelineMatch.GroupCandidates | src/protocol_plan/plan_builder.cpp:1908-1936 | every size's messages are in its group, in pipeline order |
| PipelineMatch.FindPipelineMatch | src/protocol_core/complete_record_codec.cpp:625-664 | grouped look-up counts exactly the pipeline's messages that match |
| PipelineMatch.ValidatePipeline | src/config_compiler/config_compiler.cpp:3641-3684 | accepted exactly if message references are distinct, known and of the pipeline's direction, and no two of the messages intersect; then they are resolved |
| PipelineMatch.ReferableMeans | src/config_compiler/config_compiler.cpp:3641-3684 | for references that name known messages of the direction: accepted exactly if no frame satisfies two of them |
| PipelineMatch.NeverAmbiguous | src/config_compiler/config_compiler.cpp:3671-3682 | in an accepted pipeline no frame matches two messages |
| PipelineMatch.FrozenIsUnambiguous | src/protocol_plan/plan_builder.cpp:1890-1936 | what the compiler's checks make true of a frozen pipeline: groups, indices and offsets in order, and at most one match for every frame |
| PipelineMatch.CompilePipeline | src/config_compiler/config_compiler.cpp:3641-3684 | matchers, references, freezing and grouping together: accepted exactly if all are legal, and then a pipeline as the codec needs it |
| WireIntegers.LoadUnsigned | src/protocol_core/complete_record_codec.cpp:168-186 | the number the bytes stand for in their order, refused exactly for illegal widths or orders |
| WireIntegers.StoreUnsigned | src/protocol_core/complete_record_codec.cpp:188-200 | exactly the bytes of the number, nothing else, refused exactly if it does not fit |
| WireIntegers.WireRoundTrip | src/protocol_core/complete_record_codec.cpp:168-200 | what was stored is loaded again, in both byte orders |
| WireIntegers.StoreOfLoad | src/protocol_core/complete_record_codec.cpp:168-200 | what was loaded is stored again as the same bytes |
| WireIntegers.LoadBound | src/protocol_core/complete_record_codec.cpp:168-186 | a loaded number has no bit above its field's width |
| WireIntegers.LoadByByte | src/protocol_core/complete_record_codec.cpp:168-186 | the loaded number byte by byte, in both orders |
| WireIntegers.StoredByte | src/protocol_core/complete_record_codec.cpp:188-200 | the stored bytes one by one, in both orders |
| WireIntegers.ExtractReplaced | src/protocol_core/complete_record_codec.cpp:156-158 | a container member reads back what was put into it |
| WireIntegers.ExtractOther | src/protocol_core/complete_record_codec.cpp:1085-1137 | putting in one member leaves the others alone |
| BinaryPlan.CheckSpans | src/config_compiler/config_compiler.cpp:3211-3224 | comparing neighbours of sorted spans is comparing all pairs |
| BinaryPlan.CheckMembers | src/config_compiler/config_compiler.cpp:2975-2993 | accepted exactly if no two members of a container share a bit |
| BinaryPlan.CheckCoverage | src/config_compiler/config_compiler.cpp:3542-3564 | accepted exactly if every byte in reach is covered and nothing sticks out |
| BinaryPlan.ValidateLayout | src/config_compiler/config_compiler.cpp:3507-3564 | spans, bits and coverage together, exactly |
| LayoutMeaning.OwnersMean | src/config_compiler/config_compiler.cpp:3211-3224 | the span check in offsets and widths: of any two containers or fields one ends before the other begins |
| LayoutMeaning.MembersMean | src/config_compiler/config_compiler.cpp:2975-2993 | the same for the bits of a container's members |
| LayoutMeaning.DefinedMeans | src/config_compiler/config_compiler.cpp:3507-3564 | what defines a byte: a container, a field, a matcher, or the checksum of a message of fixed size |
| LayoutMeaning.ReachMeans | src/config_compiler/config_compiler.cpp:3507-3564 | nothing sticks out, in offsets and widths |
| BinaryImage.ImageUnique | src/protocol_core/complete_record_codec.cpp:2034-2107 | the values determine every byte of the frame, so nothing that was in the buffer shows through |
| BinaryEncode.ResolveInputs | src/protocol_core/complete_record_codec.cpp:828-985 | references are resolved exactly if each input field is given once; otherwise the first reason in input order |
| BinaryEncode.AdmitValue | src/protocol_core/complete_record_codec.cpp:986-1035 | each value's exact verdict against its type, and the raw bits of a decimal |
| BinaryEncode.PrepareEncodeInputs | src/protocol_core/complete_record_codec.cpp:810-1035 | accepted exactly if complete and admitted; otherwise references are judged before values, in order |
| BinaryMeaning.AdmittedValues | src/protocol_core/complete_record_codec.cpp:986-1035 | the values a field admits, by type, in numbers |
| BinaryMeaning.AcceptedInputs | src/protocol_core/complete_record_codec.cpp:810-1035 | the accepted inputs: each input field once, with a value it admits, and nothing else |
| BinaryMeaning.ReferenceRefusals | src/protocol_core/complete_record_codec.cpp:828-985 | the first input with a bad reference decides, for its own reason |
| BinaryMeaning.ValueRefusals | src/protocol_core/complete_record_codec.cpp:986-1035 | among good references the first value in field order that is not admitted decides, for its own reason |
| BinaryEncode.WriteFields | src/protocol_core/complete_record_codec.cpp:1085-1137 | every field and container is in place and no unowned byte is touched |
| BinaryEncode.WriteLength | src/protocol_core/complete_record_codec.cpp:2045-2066 | the computed length is in place and nothing else moves |
| BinaryMeaning.LengthReads | src/protocol_core/complete_record_codec.cpp:507-532 | for any frame: the computed length matches exactly if the loaded field is the frame's size, the region's length or the payload's actual length, by its scope |
| BinaryMeaning.ComputedSlot | src/protocol_core/complete_record_codec.cpp:2045-2066 | in a written frame the computed field holds that number |
| BinaryEncode.WriteIntegrity | src/protocol_core/complete_record_codec.cpp:2068-2094 | sealing completes the image and leaves the bytes behind the frame |
| BinaryCodec.VerifyFields | src/protocol_core/complete_record_codec.cpp:1145-1257 | for any bytes: the raw comparisons match exactly if Decode would read every field as what was meant; never an internal error |
| BinaryCodec.ReviewFrame | src/protocol_core/complete_record_codec.cpp:2100-2166 | for any bytes: the review passes exactly if checksum, length, structure and every field are right |
| BinaryCodec.ImagePasses | src/protocol_core/complete_record_codec.cpp:2100-2158 | what Encode writes passes every part of the review but perhaps the structural one |
| BinaryCodec.EncodeCompleteRecord | src/protocol_core/complete_record_codec.cpp:1748-2167 | the exact status and bytes for every input and buffer; in a compiled pipeline; nothing behind the frame is touched, and a refusal before writing touches nothing |
| BinaryDecode.FindEnumEntry | src/protocol_core/complete_record_codec.cpp:672-692 | the binary search finds the entry of a raw value exactly if there is one |
| BinaryDecode.IntegrityMatches | src/protocol_core/complete_record_codec.cpp:598-622 | true exactly if the stored checksum is that of the covered bytes |
| BinaryDecode.IntegritySeesBursts | src/protocol_core/complete_record_codec.cpp:598-622 | two frames that differ only in a covered burst no wider than the checksum cannot both pass |
| BinaryDecode.DecodeBinaryRecord | src/protocol_core/complete_record_codec.cpp:1530-1746 | the values of all fields, or the first reason in the source's order; tainted exactly if it succeeds with an enum value that is no entry's |
| BinaryMeaning.FieldReads | src/protocol_core/complete_record_codec.cpp:1560-1746 | what each field of any frame reads as, from its bytes or bits and its type |
| BinaryMeaning.DecodeVerdicts | src/protocol_core/complete_record_codec.cpp:1530-1746 | which frames are refused and for what, in the source's order |
| BinaryMeaning.ChecksumReads | src/protocol_core/complete_record_codec.cpp:598-622 | where the stored checksum stands and over what it is computed |
| BinaryDecode.ImageNotTainted | src/protocol_core/complete_record_codec.cpp:1660-1667 | what was encoded is never tainted |
| BinaryMeaning.TaintMeans | src/protocol_core/complete_record_codec.cpp:1660-1667 | a frame that decodes is tainted exactly if some slot has an enum value that is no entry's |
| BinaryDecode.FieldReadsBack | src/protocol_core/complete_record_codec.cpp:1530-1746 | every field of a written frame decodes to what was meant |
| BinaryDecode.ImageDecodes | src/protocol_core/complete_record_codec.cpp:1530-1746 | a written frame decodes as a whole |
| BinaryCodec.DecodeCompleteRecord | src/protocol_core/complete_record_codec.cpp:1414-1746 | in a compiled pipeline, exactly the matching message's values and taint; an unmatched frame is unknown, none is ambiguous |
| BinaryCodec.EncodeThenDecode | src/protocol_core/complete_record_codec.cpp:1414-2167 | when exactly Encode succeeds, and that Decode then succeeds, untainted, as the same message with the same logical values |
| BinaryMeaning.Exchange | src/protocol_core/complete_record_codec.cpp:1414-2167 | Encode and Decode told by inputs, slots and sizes alone |
| BinaryMeaning.SlotsOfImage | src/protocol_core/complete_record_codec.cpp:1560-1746 | the slots of a written frame: what was given, the constants, and the computed length |
| BinaryMeaning.ReservedBits | src/protocol_core/complete_record_codec.cpp:1085-1137 | container bits that no member has keep their base value |
| MatcherConflicts.CheckMatchers | src/config_compiler/config_compiler.cpp:3364-3505 | the compiler's check accepts exactly if no matcher asks for anything that Encode, without the caller, writes differently |
| LayoutMeaning.DisagreementNeverPasses | src/config_compiler/config_compiler.cpp:3364-3505 | and it refuses nothing needlessly, matchers on the computed length apart: of a refused message no values at all have an image that its own matchers accept |
| MatcherConflicts.ConflictIsTheCallers | src/protocol_core/complete_record_codec.cpp:2139-2145 | if the image of a checked message fails the review, a field supplied by the caller contradicts a matcher byte |
| MatcherConflicts.EncodeOrBlame | src/protocol_core/complete_record_codec.cpp:1748-2167 | Encode returns FINAL_REVIEW_FAILED only with a supplied field that contradicts a matcher byte of the message, and OK only without one |
| MatcherConflicts.CallersConflictFails | src/protocol_core/complete_record_codec.cpp:2139-2145 | and such a contradiction always fails it |
| MatcherConflicts.DeterminedBits | src/config_compiler/config_compiler.cpp:3432-3505 | a container bit that no supplied member has is the same for all values |
| BinaryStream.MessageHasSyncMatcher | src/config_compiler/config_compiler.cpp:2413-2430 | true exactly if the matchers ask for every sync byte |
| BinaryStream.CheckBinaryPipeline | src/config_compiler/config_compiler.cpp:3716-3749 | accepted exactly if all messages have the profile's lengths, sync bytes and length field |
| BinaryStream.MessageIsFrame | src/config_compiler/config_compiler.cpp:3716-3749 | whatever has the structure and the length of an accepted message is a frame that the framer cuts out whole |
| BinaryStream.AllFramesCut | src/config_compiler/config_compiler.cpp:3716-3749 | for every strategy: all frames of a message are frames of the profile exactly if, for each of its sizes, its matchers and its computed length pin size, sync bytes and declared length |
| BinaryStream.RefusedNeedlessly | src/config_compiler/config_compiler.cpp:3716-3749 | so for every accepted message of the compiler: the check admits no message that is cut wrongly, and those it refuses needlessly are the ones that meet this condition |
| BinaryStream.RefusedForFrame | src/config_compiler/config_compiler.cpp:3716-3736 | for fixed lengths, accepted exactly if every frame that the matchers allow is a frame of the profile |
| BinaryStream.ConstantLengthIsRefused | src/config_compiler/config_compiler.cpp:3737-3749 | for length fields, a message without a computed length is always refused, and needlessly exactly if its matchers hold the sync bytes and its one size as constants |
| BinaryStream.ConstantLengthExists | src/config_compiler/config_compiler.cpp:3737-3749 | such a message |
| BinaryStream.EncodeToSend | src/protocol_core/complete_record_codec.cpp:1748-2167 | what Encode returns OK for is fit to be sent |
| BinaryStream.TransmitMessages | src/protocol_core/complete_record_codec.cpp:1414-1746 | frames that were encoded, streamed in any chunks and framed, decode in order to the values they were encoded from |
| Session.ProcessCounts | src/host_endpoint/host_endpoint.cpp:85-142 | every candidate is one success or one failure; outputs fall short of successes only by a throwing callback on the last candidate; the status is the worst that happened |
| SessionMeaning.CandidateMeans | src/host_endpoint/host_endpoint.cpp:85-142 | one candidate, counter by counter: decoded, observed, delivered; when it ends the call and when it marks the channel |
| Session.Session.Find | src/host_endpoint/host_endpoint.cpp:285-297 | finds a channel exactly if the key names one |
| Session.KeysAreInjective | src/host_endpoint/host_endpoint.cpp:203-205 | two keys name the same channel exactly if they are the same key |
| Session.Session.Push | src/host_endpoint/host_endpoint.cpp:368-422 | the exact refusals; otherwise one framer submission whose frames are decoded in order, and no other channel changes |
| Session.Session.Decode | src/host_endpoint/host_endpoint.cpp:338-367 | the exact refusals; otherwise one candidate, counted as above |
| Session.Session.Encode | src/host_endpoint/host_endpoint.cpp:423-483 | one step of a run: channel and fault gating in order, the other channels untouched, and one output exactly if the codec, whose verdict is a parameter, made a record |
| Session.Session.ResetChannel | src/host_endpoint/host_endpoint.cpp:319-337 | the exact status; success clears fault and framer and advances the generation |
| Session.Session.PerformAll | src/host_endpoint/host_endpoint.cpp:319-483 | any sequence of operations is a run in the sense of the four laws below |
| Session.FaultGates | src/host_endpoint/host_endpoint.cpp:338-422 | after a fault nothing runs on the channel and nothing of it changes until its reset |
| Session.EncodeFaultsStay | src/host_endpoint/host_endpoint.cpp:319-324 | a faulted encode channel never works again |
| Session.GenerationCountsResets | src/host_endpoint/host_endpoint.cpp:319-337 | a generation counts the successful resets of its channel |
| Session.ChannelsAreIsolated | src/host_endpoint/host_endpoint.cpp:338-483 | operations on other channels leave a channel as it was, over any run |
| SessionRuns.ReceiveStream | src/host_endpoint/host_endpoint.cpp:368-422 | a whole stream pushed in any chunks, with callbacks that return: the candidates are the naive parser's frames, and each one the codec accepts is delivered once |
| SessionCreation.CreateSession | src/host_endpoint/host_endpoint.cpp:80-283 | the exact status, first refusal first, memory included from the session object on; on success the bindings divide fresh, separate channels among them and the session is charged with its cost |
| SessionCreation.OpensIfAffordable | src/host_endpoint/host_endpoint.cpp:80-283 | the running account with its many charges comes to one comparison: a session opens exactly if the rules permit it and its total cost is within the limit |
| SessionMeaning.ChannelAccountMeans | src/host_endpoint/host_endpoint.cpp:241-276 | one channel's charges, and the memory its framer may have |
| SessionCreation.PushOpened | src/protocol_framing/stream_framer.cpp:218-221 | a chunk pushed into a created session is refused exactly if it is longer than the submit limit its binding asked for, or the default |
| SessionCreation.Charge | src/host_endpoint/host_endpoint.cpp:32-36 | charged exactly if the product fits what is left, without computing a product that does not |
| SessionMessages.BinaryVerdict | src/host_endpoint/host_endpoint.cpp:101-111 | the codec accepts a frame exactly if its one message's length, checksum and fields are in order |
| SessionMessages.ReceiveBinary | src/host_endpoint/host_endpoint.cpp:368-422 | Binary messages encoded and pushed into a session in any chunks are each delivered once, in order, and decode to their values |
| SessionMessages.TextVerdict | src/host_endpoint/host_endpoint.cpp:101-111 | the codec accepts a record exactly if one message alone reads it, with room and permitted characters |
| SessionMessages.ReceiveText | src/host_endpoint/host_endpoint.cpp:368-422 | and the same for text messages that are understood and not ambiguous |
| SessionCreation.RequestedAreNamed | src/host_endpoint/host_endpoint.cpp:206-240 | the keys of a created session are exactly the requested ones |
| SessionCreation.OpenedNames | src/host_endpoint/host_endpoint.cpp:229-276 | every channel has a key |
| PlanMemory.PlanMemoryLayout.AddAllocation | src/protocol_plan/plan_memory.cpp:46-77 | refused exactly for a bad alignment or for not fitting the limit; the accounts stay balanced |
| PlanMemory.ExtendMeans | src/protocol_plan/plan_memory.cpp:46-77 | one request in numbers: the least aligned offset, the refusals, and every counter |
| PlanMemory.PlanArena.Allocate | src/protocol_plan/plan_memory.cpp:140-155 | every block handed out is aligned, inside the arena and apart from all others; refusals change no account |
| PlanMemory.RunLaidOut | src/protocol_plan/plan_memory.cpp:140-155 | the same over whole allocation sequences |
| PlanMemory.RunBalanced | src/protocol_plan/plan_memory.cpp:46-77 | the total is always the categories plus the padding |
| PlanMemory.RunReplays | src/protocol_plan/plan_memory.cpp:46-77 | replaying under any limit from the estimate on gives the same report and blocks |
| PlanMemory.RunNeedsTotal | src/protocol_plan/plan_memory.cpp:46-77 | and under any smaller limit it fails |
| PlanMemory.EstimateThenAllocate | src/protocol_plan/plan_builder.cpp:340-497 | any list of requests, empty arrays included, that fits the estimate's limit is granted by an arena of exactly the estimated size, with an equal report and the estimated blocks |
| Utf8.ValidateUtf8 | src/config_compiler/config_compiler.cpp:103-150 | accepts exactly the well-formed strings of section 4 of RFC 3629; a failure is reported inside the first character that is not well-formed |
| Utf8.IsUtf8 | src/config_frontend_yaml/frontend.cpp:91-113 | accepts exactly the same strings |
| Utf8.CountUtf8ScalarValues | src/config_compiler/config_compiler.cpp:152-157 | for an accepted string, the number of its scalar values |
| Utf8.WellFormedEncodes | src/config_compiler/config_compiler.cpp:103-150 | a well-formed string is the encoding of its scalar values |
| Utf8.EncodedWellFormed | src/config_compiler/config_compiler.cpp:103-150 | and every encoding is well-formed and decodes to what was encoded |

## Left out

- StreamFramer.StreamFramingWorkspace.PushStreamChunk: counts are unbounded naturals, so the wrap-around of the lifetime totals at the width of size_t is not modelled; nor are the refusals for a missing input or sink, for a plan without streams, and for a call from inside the sink.
- BinaryPlan.ValidateLayout: the remaining per-field legality checks of the compiler appear as the predicate ValidMessage and not as code.
- BinaryDecode.DecodeBinaryRecord: the two passes over the fields are one, and the metadata in the slots (field references, raw integers kept beside converted values) is dropped.
- BinaryEncode.PrepareEncodeInputs: models the newer schema versions, which check values after all references; the older ones check them in one pass and can report a different reason first.
- Session.Session.Encode: resolution of message and field names is a parameter (`prepared`), as is the codec's verdict; callbacks are functions of candidate number and frame.
- SessionCreation.CreateSession: failed allocations (exceptions) are not modelled.
- PlanMemory.PlanArena.Allocate: offsets stand for addresses; allocation of the upstream block is not modelled.
- AsciiSets.ParseAllowed: the hexadecimal spelling of the list and its length limits are not modelled; no list is an empty one.
- Schema version and build-flag dispatch: all features are on.
- Null pointers, address ranges and input/output overlap: buffers are values or distinct arrays.
- Plan and message identity: numbers and positions instead of addresses and scopes, enum references included.
- Bit numbering: member shifts are those the compiler resolves from LSB0 or MSB0 offsets.
- Container masks are bit ranges and container arithmetic is on naturals; only the checksums work on machine words.
- The visitor of the text walk: the list of its calls is returned instead.
- Concurrency of the busy flags: they are plain booleans, set for the duration of a call.
- Object sizes: parameters of workspace and session creation.
- A pipeline that holds Binary and text messages at once: the two kinds are modelled apart.
- JSON and YAML parsing, diagnostics text, metadata storage, the public facade, plan snapshots, operation counters and fault-injection hooks: not part of this model.
