# openRTDDS in Dafny

A model of the core of openRTDDS, a bounded, allocation-free RTPS/DDS middleware for ROS 2, with proofs about it.
Classes and arrays model what the middleware updates in place; each of their methods is proved equal to a function on
values, and the laws are proved about those functions for every input, every run or every reachable state.

**The reliable protocol.** `ReliableWriter` decides about every record of its history and then compacts the array in
place; `ReliableReader` keeps a circular window of received flags. `WriterRuns` and `ReaderRuns` prove what each side
keeps over every run; `WriterLaws` and `ReaderLaws` say what every call does to every sample, and when it is refused,
by the numbers on the wire, the clock and the received set alone. `ReliablePair` joins both by a network that loses,
duplicates, delays and reorders, and proves the pair safe; `PairProgress` proves that two lossless rounds finish the
work whenever the gaps are still repairable. `SerialCount` is the wrapping 32-bit count, `SequenceSet` the packed set
of up to 256 sequence numbers.

**The codecs.** `TypeSupport` is the static analysis of a type descriptor graph, and `TypeUnfolding` says exactly
which graphs it accepts; `TypeErrors` is about its reasons. `Cdr` is the aligned writer and reader, `XcdrSerializer`,
`XcdrDeserializer` and `XcdrDecoder` the XCDR1 codec (section 7.4.1 of DDS-XTypes 1.3) with its two passes. `XcdrWire`
states the bytes of each scalar and that the analysed maximum is reached; `XcdrStorage` which messages serialise and
what accepted input must be. `Router` walks RTPS submessages (section 8.3.4 of DDSI-RTPS 2.3), `RouterExact` says what
it finds without walking and `RouterContext` what is then in force, and why a search fails. `ReliabilityMessages`,
`DataMessage` and `DirectMessage` are the message builders and parsers; `ControlOnWire` joins them to the protocol,
`MessageExact` says exactly which bytes are which sample and acknowledgement. `ParameterList`, `ParameterScan`,
`Discovery`, `Spdp*` and `Sedp*` are discovery (sections 8.5.3, 8.5.4 and 9.4.2.11 of DDSI-RTPS 2.3), with round trips
in `*Laws` and what any accepted announcement must be in `*Soundness`.

**The shared state.** `GraphWire`, `GraphWriter` and `GraphCache` are the replicated ROS graph and its snapshots;
`GraphRuns` proves its integrity over every run, `GraphConvergence` that views of a participant converge whatever the
delivery order, `GraphLocals` what adding and removing our own records does to what we announce and peers show.
`WaitSet` is the wait function and its notifiers as a state machine with any number of threads, proved free of lost
wakeups; `WaitLaws` says who makes a condition ready, who may consume it and who must find it meanwhile,
`WaitProgress` that a signalled wait can end.

Conventions: bytes and machine integers are mathematical integers with explicit ranges, shifts and masks are division
and remainder by powers of 256 or 2; floats are bit patterns; clocks, the network and the scheduler are parameters or
arbitrary steps. A null pointer with a claimed size is `Router.Null`, an absent text is `None`.

Two results are about conditions rather than unconditional laws. Validation by the first XCDR1 pass guarantees that
the second pass succeeds exactly when every accessor the first one uses is paired with one the second one uses
(`ValidationGuaranteesApplication`). A sleeper in the wait function misses a bump of the generation exactly when the
generation went through a whole number of 2^64 - 1 cycles (`UnchangedIffWholeCycles`).

## Model

| member | source | states |
|---|---|---|
| SerialCount.NewerIffHalfCircle | src/rtps/reliability_state.cpp:43-51 | a count `n` steps later is newer exactly when `n` modulo 2^32 is between 1 and 2^31 - 1 |
| SerialCount.AfterBits | src/rtps/reliability_state.cpp:53-60 | stepping `n` times adds `n` modulo 2^32 to the bit pattern |
| SerialCount.LaterIsNewer | src/rtps/reliability_state.cpp:43-60 | of two counts of one sender less than 2^31 apart the later is newer and the earlier is stale |
| SerialCount.Trichotomy | src/rtps/reliability_state.cpp:43-51 | never both newer; neither exactly when equal or 2^31 apart |
| SerialCount.NewerIsNotTransitive | src/rtps/reliability_state.cpp:43-51 | three counts can each be newer than the one before, in a circle |
| SequenceSet.SetMember | src/rtps/reliability_messages.cpp:250-258 | setting a bit in the packed words changes that member and no other |
| SequenceSet.PackedWord | include/openrtdds/rtps/reliability_messages.hpp:44-49 | every word of a set is the packing of its members, with nothing beyond them |
| SequenceSet.WordAtBits | src/rtps/reliability_messages.cpp:484-496 | unpacking a packed word gives back its bits |
| SequenceSet.RepresentableMembers | src/rtps/reliability_messages.cpp:232-248 | accepted exactly when there are at most 256 members and base and members are sequence numbers |
| SequenceSet.WordCountIsLeast | include/openrtdds/rtps/reliability_messages.hpp:44-46 | as many words as the bits need and no more |
| SequenceSet.SequenceNumberSet.Reset | src/rtps/reliability_messages.cpp:232-248 | accepts exactly representable ranges; then every bit is clear, otherwise nothing changes |
| SequenceSet.SequenceNumberSet.Set | src/rtps/reliability_messages.cpp:250-258 | sets exactly one member, or refuses an offset outside and changes nothing |
| SequenceSet.SequenceNumberSet.Test | src/rtps/reliability_messages.cpp:260-267 | whether an offset is inside and a member |
| SequenceSet.SequenceNumberSet.Word | include/openrtdds/rtps/reliability_messages.hpp:44-49 | the packing of 32 members, zero past the end |
| ReliabilityActions.ActionBuffer.Push | include/openrtdds/rtps/reliability_state.hpp:66-95 | appends in order while there is room, else changes nothing |
| ReliableWriter.Writer.Write | include/openrtdds/rtps/reliability_state.hpp:125-175 | every error case in order; otherwise the record is appended and its transmission reported |
| ReliableWriter.Writer.Plan | include/openrtdds/rtps/reliability_state.hpp:193-228 | one decision per record as the acknowledgement, the clock and the limits demand, and how many actions they need |
| ReliableWriter.Writer.OnAckNack | include/openrtdds/rtps/reliability_state.hpp:177-272 | in-place compaction equals the filter by decisions, with its actions in order, or nothing at all; `AckNackIsExact` says what that means for each sample |
| ReliableWriter.Writer.OnTimer | include/openrtdds/rtps/reliability_state.hpp:274-317 | drops and reports exactly the expired records, or nothing at all |
| ReliableWriter.Writer.FillHeartbeat | include/openrtdds/rtps/reliability_state.hpp:319-334 | announces the held range with the next count |
| WriterRuns.SurvivorsAreRetained | include/openrtdds/rtps/reliability_state.hpp:234-268 | a record survives compaction exactly when its decision retained it |
| WriterRuns.SurvivorsAscend | include/openrtdds/rtps/reliability_state.hpp:234-268 | compaction keeps sequence numbers strictly ascending |
| WriterRuns.PointersStayGood | include/openrtdds/rtps/reliability_state.hpp:239-253 | every retransmit pointer pushed by a call addresses, when it returns, that sequence's original payload |
| WriterRuns.CompactionConserves | include/openrtdds/rtps/reliability_state.hpp:234-314 | what leaves the history is reported exactly once, what stays is not |
| WriterRuns.EveryRunConserves | include/openrtdds/rtps/reliability_state.hpp:125-334 | over every run each written sample is in exactly one of history, delivered, failed, with one terminal action; repairs are bounded in number and stay inside the window |
| WriterRuns.ErrorsChangeNothing | include/openrtdds/rtps/reliability_state.hpp:125-334 | an error return leaves the writer unchanged and emits nothing |
| WriterRuns.HeartbeatIsBuildable | include/openrtdds/rtps/reliability_state.hpp:319-334 | every reachable writer announces a range the message builder accepts |
| WriterLaws.WriteIsExact | include/openrtdds/rtps/reliability_state.hpp:125-175 | a write is accepted exactly for usable arguments, a number past all others and room; the record then holds the caller's number, bytes and time |
| WriterLaws.AckNackIsExact | include/openrtdds/rtps/reliability_state.hpp:193-267 | what a successful ACKNACK does to each held sample, by its numbers, the clock and the attempts alone: kept unchanged, delivered, failed for its window, failed for its attempts or sent again, each exactly when |
| WriterLaws.AckNackAddsNothing | include/openrtdds/rtps/reliability_state.hpp:234-271 | no record and no report besides those of held samples, both in order of the samples |
| WriterLaws.AckNackRefusals | include/openrtdds/rtps/reliability_state.hpp:193-232 | time regression exactly when a requested sample was sent later than now; no capacity exactly when more samples are addressed than reports fit |
| WriterLaws.UnheardAckNack | include/openrtdds/rtps/reliability_state.hpp:181-191 | the configuration, peer and staleness refusals, each exactly when |
| WriterLaws.TimerIsExact | include/openrtdds/rtps/reliability_state.hpp:274-317 | a timer keeps exactly the samples whose window is open, unchanged and in order, and reports exactly the others; each error exactly when |
| WriterLaws.HeartbeatIsFilled | include/openrtdds/rtps/reliability_state.hpp:319-334 | the announced range holds every held sample and starts with the first; the count is newer than the last one |
| WriterLaws.EveryReportIsJustified | include/openrtdds/rtps/reliability_state.hpp:177-317 | over every run nothing is resent unless asked for, nothing delivered unless acknowledged, nothing fails for its window before it elapsed since sending, nor for its attempts before all were used |
| ReliableReader.Reader.Advance | include/openrtdds/rtps/reliability_state.hpp:428-432 | the loop ends even on a full window and moves the base past all leading received numbers |
| ReliableReader.Reader.OnData | include/openrtdds/rtps/reliability_state.hpp:396-434 | the ring behaves as the window of received flags, with every error case in order |
| ReliableReader.Reader.FillMissing | include/openrtdds/rtps/reliability_state.hpp:471-484 | the bitmap holds exactly the missing numbers; no set call can be refused |
| ReliableReader.Reader.OnHeartbeat | include/openrtdds/rtps/reliability_state.hpp:436-496 | answers, or stays silent, or reports an error, exactly as the window and counts demand |
| ReliableReader.DataKeepsSane | include/openrtdds/rtps/reliability_state.hpp:396-434 | the base stays a representable number that was not received |
| ReaderRuns.DataAddsOne | include/openrtdds/rtps/reliability_state.hpp:396-434 | accepting a number adds that number and no other, refusing changes nothing |
| ReaderRuns.EveryRunRefines | include/openrtdds/rtps/reliability_state.hpp:396-496 | over every run the reader represents the set of numbers it reported, each reported once |
| ReaderRuns.WindowIsReceivedSet | include/openrtdds/rtps/reliability_state.hpp:396-434 | everything below the base was received, the base was not, a flag is set exactly for received numbers |
| ReaderRuns.HeartbeatOnlyAnswers | include/openrtdds/rtps/reliability_state.hpp:436-496 | a heartbeat moves neither base nor window and reports nothing received |
| ReaderRuns.AnswersAreTruthful | include/openrtdds/rtps/reliability_state.hpp:465-491 | an answer acknowledges only what was received, and all of it within reach |
| ReaderLaws.DataIsExact | include/openrtdds/rtps/reliability_state.hpp:403-420 | a valid number is stale, a duplicate, out of reach, without room or accepted exactly by the received set and the first missing number |
| ReaderLaws.UnusableData | include/openrtdds/rtps/reliability_state.hpp:400-405 | the configuration and number refusals, each exactly when |
| ReaderLaws.HeartbeatIsExact | include/openrtdds/rtps/reliability_state.hpp:454-495 | a gap cannot be repaired exactly when something before the announced range is missing; answered exactly when something up to its end is missing or an answer is asked for; final exactly when nothing is |
| ReaderLaws.UnheardHeartbeat | include/openrtdds/rtps/reliability_state.hpp:440-453 | the configuration, range, peer and staleness refusals, each exactly when |
| ReaderLaws.StaleMeansNotNewer | include/openrtdds/rtps/reliability_state.hpp:450-495 | over every run staleness is judged against the last accepted heartbeat; refused ones leave no trace |
| ReliablePair.EveryRunInv | include/openrtdds/rtps/reliability_state.hpp:125-496 | the invariant relating writer, reader and everything ever sent holds in every run |
| ReliablePair.PairIsSafe | include/openrtdds/rtps/reliability_state.hpp:178-272 | on any network no number is accepted twice, accepted payloads are the written ones, and delivered implies already received |
| PairProgress.GapIsRepaired | include/openrtdds/rtps/reliability_state.hpp:193-268 | every repairable gap is answered with a retransmission of that number |
| PairProgress.RoundFillsReader | include/openrtdds/rtps/reliability_state.hpp:397-496 | one lossless round, final or not as long as it is answered, moves the reader's base past everything written, whatever the order of the repairs |
| PairProgress.RoundEmptiesHistory | include/openrtdds/rtps/reliability_state.hpp:178-334 | a further non-final round empties the history and reports each record delivered |
| PairProgress.TwoRoundsComplete | include/openrtdds/rtps/reliability_state.hpp:178-496 | from every reachable state with repairable gaps, wrapped counts included, two answered rounds bring the reader up to date and empty the history |
| PairProgress.LostSampleIsRecovered | include/openrtdds/rtps/reliability_state.hpp:178-496 | an instance of the two rounds: the first sample a reader expects, written and lost, is recovered and the history cleared |
| ControlOnWire.HeartbeatSurvives | include/openrtdds/rtps/reliability_state.hpp:319-334 | the heartbeat of every reachable writer is built and parsed back unchanged |
| ControlOnWire.AnswerSurvives | include/openrtdds/rtps/reliability_state.hpp:465-491 | every answer of every reachable reader is parsed back bit for bit |
| XcdrTypes.AlignUpMonotone | src/serialization/cdr.cpp:16-32 | alignment is monotone in the offset |
| XcdrTypes.FieldsEndMonotone | rmw_openrtdds_cpp/src/type_support.cpp:34-57 | the largest end of a type is monotone in where it starts |
| TypeSupport.AnalysisState.Append | rmw_openrtdds_cpp/src/type_support.cpp:34-57 | adds one aligned block or reports that the sample limit or the offset range is exceeded |
| TypeSupport.AnalysisState.AnalyzeElement | rmw_openrtdds_cpp/src/type_support.cpp:118-171 | adds a scalar, a bounded text or a nested type, with the error of each case |
| TypeSupport.AnalysisState.AnalyzeMember | rmw_openrtdds_cpp/src/type_support.cpp:173-208 | adds an array's or sequence's count and as many elements as it may hold |
| TypeSupport.AnalysisState.Ancestor | rmw_openrtdds_cpp/src/type_support.cpp:224-228 | finds exactly the descriptors on the path from the root |
| TypeSupport.AnalysisState.AnalyzeMembers | rmw_openrtdds_cpp/src/type_support.cpp:210-243 | terminates on every graph, cyclic ones included, with the totals or first error of the descriptor |
| TypeSupport.AnalyzeTypeSupport | rmw_openrtdds_cpp/src/type_support.cpp:486-526 | null handles and descriptors and unknown identifiers are refused; otherwise the analysis of the type from its root |
| TypeUnfolding.TreeIsUnique | rmw_openrtdds_cpp/src/type_support.cpp:210-243 | a descriptor unfolds to at most one tree |
| TypeUnfolding.NotItsOwnAncestor | rmw_openrtdds_cpp/src/type_support.cpp:224-228 | a descriptor with a finite tree is not among its own ancestors |
| TypeUnfolding.AnalysisIsExact | rmw_openrtdds_cpp/src/type_support.cpp:117-243 | accepted exactly when the graph unfolds to a finite tree of depth at most 16 that fits; then size, alignment and depth are the tree's |
| TypeErrors.CyclesAreNamed | rmw_openrtdds_cpp/src/type_support.cpp:213-228 | with fewer descriptors than the nesting limit a type is never refused for its nesting: a cycle is met first |
| Cdr.CdrWriter.Begin | src/serialization/cdr.cpp:66-93 | writes the encapsulation header or reports overflow |
| Cdr.CdrWriter.Reserve | src/serialization/cdr.cpp:95-113 | pads to the alignment and reserves exactly when the block fits; errors are sticky |
| Cdr.CdrWriter.WriteIntegral | src/serialization/cdr.cpp:115-136 | appends padding and the integer's bytes in the chosen order, or the first error |
| Cdr.CdrWriter.WriteText | src/serialization/cdr.cpp:204-233 | appends length, text and terminator, or the first error |
| Cdr.CdrReader.Begin | src/serialization/cdr.cpp:250-272 | accepts the two known encapsulations and takes their byte order |
| Cdr.CdrReader.ReadIntegral | src/serialization/cdr.cpp:274-314 | skips padding and reads the integer, or the first error with nothing consumed |
| Cdr.CdrReader.ReadBoolean | src/serialization/cdr.cpp:316-328 | only zero and one are booleans |
| Cdr.CdrReader.ReadText | src/serialization/cdr.cpp:463-491 | a bounded, terminated text, or the first error |
| XcdrMessages.FieldsFit | rmw_openrtdds_cpp/src/xcdr1_codec.cpp:272-324 | an encoding that starts no later than assumed ends no later than the analysed end |
| XcdrSerializer.SerializeElement | rmw_openrtdds_cpp/src/xcdr1_codec.cpp:232-270 | appends one value's encoding or reports its problem |
| XcdrSerializer.SerializeMember | rmw_openrtdds_cpp/src/xcdr1_codec.cpp:278-322 | count check, count and elements of one member |
| XcdrSerializer.SerializeMembers | rmw_openrtdds_cpp/src/xcdr1_codec.cpp:272-324 | appends every member's encoding in order, or reports the first problem |
| XcdrSerializer.SerializeXcdr1 | rmw_openrtdds_cpp/src/xcdr1_codec.cpp:511-550 | null arguments are refused; after the capacity is accepted the outcome is the complete encoding or the message's own problem, never a lack of room |
| XcdrSerializer.SizeIsSound | rmw_openrtdds_cpp/src/type_support.cpp:117-243 | the analysed maximum bounds the encoding of every message of the type |
| XcdrWire.ScalarOnWire | rmw_openrtdds_cpp/src/xcdr1_codec.cpp:78-118 | the bytes of each scalar kind in either order, after zeros up to a multiple of its size |
| XcdrWire.HeaderOnWire | src/serialization/cdr.cpp:66-93 | a serialised message starts with the identifier of plain CDR in its byte order |
| XcdrWire.MaximumIsAttained | rmw_openrtdds_cpp/src/type_support.cpp:117-243 | where its arrays can be read, some message of the type needs exactly the analysed maximum |
| XcdrStorage.FieldsAreSound | rmw_openrtdds_cpp/src/xcdr1_codec.cpp:232-324 | a message is serialised exactly when all arrays can be read and are full or within bounds and all strings are terminated and within bounds |
| XcdrDeserializer.IntegralRoundTrip | src/serialization/cdr.cpp:304-314 | an aligned integer is read back and exactly its bytes are consumed |
| XcdrDeserializer.TextRoundTrip | src/serialization/cdr.cpp:463-491 | an encoded text is read back and exactly its bytes are consumed |
| XcdrDeserializer.FieldsRoundTrip | rmw_openrtdds_cpp/src/xcdr1_codec.cpp:391-458 | both passes consume exactly an encoding, and the second restores its fields |
| XcdrDeserializer.ValidationStoresNothing | rmw_openrtdds_cpp/src/xcdr1_codec.cpp:331-458 | the validating pass leaves the destination alone |
| XcdrDeserializer.FieldsInStep | rmw_openrtdds_cpp/src/xcdr1_codec.cpp:391-458 | with paired accessors both passes read the same bytes and fail together |
| XcdrDeserializer.DeserializeIsAtomic | rmw_openrtdds_cpp/src/xcdr1_codec.cpp:552-603 | a failed deserialisation leaves the destination unchanged, a successful one read every byte |
| XcdrDeserializer.MessageRoundTrip | rmw_openrtdds_cpp/src/xcdr1_codec.cpp:511-603 | deserialising a serialised message into matching storage returns the same value tree in either byte order |
| XcdrDeserializer.ValidationGuaranteesApplication | rmw_openrtdds_cpp/src/xcdr1_codec.cpp:424-431 | validation implies application for all inputs exactly when the accessors of both passes are paired |
| XcdrStorage.DeserializedStaysTyped | rmw_openrtdds_cpp/src/xcdr1_codec.cpp:326-603 | whatever the input, and even where a pass stops, storage keeps the shape of its type; booleans stay zero or one |
| XcdrStorage.AcceptedIsMessage | rmw_openrtdds_cpp/src/xcdr1_codec.cpp:326-603 | accepted input starts with a plain CDR identifier and holds, byte for byte but for padding, the message it leaves, which is within all bounds |
| XcdrDecoder.DecodeElement | rmw_openrtdds_cpp/src/xcdr1_codec.cpp:331-389 | one value read, checked and, in the second pass, stored |
| XcdrDecoder.DecodeMembers | rmw_openrtdds_cpp/src/xcdr1_codec.cpp:391-458 | the member loop equals the pass as a function |
| XcdrDecoder.DecodeMessage | rmw_openrtdds_cpp/src/xcdr1_codec.cpp:568-603 | both passes over an unfolded type, with the check that all input was consumed |
| XcdrDecoder.DeserializeXcdr1 | rmw_openrtdds_cpp/src/xcdr1_codec.cpp:552-603 | null arguments, size and type errors, the two passes, and no change to the message on failure when accessors are paired |
| Bytes.DecodeEncode | src/rtps/reliability_messages.cpp:54-64 | integers of any width survive encoding in either byte order |
| Bytes.EncodeDecode | src/rtps/reliability_messages.cpp:86-99 | reading and writing back gives the same bytes |
| BufferWriter.PutInteger | src/rtps/reliability_messages.cpp:54-64 | stores an integer byte by byte in the chosen order and nothing else before it changes |
| Router.FindSubmessage | src/rtps/message_router.cpp:112-206 | the search loop terminates with the wanted submessage, its context, or the first error |
| RouterExact.WalkTiles | src/rtps/message_router.cpp:141-200 | walked submessages tile the message and each context is what its predecessors leave |
| RouterExact.TilingIsWalk | src/rtps/message_router.cpp:141-200 | any such tiling is what is walked |
| RouterExact.FindIsExact | src/rtps/message_router.cpp:112-206 | found exactly when the message is tiled and exactly `k` earlier submessages have the id |
| RouterExact.FoundLiesInside | src/rtps/message_router.cpp:150-183 | found content lies inside the message, after the header, with the announced length |
| RouterExact.FoundVersionIsSupported | src/rtps/message_router.cpp:55-76 | the version in force for whatever is found is supported, whoever set it |
| RouterExact.RawIsWalked | src/rtps/message_router.cpp:141-166 | an encoded submessage is walked over as itself in either byte order |
| RouterExact.SingleIsFound | src/rtps/message_router.cpp:112-206 | in a message of one submessage just that one is found, in the header's context |
| RouterContext.FoundInForce | src/rtps/message_router.cpp:55-94 | in force for what is found are the time of the last INFO_TS before it unless that one invalidates, the source of the last INFO_SRC or the header, and the last INFO_DST |
| RouterContext.TimeIsExact | src/rtps/message_router.cpp:76-91 | a time is in force exactly when the last INFO_TS carries its seconds and then its fraction, in its own byte order; none exactly when there is none or it invalidates |
| RouterContext.InfoIsAccepted | src/rtps/message_router.cpp:55-94 | an INFO submessage is accepted exactly when it carries what its kind must carry, a supported version included |
| RouterContext.HeaderIsExact | src/rtps/message_router.cpp:119-135 | the header is accepted exactly as the encoding of a version 2.1 to 2.5, a vendor and a prefix, which it puts in force |
| RouterContext.FlagBits | src/rtps/message_router.cpp:147-149 | bit 0 of the flags is the byte order, bit 1 invalidates a time, the others mean nothing here |
| RouterContext.LiesIsExact | src/rtps/message_router.cpp:150-166 | a submessage is where its header and content are; a length of zero means none for PAD and INFO_TS and all the rest for others |
| RouterContext.FailureIsExact | src/rtps/message_router.cpp:112-206 | apart from too few matches a search fails exactly for a bad header or the first faulty submessage, with its fault |
| DirectMessage.Direct | rmw_openrtdds_cpp/src/network_runtime.cpp:102-124 | succeeds exactly when everything fits, and then the output is the message with the destination inserted |
| DirectMessage.WalkIsSame | rmw_openrtdds_cpp/src/network_runtime.cpp:115-122 | behind the insertion the walk is the same, shifted, with at most the destination added |
| DirectMessage.DirectIsTransparent | rmw_openrtdds_cpp/src/network_runtime.cpp:102-124 | every other submessage is found as before, and every error stays the same error |
| DirectMessage.DirectedControlIsSame | src/rtps/reliability_messages.cpp:175-200 | HEARTBEAT and ACKNACK parse to the same view or the same error |
| DirectMessage.DirectedDataIsSame | src/rtps/data_message.cpp:235-318 | DATA parses to the same sample and timestamp and may only gain the destination |
| ReliabilityMessages.HeartbeatRoundTrip | src/rtps/reliability_messages.cpp:296-438 | every accepted heartbeat is parsed back identically in either byte order |
| ReliabilityMessages.ParsedHeartbeatIsBuildable | src/rtps/reliability_messages.cpp:425-432 | every parsed heartbeat passes the builder's sequence checks |
| ReliabilityMessages.AckNackRoundTrip | src/rtps/reliability_messages.cpp:338-501 | every accepted acknowledgement of 0 to 256 bits comes back bit for bit exactly when its numbers are representable, else is refused |
| ReliabilityMessages.BitsBack | src/rtps/reliability_messages.cpp:377-382 | the bits read from encoded words are the bits of the set |
| ReliabilityMessages.MessageBuilder.BuildHeartbeat | src/rtps/reliability_messages.cpp:277-336 | the errors in order, or the encoding in the buffer |
| ReliabilityMessages.MessageBuilder.BuildAckNack | src/rtps/reliability_messages.cpp:338-386 | the errors in order, or the encoding in the buffer |
| ReliabilityMessages.HeartbeatParseIsExact | src/rtps/reliability_messages.cpp:397-438 | parsed as a heartbeat exactly when the message is well formed and its first HEARTBEAT is that heartbeat flag for flag and byte for byte |
| ReliabilityMessages.FillWord | src/rtps/reliability_messages.cpp:486-494 | the inner bit loop copies exactly the bits of one word that are inside the set |
| ReliabilityMessages.ParseAckNackMessage | src/rtps/reliability_messages.cpp:440-501 | every refusal, or the set rebuilt bit by bit with its count and flag |
| ReliabilityMessages.HeartbeatIsBuilt | src/rtps/reliability_messages.cpp:277-310 | built exactly when numbers and version are valid and the encoding fits the buffer |
| ReliabilityMessages.AckNackIsBuilt | src/rtps/reliability_messages.cpp:338-365 | built exactly when base, size and version are valid and the encoding fits the buffer |
| MessageExact.AckNackParseIsExact | src/rtps/reliability_messages.cpp:440-501 | parsed as an acknowledgement exactly when the first ACKNACK carries it: flags, identifiers, numbers and every bit |
| DataMessage.DataRoundTrip | src/rtps/data_message.cpp:145-318 | every accepted DATA message is parsed back identically in either byte order |
| DataMessage.BuilderAcceptsBuildable | src/rtps/data_message.cpp:151-187 | accepted exactly when valid and fitting both the datagram and the buffer |
| DataMessage.DataMessageBuilder.Build | src/rtps/data_message.cpp:145-226 | the errors in order, or the encoding in the buffer |
| DataMessage.ParsedDataRebuilds | src/rtps/data_message.cpp:235-318 | whatever is parsed from any message could have been built, and sent on it parses to the same sample |
| MessageExact.DataParseIsExact | src/rtps/data_message.cpp:235-318 | parsed as a sample exactly when the first DATA carries it, in the destination and time in force there |
| DataMessage.SupportedPayloads | src/rtps/data_message.cpp:48-54 | plain CDR and parameter lists in either byte order are the payloads supported |
| ParameterList.ParameterWriter.Append | src/rtps/spdp.cpp:112-126 | appends one zero-padded parameter exactly when it fits, else nothing |
| ParameterList.ParameterWriter.Finish | src/rtps/spdp.cpp:128-131 | closes the list with the sentinel exactly when it fits |
| ParameterList.ScanList | src/rtps/spdp.cpp:510-637 | the reading loop: each parameter in turn up to the sentinel, or the first error |
| ParameterList.ScanListEncoded | src/rtps/spdp.cpp:510-632 | scanning an encoded list is folding over its parameters, then scanning what follows |
| ParameterList.InsertionIsInvisible | src/rtps/spdp.cpp:510-632 | parameters every state passes over may be inserted after any parameters, whatever follows |
| ParameterList.NothingAfterSentinel | src/rtps/spdp.cpp:514-517 | bytes after the sentinel are never looked at |
| ParameterScan.ScannedIsList | src/rtps/spdp.cpp:510-637 | whatever the bytes, what a scan accepts is well-formed parameters up to a sentinel, and its result is that of folding over them |
| ParameterList.MustUnderstandBit | src/rtps/spdp.cpp:618-621 | bit 14 of an identifier is the must-understand bit |
| Discovery.LocatorBack | src/rtps/spdp.cpp:142-195 | a valid locator is read back and appended |
| Discovery.LocatorIsExact | src/rtps/spdp.cpp:170-195 | any announced locator: other transports are passed over, a bad UDPv4 one and one too many are errors, others are appended |
| Discovery.LocatorIsUdpV4 | src/rtps/spdp.cpp:253-265 | the valid locators are UDPv4 with a port from 1 to 65535 and an address other than 0.0.0.0 |
| Discovery.TextBack | src/rtps/sedp.cpp:198-212 | length, characters and terminator of a written text are where the reader looks |
| Discovery.FractionBack | src/rtps/sedp.cpp:228-257 | converting a duration to a binary fraction and back is exact or one nanosecond short, and when it is which |
| Discovery.DurationBack | src/rtps/sedp.cpp:228-257 | a written duration is read back shortened by at most one nanosecond |
| Spdp.ParseMessage | src/rtps/spdp.cpp:469-656 | every refusal in order, or the participant announced |
| Spdp.IgnorableIsPassedOver | src/rtps/spdp.cpp:523-623 | an unknown parameter without the must-understand bit changes no state |
| SpdpLaws.UnknownParametersAreInvisible | src/rtps/spdp.cpp:510-632 | inserting unknown parameters into a message leaves every outcome of parsing it unchanged |
| SpdpLaws.BytesAfterSentinelAreInvisible | src/rtps/spdp.cpp:514-517 | arbitrary bytes after the sentinel of a message leave every outcome of parsing it unchanged |
| SpdpLaws.ParametersBack | src/rtps/spdp.cpp:371-445 | folding the parser over what the builder writes restores the participant |
| SpdpLaws.PayloadFits | src/rtps/spdp.cpp:371-449 | valid names and locators need at most 600 of the 768 bytes |
| SpdpLaws.AnnouncementRoundTrip | src/rtps/spdp.cpp:327-656 | field for field in both byte orders; the lease at most 1 ns short and never zero |
| SpdpSoundness.ParsedIsSound | src/rtps/spdp.cpp:469-656 | whoever sent it, an accepted announcement comes from the built-in writer, names the header's participant, our domain, bounded values and valid locators |
| SpdpSoundness.AcceptedIsList | src/rtps/spdp.cpp:486-656 | whatever the bytes, the participant is what the parameters say, the required ones are there, and the rest has the defaults |
| SpdpSoundness.ParsedCanBeAnnounced | src/rtps/spdp.cpp:327-369 | a parsed announcement can be announced again exactly when it has the built-in endpoints and a lease of 2 ns or more |
| SpdpBuilder.WritePayload | src/rtps/spdp.cpp:371-449 | the parameters are written completely: no append can fail, so the overflow branch is dead |
| SpdpBuilder.SpdpMessageBuilder.Build | src/rtps/spdp.cpp:327-467 | the errors in order, or the announcement in the buffer |
| SpdpBuilder.BuiltIsParsed | src/rtps/spdp.cpp:327-656 | whatever is built is parsed back by a receiver in the same domain |
| Sedp.ParseMessage | src/rtps/sedp.cpp:476-657 | every refusal in order, or the endpoint announced |
| Sedp.IgnorableIsPassedOver | src/rtps/sedp.cpp:546-632 | an unknown parameter without the must-understand bit changes no state |
| SedpLaws.UnknownParametersAreInvisible | src/rtps/sedp.cpp:533-637 | inserting unknown parameters into a message leaves every outcome of parsing it unchanged |
| SedpLaws.BytesAfterSentinelAreInvisible | src/rtps/sedp.cpp:537-540 | arbitrary bytes after the sentinel of a message leave every outcome of parsing it unchanged |
| SedpLaws.NameBack | src/rtps/sedp.cpp:285-307 | a valid name is read back, terminator and embedded zeros checked |
| SedpLaws.ParametersBack | src/rtps/sedp.cpp:397-450 | folding the parser over what the builder writes restores the endpoint |
| SedpLaws.PayloadFits | src/rtps/sedp.cpp:397-454 | valid names and locators need at most 832 of the 1280 bytes |
| SedpLaws.AnnouncementRoundTrip | src/rtps/sedp.cpp:361-657 | field for field in both byte orders; the blocking time at most 1 ns short |
| SedpSoundness.ParsedIsSound | src/rtps/sedp.cpp:476-657 | whoever sent it, an accepted announcement comes over the topic of its kind from the participant expected and describes a user endpoint with proper names, policies and locators |
| SedpSoundness.AcceptedIsList | src/rtps/sedp.cpp:510-657 | whatever the bytes, the endpoint is what the parameters say, the required ones are there, and the rest has the defaults |
| SedpSoundness.ParsedCanBeAnnounced | src/rtps/sedp.cpp:361-395 | a parsed announcement can be announced again exactly when it has a locator and its header was proper |
| SedpBuilder.WritePayload | src/rtps/sedp.cpp:397-454 | writing stops only for a blocking time beyond 2^31 - 1 seconds, never for want of room |
| SedpBuilder.SedpMessageBuilder.Build | src/rtps/sedp.cpp:361-474 | the errors in order, or the announcement in the buffer |
| SedpBuilder.BuiltIsParsed | src/rtps/sedp.cpp:361-657 | whatever is built is parsed back by a receiver that expects its participant |
| GraphSlots.InsertAllInstalls | src/rmw/graph_cache.cpp:575-590 | with room, first-free insertion stores every record in order and touches no other slot |
| GraphWire.SnapshotFits | src/rmw/graph_cache.cpp:315-396 | every snapshot needs at most 20416 of the 32768 bytes |
| GraphWire.SnapshotRoundTrip | src/rmw/graph_cache.cpp:315-517 | an encoded snapshot is decoded to itself |
| GraphWire.AcceptedIsEncoding | src/rmw/graph_cache.cpp:405-517 | whatever is accepted is a well-formed snapshot and the payload is its encoding |
| GraphWire.DecodeIsExact | src/rmw/graph_cache.cpp:405-517 | accepted exactly when well formed, encoded so, and numbered by its generation |
| GraphCache.ParseNodes | src/rmw/graph_cache.cpp:429-465 | the node loop with its malformed and duplicate refusals |
| GraphCache.ParseEndpoints | src/rmw/graph_cache.cpp:467-514 | the endpoint loop with owner, kind, flag and duplicate refusals |
| GraphCache.ParseSnapshot | src/rmw/graph_cache.cpp:405-517 | header checks, both loops, and no bytes left over |
| GraphCache.ClearRemotes | src/rmw/graph_cache.cpp:563-574 | clears exactly the remote records of one participant and says whether there were any |
| GraphCache.InsertRemotes | src/rmw/graph_cache.cpp:575-590 | inserts a list of records into the first free slots |
| GraphConvergence.AnnouncementMoves | src/rmw/graph_cache.cpp:137-150 | every operation leaves what is announced alone or moves the own generation on by one |
| GraphCache.GraphCache.AddNode | src/rmw/graph_cache.cpp:152-183 | the errors in order, or the node in the first free slot |
| GraphCache.GraphCache.RemoveNode | src/rmw/graph_cache.cpp:185-200 | refused while an endpoint needs it; otherwise that node alone goes |
| GraphCache.GraphCache.AddEndpoint | src/rmw/graph_cache.cpp:202-258 | the errors in order, or the endpoint in the first free slot |
| GraphCache.GraphCache.RemoveEndpoint | src/rmw/graph_cache.cpp:260-271 | that endpoint alone goes |
| GraphLocals.AddedNodeIsAnnounced | src/rmw/graph_cache.cpp:152-183 | we then announce exactly one node more, with the caller's three texts, under the next generation |
| GraphLocals.NodeIsAccepted | src/rmw/graph_cache.cpp:152-175 | a node is added exactly when its arguments are usable, no node of ours has its id and the table has room |
| GraphLocals.RemovedNodeIsGone | src/rmw/graph_cache.cpp:185-200 | exactly that announced node goes, exactly when no announced endpoint belongs to it |
| GraphLocals.AddedEndpointIsAnnounced | src/rmw/graph_cache.cpp:236-257 | we then announce exactly one endpoint more, with every name and identifier where the caller put it |
| GraphLocals.EndpointIsAccepted | src/rmw/graph_cache.cpp:202-235 | an endpoint is added exactly when its arguments are usable, its node is ours, no endpoint of ours has its entity id and the table has room |
| GraphLocals.RemovedEndpointIsGone | src/rmw/graph_cache.cpp:260-271 | exactly that announced endpoint goes, exactly when there is one |
| GraphLocals.RemoveUndoesAdd | src/rmw/graph_cache.cpp:202-271 | removing the endpoint just added restores the very tables |
| GraphLocals.GenerationsCount | src/rmw/graph_cache.cpp:137-150 | over every run both generations count the changes, ours alone and all, from 1 to 2^63 - 1 and round again |
| GraphCache.GraphCache.SerializeLocal | src/rmw/graph_cache.cpp:290-397 | the errors exactly when they apply, otherwise the encoding of our own records |
| GraphCache.GraphCache.Apply | src/rmw/graph_cache.cpp:399-600 | malformed, stale and capacity outcomes change nothing; otherwise the snapshot is installed |
| GraphCache.GraphCache.RemoveParticipant | src/rmw/graph_cache.cpp:602-631 | clears the participant's records and remembered generation |
| GraphRuns.InstallKeepsIntegrity | src/rmw/graph_cache.cpp:563-597 | installing a snapshot keeps owners, uniqueness, bounds and generations |
| GraphRuns.EveryRunKeepsIntegrity | src/rmw/graph_cache.cpp:137-631 | over every operation sequence each endpoint has its owner, keys are unique, remote records belong to known participants |
| GraphConvergence.InstallReplacesOne | src/rmw/graph_cache.cpp:563-597 | shows exactly the new snapshot and changes nobody else's view nor our own records or generation |
| GraphConvergence.DeliveryIsAtomic | src/rmw/graph_cache.cpp:399-600 | nothing changes with an error, or one view is replaced whole, exactly when a newer encoded snapshot fits |
| GraphConvergence.LocalStepsKeepViews | src/rmw/graph_cache.cpp:152-271 | our own operations change no participant's view |
| GraphConvergence.RemovalErases | src/rmw/graph_cache.cpp:602-631 | after removal nothing of a participant is left and our own records stay |
| GraphLocals.RemovalIsReported | src/rmw/graph_cache.cpp:602-631 | a change is reported exactly when something of the participant was shown |
| GraphLocals.RoomIsExact | src/rmw/graph_cache.cpp:541-561 | there is room exactly when installing would store every record |
| GraphLocals.NewcomerIsShown | src/rmw/graph_cache.cpp:519-600 | a participant heard of first is shown exactly when an entry is free and the tables can store every record |
| GraphConvergence.RunTracks | src/rmw/graph_cache.cpp:399-600 | in every run without its removal a participant is shown as the newest snapshot of it that was accepted, whatever was lost, repeated, reordered or refused |
| GraphConvergence.RunTracksOffers | src/rmw/graph_cache.cpp:399-600 | where there was always room, that is the newest snapshot offered |
| GraphConvergence.OneContentPerGeneration | src/rmw/graph_cache.cpp:137-271 | in every run of a sender short of a wrap one generation never means two contents |
| GraphConvergence.SameGenerationSameView | src/rmw/graph_cache.cpp:399-600 | two graphs that accepted announcements of one sender, whichever, show it the same exactly when they remember the same generation |
| GraphConvergence.ViewsConverge | src/rmw/graph_cache.cpp:399-600 | two graphs offered the same announcements of one sender in any order, with repetitions, show the same |
| GraphConvergence.GenerationNeverFalls | src/rmw/graph_cache.cpp:519-535 | short of a removal the stored generation never decreases, and equal generations mean equal views |
| GraphConvergence.WireBufferSuffices | src/rmw/graph_cache.cpp:290-397 | with a wire-size buffer announcing fails exactly for too many records of our own |
| GraphConvergence.PeerShowsAnnouncement | src/rmw/graph_cache.cpp:290-600 | a peer with room and an older generation shows exactly the announced records, in order |
| GraphLocals.AnnouncingIsExact | src/rmw/graph_cache.cpp:290-397 | announcing succeeds exactly with a buffer, few enough records and an encoding that fits |
| GraphLocals.PeerShowsAddedEndpoint | src/rmw/graph_cache.cpp:202-600 | from the caller's arguments to a peer's graph: the peer shows all we showed and the new endpoint under the very names given |
| WaitSet.GenerationAdvances | rmw_openrtdds_cpp/src/internal.hpp:200-205 | the generation cycles through 1 to 2^64 - 1, skipping zero |
| WaitSet.UnchangedIffWholeCycles | rmw_openrtdds_cpp/src/wait.cpp:408-421 | a sleeper sees the generation unchanged exactly after a whole number of cycles |
| WaitSet.ProducerStep | rmw_openrtdds_cpp/src/subscription.cpp:503-540 | commits, bumps, guard triggers and shutdown keep the invariant |
| WaitSet.CheckStep | rmw_openrtdds_cpp/src/wait.cpp:332-366 | checking a condition under the wait mutex keeps the invariant, whatever is committed meanwhile |
| WaitSet.ConcludeStep | rmw_openrtdds_cpp/src/wait.cpp:368-421 | returning, timing out or going to sleep keeps the invariant |
| WaitSet.ReacquireStep | rmw_openrtdds_cpp/src/wait.cpp:408-421 | waking, spuriously or not, and sleeping again keeps the invariant |
| WaitSet.EveryRunKeepsInv | rmw_openrtdds_cpp/src/wait.cpp:323-422 | the invariant holds in every interleaving of any number of producers and waiters |
| WaitSet.NoLostWakeup | rmw_openrtdds_cpp/src/wait.cpp:323-422 | a sleeper with something ready sees a new generation or a committed producer is yet to bump; one that sees a new generation is about to be notified |
| WaitLaws.ReadinessEnds | rmw_openrtdds_cpp/src/wait.cpp:368-398 | a condition stops being ready exactly when it is taken, or is a guard and a wait returns it |
| WaitLaws.ReadinessBegins | rmw_openrtdds_cpp/src/subscription.cpp:503-540 | a condition becomes ready exactly when it is committed or triggered |
| WaitLaws.ResultsAreTrue | rmw_openrtdds_cpp/src/wait.cpp:323-405 | a wait ends with exactly what its round found, by its deadline with nothing found, or by shutdown |
| WaitLaws.FoundIsReturned | rmw_openrtdds_cpp/src/wait.cpp:368-398 | a round that found something returns it whether or not the deadline passed, and consumes exactly the guards found |
| WaitLaws.CommittedIsFound | rmw_openrtdds_cpp/src/wait.cpp:323-398 | over every run what was made ready and not consumed is found by every later round, at each position that lists it |
| WaitLaws.ShutdownIsAsked | rmw_openrtdds_cpp/src/wait.cpp:324-330 | over every run the context is shut down exactly when a shutdown step was taken |
| WaitProgress.ChecksFind | rmw_openrtdds_cpp/src/wait.cpp:332-366 | an undisturbed round of checks finds exactly the ready conditions |
| WaitProgress.GetsNotified | rmw_openrtdds_cpp/src/internal.hpp:195-207 | a signalled sleeper is woken by at most two steps its producers still owe |
| WaitProgress.SignalledWaitEnds | rmw_openrtdds_cpp/src/wait.cpp:323-422 | with the mutex free a signalled sleeper can finish its wait with exactly what is ready, or with the shutdown error |
| WaitProgress.SignalledWaitCanEnd | rmw_openrtdds_cpp/src/wait.cpp:323-422 | from every reachable state a signalled sleeper can finish its wait, unless the waiter holding the mutex returns what it waited for |
| WaitProgress.HolderReleases | rmw_openrtdds_cpp/src/wait.cpp:324-421 | whoever holds the wait mutex can finish its round and release it, leaving every other thread and the generation alone |
| WaitLaws.ExpiredWaitEnds | rmw_openrtdds_cpp/src/wait.cpp:400-421 | a waiter past its deadline can end its wait once awake with the mutex free |
| WaitProgress.Check | rmw_openrtdds_cpp/src/wait.cpp:332-366 | stops exactly at a failed observation; otherwise the flags equal the observations and the result says whether any is set |
| WaitProgress.KeepReady | rmw_openrtdds_cpp/src/wait.cpp:368-398 | entries that are not ready become null, the others stay in place |
| WaitProgress.ClearEntries | rmw_openrtdds_cpp/src/wait.cpp:84-116 | after an error or a timeout every entry is null |

## Left out

- Sockets, threads, clocks and the event loop of the network runtime: steps and parameters of the model instead.
- Services and clients, QoS resolution, handle and allocator plumbing of the adapter, name mangling and derivation of type names.
- The keep-last rings, static pools and the tables of discovered participants and endpoints; endpoint matching; port arithmetic: real but easy.
- The history ring and per-writer table of a subscription: a commit is a step that makes a condition ready.
- `GraphCache::snapshot`, a copy of the occupied slots.
- Padding of text arrays with zero bytes in graph records: a text is its bytes.
- Payload pointers of actions are slot numbers of the history; a pointer that outlives the next call is not modelled.
- Raw byte strings (`write_bytes`, `read_bytes`) and alignments other than 1, 2, 4 and 8 of the CDR classes, which the codec never uses.
- C++ message storage is a tree of values: overlapping or misaligned member offsets and null elements returned by a non-null accessor are not modelled.
- Services' correlation bytes ahead of the encapsulation header.
- XcdrSerializer.SerializeXcdr1: says nothing about the buffer after a failure, as the source leaves it partly written.
- GraphCache.GraphCache.SerializeLocal: says nothing about the buffer after an error, as the source leaves it partly written.
- DirectMessage.Direct: treats input and output as separate memory.
- PairProgress.TwoRoundsComplete: assumes repairable gaps, room for actions, and that each side takes the other's next count as newer than the last one it saw; the protocol gives up on a sample, or ignores the message, otherwise.
- GraphConvergence.ViewsConverge: assumes that no snapshot was refused for want of room, the participant was not removed and the sender's generation did not wrap.
- WaitSet.NoLostWakeup: assumes that no sleeper sleeps through 2^64 - 1 advances of the generation.
- WaitProgress.SignalledWaitCanEnd: gives one schedule by which the wait ends; fairness of the scheduler is not modelled.
- WaitProgress.Check: in the state machine an observation of a guard condition does not fail; a failure ends the wait.
- TypeSupport.AnalyzeTypeSupport: leaves out the two errors about the type's name, which is not derived.
- Cdr.CdrWriter.Begin: leaves out a null buffer and an unknown byte order, which the codec refuses before (rmw_openrtdds_cpp/src/xcdr1_codec.cpp:518-523).
- Cdr.CdrWriter.WriteText: leaves out a null text with a length, which the codec refuses before as invalid storage.
- Cdr.CdrReader.Begin: leaves out a null buffer, which the codec refuses before (rmw_openrtdds_cpp/src/xcdr1_codec.cpp:558-561).
- XcdrWire.MaximumIsAttained: for types whose arrays the serialiser can read and count in 32 bits; no message of another type is serialised with its arrays full.
- XcdrStorage.AcceptedIsMessage: the reader does not look at padding, so neither does this.
- TypeErrors.CyclesAreNamed: of the reasons for refusing a type only this one is characterised; acceptance itself is exact.
