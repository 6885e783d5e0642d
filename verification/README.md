# A verified model of the ROS 1 bridge

`ros1_bridge` is a process that is a ROS 1 node and a ROS 2 node at the same time and carries
messages between the two. This project models its three parts with non-trivial logic, and proves
what each of them is for. `dafny verify dfyconfig.toml` verifies everything.

**The converter and the stream codec.** The generator turns a field mapping into C++ that converts
messages in memory in both directions, and that writes, reads and measures a ROS 2 message directly
as a ROS 1 byte stream. A mapping is a `Schema` (primitive, bool, string, builtin time, Header,
sequence, array, sub-message with the two ordered field dictionaries); the streams are classes over
byte arrays with a cursor. The main results are two commuting diagrams: writing directly gives the
same bytes as converting and then using the plain ROS 1 serializer, and reading directly gives the
same message as the plain ROS 1 deserializer followed by the conversion. Length exactness, value and
stream round trips follow, and each limit is an if-and-only-if: which messages are refused for a
missing field, which dictionaries make either diagram hold, which targets make the second one hold
where a 32-bit byte count wraps.

- `LittleEndian`, `Schema`: words, types, values, default-constructed messages
- `Conversion`, `RoundTrip`: `convert_1_to_2`, `convert_2_to_1` and what survives them
- `Carrying`: the same conversions with any dictionaries, member by member and word by word
- `Coverage`: that the hypotheses of the diagrams are met by every type and message they are meant for
- `Ros1Wire`, `SerializerLaws`, `WireFormat`: the plain ROS 1 serializer as the reference, its laws, and
  its bytes
- `Wrapping`: what a wrapped 32-bit byte count leaves out, at any depth
- `DirectStream`, `Diagram`, `StreamRoundTrip`: the direct streams and their laws
- `Layout`, `WriteLimits`, `MappingLimits`, `Refusal`: the exact limits for other mappings
- `NestedNames`, `ReadLimits`: colliding names at any depth, and what they do to reading
- `WriteThenRead`: reading what was written, with any dictionaries
- `Streams`: the stream objects and the generated routines as loops, proved against the functions

**The dynamic bridge.** `update_bridge` brings four tables into line with six snapshots that two
polling threads keep overwriting. `DynamicBridge` holds the tables as objects changed in place by
the loops of the source; `Reconciler` says pointwise what one update does and what repeated updates
do; `Snapshots` models how the polls discount the bridge's own endpoints; `Polling` is the closed
loop as a state machine whose steps are the locked sections, with external nodes that come and go
and creations that fail at will, and `ClosedLoop` says in plain terms what one update and one poll do
and where the loop settles. `Echo` models the two message callbacks of a bidirectional bridge
between two buses that return the bridge's own publications.

**The generator.** `Ordering` is the topological ordering of the mappings, `FieldMapping` the
name-based pairing of fields (and the link to the coverage that the codec needs), `Dispatch` the
generated dispatch tree against the flat mapping tables.

Conventions: exceptions, assertions and failed creations are `None`, `false` or an oracle; a
precondition such as `WellFormed` states what the C++ type system guarantees; `Covered` says that
every message reachable from the schema is mapped by name with no ROS 1 field missing, Header
excepted; `Fits1` and `Fits2` say that every element count, and every byte count of a primitive
block, is below 2^32, `WordSized` and `CountsFit` say it of the element counts alone; a wrapped block is one whose
byte count is not below 2^32; `Keyed` says that the keys of each dictionary are distinct.

Where the code and `doc/index.rst` differ, the model follows the code: the documentation (line 51)
says that with a field mapping rule the fields that are not listed are not mapped implicitly, but
the name-based pass runs after the manual rules all the same (`FieldMapping.ManualRuleReorders`).

## Model

| member | source | states |
|---|---|---|
| Diagram.DirectWriteIsSerialization | resource/interface_factories.cpp.em:403-503 | first diagram, for every covered schema and every ROS 2 value: the directly written bytes are the ROS 1 serialization of `convert_2_to_1` into a fresh message, nested messages, sequences, arrays and the fake `seq` included |
| Diagram.LengthIsModular | resource/interface_factories.cpp.em:377-383 | for every schema and value, the length pass refuses exactly the messages that the writing pass refuses, and otherwise counts its bytes modulo 2^32 |
| Diagram.LengthExactness | resource/interface_factories.cpp.em:531-541 | the reported length is the number of bytes written if and only if that number is below 2^32 |
| Diagram.ReadConsumes | resource/interface_factories.cpp.em:403-503 | a successful direct read consumes exactly the bytes that the ROS 1 deserializer consumes, with no condition on the counts |
| Diagram.ReadConvertsPatched | resource/interface_factories.cpp.em:385-392 | for every byte string that parses, a direct read gives the conversion of the parsed message patched with the target's own elements behind every block whose 32-bit byte count wraps, and the same rest |
| Diagram.ReadIffParsesWithinBounds | resource/interface_factories.cpp.em:358-366 | reading succeeds if and only if parsing does and no sequence at any depth exceeds the bound of its partner |
| Diagram.DirectReadIsParseAndConvert | resource/interface_factories.cpp.em:358-392 | second diagram, for every byte string: both paths fail where parsing fails; otherwise they agree if and only if a bound is exceeded or the target holds behind every wrapped block what was parsed there, which is zeros; where all byte counts fit, they always do |
| Wrapping.PatchedConverts | resource/interface_factories.cpp.em:385-392 | patching a message with a target's elements shows in its conversion if and only if they differ from its own behind some wrapped block |
| WireFormat.SerializedExactly | src/builtin_interfaces_factories.cpp:251-271 | bytes are the serialization of a message with counts that fit if and only if they are its little-endian words, its counts before the contents, and its parts one behind the other in declaration order |
| SerializerLaws.ParseOfSerialize | include/ros1_bridge/factory.hpp:314-319 | the reference parser inverts the reference serializer, whatever follows, if and only if every count fits its 32-bit word and the message holds zeros behind every wrapped block |
| SerializerLaws.SerializeOfParse | include/ros1_bridge/factory.hpp:331-338 | every byte string that parses is the serialization of what was parsed, followed by the rest, wrapped counts included |
| WriteThenRead.ReadAfterWrite | resource/interface_factories.cpp.em:508-529 | for every schema with any dictionaries (distinct keys, reordered, repeating and incomplete ones included), every message, target and following bytes: the message is written, and reading it back stops exactly at its end, restores every member that the dictionary names at every depth and leaves the others at the target's own value, if and only if it meets no flagged record, every count fits its word and the target agrees behind every wrapped block; where all byte counts fit, the last two always hold |
| StreamRoundTrip.WriteAfterRead | src/builtin_interfaces_factories.cpp:273-293 | for every byte string that can be read, writing back what was read gives the serialization of the same message with every Header `seq` zeroed and every bool clamped, and the same bytes if and only if nothing had to be zeroed or clamped |
| StreamRoundTrip.NormalKeepsLength | src/builtin_interfaces_factories.cpp:251-271 | zeroing and clamping never move or drop a byte |
| StreamRoundTrip.NormalBytesIff | src/builtin_interfaces_factories.cpp:251-271 | zeroing and clamping show in the bytes if and only if they change the message |
| StreamRoundTrip.SameBytesIff | include/ros1_bridge/factory.hpp:314-319 | messages whose counts fit their words have the same bytes if and only if they are equal up to what lies behind wrapped blocks; where all byte counts fit, that means equal |
| StreamRoundTrip.WrappedCountBreaksReadDiagram | resource/interface_factories.cpp.em:385-392 | an input for the failing half of the second diagram: 2^29 doubles over a target with a one in it |
| WriteThenRead.WrappedCountBreaksReadAfterWrite | resource/interface_factories.cpp.em:368-375 | an input for the failing half of read after write: the same doubles, all zero |
| Carrying.ConvertsIffListedWithinBounds | resource/interface_factories.cpp.em:119-199 | for every message with any dictionaries, reordered, repeating, incomplete or flagged ones included, `convert_1_to_2` succeeds if and only if every sequence that it comes by is within the bound of its partner |
| Carrying.ConversionCarries | resource/interface_factories.cpp.em:119-199 | it then leaves in each listed ROS 2 member the ROS 1 field of the last pair for it, at every depth, down to the clamped bool and the reinterpreted time words, and every member without a pair as the target had it |
| Carrying.ConversionCarriesBack | resource/interface_factories.cpp.em:210-286 | the same for `convert_2_to_1`, whose target keeps the Header `seq` and every field without a pair |
| Coverage.TypesAreAdmitted | resource/interface_factories.cpp.em:119-199 | the diagrams apply to the machine widths, the built-in types, and all sequences and arrays but those of bool |
| Coverage.MessagesAreAdmitted | ros1_bridge/__init__.py:793-799 | they apply to every message whose ROS 1 fields have distinct partners, in any order and beside any unmatched members |
| Coverage.DefaultsAgree | include/ros1_bridge/factory.hpp:210-211 | default values are zeros, empty texts and empty sequences on both sides |
| Coverage.DefaultArrays | include/ros1_bridge/factory.hpp:210-211 | arrays start with default elements, and ROS 2 messages with the defaults of their definition |
| RoundTrip.ConvertsIffWithinBounds | resource/interface_factories.cpp.em:150-165 | converting to ROS 2 succeeds if and only if no sequence at any depth exceeds the bound of its partner |
| RoundTrip.ThereAndBack1 | resource/interface_factories.cpp.em:110-286 | ROS 1 to ROS 2 over any target and back into a fresh message gives the message with `seq` zeroed and bools clamped |
| RoundTrip.NormalIffCanonical | src/convert_builtin_interfaces.cpp:22-40 | a message survives that unchanged if and only if every `seq` is zero and every bool is 0 or 1; in particular all 32-bit time words do |
| RoundTrip.ValueRoundTrip | resource/interface_factories.cpp.em:110-286 | from a fresh target, the round trip succeeds exactly within bounds, and is then the identity exactly on canonical messages |
| RoundTrip.ThereAndBack2 | resource/interface_factories.cpp.em:110-286 | ROS 2 to ROS 1 and back over a target restores every matched member and keeps the target's unmatched ones |
| LittleEndian.Reinterpret | src/convert_builtin_interfaces.cpp:72-90 | assigning between signed and unsigned 32-bit members is inverted by assigning back |
| Refusal.WriteRefusesExactlyHits | resource/interface_factories.cpp.em:413-415 | for every schema and value, the writing and the length pass refuse a message if and only if their traversal reaches, at any depth, a message with a ROS 1 field missing in ROS 2; one in an empty sequence or below an unmatched member is not reached |
| Refusal.ReadRefusesExactlyHits | resource/interface_factories.cpp.em:413-415 | the reader refuses a stream, beyond overruns and bounds, if and only if the message that it would read without the flag contains such a message; otherwise it reads that |
| WriteLimits.DiagramIffLaidOutAsDeclared | resource/interface_factories.cpp.em:417-501 | for every message of parts mapped by name, whatever its own dictionaries are: the first diagram holds for all values if and only if no ROS 1 field is missing in ROS 2 and, in a default message, the order of the ROS 2 to ROS 1 dictionary has the same size and puts every named field that can vary at the same offset as the ROS 1 declaration |
| WriteLimits.LeftOutFieldShortens | resource/interface_factories.cpp.em:417-501 | a field that takes bytes and is left out of that dictionary makes the direct stream too short for every value, if the dictionary has no field twice |
| WriteLimits.InversionBreaksDiagram | resource/interface_factories.cpp.em:417-501 | for any two fields that can vary and are listed the other way round, a value at which the diagram fails |
| WriteLimits.RepetitionBreaksDiagram | resource/interface_factories.cpp.em:417-501 | for any field that can vary and has two partners there, a value at which the diagram fails |
| MappingLimits.NameBasedDiagramIff | ros1_bridge/__init__.py:789-816 | for every unflagged name-based mapping whose field types are themselves covered, the first diagram holds for all messages if and only if ROS 1 names that differ only in case belong to fields without bytes; if not, the stream is too short for every message |
| NestedNames.NestedNameBasedDiagram | ros1_bridge/__init__.py:789-816 | for every schema that is mapped by name at every level, flagged and colliding names included, the first diagram holds at a message if and only if its traversal meets neither a flagged record nor one that leaves out a field with bytes; if it meets the latter only, the stream is too short |
| NestedNames.LeavesOutIffCollision | ros1_bridge/__init__.py:793-799 | an unflagged name-based mapping leaves out a field with bytes if and only if the name of such a field differs from that of a later one in case only |
| NestedNames.FlagOfNames | ros1_bridge/__init__.py:801-808 | for name-based mappings, the flag of the generator is the one of the schema |
| ReadLimits.NameBasedReadIff | resource/interface_factories.cpp.em:385-392 | for every unflagged name-based mapping whose field types are covered, the second diagram holds for all targets and all byte strings with counts that fit if and only if colliding names belong to fields without bytes; if not, there is a byte string that is read into every target although ROS 1 cannot parse it |
| ReadLimits.AlignedReadsAgree | resource/interface_factories.cpp.em:358-392 | the second diagram holds for every message whose two dictionaries list the fields with bytes in declaration order with the same partners, whatever they do with the others |
| MappingLimits.CollisionsOccur | ros1_bridge/__init__.py:793-810 | fields `A` and `a` over one member `a` are such a mapping, accepted without the flag |
| MappingLimits.ManualRuleBreaksDiagram | ros1_bridge/__init__.py:755-806 | with the rule that maps `a` to `b`, the dictionaries of fields and members `a`, `b` are complete but crossed, and for every two field types that can vary there is a value at which the diagram fails |
| MappingLimits.CrossedRuleOccurs | ros1_bridge/__init__.py:755-806 | that rule occurs with a well-formed message |
| Streams.OStream.Put | resource/interface_factories.cpp.em:368-375 | bytes are appended if and only if they fit, and no byte outside the rest of the window changes |
| Streams.OStream.WriteMessage | resource/interface_factories.cpp.em:403-503 | the writing pass appends exactly the specified bytes, succeeds exactly if they exist and fit, and leaves the bytes before the cursor and behind the window alone |
| Streams.OStream.WriteHeader | src/builtin_interfaces_factories.cpp:251-271 | a zero word, the stamp and the frame id, with the same frame guarantees |
| Streams.OStream.WriteSequence | resource/interface_factories.cpp.em:349-356 | the size word in 32 bits followed by the elements |
| Streams.OStream.WriteEach | resource/interface_factories.cpp.em:480-498 | the element loop appends the concatenation of the elements |
| Streams.LStream.CountMessage | resource/interface_factories.cpp.em:403-503 | the counter advances by the specified length modulo 2^32 |
| Streams.LengthAsRos1Stream | resource/interface_factories.cpp.em:531-541 | a fresh counter gives the specified length or the exception |
| Streams.SerializeDirectly | include/ros1_bridge/factory.hpp:355-368 | length pass, buffer of that length and writing pass fill the buffer exactly with the ROS 1 serialization of the converted message, leave no capacity and touch no byte behind it |
| Streams.IStream.ReadMessage | resource/interface_factories.cpp.em:403-503 | the reading pass computes the specified value over the old one and leaves exactly the specified bytes |
| Streams.IStream.ReadHeader | src/builtin_interfaces_factories.cpp:273-293 | the `seq` word is consumed and dropped |
| Streams.IStream.ReadSequence | resource/interface_factories.cpp.em:358-366 | the vector is resized to the streamed count, old elements kept, then overwritten |
| Streams.ConvertTo1 | resource/interface_factories.cpp.em:201-286 | the assignments and loops of `convert_2_to_1` compute the function used in the diagrams |
| Streams.ConvertTo2 | resource/interface_factories.cpp.em:110-199 | the assignments and loops of `convert_1_to_2` compute the function used in the diagrams, failing in the middle included |
| Reconciler.WantedTopicAfterUpdate | src/dynamic_bridge.cpp:144-210 | a wanted topic keeps the bridge that has the wanted types, handle included; any other bridge is replaced by one with these types, or lost if the creation fails |
| Reconciler.UnwantedTopicAfterUpdate | src/dynamic_bridge.cpp:278-307 | a topic without a publisher, or without a subscriber and bridge-all, is not bridged; with bridge-all, one without subscriber and mapping is left alone |
| Reconciler.BridgeSurvivesIff | src/dynamic_bridge.cpp:168-177 | a bridge survives an update if and only if its topic is still published and wanted and the snapshots name no other types |
| Reconciler.ExactReconciliation | src/dynamic_bridge.cpp:143-210 | without bridge-all, the table is exactly the topics with endpoints on both sides that were bridged so before or whose creation succeeded, with those types |
| Reconciler.ExactReconciliationOfAll | src/dynamic_bridge.cpp:150-162 | with bridge-all, the table is exactly the published topics that are wanted, with the subscriber's or else the mapped type, and were bridged so or could be created, or that have no mapping and keep the bridge they had |
| Reconciler.TopicUpdateIsIdempotent | src/dynamic_bridge.cpp:143-307 | a second update with the same snapshots and creation results changes no entry and no handle, in both directions and under every flag |
| Reconciler.ServicesStayExclusive | src/dynamic_bridge.cpp:309-383 | an update keeps the two service tables disjoint and within their snapshots |
| Reconciler.ExactServices | src/dynamic_bridge.cpp:309-383 | exactly which services are bridged in which direction, that kept ones keep their identity and that the others have a new one |
| Reconciler.ChangingSidesTakesTwo | src/dynamic_bridge.cpp:309-383 | exactly the services that change sides while their old bridge is in the table are bridged in neither direction after one update, and on their new side after the second; the others stay as one update leaves them |
| Reconciler.OneUpdateSuffices | src/dynamic_bridge.cpp:309-383 | one update reaches a fixpoint if and only if no service changes sides while its old bridge is still in the table |
| Reconciler.TwoUpdatesSuffice | src/dynamic_bridge.cpp:309-383 | from any disjoint tables, the state after two updates is a fixpoint |
| DynamicBridge.TopicTable.BridgeTopic | src/dynamic_bridge.cpp:144-210 | the loop body changes only its own topic, to the specified entry, and keeps endpoints and entries in step |
| DynamicBridge.TopicTable.CreateBridges | src/dynamic_bridge.cpp:212-276 | the creation loop computes the specified table in any iteration order |
| DynamicBridge.TopicTable.RemoveObsolete | src/dynamic_bridge.cpp:278-307 | exactly the obsolete entries and their endpoints disappear |
| DynamicBridge.TopicTable.OwnEndpointsAreCounted | src/dynamic_bridge.cpp:679-690 | the bridge owns exactly one endpoint on a bridged topic and none elsewhere, the number that the poll discounts |
| DynamicBridge.ServiceTables.CreateFromRos1 | src/dynamic_bridge.cpp:309-328 | the loop over the ROS 1 services adds exactly the specified bridges |
| DynamicBridge.ServiceTables.CreateFromRos2 | src/dynamic_bridge.cpp:334-354 | the loop over the ROS 2 services adds exactly the specified bridges |
| DynamicBridge.ServiceTables.RemoveObsolete | src/dynamic_bridge.cpp:356-383 | the erasing iterations keep exactly the services of the snapshots |
| DynamicBridge.Bridge.UpdateBridge | src/dynamic_bridge.cpp:126-384 | all loops together refine the pointwise update of all four tables and keep every table invariant |
| Snapshots.ActiveMeansAnotherNode | src/dynamic_bridge.cpp:515-544 | a topic is active if and only if a node of another name than /ros_bridge is listed for it |
| Snapshots.LastTypeIsLast | src/dynamic_bridge.cpp:569-591 | the type of a topic is that of the report's entry behind which there is no other for it |
| Snapshots.CountsExactly | src/dynamic_bridge.cpp:649-698 | a ROS 2 topic is recorded, with its type, if and only if it is not parameter_events, has one type, and has more endpoints of the kind than the bridge contributes |
| Snapshots.CollectActiveTopics | src/dynamic_bridge.cpp:515-544 | a topic is active exactly if a node beside the bridge is registered for it |
| Snapshots.TypeTopics | src/dynamic_bridge.cpp:569-601 | active topics get the last reported type; subscribers without one get the empty type |
| Snapshots.CountTopics | src/dynamic_bridge.cpp:649-698 | the ROS 2 snapshots list exactly the topics of one type with an endpoint beyond the discounted one |
| Polling.ActiveIsExternal | src/dynamic_bridge.cpp:515-544 | a recorded ROS 1 topic has an external endpoint, and every external one is recorded |
| Polling.CountedIsExternal | src/dynamic_bridge.cpp:676-698 | a recorded ROS 2 topic has an external endpoint of that kind, and every reported topic of one type that has one is recorded |
| Polling.RecordedWasExternal | src/dynamic_bridge.cpp:505-621 | in every run that begins without knowledge of a topic, whatever a poll carries or a snapshot records of it was found by an earlier poll in a graph with an external endpoint of that kind |
| Polling.BridgeIsGrounded | src/dynamic_bridge.cpp:623-766 | in every run that begins without a bridge and without knowledge of a topic, a bridge of either direction exists only if earlier polls found an external publisher on its source side and, with bridge-all off, an external subscriber on the other |
| Polling.ClosedLoopConverges | src/dynamic_bridge.cpp:143-307 | once the external endpoints of a topic are steady on both sides, reports are complete and creations succeed, one full poll of each side makes the topic bridged if and only if it has external endpoints on both sides, and it stays so |
| Polling.NoSelfSustainingFeedback | src/dynamic_bridge.cpp:278-307 | in every run, once the last external endpoint of a needed kind has left for good, a full poll begun afterwards ends with the bridge removed and unrecorded, for ever |
| Polling.ServiceExclusivityOverRuns | src/dynamic_bridge.cpp:556-559 | in every run no service is bridged both ways, and after each update the tables are within the snapshots |
| Polling.WildcardStableOverRuns | src/dynamic_bridge.cpp:593-601 | a 2to1 bridge of unknown ROS 1 type keeps its handle over any run in which its topic stays wanted |
| Polling.Provenance | src/dynamic_bridge.cpp:143-307 | in every run, under every flag setting, each topic bridge was created by an earlier update with exactly the types that this update wanted (bridge-all mapping included), no update since found its topic without endpoints or wanted other types, and it has been in the table ever since |
| ClosedLoop.Update12 | src/dynamic_bridge.cpp:143-210 | what one update makes of each 1to2 topic, on the ROS 1 publishers, the ROS 2 subscribers, the flag, the lookup and the creations of this direction |
| ClosedLoop.Update21 | src/dynamic_bridge.cpp:212-276 | the same for 2to1, where an unknown ROS 1 type matches anything |
| ClosedLoop.UpdateServices | src/dynamic_bridge.cpp:309-383 | what one update makes of each service, on the snapshots and creations of both sides |
| ClosedLoop.StaleBridgesDoNotSurvive | src/dynamic_bridge.cpp:168-177 | in every run, a topic bridge with other types than the snapshots call for is gone after the next update, and never comes back |
| ClosedLoop.PollOfRos1 | src/dynamic_bridge.cpp:505-621 | for every graph, type report and services, a ROS 1 poll can run through, and the snapshots on which its update works list exactly the topics of other nodes with the last reported types, and those services |
| ClosedLoop.PollOfRos2 | src/dynamic_bridge.cpp:641-766 | for every graph, types and services, a ROS 2 poll can run through, whatever is bridged, and the snapshots list exactly the topics with endpoints beside the bridge's own, and those services |
| ClosedLoop.FailedPoll | src/dynamic_bridge.cpp:561-567 | when the master does not answer for the topics, the poll ends with its services stored and the topics as before |
| ClosedLoop.NodesComeAndGo | src/dynamic_bridge.cpp:505-621 | in the runs considered, the graph may change in any way at any time |
| ClosedLoop.ServicesReachTheUpdates | src/dynamic_bridge.cpp:546-559 | however the polls interleave, the services that a poll found are stored, and updates work with them until the next store of that side |
| ClosedLoop.ClosedLoopSettles | src/dynamic_bridge.cpp:143-307 | with bridge-all on or off: once endpoints and reported types are steady and creations succeed, one full poll of each side makes the topic bridged with the publisher's type and the subscriber's type, or failing a subscriber with bridge-all the mapped type, or not bridged if no publisher or nothing wants it; it stays so |
| Polling.SlotOverRun | src/dynamic_bridge.cpp:126-384 | along every run, what a table holds for a name is what it held before or a bridge created since |
| Polling.BridgesNeverReturn | src/dynamic_bridge.cpp:126-384 | in every run, a bridge that is replaced or removed never comes back: one held at two moments was held throughout, in each of the four tables |
| Polling.UpdatesConverge | src/dynamic_bridge.cpp:126-384 | with fixed snapshots and creation results, two updates reach a fixpoint of all four tables |
| Echo.Forward1Exactly | include/ros1_bridge/factory.hpp:192-213 | every message of another caller than /ros_bridge is converted and published, one of /ros_bridge or without a header is not |
| Echo.EnabledExactly | include/ros1_bridge/factory.hpp:200-206 | in the runs considered, every node of another name may publish with any header, every publisher of another identity may, and any pending message may come next |
| Echo.OthersAreCarriedOver | include/ros1_bridge/factory.hpp:175-261 | from every state, a message of another caller can be published and delivered and then comes out converted on the other side, once |
| Echo.Ros1Callback | include/ros1_bridge/factory.hpp:175-216 | publishes the converted message unless it has no connection header or comes from the bridge, and nothing else |
| Echo.Ros2Callback | include/ros1_bridge/factory.hpp:218-261 | publishes the converted message unless the publisher is the one handed over or there is no ROS 1 publisher |
| Echo.NoEchoFrom | include/ros1_bridge/factory.hpp:175-261 | along every run, the output on each side is exactly the converted external messages processed from the other side, once each and in order |
| Echo.NoEchoIffRecognised | src/bridge.cpp:132-138 | all runs are free of echoes if and only if the ROS 2 publisher is handed over, or the middleware does not loop back, or there is no ROS 1 publisher |
| Echo.EchoWithoutHandover | src/bridge.cpp:87-117 | with a middleware that loops publications back although the bridge asks it not to (`ignore_local_publications`), and without the hand-over, one external ROS 1 message comes back to ROS 1, once, and then both buses are empty |
| Echo.ConservedFrom | include/ros1_bridge/factory.hpp:175-261 | every external publication is either pending or processed, exactly once |
| Echo.RunIsBounded | include/ros1_bridge/factory.hpp:175-261 | without new publications the number of deliveries is bounded by a measure of the pending ones, with or without the hand-over |
| Echo.Settle | include/ros1_bridge/factory.hpp:175-261 | from every state some deliveries empty both buses |
| Echo.SettledMeansCarriedOver | include/ros1_bridge/factory.hpp:175-261 | with both buses empty, each external message has been published on the other side exactly once |
| Ordering.FirstReady | ros1_bridge/__init__.py:194-199 | the first mapping without unsatisfied dependencies, if any |
| Ordering.Satisfy | ros1_bridge/__init__.py:204-207 | exactly the provided message leaves the dependencies of the remaining mappings |
| Ordering.OrderMappings | ros1_bridge/__init__.py:191-207 | ordered and leftover are the input rearranged; each dependency is provided strictly earlier; the ordered ones are the least closed set; each leftover still waits for exactly what no ordered mapping provides |
| Ordering.OrderedIsLeastClosed | ros1_bridge/__init__.py:191-218 | any topological list at which nothing more is ready is the least set closed under satisfied dependencies |
| Ordering.PickDoesNotMatter | ros1_bridge/__init__.py:194-199 | whichever ready mapping is picked each time, the same mappings are ordered |
| FieldMapping.DetermineMapping | ros1_bridge/__init__.py:735-824 | the mapping that the ordering gets: null if and only if a ROS 1 field has neither rule nor member while a ROS 2 member has no field; its recorded dependencies are exactly the sub-messages outside builtin_interfaces of the assigned members |
| FieldMapping.DependsExactly | ros1_bridge/__init__.py:940-956 | a message is depended on if and only if an assigned member is of a namespaced type package, msg, name outside builtin_interfaces |
| FieldMapping.PutAllExactly | ros1_bridge/__init__.py:938-939 | each dictionary holds for each key the last value assigned to it, and nothing else |
| FieldMapping.PutAllInOrder | ros1_bridge/__init__.py:938-939 | its keys come in the order of their first assignments |
| FieldMapping.NamePairsExactly | ros1_bridge/__init__.py:793-799 | the name-based pairs are exactly each field with the first member that has its name in small letters |
| FieldMapping.LowerExactly | ros1_bridge/__init__.py:795 | the 26 capital letters are replaced by the small ones, and nothing else |
| FieldMapping.LeftOverExactly | ros1_bridge/__init__.py:801-810 | a field is left over if and only if no manual selection starts with it and no member has its name in small letters |
| FieldMapping.FieldTable.AddFieldPair | ros1_bridge/__init__.py:929-956 | both ordered dictionaries and the dependency set follow the list of assignments |
| FieldMapping.DetermineFieldMapping | ros1_bridge/__init__.py:735-824 | manual pairs, then name-based ones; the flag means a field left over; the result is null if and only if each side has an unmatched field |
| FieldMapping.AssignField | ros1_bridge/__init__.py:793-806 | one iteration adds the pair with the first member of that name and notices whether the field is mapped by now |
| FieldMapping.InverseIffDistinct | ros1_bridge/__init__.py:793-806 | without manual rules, the dictionaries are mutual inverses if and only if the matched ROS 1 names stay distinct after lower-casing |
| FieldMapping.ForwardInDeclarationOrder | ros1_bridge/__init__.py:793-799 | the forward dictionary lists the matched fields in ROS 1 declaration order |
| FieldMapping.PairsFollowDeclaration | ros1_bridge/__init__.py:793-799 | the name-based pairs are those of the matched positions, in increasing order |
| FieldMapping.CoverageIffNotMissing | ros1_bridge/__init__.py:801-810 | the missing-field flag is clear if and only if the dictionary lists every ROS 1 field |
| FieldMapping.NameBasedMappingIsCovering | ros1_bridge/__init__.py:789-810 | an unflagged name-based mapping with distinct names meets the hypothesis of the diagrams, with the same pairs in both dictionaries |
| FieldMapping.ManualRuleReorders | ros1_bridge/__init__.py:755-799 | a manual rule is followed by the name-based pass, which undoes it one way and leaves the other dictionary reordered |
| Dispatch.GetFactoryExactly | resource/get_factory.cpp.em:31-51 | for every request: the two built-in factories under the std_msgs names or an open ROS 1 type, and otherwise the first mapping whose type names are requested, or the exception if there is none |
| Dispatch.Table1to2Exactly | resource/get_mappings.cpp.em:25-43 | the flat table answers with the ROS 2 type of the first mapping of the ROS 1 type, and has no answer if and only if there is no mapping |
| Dispatch.Table2to1Exactly | resource/get_mappings.cpp.em:45-62 | the same for ROS 2 types |
| Dispatch.DispatchIsFlatScan | resource/get_factory.cpp.em:31-51 | outside the built-in types, the tree of package and message selectors equals one scan of the mapping list |
| Dispatch.DispatchFindsExactlyThePairs | resource/interface_factories.cpp.em:52-76 | with two type names, a factory is found if and only if the pair is in the list, and it is for that pair |
| Dispatch.WildcardAgreesWithTable | resource/get_mappings.cpp.em:45-62 | with an empty ROS 1 type, a factory is found if and only if the flat table knows the ROS 2 type, for the ROS 1 type that the table names |
| Dispatch.BridgeAllPairsAreSupported | resource/get_mappings.cpp.em:25-62 | every pair that a bridge-all lookup produces has a factory |
| Dispatch.ListingOrderDoesNotMatter | resource/pkg_factories.cpp.em:25-41 | the order in which packages and messages are listed decides nothing |
| Dispatch.ContextIsListed | resource/pkg_factories.cpp.em:25-41 | for every list of mappings with plain names there are packages and messages that list all of them |
| Dispatch.Ros2TypeInjective | resource/interface_factories.cpp.em:66-70 | a ROS 2 type name determines its package and message |

## Left out

- Middleware calls (node handles, publishers, timers, executors, type support, `rmw_serialize`): foreign code, represented by oracles, by the stream classes or by the step relations.
- The ROS 1 serializer itself is not in the repository; `Ros1Wire` is the reference, with fields in declaration order, 32-bit counts, and blocks of primitives copied as one. Its own 32-bit arithmetic for vectors of time values is not modelled.
- Stream overruns are exceptions in the streams; the cursor after one is not modelled.
- Messages are values in the conversion routines: the loops assign into a copy that is returned, so aliasing between source and destination messages is not captured. The stream classes do own their buffers.
- Arrays and sequences of bool: `vector<bool>` has no contiguous storage, and for a fixed array the direct read copies unclamped bytes into bool objects, whose value C++ leaves undefined. Those of bounded strings and of wide strings would be copied as raw memory. The schemas exclude all of them.
- Primitive widths and fixed array sizes are assumed to agree on both sides, which the compiler checks in the generated code; copying from an empty vector's front is taken as copying nothing.
- WriteLimits.DiagramIffLaidOutAsDeclared: messages whose sub-messages are themselves reordered by manual rules, flagged or colliding are outside it; for flagged and colliding ones, NestedNames.NestedNameBasedDiagram is exact at every message.
- MappingLimits.NameBasedDiagramIff: the field types must be covered; collisions inside sub-messages are the subject of NestedNames.NestedNameBasedDiagram.
- ReadLimits.NameBasedReadIff: the field types must be covered, and byte strings of messages whose counts do not fit are left to Diagram.DirectReadIsParseAndConvert; the exact set of dictionaries is not determined for reading under manual rules.
- The built-in ROS 2 endpoints of the bridge's own node (`/rosout`, `/parameter_events`) belong to no entry of the bridge table, and the list of ignored topics in the source has no leading slash, so the ROS 2 poll does not discount them: the model counts them among the external ones, and they do sustain a bridge. Bridging `/rosout` is among the known issues (doc/index.rst:311-314).
- StreamRoundTrip.SameBytesIff: for messages with an element count of 2^32 or more, whose size word wraps, equality of bytes is not characterised.
- Field selections that go through several sub-messages: manual rules may name them, and FieldMapping carries such paths, but the codec schema has single-level pairs only.
- Sequences and arrays of messages record no dependency in the source, so the ordering theorems say nothing about them.
- Choosing package pairs and message pairs, the message index, and reading message definitions, rules and manifests: the model starts from parsed definitions and given pairs.
- The ROS 1 field names are ASCII; `lower()` of other letters is not modelled.
- Service request and response translation, and the dispatch of service factories: simpler copies of the message code.
- How services are discovered (`get_ros1_service_info`, ROS 2 graph queries): the resulting maps are inputs.
- The ROS 2 poll reads the bridge tables without the lock; the model takes each graph count and the table lookups as one step, and the graph as up to date.
- A failed service creation leaves no entry, and erasing does not throw.
- Quality of service, queue overflow and lost messages: Echo delivers every pending message at some time, in any order.
- The iteration order of the C++ maps is arbitrary in the model.
- Command line, logging, the parameter, static and simple bridges: wiring.
