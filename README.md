# Variable-synchronisation bridge between a controller runtime and an OPC UA server

This project models the sequential core of the bridge in `main.c` and `main.h`. The bridge connects a CODESYS controller to an open62541 OPC UA server. Each of its operations is written in Dafny and proved correct.

Controller messages arrive on a POSIX message queue. The drain loop hands them to the inbound dispatcher, which uses the `registration_active` flag to gate each tag:

- Start → VariableRegistration* → End creates the address-space nodes.
- WriteVariable copies a controller value into a node.
- Shutdown releases the change-flag buffer and stops the workers.

When a monitored node changes, the change watcher sends a WriteVariable record back to the controller. The exception is a change that is the bridge's own write echoing back. The per-kind change-flag arrays mark those writes, and a marked change is swallowed instead of sent.

Modules:

- `Protocol` (`protocol.dfy`) holds the constants, tags, access levels, type kinds and record layouts of `main.h`. Records are byte images, so the model pins down the record sizes and field offsets.
- `CString` (`cstring.dfy`) holds `strnlen`, the text of a fixed char field, and `CheckUaStringLength` on a `UaString` object whose buffer it truncates in place.
- `FlagBuffer` (`flag_buffer.dfy`) holds `change_flag_buffer`. It is a class owning one `array<byte>` per allocated kind, abstracted by `View()` to a map from kind to flag contents. The methods cover allocate, mark, test-and-clear and release.
- `AddressSpace` (`address_space.dfy`) holds the part of the OPC UA address space the bridge uses: nodes by name, monitored items and their filters. It also holds `EngineOutcome`, which stands for the answers of engine calls that may fail.
- `BridgeSpec` (`bridge_spec.dfy`) holds the whole bridge state as a value and one function per operation. These are `Register`, `WriteVar`, `Notify`, `Dispatch`, and `Run`/`Drain` for the drain loop. Its lemmas state the promised properties.
- `Bridge` (`bridge.dfy`) is the class with the bridge's globals and the methods of `main.c`. Every method is proved to move `Abs()` exactly as the matching `BridgeSpec` function says. The drain loop carries the invariant `Abs() == Run(old(Abs()), rs[..i])`.
- `Findings` (`findings.dfy`) holds three source defects, each modelled as written and corrected.

Inputs the program gets from outside are parameters:

| input | parameter |
|---|---|
| received messages and receive failures | `Receive` |
| the answers of open62541 calls | `EngineOutcome` |
| the monitored-item context and the value pointer handed to the callback | `Option<Context>` and `Option<seq<byte>>`, where `None` stands for NULL |

Sending to the controller appends the record's bytes to `outbox`.

The main model takes the corrected behaviour of the three defects listed under "## Findings", and `Findings` models each of them as written:

- `AllocateMemory` stores the new array in the buffer field (`FlagBuffer.ChangeFlagBuffer.Allocate`).
- `FreeChangeFlagBufferStructs` leaves each field NULL (`FlagBuffer.ChangeFlagBuffer.Release`).
- A write to a String node stores the message's bounded text (`BridgeSpec.WriteVar`).

Behaviour of the code worth knowing:

- With allocation corrected, registering a variable marks its own slot's flag (main.c:281-370). The mark is consumed only by the watcher's test-and-clear (main.c:159-162), which runs only when registration is inactive and the outbound descriptor is non-zero (main.c:150). The monitored item is created during registration (main.c:523), and any report delivered then is dropped by that guard without consuming the mark. So the first report delivered after End while the descriptor is non-zero is swallowed, whatever change it carries, and only the next one is forwarded. `BridgeSpec.RegistrationScenario` states this.
- When calloc fails (main.c:264-267), the field stays NULL and the registration's mark is skipped. `EngineOutcome.allocOk` stands for calloc's answer.
- The watcher's guard tests the outbound descriptor for being non-zero (main.c:150). Its initial value of -1 therefore passes the guard.
- Shutdown is dispatched without a length check (main.c:613-624).

## Model

| member | source | states |
|---|---|---|
| Protocol.MessageTypeOf | main.h:85-91 | the switch maps exactly the five tag values to their message kinds and every other header to none |
| Protocol.KindOf | main.c:53-117 | exactly the codes 0..11 denote one of the twelve flag-array kinds, each with its own code |
| Protocol.MessageTagsDistinct | main.h:85-91 | the five tags are distinct values in 0xFA..0xFE |
| Protocol.SizeConstants | main.h:69-83 | MAX_DATA_SIZE, MAX_NAME_LENGTH and MAX_STRING_VALUE are all 32; access levels are 1, 2, 3; the string-check codes are 0, 1, 2 |
| Protocol.KindCodes | main.h:96-109 | kind codes and KindOf are inverse |
| Protocol.TwelveKinds | main.h:96-109 | there is one flag array per kind, twelve in all |
| Protocol.U16RoundTrip | main.h:121-122 | a little-endian uint16_t field decodes to the value encoded |
| Protocol.U32RoundTrip | main.h:114-115 | a little-endian 4-byte enum field decodes to the value encoded |
| Protocol.RegistrationRoundTrip | main.h:113-123 | every variable_registration_t field is read back from its offset in the 160-byte record |
| Protocol.WriteRoundTrip | main.h:125-131 | every variable_write_t field is read back from its offset in the 76-byte record |
| Protocol.Header | main.c:564 | the header is the 32-bit tag whose little-endian encoding is the message's first four bytes, zero-padded when the message is shorter |
| Protocol.HeaderOfEncoded | main.c:564 | the header the dispatcher reads from an encoded record is that record's tag |
| CString.StrNLen | main.c:127 | strnlen counts the bytes before the first NUL within the bound and stops at that NUL |
| CString.FieldText | main.c:273-274 | a char field's text has no NUL, is a prefix of the field, and ends at the first NUL |
| CString.BoundedText | main.c:429-441 | the stored string value is at most MAX_STRING_VALUE - 1 bytes, NUL-free, a prefix of the field, equal to the field's text when that is shorter than MAX_STRING_VALUE |
| CString.UaString.FromChars | main.c:431 | UA_STRING over the value field: the data is the field's bytes and the length is their strlen |
| CString.CheckUaStringLength | main.c:122-141 | ERROR iff the string or its data is null or its length is 0; OVERFLOW iff strnlen reaches MAX_STRING_VALUE, in which case byte 31 becomes NUL and the length 31; otherwise length and bytes unchanged |
| CString.CheckedFieldText | main.c:429-441 | CheckUaStringLength over UA_STRING(value) yields BoundedText of the value; ERROR iff the text is empty, OVERFLOW iff it is at least MAX_STRING_VALUE long |
| FlagBuffer.AllocatedFacts | main.c:257-268 | allocation is a no-op for an existing array or capacity 0; otherwise it creates `capacity` clear flags, touches no other kind, and is idempotent |
| FlagBuffer.MarkAndConsume | main.c:55-161 | marking sets exactly the addressed flag when the slot exists; clearing consumes it; no other flag and no array changes |
| FlagBuffer.ChangeFlagBuffer.constructor | main.c:838 | the buffer starts with every kind NULL |
| FlagBuffer.ChangeFlagBuffer.Allocate | main.c:257-268 | when calloc succeeds the buffer becomes Allocated(old buffer, kind, capacity), with a fresh zero-filled array stored in the registry; when it fails nothing changes |
| FlagBuffer.ChangeFlagBuffer.Store | main.c:55-57 | `array[index] = v` on the kind's array, skipped when the array is missing or the index is outside it |
| FlagBuffer.ChangeFlagBuffer.TestAndClear | main.c:159-162 | reports whether the slot's flag was set and clears it only then |
| FlagBuffer.ChangeFlagBuffer.Release | main.c:541-561 | every allocated array is released and every field is left NULL |
| AddressSpace.ValueImage | main.c:428-446 | a node's value is the type's width of the value field for fixed-width kinds and BoundedText for strings |
| AddressSpace.FilterFor | main.c:496-515 | absolute deadband with the registered value exactly for the ten numeric kinds; none with 0.0 otherwise |
| BridgeSpec.Prefix | main.c:163 | a memcpy of n bytes from the variant gives exactly n bytes, the value's own when it has that many |
| BridgeSpec.ContextName | main.c:478 | the context name is at most MAX_NAME_LENGTH - 1 bytes, a prefix of the node name, and the whole name when it is shorter than MAX_NAME_LENGTH |
| BridgeSpec.MarkedFlagsFacts | main.c:53-117 | the write's mark sets the (typeKind, index) flag when its array holds the slot, changes no other flag and allocates no array |
| BridgeSpec.StringCopyLength | main.c:242 | the string copy length is min(length, MAX_DATA_SIZE - 1) |
| BridgeSpec.Payload | main.c:164-251 | the value field of an outgoing record is always MAX_DATA_SIZE bytes |
| BridgeSpec.Outgoing | main.c:151-156 | the record the watcher sends is a well-formed WriteVariable record with a zeroed name, the context's slot index and type kind, and Payload of the value |
| BridgeSpec.Processed | main.c:640-645 | the drain loop dispatches the longest prefix of positive receives and stops at the first receive that returns nothing |
| BridgeSpec.StartGating | main.c:567-575 | Start sets registration active exactly when the message is a bare tag, else nothing changes |
| BridgeSpec.RegistrationGating | main.c:577-586 | a registration is applied iff registration is active and the message is exactly 160 bytes; otherwise nothing changes |
| BridgeSpec.EndGating | main.c:588-598 | End clears registration and releases the variable-init gate exactly when the message is a bare tag |
| BridgeSpec.WriteGating | main.c:600-611 | a write is applied iff registration is inactive and the message is exactly 76 bytes; otherwise nothing changes |
| BridgeSpec.UnknownTagIgnored | main.c:626-631 | a message with any other tag changes nothing |
| BridgeSpec.OutOfPhaseMessagesIgnored | main.c:577-611 | a registration while inactive or a write while active leaves the whole state unchanged, address space included |
| BridgeSpec.ShutdownIdempotent | main.c:613-624 | Shutdown releases the flag buffer and stops the server loop; nothing else changes: the new state is the old one with the flags emptied, both shutdown gates released and the server loop flag cleared; a second Shutdown changes nothing more |
| BridgeSpec.WriteMarksFlag | main.c:34-117 | after a write to an existing typed node, the (message kind, index) flag is set when its array holds the slot, no other flag changes, and this holds whether or not the copy and write succeed; only the address space and the flags can change; a missing node, a failed read or an untyped value changes nothing, and a failed read of an existing node returns the read's status |
| BridgeSpec.WriteUsesStoredType | main.c:34-53 | the value written takes the node's stored type, independent of the message's typeKind; only the addressed node's value can change |
| BridgeSpec.WatcherIdle | main.c:144-150 | with registration active, a null context or value, or descriptor 0, the watcher changes nothing |
| BridgeSpec.WatcherConsumesOrForwards | main.c:150-253 | a set flag is cleared and nothing is sent; a clear flag stays clear and the only change is one appended WriteVariable record with the slot's index, kind and payload |
| BridgeSpec.StringPayload | main.c:240-245 | a string payload copies min(length, 31) bytes followed by a NUL, inside the 32-byte value field |
| BridgeSpec.FixedPayload | main.c:164-233 | a fixed-width payload carries the value's first Width() bytes and zeros after them |
| BridgeSpec.RegistrationMarksSlot | main.c:280-370 | with capacity > 0 and a known kind, the kind's array exists afterwards iff it existed or calloc succeeded (sized to the capacity when new), and the slot's flag is set when the array holds it; no other flag and no other kind's array changes; a failed calloc, capacity 0 or an unknown kind changes no flag; only the flags, address space and monitored items can change |
| BridgeSpec.RegistrationAddsNode | main.c:428-466 | the registered node is added with its type, initial value, access level and description unless the name is taken or the add fails; no other node changes |
| BridgeSpec.RegistrationMonitors | main.c:468-538 | a monitored item is created only for an added READWRITE variable, with the kind and slot in its context and the deadband filter for its kind |
| BridgeSpec.RegistrationStringValue | main.c:428-446 | a string variable's node holds the registered text bounded to 31 bytes |
| BridgeSpec.WatcherForwardsUnknownKind | main.c:150-253 | for a type code outside the twelve kinds no flag is tested; the only change is one appended record whose value is one byte of the report followed by zeros |
| BridgeSpec.WriteSuppressesOneEcho | main.c:53-253 | a write whose read succeeds suppresses exactly one notification for its slot; the next one is forwarded |
| BridgeSpec.RunConcat | main.c:640-645 | dispatching two batches one after the other is dispatching their concatenation, in arrival order |
| BridgeSpec.DrainStopsAtFailure | main.c:640-645 | the drain loop dispatches exactly the messages before the first failed receive |
| BridgeSpec.DrainPrefix | main.c:640-645 | the loop processes exactly the positive receives before the first non-positive one |
| BridgeSpec.BooleanX | main.h:113-123 | the scenario's registration record is well formed |
| BridgeSpec.ScenarioRun | main.c:563-598 | Start, a read-write boolean registration in slot 0 with capacity 1, and End leave exactly the expected node, monitored item and set flag |
| BridgeSpec.RegistrationScenario | main.c:143-598 | after that registration the first change report for the node is swallowed and the second is sent as one WriteVariable record carrying its boolean value |
| Bridge.MemCopy | main.c:163-243 | memcpy sets the first n bytes from the source and leaves the rest alone |
| Bridge.CopyString | main.c:235-245 | the string branch fills the value field exactly as Payload says |
| Bridge.CopyFixed | main.c:164-233 | a fixed-width branch fills the value field exactly as Payload says |
| Bridge.BuildPayload | main.c:158-251 | the watcher's message value is Payload of the context's kind and the value |
| Bridge.Bridge.constructor | main.h:26-93 | the globals start as Initial: registration inactive, server loop flag true, gates clear, outbound descriptor -1 |
| Bridge.Bridge.SetOutboundQueue | main.c:692-704 | only the outbound descriptor changes |
| Bridge.Bridge.WriteServerVariable | main.c:19-120 | the new state is WriteVar of the old state and the returned status is WriteResult |
| Bridge.Bridge.MarkRegisteredSlot | main.c:280-370 | the flag buffer becomes RegisteredFlags of the old one and calloc's outcome |
| Bridge.Bridge.RegisteredValue | main.c:428-446 | the node value computed, through CheckUaStringLength for strings, is ValueImage |
| Bridge.Bridge.AddNode | main.c:448-538 | the state becomes AddedNode of the old state |
| Bridge.Bridge.AddVariableToOpcUaServer | main.c:270-539 | the new state is Register of the old state |
| Bridge.Bridge.GlobalDataChangeCallback | main.c:143-255 | the new state is Notify of the old state |
| Bridge.Bridge.ShutDown | main.c:613-624 | the new state is ShutDownState of the old state, with every flag array released |
| Bridge.Bridge.IncomingPacketManager | main.c:563-633 | the new state is Dispatch of the old state and the message |
| Bridge.Bridge.CodesysToOpcUaMessageHandler | main.c:635-646 | the new state is Drain of the old state and the receive results |
| Findings.AsWrittenNeverAllocates | main.c:257-288 | as written, no sequence of registrations ever allocates a flag array |
| Findings.CorrectedAllocationMarksSlot | main.c:281-288 | as written the first boolean registration leaves the buffer empty; corrected, it creates a one-flag array with slot 0 set |
| Findings.DoubleShutdownFrees | main.c:541-561 | as written a second Shutdown frees every array again; corrected, nothing is freed twice |
| Findings.StringWriteCounterexample | main.c:44 | as written, the value "ON" is read as a UA_String of length 0x4E4F with a NULL data pointer |
| Findings.CorrectedStringWrite | main.c:44-47 | corrected, a write to a String node stores the message's text bounded to 31 bytes |

## Left out

- Threads and the condition-variable gates (main.c:3-17, 765-906) are left out because they exist only for concurrency. Only the three gates the dispatcher releases are kept, as booleans: variable-init, inbound shutdown and outbound shutdown. The three ready gates are set by thread bodies and are not modelled.
- The thread bodies (main.c:656-763) are not modelled: queue setup and teardown, re-arming the notification, server configuration and the server run loop. Only their effect on the outbound descriptor is kept, in `SetOutboundQueue`.
- The message-queue library under `include/mqueue` is not part of this model. A receive is a `Receive` value, and a send appends to `outbox` without modelling send failure.
- open62541 itself is outside the model: node ids, variants, locale texts, and the add, read, write and monitored-item calls. The address space is a map from name to `Node`. The success of each call (add, read, copy, write, monitored-item creation) and of calloc is an `EngineOutcome` field, and a duplicate name makes the add fail. A failed read is one status, `BadRead`, rather than the engine's own code.
- Deadband evaluation happens inside the engine on doubles. Only the filter that is requested is modelled.
- The `DEBUG` output (main.c:372-426 and the other `#ifdef DEBUG` blocks) is left out.
- Bytes past a message's received length are treated as zero. The source reads stale bytes left in the receive buffer by earlier messages, for example when a message shorter than four bytes is dispatched on its header.
- CString.FieldText and CString.BoundedText: a name, description or string value that fills its field with no NUL makes the source's `strlen` and `strnlen` read into the next field. The model stops at the field's end.
- BridgeSpec.Prefix: when the engine's value is shorter than the kind's width, the source's memcpy reads past it. The model pads with zeros.
- AddressSpace.ValueImage: for a type code outside the twelve kinds the source hands the raw field to `UA_TYPES[typeKind]`, including codes past the end of the type table. The model keeps the whole field as the value.
- FlagBuffer.ChangeFlagBuffer.Store and FlagBuffer.ChangeFlagBuffer.TestAndClear: the source indexes flag arrays without a bounds check (main.c:56, 159, 288), and the watcher does not check the array for NULL. Both are modelled as guarded no-ops, which is weaker than the source's undefined behaviour.
- FlagBuffer.ChangeFlagBuffer: the twelve pointer fields of `change_flag_buffer` are one `map<Kind, array<byte>>`. A kind absent from the map is a NULL field.
- CString.CheckUaStringLength: the OK branch that writes a NUL at `strnlen` (main.c:135-138) cannot be taken, because strnlen stops at a NUL. It is proved unreachable instead of modelled.
- Bridge.Bridge.AddVariableToOpcUaServer: after an overflow the source copies `MAX_STRING_VALUE` bytes from the string's data onto the message's value field (main.c:437). `UA_STRING` does not copy, so the data is that same field and the copy changes nothing; the truncation itself is the in-place NUL of `CheckUaStringLength` (main.c:130).
- Bridge.Bridge.WriteServerVariable: for a String node the model stores the message's text bounded to 31 bytes, the corrected behaviour. The source hands the raw value bytes over as a UA_String (main.c:44); `Findings.StringWriteCounterexample` models that. `BridgeSpec.WriteVar` takes the same correction.
- FlagBuffer.ChangeFlagBuffer.Allocate: stores the new array in the buffer field, the corrected behaviour; `Findings.AsWrittenNeverAllocates` models the source as written (main.c:264).
- FlagBuffer.ChangeFlagBuffer.Release: leaves every field NULL, the corrected behaviour; `Findings.DoubleShutdownFrees` models the source as written (main.c:544).
- The monitored item's fixed request parameters are not kept (main.c:484-493): sampling interval 1000 ms, queue size 10, discard-oldest, reporting mode and the status-value trigger. Nothing in the bridge reads them back.
- The message's value pointer and name pointer are never NULL in WriteServerVariable (main.c:25-27), since both are arrays inside the message. That check is not modelled.

## Findings

| source | as written | input that shows it | evidently intended | confidence | as-written member | corrected member |
|---|---|---|---|---|---|---|
| main.c:257-268 | AllocateMemory assigns calloc's result to its by-value parameter, so `OpcUaChangeFlagBuffer` never receives an array. Every flag write is skipped, and the watcher's flag read dereferences NULL. | any registration with capacity 1, e.g. a boolean in slot 0 | store the new array in the registry field | not executed | Findings.AsWrittenNeverAllocates | FlagBuffer.ChangeFlagBuffer.Allocate |
| main.c:541-546 | FreeChangeFlagBufferStructs sets only its local copy to NULL. Once arrays are allocated, a second Shutdown message frees them again. | two Shutdown messages after one registration | set each registry field to NULL after freeing it | not executed | Findings.DoubleShutdownFrees | FlagBuffer.ChangeFlagBuffer.Release |
| main.c:44 | For a String node, the write passes the message's raw text bytes to UA_Variant_setScalarCopy as if they were a UA_String. The text's first eight bytes become the length and the next eight the data pointer. | write "ON" to a String node: it is read as a UA_String of length 0x4E4F (20047) with a NULL data pointer, where 2 bytes were meant | build a UA_String from the text, bounded as at registration | not executed | Findings.StringWriteCounterexample | Findings.CorrectedStringWrite |
