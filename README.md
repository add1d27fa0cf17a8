# JTango event control frames and class-attribute registry, in Dafny

This project models two parts of JTango, the Java implementation of the Tango control system.

The first is the ZMQ event consumer's control-frame protocol (`ZMQutils`). A frame is one
command byte, then NUL-terminated strings, then 32-bit integers, least significant byte first.
The model covers:
- the encoder (`buildTheBuffer`, `codeInteger`) and the decoder (`decodeControlBuffer`,
  `getString`, `decodeInteger`, `getInteger`);
- the four frame builders that turn an admin device's subscription reply into control frames;
- the canonical event and heartbeat names;
- the lookup of an event type from the suffix of a full event name;
- the four-byte alignment prefix dropped before an event payload is unmarshalled.

The second is `MultiClassAttribute`: the per-class list of attributes. It is searched by name
(`get_attr`), and `init_class_attribute` gives attributes their class-level properties from a
database reply.

Modules:
- `Results`: the error reasons and the `Option`/`Result` types.
- `JavaRuntime`: `byte`/`int` and their casts, `String.getBytes`, `new String(byte[])`,
  `toLowerCase` and `lastIndexOf`.
- `ControlCodec`: the frame format.
- `EventNames`: the names and the event-type lookup.
- `SubscriptionFrames`: the four builders and the control reply.
- `PayloadDecoder`: the alignment strip.
- `ClassAttributes`: the attribute registry.

The Java code that works step by step is written as Dafny methods:
- `buildTheBuffer`, `getString` and `decodeInteger` are loops over arrays with loop invariants;
- `getInteger` copies four array elements and decodes them;
- `decodeControlBuffer` threads a running index through the array with no loop, as the Java does;
- `getEventType` is a loop over the event-name table;
- `get_attr` and `init_class_attribute` are loops over the registry's attribute list, and
  `init_class_attribute` updates the attribute objects in place.

Each method is proved equal to a specification function, or states its effect on the registry
directly. The
properties of the protocol are lemmas about those functions. The main ones:
- every Java int survives `codeInteger`/`decodeInteger`, and every 4-byte sequence survives the
  reverse trip;
- decoding an encoded frame gives back the command, the strings and, for CONNECT_EVENT, the
  three integers;
- each builder's frame decodes to the names and subscription parameters it was built from.

Outside inputs are parameters of the model:
- the Tango host, as `ApiUtil.get_db_obj().getFullTangoHost()` returns it, or its failure;
- the table of event names (`TangoConst.eventNames`);
- the CDR reader;
- the database reply to `get_class_attribute_property`;
- the `Util._UseDb` switch.

Where the code acts differently from the design description of the system, the model follows
the code:
- Only `getBufferToDisConnectEvent` catches a failed host lookup and reports it as
  `API_ConversionFailed`. The other three builders rethrow the `DevFailed` unchanged; only the
  Java runtime exceptions they raise, such as a missing `svalue` or `lvalue` entry, become
  `API_ConversionFailed`.
- `buildTheBuffer` counts the integers in the size only when there is at least one string. An
  integer list without strings therefore overruns the one-byte buffer.
- When `getString` finds no terminator, its string ends one byte before the buffer's end,
  leaving out the last byte.
- `getEventType` also fails when the only '.' is the name's first character, since it needs the
  last '.' to sit past index 0.
- `init_class_attribute` ends with a trace loop, and that loop reads every selected position
  even when the database is not in use. So a `base` outside the list fails in every case.
- When the database reply in `init_class_attribute` is shorter than the selection, the call
  fails only after the attributes before the missing entry were updated.

## Model

| member | source | states |
|---|---|---|
| JavaRuntime.ToByte | dao/src/fr/esrf/TangoApi/events/ZMQutils.java:197 | The `(byte)` cast keeps the value's low 8 bits: the result is congruent to the input modulo 256 and lies in -128..127 |
| JavaRuntime.Unsigned | dao/src/fr/esrf/TangoApi/events/ZMQutils.java:211 | `b & 0xFF` is the byte's bit pattern as a value in 0..255, congruent to the byte modulo 256 |
| JavaRuntime.ToInt | dao/src/fr/esrf/TangoApi/events/ZMQutils.java:212 | Java `int` arithmetic wraps: the result is the 32-bit int congruent to the value modulo 2^32 |
| JavaRuntime.ToByteOfUnsigned | dao/src/fr/esrf/TangoApi/events/ZMQutils.java:211 | Casting a byte's unsigned value back to `byte` gives the byte again |
| JavaRuntime.UnsignedOfToByte | dao/src/fr/esrf/TangoApi/events/ZMQutils.java:197 | The unsigned value of `(byte)x` is `x mod 256` |
| JavaRuntime.GetBytes | dao/src/fr/esrf/TangoApi/events/ZMQutils.java:141 | `getBytes` gives one byte per character, so the byte count equals `s.length()` |
| JavaRuntime.NewString | dao/src/fr/esrf/TangoApi/events/ZMQutils.java:185 | `new String(b)` gives one character per byte |
| JavaRuntime.GetBytesNonZero | dao/src/fr/esrf/TangoApi/events/ZMQutils.java:141-146 | ASCII text without NUL never encodes to a zero byte, so only the separator is zero |
| JavaRuntime.NewStringOfGetBytes | dao/src/fr/esrf/TangoApi/events/ZMQutils.java:185 | `new String(s.getBytes())` is `s` for ASCII text |
| JavaRuntime.AsciiTextConcat | dao/src/fr/esrf/TangoApi/events/ZMQutils.java:268-269 | Concatenating ASCII text gives ASCII text |
| JavaRuntime.ToLowerCase | dao/src/fr/esrf/TangoApi/events/ZMQutils.java:269 | `toLowerCase` keeps the length |
| JavaRuntime.ToLowerCaseIsLower | dao/src/fr/esrf/TangoApi/events/ZMQutils.java:269 | After `toLowerCase` no upper-case letter is left |
| JavaRuntime.ToLowerCaseIdempotent | dao/src/fr/esrf/TangoApi/events/ZMQutils.java:269 | Lower-casing twice is lower-casing once |
| JavaRuntime.ToLowerCaseOfLower | dao/src/fr/esrf/TangoApi/events/ZMQutils.java:269 | Text with no upper-case letter is unchanged by `toLowerCase` |
| JavaRuntime.ToLowerCaseAscii | dao/src/fr/esrf/TangoApi/events/ZMQutils.java:269 | Lower-casing keeps text ASCII and free of NUL |
| JavaRuntime.ToLowerCaseConcat | dao/src/fr/esrf/TangoApi/events/ZMQutils.java:268-269 | Lower-casing a concatenation lower-cases each part |
| JavaRuntime.LastIndexOf | dao/src/fr/esrf/TangoApi/events/ZMQutils.java:537 | `lastIndexOf(c)` is -1 or a position holding `c` with no `c` after it |
| ControlCodec.CodeInteger | dao/src/fr/esrf/TangoApi/events/ZMQutils.java:194-200 | `codeInteger` yields exactly 4 bytes |
| ControlCodec.DecodeInteger | dao/src/fr/esrf/TangoApi/events/ZMQutils.java:208-215 | The accumulating loop computes the little-endian two's-complement int of the 4 bytes |
| ControlCodec.ToIntAdd | dao/src/fr/esrf/TangoApi/events/ZMQutils.java:212 | The running `value += x` may wrap at every step without changing the final 32-bit result |
| ControlCodec.Digits | dao/src/fr/esrf/TangoApi/events/ZMQutils.java:197 | The base-256 digits `(v >> 8i) & 0xFF` of a 4-digit value are its digits |
| ControlCodec.NestedDivision | dao/src/fr/esrf/TangoApi/events/ZMQutils.java:197 | Shifting right by 8 twice is shifting by 16, and so on |
| ControlCodec.ToIntOfShift | dao/src/fr/esrf/TangoApi/events/ZMQutils.java:212 | Adding a multiple of 2^32 to an int does not change what it wraps to |
| ControlCodec.ChainDigits | dao/src/fr/esrf/TangoApi/events/ZMQutils.java:197 | Four quotient-and-remainder steps give a four-digit expansion |
| ControlCodec.Expansion | dao/src/fr/esrf/TangoApi/events/ZMQutils.java:196-198 | Every int is the sum of the four bytes `codeInteger` extracts, up to a multiple of 2^32 |
| ControlCodec.IntegerRoundTrip | dao/src/fr/esrf/TangoApi/events/ZMQutils.java:194-215 | decodeInteger(codeInteger(v)) == v for every Java int, -1 and Integer.MIN_VALUE included |
| ControlCodec.BytesRoundTrip | dao/src/fr/esrf/TangoApi/events/ZMQutils.java:194-215 | codeInteger(decodeInteger(b)) == b for every 4-byte sequence |
| ControlCodec.ByteOfDigit | dao/src/fr/esrf/TangoApi/events/ZMQutils.java:197 | `(byte)x` is `b` when `x` and `b` agree in their low 8 bits |
| ControlCodec.UnsignedInjective | dao/src/fr/esrf/TangoApi/events/ZMQutils.java:211 | Two bytes with the same `& 0xFF` value are equal |
| ControlCodec.GetInteger | dao/src/fr/esrf/TangoApi/events/ZMQutils.java:224-229 | getInteger decodes the 4 bytes at `start`, failing with an index error when fewer remain |
| ControlCodec.IntegerAtCode | dao/src/fr/esrf/TangoApi/events/ZMQutils.java:224-229 | An int coded at any offset of a buffer is read back there |
| ControlCodec.TerminatorIndex | dao/src/fr/esrf/TangoApi/events/ZMQutils.java:171-176 | The scan stops at the first zero at or after `start`, or, with no zero, at the buffer's last index |
| ControlCodec.GetString | dao/src/fr/esrf/TangoApi/events/ZMQutils.java:169-186 | getString returns the bytes from `start` to the scan's end as text, and API_BadSyntax when that leaves nothing |
| ControlCodec.StringAtCases | dao/src/fr/esrf/TangoApi/events/ZMQutils.java:169-186 | The string read is [start, first zero). With no zero it is [start, length-1), dropping the last byte. An empty read is API_BadSyntax |
| ControlCodec.TerminatorAtFirstZero | dao/src/fr/esrf/TangoApi/events/ZMQutils.java:172-174 | When `z` is the first zero at or after `start`, the scan ends at `z` |
| ControlCodec.TerminatorWithoutZero | dao/src/fr/esrf/TangoApi/events/ZMQutils.java:175-176 | With no zero after `start`, the scan ends at the buffer's last index |
| ControlCodec.StringAtTerminated | dao/src/fr/esrf/TangoApi/events/ZMQutils.java:169-186 | A NUL-free ASCII string written with its terminator is read back exactly, whatever surrounds it |
| ControlCodec.StringsSnoc | dao/src/fr/esrf/TangoApi/events/ZMQutils.java:139-147 | Appending a string adds its bytes and one zero to the section, and its length plus one to the size |
| ControlCodec.IntsSnoc | dao/src/fr/esrf/TangoApi/events/ZMQutils.java:150-155 | Appending an int adds its 4 coded bytes to the section |
| ControlCodec.StringsFieldLength | dao/src/fr/esrf/TangoApi/events/ZMQutils.java:122-147 | The string section is exactly as long as the size reserved for it |
| ControlCodec.IntsField | dao/src/fr/esrf/TangoApi/events/ZMQutils.java:150-155 | The integer section is 4 bytes per int |
| ControlCodec.IntsFieldPrefix | dao/src/fr/esrf/TangoApi/events/ZMQutils.java:150-155 | The integer section of the first k ints is the first 4k bytes of the whole section |
| ControlCodec.TruncatedIntsField | dao/src/fr/esrf/TangoApi/events/ZMQutils.java:150-155 | The first n bytes of the integer section, with n inside int k's code, are the codes of the ints before k followed by the first n - 4k bytes of int k's code |
| ControlCodec.FailedIntsWrite | dao/src/fr/esrf/TangoApi/events/ZMQutils.java:149-156 | A write of the ints that stops after n bytes, inside int k's code, leaves the prefix followed by the first n bytes of the integer section |
| ControlCodec.StringsSizePrefix | dao/src/fr/esrf/TangoApi/events/ZMQutils.java:127-128 | The size reserved for a prefix of the strings never exceeds that of the whole list |
| ControlCodec.CopyBytes | dao/src/fr/esrf/TangoApi/events/ZMQutils.java:142-143 | The copy loop appends the bytes at the running index and leaves the bytes after them unchanged. It fails exactly when they would run past the buffer, and then it has filled the buffer to its end with their first bytes |
| ControlCodec.AllocationSize | dao/src/fr/esrf/TangoApi/events/ZMQutils.java:124-133 | The allocated size is 1 + Σ(length + 1), plus 4 per int only when there are strings |
| ControlCodec.WriteStrings | dao/src/fr/esrf/TangoApi/events/ZMQutils.java:137-147 | After the command byte, every string's bytes are written in order, each followed by one zero; the bytes after the strings are unchanged |
| ControlCodec.WriteInts | dao/src/fr/esrf/TangoApi/events/ZMQutils.java:149-156 | The ints are written as 4 coded bytes each, in order, and the bytes after them are unchanged. The write fails exactly when the ints overrun the buffer, and then the buffer is filled to its end with the first bytes of the integer section |
| ControlCodec.BuildTheBuffer | dao/src/fr/esrf/TangoApi/events/ZMQutils.java:122-159 | buildTheBuffer returns a new array holding the encoded frame, or fails with an index error when ints come without strings |
| ControlCodec.EncodedLength | dao/src/fr/esrf/TangoApi/events/ZMQutils.java:122-134 | The frame is 1 + Σ(length + 1) + 4·\|ints\| bytes long with strings and 1 byte with none, and byte 0 is the command |
| ControlCodec.StringsFieldAt | dao/src/fr/esrf/TangoApi/events/ZMQutils.java:139-147 | String k sits after the reserved sizes of the strings before it, followed by exactly one zero |
| ControlCodec.IntsFieldAt | dao/src/fr/esrf/TangoApi/events/ZMQutils.java:150-155 | Int j fills bytes 4j..4j+3 of the integer section |
| ControlCodec.EncodedStringAt | dao/src/fr/esrf/TangoApi/events/ZMQutils.java:137-147 | In the frame, string k starts at 1 + Σ_{i<k}(length_i + 1) and is followed by one zero |
| ControlCodec.EncodedIntAt | dao/src/fr/esrf/TangoApi/events/ZMQutils.java:149-156 | The ints fill the frame's last 4·\|ints\| bytes, in list order |
| ControlCodec.DecodeControlBuffer | dao/src/fr/esrf/TangoApi/events/ZMQutils.java:563-607 | decodeControlBuffer's running-index reads give exactly the decoding specified per command by `Decoded` |
| ControlCodec.DecodedConnectHeartbeat | dao/src/fr/esrf/TangoApi/events/ZMQutils.java:574-579 | CONNECT_HEARTBEAT reads the end point at 1 and the name right after its zero, leaving the ints at 0 |
| ControlCodec.DecodedConnectEvent | dao/src/fr/esrf/TangoApi/events/ZMQutils.java:585-594 | CONNECT_EVENT reads the end point, the name, then hwm, rate and ivl right after the name's zero |
| ControlCodec.RoundTripOneString | dao/src/fr/esrf/TangoApi/events/ZMQutils.java:581-598 | A DISCONNECT_HEARTBEAT or DISCONNECT_EVENT frame is the command byte, the name and a zero, and decodes to that name |
| ControlCodec.StringsFieldPair | dao/src/fr/esrf/TangoApi/events/ZMQutils.java:139-147 | Two strings are laid out as bytes, zero, bytes, zero |
| ControlCodec.IntsFieldTriple | dao/src/fr/esrf/TangoApi/events/ZMQutils.java:150-155 | Three ints are laid out as their three codes in order |
| ControlCodec.TwoStringsAt | dao/src/fr/esrf/TangoApi/events/ZMQutils.java:576-588 | Both strings of a two-string frame are read back at the positions the decoder reads them, whatever follows |
| ControlCodec.RoundTripHeartbeat | dao/src/fr/esrf/TangoApi/events/ZMQutils.java:574-579 | A CONNECT_HEARTBEAT frame decodes to its end point and name with the ints at 0 |
| ControlCodec.RoundTripEvent | dao/src/fr/esrf/TangoApi/events/ZMQutils.java:585-594 | A CONNECT_EVENT frame decodes to its end point, name, hwm, rate and ivl exactly |
| ControlCodec.EncodedConnectEvent | dao/src/fr/esrf/TangoApi/events/ZMQutils.java:122-159 | The CONNECT_EVENT frame is the command byte, both strings with their zeros, then the three codes |
| ControlCodec.ThreeIntegersAt | dao/src/fr/esrf/TangoApi/events/ZMQutils.java:590-592 | Three ints coded after a prefix are read at the prefix's end and 4 and 8 bytes on |
| ControlCodec.DecodeEncodeRoundTrip | dao/src/fr/esrf/TangoApi/events/ZMQutils.java:570-598 | For every command laid out as the decoder expects, decoding the encoded frame recovers the command and the strings, plus the ints for CONNECT_EVENT; other commands leave the ints at 0 |
| ControlCodec.UnknownCommandRejected | dao/src/fr/esrf/TangoApi/events/ZMQutils.java:600-603 | A first byte outside 0..4 is refused with API_NotImplemented naming that code |
| ControlCodec.EmptyStringRejected | dao/src/fr/esrf/TangoApi/events/ZMQutils.java:177-181 | A command other than END whose first string is empty is refused with API_BadSyntax |
| ControlCodec.EmptyBufferRejected | dao/src/fr/esrf/TangoApi/events/ZMQutils.java:568 | An empty buffer fails on reading its command byte |
| ControlCodec.TruncatedIntsRejected | dao/src/fr/esrf/TangoApi/events/ZMQutils.java:590-592 | A CONNECT_EVENT frame cut short in its ints fails with an index error |
| EventNames.FullAttributeName | dao/src/fr/esrf/TangoApi/events/ZMQutils.java:267-270 | The full event name is lower case and exactly as long as its parts plus the three separators; a host-lookup failure propagates. `FullAttributeNameParts` states where each part goes |
| EventNames.FullAttributeNameParts | dao/src/fr/esrf/TangoApi/events/ZMQutils.java:267-270 | The full event name is "tango://", the host, "/", the device, "/", the attribute, "." and the event, in that order, each part lower-cased |
| EventNames.FullHeartBeatName | dao/src/fr/esrf/TangoApi/events/ZMQutils.java:279-282 | A host-lookup failure propagates |
| EventNames.HeartBeatNameParts | dao/src/fr/esrf/TangoApi/events/ZMQutils.java:279-282 | The heartbeat name is "tango://", the host, "/", the device name with its case kept, then ".heartbeat" |
| EventNames.FullAttributeNameIgnoresCase | dao/src/fr/esrf/TangoApi/events/ZMQutils.java:267-270 | The full event name is the same whatever case its parts are written in |
| EventNames.LowerCharIdempotentAt | dao/src/fr/esrf/TangoApi/events/ZMQutils.java:269 | A character and its lower-cased form lower-case alike |
| EventNames.FullAttributeNameIsWireText | dao/src/fr/esrf/TangoApi/events/ZMQutils.java:267-270 | A full event name built from ASCII parts is non-empty ASCII text without NUL |
| EventNames.FullHeartBeatNameIsWireText | dao/src/fr/esrf/TangoApi/events/ZMQutils.java:279-282 | A heartbeat name built from ASCII parts is non-empty ASCII text without NUL |
| EventNames.IndexOf | dao/src/fr/esrf/TangoApi/events/ZMQutils.java:540-542 | The first table index holding the entry, or -1 when it is absent |
| EventNames.EventTypeOf | dao/src/fr/esrf/TangoApi/events/ZMQutils.java:535-549 | Succeeds exactly when the last '.' is past index 0 and the suffix after it is in the table; then it is the first index holding that suffix, otherwise Api_BadParameterException |
| EventNames.GetEventType | dao/src/fr/esrf/TangoApi/events/ZMQutils.java:535-549 | The scanning loop finds exactly the event type `EventTypeOf` specifies |
| EventNames.EventTypeOfFullAttributeName | dao/src/fr/esrf/TangoApi/events/ZMQutils.java:535-549 | When the event part holds no '.', getEventType of a full event name is the index of the lower-cased event part, and fails when that is not in the table |
| EventNames.EventTypeOfHeartBeatName | dao/src/fr/esrf/TangoApi/events/ZMQutils.java:535-549 | getEventType of a heartbeat name is the index of "heartbeat" |
| EventNames.AttributeNameExample | dao/src/fr/esrf/TangoApi/events/ZMQutils.java:267-270 | "Sys/Tg/1", "Ampli", "CHANGE" on "Host:1" name the same event as their lower-case forms |
| EventNames.HeartBeatNameExample | dao/src/fr/esrf/TangoApi/events/ZMQutils.java:279-282 | Device names differing only in case give different heartbeat names |
| EventNames.EventTypeExamples | dao/src/fr/esrf/TangoApi/events/ZMQutils.java:535-549 | "tango://h/d/a.periodic" resolves to the "periodic" entry; a name without '.' fails |
| SubscriptionFrames.BufferToDisConnectEvent | dao/src/fr/esrf/TangoApi/events/ZMQutils.java:306-319 | Fails exactly when the host lookup fails, and then with API_ConversionFailed wrapping that failure. Success relies on one byte per character; a multi-byte charset is under "Left out" |
| SubscriptionFrames.BufferToConnectEvent | dao/src/fr/esrf/TangoApi/events/ZMQutils.java:346-367 | Succeeds exactly with two svalue entries, a host and five lvalue entries; a missing entry is API_ConversionFailed, a host failure passes through unchanged. Success relies on one byte per character; a multi-byte charset is under "Left out" |
| SubscriptionFrames.BufferToConnectHeartbeat | dao/src/fr/esrf/TangoApi/events/ZMQutils.java:390-406 | Succeeds exactly with one svalue entry and a host; a missing entry is API_ConversionFailed, a host failure passes through unchanged. Success relies on one byte per character; a multi-byte charset is under "Left out" |
| SubscriptionFrames.BufferToDisconnectHeartbeat | dao/src/fr/esrf/TangoApi/events/ZMQutils.java:416-431 | Succeeds exactly when the host lookup succeeds; a host failure passes through unchanged. Success relies on one byte per character; a multi-byte charset is under "Left out" |
| SubscriptionFrames.ControlReply | dao/src/fr/esrf/TangoApi/events/ZMQutils.java:250-254 | Definition of how the reply is read: empty is success, anything else is API_InternalCommunicationError with the reply as text. Its meaning is stated by `ControlReplyCarriesMessage` |
| SubscriptionFrames.ControlReplyCarriesMessage | dao/src/fr/esrf/TangoApi/events/ZMQutils.java:250-254 | A reply holding the bytes of an ASCII message reports exactly that message as API_InternalCommunicationError, and an empty reply is success |
| SubscriptionFrames.DisConnectEventRoundTrip | dao/src/fr/esrf/TangoApi/events/ZMQutils.java:306-319 | The disconnect-event frame decodes to the full event name |
| SubscriptionFrames.ConnectEventRoundTrip | dao/src/fr/esrf/TangoApi/events/ZMQutils.java:346-367 | The connect-event frame decodes to svalue[1], the full event name and lvalue[2], lvalue[3], lvalue[4] |
| SubscriptionFrames.ConnectHeartbeatRoundTrip | dao/src/fr/esrf/TangoApi/events/ZMQutils.java:390-406 | The connect-heartbeat frame decodes to svalue[0] and the heartbeat name |
| SubscriptionFrames.DisconnectHeartbeatRoundTrip | dao/src/fr/esrf/TangoApi/events/ZMQutils.java:416-431 | The disconnect-heartbeat frame decodes to the heartbeat name |
| SubscriptionFrames.ConnectEventTypeAgrees | dao/src/fr/esrf/TangoApi/events/ZMQutils.java:346-367 | The event name decoded from a connect-event frame resolves to the table index of the subscribed event |
| PayloadDecoder.DeMarshall | dao/src/fr/esrf/TangoApi/events/ZMQutils.java:461-526 | Under 4 bytes fails with Api_ConvertionFailed; otherwise succeeds exactly when the reader succeeds on the bytes after the first 4, with its result; every failure is Api_ConvertionFailed |
| PayloadDecoder.DeMarshallReadsBody | dao/src/fr/esrf/TangoApi/events/ZMQutils.java:464-467 | The reader is given exactly the bytes after the 4-byte prefix, in the requested byte order |
| PayloadDecoder.AlignmentIrrelevant | dao/src/fr/esrf/TangoApi/events/ZMQutils.java:463-465 | Payloads differing only in their alignment bytes decode alike |
| ClassAttributes.Attr.constructor | Release_7_0_1/src/fr/esrf/TangoDs/MultiClassAttribute.java:147-160 | An attribute has a fixed name and starts with no class properties |
| ClassAttributes.PropertyList | Release_7_0_1/src/fr/esrf/TangoDs/MultiClassAttribute.java:148-158 | Definition of the property list built from one reply (its names paired with their values, in order). It is used by `Assigned` and by `InitClassAttribute`, whose inner loop is proved to build exactly this list |
| ClassAttributes.NameIndex | Release_7_0_1/src/fr/esrf/TangoDs/MultiClassAttribute.java:196-200 | The first position holding an attribute with that name, or -1 when there is none |
| ClassAttributes.SelectedCount | Release_7_0_1/src/fr/esrf/TangoDs/MultiClassAttribute.java:127-131 | Definition of how many attributes are selected (all when base is 0, else one). It is used by `InRange`, `SelectedNames` and `InitClassAttribute`; `SelectionCases` states what it means |
| ClassAttributes.SelectedNames | Release_7_0_1/src/fr/esrf/TangoDs/MultiClassAttribute.java:136-138 | Definition of the names sent to the database. It is used by `InitClassAttribute`, whose first loop is proved to build exactly this list; `SelectionCases` states what it holds |
| ClassAttributes.SelectionCases | Release_7_0_1/src/fr/esrf/TangoDs/MultiClassAttribute.java:127-138 | The selection lies inside the list exactly when base is 0 or a position after the first. With base 0 the database is asked about every attribute in list order, otherwise about the one at base alone |
| ClassAttributes.AssignedLastWins | Release_7_0_1/src/fr/esrf/TangoDs/MultiClassAttribute.java:145-161 | An attribute ends with the property list of the last selected position it sits at |
| ClassAttributes.AssignedDistinct | Release_7_0_1/src/fr/esrf/TangoDs/MultiClassAttribute.java:145-161 | With distinct attributes, the one at base + i gets exactly the i-th reply's property list |
| ClassAttributes.AssignedOutside | Release_7_0_1/src/fr/esrf/TangoDs/MultiClassAttribute.java:145-161 | An attribute at no selected position keeps its properties |
| ClassAttributes.MultiClassAttribute.constructor | Release_7_0_1/src/fr/esrf/TangoDs/MultiClassAttribute.java:106-109 | A new registry holds no attribute |
| ClassAttributes.MultiClassAttribute.GetAttrList | Release_7_0_1/src/fr/esrf/TangoDs/MultiClassAttribute.java:223-226 | Every attribute in the list get_attr_list hands out is found by get_attr under its name, at its own position or at an earlier one with the same name |
| ClassAttributes.MultiClassAttribute.AddAttr | Release_7_0_1/src/fr/esrf/TangoDs/MultiClassAttribute.java:223-226 | Adding an attribute through the returned list appends it and changes nothing else |
| ClassAttributes.MultiClassAttribute.GetAttr | Release_7_0_1/src/fr/esrf/TangoDs/MultiClassAttribute.java:186-214 | Succeeds exactly when some attribute has the name, with the first such attribute; otherwise API_AttrWrongDefined; the registry is not changed |
| ClassAttributes.MultiClassAttribute.InitClassAttribute | Release_7_0_1/src/fr/esrf/TangoDs/MultiClassAttribute.java:123-169 | A selection outside the list fails with nothing changed. With nothing selected or no database it succeeds unchanged, and a database failure is passed on unchanged. Otherwise each selected attribute gets its reply's property list (last position wins) and the others keep theirs; a short reply fails after the earlier updates |

## Left out

- `sendToZmqControlSocket`: the ZeroMQ REQ socket over `inproc://control` and the serialisation it provides are I/O and are not modelled. Only its reading of the reply is modelled (`ControlReply`).
- `disConnectEvent`, `connectEvent` and `connectHeartbeat`: each only builds a frame and hands it to the socket. The building is modelled; the sending is I/O.
- `getEventSubscriptionInfoFromAdmDevice`: a remote CORBA command. Its reply is the `LongStringArray` input of the builders.
- The process-wide `ZMQ.Context` and the `getInstance` singleton are shared transport state and are left out.
- The CDR decoding in `deMarshall*` (`CDRInputStream`, the `*Helper.read` calls and the Java objects built from them) is a foreign library. It is the `read` parameter of `DeMarshall`; only the 4-byte strip is modelled.
- The database: `getFullTangoHost` and `get_class_attribute_property` are inputs (a `Result` and a function), and `Util._UseDb` is a boolean parameter.
- Logging is not modelled: `printStackTrace`, `ApiUtil.printTrace`, `Util.out4`, `trace`, `dump` and `ControlStructure.toString`. The trace loop of `init_class_attribute` is kept only for the index errors it raises.
- Exception messages and origins are not modelled: errors carry their reason, plus the name or reply text where the reason needs it.
- Character sets: `getBytes` and `new String` are modelled one byte per character. This is exact for ASCII, and the round-trip lemmas require ASCII text without NUL. The platform's default charset and multi-byte encodings are not modelled.
- `BufferToDisConnectEvent`, `BufferToConnectEvent`, `BufferToConnectHeartbeat` and `BufferToDisconnectHeartbeat` promise success for any text, because of the one-byte-per-character model. Under a multi-byte default charset, `getBytes` of a non-ASCII name is longer than `length()`. Java's `buildTheBuffer` then writes past the end of its array, and the builder fails with `API_ConversionFailed`. The model does not capture that failure.
- `toLowerCase` is modelled on ASCII letters only; locale-dependent and non-ASCII case mapping is not modelled.
- `BuildTheBuffer`: the size is computed in unbounded integers, so a frame over 2^31 bytes, where Java's `int` size would overflow, is not modelled.
- Null arguments and the `NullPointerException`s they raise are not modelled; lists and strings are always present.
- `buildTheBuffer(command, stringList)`, the two-argument overload, is `Encoded` with an empty integer list.
- `MultiClassAttribute.GetAttrList`: Java hands out the `Vector` itself, and callers fill the registry through it. The model exposes the list as a value and models that filling as `AddAttr`; other changes through the alias are not modelled.
- `Attr.java` is not part of this model. `Attr` keeps only the name and the class properties that this registry uses.
- `DbAttribute` and `DbDatum` keep each property's name and value as strings. The reply's other accessors are not modelled.
- `EventNames.FullHeartBeatName`: its own contract states only failure propagation. The layout of the name is stated by `HeartBeatNameParts`, its case preservation by `HeartBeatNameExample`, and its text form by `FullHeartBeatNameIsWireText`.
- The naming examples are relational (mixed case against lower case, one differing letter) rather than comparisons of whole literal names.
- `idl/src/main/java/fr/esrf/Tango/TimeValListHelper.java` is generated CORBA glue with no logic of its own and is not modelled.
