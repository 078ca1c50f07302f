# HY316WW thermostat adapter — a verified Dafny model

This project models the HY316WW specialisation of the WThermostat firmware:
the layer that reads the thermostat MCU's serial status reports into
properties and writes local property changes back as serial frames.

- `types.dfy` (`Types`): the `byte` type (0..255) and `Option`, the model of a
  null pointer.
- `command_bytes.dfy` (`CommandBytes`): the command byte map set by
  `configureCommandBytes`. This covers the identifiers for power,
  temperatures, schedules mode, lock, schedule block, status mode and sensor
  selection, plus the schedule geometry (12 slots).
- `enum_property.dfy` (`EnumProperties`): the part of the property store the
  adapter uses. An enumerated string property holds its value list and its
  current value, and offers `getEnumString`, `setString` and `getEnumIndex`.
  `getEnumIndex` answers 0xFF when the value has no index.
- `schedule_codec.dfy` (`ScheduleCodec`): the schedule wire format as pure
  functions. A payload offset is a placeholder when it is 2, or when it is
  above 2 and `(offset + 2) % 4 == 0`; this is offset % 4 == 2.
  - `Pack` drops the placeholders (decode direction).
  - `Spread` re-inserts them as zeros and fills the other offsets from the
    store in order (encode direction).
  - `DecodedStore` and `EncodeFrame` are the store after an inbound schedule
    report and the outbound schedule frame.
- `status_dispatch.dfy` (`StatusDispatch`): what `processStatusCommand`
  decides for one report, as the function `Dispatch`, plus the outbound
  sensor-selection frame.
- `hy316ww.dfy` (`HY316WW`): the class `Thermostat`. It holds the
  received-frame buffer, the schedule store, the two enum properties, the
  reentrancy guard (`isReceivingDataFromMcu()`) and the `receivedSchedules()`
  flag. Its four methods follow the firmware's imperative code: the loops
  keep their write cursor `ii` and the `res` residue variable. The ten header
  writes of `schedulesToMcu` sit in the helper `PutScheduleHeader`. Each method is
  proved against the pure functions above. Transmitted frames are a ghost log,
  and the two notifications are ghost counters.

The decoder reads 32 payload offsets and so restores only `schedules[0..23]`.
The encoder writes 44 data offsets, which carry `schedules[0..32]`; the bytes
`schedules[24..32]` are sent but no decode reads them back. `DecodeOfEncode`
proves the 24-byte round trip, and `DecodedStore` states that bytes 24 onwards
are left alone by a decode.

## Model

| member | source | states |
|---|---|---|
| CommandBytes.AssignedIdsDistinct | WThermostat/src/WThermostat_HY316WW.h:17-32 | The eight identifiers the model assigns are pairwise distinct; the floor temperature is unsupported |
| EnumProperties.EnumProperty.constructor | WThermostat/src/WThermostat_HY316WW.h:42-52 | A new enum property holds the given value list and no value yet |
| EnumProperties.EnumProperty.GetEnumString | WThermostat/src/WThermostat_HY316WW.h:70-71 | The lookup answers an entry exactly when the index is inside the list, and then the entry at that index; otherwise null |
| EnumProperties.EnumProperty.SetString | WThermostat/src/WThermostat_HY316WW.h:72 | After setting, the value is the new string, and the answer says whether it differed from the old value |
| EnumProperties.EnumProperty.GetEnumIndex | WThermostat/src/WThermostat_HY316WW.h:229-230 | The index is 0xFF exactly when there is no value or it is not listed; otherwise it is in range and names the current value |
| EnumProperties.EnumIndexOfListed | WThermostat/src/WThermostat_HY316WW.h:229 | After a value is set from the list at position k, the enum index read back is k |
| ScheduleCodec.EncodedPayloadLength | WThermostat/src/WThermostat_HY316WW.h:185-202 | The encoder writes 12 * 3 + 8 = 44 data offsets |
| ScheduleCodec.FrameLength | WThermostat/src/WThermostat_HY316WW.h:221 | The schedule frame sent is 54 bytes long |
| ScheduleCodec.IsPlaceholder | WThermostat/src/WThermostat_HY316WW.h:166-168 | The skip test shared by the decoder (lines 166-168) and the encoder (lines 205-208); offsets 0 and 1 are never placeholders |
| ScheduleCodec.KeptCount | WThermostat/src/WThermostat_HY316WW.h:163-172 | The write cursor ii after n payload offsets: never more than n, and positive once an offset was read (offset 0 is data) |
| ScheduleCodec.PlaceholderIsResidueTwo | WThermostat/src/WThermostat_HY316WW.h:166-169 | The skip test (offset 2, or above 2 with (i+2)%4 == 0) holds exactly for offsets congruent to 2 mod 4; offsets 0 and 1 are kept |
| ScheduleCodec.KeptCountClosedForm | WThermostat/src/WThermostat_HY316WW.h:163-173 | After n payload offsets, the write cursor ii stands at n - (n+1)/4 |
| ScheduleCodec.KeptCountMonotone | WThermostat/src/WThermostat_HY316WW.h:169-172 | The cursor never moves back, and it moves forward past every data offset, so the order of the data bytes is kept |
| ScheduleCodec.Pack | WThermostat/src/WThermostat_HY316WW.h:164-175 | Packing n payload bytes yields as many bytes as there are data offsets below n |
| ScheduleCodec.PackStep | WThermostat/src/WThermostat_HY316WW.h:165-173 | One more payload offset appends its byte to the packed bytes, unless it is a placeholder |
| ScheduleCodec.PackAt | WThermostat/src/WThermostat_HY316WW.h:170-172 | The byte at data offset i is stored at store position KeptCount(i) |
| ScheduleCodec.PackFrom | WThermostat/src/WThermostat_HY316WW.h:164-175 | Every packed position holds the byte of some data offset: nothing else is stored |
| ScheduleCodec.Spread | WThermostat/src/WThermostat_HY316WW.h:204-219 | The encoded data region has exactly the requested number of offsets |
| ScheduleCodec.SpreadAt | WThermostat/src/WThermostat_HY316WW.h:205-218 | Each encoded data offset is 0 at a placeholder and holds the store byte at KeptCount(i) elsewhere |
| ScheduleCodec.SpreadPrefix | WThermostat/src/WThermostat_HY316WW.h:204-219 | The first m encoded offsets do not depend on how many more are encoded |
| ScheduleCodec.SpreadIgnoresTail | WThermostat/src/WThermostat_HY316WW.h:204-219 | Encoding n offsets reads only the first KeptCount(n) store bytes |
| ScheduleCodec.PackSpread | WThermostat/src/WThermostat_HY316WW.h:164-219 | Decoding an encoded data region returns exactly the store bytes the encoding consumed |
| ScheduleCodec.SpreadPack | WThermostat/src/WThermostat_HY316WW.h:164-219 | Encoding a decoded payload returns the payload, when its placeholder bytes were zero |
| ScheduleCodec.DecoderSkips | WThermostat/src/WThermostat_HY316WW.h:164-173 | Of the 32 payload offsets, the decoder skips exactly {2,6,10,14,18,22,26,30} |
| ScheduleCodec.DecoderKeeps | WThermostat/src/WThermostat_HY316WW.h:163-172 | After the 32 payload offsets the decoder's cursor stands at 24: it keeps 24 bytes |
| ScheduleCodec.EncoderConsumes | WThermostat/src/WThermostat_HY316WW.h:202-219 | The encoder's 44 data offsets read 33 store bytes, schedules[0..32] |
| ScheduleCodec.DecodedStore | WThermostat/src/WThermostat_HY316WW.h:157-175 | Decoding keeps the store's length and leaves schedules[24..] unchanged |
| ScheduleCodec.DecodedStoreAt | WThermostat/src/WThermostat_HY316WW.h:164-175 | After decoding, each kept payload byte sits at its store position, which is below 24 |
| ScheduleCodec.DecodeChanges | WThermostat/src/WThermostat_HY316WW.h:170 | When the change flag stays down, the packed payload equals schedules[0..23] |
| ScheduleCodec.DecodeChangesIff | WThermostat/src/WThermostat_HY316WW.h:170-178 | The change flag is raised exactly when the packed payload differs from schedules[0..23] |
| ScheduleCodec.DecodeIdempotent | WThermostat/src/WThermostat_HY316WW.h:157-180 | Decoding the same payload again leaves the store as it is and raises no change |
| ScheduleCodec.ScheduleHeader | WThermostat/src/WThermostat_HY316WW.h:190-199 | The header is 10 bytes, with the data length 0x0D at offset 5, the schedule identifier 0x77 at offset 6 and the function length 0x09 at offset 9 |
| ScheduleCodec.EncodeFrame | WThermostat/src/WThermostat_HY316WW.h:189-219 | The outbound schedule frame is 54 bytes and starts with the schedule header |
| ScheduleCodec.EncodeFrameLayout | WThermostat/src/WThermostat_HY316WW.h:185-219 | The frame is 54 bytes, headed 55 aa 03 07 00 0D 77 00 00 09; each placeholder data offset is 0 and the others hold schedules[0..32] in order |
| ScheduleCodec.DecodeOfEncode | WThermostat/src/WThermostat_HY316WW.h:164-219 | Decoding the payload of an encoded frame, into any store, restores schedules[0..23] byte for byte |
| ScheduleCodec.EncodeOfDecode | WThermostat/src/WThermostat_HY316WW.h:164-219 | Encoding a freshly decoded store reproduces the decoded payload in the first 32 data offsets, when its placeholders were zero |
| ScheduleCodec.AsWrittenBufferLength | WThermostat/src/WThermostat_HY316WW.h:189 | The buffer as declared is 8 bytes shorter than the frame that is written and sent |
| ScheduleCodec.AsWrittenEncoderOverflows | WThermostat/src/WThermostat_HY316WW.h:186-221 | With the buffer sized as declared (46 bytes), data offsets 36..43 are written out of bounds, and the transmission reads 8 bytes past the end |
| StatusDispatch.Dispatch | WThermostat/src/WThermostat_HY316WW.h:63-149 | The base dispatch's answer wins; an update happens only for a report of length 5, on the field its identifier (0x66 or 0x74) names, to a value from that field's table |
| StatusDispatch.DispatchRecognisedIff | WThermostat/src/WThermostat_HY316WW.h:60-154 | A report is recognised iff the base dispatch knew it, or it is status mode with length 5 and index < 2, or sensor selection with length 5 and index < 3, or one of the 11 consumed ids |
| StatusDispatch.DispatchUpdates | WThermostat/src/WThermostat_HY316WW.h:65-87 | Only well-formed 0x66 and 0x74 reports update a property: their own property, set to the table entry the value byte names |
| StatusDispatch.EnumReportLengthGate | WThermostat/src/WThermostat_HY316WW.h:67-87 | A status-mode or sensor-selection report with a length other than 5 is rejected, whatever its payload |
| StatusDispatch.ConsumedIdsAcknowledged | WThermostat/src/WThermostat_HY316WW.h:88-148 | The 11 consumed vendor ids are acknowledged and set nothing, whatever their length and payload |
| StatusDispatch.SwitchCase74Unreachable | WThermostat/src/WThermostat_HY316WW.h:76-133 | The switch's 0x74 case is shadowed by the sensor-selection branch, so a malformed 0x74 report is not acknowledged |
| StatusDispatch.SensorSelectionFrame | WThermostat/src/WThermostat_HY316WW.h:235-236 | The frame is 11 bytes, starts 55 AA, declares 5 payload bytes and a 1-byte value, and carries identifier 0x74 and the index sm as its last byte |
| StatusDispatch.SensorSelectionFrameEcho | WThermostat/src/WThermostat_HY316WW.h:227-238 | The 11-byte sensor frame for index sm, read back as a report, selects entry sm of {internal, floor, both}; past the table it is rejected |
| HY316WW.Thermostat.constructor | WThermostat/src/WThermostat_HY316WW.h:34-56 | The adapter starts with status mode {off, heating} and sensor selection {internal, floor, both}, nothing sent and nothing notified |
| HY316WW.Thermostat.ProcessStatusCommand | WThermostat/src/WThermostat_HY316WW.h:60-155 | The result and both property values follow Dispatch on receivedCommand[10]; one state notification fires exactly when a property value changed |
| HY316WW.Thermostat.ProcessStatusSchedules | WThermostat/src/WThermostat_HY316WW.h:157-181 | The result is (length == 0x0D). If false, nothing changes. If true, the store becomes DecodedStore of receivedCommand[10..41], and one schedule notification fires exactly when a stored byte changed |
| HY316WW.Thermostat.SchedulesToMcu | WThermostat/src/WThermostat_HY316WW.h:183-225 | When schedules were received, exactly EncodeFrame of the store is sent and one schedule notification fires; otherwise nothing is sent or notified |
| HY316WW.Thermostat.PutScheduleHeader | WThermostat/src/WThermostat_HY316WW.h:190-199 | The first ten bytes of the schedule frame become 55 aa 03 07 00 0D 77 00 00 09, and the rest of the buffer is left as it was |
| HY316WW.Thermostat.SensorSelectionToMcu | WThermostat/src/WThermostat_HY316WW.h:227-240 | Nothing is sent while an inbound frame is being applied or when the enum index is 0xFF; otherwise exactly the frame 55 AA 00 06 00 05 74 05 00 01 sm is sent |

## Findings

| source | as written | input that shows it | evidently intended | confidence | as-written member | corrected member |
|---|---|---|---|---|---|---|
| WThermostat/src/WThermostat_HY316WW.h:189-221 | `scheduleCommand` is declared with `functionLengthInt+10` = 46 bytes. `functionLengthInt` is raised to 44 only afterwards (line 202), so the loop writes frame indices up to 53, and 54 bytes are sent | any call of `schedulesToMcu` while `receivedSchedules()` holds: data offsets 36..43 go to indices 46..53 | a buffer of 12*3 + 8 + 10 = 54 bytes, which the model allocates | high; not executed | ScheduleCodec.AsWrittenEncoderOverflows | HY316WW.Thermostat.SchedulesToMcu |

## Left out

- The base-class dispatch (`WThermostat::processStatusCommand`) is not part of this model. Its answer is the `baseKnown` parameter, and whatever it does itself is not modelled.
- `receivedSchedules()` and `isReceivingDataFromMcu()` are not part of this model. They are the boolean fields `schedulesReceived` and `receivingDataFromMcu`, set by the environment.
- `commandCharsToSerial`, `notifyState` and `notifySchedules` are I/O and observer plumbing. They are modelled as a ghost log of sent frames and two ghost counters.
- `temperatureFactor` (line 22) is a float that no logic in this file uses, so it is left out.
- The constructor's `network->debug` call, the platform includes and `WClock` are left out. They are platform I/O.
- Property registration is left out: `addProperty`, `setVisibility`, `setReadOnly` and `std::bind` (lines 45-47, 53-55). These calls only publish the properties.
- The `setOnChange` binding of line 54 is not wired in this model. In the firmware it makes every change of `sensorSelection` call `sensorSelectionToMcu`, including the `setString` of an inbound 0x74 report (line 84). In the model `ProcessStatusCommand` never transmits anything. The firmware avoids echoing an inbound 0x74 report back to the MCU only while the base class keeps `isReceivingDataFromMcu()` set during inbound processing; that base-class behaviour is not part of this model.
- `byteSchedulingPosHour` and `byteSchedulingPosMinute` (lines 26-27) are set but never read by the adapter's code, so they are left out.
- The enum list of the base-class `schedulesMode` property (lines 37-40) is left out. That property belongs to the base class, and the adapter's own code never reads it.
- The enum string constants (`STATE_OFF`, `SENSOR_SELECTION_FLOOR`, …) are defined in headers that are not part of this model. They are written as "off", "heating", "internal", "floor" and "both".
- The size of `schedules` is declared in `WThermostat.h`, which is not part of this model. The model takes "at least 33 bytes" (what the encoder reads) as part of the adapter invariant, and "at least 42 bytes" for the received-frame buffer.
- `EnumProperties.EnumProperty.GetEnumIndex` requires fewer than 255 enum values. With more values, the firmware's byte-sized index would wrap into the 0xFF sentinel; both lists here have 2 or 3 entries.
