/** The HY316WW thermostat adapter: the device-specific overrides that read
    status and schedule reports from the MCU's serial frames and write the
    schedule and sensor selection back. The serial line and the observers
    are ghost logs: every transmitted frame, and a count per notification. */
module HY316WW {
  import opened Types
  import CommandBytes
  import opened ScheduleCodec
  import opened StatusDispatch
  import opened EnumProperties

  class Thermostat {
    /** The frame buffer the base protocol engine fills before dispatching. */
    const receivedCommand: array<byte>
    /** The schedule store the base class owns. */
    const schedules: array<byte>
    const statusMode: EnumProperty
    const sensorSelection: EnumProperty

    /** The reentrancy guard (`isReceivingDataFromMcu()`): set while an
        inbound frame is being applied. */
    var receivingDataFromMcu: bool
    /** Whether a schedule report was ever received (`receivedSchedules()`). */
    var schedulesReceived: bool

    /** Frames handed to `commandCharsToSerial`, oldest first. */
    ghost var transmitted: seq<seq<byte>>
    /** Calls of `notifyState` and of `notifySchedules`. */
    ghost var stateNotifications: nat
    ghost var scheduleNotifications: nat

    ghost predicate Valid()
    {
      receivedCommand.Length >= HeaderLength + DecodedPayloadLength &&
      schedules.Length >= EncodedStoreLength &&
      receivedCommand != schedules &&
      statusMode != sensorSelection &&
      statusMode.Valid() && statusMode.enums == StatusModeEnums &&
      sensorSelection.Valid() && sensorSelection.enums == SensorSelectionEnums
    }

    /** The adapter with its two enum properties as `initializeProperties`
        registers them; the base-class buffers have the given sizes. */
    constructor (scheduleBytes: nat, receiveBytes: nat)
      requires scheduleBytes >= 33 && receiveBytes >= 42
      ensures Valid()
      ensures fresh(receivedCommand) && fresh(schedules) && fresh(statusMode) && fresh(sensorSelection)
      ensures schedules.Length == scheduleBytes && receivedCommand.Length == receiveBytes
      ensures statusMode.value == None && sensorSelection.value == None
      ensures !receivingDataFromMcu && !schedulesReceived
      ensures transmitted == [] && stateNotifications == 0 && scheduleNotifications == 0
    {
      EncoderConsumes();
      receivedCommand := new byte[receiveBytes];
      schedules := new byte[scheduleBytes];
      statusMode := new EnumProperty(StatusModeEnums);
      sensorSelection := new EnumProperty(SensorSelectionEnums);
      receivingDataFromMcu := false;
      schedulesReceived := false;
      transmitted := [];
      stateNotifications := 0;
      scheduleNotifications := 0;
    }

    /** One inbound status report with identifier cByte and declared length
        commandLength; baseKnown is the base dispatch's answer. The result and
        the property updates follow Dispatch; one state notification fires
        exactly when some property value changed. */
    method ProcessStatusCommand(baseKnown: bool, cByte: byte, commandLength: byte) returns (knownCommand: bool)
      requires Valid()
      modifies this`stateNotifications, statusMode, sensorSelection
      ensures Valid()
      ensures var act := Dispatch(baseKnown, cByte, commandLength, receivedCommand[ValueOffset]);
        knownCommand == (act != Reject) &&
        statusMode.value == UpdatedValue(act, StatusModeField, old(statusMode.value)) &&
        sensorSelection.value == UpdatedValue(act, SensorSelectionField, old(sensorSelection.value))
      ensures stateNotifications == old(stateNotifications) +
        if statusMode.value != old(statusMode.value) || sensorSelection.value != old(sensorSelection.value) then 1 else 0
    {
      var changed := false;
      knownCommand := baseKnown;
      if !knownCommand {
        if cByte == CommandBytes.StatusMode {
          if commandLength == EnumReportLength {
            var newS := statusMode.GetEnumString(receivedCommand[ValueOffset]);
            if newS.Some? {
              var c := statusMode.SetString(newS.value);
              changed := changed || c;
              knownCommand := true;
            }
          }
        } else if cByte == CommandBytes.SensorSelection {
          if commandLength == EnumReportLength {
            var newS := sensorSelection.GetEnumString(receivedCommand[ValueOffset]);
            if newS.Some? {
              var c := sensorSelection.SetString(newS.value);
              changed := changed || c;
              knownCommand := true;
            }
          }
        } else if cByte in SwitchIds {
          // consumed vendor commands: acknowledged, payload discarded
          knownCommand := true;
        }
      }
      if changed {
        stateNotifications := stateNotifications + 1;
      }
    }

    /** One inbound schedule report: accepted only with declared length 0x0D;
        then the 32 payload bytes after the preamble are packed, placeholders
        removed, into schedules[0..23], and one schedule notification fires
        exactly when a stored byte changed. */
    method ProcessStatusSchedules(commandLength: byte) returns (result: bool)
      requires Valid()
      modifies this`scheduleNotifications, schedules
      ensures result <==> commandLength == ScheduleDataLength
      ensures !result ==> schedules[..] == old(schedules[..]) && scheduleNotifications == old(scheduleNotifications)
      ensures result ==>
        var p := receivedCommand[HeaderLength..HeaderLength + DecodedPayloadLength];
        schedules[..] == DecodedStore(old(schedules[..]), p) &&
        scheduleNotifications == old(scheduleNotifications) + if DecodeChanges(old(schedules[..]), p) then 1 else 0
    {
      result := commandLength == ScheduleDataLength;
      if result {
        ghost var p := receivedCommand[HeaderLength..HeaderLength + DecodedPayloadLength];
        ghost var before := schedules[..];
        var changed := false;
        var res := 1;
        var ii := 0;
        var i := 0;
        assert p[..0] == [];
        while i < 32
          invariant 0 <= i <= 32
          invariant i <= 3 ==> res == 1
          invariant ii == KeptCount(i) <= DecodedStoreLength
          invariant schedules[..] == DecodedPrefix(before, p, i)
          invariant changed <==> PrefixChanged(before, p, i)
          invariant scheduleNotifications == old(scheduleNotifications)
        {
          var newByte := receivedCommand[i + 10];
          if IsPlaceholder(i) {
            DecodeSkipStep(before, p, i);
          } else {
            DecodeDataStep(before, p, i);
            DecodeChangeStep(before, p, i);
          }
          if i != 2 {
            if i > 2 {
              res := (i + 2) % 4;
            }
            if res != 0 {
              changed := changed || (newByte != schedules[ii]);
              schedules[ii] := newByte;
              ii := ii + 1;
            }
          }
          i := i + 1;
        }
        DecodeDone(before, p);
        if changed {
          scheduleNotifications := scheduleNotifications + 1;
        }
      }
    }

    /** Local schedule write: when a schedule report was received before, one
        frame, EncodeFrame of the store, is transmitted and one schedule
        notification fires (whether or not anything changed); otherwise
        nothing happens. The frame buffer holds all 54 bytes written. */
    method SchedulesToMcu()
      requires Valid()
      modifies this`transmitted, this`scheduleNotifications
      ensures transmitted == old(transmitted) + (if schedulesReceived then [EncodeFrame(schedules[..])] else [])
      ensures scheduleNotifications == old(scheduleNotifications) + (if schedulesReceived then 1 else 0)
    {
      if schedulesReceived {
        EncoderConsumes();
        var daysToSend := CommandBytes.SchedulingDays;
        var functionLengthInt := daysToSend * 3;
        // sized for the eight extra data offsets added below
        var scheduleCommand := new byte[functionLengthInt + 8 + HeaderLength];
        PutScheduleHeader(scheduleCommand);

        var res := 1;
        functionLengthInt := functionLengthInt + 8;
        var ii := 0;
        var i := 0;
        ghost var store := schedules[..];
        while i < functionLengthInt
          invariant functionLengthInt == EncodedPayloadLength() && 0 <= i <= functionLengthInt
          invariant ii == KeptCount(i) <= EncodedStoreLength
          invariant scheduleCommand[..HeaderLength] == ScheduleHeader()
          invariant forall k :: 0 <= k < i ==> scheduleCommand[HeaderLength + k] == DataByte(store, k)
          invariant transmitted == old(transmitted) && scheduleNotifications == old(scheduleNotifications)
        {
          KeptCountMonotone(i + 1, EncodedPayloadLength());
          if i == 2 {
            scheduleCommand[i + 10] := 0x00;
          } else if i > 2 {
            res := (i + 2) % 4;
            if res != 0 {
              scheduleCommand[i + 10] := schedules[ii];
              ii := ii + 1;
            } else {
              scheduleCommand[i + 10] := 0x00;
            }
          } else {
            scheduleCommand[i + 10] := schedules[ii];
            ii := ii + 1;
          }
          assert scheduleCommand[HeaderLength + i] == DataByte(store, i);
          i := i + 1;
        }
        FrameFromBytes(scheduleCommand[..functionLengthInt + 10], store);
        transmitted := transmitted + [scheduleCommand[..functionLengthInt + 10]];
        scheduleNotifications := scheduleNotifications + 1;
      }
    }

    /** The first ten bytes of the schedule frame: sync bytes, direction,
        command, data length 0x0D, the schedule identifier and the function
        length 0x09. */
    static method PutScheduleHeader(scheduleCommand: array<byte>)
      requires scheduleCommand.Length >= HeaderLength
      modifies scheduleCommand
      ensures scheduleCommand[..HeaderLength] == ScheduleHeader()
      ensures scheduleCommand[HeaderLength..] == old(scheduleCommand[HeaderLength..])
    {
      var functionL := FunctionLength;
      var dataL := ScheduleDataLength;
      scheduleCommand[0] := 0x55;
      scheduleCommand[1] := 0xaa;
      scheduleCommand[2] := 0x03;
      scheduleCommand[3] := 0x07;
      scheduleCommand[4] := 0x00;
      scheduleCommand[5] := dataL;
      scheduleCommand[6] := CommandBytes.Schedules;
      scheduleCommand[7] := 0x00;
      scheduleCommand[8] := 0x00;
      scheduleCommand[9] := functionL;
    }

    /** Local change of an enum property bound to the sensor selection: unless
        an inbound frame is being applied or the property has no enum index,
        exactly one 11-byte frame carrying the index is transmitted. */
    method SensorSelectionToMcu(property: EnumProperty)
      requires property.Valid()
      modifies this`transmitted
      ensures transmitted == old(transmitted) +
        if !receivingDataFromMcu && property.GetEnumIndex() != NoIndex
        then [SensorSelectionFrame(property.GetEnumIndex())] else []
    {
      if !receivingDataFromMcu {
        var sm := property.GetEnumIndex();
        if sm != NoIndex {
          var cm := new byte[11] [0x55, 0xAA, 0x00, 0x06, 0x00, 0x05,
                                  CommandBytes.SensorSelection, 0x05, 0x00, 0x01, sm];
          assert cm[..] == SensorSelectionFrame(sm);
          transmitted := transmitted + [cm[..]];
        }
      }
    }
  }
}
