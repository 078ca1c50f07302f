/** What `processStatusCommand` of the HY316WW decides for one inbound status
    report, as a pure function of the report, and the single-value frame the
    adapter sends when the sensor selection is changed locally. */
module StatusDispatch {
  import opened Types
  import CommandBytes

  /** The enum tables `initializeProperties` installs. */
  const StatusModeEnums: seq<string> := ["off", "heating"]
  const SensorSelectionEnums: seq<string> := ["internal", "floor", "both"]

  /** Declared payload length of a single enum-valued report. */
  const EnumReportLength: byte := 0x05
  /** Position of the enum value byte in the received frame. */
  const ValueOffset: nat := 10

  /** The identifiers the fallback `switch` of `processStatusCommand` lists. */
  const SwitchIds: set<byte> := {0x6d, 0x6e, 0x6f, 0x6a, 0x70, 0x6b, 0x71, 0x72, 0x73, 0x74, 0x75, 0x76}

  /** The vendor identifiers that are acknowledged without being read:
      calibration, return differences, limit values, power-on memory, weekly
      programming selection. */
  const ConsumedIds: set<byte> := {0x6a, 0x6b, 0x6d, 0x6e, 0x6f, 0x70, 0x71, 0x72, 0x73, 0x75, 0x76}

  datatype EnumField = StatusModeField | SensorSelectionField

  function EnumsOf(field: EnumField): seq<string>
  {
    match field
    case StatusModeField => StatusModeEnums
    case SensorSelectionField => SensorSelectionEnums
  }

  /** The outcome of one report: acknowledged without effect, not recognised,
      or an enum property set to a value from its table. */
  datatype Action = Acknowledge | Reject | Update(field: EnumField, value: string)

  /** An enum-valued report: recognised only with the expected length and a
      value byte that indexes the field's table. */
  function EnumReport(field: EnumField, commandLength: byte, index: byte): Action
  {
    if commandLength == EnumReportLength && index as int < |EnumsOf(field)|
    then Update(field, EnumsOf(field)[index as int])
    else Reject
  }

  /** The decision for identifier cByte with declared length commandLength and
      value byte index, after the base dispatch answered baseKnown. */
  function Dispatch(baseKnown: bool, cByte: byte, commandLength: byte, index: byte): (act: Action)
    ensures baseKnown ==> act == Acknowledge
    ensures act.Update? ==> commandLength == EnumReportLength && act.value in EnumsOf(act.field)
    ensures act.Update? ==> cByte == (if act.field == StatusModeField then CommandBytes.StatusMode else CommandBytes.SensorSelection)
  {
    if baseKnown then Acknowledge
    else if cByte == CommandBytes.StatusMode then EnumReport(StatusModeField, commandLength, index)
    else if cByte == CommandBytes.SensorSelection then EnumReport(SensorSelectionField, commandLength, index)
    else if cByte in SwitchIds then Acknowledge
    else Reject
  }

  /** The value a field holds after the action, given the value it held. */
  function UpdatedValue(act: Action, field: EnumField, current: Option<string>): Option<string>
  {
    if act.Update? && act.field == field then Some(act.value) else current
  }

  /** The report is recognised exactly when the base dispatch knew it, or it is
      a well-formed enum report, or it is one of the consumed vendor ids. */
  lemma DispatchRecognisedIff(baseKnown: bool, cByte: byte, commandLength: byte, index: byte)
    ensures Dispatch(baseKnown, cByte, commandLength, index) != Reject <==>
      baseKnown
      || (cByte == CommandBytes.StatusMode && commandLength == 0x05 && index < 2)
      || (cByte == CommandBytes.SensorSelection && commandLength == 0x05 && index < 3)
      || cByte in ConsumedIds
  {
  }

  /** An enum report sets its own field, to the table entry the value byte
      names, and nothing else; the status-mode and sensor-selection ids are
      the only ones that update anything. */
  lemma DispatchUpdates(baseKnown: bool, cByte: byte, commandLength: byte, index: byte)
    ensures Dispatch(baseKnown, cByte, commandLength, index).Update? <==>
      !baseKnown && commandLength == 0x05 &&
      ((cByte == 0x66 && index < 2) || (cByte == 0x74 && index < 3))
    ensures Dispatch(baseKnown, cByte, commandLength, index).Update? ==>
      var act := Dispatch(baseKnown, cByte, commandLength, index);
      act.field == (if cByte == 0x66 then StatusModeField else SensorSelectionField) &&
      act.value == EnumsOf(act.field)[index as int]
  {
  }

  /** A status-mode or sensor-selection report of any length other than 5 is
      not recognised, whatever its payload. */
  lemma EnumReportLengthGate(cByte: byte, commandLength: byte, index: byte)
    requires cByte == CommandBytes.StatusMode || cByte == CommandBytes.SensorSelection
    requires commandLength != EnumReportLength
    ensures Dispatch(false, cByte, commandLength, index) == Reject
  {
  }

  /** The consumed vendor ids are acknowledged whatever their length and
      payload, and change nothing. */
  lemma ConsumedIdsAcknowledged(cByte: byte, commandLength: byte, index: byte)
    requires cByte in ConsumedIds
    ensures Dispatch(false, cByte, commandLength, index) == Acknowledge
  {
  }

  /** The switch's case for 0x74 is dead: 0x74 is the sensor-selection id and
      is caught first, so a malformed 0x74 report is rejected, not acknowledged. */
  lemma SwitchCase74Unreachable(commandLength: byte, index: byte)
    ensures CommandBytes.SensorSelection in SwitchIds
    ensures SwitchIds == ConsumedIds + {CommandBytes.SensorSelection}
    ensures Dispatch(false, 0x74, commandLength, index) != Acknowledge
  {
  }

  /** The frame `sensorSelectionToMcu` sends for enum index sm. */
  function SensorSelectionFrame(sm: byte): (f: seq<byte>)
    ensures |f| == 11 && f[..2] == [0x55, 0xAA]
    ensures f[5] as int == |f| - 6 && f[9] as int == |f| - 10
    ensures f[6] == CommandBytes.SensorSelection && f[10] == sm
  {
    [0x55, 0xAA, 0x00, 0x06, 0x00, 0x05, CommandBytes.SensorSelection, 0x05, 0x00, 0x01, sm]
  }

  /** Read back as a report (identifier at frame offset 6, length at offset 5,
      value at offset 10), the sensor-selection frame for index sm selects
      table entry sm, and is rejected when sm is past the table. */
  lemma SensorSelectionFrameEcho(sm: byte)
    ensures |SensorSelectionFrame(sm)| == 11
    ensures var f := SensorSelectionFrame(sm);
      Dispatch(false, f[6], f[5], f[ValueOffset]) ==
        if sm < 3 then Update(SensorSelectionField, SensorSelectionEnums[sm as int]) else Reject
  {
  }
}
