/** The command byte map of the HY316WW model (`configureCommandBytes`): which
    protocol identifier carries which semantic field, and the schedule geometry. */
module CommandBytes {
  import opened Types

  /** Identifiers of the fields the shared base dispatch understands. */
  const DeviceOn: byte := 0x01
  const TemperatureActual: byte := 0x03
  const TemperatureTarget: byte := 0x02
  /** The floor temperature is not supported by this model (the NOT_SUPPORTED sentinel). */
  const TemperatureFloor: Option<byte> := None
  const SchedulesMode: byte := 0x04
  const Locked: byte := 0x06
  const Schedules: byte := 0x77
  /** Number of 3-byte schedule slots the outbound schedule frame carries. */
  const SchedulingDays: nat := 12

  /** Identifiers of the fields specific to this model. */
  const StatusMode: byte := 0x66
  const SensorSelection: byte := 0x74

  /** The identifiers this model assigns to a field; TemperatureFloor is None,
      so it contributes none. */
  function AssignedIds(): seq<byte>
  {
    [DeviceOn, TemperatureActual, TemperatureTarget, SchedulesMode, Locked,
     Schedules, StatusMode, SensorSelection]
  }

  /** No two fields share an identifier; only the floor temperature is unsupported. */
  lemma AssignedIdsDistinct()
    ensures |AssignedIds()| == 8
    ensures forall i, j :: 0 <= i < j < |AssignedIds()| ==> AssignedIds()[i] != AssignedIds()[j]
  {
  }
}
