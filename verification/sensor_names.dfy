/** The logger's sensor-name table and its lookup: sensor ids are indexes
    into a table of display names, and a configuration names a sensor by its
    display name. */
module SensorNames {

  /** The display name of sensor id `id`, for ids 0x00 to 0x2B. Unused ids
      are all called "Reserved". */
  function Name(id: nat): string
    requires id <= 0x2B
  {
    match id
    case 0 => "Reserved"
    case 1 => "Accelerometer"
    case 2 => "Gyroscope"
    case 3 => "Magnetic Field"
    case 4 => "Linear Acceleration"
    case 5 => "Rotation Vector"
    case 6 => "Gravity"
    case 7 => "Uncalibrated Gyroscope"
    case 8 => "Game Rotation Vector"
    case 9 => "Geomagnetic Rotation Vector"
    case 10 => "Pressure"
    case 11 => "Ambient Light"
    case 12 => "Humidity"
    case 13 => "Proximity"
    case 14 => "Temperature"
    case 15 => "Uncalibrated MagneticField"
    case 16 => "Tap Detector"
    case 17 => "Step Counter"
    case 18 => "Significant Motion"
    case 19 => "Stability Classifier"
    case 20 => "Raw Accelerometer"
    case 21 => "Raw Gyroscope"
    case 22 => "Raw Magnetometer"
    case 23 => "Reserved"
    case 24 => "Step Detector"
    case 25 => "Shake Detector"
    case 26 => "Flip Detector"
    case 27 => "Pickup Detector"
    case 28 => "Stability Detector"
    case 29 => "Reserved"
    case 30 => "Personal Activity Classifier"
    case 31 => "Sleep Detector"
    case 32 => "Tilt Detector"
    case 33 => "Pocket Detector"
    case 34 => "Circle Detector"
    case 35 => "Heart Rate Monitor"
    case 36 => "Reserved"
    case 37 => "Reserved"
    case 38 => "Reserved"
    case 39 => "Reserved"
    case 40 => "ARVR Stabilized Rotation Vector"
    case 41 => "ARVR Stabilized GameRotation Vector"
    case 42 => "Gyro Rotation Vector"
    case _ => "IZRO Motion Request"
  }

  /** The names of ids 0x00 to 0x2B, in id order. */
  const SENSOR_NAMES: seq<string> := seq(0x2C, i requires 0 <= i < 0x2C => Name(i))

  /** The largest sensor id this table was written for. */
  const NAMES_MAX_ID: nat := 0x2B

  /** The table has one name for every id up to its largest. */
  lemma TableSize()
    ensures |SENSOR_NAMES| == NAMES_MAX_ID + 1
  {
  }

  /** `findSensorIdByName`: scan ids 0 to `maxId` and answer the first whose
      name equals `name`, or `maxId + 1`, which is no sensor id, when none
      does. The table has `maxId + 1` entries, which the source checks when
      it is compiled. */
  method FindSensorIdByName(names: seq<string>, maxId: nat, name: string) returns (id: nat)
    requires |names| == maxId + 1
    ensures id <= maxId + 1
    ensures id <= maxId ==> names[id] == name
    ensures forall j :: 0 <= j < id && j <= maxId ==> names[j] != name
    ensures id == FirstIndex(names, name, 0)
  {
    var i := 0;
    while i <= maxId
      invariant 0 <= i <= maxId + 1
      invariant forall j :: 0 <= j < i ==> names[j] != name
    {
      if names[i] == name {
        return i;
      }
      i := i + 1;
    }
    return maxId + 1;
  }

  /** Reference lookup, independent of the scan: the first index of `name` in `names` at or after
      `from`, or `|names|`. */
  function FirstIndex(names: seq<string>, name: string, from: nat): (r: nat)
    requires from <= |names|
    ensures from <= r <= |names|
    ensures r < |names| ==> names[r] == name
    ensures forall j :: from <= j < r ==> names[j] != name
    decreases |names| - from
  {
    if from == |names| then from
    else if names[from] == name then from
    else FirstIndex(names, name, from + 1)
  }

  /** A name that is in the table is found at an id that carries it; a name
      that is not is answered with the out-of-range id. */
  lemma FirstIndexFinds(names: seq<string>, name: string)
    ensures FirstIndex(names, name, 0) < |names| <==> name in names
  {
    var r := FirstIndex(names, name, 0);
    if name in names {
      var k :| 0 <= k < |names| && names[k] == name;
      assert r <= k;
    }
  }

  /** Every id whose name appears nowhere earlier in the table is found by
      its own name. */
  lemma NamesRoundTrip(names: seq<string>, id: nat)
    requires id < |names|
    requires forall j :: 0 <= j < id ==> names[j] != names[id]
    ensures FirstIndex(names, names[id], 0) == id
  {
  }

  /** The unused ids all share the name "Reserved", and the lookup resolves
      it to the first of them, id 0. */
  lemma ReservedIsZero()
    ensures SENSOR_NAMES[0x17] == SENSOR_NAMES[0x1D] == SENSOR_NAMES[0x24] == SENSOR_NAMES[0x27] == "Reserved"
    ensures FirstIndex(SENSOR_NAMES, "Reserved", 0) == 0
  {
    NamesRoundTrip(SENSOR_NAMES, 0);
  }

  /** A named sensor resolves to its own id: the accelerometer is 0x01. */
  lemma AccelerometerId()
    ensures FirstIndex(SENSOR_NAMES, "Accelerometer", 0) == 0x01
  {
    NamesRoundTrip(SENSOR_NAMES, 0x01);
  }
}
