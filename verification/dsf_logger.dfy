/** The DSF log writer: the header lines that introduce each sensor's
    channel, the sample-id bookkeeping that decides when they are written,
    and the text of the FRS-record and reset-cause lines. The floating-point
    fields of sample, period and reset lines are not modelled: those lines
    are recorded with their integer parts only. */
module DsfLog {
  import opened Common
  import SampleId

  /** The largest sensor id the writer's table covers. */
  const DSF_MAX_ID: nat := 0x2E

  const RAW_ACCELEROMETER: nat := 0x14
  const RAW_GYROSCOPE: nat := 0x15
  const RAW_MAGNETOMETER: nat := 0x16

  /** The channel name of each sensor id from 0x00 to 0x2E. */
  function Name(id: nat): string
    requires id <= DSF_MAX_ID
  {
    match id
    case 0x00 => "Reserved"
    case 0x01 => "Accelerometer"
    case 0x02 => "Gyroscope"
    case 0x03 => "MagneticField"
    case 0x04 => "LinearAcceleration"
    case 0x05 => "RotationVector"
    case 0x06 => "Gravity"
    case 0x07 => "UncalibratedGyroscope"
    case 0x08 => "GameRotationVector"
    case 0x09 => "GeomagneticRotationVector"
    case 0x0A => "Pressure"
    case 0x0B => "AmbientLight"
    case 0x0C => "Humidity"
    case 0x0D => "Proximity"
    case 0x0E => "Temperature"
    case 0x0F => "UncalibratedMagField"
    case 0x10 => "TapDetector"
    case 0x11 => "StepCounter"
    case 0x12 => "SignificantMotion"
    case 0x13 => "StabilityClassifier"
    case 0x14 => "RawAccelerometer"
    case 0x15 => "RawGyroscope"
    case 0x16 => "RawMagnetometer"
    case 0x17 => "Reserved"
    case 0x18 => "StepDetector"
    case 0x19 => "ShakeDetector"
    case 0x1A => "FlipDetector"
    case 0x1B => "PickupDetector"
    case 0x1C => "StabilityDetector"
    case 0x1D => "Reserved"
    case 0x1E => "PersonalActivityClassifier"
    case 0x1F => "SleepDetector"
    case 0x20 => "TiltDetector"
    case 0x21 => "PocketDetector"
    case 0x22 => "CircleDetector"
    case 0x23 => "HeartRateMonitor"
    case 0x24 => "Reserved"
    case 0x25 => "Reserved"
    case 0x26 => "Reserved"
    case 0x27 => "Reserved"
    case 0x28 => "ARVRStabilizedRotationVector"
    case 0x29 => "ARVRStabilizedGameRotationVector"
    case 0x2A => "GyroIntegratedRV"
    case 0x2B => "MotionRequest"
    case 0x2C => "RawOpticalFlow"
    case 0x2D => "DeadReckoningPose"
    case _ => "WheelEncoder"
  }

  /** The column list of each sensor id from 0x00 to 0x2E, one column per
      element (the log joins them with commas); an empty list marks an id
      the writer never logs. */
  function Columns(id: nat): seq<string>
    requires id <= DSF_MAX_ID
  {
    match id
    case 0x00 => []
    case 0x01 => ["LIN_ACC_GRAVITY[xyz]{m/s^2}"]
    case 0x02 => ["ANG_VEL[xyz]{rad/s}"]
    case 0x03 => ["MAG[xyz]{m/s^2}"]
    case 0x04 => ["LIN_ACC[xyz]{m/s^2}"]
    case 0x05 => ["ANG_POS_GLOBAL[wxyz]{quaternion}", "ANG_POS_ACCURACY[x]{deg}"]
    case 0x06 => ["GRAVITY[xyz]{m/s^2}"]
    case 0x07 => ["ANG_VEL[xyz]{rad/s}", "BIAS[xyz]{rad/s}"]
    case 0x08 => ["ANG_POS_GLOBAL[wxyz]{quaternion}"]
    case 0x09 => ["ANG_POS_GLOBAL[wxyz]{quaternion}", "ANG_POS_ACCURACY[x]{deg}"]
    case 0x0A => ["PRESSURE[x]{hPa}"]
    case 0x0B => ["AMBIENT_LIGHT[x]{lux}"]
    case 0x0C => ["HUMIDITY[x]{%}"]
    case 0x0D => ["PROXIMITY[x]{cm}"]
    case 0x0E => ["TEMPERATURE[x]{degC}"]
    case 0x0F => ["MAG_UNCAL[xyz]{m/s^2}", "MAG_BAIS[xyz]{m/s^2}"]
    case 0x10 => ["TAP_DETECTOR[x]{state}"]
    case 0x11 => ["STEPS[x]{steps}", "STEP_COUNTER_LATENCY[x]{us}"]
    case 0x12 => ["SIGNIFICANT_MOTION[x]{state}"]
    case 0x13 => ["STABILITY_CLASSIFIER[x]{state}"]
    case 0x14 => ["LIN_ACC_GRAVITY[xyz]{ADC}", "SAMPLE_TIME[x]{us}"]
    case 0x15 => ["ANG_VEL[xyz]{ADC}", "TEMPERATURE[x]{ADC}", "SAMPLE_TIME[x]{us}"]
    case 0x16 => ["MAG[xyz]{ADC}", "SAMPLE_TIME[x]{us}"]
    case 0x17 => []
    case 0x18 => ["STEP_DETECTOR_LATENCY[x]{us}"]
    case 0x19 => ["SHAKE_DETECTOR[x]{state}"]
    case 0x1A => ["FLIP_DETECTOR[x]{state}"]
    case 0x1B => ["PICKUP_DETECTOR[x]{state}"]
    case 0x1C => ["STABILITY_DETECTOR[x]{state}"]
    case 0x1D => []
    case 0x1E => ["MOST_LIKELY_STATE[x]{state}", "CONFIDENCE[uvbfstwrax]{state}"]
    case 0x1F => ["SLEEP_DETECTOR[x]{state}"]
    case 0x20 => ["TILT_DETECTOR[x]{state}"]
    case 0x21 => ["POCKET_DETECTOR[x]{state}"]
    case 0x22 => ["CIRCLE_DETECTOR[x]{state}"]
    case 0x23 => ["HEART_RATE_MONITOR[x]{?}"]
    case 0x24 => []
    case 0x25 => []
    case 0x26 => []
    case 0x27 => []
    case 0x28 => ["ANG_POS_GLOBAL[wxyz]{quaternion}", "ANG_POS_ACCURACY[x]{deg}"]
    case 0x29 => ["ANG_POS_GLOBAL[wxyz]{quaternion}"]
    case 0x2A => ["ANG_POS_GLOBAL[wxyz]{quaternion}", "ANG_VEL[xyz]{rad/s}"]
    case 0x2B => ["MOTION_INTENT[x]{state}", "MOTION_REQUEST[x]{state}"]
    case 0x2C => ["MOVED{bool}", "LASER_ON{bool}", "LIN_VEL_XY[xy]{ADC}", "SQUAL", "RES[xy]", "SHUTTER", "FRAME_MAX", "FRAME_AVG", "FRAME_MIN", "DT{us}", "SAMPLE_TIME[x]{us}"]
    case 0x2D => ["LIN_POS_GLOBAL[xyz]{m}", "ANG_POS_GLOBAL[wxyz]{quaternion}", "LIN_VEL[xyz]{m/s}", "ANG_VEL[xyz]{rad/s}", "SAMPLE_TIME[x]{us}"]
    case _ => ["TIME{s}", "SAMPLE_ID[x]", "DATA_TYPE[x]", "WHEEL_INDEX[x]", "DATA[x]", "TIMESTAMP{us}"]
  }

  /** One line of the log, by kind. A channel definition carries the
      sensor's own columns; the four columns every definition starts with
      (time, system time, sample id, status) are the same for all sensors
      and are not carried. */
  datatype Line =
    | ChannelDef(id: nat, columns: seq<string>)
    | CoordinateSystem(id: nat, ned: bool)
    | ChannelName(id: nat, name: string)
    | Sample(id: nat, sampleId: SampleId.uint64, status: nat)
    | Period(id: nat, intervalUs: nat)
    | Reset
    | ResetCause(cause: string)
    | PartNumber(index: nat, part: nat, major: nat, minor: nat, patch: nat, build: nat)
    | FrsRecord(text: string)
    | Message(text: string)

  /** The sensor a line belongs to, if any. */
  function Subject(l: Line): Option<nat> {
    match l
    case ChannelDef(i, _) => Some(i)
    case CoordinateSystem(i, _) => Some(i)
    case ChannelName(i, _) => Some(i)
    case Sample(i, _, _) => Some(i)
    case Period(i, _) => Some(i)
    case _ => None
  }

  /** A line that belongs to sensor `id`'s channel. */
  predicate About(l: Line, id: nat) {
    Subject(l) == Some(id)
  }

  /** The writer: the frame its orientation lines name, one extender slot per
      sensor id (none for ids it does not log), and what it has written. */
  datatype Dsf = Dsf(ned: bool, extenders: seq<Option<SampleId.Extender>>, out: seq<Line>)

  /** A writer whose extender table covers every id. */
  predicate Wf(d: Dsf) {
    |d.extenders| == DSF_MAX_ID + 1
  }

  /** The extender slot `init` gives sensor `id`. */
  function InitialSlot(id: nat): Option<SampleId.Extender>
    requires id <= DSF_MAX_ID
  {
    if |Columns(id)| == 0 then None else Some(SampleId.New())
  }

  /** `init`: when the file opens, remember the frame and give every id with
      a column list a fresh extender; otherwise fail. */
  function Init(opens: bool, ned: bool): (r: Option<Dsf>)
    ensures r.Some? <==> opens
    ensures r.Some? ==> Wf(r.value) && r.value.out == [] && r.value.ned == ned
  {
    if !opens then None
    else Some(Dsf(ned, seq(DSF_MAX_ID + 1, i requires 0 <= i <= DSF_MAX_ID => InitialSlot(i)), []))
  }

  /** `init` gives an extender, a fresh one, exactly to the ids with a column
      list. */
  lemma InitExtenders(ned: bool, id: nat)
    requires id <= DSF_MAX_ID
    ensures Init(true, ned).value.extenders[id].Some? <==> |Columns(id)| != 0
    ensures Init(true, ned).value.extenders[id].Some? ==> Init(true, ned).value.extenders[id].value.empty
  {
  }

  /** The ids without a column list, which get no extender, are 0x00, 0x17,
      0x1D and 0x24 to 0x27. */
  lemma UnloggedIds(id: nat)
    requires id <= DSF_MAX_ID
    ensures |Columns(id)| == 0 <==> id in {0x00, 0x17, 0x1D, 0x24, 0x25, 0x26, 0x27}
  {
    if id in {0x00, 0x17, 0x1D, 0x24, 0x25, 0x26, 0x27} {
      UnloggedListed(id);
    } else if id < 0x08 {
      LoggedBetween(id, 0x01, 0x08);
    } else if id < 0x10 {
      LoggedBetween(id, 0x08, 0x10);
    } else if id < 0x17 {
      LoggedBetween(id, 0x10, 0x17);
    } else if id < 0x1D {
      LoggedBetween(id, 0x18, 0x1D);
    } else if id < 0x24 {
      LoggedBetween(id, 0x1E, 0x24);
    } else {
      LoggedBetween(id, 0x28, DSF_MAX_ID + 1);
    }
  }

  /** The listed ids have no columns. */
  lemma UnloggedListed(id: nat)
    requires id in {0x00, 0x17, 0x1D, 0x24, 0x25, 0x26, 0x27}
    ensures |Columns(id)| == 0
  {
  }

  /** The ids of a run between two unlogged ones all have columns. */
  lemma LoggedBetween(id: nat, lo: nat, hi: nat)
    requires lo <= id < hi
    requires (lo, hi) in {(0x01, 0x08), (0x08, 0x10), (0x10, 0x17), (0x18, 0x1D), (0x1E, 0x24), (0x28, DSF_MAX_ID + 1)}
    ensures |Columns(id)| != 0
  {
  }

  /** The lines of `WriteChannelDefinition`: the column list, the coordinate
      frame unless orientation is off or the sensor is a raw accelerometer,
      gyroscope or magnetometer, and the name. */
  function ChannelDefinition(ned: bool, id: nat, orientation: bool): seq<Line>
    requires id <= DSF_MAX_ID
  {
    var frame := if orientation && id != RAW_ACCELEROMETER && id != RAW_GYROSCOPE && id != RAW_MAGNETOMETER
                 then [CoordinateSystem(id, ned)] else [];
    [ChannelDef(id, Columns(id))] + frame + [ChannelName(id, Name(id))]
  }

  /** A channel definition starts with the column list and ends with the
      name, all about its sensor; it has a coordinate line, naming NED
      exactly when the writer's frame is NED, unless the sensor is raw or
      orientation is off. */
  lemma ChannelDefinitionShape(ned: bool, id: nat, orientation: bool)
    requires id <= DSF_MAX_ID
    ensures var ls := ChannelDefinition(ned, id, orientation);
            && 2 <= |ls| <= 3
            && ls[0] == ChannelDef(id, Columns(id))
            && ls[|ls| - 1] == ChannelName(id, Name(id))
            && (forall k :: 0 <= k < |ls| ==> About(ls[k], id))
            && (|ls| == 3 <==> orientation && id !in {RAW_ACCELEROMETER, RAW_GYROSCOPE, RAW_MAGNETOMETER})
            && (|ls| == 3 ==> ls[1] == CoordinateSystem(id, ned))
  {
  }

  /** `WriteSensorReportHeader`: the channel definition when the sensor's
      extender is still empty, then the sample line with the extended sample
      id. */
  function ReportHeader(d: Dsf, id: nat, sequence: SampleId.uint8, status: nat): (r: Dsf)
    requires Wf(d) && id <= DSF_MAX_ID && d.extenders[id].Some?
    ensures Wf(r) && r.ned == d.ned
  {
    var e := d.extenders[id].value;
    var defs := if e.empty then ChannelDefinition(d.ned, id, true) else [];
    var (e', v) := SampleId.Extend(e, sequence);
    d.(extenders := d.extenders[id := Some(e')], out := d.out + defs + [Sample(id, v, status)])
  }

  /** `logSensorValue`, but for the fields: a sensor without an extender
      writes nothing. */
  function LogSensorValue(d: Dsf, id: nat, sequence: SampleId.uint8, status: nat): (r: Dsf)
    requires Wf(d) && id <= DSF_MAX_ID
    ensures Wf(r) && r.ned == d.ned
  {
    if d.extenders[id].None? then d else ReportHeader(d, id, sequence, status)
  }

  /** A sensor without an extender leaves the writer as it was; one with an
      extender gets a sample line, whose sample id ends in the sequence
      number, after what was written, preceded by its channel definition
      exactly when the extender was still empty, which it no longer is. */
  lemma SensorValueGating(d: Dsf, id: nat, sequence: SampleId.uint8, status: nat)
    requires Wf(d) && id <= DSF_MAX_ID
    ensures var r := LogSensorValue(d, id, sequence, status);
            && (d.extenders[id].None? ==> r == d)
            && (d.extenders[id].Some? ==>
                  && |r.out| > |d.out| && r.out[..|d.out|] == d.out
                  && r.out[|r.out| - 1].Sample? && r.out[|r.out| - 1].id == id
                  && r.out[|r.out| - 1].sampleId % 256 == sequence
                  && r.out[|r.out| - 1].status == status
                  && (r.out[|d.out|].ChannelDef? <==> d.extenders[id].value.empty)
                  && r.extenders[id].Some? && !r.extenders[id].value.empty)
  {
    if d.extenders[id].Some? {
      var e := d.extenders[id].value;
      SampleId.ExtendKeepsSequence(e, sequence);
      if e.empty {
        ChannelDefinitionShape(d.ned, id, true);
      }
    }
  }

  /** The asynchronous events the writer distinguishes. */
  datatype AsyncEvent = ResetEvent | FeatureResponse(id: nat, intervalUs: nat) | OtherEvent

  /** `logAsyncEvent`: a reset line; for a feature response of a logged
      sensor, its channel definition if none was written yet (marking the
      extender used with sequence number 0), then its period line; nothing
      otherwise. */
  function LogAsyncEvent(d: Dsf, ev: AsyncEvent): (r: Dsf)
    requires Wf(d) && (ev.FeatureResponse? ==> ev.id <= DSF_MAX_ID)
    ensures Wf(r) && r.ned == d.ned
  {
    match ev
    case ResetEvent => d.(out := d.out + [Reset])
    case FeatureResponse(id, interval) =>
      if d.extenders[id].None? then d
      else
        var e := d.extenders[id].value;
        var defs := if e.empty then ChannelDefinition(d.ned, id, true) else [];
        var e' := if e.empty then SampleId.Extend(e, 0).0 else e;
        d.(extenders := d.extenders[id := Some(e')], out := d.out + defs + [Period(id, interval)])
    case OtherEvent => d
  }

  /** A reset appends a reset line and touches nothing else; an unlisted
      event, and a feature response for a sensor without an extender, leave
      the writer as it was. A feature response for a sensor with an extender
      ends in that sensor's period line, after what was written, preceded by
      its channel definition exactly when the extender was still empty,
      which it no longer is; no other sensor's extender changes. */
  lemma AsyncEventGating(d: Dsf, ev: AsyncEvent)
    requires Wf(d) && (ev.FeatureResponse? ==> ev.id <= DSF_MAX_ID)
    ensures var r := LogAsyncEvent(d, ev);
            && (ev.ResetEvent? ==> r.extenders == d.extenders && r.out == d.out + [Reset])
            && (ev.OtherEvent? ==> r == d)
            && (ev.FeatureResponse? && d.extenders[ev.id].None? ==> r == d)
            && (ev.FeatureResponse? && d.extenders[ev.id].Some? ==>
                  && |r.out| > |d.out| && r.out[..|d.out|] == d.out
                  && r.out[|r.out| - 1] == Period(ev.id, ev.intervalUs)
                  && (r.out[|d.out|].ChannelDef? <==> d.extenders[ev.id].value.empty)
                  && (d.extenders[ev.id].value.empty ==> r.out[|d.out|] == ChannelDef(ev.id, Columns(ev.id)))
                  && r.extenders[ev.id].Some? && !r.extenders[ev.id].value.empty
                  && (forall j :: 0 <= j < |d.extenders| && j != ev.id ==> r.extenders[j] == d.extenders[j]))
  {
    if ev.FeatureResponse? && d.extenders[ev.id].Some? && d.extenders[ev.id].value.empty {
      ChannelDefinitionShape(d.ned, ev.id, true);
      SampleId.EmptyUntilExtended(d.extenders[ev.id].value, 0);
    }
  }

  // ---------------------------------------------------------------------------
  // Product ids

  /** One entry of the hub's product-id response: its reset cause, part
      number and version. */
  datatype ProductId = ProductId(resetCause: nat, part: nat, major: nat, minor: nat, patch: nat, build: nat)

  /** The name a reset cause is logged under, if any. */
  function ResetCauseName(cause: nat): Option<string> {
    match cause
    case 1 => Some("PowerOnReset")
    case 2 => Some("InternalSystemReset")
    case 3 => Some("WatchdogTimeout")
    case 4 => Some("ExternalReset")
    case 5 => Some("Other")
    case _ => None
  }

  /** The lines of entries `from` onwards: each entry's reset cause when it
      has a name, then its part-number line. */
  function ProductLines(ids: seq<ProductId>, from: nat): seq<Line>
    requires from <= |ids|
    decreases |ids| - from
  {
    if from == |ids| then []
    else
      var id := ids[from];
      CauseLines(id) + [PartNumber(from, id.part, id.major, id.minor, id.patch, id.build)] + ProductLines(ids, from + 1)
  }

  /** The reset-cause line an entry is preceded by: one when its cause has a
      name, none otherwise. */
  function CauseLines(id: ProductId): (r: seq<Line>)
    ensures |r| <= 1 && (|r| == 1 <==> ResetCauseName(id.resetCause).Some?)
    ensures |r| == 1 ==> r[0] == ResetCause(ResetCauseName(id.resetCause).value)
  {
    var cause := ResetCauseName(id.resetCause);
    if cause.Some? then [ResetCause(cause.value)] else []
  }

  /** `logProductIds`. */
  function LogProductIds(d: Dsf, ids: seq<ProductId>): (r: Dsf)
    ensures r.extenders == d.extenders && r.ned == d.ned
  {
    d.(out := d.out + ProductLines(ids, 0))
  }

  /** Causes 1 to 5 have names, each a different one; cause 0 and every
      other value have none. */
  lemma ResetCauses(cause: nat)
    ensures ResetCauseName(cause).Some? <==> 1 <= cause <= 5
    ensures ResetCauseName(1) == Some("PowerOnReset") && ResetCauseName(2) == Some("InternalSystemReset")
    ensures ResetCauseName(3) == Some("WatchdogTimeout") && ResetCauseName(4) == Some("ExternalReset")
    ensures ResetCauseName(5) == Some("Other")
  {
  }

  /** The number of entries with a named reset cause from `from` onwards. */
  function NamedCauses(ids: seq<ProductId>, from: nat): nat
    requires from <= |ids|
    decreases |ids| - from
  {
    if from == |ids| then 0
    else (if 1 <= ids[from].resetCause <= 5 then 1 else 0) + NamedCauses(ids, from + 1)
  }

  /** The lines number one per entry plus one per entry whose cause is 1 to
      5, and each is a reset-cause or a part-number line, so nothing about
      any sensor channel is written. */
  lemma {:induction false} ProductLinesCount(ids: seq<ProductId>, from: nat)
    requires from <= |ids|
    ensures |ProductLines(ids, from)| == (|ids| - from) + NamedCauses(ids, from)
    ensures forall k :: 0 <= k < |ProductLines(ids, from)| ==>
              ProductLines(ids, from)[k].ResetCause? || ProductLines(ids, from)[k].PartNumber?
    decreases |ids| - from
  {
    if from < |ids| {
      ResetCauses(ids[from].resetCause);
      ProductLinesCount(ids, from + 1);
    }
  }

  /** The part-number line entry `i` is logged under. */
  function PartNumberLine(ids: seq<ProductId>, i: nat): Line
    requires i < |ids|
  {
    PartNumber(i, ids[i].part, ids[i].major, ids[i].minor, ids[i].patch, ids[i].build)
  }

  /** The part-number lines among `ls`, in order. */
  function PartNumbers(ls: seq<Line>): (r: seq<Line>)
    ensures |r| <= |ls|
    ensures forall k :: 0 <= k < |r| ==> r[k].PartNumber?
  {
    if |ls| == 0 then [] else (if ls[0].PartNumber? then [ls[0]] else []) + PartNumbers(ls[1..])
  }

  lemma {:induction false} PartNumbersAppend(a: seq<Line>, b: seq<Line>)
    ensures PartNumbers(a + b) == PartNumbers(a) + PartNumbers(b)
  {
    if |a| == 0 {
      assert a + b == b;
    } else {
      assert (a + b)[0] == a[0] && (a + b)[1..] == a[1..] + b;
      PartNumbersAppend(a[1..], b);
    }
  }

  /** One entry's lines contribute exactly its part-number line. */
  lemma EntryPartNumbers(ids: seq<ProductId>, from: nat)
    requires from < |ids|
    ensures PartNumbers(ProductLines(ids, from)) == [PartNumberLine(ids, from)] + PartNumbers(ProductLines(ids, from + 1))
  {
    var c := CauseLines(ids[from]);
    var pn := PartNumberLine(ids, from);
    var rest := ProductLines(ids, from + 1);
    assert ProductLines(ids, from) == c + ([pn] + rest);
    PartNumbersAppend(c, [pn] + rest);
    PartNumbersAppend([pn], rest);
    assert PartNumbers(c) == [] by {
      if |c| == 1 {
        assert PartNumbers(c) == [] + PartNumbers(c[1..]);
      }
    }
    assert PartNumbers([pn]) == [pn] by {
      assert [pn][1..] == [];
    }
  }

  /** Each entry's part-number line is the one right after its reset-cause
      line when its cause has a name, and otherwise first or right after
      another part-number line; a reset-cause line is always followed by a
      part-number line. */
  predicate CausesAdjacent(ls: seq<Line>, ids: seq<ProductId>) {
    && (forall k :: 0 <= k < |ls| && ls[k].ResetCause? ==> k + 1 < |ls| && ls[k + 1].PartNumber?)
    && (forall k :: 0 <= k < |ls| && ls[k].PartNumber? ==>
          && ls[k].index < |ids|
          && (ResetCauseName(ids[ls[k].index].resetCause).Some? ==>
                k > 0 && ls[k - 1] == ResetCause(ResetCauseName(ids[ls[k].index].resetCause).value))
          && (ResetCauseName(ids[ls[k].index].resetCause).None? ==> k == 0 || ls[k - 1].PartNumber?))
  }

  /** The part-number lines are exactly one per entry, in entry order, each
      carrying its entry's index, part number and version. */
  lemma {:induction false} ProductLinesOrder(ids: seq<ProductId>, from: nat)
    requires from <= |ids|
    ensures PartNumbers(ProductLines(ids, from))
            == seq(|ids| - from, k requires 0 <= k < |ids| - from => PartNumberLine(ids, from + k))
    decreases |ids| - from
  {
    if from < |ids| {
      var pn := PartNumberLine(ids, from);
      var rest := ProductLines(ids, from + 1);
      EntryPartNumbers(ids, from);
      ProductLinesOrder(ids, from + 1);
      var want := seq(|ids| - from, k requires 0 <= k < |ids| - from => PartNumberLine(ids, from + k));
      var tail := seq(|ids| - (from + 1), k requires 0 <= k < |ids| - (from + 1) => PartNumberLine(ids, from + 1 + k));
      assert PartNumbers(rest) == tail;
      assert PartNumbers(ProductLines(ids, from)) == [pn] + tail;
      assert |want| == |[pn] + tail|;
      forall k | 0 <= k < |want|
        ensures want[k] == ([pn] + tail)[k]
      {
        if k > 0 {
          assert ([pn] + tail)[k] == tail[k - 1];
        }
      }
    }
  }

  /** Each entry's reset-cause line, when it has one, comes directly before
      that entry's part-number line. */
  lemma {:induction false} ProductLinesAdjacent(ids: seq<ProductId>, from: nat)
    requires from <= |ids|
    ensures CausesAdjacent(ProductLines(ids, from), ids)
    ensures forall k :: 0 <= k < |ProductLines(ids, from)| && ProductLines(ids, from)[k].PartNumber? ==>
              from <= ProductLines(ids, from)[k].index
    decreases |ids| - from
  {
    if from < |ids| {
      var c := CauseLines(ids[from]);
      var pn := PartNumberLine(ids, from);
      var rest := ProductLines(ids, from + 1);
      var ls := ProductLines(ids, from);
      assert ls == c + [pn] + rest;
      ProductLinesAdjacent(ids, from + 1);
      var m := |c| + 1;
      forall k | 0 <= k < |ls| && ls[k].ResetCause?
        ensures k + 1 < |ls| && ls[k + 1].PartNumber?
      {
        if k >= m {
          assert ls[k] == rest[k - m] && ls[k + 1] == rest[k + 1 - m];
        }
      }
      forall k | 0 <= k < |ls| && ls[k].PartNumber?
        ensures && from <= ls[k].index < |ids|
                && (ResetCauseName(ids[ls[k].index].resetCause).Some? ==>
                      k > 0 && ls[k - 1] == ResetCause(ResetCauseName(ids[ls[k].index].resetCause).value))
                && (ResetCauseName(ids[ls[k].index].resetCause).None? ==> k == 0 || ls[k - 1].PartNumber?)
      {
        if k >= m {
          assert ls[k] == rest[k - m];
          if k > m {
            assert ls[k - 1] == rest[k - 1 - m];
          } else {
            assert ls[k - 1] == pn;
            // rest[0] is a part-number line only when its cause has no name
          }
        } else {
          assert k == m - 1 && ls[k] == pn;
        }
      }
    }
  }

  // ---------------------------------------------------------------------------
  // FRS records

  /** A lower-case hexadecimal digit. */
  function HexDigit(n: nat): (c: char)
    requires n < 16
  {
    if n < 10 then ('0' as int + n) as char else ('a' as int + n - 10) as char
  }

  /** The value of a lower-case hexadecimal digit; -1 for any other
      character. */
  function DigitValue(c: char): int {
    if '0' <= c <= '9' then c as int - '0' as int
    else if 'a' <= c <= 'f' then c as int - 'a' as int + 10
    else -1
  }

  lemma DigitRoundTrip(n: nat)
    requires n < 16
    ensures DigitValue(HexDigit(n)) == n && HexDigit(n) != ','
  {
  }

  /** A byte as two hexadecimal digits, zero-padded. */
  function Hex2(b: nat): string
    requires b < 256
  {
    [HexDigit(b / 16), HexDigit(b % 16)]
  }

  /** The bytes of `bs` in hexadecimal, separated by commas, with no comma
      after the last. */
  function HexList(bs: seq<nat>): string
    requires forall i :: 0 <= i < |bs| ==> bs[i] < 256
    decreases |bs|
  {
    if |bs| == 0 then []
    else if |bs| == 1 then Hex2(bs[0])
    else Hex2(bs[0]) + [','] + HexList(bs[1..])
  }

  /** The four bytes of a word, least significant first. */
  function WordBytes(w: uint32): (r: seq<nat>)
    ensures |r| == 4 && forall i :: 0 <= i < 4 ==> r[i] < 256
  {
    [w % 256, w / 0x100 % 256, w / 0x1_0000 % 256, w / 0x100_0000 % 256]
  }

  /** The bytes of a run of words, each least significant byte first. */
  function FrsBytes(ws: seq<uint32>): (r: seq<nat>)
    ensures |r| == 4 * |ws|
    ensures forall i :: 0 <= i < |r| ==> r[i] < 256
    decreases |ws|
  {
    if |ws| == 0 then [] else WordBytes(ws[0]) + FrsBytes(ws[1..])
  }

  /** The text of `logFrsRecord`: `!name="` , the bytes of the first `words`
      words in hexadecimal, `"` and a newline. */
  function FrsText(name: string, buffer: seq<uint32>, words: uint16): string
    requires words <= |buffer|
  {
    ['!'] + name + ['=', '"'] + HexList(FrsBytes(buffer[..words])) + ['"', '\n']
  }

  /** `logFrsRecord`. */
  function LogFrsRecord(d: Dsf, name: string, buffer: seq<uint32>, words: uint16): (r: Dsf)
    requires words <= |buffer|
    ensures r.extenders == d.extenders && r.ned == d.ned
  {
    d.(out := d.out + [FrsRecord(FrsText(name, buffer, words))])
  }

  /** Reads a comma-separated list of two-digit hexadecimal bytes back. */
  function ParseHexList(t: string): seq<int>
    decreases |t|
  {
    if |t| < 2 then []
    else [DigitValue(t[0]) * 16 + DigitValue(t[1])] + (if |t| > 2 then ParseHexList(t[3..]) else [])
  }

  /** The hexadecimal list holds three characters per byte but one, and
      reads back as the bytes it was made from. */
  lemma {:induction false} HexListRoundTrip(bs: seq<nat>)
    requires forall i :: 0 <= i < |bs| ==> bs[i] < 256
    ensures |HexList(bs)| == if |bs| == 0 then 0 else 3 * |bs| - 1
    ensures ParseHexList(HexList(bs)) == bs
    decreases |bs|
  {
    if |bs| > 0 {
      var b := bs[0];
      DigitRoundTrip(b / 16);
      DigitRoundTrip(b % 16);
      if |bs| > 1 {
        HexListRoundTrip(bs[1..]);
        var t := HexList(bs);
        assert t[3..] == HexList(bs[1..]);
      }
    }
  }

  /** The hexadecimal list holds three characters per byte but one. */
  lemma {:induction false} HexListLength(bs: seq<nat>)
    requires forall i :: 0 <= i < |bs| ==> bs[i] < 256
    ensures |HexList(bs)| == if |bs| == 0 then 0 else 3 * |bs| - 1
    decreases |bs|
  {
    if |bs| > 1 {
      HexListLength(bs[1..]);
    }
  }

  /** Byte `k` sits at characters `3 k` and `3 k + 1`, and a comma follows
      it unless it is the last. */
  lemma {:induction false} HexListAt(bs: seq<nat>, k: nat)
    requires forall i :: 0 <= i < |bs| ==> bs[i] < 256
    requires k < |bs|
    ensures 3 * k + 2 <= |HexList(bs)| && HexList(bs)[3 * k..3 * k + 2] == Hex2(bs[k])
    ensures k < |bs| - 1 ==> 3 * k + 2 < |HexList(bs)| && HexList(bs)[3 * k + 2] == ','
    decreases k
  {
    HexListLength(bs);
    if |bs| > 1 {
      var t := HexList(bs);
      var tail := HexList(bs[1..]);
      assert t == Hex2(bs[0]) + [','] + tail;
      if k > 0 {
        HexListAt(bs[1..], k - 1);
        HexListLength(bs[1..]);
        assert bs[1..][k - 1] == bs[k];
        ShiftedBy3(t, tail, 3 * (k - 1), 3 * k);
      }
    }
  }

  /** Characters of a list after its first byte and comma. */
  lemma ShiftedBy3(t: string, tail: string, j: nat, m: nat)
    requires |t| == |tail| + 3 && t[3..] == tail && j + 2 <= |tail| && m == j + 3
    ensures t[m..m + 2] == tail[j..j + 2]
    ensures j + 2 < |tail| ==> t[m + 2] == tail[j + 2]
  {
    assert t[m] == t[3..][j] == tail[j];
    assert t[m + 1] == t[3..][j + 1] == tail[j + 1];
    if j + 2 < |tail| {
      assert t[m + 2] == t[3..][j + 2];
    }
  }

  /** The little-endian bytes of a word give the word back. */
  lemma WordBytesRoundTrip(w: uint32)
    ensures var r := WordBytes(w); r[0] + 0x100 * r[1] + 0x1_0000 * r[2] + 0x100_0000 * r[3] == w
  {
    var q1, q2, q3 := w / 256, w / 256 / 256, w / 256 / 256 / 256;
    Digits(w, q1, q2, q3);
    assert w / 0x1_0000 == q2;
    assert w / 0x100_0000 == q3;
  }

  /** Joins little-endian byte quadruples back into words. */
  function Words(bs: seq<int>): seq<int>
    decreases |bs|
  {
    if |bs| < 4 then [] else [bs[0] + 0x100 * bs[1] + 0x1_0000 * bs[2] + 0x100_0000 * bs[3]] + Words(bs[4..])
  }

  /** The bytes of an FRS record give its words back. */
  lemma {:induction false} FrsBytesRoundTrip(ws: seq<uint32>)
    ensures Words(FrsBytes(ws)) == ws
    decreases |ws|
  {
    if |ws| > 0 {
      WordBytesRoundTrip(ws[0]);
      FrsBytesRoundTrip(ws[1..]);
      assert FrsBytes(ws)[4..] == FrsBytes(ws[1..]);
    }
  }

  /** An FRS line is `!`, the name, `="`, the hexadecimal bytes of the first
      `words` words (three characters a byte but one), and `"` with a
      newline; its body reads back as those words. */
  lemma FrsTextRoundTrip(name: string, buffer: seq<uint32>, words: uint16)
    requires words <= |buffer|
    ensures var t := FrsText(name, buffer, words);
            var body := t[|name| + 3..|t| - 2];
            && t[..|name| + 3] == ['!'] + name + ['=', '"']
            && t[|t| - 2..] == ['"', '\n']
            && |body| == (if words == 0 then 0 else 12 * words - 1)
            && Words(ParseHexList(body)) == buffer[..words]
  {
    var bs := FrsBytes(buffer[..words]);
    HexListRoundTrip(bs);
    FrsBytesRoundTrip(buffer[..words]);
    var t := FrsText(name, buffer, words);
    assert t[|name| + 3..|t| - 2] == HexList(bs);
  }

  // ---------------------------------------------------------------------------
  // Channel definitions come first, and once

  /** What the logger application hands the writer. */
  datatype Event =
    | SensorEvent(id: nat, sequence: SampleId.uint8, status: nat)
    | Async(ev: AsyncEvent)
    | Products(ids: seq<ProductId>)
    | Frs(name: string, buffer: seq<uint32>, words: uint16)
    | Text(msg: string)

  /** An event the writer can take: sensor ids inside its table, FRS words
      inside the buffer. */
  predicate Valid(e: Event) {
    match e
    case SensorEvent(id, _, _) => id <= DSF_MAX_ID
    case Async(ev) => ev.FeatureResponse? ==> ev.id <= DSF_MAX_ID
    case Frs(_, buffer, words) => words <= |buffer|
    case _ => true
  }

  /** One event. */
  function Step(d: Dsf, e: Event): (r: Dsf)
    requires Wf(d) && Valid(e)
    ensures Wf(r) && r.ned == d.ned
  {
    match e
    case SensorEvent(id, sequence, status) => LogSensorValue(d, id, sequence, status)
    case Async(ev) => LogAsyncEvent(d, ev)
    case Products(ids) => LogProductIds(d, ids)
    case Frs(name, buffer, words) => LogFrsRecord(d, name, buffer, words)
    case Text(msg) => d.(out := d.out + [Message(msg)])
  }

  /** A run of events. */
  function Log(d: Dsf, es: seq<Event>): (r: Dsf)
    requires Wf(d) && forall i :: 0 <= i < |es| ==> Valid(es[i])
    ensures Wf(r) && r.ned == d.ned
    decreases |es|
  {
    if |es| == 0 then d else Log(Step(d, es[0]), es[1..])
  }

  /** The channel definitions of sensor `id` in `out`. */
  function Defs(out: seq<Line>, id: nat): nat
    decreases |out|
  {
    if |out| == 0 then 0 else (if out[0].ChannelDef? && out[0].id == id then 1 else 0) + Defs(out[1..], id)
  }

  /** The first line of `out` about sensor `id`. */
  function FirstAbout(out: seq<Line>, id: nat): Option<Line>
    decreases |out|
  {
    if |out| == 0 then None else if About(out[0], id) then Some(out[0]) else FirstAbout(out[1..], id)
  }

  lemma {:induction false} DefsAppend(a: seq<Line>, b: seq<Line>, id: nat)
    ensures Defs(a + b, id) == Defs(a, id) + Defs(b, id)
    decreases |a|
  {
    if |a| > 0 {
      assert (a + b)[1..] == a[1..] + b;
      DefsAppend(a[1..], b, id);
    } else {
      assert a + b == b;
    }
  }

  lemma {:induction false} FirstAboutAppend(a: seq<Line>, b: seq<Line>, id: nat)
    ensures FirstAbout(a + b, id) == if FirstAbout(a, id).Some? then FirstAbout(a, id) else FirstAbout(b, id)
    decreases |a|
  {
    if |a| > 0 {
      assert (a + b)[1..] == a[1..] + b;
      FirstAboutAppend(a[1..], b, id);
    } else {
      assert a + b == b;
    }
  }

  /** Nothing about sensor `id` has been written. */
  predicate Clean(out: seq<Line>, id: nat) {
    Defs(out, id) == 0 && FirstAbout(out, id) == None
  }

  /** Sensor `id`'s channel has been defined once, before anything else
      about it. */
  predicate Defined(out: seq<Line>, id: nat)
    requires id <= DSF_MAX_ID
  {
    Defs(out, id) == 1 && FirstAbout(out, id) == Some(ChannelDef(id, Columns(id)))
  }

  /** What the writer keeps true of each sensor: an id has an extender
      exactly when it has columns; nothing is written about an id without an
      extender or with an empty one; a used extender's channel is defined
      once, first. */
  predicate IdInv(d: Dsf, id: nat)
    requires Wf(d) && id <= DSF_MAX_ID
  {
    && (d.extenders[id].Some? <==> |Columns(id)| != 0)
    && (if d.extenders[id].None? || d.extenders[id].value.empty then Clean(d.out, id) else Defined(d.out, id))
  }

  predicate Inv(d: Dsf) {
    Wf(d) && forall id :: 0 <= id <= DSF_MAX_ID ==> IdInv(d, id)
  }

  /** A fresh writer keeps the invariant. */
  lemma InvInit(ned: bool)
    ensures Inv(Init(true, ned).value)
  {
    var d := Init(true, ned).value;
    forall id | 0 <= id <= DSF_MAX_ID
      ensures IdInv(d, id)
    {
      InitExtenders(ned, id);
    }
  }

  /** Lines that say nothing about sensor `id`. */
  predicate Silent(more: seq<Line>, id: nat) {
    forall k :: 0 <= k < |more| ==> !About(more[k], id)
  }

  lemma {:induction false} SilentClean(more: seq<Line>, id: nat)
    requires Silent(more, id)
    ensures Clean(more, id)
    decreases |more|
  {
    if |more| > 0 {
      SilentClean(more[1..], id);
    }
  }

  /** Appending lines silent about `id` keeps what is known about it. */
  lemma AppendSilent(out: seq<Line>, more: seq<Line>, id: nat)
    requires id <= DSF_MAX_ID && Silent(more, id)
    ensures Clean(out, id) ==> Clean(out + more, id)
    ensures Defined(out, id) ==> Defined(out + more, id)
  {
    SilentClean(more, id);
    DefsAppend(out, more, id);
    FirstAboutAppend(out, more, id);
  }

  /** The channel definition of `id` defines it once, first. */
  lemma DefinitionDefines(ned: bool, id: nat)
    requires id <= DSF_MAX_ID
    ensures Defined(ChannelDefinition(ned, id, true), id)
  {
    var ls := ChannelDefinition(ned, id, true);
    var head := ChannelDef(id, Columns(id));
    var rest := ls[1..];
    ChannelDefinitionShape(ned, id, true);
    assert ls == [head] + rest;
    assert Defs([head], id) == 1 by { assert [head][1..] == []; }
    assert Defs(rest, id) == 0 by {
      if |rest| == 2 {
        assert rest[1..][1..] == [];
      } else {
        assert rest[1..] == [];
      }
    }
    DefsAppend([head], rest, id);
    FirstAboutAppend([head], rest, id);
  }

  /** Appending a channel definition and then one more line about `id` to a
      log clean of it defines its channel. */
  lemma AppendDefinition(out: seq<Line>, ned: bool, id: nat, last: Line)
    requires id <= DSF_MAX_ID && Clean(out, id) && !last.ChannelDef?
    ensures Defined(out + ChannelDefinition(ned, id, true) + [last], id)
  {
    var defs := ChannelDefinition(ned, id, true);
    DefinitionDefines(ned, id);
    DefsAppend(out, defs, id);
    DefsAppend(out + defs, [last], id);
    FirstAboutAppend(out, defs, id);
    FirstAboutAppend(out + defs, [last], id);
    assert [last][1..] == [];
  }

  /** Appending one line that is no channel definition keeps a channel
      defined. */
  lemma AppendUse(out: seq<Line>, id: nat, last: Line)
    requires id <= DSF_MAX_ID && Defined(out, id) && !last.ChannelDef?
    ensures Defined(out + [last], id)
  {
    DefsAppend(out, [last], id);
    FirstAboutAppend(out, [last], id);
    assert [last][1..] == [];
  }

  /** Lines all about sensor `id` leave every other sensor as it was. */
  lemma KeepOthers(d: Dsf, r: Dsf, id: nat, more: seq<Line>)
    requires Inv(d) && Wf(r) && id <= DSF_MAX_ID && r.out == d.out + more
    requires forall k :: 0 <= k < |more| ==> Subject(more[k]) == Some(id)
    requires forall j :: 0 <= j <= DSF_MAX_ID && j != id ==> r.extenders[j] == d.extenders[j]
    ensures forall j :: 0 <= j <= DSF_MAX_ID && j != id ==> IdInv(r, j)
  {
    forall j | 0 <= j <= DSF_MAX_ID && j != id
      ensures IdInv(r, j)
    {
      assert IdInv(d, j);
      AppendSilent(d.out, more, j);
    }
  }

  /** Lines about no sensor leave every sensor as it was. */
  lemma KeepAll(d: Dsf, r: Dsf, more: seq<Line>)
    requires Inv(d) && r.extenders == d.extenders && r.out == d.out + more
    requires forall k :: 0 <= k < |more| ==> Subject(more[k]) == None
    ensures Inv(r)
  {
    forall j | 0 <= j <= DSF_MAX_ID
      ensures IdInv(r, j)
    {
      assert IdInv(d, j);
      AppendSilent(d.out, more, j);
    }
  }

  /** A sample keeps the invariant. */
  lemma InvSensorValue(d: Dsf, id: nat, sequence: SampleId.uint8, status: nat)
    requires Inv(d) && id <= DSF_MAX_ID
    ensures Inv(LogSensorValue(d, id, sequence, status))
  {
    if d.extenders[id].Some? {
      var r := LogSensorValue(d, id, sequence, status);
      var e := d.extenders[id].value;
      var defs := if e.empty then ChannelDefinition(d.ned, id, true) else [];
      var last := Sample(id, SampleId.Extend(e, sequence).1, status);
      assert r.out == d.out + defs + [last];
      assert IdInv(d, id);
      if e.empty {
        assert r.out == d.out + ChannelDefinition(d.ned, id, true) + [last];
        ChannelDefinitionShape(d.ned, id, true);
        AppendDefinition(d.out, d.ned, id, last);
      } else {
        assert r.out == d.out + [last];
        AppendUse(d.out, id, last);
      }
      assert r.extenders[id].Some? && !r.extenders[id].value.empty;
      assert IdInv(r, id);
      KeepOthers(d, r, id, defs + [last]);
    }
  }

  /** A feature response keeps the invariant. */
  lemma InvFeatureResponse(d: Dsf, id: nat, interval: nat)
    requires Inv(d) && id <= DSF_MAX_ID
    ensures Inv(LogAsyncEvent(d, FeatureResponse(id, interval)))
  {
    if d.extenders[id].Some? {
      var r := LogAsyncEvent(d, FeatureResponse(id, interval));
      var e := d.extenders[id].value;
      var defs := if e.empty then ChannelDefinition(d.ned, id, true) else [];
      var last := Period(id, interval);
      assert r.out == d.out + defs + [last];
      assert IdInv(d, id);
      if e.empty {
        assert r.out == d.out + ChannelDefinition(d.ned, id, true) + [last];
        ChannelDefinitionShape(d.ned, id, true);
        AppendDefinition(d.out, d.ned, id, last);
      } else {
        assert r.out == d.out + [last];
        AppendUse(d.out, id, last);
      }
      assert r.extenders[id].Some? && !r.extenders[id].value.empty;
      assert IdInv(r, id);
      KeepOthers(d, r, id, defs + [last]);
    }
  }

  /** Every event keeps the invariant. */
  lemma InvStep(d: Dsf, e: Event)
    requires Inv(d) && Valid(e)
    ensures Inv(Step(d, e))
  {
    match e
    case SensorEvent(id, sequence, status) => InvSensorValue(d, id, sequence, status);
    case Async(ev) =>
      match ev {
        case ResetEvent => KeepAll(d, Step(d, e), [Reset]);
        case FeatureResponse(id, interval) => InvFeatureResponse(d, id, interval);
        case OtherEvent =>
      }
    case Products(ids) =>
      ProductLinesCount(ids, 0);
      KeepAll(d, Step(d, e), ProductLines(ids, 0));
    case Frs(name, buffer, words) => KeepAll(d, Step(d, e), [FrsRecord(FrsText(name, buffer, words))]);
    case Text(msg) => KeepAll(d, Step(d, e), [Message(msg)]);
  }

  lemma {:induction false} InvLog(d: Dsf, es: seq<Event>)
    requires Inv(d) && forall i :: 0 <= i < |es| ==> Valid(es[i])
    ensures Inv(Log(d, es))
    decreases |es|
  {
    if |es| > 0 {
      InvStep(d, es[0]);
      InvLog(Step(d, es[0]), es[1..]);
    }
  }

  /** Whatever the events, from a fresh writer: each sensor's channel is
      defined at most once, its definition comes before every other line
      about it (its samples and periods among them), and a sensor without
      columns never appears in the log. */
  lemma DefinedOnceFirst(ned: bool, es: seq<Event>, id: nat)
    requires forall i :: 0 <= i < |es| ==> Valid(es[i])
    requires id <= DSF_MAX_ID
    ensures var out := Log(Init(true, ned).value, es).out;
            && Defs(out, id) <= 1
            && (FirstAbout(out, id).Some? ==> FirstAbout(out, id).value == ChannelDef(id, Columns(id)))
            && (|Columns(id)| == 0 ==> FirstAbout(out, id).None?)
  {
    InvInit(ned);
    InvLog(Init(true, ned).value, es);
    assert IdInv(Log(Init(true, ned).value, es), id);
  }
}
