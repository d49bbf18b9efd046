/** The activity that decoding builds (TTBIN_FILE) and what each decoded
    record does to it (ttbin/ttbin.c:166-305). Status and lap records are
    appended; GPS, treadmill and swim samples are placed in sparse series at
    `timestamp - baseline`, where a series' baseline is the first non-zero
    timestamp it saw; heart-rate samples are merged into the GPS series, or
    failing that into the treadmill series. */
module Assembler {
  import opened Bytes
  import opened Records
  import opened Series

  /** STATUS_RECORD. */
  datatype StatusRecord = StatusRecord(status: uint8, activity: uint8, timestamp: uint32)

  /** GPS_RECORD. Latitude and longitude stay in the file's units (degrees
      times 1e7), heading and speed in hundredths; `elevation` and the
      distances are IEEE-754 single-precision bit patterns. */
  datatype GpsRecord = GpsRecord(
    latitude: int32,
    longitude: int32,
    elevation: uint32,
    heading: uint16,
    speed: uint16,
    timestamp: uint32,
    calories: uint16,
    incDistance: uint32,
    cumDistance: uint32,
    cycles: uint8,
    heartRate: uint8)

  /** TREADMILL_RECORD. */
  datatype TreadmillRecord = TreadmillRecord(
    timestamp: uint32,
    distance: uint32,
    calories: uint16,
    steps: uint32,
    heartRate: uint8)

  /** SWIM_RECORD. */
  datatype SwimRecord = SwimRecord(
    timestamp: uint32,
    totalDistance: uint32,
    strokes: uint32,
    completedLaps: uint32,
    totalCalories: uint16)

  /** LAP_RECORD. */
  datatype LapRecord = LapRecord(totalTime: uint32, totalDistance: uint32, totalCalories: uint16)

  /** The all-zero slots that growth leaves behind. */
  const ZeroGps := GpsRecord(0, 0, 0, 0, 0, 0, 0, 0, 0, 0, 0)
  const ZeroTreadmill := TreadmillRecord(0, 0, 0, 0, 0)
  const ZeroSwim := SwimRecord(0, 0, 0, 0, 0)

  /** TTBIN_FILE: the fields that decoding fills in. A record count is the
      length of its sequence. */
  datatype Activity = Activity(
    fileVersion: uint8,
    firmwareVersion: seq<uint8>,
    productId: uint16,
    timestamp: uint32,
    activity: uint8,
    totalDistance: uint32,
    duration: uint32,
    totalCalories: uint16,
    hasHeartRate: bool,
    status: seq<StatusRecord>,
    gps: seq<GpsRecord>,
    treadmill: seq<TreadmillRecord>,
    swim: seq<SwimRecord>,
    laps: seq<LapRecord>)

  /** The file as `malloc` plus `memset` leave it: every field zero, every
      series empty. */
  function EmptyActivity(): (f: Activity)
    ensures f.fileVersion == 0 && f.firmwareVersion == [0, 0, 0, 0] && f.productId == 0 && f.timestamp == 0
    ensures f.activity == 0 && f.totalDistance == 0 && f.duration == 0 && f.totalCalories == 0
    ensures !f.hasHeartRate
    ensures f.status == [] && f.gps == [] && f.treadmill == [] && f.swim == [] && f.laps == []
  {
    Activity(0, [0, 0, 0, 0], 0, 0, 0, 0, 0, 0, false, [], [], [], [], [])
  }

  /** The baselines `initial_gps_time`, `initial_hr_time`,
      `initial_treadmill_time` and `initial_swim_time`; zero means not yet seen. */
  datatype Baselines = Baselines(gps: uint32, heartRate: uint32, treadmill: uint32, swim: uint32)

  /** A baseline is taken from a sample only while it is still zero. */
  function Seed(base: uint32, timestamp: uint32): uint32
  {
    if base == 0 then timestamp else base
  }

  /** `index = timestamp - baseline` as C computes it: the unsigned 32-bit
      difference, stored in an `int`, which reads it as two's complement. */
  function SampleIndex(timestamp: uint32, base: uint32): (index: int32)
    ensures index >= 0 <==> (timestamp - base) % 0x1_0000_0000 < 0x8000_0000
    ensures index % 0x1_0000_0000 == (timestamp - base) % 0x1_0000_0000
  {
    Signed32((timestamp - base) % 0x1_0000_0000)
  }

  /** A timestamp at or after its baseline, less than 2^31 seconds later,
      lands at its distance from the baseline. */
  lemma IndexIsElapsedTime(timestamp: uint32, base: uint32)
    requires base <= timestamp < base + 0x8000_0000
    ensures SampleIndex(timestamp, base) == timestamp - base
  {
  }

  /** The sample that sets a baseline lands at slot 0. */
  lemma FirstSampleAtZero(base: uint32, timestamp: uint32)
    requires base == 0
    ensures SampleIndex(timestamp, Seed(base, timestamp)) == 0
  {
  }

  /** What a sample does: the series' new baseline and the new file, or a
      negative index, which the C code would use to write before the array. */
  datatype Effect = Applied(base: uint32, file: Activity) | NegativeIndex

  /** Tag 0x27 (ttbin/ttbin.c:167-173): the summary fields overwrite the file's. */
  function ApplySummary(f: Activity, r: FileSummary): (g: Activity)
    ensures g.activity == r.activity && g.totalDistance == r.distance
    ensures g.duration == r.duration && g.totalCalories == r.calories
    ensures g.(activity := f.activity, totalDistance := f.totalDistance,
               duration := f.duration, totalCalories := f.totalCalories) == f
  {
    f.(activity := r.activity, totalDistance := r.distance, duration := r.duration,
       totalCalories := r.calories)
  }

  /** Tag 0x21 (ttbin/ttbin.c:175-183): one status record appended. */
  function ApplyStatus(f: Activity, r: FileStatus): Activity
  {
    f.(status := f.status + [StatusRecord(r.status, r.activity, r.timestamp)])
  }

  /** Tag 0x2f (ttbin/ttbin.c:253-261): one lap record appended. */
  function ApplyLap(f: Activity, r: FileLap): Activity
  {
    f.(laps := f.laps + [LapRecord(r.totalTime, r.totalDistance, r.totalCalories)])
  }

  /** A GPS fix written over `slot`: every field from the record, elevation
      zero, the merged heart rate kept. */
  function GpsFix(slot: GpsRecord, r: FileGps): GpsRecord
  {
    slot.(latitude := r.latitude, longitude := r.longitude, elevation := 0,
          heading := r.heading, speed := r.speed, timestamp := r.timestamp,
          calories := r.calories, incDistance := r.incDistance,
          cumDistance := r.cumDistance, cycles := r.cycles)
  }

  /** Tag 0x22 (ttbin/ttbin.c:184-213). The baseline is seeded before the
      lost-signal check, so a lost-signal record can still set it. */
  function ApplyGps(base: uint32, f: Activity, r: FileGps): Effect
  {
    var b := Seed(base, r.timestamp);
    if r.timestamp == GPS_SIGNAL_LOST then Applied(b, f)
    else
      var index := SampleIndex(r.timestamp, b);
      if index < 0 then NegativeIndex
      else Applied(b, f.(gps := Place(f.gps, index, ZeroGps, GpsFix(Slot(f.gps, index, ZeroGps), r))))
  }

  /** Tag 0x32 (ttbin/ttbin.c:263-282): the heart rate already merged into the
      slot is kept. */
  function ApplyTreadmill(base: uint32, f: Activity, r: FileTreadmill): Effect
  {
    var b := Seed(base, r.timestamp);
    var index := SampleIndex(r.timestamp, b);
    if index < 0 then NegativeIndex
    else
      var slot := Slot(f.treadmill, index, ZeroTreadmill);
      var v := slot.(timestamp := r.timestamp, distance := r.distance, calories := r.calories, steps := r.steps);
      Applied(b, f.(treadmill := Place(f.treadmill, index, ZeroTreadmill, v)))
  }

  /** Tag 0x34 (ttbin/ttbin.c:284-305): every field of the slot is written. */
  function ApplySwim(base: uint32, f: Activity, r: FileSwim): Effect
  {
    var b := Seed(base, r.timestamp);
    var index := SampleIndex(r.timestamp, b);
    if index < 0 then NegativeIndex
    else
      var v := SwimRecord(r.timestamp, r.totalDistance, r.strokes, r.completedLaps, r.totalCalories);
      Applied(b, f.(swim := Place(f.swim, index, ZeroSwim, v)))
  }

  /** `baseline + index` in `uint32_t` arithmetic. */
  function Wrap(x: int): (v: uint32)
    ensures 0 <= x < 0x1_0000_0000 ==> v == x
  {
    x % 0x1_0000_0000
  }

  /** Tag 0x25 (ttbin/ttbin.c:215-251), given the heart-rate, GPS and treadmill
      baselines; the new baseline in the effect is the heart-rate one. */
  function ApplyHeartRate(hrBase: uint32, gpsBase: uint32, treadmillBase: uint32, f: Activity, r: FileHeartRate): Effect
  {
    var b := Seed(hrBase, r.timestamp);
    var index := SampleIndex(r.timestamp, b);
    var g := f.(hasHeartRate := true);
    if |f.gps| > 0 then
      if index < 0 then NegativeIndex
      else
        var slot := Slot(f.gps, index, ZeroGps);
        var v := slot.(timestamp := Wrap(gpsBase + index), heartRate := r.heartRate);
        Applied(b, g.(gps := Place(f.gps, index, ZeroGps, v)))
    else if |f.treadmill| > 0 then
      if index < 0 then NegativeIndex
      else
        var slot := Slot(f.treadmill, index, ZeroTreadmill);
        var v := slot.(timestamp := Wrap(treadmillBase + index), heartRate := r.heartRate);
        Applied(b, g.(treadmill := Place(f.treadmill, index, ZeroTreadmill, v)))
    else Applied(b, g)
  }

  // ---------------------------------------------------------------------------
  // What each record does, stated field by field.

  /** A status record appends exactly one entry holding its fields; nothing
      else in the file changes. */
  lemma StatusAppends(f: Activity, r: FileStatus)
    ensures |ApplyStatus(f, r).status| == |f.status| + 1
    ensures ApplyStatus(f, r).status[..|f.status|] == f.status
    ensures ApplyStatus(f, r).status[|f.status|] == StatusRecord(r.status, r.activity, r.timestamp)
    ensures ApplyStatus(f, r).(status := f.status) == f
  {
  }

  /** A lap record appends exactly one entry holding its fields; nothing else
      in the file changes. */
  lemma LapAppends(f: Activity, r: FileLap)
    ensures |ApplyLap(f, r).laps| == |f.laps| + 1
    ensures ApplyLap(f, r).laps[..|f.laps|] == f.laps
    ensures ApplyLap(f, r).laps[|f.laps|] == LapRecord(r.totalTime, r.totalDistance, r.totalCalories)
    ensures ApplyLap(f, r).(laps := f.laps) == f
  {
  }

  /** A lost-signal GPS record leaves the file alone but seeds a zero baseline. */
  lemma LostSignalKeepsSeries(base: uint32, f: Activity, r: FileGps)
    requires r.timestamp == GPS_SIGNAL_LOST
    ensures ApplyGps(base, f, r) == Applied(if base == 0 then GPS_SIGNAL_LOST else base, f)
  {
  }

  /** A GPS fix with index `i`: only the GPS series changes; it grows to
      `i + 1` slots if shorter, slot `i` holds the fix with elevation zero and
      the heart rate it had, and every other slot keeps its value or is zero. */
  lemma GpsPlacement(base: uint32, f: Activity, r: FileGps)
    requires r.timestamp != GPS_SIGNAL_LOST
    ensures var b := Seed(base, r.timestamp);
            var i := SampleIndex(r.timestamp, b);
            match ApplyGps(base, f, r)
            case NegativeIndex => i < 0
            case Applied(b', g) =>
              b' == b && 0 <= i && g.(gps := f.gps) == f &&
              |g.gps| == (if i < |f.gps| then |f.gps| else i + 1) &&
              g.gps[i] == GpsRecord(r.latitude, r.longitude, 0, r.heading, r.speed, r.timestamp,
                                    r.calories, r.incDistance, r.cumDistance, r.cycles,
                                    if i < |f.gps| then f.gps[i].heartRate else 0) &&
              (forall j :: 0 <= j < |f.gps| && j != i ==> g.gps[j] == f.gps[j]) &&
              (forall j :: |f.gps| <= j < |g.gps| && j != i ==> g.gps[j] == ZeroGps)
  {
    var b := Seed(base, r.timestamp);
    var i := SampleIndex(r.timestamp, b);
    if i >= 0 {
      PlaceShape(f.gps, i, ZeroGps, GpsFix(Slot(f.gps, i, ZeroGps), r));
    }
  }

  /** A treadmill sample with index `i`: only the treadmill series changes, in
      the same way, and slot `i` keeps its merged heart rate. */
  lemma TreadmillPlacement(base: uint32, f: Activity, r: FileTreadmill)
    ensures var b := Seed(base, r.timestamp);
            var i := SampleIndex(r.timestamp, b);
            match ApplyTreadmill(base, f, r)
            case NegativeIndex => i < 0
            case Applied(b', g) =>
              b' == b && 0 <= i && g.(treadmill := f.treadmill) == f &&
              |g.treadmill| == (if i < |f.treadmill| then |f.treadmill| else i + 1) &&
              g.treadmill[i] == TreadmillRecord(r.timestamp, r.distance, r.calories, r.steps,
                                                if i < |f.treadmill| then f.treadmill[i].heartRate else 0) &&
              (forall j :: 0 <= j < |f.treadmill| && j != i ==> g.treadmill[j] == f.treadmill[j]) &&
              (forall j :: |f.treadmill| <= j < |g.treadmill| && j != i ==> g.treadmill[j] == ZeroTreadmill)
  {
    var b := Seed(base, r.timestamp);
    var i := SampleIndex(r.timestamp, b);
    if i >= 0 {
      var slot := Slot(f.treadmill, i, ZeroTreadmill);
      PlaceShape(f.treadmill, i, ZeroTreadmill,
                 slot.(timestamp := r.timestamp, distance := r.distance, calories := r.calories, steps := r.steps));
    }
  }

  /** A swim sample with index `i`: only the swim series changes, in the same
      way, and slot `i` holds exactly the sample's fields. */
  lemma SwimPlacement(base: uint32, f: Activity, r: FileSwim)
    ensures var b := Seed(base, r.timestamp);
            var i := SampleIndex(r.timestamp, b);
            match ApplySwim(base, f, r)
            case NegativeIndex => i < 0
            case Applied(b', g) =>
              b' == b && 0 <= i && g.(swim := f.swim) == f &&
              |g.swim| == (if i < |f.swim| then |f.swim| else i + 1) &&
              g.swim[i] == SwimRecord(r.timestamp, r.totalDistance, r.strokes, r.completedLaps, r.totalCalories) &&
              (forall j :: 0 <= j < |f.swim| && j != i ==> g.swim[j] == f.swim[j]) &&
              (forall j :: |f.swim| <= j < |g.swim| && j != i ==> g.swim[j] == ZeroSwim)
  {
    var b := Seed(base, r.timestamp);
    var i := SampleIndex(r.timestamp, b);
    if i >= 0 {
      PlaceShape(f.swim, i, ZeroSwim, SwimRecord(r.timestamp, r.totalDistance, r.strokes, r.completedLaps, r.totalCalories));
    }
  }

  /** A heart-rate sample always sets the flag, and goes to exactly one place:
      into the GPS series if it has entries, else into the treadmill series if
      that has entries, else nowhere. The slot it lands in gets the heart rate
      and the timestamp `baseline + index` of the series it joins, and keeps
      its other fields, all zero when the merge creates it. */
  lemma HeartRateMerge(hrBase: uint32, gpsBase: uint32, treadmillBase: uint32, f: Activity, r: FileHeartRate)
    ensures var b := Seed(hrBase, r.timestamp);
            var i := SampleIndex(r.timestamp, b);
            match ApplyHeartRate(hrBase, gpsBase, treadmillBase, f, r)
            case NegativeIndex => i < 0 && (|f.gps| > 0 || |f.treadmill| > 0)
            case Applied(b', g) =>
              b' == b && g.hasHeartRate &&
              if |f.gps| > 0 then
                0 <= i && g.(hasHeartRate := f.hasHeartRate, gps := f.gps) == f &&
                |g.gps| == (if i < |f.gps| then |f.gps| else i + 1) &&
                g.gps[i] == (if i < |f.gps| then f.gps[i] else ZeroGps).(timestamp := Wrap(gpsBase + i),
                                                                      heartRate := r.heartRate) &&
                (forall j :: 0 <= j < |f.gps| && j != i ==> g.gps[j] == f.gps[j]) &&
                (forall j :: |f.gps| <= j < |g.gps| && j != i ==> g.gps[j] == ZeroGps)
              else if |f.treadmill| > 0 then
                0 <= i && g.(hasHeartRate := f.hasHeartRate, treadmill := f.treadmill) == f &&
                |g.treadmill| == (if i < |f.treadmill| then |f.treadmill| else i + 1) &&
                g.treadmill[i] == (if i < |f.treadmill| then f.treadmill[i] else ZeroTreadmill).(
                                    timestamp := Wrap(treadmillBase + i), heartRate := r.heartRate) &&
                (forall j :: 0 <= j < |f.treadmill| && j != i ==> g.treadmill[j] == f.treadmill[j]) &&
                (forall j :: |f.treadmill| <= j < |g.treadmill| && j != i ==> g.treadmill[j] == ZeroTreadmill)
              else
                g == f.(hasHeartRate := true)
  {
    var b := Seed(hrBase, r.timestamp);
    var i := SampleIndex(r.timestamp, b);
    if i >= 0 {
      if |f.gps| > 0 {
        var slot := Slot(f.gps, i, ZeroGps);
        PlaceShape(f.gps, i, ZeroGps, slot.(timestamp := Wrap(gpsBase + i), heartRate := r.heartRate));
      } else if |f.treadmill| > 0 {
        var slot := Slot(f.treadmill, i, ZeroTreadmill);
        PlaceShape(f.treadmill, i, ZeroTreadmill, slot.(timestamp := Wrap(treadmillBase + i), heartRate := r.heartRate));
      }
    }
  }
}
