/** The decoder as ttbin.c writes it (ttbin/ttbin.c:126-323): a file object
    whose fields are filled in place, a 24-slot length table, four baseline
    variables and a cursor, advanced record by record. Each part is proved
    to do what the functional model in `Stream` and `Assembler` says. */
module Ttbin {
  import opened Bytes
  import opened Records
  import opened LengthTable
  import opened Series
  import opened Assembler
  import opened Stream

  /** TTBIN_FILE, as decoding fills it in. */
  class ActivityFile {
    var fileVersion: uint8
    var firmwareVersion: seq<uint8>
    var productId: uint16
    var timestamp: uint32
    var activity: uint8
    var totalDistance: uint32
    var duration: uint32
    var totalCalories: uint16
    var hasHeartRate: bool
    var status: seq<StatusRecord>
    var gps: seq<GpsRecord>
    var treadmill: seq<TreadmillRecord>
    var swim: seq<SwimRecord>
    var laps: seq<LapRecord>

    /** The file's contents as a value. */
    function Snapshot(): Activity
      reads this
    {
      Activity(fileVersion, firmwareVersion, productId, timestamp, activity, totalDistance,
               duration, totalCalories, hasHeartRate, status, gps, treadmill, swim, laps)
    }

    /** `malloc` and `memset(file, 0, ...)` (ttbin/ttbin.c:146-147). */
    constructor ()
      ensures Snapshot() == EmptyActivity()
    {
      fileVersion, firmwareVersion, productId, timestamp := 0, [0, 0, 0, 0], 0, 0;
      activity, totalDistance, duration, totalCalories := 0, 0, 0, 0;
      hasHeartRate := false;
      status, gps, treadmill, swim, laps := [], [], [], [], [];
    }

    /** The identity fields of a header (ttbin/ttbin.c:162-165). */
    method SetHeader(h: FileHeader)
      modifies this
      ensures Snapshot() == ApplyHeader(old(Snapshot()), h)
    {
      fileVersion := h.fileVersion;
      firmwareVersion := h.firmwareVersion;
      productId := h.productId;
      timestamp := h.timestamp;
    }

    /** Tag 0x27 (ttbin/ttbin.c:167-173). */
    method SetSummary(r: FileSummary)
      modifies this
      ensures Snapshot() == ApplySummary(old(Snapshot()), r)
    {
      activity := r.activity;
      totalDistance := r.distance;
      duration := r.duration;
      totalCalories := r.calories;
    }

    /** Tag 0x21 (ttbin/ttbin.c:175-183). */
    method AddStatus(r: FileStatus)
      modifies this
      ensures Snapshot() == ApplyStatus(old(Snapshot()), r)
    {
      status := status + [StatusRecord(r.status, r.activity, r.timestamp)];
    }

    /** Tag 0x2f (ttbin/ttbin.c:253-261). */
    method AddLap(r: FileLap)
      modifies this
      ensures Snapshot() == ApplyLap(old(Snapshot()), r)
    {
      laps := laps + [LapRecord(r.totalTime, r.totalDistance, r.totalCalories)];
    }

    /** Tag 0x22 (ttbin/ttbin.c:184-213), given `initial_gps_time`; returns
        its new value, and false when the index is negative, in which case
        the file is left as it was. */
    method AddGps(base: uint32, r: FileGps) returns (newBase: uint32, placed: bool)
      modifies this
      ensures ApplyGps(base, old(Snapshot()), r) ==
              if placed then Applied(newBase, Snapshot()) else Effect.NegativeIndex
      ensures !placed ==> Snapshot() == old(Snapshot())
    {
      newBase := base;
      if newBase == 0 {
        newBase := r.timestamp;
      }
      if r.timestamp == GPS_SIGNAL_LOST {
        return newBase, true;
      }
      var index := SampleIndex(r.timestamp, newBase);
      if index < 0 {
        return newBase, false;
      }
      if index >= |gps| {
        gps := GrowTo(gps, index, ZeroGps);
      }
      gps := gps[index := GpsFix(gps[index], r)];
      placed := true;
    }

    /** Tag 0x32 (ttbin/ttbin.c:263-282), given `initial_treadmill_time`. */
    method AddTreadmill(base: uint32, r: FileTreadmill) returns (newBase: uint32, placed: bool)
      modifies this
      ensures ApplyTreadmill(base, old(Snapshot()), r) ==
              if placed then Applied(newBase, Snapshot()) else Effect.NegativeIndex
      ensures !placed ==> Snapshot() == old(Snapshot())
    {
      newBase := base;
      if newBase == 0 {
        newBase := r.timestamp;
      }
      var index := SampleIndex(r.timestamp, newBase);
      if index < 0 {
        return newBase, false;
      }
      if index >= |treadmill| {
        treadmill := GrowTo(treadmill, index, ZeroTreadmill);
      }
      treadmill := treadmill[index := treadmill[index].(timestamp := r.timestamp, distance := r.distance,
                                                        calories := r.calories, steps := r.steps)];
      placed := true;
    }

    /** Tag 0x34 (ttbin/ttbin.c:284-305), given `initial_swim_time`. */
    method AddSwim(base: uint32, r: FileSwim) returns (newBase: uint32, placed: bool)
      modifies this
      ensures ApplySwim(base, old(Snapshot()), r) ==
              if placed then Applied(newBase, Snapshot()) else Effect.NegativeIndex
      ensures !placed ==> Snapshot() == old(Snapshot())
    {
      newBase := base;
      if newBase == 0 {
        newBase := r.timestamp;
      }
      var index := SampleIndex(r.timestamp, newBase);
      if index < 0 {
        return newBase, false;
      }
      if index >= |swim| {
        swim := GrowTo(swim, index, ZeroSwim);
      }
      swim := swim[index := SwimRecord(r.timestamp, r.totalDistance, r.strokes, r.completedLaps, r.totalCalories)];
      placed := true;
    }

    /** Tag 0x25 (ttbin/ttbin.c:215-251), given `initial_hr_time`,
        `initial_gps_time` and `initial_treadmill_time`; returns the new
        `initial_hr_time`. */
    method AddHeartRate(hrBase: uint32, gpsBase: uint32, treadmillBase: uint32, r: FileHeartRate)
      returns (newBase: uint32, placed: bool)
      modifies this
      ensures ApplyHeartRate(hrBase, gpsBase, treadmillBase, old(Snapshot()), r) ==
              if placed then Applied(newBase, Snapshot()) else Effect.NegativeIndex
      ensures !placed ==> Snapshot() == old(Snapshot())
    {
      newBase := hrBase;
      if newBase == 0 {
        newBase := r.timestamp;
      }
      var index := SampleIndex(r.timestamp, newBase);
      if (|gps| > 0 || |treadmill| > 0) && index < 0 {
        return newBase, false;
      }
      hasHeartRate := true;
      if |gps| > 0 {
        if index >= |gps| {
          gps := GrowTo(gps, index, ZeroGps);
        }
        gps := gps[index := gps[index].(timestamp := Wrap(gpsBase + index), heartRate := r.heartRate)];
      } else if |treadmill| > 0 {
        if index >= |treadmill| {
          treadmill := GrowTo(treadmill, index, ZeroTreadmill);
        }
        treadmill := treadmill[index := treadmill[index].(timestamp := Wrap(treadmillBase + index),
                                                          heartRate := r.heartRate)];
      }
      placed := true;
    }
  }

  /** The `switch` of ttbin/ttbin.c:154-310 for a record other than a header:
      decode the body the tag calls for and apply it to the file, given the
      four baselines; returns their new values, and false when a sample's
      index is negative. */
  method ApplyRecord(file: ActivityFile, tag: uint8, body: seq<uint8>,
                     gpsBase: uint32, hrBase: uint32, treadmillBase: uint32, swimBase: uint32)
    returns (gps: uint32, hr: uint32, treadmill: uint32, swim: uint32, placed: bool)
    requires |body| == BodySize(tag)
    modifies file
    ensures Assemble(Baselines(gpsBase, hrBase, treadmillBase, swimBase), old(file.Snapshot()), DecodeBody(tag, body)) ==
            if placed then Assembled(Baselines(gps, hr, treadmill, swim), file.Snapshot())
            else Faulted(Fault.NegativeIndex)
    ensures !placed ==> file.Snapshot() == old(file.Snapshot())
  {
    gps, hr, treadmill, swim, placed := gpsBase, hrBase, treadmillBase, swimBase, true;
    if tag == TAG_SUMMARY {
      file.SetSummary(DecodeSummary(body));
    } else if tag == TAG_STATUS {
      file.AddStatus(DecodeStatus(body));
    } else if tag == TAG_GPS {
      gps, placed := file.AddGps(gpsBase, DecodeGps(body));
    } else if tag == TAG_HEART_RATE {
      hr, placed := file.AddHeartRate(hrBase, gpsBase, treadmillBase, DecodeHeartRate(body));
    } else if tag == TAG_LAP {
      file.AddLap(DecodeLap(body));
    } else if tag == TAG_TREADMILL {
      treadmill, placed := file.AddTreadmill(treadmillBase, DecodeTreadmill(body));
    } else if tag == TAG_SWIM {
      swim, placed := file.AddSwim(swimBase, DecodeSwim(body));
    }
  }

  /** The header case (ttbin/ttbin.c:156-165): copy the fixed header, copy
      `length_count` entries over the first slots of the table, and set the
      file's identity fields. Returns the cursor after the entries, or the
      fault that stops the pass. */
  method LoadHeader(data: seq<uint8>, pos: nat, table: array<RecordLength>, file: ActivityFile, ghost base: Baselines)
    returns (next: nat, fault: Option<Fault>)
    requires pos < |data| && TableOk(table[..])
    modifies table, file
    ensures var d := Decoder(pos, old(table[..]), base, old(file.Snapshot()));
            HeaderStep(data, d) ==
            match fault
            case Some(f) => Halt(f, file.Snapshot())
            case None => Continue(Decoder(next, table[..], base, file.Snapshot()))
  {
    ghost var d := Decoder(pos, table[..], base, file.Snapshot());
    if pos + 1 + HeaderSize > |data| {
      return pos, Some(Truncated);
    }
    var header := DecodeHeader(data[pos + 1..pos + 1 + HeaderSize]);
    var count := header.lengthCount;
    if count >= TableSize {
      return pos, Some(TableOverflow);
    }
    var first := pos + 1 + HeaderSize;
    if first + 3 * count > |data| {
      return pos, Some(Truncated);
    }
    var entries := EntriesAt(data, first, count);
    LoadLengths(table, entries);
    file.SetHeader(header);
    next, fault := first + 3 * count, None;
    assert ReadHeader(data, pos + 1) == HeaderRead(header, entries, next);
  }

  /** Any other record (ttbin/ttbin.c:166-319): decode and apply its body,
      then skip it by its declared length. Returns the cursor after it and
      the new baselines, or the fault that stops the pass. */
  method LoadRecord(data: seq<uint8>, pos: nat, table: array<RecordLength>, file: ActivityFile,
                    gpsBase: uint32, hrBase: uint32, treadmillBase: uint32, swimBase: uint32)
    returns (next: nat, gps: uint32, hr: uint32, treadmill: uint32, swim: uint32, fault: Option<Fault>)
    requires pos < |data| && TableOk(table[..])
    modifies file
    ensures var d := Decoder(pos, table[..], Baselines(gpsBase, hrBase, treadmillBase, swimBase), old(file.Snapshot()));
            RecordStep(data, d) ==
            match fault
            case Some(f) => Halt(f, file.Snapshot())
            case None => Continue(Decoder(next, table[..], Baselines(gps, hr, treadmill, swim), file.Snapshot()))
  {
    var tag := data[pos];
    var size := BodySize(tag);
    next := pos;
    if pos + 1 + size > |data| {
      return pos, gpsBase, hrBase, treadmillBase, swimBase, Some(Truncated);
    }
    var placed;
    gps, hr, treadmill, swim, placed :=
      ApplyRecord(file, tag, data[pos + 1..pos + 1 + size], gpsBase, hrBase, treadmillBase, swimBase);
    if !placed {
      return pos, gps, hr, treadmill, swim, Some(Fault.NegativeIndex);
    }
    var length := Lookup(table, tag);
    match length
    case None =>
      next, fault := pos + 1, None;
    case Some(n) =>
      if n == 0 {
        fault := Some(Stalled);
      } else {
        next, fault := pos + n, None;
      }
  }

  /** `parse_ttbin_data`: decode the buffer into a new file. It returns
      exactly the activity and outcome of the functional pass `Decode`. */
  method Parse(data: seq<uint8>) returns (file: ActivityFile, outcome: Outcome)
    ensures fresh(file)
    ensures (file.Snapshot(), outcome) == Decode(data)
  {
    file := new ActivityFile();
    var table := new RecordLength[TableSize](_ => RecordLength(0, 0));
    var initialGpsTime: uint32, initialHrTime: uint32 := 0, 0;
    var initialTreadmillTime: uint32, initialSwimTime: uint32 := 0, 0;
    var pos: nat := 0;
    assert table[..] == EmptyTable();
    while pos < |data|
      invariant fresh(file) && fresh(table) && TableOk(table[..])
      invariant Run(data, Decoder(pos, table[..], Baselines(initialGpsTime, initialHrTime, initialTreadmillTime, initialSwimTime),
                                  file.Snapshot())) == Decode(data)
      decreases |data| - pos
    {
      ghost var d := Decoder(pos, table[..], Baselines(initialGpsTime, initialHrTime, initialTreadmillTime, initialSwimTime),
                             file.Snapshot());
      var next, fault;
      if data[pos] == TAG_FILE_HEADER {
        next, fault := LoadHeader(data, pos, table, file, d.base);
      } else {
        next, initialGpsTime, initialHrTime, initialTreadmillTime, initialSwimTime, fault :=
          LoadRecord(data, pos, table, file, initialGpsTime, initialHrTime, initialTreadmillTime, initialSwimTime);
      }
      if fault.Some? {
        return file, Halted(pos, fault.value);
      }
      pos := next;
    }
    outcome := Complete;
  }
}
