/** The tags and the packed on-disk bodies of TTBIN records (ttbin/ttbin.c:16-101).
    Each body is decoded from the bytes that follow its one-byte tag. Float
    fields (distances) are carried as their raw 32-bit patterns; latitude and
    longitude stay in their fixed-point form (degrees times 1e7). */
module Records {
  import opened Bytes
  import opened Packed

  const TAG_FILE_HEADER: uint8 := 0x20
  const TAG_STATUS: uint8 := 0x21
  const TAG_GPS: uint8 := 0x22
  const TAG_HEART_RATE: uint8 := 0x25
  const TAG_SUMMARY: uint8 := 0x27
  const TAG_LAP: uint8 := 0x2f
  const TAG_TREADMILL: uint8 := 0x32
  const TAG_SWIM: uint8 := 0x34

  /** GPS timestamp the watch writes when it has lost the satellite signal. */
  const GPS_SIGNAL_LOST: uint32 := 0xffff_ffff

  // Field widths of each packed struct, in declaration order.
  const HeaderLayout: seq<nat> := [1, 1, 1, 1, 1, 2, 4, 105, 1]
  const SummaryLayout: seq<nat> := [1, 4, 4, 2]
  const GpsLayout: seq<nat> := [4, 4, 2, 2, 4, 2, 4, 4, 1]
  const HeartRateLayout: seq<nat> := [1, 1, 4]
  const StatusLayout: seq<nat> := [1, 1, 4]
  const TreadmillLayout: seq<nat> := [4, 4, 2, 4, 2]
  const SwimLayout: seq<nat> := [4, 4, 1, 1, 4, 4, 2]
  const LapLayout: seq<nat> := [4, 4, 2]

  const HeaderSize: nat := 117
  const SummarySize: nat := 11
  const GpsSize: nat := 27
  const HeartRateSize: nat := 6
  const StatusSize: nat := 6
  const TreadmillSize: nat := 16
  const SwimSize: nat := 20
  const LapSize: nat := 10

  lemma LayoutSizes()
    ensures Sum(HeaderLayout) == HeaderSize && Sum(SummaryLayout) == SummarySize
    ensures Sum(GpsLayout) == GpsSize && Sum(HeartRateLayout) == HeartRateSize
    ensures Sum(StatusLayout) == StatusSize && Sum(TreadmillLayout) == TreadmillSize
    ensures Sum(SwimLayout) == SwimSize && Sum(LapLayout) == LapSize
  {
    assert |HeaderLayout| == 9 && |SummaryLayout| == 4 && |GpsLayout| == 9 && |HeartRateLayout| == 3;
    assert |StatusLayout| == 3 && |TreadmillLayout| == 5 && |SwimLayout| == 7 && |LapLayout| == 3;
  }

  /** FILE_HEADER; the 105 unknown bytes are skipped. */
  datatype FileHeader = FileHeader(
    fileVersion: uint8,
    firmwareVersion: seq<uint8>,
    productId: uint16,
    timestamp: uint32,
    lengthCount: uint8)

  /** FILE_SUMMARY_RECORD. */
  datatype FileSummary = FileSummary(activity: uint8, distance: uint32, duration: uint32, calories: uint16)

  /** FILE_GPS_RECORD. */
  datatype FileGps = FileGps(
    latitude: int32,
    longitude: int32,
    heading: uint16,
    speed: uint16,
    timestamp: uint32,
    calories: uint16,
    incDistance: uint32,
    cumDistance: uint32,
    cycles: uint8)

  /** FILE_HEART_RATE_RECORD; the unknown byte is skipped. */
  datatype FileHeartRate = FileHeartRate(heartRate: uint8, timestamp: uint32)

  /** FILE_STATUS_RECORD. */
  datatype FileStatus = FileStatus(status: uint8, activity: uint8, timestamp: uint32)

  /** FILE_TREADMILL_RECORD; the trailing unknown half-word is skipped. */
  datatype FileTreadmill = FileTreadmill(timestamp: uint32, distance: uint32, calories: uint16, steps: uint32)

  /** FILE_SWIM_RECORD; the two unknown bytes are skipped. */
  datatype FileSwim = FileSwim(
    timestamp: uint32,
    totalDistance: uint32,
    strokes: uint32,
    completedLaps: uint32,
    totalCalories: uint16)

  /** FILE_LAP_RECORD. */
  datatype FileLap = FileLap(totalTime: uint32, totalDistance: uint32, totalCalories: uint16)

  /** The unsigned `width`-byte field at offset `off` of a record body. */
  function Field(s: seq<uint8>, off: nat, width: nat): (v: nat)
    requires off + width <= |s|
    ensures v < Pow256(width)
  {
    LittleEndian(s[off..off + width])
  }

  // Decoders read each field at its offset in the packed struct; encoders lay
  // the fields out with Pack. The round-trip lemmas below show that the two
  // agree, that is, that every offset is the sum of the widths before it.

  function DecodeHeader(s: seq<uint8>): FileHeader
    requires |s| == HeaderSize
  {
    FileHeader(s[0], s[1..5], Field(s, 5, 2), Field(s, 7, 4), s[116])
  }

  function EncodeHeader(h: FileHeader): (s: seq<uint8>)
    requires |h.firmwareVersion| == 4
    ensures |s| == HeaderSize
  {
    LayoutSizes();
    Pack(HeaderValues(h), HeaderLayout)
  }

  function DecodeSummary(s: seq<uint8>): FileSummary
    requires |s| == SummarySize
  {
    FileSummary(s[0], Field(s, 1, 4), Field(s, 5, 4), Field(s, 9, 2))
  }

  function EncodeSummary(r: FileSummary): (s: seq<uint8>)
    ensures |s| == SummarySize
  {
    LayoutSizes();
    Pack([r.activity, r.distance, r.duration, r.calories], SummaryLayout)
  }

  function DecodeGps(s: seq<uint8>): FileGps
    requires |s| == GpsSize
  {
    FileGps(Signed32(Field(s, 0, 4)), Signed32(Field(s, 4, 4)), Field(s, 8, 2), Field(s, 10, 2),
            Field(s, 12, 4), Field(s, 16, 2), Field(s, 18, 4), Field(s, 22, 4), s[26])
  }

  function EncodeGps(r: FileGps): (s: seq<uint8>)
    ensures |s| == GpsSize
  {
    LayoutSizes();
    Pack(GpsValues(r), GpsLayout)
  }

  function DecodeHeartRate(s: seq<uint8>): FileHeartRate
    requires |s| == HeartRateSize
  {
    FileHeartRate(s[0], Field(s, 2, 4))
  }

  function EncodeHeartRate(r: FileHeartRate): (s: seq<uint8>)
    ensures |s| == HeartRateSize
  {
    LayoutSizes();
    Pack([r.heartRate, 0, r.timestamp], HeartRateLayout)
  }

  function DecodeStatus(s: seq<uint8>): FileStatus
    requires |s| == StatusSize
  {
    FileStatus(s[0], s[1], Field(s, 2, 4))
  }

  function EncodeStatus(r: FileStatus): (s: seq<uint8>)
    ensures |s| == StatusSize
  {
    LayoutSizes();
    Pack([r.status, r.activity, r.timestamp], StatusLayout)
  }

  function DecodeTreadmill(s: seq<uint8>): FileTreadmill
    requires |s| == TreadmillSize
  {
    FileTreadmill(Field(s, 0, 4), Field(s, 4, 4), Field(s, 8, 2), Field(s, 10, 4))
  }

  function EncodeTreadmill(r: FileTreadmill): (s: seq<uint8>)
    ensures |s| == TreadmillSize
  {
    LayoutSizes();
    Pack([r.timestamp, r.distance, r.calories, r.steps, 0], TreadmillLayout)
  }

  function DecodeSwim(s: seq<uint8>): FileSwim
    requires |s| == SwimSize
  {
    FileSwim(Field(s, 0, 4), Field(s, 4, 4), Field(s, 10, 4), Field(s, 14, 4), Field(s, 18, 2))
  }

  function EncodeSwim(r: FileSwim): (s: seq<uint8>)
    ensures |s| == SwimSize
  {
    LayoutSizes();
    Pack([r.timestamp, r.totalDistance, 0xff, 0, r.strokes, r.completedLaps, r.totalCalories], SwimLayout)
  }

  function DecodeLap(s: seq<uint8>): FileLap
    requires |s| == LapSize
  {
    FileLap(Field(s, 0, 4), Field(s, 4, 4), Field(s, 8, 2))
  }

  function EncodeLap(r: FileLap): (s: seq<uint8>)
    ensures |s| == LapSize
  {
    LayoutSizes();
    Pack([r.totalTime, r.totalDistance, r.totalCalories], LapLayout)
  }

  /** A one-byte field is the byte itself. */
  lemma ByteField(s: seq<uint8>, k: nat)
    requires k < |s|
    ensures Field(s, k, 1) == s[k]
  {
    assert s[k..k + 1][1..] == [];
  }

  /** Field `k` of layout `widths`, once packed, reads back at offset `off` as `values[k]`. */
  lemma {:induction false} PackedField(values: seq<nat>, widths: seq<nat>, k: nat, off: nat)
    requires Fits(values, widths) && k < |widths| && off == Offset(widths, k)
    ensures off + widths[k] <= Sum(widths)
    ensures Field(Pack(values, widths), off, widths[k]) == values[k]
  {
    FieldOfPack(values, widths, k);
  }

  /** As PackedField, for a one-byte field. */
  lemma PackedByte(values: seq<nat>, widths: seq<nat>, k: nat, off: nat)
    requires Fits(values, widths) && k < |widths| && off == Offset(widths, k) && widths[k] == 1
    ensures off < Sum(widths) && Pack(values, widths)[off] == values[k]
  {
    PackedField(values, widths, k, off);
    ByteField(Pack(values, widths), off);
  }

  /** The values EncodeHeader packs, field by field. */
  function HeaderValues(h: FileHeader): (v: seq<nat>)
    requires |h.firmwareVersion| == 4
    ensures Fits(v, HeaderLayout)
  {
    var fw := h.firmwareVersion;
    [h.fileVersion, fw[0], fw[1], fw[2], fw[3], h.productId, h.timestamp, 0, h.lengthCount]
  }

  lemma HeaderBytesRoundTrip(h: FileHeader)
    requires |h.firmwareVersion| == 4
    ensures var s := EncodeHeader(h);
      s[0] == h.fileVersion && s[1..5] == h.firmwareVersion && s[116] == h.lengthCount
  {
    LayoutSizes();
    var v := HeaderValues(h);
    var s := EncodeHeader(h);
    assert s == Pack(v, HeaderLayout);
    PackedByte(v, HeaderLayout, 0, 0);
    PackedByte(v, HeaderLayout, 1, 1);
    PackedByte(v, HeaderLayout, 2, 2);
    PackedByte(v, HeaderLayout, 3, 3);
    PackedByte(v, HeaderLayout, 4, 4);
    PackedByte(v, HeaderLayout, 8, 116);
    assert s[1..5] == h.firmwareVersion;
  }

  lemma HeaderRoundTrip(h: FileHeader)
    requires |h.firmwareVersion| == 4
    ensures DecodeHeader(EncodeHeader(h)) == h
  {
    LayoutSizes();
    var v := HeaderValues(h);
    assert EncodeHeader(h) == Pack(v, HeaderLayout);
    HeaderBytesRoundTrip(h);
    PackedField(v, HeaderLayout, 5, 5);
    PackedField(v, HeaderLayout, 6, 7);
  }

  lemma SummaryRoundTrip(r: FileSummary)
    ensures DecodeSummary(EncodeSummary(r)) == r
  {
    LayoutSizes();
    var v: seq<nat> := [r.activity, r.distance, r.duration, r.calories];
    assert Fits(v, SummaryLayout);
    PackedByte(v, SummaryLayout, 0, 0);
    PackedField(v, SummaryLayout, 1, 1);
    PackedField(v, SummaryLayout, 2, 5);
    PackedField(v, SummaryLayout, 3, 9);
  }

  /** The values EncodeGps packs, field by field. */
  function GpsValues(r: FileGps): (v: seq<nat>)
    ensures Fits(v, GpsLayout)
  {
    [Unsigned32(r.latitude), Unsigned32(r.longitude), r.heading, r.speed, r.timestamp,
     r.calories, r.incDistance, r.cumDistance, r.cycles]
  }

  lemma GpsRoundTrip(r: FileGps)
    ensures DecodeGps(EncodeGps(r)) == r
  {
    LayoutSizes();
    var v := GpsValues(r);
    assert EncodeGps(r) == Pack(v, GpsLayout);
    PackedField(v, GpsLayout, 0, 0);
    PackedField(v, GpsLayout, 1, 4);
    SignedUnsigned(r.latitude);
    SignedUnsigned(r.longitude);
    PackedField(v, GpsLayout, 2, 8);
    PackedField(v, GpsLayout, 3, 10);
    PackedField(v, GpsLayout, 4, 12);
    PackedField(v, GpsLayout, 5, 16);
    PackedField(v, GpsLayout, 6, 18);
    PackedField(v, GpsLayout, 7, 22);
    PackedByte(v, GpsLayout, 8, 26);
  }

  lemma HeartRateRoundTrip(r: FileHeartRate)
    ensures DecodeHeartRate(EncodeHeartRate(r)) == r
  {
    LayoutSizes();
    var v: seq<nat> := [r.heartRate, 0, r.timestamp];
    assert Fits(v, HeartRateLayout);
    PackedByte(v, HeartRateLayout, 0, 0);
    PackedField(v, HeartRateLayout, 2, 2);
  }

  lemma StatusRoundTrip(r: FileStatus)
    ensures DecodeStatus(EncodeStatus(r)) == r
  {
    LayoutSizes();
    var v: seq<nat> := [r.status, r.activity, r.timestamp];
    assert Fits(v, StatusLayout);
    PackedByte(v, StatusLayout, 0, 0);
    PackedByte(v, StatusLayout, 1, 1);
    PackedField(v, StatusLayout, 2, 2);
  }

  lemma TreadmillRoundTrip(r: FileTreadmill)
    ensures DecodeTreadmill(EncodeTreadmill(r)) == r
  {
    LayoutSizes();
    var v: seq<nat> := [r.timestamp, r.distance, r.calories, r.steps, 0];
    assert Fits(v, TreadmillLayout);
    PackedField(v, TreadmillLayout, 0, 0);
    PackedField(v, TreadmillLayout, 1, 4);
    PackedField(v, TreadmillLayout, 2, 8);
    PackedField(v, TreadmillLayout, 3, 10);
  }

  lemma SwimRoundTrip(r: FileSwim)
    ensures DecodeSwim(EncodeSwim(r)) == r
  {
    LayoutSizes();
    var v: seq<nat> := [r.timestamp, r.totalDistance, 0xff, 0, r.strokes, r.completedLaps, r.totalCalories];
    assert Fits(v, SwimLayout);
    PackedField(v, SwimLayout, 0, 0);
    PackedField(v, SwimLayout, 1, 4);
    PackedField(v, SwimLayout, 4, 10);
    PackedField(v, SwimLayout, 5, 14);
    PackedField(v, SwimLayout, 6, 18);
  }

  lemma LapRoundTrip(r: FileLap)
    ensures DecodeLap(EncodeLap(r)) == r
  {
    LayoutSizes();
    var v: seq<nat> := [r.totalTime, r.totalDistance, r.totalCalories];
    assert Fits(v, LapLayout);
    PackedField(v, LapLayout, 0, 0);
    PackedField(v, LapLayout, 1, 4);
    PackedField(v, LapLayout, 2, 8);
  }
}
