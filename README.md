# TTBIN record-stream decoder, modelled in Dafny

This project models `parse_ttbin_data` (ttbin/ttbin.c:126-323). That C function
turns the raw contents of a TomTom `.ttbin` activity file into an in-memory
activity: identity fields, a summary, status and lap lists, and sparse
GPS, heart-rate, treadmill and swim series.

A TTBIN file is a stream of records. Each record starts with a one-byte tag:

- A file header (tag 0x20) holds a fixed 117-byte part. It ends with
  `length_count`, followed by that many 3-byte (tag, length) entries. The
  entries are copied over the first slots of a 24-slot, zero-initialised
  length table.
- Any other record has its fixed body decoded according to its tag (summary,
  status, GPS, heart rate, lap, treadmill, swim; anything else is ignored).
  The cursor then moves past the record by the length the table declares for
  that tag. A tag the table does not declare moves the cursor one byte.
- GPS, treadmill and swim samples go into their series at slot
  `timestamp - baseline`. A series' baseline is the first non-zero timestamp
  it saw. The series grows with zero slots when needed.
- Heart-rate samples are merged into the GPS series if it has entries, else
  into the treadmill series if that has entries, else dropped. They always
  set `has_heart_rate`.
- A GPS record whose timestamp is 0xffffffff (signal lost) seeds the
  baseline but is otherwise ignored.
- When the table declares a tag more than once, the first entry wins.
- A heart-rate sample merged into a series overwrites the slot's timestamp
  with `baseline + index` of that series.
- Nothing requires the header to come first, and nothing caps the size of a
  series. The code reports no errors of its own.

The model has two layers:

- A functional reference:
  - `Bytes`: little-endian integers.
  - `Packed`: packed struct layouts.
  - `Records`: the record bodies and their round trips.
  - `LengthTable`: the length table and its scan.
  - `Series`: sparse series growth.
  - `Assembler`: what each record does to the activity.
  - `Stream`: one step of the cursor, the whole pass `Decode`, and
    properties over the whole pass.
- An imperative layer, `Ttbin`. It uses an `ActivityFile` class whose fields
  are updated in place, the 24-slot table as an `array`, and a `Parse`
  method with the source's `while (data < end)` loop. Each method is proved
  to do exactly what the functional layer says. `Parse` returns the activity
  and outcome of `Decode`.

Where the C code has undefined behaviour, the model mostly halts and reports
where and why. The exceptions are the `memset` calls at ttbin/ttbin.c:244 and
:296, where the model does not halt but zero-fills the series being grown, as
intended. Every such case is listed under "## Left out".

The header ttbin.h is not part of this model. The fields of `TTBIN_FILE` and
of the per-sample structs come from how ttbin.c uses them.

## Model

| member | source | states |
|---|---|---|
| `Bytes.LittleEndianRoundTrip` | ttbin/ttbin.c:31-39 | a field of `w` bytes that stores `x < 256^w` reads back as `x` (the little-endian `memcpy` of packed fields) |
| `Bytes.Signed32` | ttbin/ttbin.c:135 | the `int` reading of a 32-bit pattern agrees with it modulo 2^32, and is non-negative exactly when the pattern is below 2^31 |
| `Records.LayoutSizes` | ttbin/ttbin.c:25-101 | the packed structs are 117, 11, 27, 6, 6, 16, 20 and 10 bytes long (header, summary, GPS, heart rate, status, treadmill, swim, lap) |
| `Records.HeaderBytesRoundTrip` | ttbin/ttbin.c:31-39 | in an encoded header, byte 0 is the file version, bytes 1-4 are the firmware version and byte 116 is `length_count` |
| `Records.HeaderRoundTrip` | ttbin/ttbin.c:31-39 | decoding an encoded FILE_HEADER gives back every field it carries |
| `Records.SummaryRoundTrip` | ttbin/ttbin.c:41-47 | decoding an encoded FILE_SUMMARY_RECORD gives it back |
| `Records.GpsRoundTrip` | ttbin/ttbin.c:49-60 | decoding an encoded FILE_GPS_RECORD gives it back, with signed latitude and longitude |
| `Records.HeartRateRoundTrip` | ttbin/ttbin.c:62-67 | decoding an encoded FILE_HEART_RATE_RECORD gives back its heart rate and timestamp |
| `Records.StatusRoundTrip` | ttbin/ttbin.c:69-74 | decoding an encoded FILE_STATUS_RECORD gives it back |
| `Records.TreadmillRoundTrip` | ttbin/ttbin.c:76-83 | decoding an encoded FILE_TREADMILL_RECORD gives back its timestamp, distance, calories and steps |
| `Records.SwimRoundTrip` | ttbin/ttbin.c:85-94 | decoding an encoded FILE_SWIM_RECORD gives back the fields the decoder uses |
| `Records.LapRoundTrip` | ttbin/ttbin.c:96-101 | decoding an encoded FILE_LAP_RECORD gives it back |
| `LengthTable.EmptyTable` | ttbin/ttbin.c:129 | the length table starts with 24 slots, every one of them `(0, 0)` |
| `LengthTable.EntriesRoundTrip` | ttbin/ttbin.c:25-29 | decoding the 3-byte RECORD_LENGTH entries of an encoded list gives the list back |
| `LengthTable.ScanStop` | ttbin/ttbin.c:314-316 | on a table ending in a zero slot, the scan stops at the first slot whose tag matches or is zero, and every slot before it neither matches nor is zero |
| `LengthTable.ZeroTagStallsAsWritten` | ttbin/ttbin.c:312-319 | as written, a 0x00 tag matches the zero terminator, and the cursor after the record equals the record's own position |
| `LengthTable.FirstMatchWins` | ttbin/ttbin.c:314-318 | a tag has declared length `len` if and only if the tag is non-zero and its first entry before any zero slot is `(tag, len)` |
| `LengthTable.DeclaredZeroEntryAsWritten` | ttbin/ttbin.c:314-318 | when the first entry a header declares is `(0x00, len)`, the lookup as written gives tag 0x00 the length `len`, while the corrected lookup gives it none |
| `LengthTable.ZeroTagNeverDeclared` | ttbin/ttbin.c:314-318 | the corrected lookup never takes the terminator as a declaration for tag 0 |
| `LengthTable.Lookup` | ttbin/ttbin.c:314-318 | the in-place scan over the 24-slot array returns exactly the declared length of the tag |
| `LengthTable.LoadLengths` | ttbin/ttbin.c:159 | the header's entries overwrite the first slots of the table, and every later slot keeps what it held |
| `Series.GrowTo` | ttbin/ttbin.c:196-202 | growing a series to cover `index` gives `index + 1` slots if it was shorter (unchanged otherwise), keeps the old prefix, and makes every new slot zero |
| `Series.PlaceShape` | ttbin/ttbin.c:196-213 | after a store at `index`, slot `index` holds the value, every other old slot keeps its value, every new slot is zero, and the length is `max(len, index + 1)` |
| `Assembler.EmptyActivity` | ttbin/ttbin.c:146-147 | the new file has every identity and summary field zero, four zero firmware bytes, no heart rate and empty series |
| `Assembler.SampleIndex` | ttbin/ttbin.c:194 | the slot index is the 32-bit difference `timestamp - baseline` read as a C `int`: non-negative exactly when the wrapped difference is below 2^31 |
| `Assembler.IndexIsElapsedTime` | ttbin/ttbin.c:194 | a timestamp less than 2^31 seconds after its baseline lands at the elapsed seconds |
| `Assembler.FirstSampleAtZero` | ttbin/ttbin.c:187-194 | the sample that sets a baseline lands at slot 0 |
| `Assembler.ApplySummary` | ttbin/ttbin.c:167-173 | a summary sets activity, total distance, duration and total calories to the record's values and changes nothing else |
| `Assembler.StatusAppends` | ttbin/ttbin.c:175-183 | a status record appends exactly one entry holding its fields, and nothing else in the file changes |
| `Assembler.LapAppends` | ttbin/ttbin.c:253-261 | a lap record appends exactly one entry holding its fields, and nothing else in the file changes |
| `Assembler.LostSignalKeepsSeries` | ttbin/ttbin.c:184-192 | a 0xffffffff GPS timestamp leaves the file unchanged but seeds a zero GPS baseline with 0xffffffff |
| `Assembler.GpsPlacement` | ttbin/ttbin.c:184-213 | a GPS fix at index `i` changes only the GPS series; it grows to `i + 1` if shorter; slot `i` gets the fix with elevation 0 and keeps its heart rate; the other slots keep their values or are zero; a negative index is reported |
| `Assembler.TreadmillPlacement` | ttbin/ttbin.c:262-283 | a treadmill sample changes only the treadmill series, in the same way; slot `i` keeps its merged heart rate |
| `Assembler.SwimPlacement` | ttbin/ttbin.c:284-306 | a swim sample changes only the swim series, in the same way; slot `i` holds exactly the sample's fields |
| `Assembler.Wrap` | ttbin/ttbin.c:235 | `baseline + index` in `uint32_t` arithmetic equals the plain sum when that sum fits in 32 bits |
| `Assembler.HeartRateMerge` | ttbin/ttbin.c:215-252 | a heart-rate sample always sets `has_heart_rate`; it lands in the GPS series if that has entries, else in the treadmill series if that has entries, else nowhere; the slot it lands in gets the heart rate and timestamp `baseline + index` of that series and keeps its other fields, all zero when the merge creates the slot; every other slot is kept or zero-filled |
| `Stream.AssembleBaselines` | ttbin/ttbin.c:184-305 | each of the four baselines is set only by a record of its own series and only while it is zero, to that record's timestamp; every other record keeps it |
| `Stream.StepKeepsBaselines` | ttbin/ttbin.c:151-319 | no step of the pass changes a non-zero baseline, and a header step changes none |
| `Stream.ApplyHeader` | ttbin/ttbin.c:162-165 | a header sets file version, firmware version, product id and timestamp, and changes nothing else |
| `Stream.ReadHeader` | ttbin/ttbin.c:157-160 | a readable header declares fewer than 24 entries, yields exactly `length_count` of them, and ends `117 + 3 * length_count` bytes after its fixed part starts |
| `Stream.HeaderStepCursor` | ttbin/ttbin.c:156-166 | a header record moves the cursor past `1 + 117 + 3n` bytes, where `n` is its last fixed byte, without consulting the table; it keeps slots `n..` and the baselines, and applies the header's identity; when it continues, the new cursor is at most the end of the buffer |
| `Stream.HeaderStepHalts` | ttbin/ttbin.c:156-160 | a header record halts, with the file unchanged, only when `n >= 24` (TableOverflow) or the buffer ends inside the fixed part or the entries (Truncated) |
| `Stream.ReadHeaderOf` | ttbin/ttbin.c:157-160 | bytes that decode to a header with `n < 24` followed by `n` entries read as that header and those entries |
| `Stream.HeaderStepOf` | ttbin/ttbin.c:156-165 | once read, a header step puts the entries in front of the rest of the old table, keeps the baselines and applies the header's identity |
| `Stream.NextCursor` | ttbin/ttbin.c:311-319 | whenever the cursor moves past a non-header record, it strictly advances |
| `Stream.RecordStepCursor` | ttbin/ttbin.c:311-319 | a non-header record leaves the table unchanged; it advances by its declared length, which is then at least 1, or by one byte when its tag is undeclared; it stalls only when the declared length is 0 |
| `Stream.NoStallWhenLengthsPositive` | ttbin/ttbin.c:311-319 | if every non-zero table entry declares a length of at least 1, no step stalls |
| `Stream.UnknownTagSkipped` | ttbin/ttbin.c:307-319 | a record with an unknown tag changes nothing but the cursor |
| `Stream.ZeroTagAdvancesOne` | ttbin/ttbin.c:311-319 | with the corrected lookup, a 0x00 tag byte moves the cursor exactly one byte and changes nothing else |
| `Stream.ZeroTagStallsAfterEmptyHeader` | ttbin/ttbin.c:151-319 | on a header declaring no lengths followed by a 0x00 byte, the lookup as written returns the cursor to that byte; the corrected one moves past it, and the pass completes |
| `Stream.Step` | ttbin/ttbin.c:151-319 | every iteration that continues strictly advances the cursor and leaves a usable table: 24 slots, the last one zero |
| `Stream.Start` | ttbin/ttbin.c:129-134 | the pass starts from a usable length table: 24 slots, the last one zero |
| `Stream.RunExtends` | ttbin/ttbin.c:151-320 | over the rest of the pass, status and lap lists only grow at the end, and `has_heart_rate` once set stays set |
| `Stream.RunWellFormed` | ttbin/ttbin.c:151-320 | every step keeps the file well formed: four firmware bytes, and no non-zero heart rate in any GPS or treadmill slot unless `has_heart_rate` is set |
| `Stream.DecodeWellFormed` | ttbin/ttbin.c:126-323 | for every buffer, however the pass ends, the activity it returns is well formed |
| `Ttbin.ActivityFile.constructor` | ttbin/ttbin.c:146-147 | the new file object holds the empty activity |
| `Ttbin.ActivityFile.SetHeader` | ttbin/ttbin.c:162-165 | updating the fields in place gives `ApplyHeader` of the old contents |
| `Ttbin.ActivityFile.SetSummary` | ttbin/ttbin.c:167-173 | updating the fields in place gives `ApplySummary` of the old contents |
| `Ttbin.ActivityFile.AddStatus` | ttbin/ttbin.c:176-182 | appending in place gives `ApplyStatus` of the old contents |
| `Ttbin.ActivityFile.AddLap` | ttbin/ttbin.c:254-260 | appending in place gives `ApplyLap` of the old contents |
| `Ttbin.ActivityFile.AddGps` | ttbin/ttbin.c:185-213 | the in-place GPS update yields the new baseline and contents `ApplyGps` gives; on a negative index nothing changes |
| `Ttbin.ActivityFile.AddTreadmill` | ttbin/ttbin.c:263-282 | the in-place treadmill update yields the baseline and contents `ApplyTreadmill` gives; on a negative index nothing changes |
| `Ttbin.ActivityFile.AddSwim` | ttbin/ttbin.c:285-305 | the in-place swim update yields the baseline and contents `ApplySwim` gives; on a negative index nothing changes |
| `Ttbin.ActivityFile.AddHeartRate` | ttbin/ttbin.c:216-251 | the in-place heart-rate merge yields the baseline and contents `ApplyHeartRate` gives; on a negative index nothing changes |
| `Ttbin.ApplyRecord` | ttbin/ttbin.c:154-310 | the switch over a non-header tag produces the baselines and file of `Assemble`, or the negative-index fault with the file unchanged |
| `Ttbin.LoadHeader` | ttbin/ttbin.c:156-165 | the in-place header case (table array and file) is the functional header step |
| `Ttbin.LoadRecord` | ttbin/ttbin.c:166-319 | the in-place non-header case, body and table scan, is the functional record step |
| `Ttbin.Parse` | ttbin/ttbin.c:126-323 | `parse_ttbin_data` returns a fresh file whose contents, and the way the pass ended, are exactly those of `Decode` |

## Left out

- `read_ttbin_file`, `create_filename` and everything after line 325 of
  ttbin.c are not modelled. That code is file I/O, name formatting,
  elevation download through curl, and export. The input buffer is a
  parameter of `Parse`.
- Floating point is not modelled. `distance` fields are carried as raw
  IEEE-754 bit patterns. Latitude and longitude stay in degrees times 1e7,
  and heading and speed in hundredths. The source's `* 1e-7f` and `/ 100.0f`
  conversions are not performed. Elevation is stored as the bit pattern
  of 0.0f, which is 0.
- Allocation is not modelled. `malloc` and `realloc` failures are not
  modelled, and neither is the swim `realloc` sized with
  `sizeof(TREADMILL_RECORD)`. Record counts are the lengths of the
  sequences.
- Undefined behaviour in the source becomes a halt with a `Fault`:
  - reading past the end of the buffer is `Truncated`;
  - `length_count >= 24` is `TableOverflow`;
  - a negative sample index is `NegativeIndex`;
  - a declared length of 0 is `Stalled`. The C loop would go on forever
    there.
- `Stream.ReadHeader`: a header with exactly 24 entries halts with
  `TableOverflow`. In C it only fills the table's last slot, which is its
  zero terminator, so the failure shows up only when a later scan misses.
  The model halts at once.
- `Ttbin.ActivityFile.AddHeartRate`: on a negative index the model leaves
  the file unchanged, `has_heart_rate` included. C sets the flag and then
  writes out of bounds, which is undefined behaviour.
- `Assembler.HeartRateMerge`: when a heart-rate sample grows the treadmill
  series, the model zero-fills the new treadmill slots and carries on. The
  source's `memset` at lines 244-245 writes at an offset from
  `file->gps_records` instead. On that path `gps_records` is always NULL,
  because the branch runs only when the test at line 225 failed, so the
  `memset` writes through a null pointer. The new treadmill slots are left
  uninitialised. The model does not halt there.
- `Assembler.SwimPlacement`: when a swim sample grows the swim series, the
  model zero-fills the new swim slots and carries on. The source's `memset`
  at lines 296-297 also writes at an offset from `file->gps_records`. That is
  a null-pointer write when the file has no GPS data. Otherwise the write
  lands inside or past the end of the GPS array. The new swim slots are left
  uninitialised. The model does not halt there.
- LengthTable.Lookup, and with it `Stream.NextCursor`, `Stream.Decode` and
  `Ttbin.Parse`, uses the corrected lookup for tag 0x00 (see "## Findings"):
  a 0x00 record is always skipped by one byte. This differs from the C code
  in two cases. First, when the scan reaches a zero slot of length 0, the C
  loop never ends; the whole pass instead moves on, so on the Findings input
  it ends `Complete` rather than halting with `Stalled`. Second, when a
  header declares an entry `(0x00, len)` with `len > 0`, the C code skips a
  0x00 record by `len` bytes and the model by one
  (`LengthTable.DeclaredZeroEntryAsWritten`). The as-written lookup is
  modelled only for a single step (`LengthTable.LookupAsWritten`).

## Findings

| source | as written | input that shows it | evidently intended | confidence | as-written member | corrected member |
|---|---|---|---|---|---|---|
| ttbin/ttbin.c:314-318 | the scan stops on `entry->tag == 0`, so a record tag byte 0x00 "matches" the zero terminator, whose length is 0, and `data += 0 - 1` puts the cursor back on the same byte: the loop never ends | a header declaring no lengths (`0x20`, 117 zero bytes) followed by one `0x00` byte | a zero slot only ends the table; tag 0x00 is undeclared and skipped by one byte like any other unknown tag | high; not executed | `LengthTable.ZeroTagStallsAsWritten` | `Stream.ZeroTagAdvancesOne` |
