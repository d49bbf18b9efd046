/** The decoding pass as a function of its input (ttbin/ttbin.c:126-323): a
    cursor walks the buffer one record at a time; a header record loads the
    length table and sets the file's identity; any other record is decoded
    by its tag, applied to the activity, and then skipped by its declared
    length.

    Where the C code has undefined behaviour the pass halts instead, and
    says where and why: a record body that runs past the end of the buffer,
    a header declaring 24 or more lengths (the table has 24 slots and needs
    a zero one to end its scan), a sample whose index is negative. A record
    whose declared length is 0 sends the C cursor back to the same tag byte
    forever; the pass halts there too. The misdirected `memset` calls of
    ttbin/ttbin.c:244 and 296 are the exception: there the pass zero-fills
    the series being grown and carries on (see Assembler). */
module Stream {
  import opened Bytes
  import opened Records
  import opened LengthTable
  import opened Assembler

  datatype Fault = Truncated | TableOverflow | NegativeIndex | Stalled

  /** How a pass ended: at the end of the buffer, or at the record at `pos`. */
  datatype Outcome = Complete | Halted(pos: nat, fault: Fault)

  /** The decoder's state between records: the cursor, the length table, the
      series baselines and the activity so far. */
  datatype Decoder = Decoder(pos: nat, table: seq<RecordLength>, base: Baselines, file: Activity)

  /** The result of one record: carry on from `next`, or halt with the file
      as it then stands. */
  datatype Transition = Continue(next: Decoder) | Halt(fault: Fault, file: Activity)

  /** A decoded record body, by tag; a tag the decoder does not know has none. */
  datatype Body =
    | Summary(summary: FileSummary)
    | Status(status: FileStatus)
    | Gps(gps: FileGps)
    | HeartRate(heartRate: FileHeartRate)
    | Lap(lap: FileLap)
    | Treadmill(treadmill: FileTreadmill)
    | Swim(swim: FileSwim)
    | Unknown

  /** A length table the scan can use: 24 slots, the last one zero. */
  ghost predicate TableOk(table: seq<RecordLength>)
  {
    |table| == TableSize && Terminated(table)
  }

  /** The number of body bytes the decoder copies for a record with this tag
      (`sizeof` of its packed struct); none for a tag it does not know. */
  function BodySize(tag: uint8): nat
  {
    if tag == TAG_SUMMARY then SummarySize
    else if tag == TAG_STATUS then StatusSize
    else if tag == TAG_GPS then GpsSize
    else if tag == TAG_HEART_RATE then HeartRateSize
    else if tag == TAG_LAP then LapSize
    else if tag == TAG_TREADMILL then TreadmillSize
    else if tag == TAG_SWIM then SwimSize
    else 0
  }

  /** The body of a record with tag `tag`, from the bytes after the tag byte. */
  function DecodeBody(tag: uint8, s: seq<uint8>): Body
    requires |s| == BodySize(tag)
  {
    if tag == TAG_SUMMARY then Summary(DecodeSummary(s))
    else if tag == TAG_STATUS then Status(DecodeStatus(s))
    else if tag == TAG_GPS then Gps(DecodeGps(s))
    else if tag == TAG_HEART_RATE then HeartRate(DecodeHeartRate(s))
    else if tag == TAG_LAP then Lap(DecodeLap(s))
    else if tag == TAG_TREADMILL then Treadmill(DecodeTreadmill(s))
    else if tag == TAG_SWIM then Swim(DecodeSwim(s))
    else Unknown
  }

  /** The `switch` of ttbin/ttbin.c:154-310 for one decoded body: the new
      baselines and activity, or the fault that stops the pass. */
  function Assemble(base: Baselines, f: Activity, body: Body): (r: Result)
  {
    match body
    case Summary(s) => Assembled(base, ApplySummary(f, s))
    case Status(s) => Assembled(base, ApplyStatus(f, s))
    case Lap(l) => Assembled(base, ApplyLap(f, l))
    case Gps(g) =>
      (match ApplyGps(base.gps, f, g)
       case Applied(b, f') => Assembled(base.(gps := b), f')
       case NegativeIndex => Faulted(Fault.NegativeIndex))
    case HeartRate(h) =>
      (match ApplyHeartRate(base.heartRate, base.gps, base.treadmill, f, h)
       case Applied(b, f') => Assembled(base.(heartRate := b), f')
       case NegativeIndex => Faulted(Fault.NegativeIndex))
    case Treadmill(t) =>
      (match ApplyTreadmill(base.treadmill, f, t)
       case Applied(b, f') => Assembled(base.(treadmill := b), f')
       case NegativeIndex => Faulted(Fault.NegativeIndex))
    case Swim(s) =>
      (match ApplySwim(base.swim, f, s)
       case Applied(b, f') => Assembled(base.(swim := b), f')
       case NegativeIndex => Faulted(Fault.NegativeIndex))
    case Unknown => Assembled(base, f)
  }

  datatype Result = Assembled(base: Baselines, file: Activity) | Faulted(fault: Fault)

  /** The identity fields a header copies into the file (ttbin/ttbin.c:162-165). */
  function ApplyHeader(f: Activity, h: FileHeader): (g: Activity)
    ensures g.fileVersion == h.fileVersion && g.firmwareVersion == h.firmwareVersion
    ensures g.productId == h.productId && g.timestamp == h.timestamp
    ensures g.(fileVersion := f.fileVersion, firmwareVersion := f.firmwareVersion,
               productId := f.productId, timestamp := f.timestamp) == f
  {
    f.(fileVersion := h.fileVersion, firmwareVersion := h.firmwareVersion,
       productId := h.productId, timestamp := h.timestamp)
  }

  /** What the bytes of a header record after its tag byte hold: the fixed
      header, the declared lengths and the cursor after them; or why they
      cannot be used. */
  datatype HeaderRead = HeaderRead(header: FileHeader, entries: seq<RecordLength>, next: nat) | Short | TooMany

  /** The header record whose fixed part starts at `at` (ttbin/ttbin.c:157-160). */
  function ReadHeader(data: seq<uint8>, at: nat): (r: HeaderRead)
    ensures r.HeaderRead? ==> |r.entries| == r.header.lengthCount < TableSize && r.next == at + HeaderSize + 3 * |r.entries|
  {
    if at + HeaderSize > |data| then Short
    else
      var h := DecodeHeader(data[at..at + HeaderSize]);
      var n := h.lengthCount;
      if n >= TableSize then TooMany
      else
        var first := at + HeaderSize;
        if first + 3 * n > |data| then Short
        else HeaderRead(h, EntriesAt(data, first, n), first + 3 * n)
  }

  /** A header record at `d.pos` (ttbin/ttbin.c:156-165): its fixed part,
      then `length_count` entries copied over the first slots of the table. */
  function HeaderStep(data: seq<uint8>, d: Decoder): Transition
    requires d.pos < |data| && TableOk(d.table)
  {
    match ReadHeader(data, d.pos + 1)
    case Short => Halt(Truncated, d.file)
    case TooMany => Halt(TableOverflow, d.file)
    case HeaderRead(h, entries, next) =>
      Continue(Decoder(next, entries + d.table[|entries|..], d.base, ApplyHeader(d.file, h)))
  }

  /** The cursor after a non-header record at `pos` (ttbin/ttbin.c:311-319):
      past its declared length, or past the tag byte alone when the tag has
      no declared length; `None` when the declared length is 0. */
  function NextCursor(table: seq<RecordLength>, tag: uint8, pos: nat): (next: Option<nat>)
    requires Terminated(table)
    ensures next.Some? ==> next.value > pos
  {
    match DeclaredLength(table, tag)
    case None => Some(pos + 1)
    case Some(len) => if len == 0 then None else Some(pos + len)
  }

  /** The body of the non-header record at `pos`, or `None` when the buffer
      ends before it does. */
  function ReadBody(data: seq<uint8>, pos: nat): Option<Body>
    requires pos < |data|
  {
    var tag := data[pos];
    if pos + 1 + BodySize(tag) > |data| then None
    else Some(DecodeBody(tag, data[pos + 1..pos + 1 + BodySize(tag)]))
  }

  /** The end of a non-header iteration: halt on a fault, else move the
      cursor past the record. */
  function Advance(d: Decoder, tag: uint8, r: Result): (t: Transition)
    requires TableOk(d.table)
    ensures t.Continue? ==> d.pos < t.next.pos && t.next.table == d.table
  {
    match r
    case Faulted(fault) => Halt(fault, d.file)
    case Assembled(base, file) =>
      match NextCursor(d.table, tag, d.pos)
      case None => Halt(Stalled, file)
      case Some(next) => Continue(Decoder(next, d.table, base, file))
  }

  /** A record other than a header at `d.pos`: read its body, apply it, skip it. */
  function RecordStep(data: seq<uint8>, d: Decoder): (t: Transition)
    requires d.pos < |data| && TableOk(d.table)
    ensures t.Continue? ==> d.pos < t.next.pos && t.next.table == d.table
  {
    match ReadBody(data, d.pos)
    case None => Halt(Truncated, d.file)
    case Some(body) => Advance(d, data[d.pos], Assemble(d.base, d.file, body))
  }

  /** One iteration of the decoding loop. */
  function Step(data: seq<uint8>, d: Decoder): (t: Transition)
    requires d.pos < |data| && TableOk(d.table)
    ensures t.Continue? ==> d.pos < t.next.pos && TableOk(t.next.table)
  {
    if data[d.pos] == TAG_FILE_HEADER then
      var t := HeaderStep(data, d);
      assert t.Continue? ==> TableOk(t.next.table) by {
        if t.Continue? {
          var n := t.next.table;
          assert n[TableSize - 1] == d.table[TableSize - 1];
        }
      }
      t
    else RecordStep(data, d)
  }

  /** The loop `while (data < end)` from decoder state `d`: the activity and
      how the pass ended. */
  function Run(data: seq<uint8>, d: Decoder): (Activity, Outcome)
    requires TableOk(d.table)
    decreases |data| - d.pos
  {
    if d.pos >= |data| then (d.file, Complete)
    else
      match Step(data, d)
      case Halt(fault, file) => (file, Halted(d.pos, fault))
      case Continue(next) => Run(data, next)
  }

  /** The state the decoding pass starts from. */
  function Start(): (d: Decoder)
    ensures TableOk(d.table)
  {
    Decoder(0, EmptyTable(), Baselines(0, 0, 0, 0), EmptyActivity())
  }

  /** `parse_ttbin_data` as a function of the buffer. */
  function Decode(data: seq<uint8>): (Activity, Outcome)
  {
    Run(data, Start())
  }

  // ---------------------------------------------------------------------------
  // One step of the cursor.

  /** A header record moves the cursor past 1 + 117 + 3n bytes, where n is the
      header's last byte, without consulting the length table; it overwrites
      the first n slots of the table and copies the header's identity fields
      into the file. */
  lemma HeaderStepCursor(data: seq<uint8>, d: Decoder)
    requires d.pos < |data| && TableOk(d.table) && data[d.pos] == TAG_FILE_HEADER
    ensures Step(data, d).Continue? ==>
              var next := Step(data, d).next;
              d.pos + 1 + HeaderSize <= |data| &&
              var n := data[d.pos + HeaderSize];
              n < TableSize && next.pos == d.pos + 1 + HeaderSize + 3 * n && next.pos <= |data| &&
              next.table[n..] == d.table[n..] && next.base == d.base &&
              next.file == ApplyHeader(d.file, DecodeHeader(data[d.pos + 1..d.pos + 1 + HeaderSize]))
  {
    var at := d.pos + 1;
    if at + HeaderSize <= |data| {
      var s := data[at..at + HeaderSize];
      assert s[116] == data[d.pos + HeaderSize];
      var n := s[116];
      if n < TableSize && at + HeaderSize + 3 * n <= |data| {
        var entries := EntriesAt(data, at + HeaderSize, n);
        assert (entries + d.table[n..])[n..] == d.table[n..];
      }
    }
  }

  /** A header record halts, leaving the file as it was, only when n is 24 or
      more (TableOverflow) or the buffer ends inside its fixed part or its
      entries (Truncated). */
  lemma HeaderStepHalts(data: seq<uint8>, d: Decoder)
    requires d.pos < |data| && TableOk(d.table) && data[d.pos] == TAG_FILE_HEADER
    ensures Step(data, d).Halt? ==>
              var fault := Step(data, d).fault;
              Step(data, d).file == d.file &&
              (fault == TableOverflow <==>
                 d.pos + 1 + HeaderSize <= |data| && data[d.pos + HeaderSize] >= TableSize) &&
              (fault != TableOverflow ==> fault == Truncated) &&
              (fault == Truncated ==>
                 d.pos + 1 + HeaderSize > |data| ||
                 (data[d.pos + HeaderSize] < TableSize &&
                  d.pos + 1 + HeaderSize + 3 * data[d.pos + HeaderSize] > |data|))
  {
    var at := d.pos + 1;
    if at + HeaderSize <= |data| {
      var s := data[at..at + HeaderSize];
      assert s[116] == data[d.pos + HeaderSize];
    }
  }

  /** The header record at `at` reads as the header and entries its bytes
      decode to, and ends after the last entry. */
  lemma ReadHeaderOf(data: seq<uint8>, at: nat, h: FileHeader, entries: seq<RecordLength>)
    requires h.lengthCount == |entries| < TableSize
    requires at + HeaderSize + 3 * |entries| <= |data|
    requires DecodeHeader(data[at..at + HeaderSize]) == h
    requires EntriesAt(data, at + HeaderSize, |entries|) == entries
    ensures ReadHeader(data, at) == HeaderRead(h, entries, at + HeaderSize + 3 * |entries|)
  {
  }

  /** After a header record has been read, the step moves the cursor to its
      end, puts the entries in the first slots of the table (the later slots
      keep what they held), keeps the baselines, and gives the file the
      header's identity fields. */
  lemma HeaderStepOf(data: seq<uint8>, d: Decoder, h: FileHeader, entries: seq<RecordLength>, next: nat)
    requires d.pos < |data| && TableOk(d.table) && data[d.pos] == TAG_FILE_HEADER
    requires ReadHeader(data, d.pos + 1) == HeaderRead(h, entries, next)
    ensures Step(data, d) == Continue(Decoder(next, entries + d.table[|entries|..], d.base, ApplyHeader(d.file, h)))
  {
  }

  /** Any other record leaves the table alone and moves the cursor past its
      declared length, or past the tag byte alone when its tag is not declared
      (ttbin/ttbin.c:312-319); a declared length of 0 is the only way it
      stalls. */
  lemma RecordStepCursor(data: seq<uint8>, d: Decoder)
    requires d.pos < |data| && TableOk(d.table) && data[d.pos] != TAG_FILE_HEADER
    ensures var tag := data[d.pos];
            match Step(data, d)
            case Continue(next) =>
              next.table == d.table &&
              (DeclaredLength(d.table, tag) == None ==> next.pos == d.pos + 1) &&
              (forall len :: DeclaredLength(d.table, tag) == Some(len) ==> 1 <= len && next.pos == d.pos + len)
            case Halt(fault, _) =>
              fault == Stalled ==> DeclaredLength(d.table, tag) == Some(0)
  {
  }

  /** Every slot that can end a scan with a match declares a length of at least one. */
  ghost predicate LengthsPositive(table: seq<RecordLength>)
  {
    forall k :: 0 <= k < |table| && table[k].tag != 0 ==> table[k].length >= 1
  }

  /** With every declared length at least one, no record stalls the cursor. */
  lemma NoStallWhenLengthsPositive(data: seq<uint8>, d: Decoder)
    requires d.pos < |data| && TableOk(d.table) && LengthsPositive(d.table)
    ensures Step(data, d).Halt? ==> Step(data, d).fault != Stalled
  {
    var tag := data[d.pos];
    if tag != TAG_FILE_HEADER {
      var stop := ScanStop(d.table, tag, 0);
      assert DeclaredLength(d.table, tag).Some? ==> d.table[stop].tag != 0;
    }
  }

  /** A record with a tag the decoder does not know changes nothing but the
      cursor. */
  lemma UnknownTagSkipped(data: seq<uint8>, d: Decoder)
    requires d.pos < |data| && TableOk(d.table)
    requires data[d.pos] != TAG_FILE_HEADER && BodySize(data[d.pos]) == 0
    ensures match NextCursor(d.table, data[d.pos], d.pos)
            case None => Step(data, d) == Halt(Stalled, d.file)
            case Some(next) => Step(data, d) == Continue(d.(pos := next))
  {
  }

  /** A 0x00 tag byte is skipped like any undeclared tag: one byte. */
  lemma ZeroTagAdvancesOne(data: seq<uint8>, d: Decoder)
    requires d.pos < |data| && TableOk(d.table) && data[d.pos] == 0
    ensures Step(data, d) == Continue(d.(pos := d.pos + 1))
  {
    ZeroTagNeverDeclared(d.table);
  }

  /** A header that declares no lengths, followed by a 0x00 byte. */
  function ZeroTagStream(): (data: seq<uint8>)
    ensures |data| == HeaderSize + 2
  {
    [TAG_FILE_HEADER] + seq(HeaderSize, _ => 0) + [0]
  }

  /** On that stream the header leaves the cursor on the 0x00 byte with an
      all-zero table; the lookup as written sends the cursor back to that
      byte, while the corrected one moves past it and the pass completes. */
  lemma ZeroTagStallsAfterEmptyHeader()
    ensures Step(ZeroTagStream(), Start()).Continue?
    ensures var d := Step(ZeroTagStream(), Start()).next;
            d.pos == HeaderSize + 1 && ZeroTagStream()[d.pos] == 0 &&
            d.table == EmptyTable() &&
            NextCursorAsWritten(d.table, 0, d.pos) == d.pos &&
            NextCursor(d.table, 0, d.pos) == Some(d.pos + 1)
    ensures Decode(ZeroTagStream()).1 == Complete
  {
    var data := ZeroTagStream();
    var s := data[1..1 + HeaderSize];
    assert s[116] == 0;
    var d := Step(data, Start()).next;
    assert d.table == [] + EmptyTable()[0..];
    ZeroTagStallsAsWritten(d.table, d.pos);
    ZeroTagAdvancesOne(data, d);
  }

  // ---------------------------------------------------------------------------
  // The series baselines.

  /** Each baseline is set only by a record of its own series, and only while
      it is still zero; it then takes that record's timestamp. Every other
      record, and every later record of the series, leaves it as it was. */
  lemma AssembleBaselines(base: Baselines, f: Activity, body: Body)
    ensures match Assemble(base, f, body)
            case Faulted(_) => true
            case Assembled(b, _) =>
              b.gps == (if body.Gps? && base.gps == 0 then body.gps.timestamp else base.gps) &&
              b.heartRate == (if body.HeartRate? && base.heartRate == 0 then body.heartRate.timestamp else base.heartRate) &&
              b.treadmill == (if body.Treadmill? && base.treadmill == 0 then body.treadmill.timestamp else base.treadmill) &&
              b.swim == (if body.Swim? && base.swim == 0 then body.swim.timestamp else base.swim)
  {
  }

  /** No step of the pass changes a baseline that is already non-zero, and a
      header record changes none. */
  lemma StepKeepsBaselines(data: seq<uint8>, d: Decoder)
    requires d.pos < |data| && TableOk(d.table)
    ensures Step(data, d).Continue? ==>
              var b := Step(data, d).next.base;
              (d.base.gps != 0 ==> b.gps == d.base.gps) &&
              (d.base.heartRate != 0 ==> b.heartRate == d.base.heartRate) &&
              (d.base.treadmill != 0 ==> b.treadmill == d.base.treadmill) &&
              (d.base.swim != 0 ==> b.swim == d.base.swim) &&
              (data[d.pos] == TAG_FILE_HEADER ==> b == d.base)
  {
    if data[d.pos] != TAG_FILE_HEADER && ReadBody(data, d.pos).Some? {
      AssembleBaselines(d.base, d.file, ReadBody(data, d.pos).value);
    }
  }

  // ---------------------------------------------------------------------------
  // What holds over the whole pass.

  /** `g` extends `f`: the status and lap records of `f` open those of `g`,
      and a file that has heart rate keeps it. */
  ghost predicate Extends(f: Activity, g: Activity)
  {
    f.status <= g.status && f.laps <= g.laps && (f.hasHeartRate ==> g.hasHeartRate)
  }

  lemma AssembleExtends(base: Baselines, f: Activity, body: Body)
    ensures Assemble(base, f, body).Assembled? ==> Extends(f, Assemble(base, f, body).file)
  {
  }

  lemma StepExtends(data: seq<uint8>, d: Decoder)
    requires d.pos < |data| && TableOk(d.table)
    ensures match Step(data, d)
            case Continue(next) => Extends(d.file, next.file)
            case Halt(_, f) => Extends(d.file, f)
  {
    if data[d.pos] != TAG_FILE_HEADER && ReadBody(data, d.pos).Some? {
      AssembleExtends(d.base, d.file, ReadBody(data, d.pos).value);
    }
  }

  /** Status and lap records are only ever appended: whatever the pass has
      recorded so far opens what it ends with. */
  lemma {:induction false} RunExtends(data: seq<uint8>, d: Decoder)
    requires TableOk(d.table)
    ensures Extends(d.file, Run(data, d).0)
    decreases |data| - d.pos
  {
    if d.pos < |data| {
      StepExtends(data, d);
      match Step(data, d)
      case Halt(_, _) =>
      case Continue(next) => RunExtends(data, next);
    }
  }

  /** The shape every decoded activity has: four firmware bytes, and no heart
      rate in any slot unless the file says it has heart rate. */
  ghost predicate WellFormed(f: Activity)
  {
    |f.firmwareVersion| == 4 &&
    (!f.hasHeartRate ==>
       (forall k :: 0 <= k < |f.gps| ==> f.gps[k].heartRate == 0) &&
       (forall k :: 0 <= k < |f.treadmill| ==> f.treadmill[k].heartRate == 0))
  }

  lemma AssembleWellFormed(base: Baselines, f: Activity, body: Body)
    requires WellFormed(f)
    ensures Assemble(base, f, body).Assembled? ==> WellFormed(Assemble(base, f, body).file)
  {
    match body
    case Gps(r) =>
      if r.timestamp != GPS_SIGNAL_LOST {
        GpsPlacement(base.gps, f, r);
      }
    case Treadmill(r) =>
      TreadmillPlacement(base.treadmill, f, r);
    case Swim(r) =>
    case _ =>
  }

  lemma StepWellFormed(data: seq<uint8>, d: Decoder)
    requires d.pos < |data| && TableOk(d.table) && WellFormed(d.file)
    ensures match Step(data, d)
            case Continue(next) => WellFormed(next.file)
            case Halt(_, f) => WellFormed(f)
  {
    if data[d.pos] != TAG_FILE_HEADER && ReadBody(data, d.pos).Some? {
      AssembleWellFormed(d.base, d.file, ReadBody(data, d.pos).value);
    }
  }

  lemma {:induction false} RunWellFormed(data: seq<uint8>, d: Decoder)
    requires TableOk(d.table) && WellFormed(d.file)
    ensures WellFormed(Run(data, d).0)
    decreases |data| - d.pos
  {
    if d.pos < |data| {
      StepWellFormed(data, d);
      match Step(data, d)
      case Halt(_, _) =>
      case Continue(next) => RunWellFormed(data, next);
    }
  }

  /** Whatever the buffer holds and however the pass ends, the activity it
      returns is well formed. */
  lemma DecodeWellFormed(data: seq<uint8>)
    ensures WellFormed(Decode(data).0)
  {
    RunWellFormed(data, Start());
  }
}
