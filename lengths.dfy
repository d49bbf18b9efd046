/** The record-length table that a file header declares (ttbin/ttbin.c:25-29,
    129, 159-160, 311-319): up to 24 (tag, length) entries, where `length`
    counts the tag byte too. The decoder scans it from the start and stops at
    the first entry whose tag matches or is zero; the zero-filled slots after
    the declared entries terminate the scan. */
module LengthTable {
  import opened Bytes
  import opened Packed
  import opened Records

  datatype Option<T> = None | Some(value: T)

  /** RECORD_LENGTH: a tag and the total length of its records, tag byte included. */
  datatype RecordLength = RecordLength(tag: uint8, length: uint16)

  /** Slots in the decoder's table (`record_lengths[24]`). */
  const TableSize: nat := 24
  const EntrySize: nat := 3
  const EntryLayout: seq<nat> := [1, 2]

  /** The table the decoder starts with: every slot zero. */
  function EmptyTable(): (t: seq<RecordLength>)
    ensures |t| == TableSize
    ensures forall k :: 0 <= k < |t| ==> t[k] == RecordLength(0, 0)
  {
    seq(TableSize, _ => RecordLength(0, 0))
  }

  function DecodeEntry(s: seq<uint8>): RecordLength
    requires |s| == EntrySize
  {
    RecordLength(s[0], Field(s, 1, 2))
  }

  function EncodeEntry(e: RecordLength): (s: seq<uint8>)
    ensures |s| == EntrySize
  {
    assert |EntryLayout| == 2;
    Pack([e.tag, e.length], EntryLayout)
  }

  /** The `n` entries that follow the fixed part of a header. */
  function DecodeEntries(s: seq<uint8>, n: nat): (entries: seq<RecordLength>)
    requires |s| == 3 * n
    ensures |entries| == n
  {
    if n == 0 then [] else [DecodeEntry(s[..EntrySize])] + DecodeEntries(s[EntrySize..], n - 1)
  }

  /** The `n` entries stored in `data` from offset `first`. */
  function EntriesAt(data: seq<uint8>, first: nat, n: nat): (entries: seq<RecordLength>)
    requires first + 3 * n <= |data|
    ensures |entries| == n
  {
    DecodeEntries(data[first..first + 3 * n], n)
  }

  function EncodeEntries(entries: seq<RecordLength>): (s: seq<uint8>)
    ensures |s| == 3 * |entries|
  {
    if entries == [] then [] else EncodeEntry(entries[0]) + EncodeEntries(entries[1..])
  }

  lemma EntryRoundTrip(e: RecordLength)
    ensures DecodeEntry(EncodeEntry(e)) == e
  {
    var v: seq<nat> := [e.tag, e.length];
    assert |EntryLayout| == 2;
    assert Fits(v, EntryLayout);
    PackedByte(v, EntryLayout, 0, 0);
    PackedField(v, EntryLayout, 1, 1);
  }

  /** Decoding the declared lengths gives back the table that was written. */
  lemma {:induction false} EntriesRoundTrip(entries: seq<RecordLength>)
    ensures DecodeEntries(EncodeEntries(entries), |entries|) == entries
  {
    if entries != [] {
      var s := EncodeEntries(entries);
      assert s[..EntrySize] == EncodeEntry(entries[0]);
      assert s[EntrySize..] == EncodeEntries(entries[1..]);
      EntryRoundTrip(entries[0]);
      EntriesRoundTrip(entries[1..]);
    }
  }

  /** The table ends in a zero-tag slot, so every scan stops inside it. */
  ghost predicate Terminated(table: seq<RecordLength>)
  {
    |table| > 0 && table[|table| - 1].tag == 0
  }

  /** Where the scan for `tag`, started at slot `k`, stops. */
  function ScanStop(table: seq<RecordLength>, tag: uint8, k: nat): (stop: nat)
    requires Terminated(table) && k < |table|
    ensures k <= stop < |table|
    ensures table[stop].tag == tag || table[stop].tag == 0
    ensures forall j :: k <= j < stop ==> table[j].tag != tag && table[j].tag != 0
    decreases |table| - k
  {
    if table[k].tag == tag || table[k].tag == 0 then k else ScanStop(table, tag, k + 1)
  }

  /** The length ttbin.c uses for `tag`: the stop slot's, if its tag equals `tag`.
      For tag 0 this is the terminator itself (see NextCursorAsWritten). */
  function LookupAsWritten(table: seq<RecordLength>, tag: uint8): Option<uint16>
    requires Terminated(table)
  {
    var e := table[ScanStop(table, tag, 0)];
    if e.tag == tag then Some(e.length) else None
  }

  /** The cursor after a non-header record at `pos`, as ttbin.c:312-319 moves it:
      one for the tag byte, then `length - 1` when the tag is found. */
  function NextCursorAsWritten(table: seq<RecordLength>, tag: uint8, pos: nat): int
    requires Terminated(table)
  {
    match LookupAsWritten(table, tag)
    case None => pos + 1
    case Some(len) => pos + 1 + (len - 1)
  }

  /** As written, a 0x00 tag byte matches the zero terminator, whose length is
      0, so the cursor returns to the tag byte and the decoder never ends. */
  lemma ZeroTagStallsAsWritten(table: seq<RecordLength>, pos: nat)
    requires Terminated(table)
    requires forall k :: 0 <= k < |table| && table[k].tag == 0 ==> table[k].length == 0
    ensures NextCursorAsWritten(table, 0, pos) == pos
  {
  }

  /** The declared length of `tag`: the length of the first entry with that tag
      before the first zero-tag entry. A zero tag is never declared: a zero
      slot only ends the table. This is the lookup the model uses. */
  function DeclaredLength(table: seq<RecordLength>, tag: uint8): Option<uint16>
    requires Terminated(table)
  {
    var e := table[ScanStop(table, tag, 0)];
    if e.tag == tag && tag != 0 then Some(e.length) else None
  }

  lemma ScanStopAt(table: seq<RecordLength>, tag: uint8, k: nat)
    requires Terminated(table) && k < |table|
    requires table[k].tag == tag || table[k].tag == 0
    requires forall j :: 0 <= j < k ==> table[j].tag != tag && table[j].tag != 0
    ensures ScanStop(table, tag, 0) == k
  {
  }

  /** Slot `k` declares `tag` with length `len`, and no slot before it
      matches or ends the table. */
  ghost predicate FirstDeclaration(table: seq<RecordLength>, tag: uint8, len: uint16, k: nat)
  {
    k < |table| && table[k] == RecordLength(tag, len) &&
    forall j :: 0 <= j < k ==> table[j].tag != tag && table[j].tag != 0
  }

  /** The first declaring entry wins, and only entries before the first zero
      slot count. */
  lemma FirstMatchWins(table: seq<RecordLength>, tag: uint8, len: uint16)
    requires Terminated(table)
    ensures DeclaredLength(table, tag) == Some(len) <==>
      tag != 0 && exists k :: FirstDeclaration(table, tag, len, k)
  {
    var stop := ScanStop(table, tag, 0);
    if DeclaredLength(table, tag) == Some(len) {
      assert FirstDeclaration(table, tag, len, stop);
    }
    if tag != 0 && exists k :: FirstDeclaration(table, tag, len, k) {
      var k :| FirstDeclaration(table, tag, len, k);
      ScanStopAt(table, tag, k);
    }
  }

  /** The corrected lookup never treats the terminator as a declaration. */
  lemma ZeroTagNeverDeclared(table: seq<RecordLength>)
    requires Terminated(table)
    ensures DeclaredLength(table, 0) == None
  {
  }

  /** A header may declare tag 0x00 itself. As written, the scan then stops on
      that entry and a 0x00 record is skipped by its declared length; the
      corrected lookup still treats tag 0x00 as undeclared. */
  lemma DeclaredZeroEntryAsWritten(table: seq<RecordLength>, len: uint16)
    requires Terminated(table) && table[0] == RecordLength(0, len)
    ensures LookupAsWritten(table, 0) == Some(len)
    ensures DeclaredLength(table, 0) == None
  {
  }

  /** The scan of ttbin.c:314-318 over the decoder's table: walk from the first
      slot until the tag matches or the slot is zero. */
  method Lookup(table: array<RecordLength>, tag: uint8) returns (len: Option<uint16>)
    requires Terminated(table[..])
    ensures len == DeclaredLength(table[..], tag)
  {
    var k := 0;
    while table[k].tag != tag && table[k].tag != 0
      invariant 0 <= k < table.Length
      invariant forall j :: 0 <= j < k ==> table[j].tag != tag && table[j].tag != 0
      decreases table.Length - k
    {
      k := k + 1;
    }
    ScanStopAt(table[..], tag, k);
    if table[k].tag == tag && tag != 0 {
      len := Some(table[k].length);
    } else {
      len := None;
    }
  }

  /** Copy the declared entries over the first slots of the table, as the
      header's `memcpy` does; the other slots keep what they held. */
  method LoadLengths(table: array<RecordLength>, entries: seq<RecordLength>)
    requires |entries| <= table.Length
    modifies table
    ensures table[..] == entries + old(table[..])[|entries|..]
  {
    forall k | 0 <= k < |entries| {
      table[k] := entries[k];
    }
  }
}
