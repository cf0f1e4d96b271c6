/** The call-log tool: every framed value is one call record, and each
    becomes one row keyed by its frame key (the serial number). */
module CallLog {
  import opened Bytes
  import opened Framer
  import opened CallRecords
  import opened CallLabels

  /** The row `ParseCallLogData` appends. The timestamp is kept as the raw
      millisecond count. */
  datatype CallRow = CallRow(
    serialNumber: Bytes,
    version: nat,
    timestamp: int,
    duration: string,
    number: Cell,
    callType: string,
    presentation: string,
    iccid: Cell,
    ownNumber: Cell,
    blockReason: string)

  /** The row of a record read under `key`. */
  function RowOf(key: Bytes, c: CallRecord): CallRow
    requires ValidRecord(c)
  {
    CallRow(key, c.version, c.timestamp, Duration(c.duration), FlaggedCell(c.number),
      CallTypeString(c.callType), PresentationString(c.presentation),
      FlaggedCell(c.iccid), FlaggedCell(c.ownNumber),
      if c.version == BlockingVersion then BlockReasonString(c.blockReason.value) else "")
  }

  /** `ParseCallLogData`: the row of the record at the front of the data, or
      `None` where the parse raises, which the tool does not catch. */
  function ParseCallLogData(key: Bytes, data: Bytes): (r: Option<CallRow>)
    ensures r.Some? <==> DecodeCallRecord(data).Some?
  {
    var c :- DecodeCallRecord(data);
    EncodeOfDecode(data);
    Some(RowOf(key, c.value))
  }

  /** The row of a written record, whatever bytes follow it: every code can
      be recovered from its text, the duration shows the time of day it
      lasted, and the block reason is empty unless the version is 1007. */
  lemma RowOfEncoding(key: Bytes, c: CallRecord, extra: Bytes)
    requires ValidRecord(c)
    ensures var r := ParseCallLogData(key, EncodeOnto(c, extra));
      && r.Some?
      && r.value.serialNumber == key && r.value.version == c.version && r.value.timestamp == c.timestamp
      && r.value.number == FlaggedCell(c.number) && r.value.iccid == FlaggedCell(c.iccid)
      && r.value.ownNumber == FlaggedCell(c.ownNumber)
      && CallTypeCode(r.value.callType) == Some(c.callType)
      && PresentationCode(r.value.presentation) == Some(c.presentation)
      && DurationSeconds(r.value.duration) == c.duration % SecondsPerDay
      && (c.version != BlockingVersion ==> r.value.blockReason == "")
      && (c.version == BlockingVersion ==> BlockReasonCode(r.value.blockReason) == Some(c.blockReason.value))
  {
    DecodeOfEncode(c, extra);
    CallTypeRoundTrip(c.callType);
    PresentationRoundTrip(c.presentation);
    DurationMeaning(c.duration);
    if c.version == BlockingVersion {
      BlockReasonRoundTrip(c.blockReason.value);
    }
  }

  // ---------------------------------------------------------------------
  // The whole file
  // ---------------------------------------------------------------------

  /** What the loop does with one frame: a frame without data is skipped,
      otherwise its record's row is appended; `None` is the uncaught parse
      failure. */
  function CallStep(rows: seq<CallRow>, e: Entry): Option<seq<CallRow>> {
    match e.value
    case None => Some(rows)
    case Some(data) =>
      match ParseCallLogData(e.key, data)
      case None => None
      case Some(row) => Some(rows + [row])
  }

  /** The rows the tool collects from a file, and how its loop stopped. The
      loop reads exactly `size_key` bytes of key and then aligns, so it
      steps over the NUL a writer puts after the key only when the key does
      not fill a multiple of 4 bytes (`Framer.ExactMisreadsAlignedKey`). */
  function CallLogRun(f: Bytes): (seq<CallRow>, Stop) {
    Run(f, 0, Exact, CallStep, [])
  }

  /** The same loop with the key read as intended: `size_key` bytes, then
      the NUL after them is stepped over, whatever the key's length. */
  function CallLogRunIntended(f: Bytes): (seq<CallRow>, Stop) {
    Run(f, 0, ExactSkipNul, CallStep, [])
  }

  /** What the tool leaves behind: nothing when it raised, the "nothing
      found" message when there are no rows, or the rows written out. */
  datatype Outcome = Crashed | NothingFound | Wrote(rows: seq<CallRow>)

  function CallLogOutcome(f: Bytes): (r: Outcome)
    ensures r.Wrote? ==> r.rows != [] && r.rows == CallLogRun(f).0
    ensures r.Crashed? <==> !Written(CallLogRun(f).1)
    ensures r.NothingFound? <==> Written(CallLogRun(f).1) && CallLogRun(f).0 == []
  {
    var (rows, stop) := CallLogRun(f);
    if !Written(stop) then Crashed else if rows == [] then NothingFound else Wrote(rows)
  }

  /** The main loop over an in-memory copy of the file: frame it, then hand
      the frames to `CallStep` in order. */
  method ParseCallLogFile(file: array<byte>) returns (rows: seq<CallRow>, stop: Stop)
    ensures (rows, stop) == CallLogRun(file[..])
  {
    var entries, framed := ReadFrames(file, Exact);
    RunIsCollect(file[..], 0, Exact, CallStep, []);
    rows := [];
    var i := 0;
    assert entries[0..] == entries;
    while i < |entries|
      invariant 0 <= i <= |entries|
      invariant Collect(entries, framed, CallStep, []) == Collect(entries[i..], framed, CallStep, rows)
      decreases |entries| - i
    {
      assert entries[i..][1..] == entries[i + 1..];
      var next := CallStep(rows, entries[i]);
      if next.None? {
        return rows, BadRecord;
      }
      rows := next.value;
      i := i + 1;
    }
    stop := framed;
  }

  // ---------------------------------------------------------------------
  // End to end
  // ---------------------------------------------------------------------

  /** A call to write: its serial number key and its record. */
  datatype Call = Call(key: Bytes, record: CallRecord)

  /** A call a writer can frame: the key and the record fit the header's
      size fields. */
  predicate ValidCall(c: Call) {
    |c.key| < Framer.TwoTo32 && ValidRecord(c.record) && RecordSize(c.record) < NoData
  }

  predicate ValidCalls(calls: seq<Call>) {
    forall i :: 0 <= i < |calls| ==> ValidCall(calls[i])
  }

  /** Calls whose keys do not fill a multiple of 4 bytes: the ones the
      tool as written reads back. */
  predicate UnalignedKeys(calls: seq<Call>) {
    forall i :: 0 <= i < |calls| ==> |calls[i].key| % 4 != 0
  }

  /** The frame of one call. */
  function EntryOf(c: Call): (e: Entry)
    requires ValidCall(c)
    ensures ValidEntry(ExactSkipNul, e)
    ensures |c.key| % 4 != 0 ==> ValidEntry(Exact, e)
  {
    Entry(c.key, Some(EncodeOnto(c.record, [])))
  }

  /** The frames a writer produces for the calls. */
  function EntriesOf(calls: seq<Call>): (r: seq<Entry>)
    requires ValidCalls(calls)
    ensures |r| == |calls| && forall i :: 0 <= i < |calls| ==> r[i] == EntryOf(calls[i])
    decreases |calls|
  {
    if calls == [] then [] else [EntryOf(calls[0])] + EntriesOf(calls[1..])
  }

  function RowsOf(calls: seq<Call>): (r: seq<CallRow>)
    requires ValidCalls(calls)
    ensures |r| == |calls| && forall i :: 0 <= i < |calls| ==> r[i] == RowOf(calls[i].key, calls[i].record)
    decreases |calls|
  {
    if calls == [] then [] else [RowOf(calls[0].key, calls[0].record)] + RowsOf(calls[1..])
  }

  lemma {:induction false} EntriesOfValid(calls: seq<Call>)
    requires ValidCalls(calls)
    ensures ValidEntries(ExactSkipNul, EntriesOf(calls))
    ensures UnalignedKeys(calls) ==> ValidEntries(Exact, EntriesOf(calls))
    decreases |calls|
  {
    if calls != [] {
      EntriesOfValid(calls[1..]);
      assert EntriesOf(calls)[1..] == EntriesOf(calls[1..]);
      assert UnalignedKeys(calls) ==> UnalignedKeys(calls[1..]) by {
        if UnalignedKeys(calls) {
          forall i | 0 <= i < |calls| - 1
            ensures |calls[1..][i].key| % 4 != 0
          {
            assert calls[1..][i] == calls[i + 1];
          }
        }
      }
    }
  }

  /** The file a writer produces for the calls: each key followed by its
      NUL and padding. The bytes are the same whichever key rule the frames
      are checked against (`Framer.EncodingOfEitherRule`). */
  function EncodeCalls(calls: seq<Call>): Bytes
    requires ValidCalls(calls)
  {
    EntriesOfValid(calls);
    EncodeEntries(ExactSkipNul, EntriesOf(calls))
  }

  /** The written file checked against the rule as written. */
  lemma CallsUnderExact(calls: seq<Call>)
    requires ValidCalls(calls) && UnalignedKeys(calls)
    ensures ValidEntries(Exact, EntriesOf(calls))
    ensures EncodeCalls(calls) == EncodeEntries(Exact, EntriesOf(calls))
  {
    EntriesOfValid(calls);
    EncodingOfEitherRule(ExactSkipNul, Exact, EntriesOf(calls));
  }

  /** The loop's step on the frame of a written call appends its row. */
  lemma StepOfCall(c: Call)
    requires ValidCall(c)
    ensures Appends(CallStep, EntryOf(c), RowOf(c.key, c.record))
  {
    DecodeOfEncode(c.record, []);
  }

  lemma CollectCalls(calls: seq<Call>, stop: Stop)
    requires ValidCalls(calls)
    ensures Collect(EntriesOf(calls), stop, CallStep, []) == (RowsOf(calls), stop)
  {
    var es := EntriesOf(calls);
    var rows := RowsOf(calls);
    forall i | 0 <= i < |calls|
      ensures Appends(CallStep, es[i], rows[i])
    {
      StepOfCall(calls[i]);
    }
    CollectAppends(es, rows, stop, CallStep, []);
    assert [] + rows == rows;
  }

  /** A file written from calls whose keys do not fill a multiple of 4
      bytes gives, as the tool is written, one row per call, in order, and
      the loop ends cleanly. */
  lemma CallLogOfCalls(calls: seq<Call>)
    requires ValidCalls(calls) && UnalignedKeys(calls)
    ensures CallLogRun(EncodeCalls(calls)) == (RowsOf(calls), Clean)
  {
    var f := EncodeCalls(calls);
    CallsUnderExact(calls);
    FramingRoundTrip(Exact, EntriesOf(calls));
    RunIsCollect(f, 0, Exact, CallStep, []);
    CollectCalls(calls, Clean);
  }

  /** With the key read as intended, every written file gives one row per
      call, in order, and the loop ends cleanly, whatever the keys. */
  lemma CallLogOfCallsIntended(calls: seq<Call>)
    requires ValidCalls(calls)
    ensures CallLogRunIntended(EncodeCalls(calls)) == (RowsOf(calls), Clean)
  {
    var f := EncodeCalls(calls);
    EntriesOfValid(calls);
    FramingRoundTrip(ExactSkipNul, EntriesOf(calls));
    RunIsCollect(f, 0, ExactSkipNul, CallStep, []);
    CollectCalls(calls, Clean);
  }

  /** A file cut short in a header still has its rows written: the loop, as
      written, stops at the short header without raising, for keys that do
      not fill a multiple of 4 bytes. */
  lemma TruncatedCallLog(calls: seq<Call>, tail: Bytes)
    requires ValidCalls(calls) && UnalignedKeys(calls) && 0 < |tail| < HeaderSize
    ensures CallLogRun(EncodeCalls(calls) + tail) == (RowsOf(calls), ShortHeader)
  {
    var f := EncodeCalls(calls) + tail;
    CallsUnderExact(calls);
    TruncatedTail(Exact, EntriesOf(calls), tail);
    RunIsCollect(f, 0, Exact, CallStep, []);
    CollectCalls(calls, ShortHeader);
  }

  /** The same with the key read as intended, whatever the keys. */
  lemma TruncatedCallLogIntended(calls: seq<Call>, tail: Bytes)
    requires ValidCalls(calls) && 0 < |tail| < HeaderSize
    ensures CallLogRunIntended(EncodeCalls(calls) + tail) == (RowsOf(calls), ShortHeader)
  {
    var f := EncodeCalls(calls) + tail;
    EntriesOfValid(calls);
    TruncatedTail(ExactSkipNul, EntriesOf(calls), tail);
    RunIsCollect(f, 0, ExactSkipNul, CallStep, []);
    CollectCalls(calls, ShortHeader);
  }

  /** A file holding one written call whose key fills a multiple of 4
      bytes, as the tool is written: the record is parsed from four NULs
      followed by its own bytes less the last four, and the loop then stops
      on a short header four bytes before the end. So the tool crashes or
      writes the row of those shifted bytes, and never ends cleanly; with the
      key read as intended the same file gives the call's own row. */
  lemma AlignedKeyCallMisread(c: Call)
    requires ValidCall(c) && |c.key| % 4 == 0
    ensures var d := EncodeOnto(c.record, []);
      CallLogOutcome(EncodeCalls([c])) ==
        match ParseCallLogData(c.key, (Zeros(4) + d)[..|d|])
        case None => Crashed
        case Some(row) => Wrote([row])
    ensures CallLogRun(EncodeCalls([c])).1 != Clean
    ensures CallLogRunIntended(EncodeCalls([c])) == (RowsOf([c]), Clean)
  {
    var d := EncodeOnto(c.record, []);
    MisreadRun(c, d);
    MisreadOutcome(EncodeCalls([c]), c.key, (Zeros(4) + d)[..|d|]);
    CallLogOfCallsIntended([c]);
  }

  /** The frames of that file, handed to the loop's step. */
  lemma MisreadRun(c: Call, d: Bytes)
    requires ValidCall(c) && |c.key| % 4 == 0 && d == EncodeOnto(c.record, [])
    ensures CallLogRun(EncodeCalls([c])) == Collect([Entry(c.key, Some((Zeros(4) + d)[..|d|]))], ShortHeader, CallStep, [])
  {
    var calls := [c];
    assert calls[1..] == [];
    assert EntriesOf(calls) == [EntryOf(c)];
    ExactMisreadsAlignedFile(EntryOf(c), d);
    RunIsCollect(EncodeCalls(calls), 0, Exact, CallStep, []);
  }

  /** What the tool leaves behind when the loop meets one frame and then a
      short header. */
  lemma MisreadOutcome(f: Bytes, key: Bytes, data: Bytes)
    requires CallLogRun(f) == Collect([Entry(key, Some(data))], ShortHeader, CallStep, [])
    ensures CallLogOutcome(f) ==
      match ParseCallLogData(key, data)
      case None => Crashed
      case Some(row) => Wrote([row])
    ensures CallLogRun(f).1 != Clean
  {
    var e := Entry(key, Some(data));
    var parsed := ParseCallLogData(key, data);
    CollectSingle(e, ShortHeader, CallStep, []);
    if parsed.None? {
      assert CallStep([], e) == None;
      assert CallLogRun(f) == ([], BadRecord);
    } else {
      var row := parsed.value;
      assert CallStep([], e) == Some([] + [row]);
      assert [] + [row] == [row];
      assert CallLogRun(f) == ([parsed.value], ShortHeader);
    }
  }
}
