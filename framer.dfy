/** The "Data" stream framer both backup tools run over their input file.
    Each frame is a 12-byte header (the ASCII magic "Data", a little-endian
    u32 key size and a little-endian u32 data size), the key, padding to a
    4-byte boundary, and, unless the data size is 0xFFFFFFFF, the data and
    padding to a 4-byte boundary again. A writer puts a NUL after every key,
    before the padding. The two tools differ in how they read the key;
    `KeyMode` selects the rule. */
module Framer {
  import opened Bytes

  /** How the key after a header is read. */
  datatype KeyMode =
    | NulTerminated  // the settings tool: `size_key + 1` bytes, trailing NULs removed
    | Exact          // the call-log tool as written: exactly `size_key` bytes
    | ExactSkipNul   // the call-log tool as intended: `size_key` bytes, then the NUL is stepped over

  const HeaderSize: nat := 12

  /** The ASCII bytes of "Data". */
  const Magic: Bytes := [0x44, 0x61, 0x74, 0x61]

  /** The data size meaning that the key has no value and no data follows. */
  const NoData: nat := 0xFFFF_FFFF

  const TwoTo32: nat := 0x1_0000_0000

  datatype Header = Header(sizeKey: nat, sizeData: nat)

  predicate ValidHeader(h: Header) {
    h.sizeKey < TwoTo32 && h.sizeData < TwoTo32
  }

  /** The 12 header bytes: the magic, then the two little-endian sizes.
      Anything but the magic in the first four bytes is an error. */
  function DecodeHeader(b: Bytes): (r: Option<Header>)
    requires |b| == HeaderSize
    ensures r.Some? <==> b[..4] == Magic
    ensures r.Some? ==> ValidHeader(r.value)
  {
    Pow256Values();
    if b[..4] != Magic then None
    else Some(Header(LittleEndian(b[4..8]), LittleEndian(b[8..12])))
  }

  function EncodeHeader(h: Header): (r: Bytes)
    requires ValidHeader(h)
    ensures |r| == HeaderSize
  {
    Magic + LittleEndianBytes(h.sizeKey, 4) + LittleEndianBytes(h.sizeData, 4)
  }

  lemma HeaderRoundTrip(h: Header)
    requires ValidHeader(h)
    ensures DecodeHeader(EncodeHeader(h)) == Some(h)
  {
    Pow256Values();
    var b := EncodeHeader(h);
    assert b[..4] == Magic;
    assert b[4..8] == LittleEndianBytes(h.sizeKey, 4);
    assert b[8..12] == LittleEndianBytes(h.sizeData, 4);
    LittleEndianOfBytes(h.sizeKey, 4);
    LittleEndianOfBytes(h.sizeData, 4);
  }

  /** A header that decodes is exactly the encoding of what it decodes to. */
  lemma HeaderBytesRoundTrip(b: Bytes)
    requires |b| == HeaderSize && DecodeHeader(b).Some?
    ensures EncodeHeader(DecodeHeader(b).value) == b
  {
    BytesOfLittleEndian(b[4..8]);
    BytesOfLittleEndian(b[8..12]);
    assert b == b[..4] + b[4..8] + b[8..12];
  }

  /** One framed entry: its key and, unless the data size was the sentinel,
      its data. */
  datatype Entry = Entry(key: Bytes, value: Option<Bytes>)

  /** How a tool's read loop ends. `Clean` (no bytes where a header was
      expected) and `ShortHeader` (1 to 11 bytes there; the tool reports it
      and breaks out of the loop) both leave the loop normally, and the tool
      writes what it has collected. `BadMagic` (the header decoder raises)
      and `BadRecord` (a record decoder raises) are exceptions the tool does
      not catch, so it writes nothing. */
  datatype Stop = Clean | ShortHeader | BadMagic | BadRecord

  predicate Written(s: Stop) { s.Clean? || s.ShortHeader? }

  /** The outcome of reading one frame at a header position. */
  datatype Step = End | Short | Corrupt | Frame(entry: Entry, next: nat)

  function KeyLength(mode: KeyMode, sizeKey: nat): nat {
    if mode == NulTerminated then sizeKey + 1 else sizeKey
  }

  function KeyOf(mode: KeyMode, raw: Bytes): Bytes {
    if mode == NulTerminated then StripTrailingNuls(raw) else raw
  }

  /** The bytes stepped over after the key read, before aligning. */
  function NulSkip(mode: KeyMode): nat {
    if mode == ExactSkipNul then 1 else 0
  }

  /** The key after a header, read from `keyStart`, and the position after
      the alignment step that follows it. The alignment moves less than 4. */
  function ReadKey(f: Bytes, keyStart: nat, mode: KeyMode, sizeKey: nat): (r: (Bytes, nat))
    ensures keyStart <= r.1
  {
    var raw := FileRead(f, keyStart, KeyLength(mode, sizeKey));
    (KeyOf(mode, raw), Align4(keyStart + |raw| + NulSkip(mode)))
  }

  /** The value read from `at` for a declared data size, and the position
      after the alignment step that follows it. The sentinel size reads
      nothing and leaves an aligned position where it is. */
  function ReadValue(f: Bytes, at: nat, sizeData: nat): (r: (Option<Bytes>, nat))
    ensures at <= r.1
  {
    var value := if sizeData == NoData then None else Some(FileRead(f, at, sizeData));
    var consumed := if value.Some? then |value.value| else 0;
    (value, Align4(at + consumed))
  }

  /** One pass of the read loop at file position `pos`. Reads of the key and
      data return fewer bytes at the end of the file without failing, and the
      alignment seeks may move past the end. */
  function NextFrame(f: Bytes, pos: nat, mode: KeyMode): (r: Step)
    ensures r.Frame? ==> pos + HeaderSize <= r.next
  {
    if pos >= |f| then End
    else if |f| - pos < HeaderSize then Short
    else
      match DecodeHeader(f[pos..pos + HeaderSize])
      case None => Corrupt
      case Some(h) =>
        var (key, afterKey) := ReadKey(f, pos + HeaderSize, mode, h.sizeKey);
        var (value, next) := ReadValue(f, afterKey, h.sizeData);
        Frame(Entry(key, value), next)
  }

  /** The key read takes `size_key` bytes (one more in the settings
      layout), fewer at the end of the file, and the alignment after it, and
      after the stepped-over NUL, moves less than 4 bytes. A key read with
      NUL stripping never ends in NUL. */
  lemma ReadKeyFacts(f: Bytes, keyStart: nat, mode: KeyMode, sizeKey: nat)
    ensures var (key, next) := ReadKey(f, keyStart, mode, sizeKey);
      && next % 4 == 0 && next < keyStart + KeyLength(mode, sizeKey) + NulSkip(mode) + 4
      && (keyStart + KeyLength(mode, sizeKey) <= |f| ==>
            key == KeyOf(mode, f[keyStart..keyStart + KeyLength(mode, sizeKey)]) &&
            next == Align4(keyStart + KeyLength(mode, sizeKey) + NulSkip(mode)))
      && (mode == NulTerminated ==> key == [] || key[|key| - 1] != 0)
      && (mode != NulTerminated ==> |key| <= sizeKey)
  {
    FileReadContents(f, keyStart, KeyLength(mode, sizeKey));
  }

  /** A key the file holds in full is read as it stands. */
  lemma ReadKeyFull(f: Bytes, keyStart: nat, mode: KeyMode, sizeKey: nat)
    requires keyStart + KeyLength(mode, sizeKey) <= |f|
    ensures ReadKey(f, keyStart, mode, sizeKey) ==
      (KeyOf(mode, f[keyStart..keyStart + KeyLength(mode, sizeKey)]), Align4(keyStart + KeyLength(mode, sizeKey) + NulSkip(mode)))
  {
    FileReadContents(f, keyStart, KeyLength(mode, sizeKey));
  }

  /** A key read where the file holds bytes of the key's read length gives
      those bytes under the key rule. */
  lemma ReadKeyHeld(f: Bytes, keyStart: nat, mode: KeyMode, sizeKey: nat, raw: Bytes)
    requires |raw| == KeyLength(mode, sizeKey) && HoldsAt(f, keyStart, raw)
    ensures ReadKey(f, keyStart, mode, sizeKey) == (KeyOf(mode, raw), Align4(keyStart + |raw| + NulSkip(mode)))
  {
    HoldsAtSlice(f, keyStart, raw);
    var n := KeyLength(mode, sizeKey);
    assert f[keyStart..keyStart + n] == raw;
    ReadKeyFull(f, keyStart, mode, sizeKey);
  }

  /** The sentinel size reads no value and leaves an aligned position where
      it is; any other size reads that many bytes when the file has them. */
  lemma ReadValueFacts(f: Bytes, at: nat, sizeData: nat)
    ensures var (value, next) := ReadValue(f, at, sizeData);
      && next % 4 == 0
      && (value.None? <==> sizeData == NoData)
      && (sizeData == NoData ==> next == Align4(at))
      && (sizeData != NoData && at + sizeData <= |f| ==>
            value == Some(f[at..at + sizeData]) && next == Align4(at + sizeData))
  {
    FileReadContents(f, at, sizeData);
  }

  /** The loop ends cleanly when no byte is left, reports a short header
      when fewer than 12 remain, and fails on a wrong magic. */
  lemma NextFrameOutcomes(f: Bytes, pos: nat, mode: KeyMode)
    ensures NextFrame(f, pos, mode).End? <==> pos >= |f|
    ensures NextFrame(f, pos, mode).Short? <==> pos < |f| < pos + HeaderSize
    ensures NextFrame(f, pos, mode).Corrupt? <==> pos + HeaderSize <= |f| && f[pos..pos + 4] != Magic
    ensures NextFrame(f, pos, mode).Frame? ==> pos + HeaderSize <= |f| && NextFrame(f, pos, mode).next % 4 == 0
  {
    if pos + HeaderSize <= |f| {
      assert f[pos..pos + HeaderSize][..4] == f[pos..pos + 4];
      var header := DecodeHeader(f[pos..pos + HeaderSize]);
      if header.Some? {
        var key := ReadKey(f, pos + HeaderSize, mode, header.value.sizeKey);
        ReadValueFacts(f, key.1, header.value.sizeData);
      }
    }
  }

  /** The pieces of a frame: its header, key and value. */
  lemma FrameParts(f: Bytes, pos: nat, mode: KeyMode)
    requires NextFrame(f, pos, mode).Frame?
    ensures var h := DecodeHeader(f[pos..pos + HeaderSize]).value;
      var (key, afterKey) := ReadKey(f, pos + HeaderSize, mode, h.sizeKey);
      var (value, next) := ReadValue(f, afterKey, h.sizeData);
      NextFrame(f, pos, mode) == Frame(Entry(key, value), next)
  {
  }

  /** The sizes in a frame's header are its little-endian fields. */
  lemma HeaderFields(f: Bytes, pos: nat)
    requires pos + HeaderSize <= |f| && f[pos..pos + 4] == Magic
    ensures DecodeHeader(f[pos..pos + HeaderSize]) ==
      Some(Header(LittleEndian(f[pos + 4..pos + 8]), LittleEndian(f[pos + 8..pos + 12])))
  {
    var b := f[pos..pos + HeaderSize];
    assert b[..4] == f[pos..pos + 4];
    assert b[4..8] == f[pos + 4..pos + 8];
    assert b[8..12] == f[pos + 8..pos + 12];
  }

  /** All frames from `pos` on, and how the framing ended. */
  function FramesFrom(f: Bytes, pos: nat, mode: KeyMode): (r: (seq<Entry>, Stop))
    ensures r.1 != BadRecord
    decreases |f| - pos
  {
    match NextFrame(f, pos, mode)
    case End => ([], Clean)
    case Short => ([], ShortHeader)
    case Corrupt => ([], BadMagic)
    case Frame(e, next) =>
      var rest := FramesFrom(f, next, mode);
      ([e] + rest.0, rest.1)
  }

  /** The key read and the seek that aligns after it. */
  method ReadKeyAt(file: array<byte>, at: nat, mode: KeyMode, sizeKey: nat) returns (key: Bytes, next: nat)
    requires at <= file.Length
    ensures (key, next) == ReadKey(file[..], at, mode, sizeKey)
  {
    var keyEnd := Min(at + KeyLength(mode, sizeKey), file.Length);
    var raw := file[at..keyEnd];
    assert raw == FileRead(file[..], at, KeyLength(mode, sizeKey));
    key := KeyOf(mode, raw);
    next := keyEnd + NulSkip(mode);
    if next % 4 != 0 {
      next := next + (4 - next % 4);
    }
  }

  /** The data read, unless its size is the sentinel, and the seek that
      aligns after it. */
  method ReadValueAt(file: array<byte>, at: nat, sizeData: nat) returns (value: Option<Bytes>, next: nat)
    ensures (value, next) == ReadValue(file[..], at, sizeData)
  {
    value := None;
    next := at;
    if sizeData != NoData {
      var data := if at < file.Length then file[at..Min(at + sizeData, file.Length)] else [];
      assert data == FileRead(file[..], at, sizeData);
      next := next + |data|;
      value := Some(data);
    }
    if next % 4 != 0 {
      next := next + (4 - next % 4);
    }
  }

  /** One pass of the read loop over the file's bytes: read the header,
      read the key and align, read the data unless its size is the sentinel,
      and align again. */
  method ReadFrame(file: array<byte>, pos: nat, mode: KeyMode) returns (r: Step)
    ensures r == NextFrame(file[..], pos, mode)
  {
    var n := file.Length;
    if pos >= n {
      return End;
    }
    if n - pos < HeaderSize {
      return Short;
    }
    assert file[pos..pos + HeaderSize] == file[..][pos..pos + HeaderSize];
    var header := DecodeHeader(file[pos..pos + HeaderSize]);
    if header.None? {
      return Corrupt;
    }
    var key, afterKey := ReadKeyAt(file, pos + HeaderSize, mode, header.value.sizeKey);
    var value, next := ReadValueAt(file, afterKey, header.value.sizeData);
    return Frame(Entry(key, value), next);
  }

  /** One step of the framing from `pos`. */
  lemma FramesStep(f: Bytes, pos: nat, mode: KeyMode)
    ensures var step := NextFrame(f, pos, mode);
      && (step.End? ==> FramesFrom(f, pos, mode) == ([], Clean))
      && (step.Short? ==> FramesFrom(f, pos, mode) == ([], ShortHeader))
      && (step.Corrupt? ==> FramesFrom(f, pos, mode) == ([], BadMagic))
      && (step.Frame? ==>
            FramesFrom(f, pos, mode) == ([step.entry] + FramesFrom(f, step.next, mode).0, FramesFrom(f, step.next, mode).1))
  {
  }

  lemma AppendNothing(es: seq<Entry>)
    ensures es + [] == es
  {
  }

  lemma AppendOne(es: seq<Entry>, e: Entry, rest: seq<Entry>)
    ensures es + [e] + rest == es + ([e] + rest)
  {
  }

  /** The read loop of both tools, lifted out of `main`: frames are read from
      offset 0 until no header remains, a header is short, or a magic is
      wrong. */
  method ReadFrames(file: array<byte>, mode: KeyMode) returns (entries: seq<Entry>, stop: Stop)
    ensures (entries, stop) == FramesFrom(file[..], 0, mode)
  {
    ghost var f := file[..];
    ghost var all := FramesFrom(f, 0, mode);
    var pos: nat := 0;
    entries := [];
    assert entries + all.0 == all.0;
    while true
      invariant all == (entries + FramesFrom(f, pos, mode).0, FramesFrom(f, pos, mode).1)
      decreases file.Length - pos
    {
      var step := ReadFrame(file, pos, mode);
      FramesStep(f, pos, mode);
      match step
      case End =>
        AppendNothing(entries);
        return entries, Clean;
      case Short =>
        AppendNothing(entries);
        return entries, ShortHeader;
      case Corrupt =>
        AppendNothing(entries);
        return entries, BadMagic;
      case Frame(e, next) =>
        AppendOne(entries, e, FramesFrom(f, next, mode).0);
        entries := entries + [e];
        pos := next;
    }
  }

  // ---------------------------------------------------------------------
  // Writing frames, and reading back what was written
  // ---------------------------------------------------------------------

  /** The key as a writer puts it in a frame: followed by one NUL. */
  function WrittenKey(key: Bytes): Bytes {
    key + [0]
  }

  /** An entry a writer can frame, and the key rule reads back: sizes fit
      their fields and a present value's size is not the sentinel; a key read
      with NUL stripping does not itself end in NUL; and a key read as
      written, without stepping over its NUL, does not fill a multiple of 4
      bytes (see `ExactMisreadsAlignedKey`). */
  predicate ValidEntry(mode: KeyMode, e: Entry) {
    && |e.key| < TwoTo32
    && (e.value.Some? ==> |e.value.value| < NoData)
    && (mode == NulTerminated ==> e.key == [] || e.key[|e.key| - 1] != 0)
    && (mode == Exact ==> |e.key| % 4 != 0)
  }

  /** Every entry of a list can be framed. */
  predicate ValidEntries(mode: KeyMode, es: seq<Entry>)
    decreases |es|
  {
    es == [] || (ValidEntry(mode, es[0]) && ValidEntries(mode, es[1..]))
  }

  /** The data size a writer puts in the header for a value. */
  function SizeData(value: Option<Bytes>): nat {
    match value
    case None => NoData
    case Some(d) => |d|
  }

  /** The header, the key with its NUL, and the padding after them. */
  function FrameHead(mode: KeyMode, e: Entry): (r: Bytes)
    requires ValidEntry(mode, e)
    ensures |r| == HeaderSize + |WrittenKey(e.key)| + PadLen(|WrittenKey(e.key)|)
  {
    var written := WrittenKey(e.key);
    EncodeHeader(Header(|e.key|, SizeData(e.value))) + written + Zeros(PadLen(|written|))
  }

  lemma HeadAligned(mode: KeyMode, e: Entry)
    requires ValidEntry(mode, e)
    ensures |FrameHead(mode, e)| % 4 == 0
  {
    var n := |WrittenKey(e.key)|;
    AlignedSum(HeaderSize, n + PadLen(n));
  }

  /** The data and its padding, or nothing when there is no value. */
  function FrameBody(value: Option<Bytes>): (r: Bytes)
    ensures value.Some? ==> |r| == |value.value| + PadLen(|value.value|)
    ensures value.None? ==> r == []
  {
    match value
    case None => []
    case Some(d) => d + Zeros(PadLen(|d|))
  }

  lemma BodyAligned(value: Option<Bytes>)
    ensures |FrameBody(value)| % 4 == 0
  {
    if value.Some? {
      var n := |value.value|;
      assert (n + PadLen(n)) % 4 == 0;
    }
  }

  /** The frame of one entry. */
  function EncodeEntry(mode: KeyMode, e: Entry): (r: Bytes)
    requires ValidEntry(mode, e)
    ensures |r| >= HeaderSize && |r| % 4 == 0
    ensures |r| == |FrameHead(mode, e)| + |FrameBody(e.value)|
  {
    var head, body := FrameHead(mode, e), FrameBody(e.value);
    HeadAligned(mode, e);
    BodyAligned(e.value);
    AlignedSum(|head|, |body|);
    head + body
  }

  lemma AlignedSum(x: nat, y: nat)
    requires x % 4 == 0 && y % 4 == 0
    ensures (x + y) % 4 == 0
  {
  }

  function EncodeEntries(mode: KeyMode, es: seq<Entry>): (r: Bytes)
    requires ValidEntries(mode, es)
    ensures |r| % 4 == 0
  {
    if es == [] then []
    else
      var first, more := EncodeEntry(mode, es[0]), EncodeEntries(mode, es[1..]);
      AlignedSum(|first|, |more|);
      first + more
  }

  /** Reading a key at an aligned position that holds the written key. */
  lemma KeyAt(f: Bytes, at: nat, mode: KeyMode, key: Bytes, next: nat)
    requires at % 4 == 0
    requires mode == NulTerminated ==> key == [] || key[|key| - 1] != 0
    requires mode == Exact ==> |key| % 4 != 0
    requires HoldsAt(f, at, WrittenKey(key))
    requires next == at + |WrittenKey(key)| + PadLen(|WrittenKey(key)|)
    ensures ReadKey(f, at, mode, |key|) == (key, next)
  {
    Align4Shift(at, |key| + 1, next);
    if mode == NulTerminated {
      StrippedKeyAt(f, at, key);
    } else {
      CountedKeyAt(f, at, mode, key);
      if mode == Exact {
        AlignBeforeNul(at, |key|);
      }
    }
  }

  /** Stripping NULs from the key and its NUL gives the key. */
  lemma StrippedKeyAt(f: Bytes, at: nat, key: Bytes)
    requires key == [] || key[|key| - 1] != 0
    requires HoldsAt(f, at, WrittenKey(key))
    ensures ReadKey(f, at, NulTerminated, |key|) == (key, Align4(at + |key| + 1))
  {
    ReadKeyHeld(f, at, NulTerminated, |key|, WrittenKey(key));
    assert Zeros(1) == [0];
    StripPadded(key, 1);
  }

  /** Reading exactly `size_key` bytes gives the key before its NUL. */
  lemma CountedKeyAt(f: Bytes, at: nat, mode: KeyMode, key: Bytes)
    requires mode != NulTerminated
    requires HoldsAt(f, at, WrittenKey(key))
    ensures ReadKey(f, at, mode, |key|) == (key, Align4(at + |key| + NulSkip(mode)))
  {
    HoldsAtAppend(f, at, key, [0], at + |key|);
    ReadKeyHeld(f, at, mode, |key|, key);
  }

  /** After a key that does not fill a multiple of 4 bytes, aligning from
      the key's end or from its NUL's end is the same. */
  lemma AlignBeforeNul(at: nat, n: nat)
    requires at % 4 == 0 && n % 4 != 0
    ensures Align4(at + n) == Align4(at + n + 1)
  {
    assert (at + n) % 4 == n % 4;
  }

  /** Reading a value at an aligned position that holds the written data. */
  lemma ValueAt(f: Bytes, at: nat, value: Option<Bytes>, next: nat)
    requires at % 4 == 0
    requires value.Some? ==> |value.value| < NoData && HoldsAt(f, at, value.value)
    requires next == at + |FrameBody(value)|
    ensures ReadValue(f, at, SizeData(value)) == (value, next)
  {
    if value.Some? {
      ReadValueHeld(f, at, value.value);
      Align4Shift(at, |value.value|, next);
    }
  }

  /** A value read where the file holds the data gives the data. */
  lemma ReadValueHeld(f: Bytes, at: nat, d: Bytes)
    requires |d| < NoData && HoldsAt(f, at, d)
    ensures ReadValue(f, at, |d|) == (Some(d), Align4(at + |d|))
  {
    HoldsAtSlice(f, at, d);
    FileReadContents(f, at, |d|);
  }

  /** A frame is made of the header, key and value read in turn. */
  lemma FrameOf(f: Bytes, pos: nat, mode: KeyMode, h: Header, key: Bytes, afterKey: nat, value: Option<Bytes>, next: nat)
    requires pos + HeaderSize <= |f| && DecodeHeader(f[pos..pos + HeaderSize]) == Some(h)
    requires ReadKey(f, pos + HeaderSize, mode, h.sizeKey) == (key, afterKey)
    requires ReadValue(f, afterKey, h.sizeData) == (value, next)
    ensures NextFrame(f, pos, mode) == Frame(Entry(key, value), next)
  {
  }

  /** A position that holds an encoded header decodes to that header. */
  lemma HeaderAt(f: Bytes, pos: nat, h: Header)
    requires ValidHeader(h) && HoldsAt(f, pos, EncodeHeader(h))
    ensures pos + HeaderSize <= |f| && DecodeHeader(f[pos..pos + HeaderSize]) == Some(h)
  {
    HoldsAtSlice(f, pos, EncodeHeader(h));
    HeaderRoundTrip(h);
  }

  /** The head of a frame, read at its start: the header, then the key. */
  lemma HeadAt(f: Bytes, pos: nat, mode: KeyMode, e: Entry, keyStart: nat, next: nat)
    requires ValidEntry(mode, e) && pos % 4 == 0
    requires HoldsAt(f, pos, FrameHead(mode, e))
    requires keyStart == pos + HeaderSize && next == pos + |FrameHead(mode, e)|
    ensures pos + HeaderSize <= |f|
    ensures DecodeHeader(f[pos..pos + HeaderSize]) == Some(Header(|e.key|, SizeData(e.value)))
    ensures ReadKey(f, keyStart, mode, |e.key|) == (e.key, next)
  {
    var h := Header(|e.key|, SizeData(e.value));
    var hb := EncodeHeader(h);
    var written := WrittenKey(e.key);
    HoldsAtAppend(f, pos, hb + written, Zeros(PadLen(|written|)), keyStart + |written|);
    HoldsAtAppend(f, pos, hb, written, keyStart);
    HeaderAt(f, pos, h);
    AlignedSum(pos, HeaderSize);
    KeyAt(f, keyStart, mode, e.key, next);
  }

  /** The body of a frame, read after its head. */
  lemma BodyAt(f: Bytes, at: nat, value: Option<Bytes>, next: nat)
    requires at % 4 == 0
    requires value.Some? ==> |value.value| < NoData
    requires HoldsAt(f, at, FrameBody(value))
    requires next == at + |FrameBody(value)|
    ensures ReadValue(f, at, SizeData(value)) == (value, next)
  {
    if value.Some? {
      var d := value.value;
      HoldsAtAppend(f, at, d, Zeros(PadLen(|d|)), at + |d|);
    }
    ValueAt(f, at, value, next);
  }

  /** Reading a frame at an aligned position that holds the encoding of an
      entry gives that entry back and moves to the end of the encoding. */
  lemma EntryAt(f: Bytes, pos: nat, mode: KeyMode, e: Entry, next: nat)
    requires ValidEntry(mode, e) && pos % 4 == 0
    requires HoldsAt(f, pos, EncodeEntry(mode, e))
    requires next == pos + |EncodeEntry(mode, e)|
    ensures NextFrame(f, pos, mode) == Frame(e, next)
  {
    var head, body := FrameHead(mode, e), FrameBody(e.value);
    var afterKey := pos + |head|;
    HoldsAtAppend(f, pos, head, body, afterKey);
    HeadAt(f, pos, mode, e, pos + HeaderSize, afterKey);
    HeadAligned(mode, e);
    AlignedSum(pos, |head|);
    BodyAt(f, afterKey, e.value, next);
    FrameOf(f, pos, mode, Header(|e.key|, SizeData(e.value)), e.key, afterKey, e.value, next);
  }

  // ---------------------------------------------------------------------
  // A key that fills a multiple of 4 bytes
  // ---------------------------------------------------------------------

  /** The key rule as written misreads a frame whose key fills a multiple
      of 4 bytes: the position after the key is aligned already, so no seek
      steps over the key's NUL and padding; they are read as the first four
      bytes of the data, and the next header is looked for four bytes before
      the frame ends. */
  lemma ExactMisreadsAlignedKey(e: Entry, d: Bytes)
    requires ValidEntry(ExactSkipNul, e) && e.value == Some(d) && |e.key| % 4 == 0
    ensures var f := EncodeEntry(ExactSkipNul, e);
      NextFrame(f, 0, Exact) == Frame(Entry(e.key, Some((Zeros(4) + d)[..|d|])), |f| - 4)
  {
    var h := Header(|e.key|, |d|);
    var pad := Zeros(PadLen(|d|));
    AlignedKeyLayout(e, d, h, pad);
    MisreadAt(EncodeEntry(ExactSkipNul, e), h, e.key, d, pad);
  }

  /** The bytes of a frame whose key fills a multiple of 4: the header, the
      key, four zero bytes (its NUL and padding), the data and its padding. */
  lemma AlignedKeyLayout(e: Entry, d: Bytes, h: Header, pad: Bytes)
    requires ValidEntry(ExactSkipNul, e) && e.value == Some(d) && |e.key| % 4 == 0
    requires h == Header(|e.key|, |d|) && pad == Zeros(PadLen(|d|))
    ensures EncodeEntry(ExactSkipNul, e) == EncodeHeader(h) + (e.key + (Zeros(4) + d + pad))
  {
    var head, body := FrameHead(ExactSkipNul, e), FrameBody(e.value);
    assert PadLen(|WrittenKey(e.key)|) == 3;
    assert head == EncodeHeader(h) + WrittenKey(e.key) + Zeros(3);
    assert body == d + pad;
    assert [0] + Zeros(3) == Zeros(4);
    assert WrittenKey(e.key) + Zeros(3) == e.key + Zeros(4);
    Regroup4(EncodeHeader(h), e.key, Zeros(4), d, pad);
  }

  lemma Regroup4(a: Bytes, b: Bytes, c: Bytes, d: Bytes, e: Bytes)
    ensures (a + (b + c)) + (d + e) == a + (b + (c + d + e))
  {
  }

  /** Where the header, the key and the four bytes after it lie in such a
      frame. */
  lemma MisreadLayout(f: Bytes, h: Header, key: Bytes, d: Bytes, pad: Bytes)
    requires ValidHeader(h) && pad == Zeros(PadLen(|d|))
    requires f == EncodeHeader(h) + (key + (Zeros(4) + d + pad))
    ensures var koff := HeaderSize + |key|;
      && HoldsAt(f, 0, EncodeHeader(h)) && HoldsAt(f, HeaderSize, key)
      && HoldsAt(f, koff, (Zeros(4) + d) + pad)
      && |f| == koff + 4 + |d| + PadLen(|d|)
  {
    var koff := HeaderSize + |key|;
    var rest := (Zeros(4) + d) + pad;
    HoldsWhole(f);
    HoldsAtAppend(f, 0, EncodeHeader(h), key + rest, HeaderSize);
    HoldsAtAppend(f, HeaderSize, key, rest, koff);
  }

  /** The frame the call-log read takes from such a layout. */
  lemma MisreadAt(f: Bytes, h: Header, key: Bytes, d: Bytes, pad: Bytes)
    requires h == Header(|key|, |d|) && ValidHeader(h) && |key| % 4 == 0 && |d| < NoData
    requires pad == Zeros(PadLen(|d|)) && f == EncodeHeader(h) + (key + (Zeros(4) + d + pad))
    ensures NextFrame(f, 0, Exact) == Frame(Entry(key, Some((Zeros(4) + d)[..|d|])), |f| - 4)
  {
    var koff := HeaderSize + |key|;
    var shifted := Zeros(4) + d;
    MisreadLayout(f, h, key, d, pad);
    HeaderAt(f, 0, h);
    ReadKeyHeld(f, HeaderSize, Exact, |key|, key);
    assert ReadKey(f, HeaderSize, Exact, h.sizeKey) == (key, koff);
    var n := h.sizeData;
    assert n == |d|;
    ShiftedValueAt(f, koff, shifted, pad, n);
    FrameOf(f, 0, Exact, h, key, koff, Some(shifted[..n]), koff + n + PadLen(n));
  }

  /** The data read where four bytes too early the file holds `shifted`. */
  lemma ShiftedValueAt(f: Bytes, koff: nat, shifted: Bytes, pad: Bytes, n: nat)
    requires koff % 4 == 0 && n < NoData && |shifted| == n + 4 && pad == Zeros(PadLen(n))
    requires HoldsAt(f, koff, shifted + pad)
    ensures ReadValue(f, koff, n) == (Some(shifted[..n]), koff + n + PadLen(n))
  {
    var front, back := shifted[..n], shifted[n..] + pad;
    assert shifted + pad == front + back;
    HoldsAtAppend(f, koff, front, back, koff + n);
    ReadValueHeld(f, koff, front);
    Align4Shift(koff, n, koff + n + PadLen(n));
  }

  /** Stepping over the key's NUL reads the same frame back whole, whatever
      the key's length. */
  lemma SkipNulReadsEveryKey(e: Entry)
    requires ValidEntry(ExactSkipNul, e)
    ensures var f := EncodeEntry(ExactSkipNul, e);
      NextFrame(f, 0, ExactSkipNul) == Frame(e, |f|)
  {
    var f := EncodeEntry(ExactSkipNul, e);
    HoldsWhole(f);
    EntryAt(f, 0, ExactSkipNul, e, |f|);
  }

  /** The same written frame, alone in a file, framed by the rule as
      written: one misread entry, then the loop stops on the four bytes it
      takes for a short header. */
  lemma ExactMisreadsAlignedFile(e: Entry, d: Bytes)
    requires ValidEntry(ExactSkipNul, e) && e.value == Some(d) && |e.key| % 4 == 0
    ensures FramesFrom(EncodeEntries(ExactSkipNul, [e]), 0, Exact) ==
      ([Entry(e.key, Some((Zeros(4) + d)[..|d|]))], ShortHeader)
  {
    var f := EncodeEntry(ExactSkipNul, e);
    assert [e][1..] == [];
    assert EncodeEntries(ExactSkipNul, [e]) == f + [];
    assert f + [] == f;
    var misread := Entry(e.key, Some((Zeros(4) + d)[..|d|]));
    ExactMisreadsAlignedKey(e, d);
    ShortOrEnd(f, |f| - 4, Exact);
    assert FramesFrom(f, 0, Exact) == ([misread] + [], ShortHeader);
    assert [misread] + [] == [misread];
  }

  /** The two counted key rules read the same key bytes. After them, the
      rule as written stops where the key ends, aligned, and the corrected
      rule one byte later, aligned: the same position unless the key read
      ends on a multiple of 4, and then four bytes further on. */
  lemma KeyRulesCompared(f: Bytes, keyStart: nat, sizeKey: nat)
    ensures ReadKey(f, keyStart, Exact, sizeKey).0 == ReadKey(f, keyStart, ExactSkipNul, sizeKey).0
    ensures var keyEnd := keyStart + |FileRead(f, keyStart, sizeKey)|;
      && (keyEnd % 4 != 0 ==> ReadKey(f, keyStart, Exact, sizeKey).1 == ReadKey(f, keyStart, ExactSkipNul, sizeKey).1)
      && (keyEnd % 4 == 0 ==> ReadKey(f, keyStart, ExactSkipNul, sizeKey).1 == ReadKey(f, keyStart, Exact, sizeKey).1 + 4)
  {
  }

  /** At `pos`, a header and a key whose read ends on a multiple of 4. */
  predicate AlignedKeyEnd(f: Bytes, pos: nat) {
    && pos + HeaderSize <= |f|
    && DecodeHeader(f[pos..pos + HeaderSize]).Some?
    && (pos + HeaderSize + |FileRead(f, pos + HeaderSize, DecodeHeader(f[pos..pos + HeaderSize]).value.sizeKey)|) % 4 == 0
  }

  /** The rule as written agrees with the corrected one at every position
      except one holding a key that ends on a multiple of 4; there both read
      a frame with the same key, the rule as written taking the data from
      four bytes earlier. */
  lemma KeyRulesAgree(f: Bytes, pos: nat)
    ensures !AlignedKeyEnd(f, pos) ==> NextFrame(f, pos, Exact) == NextFrame(f, pos, ExactSkipNul)
    ensures AlignedKeyEnd(f, pos) ==>
      && NextFrame(f, pos, Exact).Frame? && NextFrame(f, pos, ExactSkipNul).Frame?
      && NextFrame(f, pos, Exact).entry.key == NextFrame(f, pos, ExactSkipNul).entry.key
      && var sizes := DecodeHeader(f[pos..pos + HeaderSize]).value;
         var at := ReadKey(f, pos + HeaderSize, Exact, sizes.sizeKey).1;
         && NextFrame(f, pos, Exact).entry.value == ReadValue(f, at, sizes.sizeData).0
         && NextFrame(f, pos, ExactSkipNul).entry.value == ReadValue(f, at + 4, sizes.sizeData).0
  {
    if pos + HeaderSize <= |f| && DecodeHeader(f[pos..pos + HeaderSize]).Some? {
      var h := DecodeHeader(f[pos..pos + HeaderSize]).value;
      var exact := ReadKey(f, pos + HeaderSize, Exact, h.sizeKey);
      var skip := ReadKey(f, pos + HeaderSize, ExactSkipNul, h.sizeKey);
      KeyRulesCompared(f, pos + HeaderSize, h.sizeKey);
      assert NextFrame(f, pos, Exact) == Frame(Entry(exact.0, ReadValue(f, exact.1, h.sizeData).0), ReadValue(f, exact.1, h.sizeData).1);
      assert NextFrame(f, pos, ExactSkipNul) == Frame(Entry(skip.0, ReadValue(f, skip.1, h.sizeData).0), ReadValue(f, skip.1, h.sizeData).1);
    }
  }

  /** A writer's bytes do not depend on the key rule the entries are checked
      against. */
  lemma {:induction false} EncodingOfEitherRule(m1: KeyMode, m2: KeyMode, es: seq<Entry>)
    requires ValidEntries(m1, es) && ValidEntries(m2, es)
    ensures EncodeEntries(m1, es) == EncodeEntries(m2, es)
    decreases |es|
  {
    if es != [] {
      EncodingOfEitherRule(m1, m2, es[1..]);
    }
  }

  lemma ConsAppend(es: seq<Entry>, tail: seq<Entry>)
    requires es != []
    ensures [es[0]] + (es[1..] + tail) == es + tail
  {
  }

  /** From `pos` on, the file's frames are the entries `es`, and the last
      of them ends at `end`. */
  predicate FramedAt(f: Bytes, pos: nat, mode: KeyMode, es: seq<Entry>, end: nat)
    decreases |es|
  {
    if es == [] then end == pos
    else
      var step := NextFrame(f, pos, mode);
      step.Frame? && step.entry == es[0] && FramedAt(f, step.next, mode, es[1..], end)
  }

  /** Frames read one after another are the first entries of the framing. */
  lemma {:induction false} FramesOfFramed(f: Bytes, pos: nat, mode: KeyMode, es: seq<Entry>, end: nat)
    requires FramedAt(f, pos, mode, es, end)
    ensures FramesFrom(f, pos, mode) == (es + FramesFrom(f, end, mode).0, FramesFrom(f, end, mode).1)
    decreases |es|
  {
    if es == [] {
      assert es + FramesFrom(f, end, mode).0 == FramesFrom(f, end, mode).0;
    } else {
      var step := NextFrame(f, pos, mode);
      FramesOfFramed(f, step.next, mode, es[1..], end);
      ConsAppend(es, FramesFrom(f, end, mode).0);
    }
  }

  /** An aligned position that holds the encoding of a list of entries holds
      those entries as frames, the last ending where the encoding does. */
  lemma {:induction false} EncodedIsFramed(f: Bytes, pos: nat, mode: KeyMode, es: seq<Entry>, end: nat)
    requires ValidEntries(mode, es) && pos % 4 == 0
    requires HoldsAt(f, pos, EncodeEntries(mode, es))
    requires end == pos + |EncodeEntries(mode, es)|
    ensures FramedAt(f, pos, mode, es, end)
    decreases |es|
  {
    if es != [] {
      var first := EncodeEntry(mode, es[0]);
      var more := EncodeEntries(mode, es[1..]);
      var next := pos + |first|;
      HoldsAtAppend(f, pos, first, more, next);
      EntryAt(f, pos, mode, es[0], next);
      AlignedSum(pos, |first|);
      EncodedIsFramed(f, next, mode, es[1..], end);
    }
  }

  /** Reading frames at an aligned position that holds the encoding of a
      list of entries, which ends at `end`, gives those entries, then
      whatever follows them. */
  lemma EntriesAt(f: Bytes, pos: nat, mode: KeyMode, es: seq<Entry>, end: nat)
    requires ValidEntries(mode, es)
    requires pos % 4 == 0
    requires HoldsAt(f, pos, EncodeEntries(mode, es))
    requires end == pos + |EncodeEntries(mode, es)|
    ensures FramesFrom(f, pos, mode) == (es + FramesFrom(f, end, mode).0, FramesFrom(f, end, mode).1)
  {
    EncodedIsFramed(f, pos, mode, es, end);
    FramesOfFramed(f, pos, mode, es, end);
  }

  /** A file that is the encoding of a list of entries frames into them. */
  lemma FramesOfEncoding(f: Bytes, mode: KeyMode, es: seq<Entry>)
    requires ValidEntries(mode, es)
    requires HoldsAt(f, 0, EncodeEntries(mode, es)) && |f| == |EncodeEntries(mode, es)|
    ensures FramesFrom(f, 0, mode) == (es, Clean)
  {
    EntriesAt(f, 0, mode, es, |f|);
    ShortOrEnd(f, |f|, mode);
    assert es + [] == es;
  }

  /** Framing round trip: a stream written from entries frames back into
      exactly those entries and ends cleanly. */
  lemma FramingRoundTrip(mode: KeyMode, es: seq<Entry>)
    requires ValidEntries(mode, es)
    ensures FramesFrom(EncodeEntries(mode, es), 0, mode) == (es, Clean)
  {
    HoldsWhole(EncodeEntries(mode, es));
    FramesOfEncoding(EncodeEntries(mode, es), mode, es);
  }

  /** The encoding of a list of entries, ending at `end`, followed by a
      tail frames into those entries, then frames the tail. */
  lemma FramesBeforeTail(mode: KeyMode, es: seq<Entry>, tail: Bytes, end: nat)
    requires ValidEntries(mode, es)
    requires end == |EncodeEntries(mode, es)|
    ensures var f := EncodeEntries(mode, es) + tail;
      FramesFrom(f, 0, mode) == (es + FramesFrom(f, end, mode).0, FramesFrom(f, end, mode).1)
  {
    var f := EncodeEntries(mode, es) + tail;
    HoldsWhole(f);
    HoldsAtAppend(f, 0, EncodeEntries(mode, es), tail, end);
    EntriesAt(f, 0, mode, es, end);
  }

  /** A stream that ends in 1 to 11 stray bytes where a header belongs: the
      entries before them are kept and the loop stops on the short header. */
  lemma TruncatedTail(mode: KeyMode, es: seq<Entry>, tail: Bytes)
    requires ValidEntries(mode, es)
    requires 0 < |tail| < HeaderSize
    ensures FramesFrom(EncodeEntries(mode, es) + tail, 0, mode) == (es, ShortHeader)
  {
    var end := |EncodeEntries(mode, es)|;
    FramesBeforeTail(mode, es, tail, end);
    ShortOrEnd(EncodeEntries(mode, es) + tail, end, mode);
    AppendNothing(es);
  }

  /** Where fewer than 12 bytes remain, framing stops at once: cleanly when
      none is left, on a short header otherwise. */
  lemma ShortOrEnd(f: Bytes, pos: nat, mode: KeyMode)
    requires |f| < pos + HeaderSize
    ensures FramesFrom(f, pos, mode) == ([], if pos >= |f| then Clean else ShortHeader)
  {
  }

  lemma CorruptAt(f: Bytes, pos: nat, mode: KeyMode)
    requires pos + HeaderSize <= |f| && f[pos..pos + 4] != Magic
    ensures FramesFrom(f, pos, mode) == ([], BadMagic)
  {
    NextFrameOutcomes(f, pos, mode);
  }

  /** A stream whose next header does not start with the magic: framing
      stops there with the entries before it. */
  lemma CorruptTail(mode: KeyMode, es: seq<Entry>, tail: Bytes)
    requires ValidEntries(mode, es)
    requires HeaderSize <= |tail| && tail[..4] != Magic
    ensures FramesFrom(EncodeEntries(mode, es) + tail, 0, mode) == (es, BadMagic)
  {
    var end := |EncodeEntries(mode, es)|;
    FramesBeforeTail(mode, es, tail, end);
    CorruptAfter(EncodeEntries(mode, es), tail, mode, end);
    AppendNothing(es);
  }

  lemma CorruptAfter(head: Bytes, tail: Bytes, mode: KeyMode, end: nat)
    requires HeaderSize <= |tail| && tail[..4] != Magic && end == |head|
    ensures FramesFrom(head + tail, end, mode) == ([], BadMagic)
  {
    assert (head + tail)[end..end + 4] == tail[..4];
    CorruptAt(head + tail, end, mode);
  }

  // ---------------------------------------------------------------------
  // A tool's read loop with its per-entry handling
  // ---------------------------------------------------------------------

  /** The read loop of a tool's `main` as written: each frame is handed to
      `step` (the tool's handling of one entry, `None` when it raises) before
      the next header is read. */
  function Run<A>(f: Bytes, pos: nat, mode: KeyMode, step: (A, Entry) -> Option<A>, acc: A): (A, Stop)
    decreases |f| - pos
  {
    match NextFrame(f, pos, mode)
    case End => (acc, Clean)
    case Short => (acc, ShortHeader)
    case Corrupt => (acc, BadMagic)
    case Frame(e, next) =>
      match step(acc, e)
      case None => (acc, BadRecord)
      case Some(acc') => Run(f, next, mode, step, acc')
  }

  /** Handing already framed entries to `step` in order. */
  function Collect<A>(entries: seq<Entry>, stop: Stop, step: (A, Entry) -> Option<A>, acc: A): (A, Stop)
    decreases |entries|
  {
    if entries == [] then (acc, stop)
    else match step(acc, entries[0])
      case None => (acc, BadRecord)
      case Some(acc') => Collect(entries[1..], stop, step, acc')
  }

  /** Framing the whole file first and then handling the entries gives what
      the interleaved loop gives: framing never depends on the handling. */
  lemma {:induction false} RunIsCollect<A>(f: Bytes, pos: nat, mode: KeyMode, step: (A, Entry) -> Option<A>, acc: A)
    ensures Run(f, pos, mode, step, acc) ==
      Collect(FramesFrom(f, pos, mode).0, FramesFrom(f, pos, mode).1, step, acc)
    decreases |f| - pos
  {
    match NextFrame(f, pos, mode)
    case End =>
    case Short =>
    case Corrupt =>
    case Frame(e, next) =>
      var rest := FramesFrom(f, next, mode);
      assert ([e] + rest.0)[1..] == rest.0;
      match step(acc, e)
      case None =>
      case Some(acc') => RunIsCollect(f, next, mode, step, acc');
  }

  /** A handler that, on entry `e`, appends `x` to whatever it has
      collected. */
  ghost predicate Appends<T(!new)>(step: (seq<T>, Entry) -> Option<seq<T>>, e: Entry, x: T) {
    forall acc: seq<T> {:trigger step(acc, e)} :: step(acc, e) == Some(acc + [x])
  }

  /** Entries on which the handler only appends give the appended values in
      order, and the framing's own stop. */
  lemma {:induction false} CollectAppends<T(!new)>(es: seq<Entry>, xs: seq<T>, stop: Stop,
                                             step: (seq<T>, Entry) -> Option<seq<T>>, acc: seq<T>)
    requires |es| == |xs| && forall i :: 0 <= i < |es| ==> Appends(step, es[i], xs[i])
    ensures Collect(es, stop, step, acc) == (acc + xs, stop)
    decreases |es|
  {
    if es == [] {
      assert acc + xs == acc;
    } else {
      assert Appends(step, es[0], xs[0]);
      assert step(acc, es[0]) == Some(acc + [xs[0]]);
      assert forall i :: 0 <= i < |es| - 1 ==> es[1..][i] == es[i + 1] && xs[1..][i] == xs[i + 1];
      CollectAppends(es[1..], xs[1..], stop, step, acc + [xs[0]]);
      assert acc + [xs[0]] + xs[1..] == acc + xs;
    }
  }

  /** A handler that leaves what it has collected as it is on entry `e`. */
  ghost predicate Keeps<A(!new)>(step: (A, Entry) -> Option<A>, e: Entry) {
    forall acc: A {:trigger step(acc, e)} :: step(acc, e) == Some(acc)
  }

  /** Entries the handler ignores leave the result as it started, with the
      framing's own stop. */
  lemma {:induction false} CollectKeeps<A(!new)>(es: seq<Entry>, stop: Stop, step: (A, Entry) -> Option<A>, acc: A)
    requires forall i :: 0 <= i < |es| ==> Keeps(step, es[i])
    ensures Collect(es, stop, step, acc) == (acc, stop)
    decreases |es|
  {
    if es != [] {
      assert Keeps(step, es[0]);
      assert step(acc, es[0]) == Some(acc);
      assert forall i :: 0 <= i < |es| - 1 ==> es[1..][i] == es[i + 1];
      CollectKeeps(es[1..], stop, step, acc);
    }
  }

  /** A single entry, accepted or not. */
  lemma CollectSingle<A>(e: Entry, stop: Stop, step: (A, Entry) -> Option<A>, acc: A)
    ensures Collect([e], stop, step, acc) ==
      match step(acc, e)
      case None => (acc, BadRecord)
      case Some(acc') => (acc', stop)
  {
    assert [e][1..] == [];
  }

  /** A single entry the handler accepts. */
  lemma CollectOne<A>(e: Entry, stop: Stop, step: (A, Entry) -> Option<A>, acc: A, acc': A)
    requires step(acc, e) == Some(acc')
    ensures Collect([e], stop, step, acc) == (acc', stop)
  {
    assert [e][1..] == [];
  }
}
