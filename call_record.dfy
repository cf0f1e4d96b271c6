/** One call-log entry of the call-log backup. All integers are big-endian.
    The record is a version, the start time in milliseconds (signed), the
    duration in seconds, the presence-flagged number, the call type and the
    number presentation, the presence-flagged service name, SIM identifier
    and own number, 12 unexplained bytes, a 16-bit length-prefixed OEM
    string and two unexplained 32-bit words. Version 1007 adds 10 more
    unexplained bytes and a 32-bit block reason. Bytes after the last field
    are not looked at. */
module CallRecords {
  import opened Bytes

  const TwoTo32: nat := 0x1_0000_0000

  /** The version that carries the block reason. */
  const BlockingVersion: nat := 1007

  datatype CallRecord = CallRecord(
    version: nat,
    timestamp: int,
    duration: nat,
    number: Flagged,
    callType: nat,
    presentation: nat,
    serviceName: Flagged,
    iccid: Flagged,
    ownNumber: Flagged,
    unknown3: Bytes,
    oem: Bytes,
    unknown4: (nat, nat),
    unknown5: Option<Bytes>,
    blockReason: Option<nat>)

  /** What the layout can hold; the last two fields are there exactly in
      version 1007. */
  predicate ValidRecord(c: CallRecord) {
    && c.version < TwoTo32 && -TwoTo63 <= c.timestamp < TwoTo63 && c.duration < Pow256(8)
    && ValidFlagged(c.number) && c.callType < TwoTo32 && c.presentation < TwoTo32
    && ValidFlagged(c.serviceName) && ValidFlagged(c.iccid) && ValidFlagged(c.ownNumber)
    && |c.unknown3| == 12 && |c.oem| < 0x1_0000
    && c.unknown4.0 < TwoTo32 && c.unknown4.1 < TwoTo32
    && (c.unknown5.Some? <==> c.version == BlockingVersion)
    && (c.unknown5.Some? ==> |c.unknown5.value| == 10)
    && (c.blockReason.Some? <==> c.version == BlockingVersion)
    && (c.blockReason.Some? ==> c.blockReason.value < TwoTo32)
  }

  /** The bytes a record occupies. */
  function RecordSize(c: CallRecord): nat {
    4 + 8 + 8 + FlaggedSize(c.number) + 4 + 4
    + FlaggedSize(c.serviceName) + FlaggedSize(c.iccid) + FlaggedSize(c.ownNumber)
    + 12 + 2 + |c.oem| + 8
    + (if c.unknown5.Some? then 10 else 0) + (if c.blockReason.Some? then 4 else 0)
  }

  // ---------------------------------------------------------------------
  // Reading, in three stretches
  // ---------------------------------------------------------------------

  /** Version, timestamp, duration and number. */
  function ReadHead(s: Bytes): Option<Read<(nat, int, nat, Flagged)>> {
    Pow256Values();
    var version :- ReadUnsigned(s, 4);
    var timestamp :- ReadS64(version.rest);
    var duration :- ReadUnsigned(timestamp.rest, 8);
    var number :- ReadFlagged(duration.rest);
    Some(Read((version.value, timestamp.value, duration.value, number.value), number.rest))
  }

  /** Call type, presentation, service name, SIM identifier and own number. */
  function ReadParties(s: Bytes): Option<Read<(nat, nat, Flagged, Flagged, Flagged)>> {
    Pow256Values();
    var callType :- ReadUnsigned(s, 4);
    var presentation :- ReadUnsigned(callType.rest, 4);
    var serviceName :- ReadFlagged(presentation.rest);
    var iccid :- ReadFlagged(serviceName.rest);
    var ownNumber :- ReadFlagged(iccid.rest);
    Some(Read((callType.value, presentation.value, serviceName.value, iccid.value, ownNumber.value), ownNumber.rest))
  }

  /** The 10 bytes and the block reason that only version 1007 has. */
  function ReadBlocking(version: nat, s: Bytes): (r: Option<Read<(Option<Bytes>, Option<nat>)>>)
    ensures r.Some? ==> (r.value.value.0.Some? <==> version == BlockingVersion)
    ensures r.Some? ==> (r.value.value.1.Some? <==> version == BlockingVersion)
  {
    Pow256Values();
    if version == BlockingVersion then
      var unknown5 :- ReadBytes(s, 10);
      var reason :- ReadUnsigned(unknown5.rest, 4);
      Some(Read((Some(unknown5.value), Some(reason.value)), reason.rest))
    else Some(Read((None, None), s))
  }

  /** The 12 bytes, the OEM string, the two words and the version 1007
      fields. */
  function ReadTrailer(version: nat, s: Bytes): (r: Option<Read<(Bytes, Bytes, (nat, nat), Option<Bytes>, Option<nat>)>>)
    ensures r.Some? ==> (r.value.value.3.Some? <==> version == BlockingVersion)
    ensures r.Some? ==> (r.value.value.4.Some? <==> version == BlockingVersion)
  {
    Pow256Values();
    var unknown3 :- ReadBytes(s, 12);
    var oem :- ReadPascal16(unknown3.rest);
    var first :- ReadUnsigned(oem.rest, 4);
    var second :- ReadUnsigned(first.rest, 4);
    var blocking :- ReadBlocking(version, second.rest);
    Some(Read((unknown3.value, oem.value, (first.value, second.value), blocking.value.0, blocking.value.1), blocking.rest))
  }

  /** `CallRecord.parse`: `None` where the data ends before a field. */
  function DecodeCallRecord(s: Bytes): (r: Option<Read<CallRecord>>)
    ensures r.Some? ==> (r.value.value.unknown5.Some? <==> r.value.value.version == BlockingVersion)
    ensures r.Some? ==> (r.value.value.blockReason.Some? <==> r.value.value.version == BlockingVersion)
  {
    var head :- ReadHead(s);
    var parties :- ReadParties(head.rest);
    var trailer :- ReadTrailer(head.value.0, parties.rest);
    var (version, timestamp, duration, number) := head.value;
    var (callType, presentation, serviceName, iccid, ownNumber) := parties.value;
    var (unknown3, oem, unknown4, unknown5, blockReason) := trailer.value;
    Some(Read(CallRecord(version, timestamp, duration, number, callType, presentation,
      serviceName, iccid, ownNumber, unknown3, oem, unknown4, unknown5, blockReason), trailer.rest))
  }

  // ---------------------------------------------------------------------
  // Writing
  // ---------------------------------------------------------------------

  function BlockingOnto(c: CallRecord, rest: Bytes): (r: Bytes)
    requires ValidRecord(c)
    ensures |r| == (if c.version == BlockingVersion then 14 else 0) + |rest|
  {
    if c.version == BlockingVersion then c.unknown5.value + (BigEndianBytes(c.blockReason.value, 4) + rest)
    else rest
  }

  function TrailerOnto(c: CallRecord, rest: Bytes): (r: Bytes)
    requires ValidRecord(c)
    ensures |r| == 22 + |c.oem| + (if c.version == BlockingVersion then 14 else 0) + |rest|
  {
    c.unknown3 + (Pascal16Bytes(c.oem) + (BigEndianBytes(c.unknown4.0, 4)
      + (BigEndianBytes(c.unknown4.1, 4) + BlockingOnto(c, rest))))
  }

  function PartiesOnto(c: CallRecord, rest: Bytes): (r: Bytes)
    requires ValidRecord(c)
    ensures |r| == 8 + FlaggedSize(c.serviceName) + FlaggedSize(c.iccid) + FlaggedSize(c.ownNumber)
      + |TrailerOnto(c, rest)|
  {
    BigEndianBytes(c.callType, 4) + (BigEndianBytes(c.presentation, 4) + (FlaggedBytes(c.serviceName)
      + (FlaggedBytes(c.iccid) + (FlaggedBytes(c.ownNumber) + TrailerOnto(c, rest)))))
  }

  /** The bytes of a record followed by `rest`. */
  function EncodeOnto(c: CallRecord, rest: Bytes): (r: Bytes)
    requires ValidRecord(c)
    ensures |r| == RecordSize(c) + |rest|
  {
    BigEndianBytes(c.version, 4) + (S64Bytes(c.timestamp) + (BigEndianBytes(c.duration, 8)
      + (FlaggedBytes(c.number) + PartiesOnto(c, rest))))
  }

  // ---------------------------------------------------------------------
  // Round trips, stretch by stretch
  // ---------------------------------------------------------------------

  lemma HeadOfEncoding(c: CallRecord, rest: Bytes)
    requires ValidRecord(c)
    ensures ReadHead(EncodeOnto(c, rest)) ==
      Some(Read((c.version, c.timestamp, c.duration, c.number), PartiesOnto(c, rest)))
  {
    Pow256Values();
    var afterDuration := FlaggedBytes(c.number) + PartiesOnto(c, rest);
    var afterTimestamp := BigEndianBytes(c.duration, 8) + afterDuration;
    ReadUnsignedOfEncoding(c.version, 4, S64Bytes(c.timestamp) + afterTimestamp);
    ReadS64OfEncoding(c.timestamp, afterTimestamp);
    ReadUnsignedOfEncoding(c.duration, 8, afterDuration);
    ReadFlaggedOfEncoding(c.number, PartiesOnto(c, rest));
  }

  lemma PartiesOfEncoding(c: CallRecord, rest: Bytes)
    requires ValidRecord(c)
    ensures ReadParties(PartiesOnto(c, rest)) ==
      Some(Read((c.callType, c.presentation, c.serviceName, c.iccid, c.ownNumber), TrailerOnto(c, rest)))
  {
    Pow256Values();
    var afterIccid := FlaggedBytes(c.ownNumber) + TrailerOnto(c, rest);
    var afterService := FlaggedBytes(c.iccid) + afterIccid;
    var afterPresentation := FlaggedBytes(c.serviceName) + afterService;
    ReadUnsignedOfEncoding(c.callType, 4, BigEndianBytes(c.presentation, 4) + afterPresentation);
    ReadUnsignedOfEncoding(c.presentation, 4, afterPresentation);
    ReadFlaggedOfEncoding(c.serviceName, afterService);
    ReadFlaggedOfEncoding(c.iccid, afterIccid);
    ReadFlaggedOfEncoding(c.ownNumber, TrailerOnto(c, rest));
  }

  lemma BlockingOfEncoding(c: CallRecord, rest: Bytes)
    requires ValidRecord(c)
    ensures ReadBlocking(c.version, BlockingOnto(c, rest)) == Some(Read((c.unknown5, c.blockReason), rest))
  {
    Pow256Values();
    if c.version == BlockingVersion {
      ReadPrefix(c.unknown5.value, BigEndianBytes(c.blockReason.value, 4) + rest);
      ReadUnsignedOfEncoding(c.blockReason.value, 4, rest);
    }
  }

  lemma TrailerOfEncoding(c: CallRecord, rest: Bytes)
    requires ValidRecord(c)
    ensures ReadTrailer(c.version, TrailerOnto(c, rest)) ==
      Some(Read((c.unknown3, c.oem, c.unknown4, c.unknown5, c.blockReason), rest))
  {
    Pow256Values();
    var afterFirst := BigEndianBytes(c.unknown4.1, 4) + BlockingOnto(c, rest);
    var afterOem := BigEndianBytes(c.unknown4.0, 4) + afterFirst;
    var afterUnknown3 := Pascal16Bytes(c.oem) + afterOem;
    ReadPrefix(c.unknown3, afterUnknown3);
    ReadPascal16OfEncoding(c.oem, afterOem);
    ReadUnsignedOfEncoding(c.unknown4.0, 4, afterFirst);
    ReadUnsignedOfEncoding(c.unknown4.1, 4, BlockingOnto(c, rest));
    BlockingOfEncoding(c, rest);
  }

  /** Round trip: a written record reads back, whatever follows it. */
  lemma DecodeOfEncode(c: CallRecord, rest: Bytes)
    requires ValidRecord(c)
    ensures DecodeCallRecord(EncodeOnto(c, rest)) == Some(Read(c, rest))
  {
    HeadOfEncoding(c, rest);
    PartiesOfEncoding(c, rest);
    TrailerOfEncoding(c, rest);
    DecodeParts(EncodeOnto(c, rest), c, PartiesOnto(c, rest), TrailerOnto(c, rest), rest);
  }

  lemma HeadEncoding(s: Bytes)
    requires ReadHead(s).Some?
    ensures var (version, timestamp, duration, number) := ReadHead(s).value.value;
      && version < TwoTo32 && -TwoTo63 <= timestamp < TwoTo63 && duration < Pow256(8) && ValidFlagged(number)
      && s == BigEndianBytes(version, 4) + (S64Bytes(timestamp) + (BigEndianBytes(duration, 8)
           + (FlaggedBytes(number) + ReadHead(s).value.rest)))
  {
    Pow256Values();
    var version := ReadUnsigned(s, 4).value;
    var timestamp := ReadS64(version.rest).value;
    var duration := ReadUnsigned(timestamp.rest, 8).value;
    EncodingOfReadUnsigned(s, 4);
    EncodingOfReadS64(version.rest);
    EncodingOfReadUnsigned(timestamp.rest, 8);
    EncodingOfReadFlagged(duration.rest);
  }

  lemma PartiesEncoding(s: Bytes)
    requires ReadParties(s).Some?
    ensures var (callType, presentation, serviceName, iccid, ownNumber) := ReadParties(s).value.value;
      && callType < TwoTo32 && presentation < TwoTo32
      && ValidFlagged(serviceName) && ValidFlagged(iccid) && ValidFlagged(ownNumber)
      && s == BigEndianBytes(callType, 4) + (BigEndianBytes(presentation, 4) + (FlaggedBytes(serviceName)
           + (FlaggedBytes(iccid) + (FlaggedBytes(ownNumber) + ReadParties(s).value.rest))))
  {
    Pow256Values();
    var callType := ReadUnsigned(s, 4).value;
    var presentation := ReadUnsigned(callType.rest, 4).value;
    var serviceName := ReadFlagged(presentation.rest).value;
    var iccid := ReadFlagged(serviceName.rest).value;
    EncodingOfReadUnsigned(s, 4);
    EncodingOfReadUnsigned(callType.rest, 4);
    EncodingOfReadFlagged(presentation.rest);
    EncodingOfReadFlagged(serviceName.rest);
    EncodingOfReadFlagged(iccid.rest);
  }

  lemma BlockingEncoding(version: nat, s: Bytes)
    requires ReadBlocking(version, s).Some?
    ensures var (unknown5, reason) := ReadBlocking(version, s).value.value;
      var rest := ReadBlocking(version, s).value.rest;
      && (unknown5.Some? ==> |unknown5.value| == 10)
      && (reason.Some? ==> reason.value < TwoTo32)
      && s == (if version == BlockingVersion then unknown5.value + (BigEndianBytes(reason.value, 4) + rest) else rest)
  {
    Pow256Values();
    if version == BlockingVersion {
      var unknown5 := ReadBytes(s, 10).value;
      EncodingOfReadUnsigned(unknown5.rest, 4);
    }
  }

  lemma TrailerEncoding(version: nat, s: Bytes)
    requires ReadTrailer(version, s).Some?
    ensures var (unknown3, oem, unknown4, unknown5, reason) := ReadTrailer(version, s).value.value;
      var rest := ReadTrailer(version, s).value.rest;
      && |unknown3| == 12 && |oem| < 0x1_0000 && unknown4.0 < TwoTo32 && unknown4.1 < TwoTo32
      && (unknown5.Some? <==> version == BlockingVersion) && (reason.Some? <==> version == BlockingVersion)
      && (unknown5.Some? ==> |unknown5.value| == 10) && (reason.Some? ==> reason.value < TwoTo32)
      && s == unknown3 + (Pascal16Bytes(oem) + (BigEndianBytes(unknown4.0, 4) + (BigEndianBytes(unknown4.1, 4)
           + (if version == BlockingVersion then unknown5.value + (BigEndianBytes(reason.value, 4) + rest) else rest))))
  {
    Pow256Values();
    var unknown3 := ReadBytes(s, 12).value;
    var oem := ReadPascal16(unknown3.rest).value;
    var first := ReadUnsigned(oem.rest, 4).value;
    var second := ReadUnsigned(first.rest, 4).value;
    EncodingOfReadPascal16(unknown3.rest);
    EncodingOfReadUnsigned(oem.rest, 4);
    EncodingOfReadUnsigned(first.rest, 4);
    BlockingEncoding(version, second.rest);
  }

  /** The other direction: the bytes a record was read from are its encoding
      followed by what was not read. */
  lemma EncodeOfDecode(s: Bytes)
    requires DecodeCallRecord(s).Some?
    ensures ValidRecord(DecodeCallRecord(s).value.value)
    ensures EncodeOnto(DecodeCallRecord(s).value.value, DecodeCallRecord(s).value.rest) == s
  {
    var head := ReadHead(s).value;
    var parties := ReadParties(head.rest).value;
    var trailer := ReadTrailer(head.value.0, parties.rest).value;
    var (version, timestamp, duration, number) := head.value;
    var (callType, presentation, serviceName, iccid, ownNumber) := parties.value;
    var (unknown3, oem, unknown4, unknown5, blockReason) := trailer.value;
    var c := CallRecord(version, timestamp, duration, number, callType, presentation,
      serviceName, iccid, ownNumber, unknown3, oem, unknown4, unknown5, blockReason);
    DecodeParts(s, c, head.rest, parties.rest, trailer.rest);
    PartsValid(s, c, head.rest, parties.rest, trailer.rest);
    TrailerOf(c, parties.rest, trailer.rest);
    PartiesOf(c, head.rest, trailer.rest);
    HeadOf(c, s, trailer.rest);
  }

  /** The three stretches read from some bytes make a record the layout can
      hold. */
  lemma PartsValid(s: Bytes, c: CallRecord, afterHead: Bytes, afterParties: Bytes, rest: Bytes)
    requires ReadHead(s) == Some(Read((c.version, c.timestamp, c.duration, c.number), afterHead))
    requires ReadParties(afterHead) == Some(Read((c.callType, c.presentation, c.serviceName, c.iccid, c.ownNumber), afterParties))
    requires ReadTrailer(c.version, afterParties) == Some(Read((c.unknown3, c.oem, c.unknown4, c.unknown5, c.blockReason), rest))
    ensures ValidRecord(c)
  {
    HeadValid(s);
    PartiesValid(afterHead);
    TrailerValid(c.version, afterParties);
  }

  lemma HeadValid(s: Bytes)
    requires ReadHead(s).Some?
    ensures var (version, timestamp, duration, number) := ReadHead(s).value.value;
      version < TwoTo32 && -TwoTo63 <= timestamp < TwoTo63 && duration < Pow256(8) && ValidFlagged(number)
  {
    Pow256Values();
  }

  lemma PartiesValid(s: Bytes)
    requires ReadParties(s).Some?
    ensures var (callType, presentation, serviceName, iccid, ownNumber) := ReadParties(s).value.value;
      callType < TwoTo32 && presentation < TwoTo32 && ValidFlagged(serviceName) && ValidFlagged(iccid) && ValidFlagged(ownNumber)
  {
    Pow256Values();
  }

  lemma TrailerValid(version: nat, s: Bytes)
    requires ReadTrailer(version, s).Some?
    ensures var (unknown3, oem, unknown4, unknown5, reason) := ReadTrailer(version, s).value.value;
      && |unknown3| == 12 && |oem| < 0x1_0000 && unknown4.0 < TwoTo32 && unknown4.1 < TwoTo32
      && (unknown5.Some? <==> version == BlockingVersion) && (reason.Some? <==> version == BlockingVersion)
      && (unknown5.Some? ==> |unknown5.value| == 10) && (reason.Some? ==> reason.value < TwoTo32)
  {
    TrailerEncoding(version, s);
  }

  lemma TrailerOf(c: CallRecord, s: Bytes, rest: Bytes)
    requires ValidRecord(c)
    requires ReadTrailer(c.version, s) == Some(Read((c.unknown3, c.oem, c.unknown4, c.unknown5, c.blockReason), rest))
    ensures TrailerOnto(c, rest) == s
  {
    TrailerEncoding(c.version, s);
  }

  lemma PartiesOf(c: CallRecord, s: Bytes, rest: Bytes)
    requires ValidRecord(c)
    requires ReadParties(s) == Some(Read((c.callType, c.presentation, c.serviceName, c.iccid, c.ownNumber), TrailerOnto(c, rest)))
    ensures PartiesOnto(c, rest) == s
  {
    PartiesEncoding(s);
  }

  lemma HeadOf(c: CallRecord, s: Bytes, rest: Bytes)
    requires ValidRecord(c)
    requires ReadHead(s) == Some(Read((c.version, c.timestamp, c.duration, c.number), PartiesOnto(c, rest)))
    ensures EncodeOnto(c, rest) == s
  {
    HeadEncoding(s);
  }

  /** A record is its three stretches, read one after the other. */
  lemma DecodeParts(s: Bytes, c: CallRecord, afterHead: Bytes, afterParties: Bytes, rest: Bytes)
    requires ReadHead(s) == Some(Read((c.version, c.timestamp, c.duration, c.number), afterHead))
    requires ReadParties(afterHead) == Some(Read((c.callType, c.presentation, c.serviceName, c.iccid, c.ownNumber), afterParties))
    requires ReadTrailer(c.version, afterParties) == Some(Read((c.unknown3, c.oem, c.unknown4, c.unknown5, c.blockReason), rest))
    ensures DecodeCallRecord(s) == Some(Read(c, rest))
  {
  }

  /** The layout has no slack and no optional part other than the version
      1007 fields: a record takes exactly its size, and the 10 bytes and the
      block reason are there exactly in version 1007. */
  lemma EncodingSize(c: CallRecord, rest: Bytes)
    requires ValidRecord(c)
    ensures |EncodeOnto(c, rest)| == RecordSize(c) + |rest|
    ensures RecordSize(c) == (if c.version == BlockingVersion then 14 else 0) + 54
      + (if c.number.text.Some? then 2 + |c.number.text.value| else 0)
      + (if c.serviceName.text.Some? then 2 + |c.serviceName.text.value| else 0)
      + (if c.iccid.text.Some? then 2 + |c.iccid.text.value| else 0)
      + (if c.ownNumber.text.Some? then 2 + |c.ownNumber.text.value| else 0)
      + |c.oem|
  {
  }
}
