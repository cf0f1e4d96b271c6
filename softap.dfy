/** The Wi-Fi hotspot configuration of the settings backup (`softap_config`):
    a version, the presence-flagged SSID, the band and channel, the
    presence-flagged pre-shared key, the allowed key management, and, from
    version 3 on, a one-byte hidden-SSID flag. All integers are big-endian;
    bytes after the last field are not looked at. */
module Softap {
  import opened Bytes

  const TwoTo32: nat := 0x1_0000_0000

  datatype SoftapConfig = SoftapConfig(
    version: nat,
    ssid: Flagged,
    apBand: nat,
    apChannel: nat,
    psk: Flagged,
    allowedKeyMgmt: nat,
    hiddenSsid: Option<nat>)

  /** What the layout can hold; the hidden-SSID flag is there exactly from
      version 3 on. */
  predicate ValidConfig(c: SoftapConfig) {
    && c.version < TwoTo32 && c.apBand < TwoTo32 && c.apChannel < TwoTo32
    && c.allowedKeyMgmt < TwoTo32
    && ValidFlagged(c.ssid) && ValidFlagged(c.psk)
    && (c.hiddenSsid.Some? <==> c.version >= 3)
    && (c.hiddenSsid.Some? ==> c.hiddenSsid.value < 256)
  }

  /** The bytes a configuration occupies. */
  function ConfigSize(c: SoftapConfig): nat {
    4 + FlaggedSize(c.ssid) + 4 + 4 + FlaggedSize(c.psk) + 4 + (if c.hiddenSsid.Some? then 1 else 0)
  }

  /** The optional trailing flag: read only from version 3 on. */
  function ReadHidden(version: nat, s: Bytes): (r: Option<Read<Option<nat>>>)
    ensures r.Some? ==> (r.value.value.Some? <==> version >= 3)
    ensures r.Some? && r.value.value.Some? ==> r.value.value.value < 256 && |s| == 1 + |r.value.rest|
    ensures r.Some? && r.value.value.None? ==> r.value.rest == s
  {
    Pow256Values();
    if version >= 3 then
      var h :- ReadUnsigned(s, 1);
      Some(Read(Some(h.value), h.rest))
    else Some(Read(None, s))
  }

  /** `SoftapConfig.parse`: `None` where the data ends before a field. */
  function DecodeConfig(s: Bytes): (r: Option<Read<SoftapConfig>>)
    ensures r.Some? ==> ValidConfig(r.value.value)
    ensures r.Some? ==> |s| == ConfigSize(r.value.value) + |r.value.rest|
  {
    Pow256Values();
    var version :- ReadUnsigned(s, 4);
    var ssid :- ReadFlagged(version.rest);
    var band :- ReadUnsigned(ssid.rest, 4);
    var channel :- ReadUnsigned(band.rest, 4);
    var psk :- ReadFlagged(channel.rest);
    var keyMgmt :- ReadUnsigned(psk.rest, 4);
    var hidden :- ReadHidden(version.value, keyMgmt.rest);
    EncodingOfReadFlagged(version.rest);
    EncodingOfReadFlagged(channel.rest);
    Some(Read(SoftapConfig(version.value, ssid.value, band.value, channel.value,
      psk.value, keyMgmt.value, hidden.value), hidden.rest))
  }

  function HiddenOnto(h: Option<nat>, rest: Bytes): Bytes
    requires h.Some? ==> h.value < 256
  {
    if h.Some? then [h.value] + rest else rest
  }

  /** The bytes of a configuration followed by `rest`. */
  function EncodeOnto(c: SoftapConfig, rest: Bytes): (r: Bytes)
    requires ValidConfig(c)
    ensures |r| == ConfigSize(c) + |rest|
  {
    BigEndianBytes(c.version, 4) + (FlaggedBytes(c.ssid) + (BigEndianBytes(c.apBand, 4)
      + (BigEndianBytes(c.apChannel, 4) + (FlaggedBytes(c.psk) + (BigEndianBytes(c.allowedKeyMgmt, 4)
      + HiddenOnto(c.hiddenSsid, rest))))))
  }

  lemma HiddenOfEncoding(version: nat, h: Option<nat>, rest: Bytes)
    requires (h.Some? <==> version >= 3) && (h.Some? ==> h.value < 256)
    ensures ReadHidden(version, HiddenOnto(h, rest)) == Some(Read(h, rest))
  {
    Pow256Values();
    if h.Some? {
      assert [h.value] == BigEndianBytes(h.value, 1);
      ReadUnsignedOfEncoding(h.value, 1, rest);
    }
  }

  lemma HiddenEncoding(version: nat, s: Bytes)
    requires ReadHidden(version, s).Some?
    ensures var r := ReadHidden(version, s).value;
      (r.value.Some? ==> r.value.value < 256) && HiddenOnto(r.value, r.rest) == s
  {
    Pow256Values();
    if version >= 3 {
      EncodingOfReadUnsigned(s, 1);
      var h := ReadUnsigned(s, 1).value;
      assert BigEndianBytes(h.value, 1) == [h.value];
    }
  }

  /** The fields after the SSID, read from their encoding. */
  lemma TailOfEncoding(c: SoftapConfig, rest: Bytes, s: Bytes)
    requires ValidConfig(c)
    requires s == BigEndianBytes(c.apBand, 4) + (BigEndianBytes(c.apChannel, 4) + (FlaggedBytes(c.psk)
      + (BigEndianBytes(c.allowedKeyMgmt, 4) + HiddenOnto(c.hiddenSsid, rest))))
    ensures var band := ReadUnsigned(s, 4);
      && band == Some(Read(c.apBand, BigEndianBytes(c.apChannel, 4) + (FlaggedBytes(c.psk)
        + (BigEndianBytes(c.allowedKeyMgmt, 4) + HiddenOnto(c.hiddenSsid, rest)))))
      && ReadUnsigned(band.value.rest, 4) == Some(Read(c.apChannel, FlaggedBytes(c.psk)
        + (BigEndianBytes(c.allowedKeyMgmt, 4) + HiddenOnto(c.hiddenSsid, rest))))
  {
    Pow256Values();
    var afterChannel := FlaggedBytes(c.psk) + (BigEndianBytes(c.allowedKeyMgmt, 4) + HiddenOnto(c.hiddenSsid, rest));
    ReadUnsignedOfEncoding(c.apBand, 4, BigEndianBytes(c.apChannel, 4) + afterChannel);
    ReadUnsignedOfEncoding(c.apChannel, 4, afterChannel);
  }

  lemma LastOfEncoding(c: SoftapConfig, rest: Bytes)
    requires ValidConfig(c)
    ensures var s := FlaggedBytes(c.psk) + (BigEndianBytes(c.allowedKeyMgmt, 4) + HiddenOnto(c.hiddenSsid, rest));
      && ReadFlagged(s) == Some(Read(c.psk, BigEndianBytes(c.allowedKeyMgmt, 4) + HiddenOnto(c.hiddenSsid, rest)))
      && ReadUnsigned(BigEndianBytes(c.allowedKeyMgmt, 4) + HiddenOnto(c.hiddenSsid, rest), 4)
         == Some(Read(c.allowedKeyMgmt, HiddenOnto(c.hiddenSsid, rest)))
      && ReadHidden(c.version, HiddenOnto(c.hiddenSsid, rest)) == Some(Read(c.hiddenSsid, rest))
  {
    Pow256Values();
    ReadFlaggedOfEncoding(c.psk, BigEndianBytes(c.allowedKeyMgmt, 4) + HiddenOnto(c.hiddenSsid, rest));
    ReadUnsignedOfEncoding(c.allowedKeyMgmt, 4, HiddenOnto(c.hiddenSsid, rest));
    HiddenOfEncoding(c.version, c.hiddenSsid, rest);
  }

  /** Round trip: a written configuration reads back, whatever follows it. */
  lemma DecodeOfEncode(c: SoftapConfig, rest: Bytes)
    requires ValidConfig(c)
    ensures DecodeConfig(EncodeOnto(c, rest)) == Some(Read(c, rest))
  {
    Pow256Values();
    var afterSsid := BigEndianBytes(c.apBand, 4) + (BigEndianBytes(c.apChannel, 4) + (FlaggedBytes(c.psk)
      + (BigEndianBytes(c.allowedKeyMgmt, 4) + HiddenOnto(c.hiddenSsid, rest))));
    var afterVersion := FlaggedBytes(c.ssid) + afterSsid;
    ReadUnsignedOfEncoding(c.version, 4, afterVersion);
    ReadFlaggedOfEncoding(c.ssid, afterSsid);
    TailOfEncoding(c, rest, afterSsid);
    LastOfEncoding(c, rest);
  }

  /** The other direction: the bytes a configuration was read from are its
      encoding followed by what was not read. */
  lemma EncodeOfDecode(s: Bytes)
    requires DecodeConfig(s).Some?
    ensures EncodeOnto(DecodeConfig(s).value.value, DecodeConfig(s).value.rest) == s
  {
    Pow256Values();
    var version := ReadUnsigned(s, 4).value;
    var ssid := ReadFlagged(version.rest).value;
    var band := ReadUnsigned(ssid.rest, 4).value;
    var channel := ReadUnsigned(band.rest, 4).value;
    var psk := ReadFlagged(channel.rest).value;
    var keyMgmt := ReadUnsigned(psk.rest, 4).value;
    EncodingOfReadUnsigned(s, 4);
    EncodingOfReadFlagged(version.rest);
    EncodingOfReadUnsigned(ssid.rest, 4);
    EncodingOfReadUnsigned(band.rest, 4);
    EncodingOfReadFlagged(channel.rest);
    EncodingOfReadUnsigned(psk.rest, 4);
    HiddenEncoding(version.value, keyMgmt.rest);
  }

  /** The dictionary `ReadSoftapConfig` appends: the channel is not among
      its fields, and the hidden-SSID field is there from version 3 on. */
  datatype SoftapRow = SoftapRow(
    version: nat,
    ssid: Cell,
    apBand: nat,
    preSharedKey: Cell,
    allowedKeyMgmt: nat,
    isHiddenSsid: Option<nat>)

  /** The row of a decoded configuration; `RowOfEncoding` states it over
      the configuration's bytes. */
  function RowOf(c: SoftapConfig): SoftapRow
    requires ValidConfig(c)
  {
    SoftapRow(c.version, FlaggedCell(c.ssid), c.apBand, FlaggedCell(c.psk), c.allowedKeyMgmt, c.hiddenSsid)
  }

  /** `ReadSoftapConfig`: the row of the configuration at the front of the
      data, or `None` where the parse raises, which the tool does not
      catch. */
  function ReadSoftapConfig(data: Bytes): (r: Option<SoftapRow>)
    ensures r.Some? <==> DecodeConfig(data).Some?
  {
    var c :- DecodeConfig(data);
    Some(RowOf(c.value))
  }

  /** The row of a written configuration, whatever bytes follow it. */
  lemma RowOfEncoding(c: SoftapConfig, extra: Bytes)
    requires ValidConfig(c)
    ensures var r := ReadSoftapConfig(EncodeOnto(c, extra));
      && r.Some?
      && r.value.version == c.version && r.value.apBand == c.apBand
      && r.value.allowedKeyMgmt == c.allowedKeyMgmt
      && r.value.ssid == FlaggedCell(c.ssid) && r.value.preSharedKey == FlaggedCell(c.psk)
      && (r.value.isHiddenSsid.Some? <==> c.version >= 3)
      && r.value.isHiddenSsid == c.hiddenSsid
  {
    DecodeOfEncode(c, extra);
  }

  /** The channel is read but not reported: configurations that differ only
      in it give the same row. */
  lemma ChannelNotReported(c: SoftapConfig, channel: nat)
    requires ValidConfig(c) && channel < TwoTo32
    ensures RowOf(c.(apChannel := channel)) == RowOf(c)
  {
  }

  /** Data too short for the smallest configuration makes the parse raise. */
  lemma ShortDataFails(data: Bytes)
    requires |data| < 18
    ensures ReadSoftapConfig(data) == None
  {
  }
}
