# Android backup "Data" stream parsers, modelled in Dafny

This project models two forensic tools for Android application backups:

- The **settings tool** (`providers_settings_parser.py`) reads
  `com.android.providers.settings.data`.
- The **call-log tool** (`callparser.py`) reads the call-log backup stream.

Both tools read the same container. It is a sequence of frames, and each frame has these parts:

- a 12-byte header: the ASCII magic `Data`, a little-endian u32 key size and a little-endian u32 data size;
- the key and the NUL that Android's backup writer puts after it, then padding to a 4-byte boundary;
- unless the data size is the sentinel `0xFFFFFFFF`, the data and padding to a 4-byte boundary again.

The two tools read the key differently (`Framer.KeyMode`):

- The settings tool reads `size_key + 1` bytes and strips trailing NULs (`NulTerminated`).
- The call-log tool reads exactly `size_key` bytes and then aligns (`Exact`). When the key fills a multiple of 4 bytes, the NUL after it is not crossed, so the alignment leaves the tool four bytes early (see "## Findings"). The call-log model follows this: `CallLog.CallLogRun` is the loop as written. Beside it, `CallLog.CallLogRunIntended` reads the key as intended: `size_key` bytes, then it steps over the NUL (`ExactSkipNul`).

Each tool hands every value to a decoder chosen by the key. The settings tool knows six kinds of value:

- 32-bit name/value lists: `system`, `secure`, `global`;
- 16-bit name/value lists: `lock_settings`;
- the hotspot configuration: `softap_config`;
- the Wi-Fi network XML: `wifi_new_config`;
- the locale text: `locale`;
- `network_policies`, which it skips.

The call-log tool decodes every value as one call record. It renders the record's codes as labels and its duration as `HH:MM:SS`.

The modules follow the programs' structure:

- `Bytes` (`bytes.dfy`): Python's short reads at end of file, 4-byte alignment, big- and little-endian integers, the signed 64-bit field, 16-bit length-prefixed strings, flag-gated strings, NUL padding removal.
- `Text` (`text.dfy`): decimal rendering, `str.split` on one character.
- `Framer` (`framer.dfy`): the header, the frame step, the framing loop as a method over a byte array with a running offset (`KeyMode` selects the key rule), the writer side, and the tool loop `Run` with its "frame first, then dispatch" form.
- `NameValues` (`name_value.dfy`): `NameValue` / `NameValue2` and the two `ReadNameValue*Pairs` loops (`Width` selects 32- or 16-bit lengths).
- `Softap` (`softap.dfy`): `SoftapConfig` and `ReadSoftapConfig`.
- `Wifi` (`wifi.dfy`): the field transforms and nested loops of `ReadWifiNewConfig`, over abstract elements.
- `Settings` (`settings.dfy`): the settings tool's dispatch on the key and its main loop.
- `CallRecords` (`call_record.dfy`): `CallRecord`.
- `CallLabels` (`call_labels.dfy`): `GetCallTypeString`, `GetPresentationString`, `GetBlockReasonString`, `GetDuration`.
- `CallLog` (`call_log.dfy`): `ParseCallLogData` and the call-log tool's main loop.

Every decoder is paired with a writer, and the decoder is proved to invert it in both directions. The framing loop is proved to return exactly the entries a writer framed. Each label table is proved to have an inverse that recovers every code. Every imperative loop is proved equal to the function that specifies it.

The file is an in-memory byte sequence (or an `array<byte>`). The XML parser is a parameter of the settings model: `Settings.XmlParser` maps a value's bytes to its `Network` elements, or to `None` where decoding or parsing raises. A decoder that raises is `None`. Because `main` catches only `OSError`, such a failure ends the loop with `Stop.BadRecord`, and the tool then writes nothing.

### Failure behaviour the model follows

- **Declared sizes past the end of the file.** Such a size is not an error. `f.read` returns fewer bytes without failing, and the alignment seek may move past the end. The next header read is then empty, so the loop ends cleanly. `Bytes.FileRead` and `Framer.NextFrame` model this.
- **Bad magic.** A wrong magic raises an uncaught construct error, so the entries decoded before it are lost and neither tool writes any output. This is `Stop.BadMagic`, and `Framer.Written` is false for it.
- **Malformed records and XML.** Neither a record that fails to parse nor XML that is not well formed is recovered per entry. The exception is not caught, so the whole run fails. This is `Stop.BadRecord`.
- **`IpConfiguration` names.** The test `if name:` skips a string with no name attribute and also one with an empty name.
- **Unnamed `WifiConfiguration` strings.** The code stores a `WifiConfiguration` string without a name under Python's `None`, so `Wifi.WifiMap` keys are optional.
- **Duration.** `GetDuration` formats through `time.gmtime`, so the hour wraps at 24.

## Model

| member | source | states |
|---|---|---|
| `Framer.DecodeHeader` | adb_backup_parser/providers_settings_parser.py:54-58 | a 12-byte header decodes exactly when its first four bytes are ASCII "Data"; both sizes are u32 |
| `Framer.HeaderRoundTrip` | adb_backup_parser/callparser.py:105-109 | a written header (magic, little-endian key size, little-endian data size) decodes to itself |
| `Framer.HeaderBytesRoundTrip` | adb_backup_parser/providers_settings_parser.py:54-58 | twelve bytes that decode are the encoding of the header they decode to |
| `Framer.ReadKeyFacts` | adb_backup_parser/providers_settings_parser.py:229-230 | the settings key is the `size_key + 1` bytes with trailing NULs removed, so it never ends in NUL; the call-log key is at most `size_key` bytes and unstripped; the offset after it is a multiple of 4, less than 4 past the key and the stepped-over NUL |
| `Framer.ReadValueFacts` | adb_backup_parser/providers_settings_parser.py:232-233 | the sentinel size reads no value and only moves the offset to the next multiple of 4; any other size reads exactly that many bytes (when present) and realigns to 4 |
| `Framer.NextFrameOutcomes` | adb_backup_parser/providers_settings_parser.py:223-228 | at a header position: clean end iff no byte is left, short header iff 1 to 11 bytes are left, bad magic iff the magic is wrong; a frame's next position is 4-aligned |
| `Framer.ReadKeyAt` | adb_backup_parser/callparser.py:221-222 | the array read of the key and the alignment seek give the key and position of `ReadKey` |
| `Framer.ReadValueAt` | adb_backup_parser/callparser.py:224-229 | the array read of the data and the alignment seek give the value and position of `ReadValue` |
| `Framer.ReadFrame` | adb_backup_parser/providers_settings_parser.py:225-244 | one pass of the loop over the array gives `NextFrame` |
| `Framer.ReadFrames` | adb_backup_parser/providers_settings_parser.py:222-246 | the framing loop over the array with a running offset returns exactly the entries and stop of `FramesFrom` |
| `Framer.FramingRoundTrip` | adb_backup_parser/callparser.py:214-231 | a file written from framable entries frames back to exactly those entries, in order, ending cleanly |
| `Framer.TruncatedTail` | adb_backup_parser/providers_settings_parser.py:225-227 | 1 to 11 stray bytes after written frames give all the frames and a short-header stop |
| `Framer.CorruptTail` | adb_backup_parser/providers_settings_parser.py:228 | a wrong magic after written frames gives those frames and a bad-magic stop |
| `Framer.ExactMisreadsAlignedKey` | adb_backup_parser/callparser.py:220-227 | for a written frame whose key fills a multiple of 4 bytes, reading exactly `size_key` bytes and aligning starts the data four bytes early: the value read is the first `size_data` bytes of four NULs followed by the data, and the next header is looked for four bytes before the frame's end |
| `Framer.SkipNulReadsEveryKey` | adb_backup_parser/callparser.py:220-227 | stepping over the NUL after the `size_key` bytes reads every written frame back whole, whatever its key length |
| `Framer.ExactMisreadsAlignedFile` | adb_backup_parser/callparser.py:215-230 | a file of that one frame gives one misread entry and then a short-header stop four bytes before the end |
| `Framer.KeyRulesCompared` | adb_backup_parser/callparser.py:221-222 | the key read as written and the corrected one read the same key bytes; the offset after them is the same unless the key read ends on a multiple of 4, and then the corrected offset is four bytes further |
| `Framer.KeyRulesAgree` | adb_backup_parser/callparser.py:215-229 | at any position, the frame step as written equals the corrected one unless a header is followed by a key whose read ends on a multiple of 4; there both give the same key, but the data as written is read from four bytes earlier |
| `Framer.RunIsCollect` | adb_backup_parser/providers_settings_parser.py:222-246 | the interleaved read-and-dispatch loop equals framing the whole file first and dispatching the entries in order |
| `Bytes.FileRead` | adb_backup_parser/callparser.py:225 | a read returns `min(n, bytes left)` bytes, none at or past the end |
| `Bytes.StripTrailingNuls` | adb_backup_parser/providers_settings_parser.py:28 | the result is a prefix of the input, does not end in NUL, and only NULs were removed |
| `Bytes.ReadFlaggedOfEncoding` | adb_backup_parser/callparser.py:88-97 | a flag byte of 1 followed by a length-prefixed string, or any other flag followed by nothing, reads back as written |
| `Bytes.EncodingOfReadFlagged` | adb_backup_parser/callparser.py:88-97 | the bytes a flagged string was read from are its encoding followed by the rest |
| `Bytes.FlaggedCell` | adb_backup_parser/callparser.py:131 | flag 0 is `''`, flag 1 its text, any other flag Python's `None` |
| `Bytes.ReadS64OfEncoding` | adb_backup_parser/callparser.py:86 | a signed 64-bit big-endian field reads back as written |
| `Bytes.ReadUnsignedOfEncoding` | adb_backup_parser/callparser.py:85 | an unsigned big-endian field of n bytes reads back as written |
| `NameValues.ReadValueField` | adb_backup_parser/providers_settings_parser.py:29-30 | the value is absent exactly when its length is the sentinel; otherwise it has exactly that length |
| `NameValues.DecodeNameValue` | adb_backup_parser/providers_settings_parser.py:26-31 | a decoded record fits its fields and takes no more bytes than given |
| `NameValues.DecodeOfEncode` | adb_backup_parser/providers_settings_parser.py:26-38 | in both widths a written record, whatever follows it, decodes to itself |
| `NameValues.EncodeOfDecode` | adb_backup_parser/providers_settings_parser.py:26-38 | the bytes a record was decoded from are its encoding followed by the rest |
| `NameValues.PairOfRecord` | adb_backup_parser/providers_settings_parser.py:26-31 | for the record at the front of the data, the appended pair's name is the NUL-stripped name field, whose length is the first big-endian length; its value is `''` when the big-endian value length is the sentinel, and otherwise the NUL-stripped value field of that length |
| `NameValues.Pairs` | adb_backup_parser/providers_settings_parser.py:60-63 | data of at most 4 bytes yields no pair in either width |
| `NameValues.PairsStep` | adb_backup_parser/providers_settings_parser.py:64-67 | while `pos < size - 4`, one iteration appends exactly one pair and moves `pos` by both declared lengths plus 8 (plus 4 in the 16-bit layout) |
| `NameValues.ReadPairs` | adb_backup_parser/providers_settings_parser.py:69-76 | the loop appends to `logs` exactly the pairs of `Pairs`, or raises where it does |
| `NameValues.PairsRoundTrip` | adb_backup_parser/providers_settings_parser.py:60-67 | records written one after another are read back as their pairs, in order |
| `NameValues.AbsentValueLast` | adb_backup_parser/providers_settings_parser.py:64-66 | a last record with the sentinel length is kept with value `''` |
| `NameValues.AbsentValueEndsWide` | adb_backup_parser/providers_settings_parser.py:66-67 | in the 32-bit layout the sentinel added to `pos` ends the loop after that record |
| `NameValues.AbsentValueSkipsNarrow` | adb_backup_parser/providers_settings_parser.py:75-76 | in the 16-bit layout the sentinel added to `pos` skips 65535 further bytes |
| `NameValues.ShortLastRecordDropped` | adb_backup_parser/providers_settings_parser.py:73 | a final 4-byte empty 16-bit record is left unread by `pos < size - 4` |
| `Softap.ReadHidden` | adb_backup_parser/providers_settings_parser.py:49 | the hidden-SSID byte is read exactly when the version is at least 3 |
| `Softap.DecodeConfig` | adb_backup_parser/providers_settings_parser.py:40-50 | a decoded configuration has the hidden flag iff version >= 3 and takes exactly its size |
| `Softap.DecodeOfEncode` | adb_backup_parser/providers_settings_parser.py:40-50 | a written configuration, whatever follows it, decodes to itself |
| `Softap.EncodeOfDecode` | adb_backup_parser/providers_settings_parser.py:40-50 | the bytes a configuration was read from are its encoding followed by the rest |
| `Softap.ReadSoftapConfig` | adb_backup_parser/providers_settings_parser.py:78-79 | a row is produced exactly when the configuration parses |
| `Softap.RowOfEncoding` | adb_backup_parser/providers_settings_parser.py:80-89 | the row of a written configuration has its version, band and key management, SSID and PSK as `''`/text/`None` by flag, and `is_hidden_ssid` exactly from version 3 |
| `Softap.ChannelNotReported` | adb_backup_parser/providers_settings_parser.py:80-86 | configurations differing only in the channel give the same row |
| `Softap.ShortDataFails` | adb_backup_parser/providers_settings_parser.py:40-50 | data shorter than the 18-byte minimum makes the parse raise |
| `Wifi.DropFirst` | adb_backup_parser/providers_settings_parser.py:106 | `text[1:]` is the text without its first character, `''` for `''` |
| `Wifi.StripQuotes` | adb_backup_parser/providers_settings_parser.py:116 | `text[1:-1]` has two characters fewer and holds the inner characters |
| `Wifi.QuotesStripped` | adb_backup_parser/providers_settings_parser.py:115-117 | a value between two delimiters comes out unchanged |
| `Wifi.ConfigKeyParts` | adb_backup_parser/providers_settings_parser.py:106-107 | the split has exactly two parts iff the text after its first character holds exactly one `"`; neither part holds a quote |
| `Wifi.ConfigKeyPartsRebuild` | adb_backup_parser/providers_settings_parser.py:106-114 | first character + SSID part + `"` + security part is the original text |
| `Wifi.StringStep` | adb_backup_parser/providers_settings_parser.py:103-119 | a `<string>` raises exactly when it has no text and is a ConfigKey, SSID or PreSharedKey |
| `Wifi.ConfigKeyStored` | adb_backup_parser/providers_settings_parser.py:105-114 | a ConfigKey with one quote after its first character is stored as `config_key_ssid`/`config_key_security`, which rebuild the text; any other ConfigKey is stored whole as `config_key`; neither raises |
| `Wifi.QuotedFieldStored` | adb_backup_parser/providers_settings_parser.py:115-117 | a quoted SSID or PreSharedKey is stored without its quotes |
| `Wifi.PlainStringStored` | adb_backup_parser/providers_settings_parser.py:118-119 | any other string is stored verbatim under its name, also with no name or no text |
| `Wifi.BooleanDefaults` | adb_backup_parser/providers_settings_parser.py:120-123 | a boolean without attributes is stored as `NONAME: ''` |
| `Wifi.BooleansKeep` | adb_backup_parser/providers_settings_parser.py:120-123 | booleans leave any key they do not name as it was |
| `Wifi.LastBooleanWins` | adb_backup_parser/providers_settings_parser.py:120-123 | a name holds the value of the last boolean carrying it |
| `Wifi.IpKeysNamed` | adb_backup_parser/providers_settings_parser.py:124-128 | an `IpConfiguration` only adds keys that are non-empty names and never removes a key |
| `Wifi.UnnamedIpSkipped` | adb_backup_parser/providers_settings_parser.py:126-128 | an `IpConfiguration` string with no or an empty name changes nothing |
| `Wifi.OtherConfigIgnored` | adb_backup_parser/providers_settings_parser.py:101-128 | configuration elements with any other tag change nothing |
| `Wifi.Networks` | adb_backup_parser/providers_settings_parser.py:99-129 | the networks yield a list exactly when no network raises; it holds one dictionary per network element, in order, each built from an empty dictionary by that network's configurations |
| `Wifi.ApplyStrings` | adb_backup_parser/providers_settings_parser.py:103-119 | the loop over a configuration's strings equals `Strings` |
| `Wifi.ApplyBooleans` | adb_backup_parser/providers_settings_parser.py:120-123 | the loop over a configuration's booleans equals `Booleans` |
| `Wifi.ApplyIpStrings` | adb_backup_parser/providers_settings_parser.py:125-128 | the loop over an `IpConfiguration`'s strings equals `IpStrings` |
| `Wifi.ReadNetwork` | adb_backup_parser/providers_settings_parser.py:100-128 | the loop over a network's configurations equals `Configs` from an empty dictionary |
| `Wifi.ReadWifiNetworks` | adb_backup_parser/providers_settings_parser.py:99-129 | the outer loop appends exactly the dictionaries of `Networks` to `logs`, or raises where it does |
| `Settings.KindsOfKeys` | adb_backup_parser/providers_settings_parser.py:235-242 | each of the eight keys reaches its own arm of the comparison chain |
| `Settings.ReadWifiNewConfig` | adb_backup_parser/providers_settings_parser.py:98-129 | the tool raises exactly when the XML does not parse or a network raises; otherwise `logs` keeps its entries and gains one dictionary per network, in order, each built from an empty dictionary by that network's configurations |
| `Settings.DispatchEntry` | adb_backup_parser/providers_settings_parser.py:232-242 | the dispatch of one frame, by the kind its key names, equals `SettingsStep` |
| `Settings.ParseSettingsFile` | adb_backup_parser/providers_settings_parser.py:222-246 | the main loop over the array returns what `SettingsRun` defines |
| `Settings.SystemFrame` | adb_backup_parser/providers_settings_parser.py:235 | a `system` frame appends its records' pairs to the system settings only |
| `Settings.SecureFrame` | adb_backup_parser/providers_settings_parser.py:236 | a `secure` frame appends to the secure settings only |
| `Settings.GlobalFrame` | adb_backup_parser/providers_settings_parser.py:237 | a `global` frame appends to the global settings only |
| `Settings.LocaleFrame` | adb_backup_parser/providers_settings_parser.py:238 | a `locale` frame replaces the locale, so the last one wins |
| `Settings.LockFrame` | adb_backup_parser/providers_settings_parser.py:239 | a `lock_settings` frame is read with 16-bit lengths and appends to the lock settings only |
| `Settings.SoftapFrame` | adb_backup_parser/providers_settings_parser.py:240 | a `softap_config` frame appends the row of its configuration |
| `Settings.WifiFrame` | adb_backup_parser/providers_settings_parser.py:242 | a `wifi_new_config` frame appends one dictionary per network |
| `Settings.IgnoredFrame` | adb_backup_parser/providers_settings_parser.py:241 | frames without data, `network_policies` frames and unknown keys change nothing |
| `Settings.SettingsOfFrames` | adb_backup_parser/providers_settings_parser.py:222-246 | a written file is dispatched frame by frame in order and ends cleanly unless a decoder raises |
| `Settings.TruncatedSettings` | adb_backup_parser/providers_settings_parser.py:225-227 | a file cut short in a header keeps everything collected before it |
| `Settings.IgnoredFile` | adb_backup_parser/providers_settings_parser.py:232-242 | a file of ignored frames yields nothing and ends cleanly |
| `Settings.SoftapFile` | adb_backup_parser/providers_settings_parser.py:222-246 | a file holding one hotspot configuration yields exactly its row |
| `CallRecords.ReadBlocking` | adb_backup_parser/callparser.py:101-102 | the 10 bytes and the block reason are read exactly for version 1007 |
| `CallRecords.DecodeCallRecord` | adb_backup_parser/callparser.py:84-103 | a decoded record has `unknown5` and `block_reason` exactly when its version is 1007 |
| `CallRecords.DecodeOfEncode` | adb_backup_parser/callparser.py:84-103 | a written record, whatever follows it, decodes to itself |
| `CallRecords.EncodeOfDecode` | adb_backup_parser/callparser.py:84-103 | a decoded record fits the layout, and the bytes it was read from are its encoding followed by the rest |
| `CallRecords.EncodingSize` | adb_backup_parser/callparser.py:84-103 | a record takes 54 fixed bytes, plus 2 + length per present string, plus its `oem` bytes, plus 14 exactly for version 1007 |
| `CallLabels.UnknownLabel` | adb_backup_parser/callparser.py:51 | `"UNKNOWN (" + decimal + ")"` |
| `CallLabels.UnknownCodeOfLabel` | adb_backup_parser/callparser.py:51 | the code is recovered from its "UNKNOWN (n)" text |
| `CallLabels.CallTypeRoundTrip` | adb_backup_parser/callparser.py:38-52 | every call type, known or not, is recovered from its label |
| `CallLabels.CallTypeInjective` | adb_backup_parser/callparser.py:38-52 | distinct call types have distinct labels |
| `CallLabels.PresentationRoundTrip` | adb_backup_parser/callparser.py:71-82 | every presentation code is recovered from its label, "Unknown" (3) included |
| `CallLabels.PresentationInjective` | adb_backup_parser/callparser.py:71-82 | distinct presentation codes have distinct labels |
| `CallLabels.BlockReasonRoundTrip` | adb_backup_parser/callparser.py:54-69 | every block reason is recovered from its label |
| `CallLabels.BlockReasonEmpty` | adb_backup_parser/callparser.py:59 | the label is `''` exactly for reason 0 |
| `CallLabels.Duration` | adb_backup_parser/callparser.py:111-113 | eight characters: two digits, `:`, two digits, `:`, two digits |
| `CallLabels.DurationMeaning` | adb_backup_parser/callparser.py:111-113 | hours < 24, minutes < 60, seconds < 60, and together they are the duration modulo one day |
| `CallLabels.DurationWraps` | adb_backup_parser/callparser.py:113 | durations a day apart look the same |
| `CallLog.ParseCallLogData` | adb_backup_parser/callparser.py:124 | a row is produced exactly when the record parses |
| `CallLog.RowOfEncoding` | adb_backup_parser/callparser.py:126-137 | the row of a written record has the frame key as serial number, its version and timestamp, number/iccid/own number as `''`/text/`None` by flag, labels that give back the codes, the duration modulo a day, and `''` as block reason unless version 1007 |
| `CallLog.StepOfCall` | adb_backup_parser/callparser.py:227 | the frame of a written call appends exactly its row |
| `CallLog.CallLogOutcome` | adb_backup_parser/callparser.py:233-239 | for the loop as written, rows are written only when it did not raise and found at least one; "nothing found" is reported exactly when it ended without raising and found no row |
| `CallLog.ParseCallLogFile` | adb_backup_parser/callparser.py:214-231 | the main loop over the array, reading exactly `size_key` bytes of key, returns what `CallLogRun` defines |
| `CallLog.CollectCalls` | adb_backup_parser/callparser.py:224-227 | dispatching written calls' frames gives their rows in order |
| `CallLog.CallLogOfCalls` | adb_backup_parser/callparser.py:214-231 | as written, a file written from calls whose keys do not fill a multiple of 4 bytes gives one row per call, in order, and ends cleanly |
| `CallLog.CallLogOfCallsIntended` | adb_backup_parser/callparser.py:214-231 | with the key read as intended, every file written from calls gives one row per call, in order, and ends cleanly |
| `CallLog.AlignedKeyCallMisread` | adb_backup_parser/callparser.py:214-239 | as written, a file of one call whose key fills a multiple of 4 bytes has its record parsed from four NULs and its bytes less the last four; the tool then crashes or writes that row, and the loop never ends cleanly; read as intended, the same file gives the call's own row |
| `CallLog.TruncatedCallLog` | adb_backup_parser/callparser.py:217-219 | as written, a file of calls whose keys do not fill a multiple of 4 bytes, cut short in a header, still yields every row before it |
| `CallLog.TruncatedCallLogIntended` | adb_backup_parser/callparser.py:217-219 | with the key read as intended, the same holds whatever the keys |

## Findings

| source | as written | input that shows it | evidently intended | confidence | as-written member | corrected member |
|---|---|---|---|---|---|---|
| adb_backup_parser/callparser.py:221-222 | reads exactly `size_key` bytes of key and aligns only when the offset is not a multiple of 4, so the NUL the writer puts after the key is not crossed when the key fills a multiple of 4 bytes | the frame `"Data" 04000000 04000000 "1234" 00 000000 01020304`: the data is read as `00000000` instead of `01020304`, and the next header is looked for at offset 20 instead of 24 | step over the NUL after the key, as the settings tool's `size_key + 1` read does | not executed | `Framer.ExactMisreadsAlignedKey`, and for a whole file `CallLog.AlignedKeyCallMisread` | `Framer.SkipNulReadsEveryKey`, and for a whole file `CallLog.CallLogOfCallsIntended` |

## Left out

- File opening, reading and seeking, `os.makedirs`, argument handling and every `print`: I/O plumbing. The file is an in-memory byte sequence, and its end-of-file and seek behaviour is modelled by `Bytes.FileRead`. This covers the "Problem parsing configKey" and "Locale is" messages.
- `WriteCsv`, `WriteJson`, `OpenFileForWriting` and `WriteOutput` (output serialisation through the csv and json libraries) are left out. The call-log tool creates `call_logs.csv` and `call_logs.json` before parsing, so they remain, empty, after a crash; this is not modelled either. `CallLog.CallLogOutcome` models only the choice of writing the rows.
- `ReadUnixMsTime`: floating-point division and `datetime` arithmetic. The row keeps the raw signed millisecond timestamp.
- `ET.fromstring` and `findall('./NetworkList/Network')`: a foreign XML parser. It is the `Settings.XmlParser` parameter, and `Wifi` models the walk over the elements it returns. `findall('string')` and `findall('boolean')` are modelled as filters on the child tag.
- UTF-8 decoding of keys, record strings and the locale: strings are kept as bytes. A value that is not valid UTF-8 would raise in the source; the model does not.
- `Wifi.Networks`: a dictionary is a `map`, so the insertion order that Python keeps (and the JSON output shows) is not modelled.
- CallLog.CallLogOfCalls: stated only for keys whose length is not a multiple of 4, because the tool as written misreads the others (`CallLog.AlignedKeyCallMisread`). `CallLog.CallLogOfCallsIntended` covers every key for the corrected read.
- CallLog.TruncatedCallLog: restricted to the same keys for the same reason. `CallLog.TruncatedCallLogIntended` covers every key.
- CallLog.AlignedKeyCallMisread: covers a file of one call. With more calls, what follows the misread frame depends on the record's last bytes, which the tool then takes as the next header's magic.
- `CallLabels.Duration`: `time.gmtime` raises for durations beyond the platform's `time_t` range. The model formats every duration.
- The construct library is not modelled. Its semantics are written out field by field: trailing NUL removal for `String`, no removal for `PascalString`, `If` reading nothing when false, and trailing bytes ignored by `parse`.
- `network_policies` is modelled as the skip it is. `locale` is kept as the raw bytes of the last `locale` frame.
- Fields the call-log tool parses but does not output (`servicename`, `unknown3`, `oem`, `unknown4`, `unknown5`) are decoded but not put in `CallLog.CallRow`.
