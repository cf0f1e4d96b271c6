/** The settings tool: every framed value of `com.android.providers.settings.data`
    is handed, by its key, to the decoder of its kind, and the decoded items
    are collected per kind. Keys are read with trailing NULs removed. */
module Settings {
  import opened Bytes
  import opened Framer
  import NameValues
  import Softap
  import Wifi

  /** What the main loop collects: the three 32-bit name/value lists, the
      last locale, the 16-bit lock settings, the hotspot rows and one
      dictionary per Wi-Fi network. */
  datatype Settings = Settings(
    system: seq<NameValues.Pair>,
    secure: seq<NameValues.Pair>,
    global: seq<NameValues.Pair>,
    locale: Bytes,
    lock: seq<NameValues.Pair>,
    softap: seq<Softap.SoftapRow>,
    wifi: seq<Wifi.WifiMap>)

  const Empty: Settings := Settings([], [], [], [], [], [], [])

  /** The UTF-8 decode, the XML parse and `findall('./NetworkList/Network')`
      of a `wifi_new_config` value: the networks, or `None` where one of
      them raises. They are outside the model. */
  type XmlParser = Bytes -> Option<seq<Wifi.Network>>

  /** The keys the loop dispatches on, as the bytes of their ASCII
      names. */
  const SystemKey: Bytes := [0x73, 0x79, 0x73, 0x74, 0x65, 0x6d] // "system"
  const SecureKey: Bytes := [0x73, 0x65, 0x63, 0x75, 0x72, 0x65] // "secure"
  const GlobalKey: Bytes := [0x67, 0x6c, 0x6f, 0x62, 0x61, 0x6c] // "global"
  const LocaleKey: Bytes := [0x6c, 0x6f, 0x63, 0x61, 0x6c, 0x65] // "locale"
  const LockKey: Bytes := [0x6c, 0x6f, 0x63, 0x6b, 0x5f, 0x73, 0x65, 0x74, 0x74, 0x69, 0x6e, 0x67, 0x73] // "lock_settings"
  const SoftapKey: Bytes := [0x73, 0x6f, 0x66, 0x74, 0x61, 0x70, 0x5f, 0x63, 0x6f, 0x6e, 0x66, 0x69, 0x67] // "softap_config"
  const NetworkPoliciesKey: Bytes :=
    [0x6e, 0x65, 0x74, 0x77, 0x6f, 0x72, 0x6b, 0x5f, 0x70, 0x6f, 0x6c, 0x69, 0x63, 0x69, 0x65, 0x73] // "network_policies"
  const WifiKey: Bytes := [0x77, 0x69, 0x66, 0x69, 0x5f, 0x6e, 0x65, 0x77, 0x5f, 0x63, 0x6f, 0x6e, 0x66, 0x69, 0x67] // "wifi_new_config"

  /** Which arm of the dispatch a key takes. */
  datatype Kind = SystemKind | SecureKind | GlobalKind | LocaleKind | LockKind | SoftapKind
                | NetworkPoliciesKind | WifiKind | OtherKind

  /** The chain of key comparisons, first match first. */
  function KindOf(key: Bytes): Kind {
    if key == SystemKey then SystemKind
    else if key == SecureKey then SecureKind
    else if key == GlobalKey then GlobalKind
    else if key == LocaleKey then LocaleKind
    else if key == LockKey then LockKind
    else if key == SoftapKey then SoftapKind
    else if key == NetworkPoliciesKey then NetworkPoliciesKind
    else if key == WifiKey then WifiKind
    else OtherKind
  }

  /** Every named key reaches its own arm. */
  lemma KindsOfKeys()
    ensures KindOf(SystemKey) == SystemKind && KindOf(SecureKey) == SecureKind
    ensures KindOf(GlobalKey) == GlobalKind && KindOf(LocaleKey) == LocaleKind
    ensures KindOf(LockKey) == LockKind && KindOf(SoftapKey) == SoftapKind
    ensures KindOf(NetworkPoliciesKey) == NetworkPoliciesKind && KindOf(WifiKey) == WifiKind
  {
    assert SecureKey[1] != SystemKey[1];
    assert GlobalKey[0] != SystemKey[0] && GlobalKey[0] != SecureKey[0];
    assert LocaleKey[0] != SystemKey[0] && LocaleKey[0] != SecureKey[0] && LocaleKey[0] != GlobalKey[0];
    assert SoftapKey[0] != LockKey[0];
  }

  /** `ReadWifiNewConfig` on a value: `logs` is kept as its prefix and one
      dictionary per network element follows, in order, each built from an
      empty dictionary. It fails exactly when the XML does not parse or a
      network raises. */
  function ReadWifiNewConfig(xml: XmlParser, data: Bytes, logs: seq<Wifi.WifiMap>): (r: Option<seq<Wifi.WifiMap>>)
    ensures r.Some? <==>
      (xml(data).Some? && forall i :: 0 <= i < |xml(data).value| ==> Wifi.Configs(map[], xml(data).value[i]).Some?)
    ensures r.Some? ==> |r.value| == |logs| + |xml(data).value| && r.value[..|logs|] == logs
    ensures r.Some? ==> forall i :: 0 <= i < |xml(data).value| ==>
      r.value[|logs| + i] == Wifi.Configs(map[], xml(data).value[i]).value
  {
    var nets :- xml(data);
    var maps :- Wifi.Networks(nets);
    Some(logs + maps)
  }

  /** The arm a frame with data takes; `None` where its decoder raises,
      which `main` does not catch. */
  function Dispatch(xml: XmlParser, s: Settings, kind: Kind, data: Bytes): Option<Settings> {
    match kind
    case SystemKind =>
      var ps :- NameValues.Extend(s.system, NameValues.Pairs(NameValues.Wide, data));
      Some(s.(system := ps))
    case SecureKind =>
      var ps :- NameValues.Extend(s.secure, NameValues.Pairs(NameValues.Wide, data));
      Some(s.(secure := ps))
    case GlobalKind =>
      var ps :- NameValues.Extend(s.global, NameValues.Pairs(NameValues.Wide, data));
      Some(s.(global := ps))
    case LocaleKind => Some(s.(locale := data))
    case LockKind =>
      var ps :- NameValues.Extend(s.lock, NameValues.Pairs(NameValues.Narrow, data));
      Some(s.(lock := ps))
    case SoftapKind =>
      var row :- Softap.ReadSoftapConfig(data);
      Some(s.(softap := s.softap + [row]))
    case NetworkPoliciesKind => Some(s)
    case WifiKind =>
      var maps :- ReadWifiNewConfig(xml, data, s.wifi);
      Some(s.(wifi := maps))
    case OtherKind => Some(s)
  }

  /** What the loop does with one frame: one without data is not
      dispatched. */
  function SettingsStep(xml: XmlParser, s: Settings, e: Entry): Option<Settings> {
    match e.value
    case None => Some(s)
    case Some(data) => Dispatch(xml, s, KindOf(e.key), data)
  }

  function StepOf(xml: XmlParser): (Settings, Entry) -> Option<Settings> {
    (s, e) => SettingsStep(xml, s, e)
  }

  /** What the tool collects from a file, and how its loop stopped. */
  function SettingsRun(xml: XmlParser, f: Bytes): (Settings, Stop) {
    Run(f, 0, NulTerminated, StepOf(xml), Empty)
  }

  // ---------------------------------------------------------------------
  // The loop as the tool runs it
  // ---------------------------------------------------------------------

  /** The dispatch of one frame. */
  method DispatchEntry(xml: XmlParser, s: Settings, e: Entry) returns (r: Option<Settings>)
    ensures r == SettingsStep(xml, s, e)
  {
    if e.value.None? {
      return Some(s);
    }
    var data := e.value.value;
    match KindOf(e.key)
    case SystemKind =>
      var ps := NameValues.ReadPairs(NameValues.Wide, data, s.system);
      r := if ps.None? then None else Some(s.(system := ps.value));
    case SecureKind =>
      var ps := NameValues.ReadPairs(NameValues.Wide, data, s.secure);
      r := if ps.None? then None else Some(s.(secure := ps.value));
    case GlobalKind =>
      var ps := NameValues.ReadPairs(NameValues.Wide, data, s.global);
      r := if ps.None? then None else Some(s.(global := ps.value));
    case LocaleKind =>
      r := Some(s.(locale := data));
    case LockKind =>
      var ps := NameValues.ReadPairs(NameValues.Narrow, data, s.lock);
      r := if ps.None? then None else Some(s.(lock := ps.value));
    case SoftapKind =>
      var row := Softap.ReadSoftapConfig(data);
      r := if row.None? then None else Some(s.(softap := s.softap + [row.value]));
    case NetworkPoliciesKind =>
      r := Some(s);
    case WifiKind =>
      var nets := xml(data);
      if nets.None? {
        return None;
      }
      var maps := Wifi.ReadWifiNetworks(nets.value, s.wifi);
      r := if maps.None? then None else Some(s.(wifi := maps.value));
    case OtherKind =>
      r := Some(s);
  }

  /** The main loop over an in-memory copy of the file: frame it, then
      dispatch the frames in order. */
  method ParseSettingsFile(file: array<byte>, xml: XmlParser) returns (s: Settings, stop: Stop)
    ensures (s, stop) == SettingsRun(xml, file[..])
  {
    var entries, framed := ReadFrames(file, NulTerminated);
    RunIsCollect(file[..], 0, NulTerminated, StepOf(xml), Empty);
    s := Empty;
    var i := 0;
    assert entries[0..] == entries;
    while i < |entries|
      invariant 0 <= i <= |entries|
      invariant Collect(entries, framed, StepOf(xml), Empty) == Collect(entries[i..], framed, StepOf(xml), s)
      decreases |entries| - i
    {
      assert entries[i..][1..] == entries[i + 1..];
      var next := DispatchEntry(xml, s, entries[i]);
      if next.None? {
        return s, BadRecord;
      }
      s := next.value;
      i := i + 1;
    }
    stop := framed;
  }

  // ---------------------------------------------------------------------
  // One frame
  // ---------------------------------------------------------------------

  /** A `system` frame holding name/value records appends their pairs to
      the system settings and changes nothing else. */
  lemma SystemFrame(xml: XmlParser, s: Settings, nvs: seq<NameValues.NameValue>)
    requires NameValues.AllSteppable(NameValues.Wide, nvs)
    ensures SettingsStep(xml, s, Entry(SystemKey, Some(NameValues.EncodeAllOnto(NameValues.Wide, nvs, []))))
      == Some(s.(system := s.system + NameValues.PairsOfAll(nvs)))
  {
    NameValues.PairsRoundTrip(NameValues.Wide, nvs);
  }

  /** A `secure` frame appends to the secure settings only. */
  lemma SecureFrame(xml: XmlParser, s: Settings, nvs: seq<NameValues.NameValue>)
    requires NameValues.AllSteppable(NameValues.Wide, nvs)
    ensures SettingsStep(xml, s, Entry(SecureKey, Some(NameValues.EncodeAllOnto(NameValues.Wide, nvs, []))))
      == Some(s.(secure := s.secure + NameValues.PairsOfAll(nvs)))
  {
    KindsOfKeys();
    NameValues.PairsRoundTrip(NameValues.Wide, nvs);
  }

  /** A `global` frame appends to the global settings only. */
  lemma GlobalFrame(xml: XmlParser, s: Settings, nvs: seq<NameValues.NameValue>)
    requires NameValues.AllSteppable(NameValues.Wide, nvs)
    ensures SettingsStep(xml, s, Entry(GlobalKey, Some(NameValues.EncodeAllOnto(NameValues.Wide, nvs, []))))
      == Some(s.(global := s.global + NameValues.PairsOfAll(nvs)))
  {
    KindsOfKeys();
    NameValues.PairsRoundTrip(NameValues.Wide, nvs);
  }

  /** A `lock_settings` frame is read with 16-bit lengths and appends to
      the lock settings only. */
  lemma LockFrame(xml: XmlParser, s: Settings, nvs: seq<NameValues.NameValue>)
    requires NameValues.AllSteppable(NameValues.Narrow, nvs)
    ensures SettingsStep(xml, s, Entry(LockKey, Some(NameValues.EncodeAllOnto(NameValues.Narrow, nvs, []))))
      == Some(s.(lock := s.lock + NameValues.PairsOfAll(nvs)))
  {
    KindsOfKeys();
    NameValues.PairsRoundTrip(NameValues.Narrow, nvs);
  }

  /** A `locale` frame replaces the locale: the last one wins. */
  lemma LocaleFrame(xml: XmlParser, s: Settings, data: Bytes)
    ensures SettingsStep(xml, s, Entry(LocaleKey, Some(data))) == Some(s.(locale := data))
  {
    KindsOfKeys();
  }

  /** A `softap_config` frame appends the row of its configuration. */
  lemma SoftapFrame(xml: XmlParser, s: Settings, c: Softap.SoftapConfig, extra: Bytes)
    requires Softap.ValidConfig(c)
    ensures SettingsStep(xml, s, Entry(SoftapKey, Some(Softap.EncodeOnto(c, extra))))
      == Some(s.(softap := s.softap + [Softap.RowOf(c)]))
  {
    KindsOfKeys();
    Softap.DecodeOfEncode(c, extra);
  }

  /** A `wifi_new_config` frame appends one dictionary per network. */
  lemma WifiFrame(xml: XmlParser, s: Settings, data: Bytes, nets: seq<Wifi.Network>)
    requires xml(data) == Some(nets) && Wifi.Networks(nets).Some?
    ensures SettingsStep(xml, s, Entry(WifiKey, Some(data))) == Some(s.(wifi := s.wifi + Wifi.Networks(nets).value))
  {
    KindsOfKeys();
  }

  /** Frames without data, `network_policies` frames and frames under keys
      the tool does not know change nothing. */
  lemma IgnoredFrame(xml: XmlParser, e: Entry)
    requires e.value.None? || KindOf(e.key) == NetworkPoliciesKind || KindOf(e.key) == OtherKind
    ensures Keeps(StepOf(xml), e)
  {
    KindsOfKeys();
    forall s: Settings
      ensures StepOf(xml)(s, e) == Some(s)
    {
    }
  }

  // ---------------------------------------------------------------------
  // The whole file
  // ---------------------------------------------------------------------

  /** A written file is dispatched frame by frame, in order, and the loop
      ends cleanly unless a decoder raises. */
  lemma SettingsOfFrames(xml: XmlParser, es: seq<Entry>)
    requires ValidEntries(NulTerminated, es)
    ensures SettingsRun(xml, EncodeEntries(NulTerminated, es)) == Collect(es, Clean, StepOf(xml), Empty)
  {
    FramingRoundTrip(NulTerminated, es);
    RunIsCollect(EncodeEntries(NulTerminated, es), 0, NulTerminated, StepOf(xml), Empty);
  }

  /** A file cut short in a header still reports what it collected. */
  lemma TruncatedSettings(xml: XmlParser, es: seq<Entry>, tail: Bytes)
    requires ValidEntries(NulTerminated, es) && 0 < |tail| < HeaderSize
    ensures SettingsRun(xml, EncodeEntries(NulTerminated, es) + tail) == Collect(es, ShortHeader, StepOf(xml), Empty)
  {
    TruncatedTail(NulTerminated, es, tail);
    RunIsCollect(EncodeEntries(NulTerminated, es) + tail, 0, NulTerminated, StepOf(xml), Empty);
  }

  /** A file of frames the tool ignores yields nothing and ends cleanly. */
  lemma IgnoredFile(xml: XmlParser, es: seq<Entry>)
    requires ValidEntries(NulTerminated, es)
    requires forall i :: 0 <= i < |es| ==> es[i].value.None? || KindOf(es[i].key) == OtherKind
    ensures SettingsRun(xml, EncodeEntries(NulTerminated, es)) == (Empty, Clean)
  {
    SettingsOfFrames(xml, es);
    forall i | 0 <= i < |es|
      ensures Keeps(StepOf(xml), es[i])
    {
      IgnoredFrame(xml, es[i]);
    }
    CollectKeeps(es, Clean, StepOf(xml), Empty);
  }

  /** The frame a writer produces for a hotspot configuration. */
  function SoftapEntry(c: Softap.SoftapConfig): (e: Entry)
    requires Softap.ValidConfig(c)
    ensures ValidEntries(NulTerminated, [e])
  {
    var e := Entry(SoftapKey, Some(Softap.EncodeOnto(c, [])));
    assert [e][1..] == [];
    e
  }

  /** A file holding one hotspot configuration yields its row and nothing
      else. */
  lemma SoftapFile(xml: XmlParser, c: Softap.SoftapConfig)
    requires Softap.ValidConfig(c)
    ensures SettingsRun(xml, EncodeEntries(NulTerminated, [SoftapEntry(c)])) == (Empty.(softap := [Softap.RowOf(c)]), Clean)
  {
    var e := SoftapEntry(c);
    SettingsOfFrames(xml, [e]);
    SoftapFrame(xml, Empty, c, []);
    assert Empty.softap + [Softap.RowOf(c)] == [Softap.RowOf(c)];
    CollectOne(e, Clean, StepOf(xml), Empty, Empty.(softap := [Softap.RowOf(c)]));
  }
}
