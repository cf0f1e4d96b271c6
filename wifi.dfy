/** The Wi-Fi networks of the settings backup (`wifi_new_config`). The XML
    document is parsed outside the model; what the tool walks is the list of
    `Network` elements, each a list of configuration elements whose direct
    children carry a tag, an optional `name` and `value` attribute and an
    optional text. Every network becomes one dictionary from names to
    texts, filled in document order, so a later write of a name replaces an
    earlier one. */
module Wifi {
  import opened Bytes
  import opened Text

  /** A child element of a configuration: `<string name=...>text</string>`
      or `<boolean name=... value=.../>`. A missing attribute or text is
      `None`. */
  datatype Child = Child(tag: string, name: Option<string>, value: Option<string>, text: Option<string>)

  /** A direct child of a `Network` element. */
  datatype Config = Config(tag: string, children: seq<Child>)

  type Network = seq<Config>

  /** One network's dictionary. Keys are optional because a `<string>`
      without a name is stored under Python's `None`; values are optional
      because an element without text stores `None`. */
  type WifiMap = map<Option<string>, Option<string>>

  // ---------------------------------------------------------------------
  // Field transforms
  // ---------------------------------------------------------------------

  /** `text[1:]`. */
  function DropFirst(t: string): (r: string)
    ensures t != "" ==> [t[0]] + r == t
    ensures t == "" ==> r == ""
  {
    if t == "" then "" else t[1..]
  }

  /** `text[1:-1]`: the text without its first and last character, empty
      when there are fewer than two. */
  function StripQuotes(t: string): (r: string)
    ensures |r| == (if |t| >= 2 then |t| - 2 else 0)
    ensures forall i :: 0 <= i < |r| ==> r[i] == t[i + 1]
  {
    if |t| < 2 then "" else t[1..|t| - 1]
  }

  /** A value stored between quotes comes out as it was. */
  lemma QuotesStripped(s: string, q: char, q': char)
    ensures StripQuotes([q] + s + [q']) == s
  {
    var t := [q] + s + [q'];
    assert t[1..|t| - 1] == s;
  }

  /** The two halves of a `ConfigKey`: the text after its first character
      split on `"`, when that gives exactly two parts. */
  function ConfigKeyParts(t: string): (r: Option<(string, string)>)
    ensures r.Some? <==> Count(DropFirst(t), '"') == 1
    ensures r.Some? ==> '"' !in r.value.0 && '"' !in r.value.1
  {
    var parts := Split(DropFirst(t), '"');
    if |parts| == 2 then Some((parts[0], parts[1])) else None
  }

  /** The halves put back together with the quote between them and the
      first character in front give the text back. */
  lemma ConfigKeyPartsRebuild(t: string)
    requires ConfigKeyParts(t).Some?
    ensures var (ssid, security) := ConfigKeyParts(t).value;
      t != "" && [t[0]] + ssid + ['"'] + security == t
  {
    var rest := DropFirst(t);
    SplitInTwo(rest, '"');
  }

  const ConfigKeyName: string := "ConfigKey"
  const PreSharedKeyName: string := "PreSharedKey"
  const SsidName: string := "SSID"
  const NoName: string := "NONAME"

  /** One `<string>` of a `WifiConfiguration`; `None` where the tool raises
      because the element has no text and the text is sliced. */
  function StringStep(w: WifiMap, c: Child): (r: Option<WifiMap>)
    ensures r.None? <==> c.text.None? && (c.name == Some(ConfigKeyName) || c.name == Some(PreSharedKeyName) || c.name == Some(SsidName))
  {
    if c.name == Some(ConfigKeyName) then
      var t :- c.text;
      match ConfigKeyParts(t)
      case None => Some(w[Some("config_key") := c.text])
      case Some((ssid, security)) =>
        Some(w[Some("config_key_ssid") := Some(ssid)][Some("config_key_security") := Some(security)])
    else if c.name == Some(PreSharedKeyName) || c.name == Some(SsidName) then
      var t :- c.text;
      Some(w[c.name := Some(StripQuotes(t))])
    else
      Some(w[c.name := c.text])
  }

  /** One `<boolean>`: a missing name is "NONAME", a missing value "". */
  function BooleanStep(w: WifiMap, c: Child): WifiMap {
    w[Some(if c.name.Some? then c.name.value else NoName) := Some(if c.value.Some? then c.value.value else "")]
  }

  /** One `<string>` of an `IpConfiguration`: stored only when it has a
      non-empty name. */
  function IpStep(w: WifiMap, c: Child): WifiMap {
    if c.name.Some? && c.name.value != "" then w[c.name := c.text] else w
  }

  // ---------------------------------------------------------------------
  // The loops, as functions of the element lists
  // ---------------------------------------------------------------------

  /** `config.findall('string')` handed to `StringStep` in order. */
  function Strings(w: WifiMap, cs: seq<Child>): Option<WifiMap>
    decreases |cs|
  {
    if cs == [] then Some(w)
    else if cs[0].tag != "string" then Strings(w, cs[1..])
    else
      var w' :- StringStep(w, cs[0]);
      Strings(w', cs[1..])
  }

  /** `config.findall('boolean')` handed to `BooleanStep` in order. */
  function Booleans(w: WifiMap, cs: seq<Child>): WifiMap
    decreases |cs|
  {
    if cs == [] then w
    else if cs[0].tag != "boolean" then Booleans(w, cs[1..])
    else Booleans(BooleanStep(w, cs[0]), cs[1..])
  }

  /** An `IpConfiguration`'s `findall('string')` handed to `IpStep`. */
  function IpStrings(w: WifiMap, cs: seq<Child>): WifiMap
    decreases |cs|
  {
    if cs == [] then w
    else if cs[0].tag != "string" then IpStrings(w, cs[1..])
    else IpStrings(IpStep(w, cs[0]), cs[1..])
  }

  /** One configuration element: its strings then its booleans for a
      `WifiConfiguration`, its named strings for an `IpConfiguration`,
      nothing for any other tag. */
  function ConfigStep(w: WifiMap, cfg: Config): Option<WifiMap> {
    if cfg.tag == "WifiConfiguration" then
      var w' :- Strings(w, cfg.children);
      Some(Booleans(w', cfg.children))
    else if cfg.tag == "IpConfiguration" then Some(IpStrings(w, cfg.children))
    else Some(w)
  }

  function Configs(w: WifiMap, cfgs: seq<Config>): Option<WifiMap>
    decreases |cfgs|
  {
    if cfgs == [] then Some(w)
    else
      var w' :- ConfigStep(w, cfgs[0]);
      Configs(w', cfgs[1..])
  }

  /** The dictionaries `ReadWifiNewConfig` appends: one per network, in
      order, each built from an empty dictionary; `None` exactly when one of
      the networks raises. */
  function Networks(nets: seq<Network>): (r: Option<seq<WifiMap>>)
    ensures r.Some? <==> forall i :: 0 <= i < |nets| ==> Configs(map[], nets[i]).Some?
    ensures r.Some? ==> |r.value| == |nets|
    ensures r.Some? ==> forall i :: 0 <= i < |nets| ==> r.value[i] == Configs(map[], nets[i]).value
    decreases |nets|
  {
    if nets == [] then Some([])
    else
      var first :- Configs(map[], nets[0]);
      assert forall i :: 0 <= i < |nets| - 1 ==> nets[1..][i] == nets[i + 1];
      var rest :- Networks(nets[1..]);
      Some([first] + rest)
  }

  // ---------------------------------------------------------------------
  // The loops as the tool runs them
  // ---------------------------------------------------------------------

  method ApplyStrings(w: WifiMap, cs: seq<Child>) returns (r: Option<WifiMap>)
    ensures r == Strings(w, cs)
  {
    var cur := w;
    var i := 0;
    assert cs[0..] == cs;
    while i < |cs|
      invariant 0 <= i <= |cs|
      invariant Strings(w, cs) == Strings(cur, cs[i..])
      decreases |cs| - i
    {
      assert cs[i..][1..] == cs[i + 1..];
      if cs[i].tag == "string" {
        var next := StringStep(cur, cs[i]);
        if next.None? {
          return None;
        }
        cur := next.value;
      }
      i := i + 1;
    }
    r := Some(cur);
  }

  method ApplyBooleans(w: WifiMap, cs: seq<Child>) returns (r: WifiMap)
    ensures r == Booleans(w, cs)
  {
    r := w;
    var i := 0;
    assert cs[0..] == cs;
    while i < |cs|
      invariant 0 <= i <= |cs|
      invariant Booleans(w, cs) == Booleans(r, cs[i..])
      decreases |cs| - i
    {
      assert cs[i..][1..] == cs[i + 1..];
      if cs[i].tag == "boolean" {
        r := BooleanStep(r, cs[i]);
      }
      i := i + 1;
    }
  }

  method ApplyIpStrings(w: WifiMap, cs: seq<Child>) returns (r: WifiMap)
    ensures r == IpStrings(w, cs)
  {
    r := w;
    var i := 0;
    assert cs[0..] == cs;
    while i < |cs|
      invariant 0 <= i <= |cs|
      invariant IpStrings(w, cs) == IpStrings(r, cs[i..])
      decreases |cs| - i
    {
      assert cs[i..][1..] == cs[i + 1..];
      if cs[i].tag == "string" {
        r := IpStep(r, cs[i]);
      }
      i := i + 1;
    }
  }

  /** The dictionary of one network, configuration by configuration. */
  method ReadNetwork(net: Network) returns (r: Option<WifiMap>)
    ensures r == Configs(map[], net)
  {
    var wifi: WifiMap := map[];
    var i := 0;
    assert net[0..] == net;
    while i < |net|
      invariant 0 <= i <= |net|
      invariant Configs(map[], net) == Configs(wifi, net[i..])
      decreases |net| - i
    {
      assert net[i..][1..] == net[i + 1..];
      var config := net[i];
      if config.tag == "WifiConfiguration" {
        var afterStrings := ApplyStrings(wifi, config.children);
        if afterStrings.None? {
          return None;
        }
        wifi := ApplyBooleans(afterStrings.value, config.children);
      } else if config.tag == "IpConfiguration" {
        wifi := ApplyIpStrings(wifi, config.children);
      }
      i := i + 1;
    }
    r := Some(wifi);
  }

  /** `ReadWifiNewConfig` after the XML parse: one dictionary per network
      appended to `logs`, or `None` where it raises. */
  method ReadWifiNetworks(nets: seq<Network>, logs: seq<WifiMap>) returns (r: Option<seq<WifiMap>>)
    ensures r.Some? <==> Networks(nets).Some?
    ensures r.Some? ==> r.value == logs + Networks(nets).value
  {
    var out := logs;
    var i := 0;
    while i < |nets|
      invariant 0 <= i <= |nets|
      invariant |out| == |logs| + i && out[..|logs|] == logs
      invariant forall k :: 0 <= k < i ==> Configs(map[], nets[k]).Some?
      invariant forall k :: 0 <= k < i ==> out[|logs| + k] == Configs(map[], nets[k]).value
      decreases |nets| - i
    {
      var wifi := ReadNetwork(nets[i]);
      if wifi.None? {
        return None;
      }
      out := out + [wifi.value];
      i := i + 1;
    }
    assert out == logs + Networks(nets).value;
    r := Some(out);
  }

  // ---------------------------------------------------------------------
  // What the transforms promise
  // ---------------------------------------------------------------------

  /** A `ConfigKey` whose text after the first character holds exactly one
      quote is stored as its two halves, which rebuild the text; any other
      `ConfigKey` is stored whole under `config_key`. Neither raises. */
  lemma ConfigKeyStored(w: WifiMap, c: Child)
    requires c.name == Some(ConfigKeyName) && c.text.Some?
    ensures var r := StringStep(w, c);
      && r.Some?
      && (Count(DropFirst(c.text.value), '"') == 1 ==>
            var (ssid, security) := ConfigKeyParts(c.text.value).value;
            && r.value == w[Some("config_key_ssid") := Some(ssid)][Some("config_key_security") := Some(security)]
            && [c.text.value[0]] + ssid + ['"'] + security == c.text.value)
      && (Count(DropFirst(c.text.value), '"') != 1 ==> r.value == w[Some("config_key") := c.text])
  {
    if Count(DropFirst(c.text.value), '"') == 1 {
      ConfigKeyPartsRebuild(c.text.value);
    }
  }

  /** An SSID or pre-shared key stored between quotes is kept without
      them. */
  lemma QuotedFieldStored(w: WifiMap, c: Child, s: string)
    requires c.name == Some(PreSharedKeyName) || c.name == Some(SsidName)
    requires c.text == Some("\"" + s + "\"")
    ensures StringStep(w, c) == Some(w[c.name := Some(s)])
  {
    QuotesStripped(s, '"', '"');
  }

  /** Any other `<string>` is stored as it is, a missing name and a
      missing text included. */
  lemma PlainStringStored(w: WifiMap, c: Child)
    requires c.name != Some(ConfigKeyName) && c.name != Some(PreSharedKeyName) && c.name != Some(SsidName)
    ensures StringStep(w, c) == Some(w[c.name := c.text])
  {
  }

  /** A boolean without attributes is stored as `NONAME: ''`. */
  lemma BooleanDefaults(w: WifiMap, c: Child)
    requires c.name.None? && c.value.None?
    ensures BooleanStep(w, c) == w[Some(NoName) := Some("")]
  {
  }

  /** The booleans of a configuration only add entries under a name, never
      under `None`, and nothing they do not name changes. */
  lemma {:induction false} BooleansKeep(w: WifiMap, cs: seq<Child>, k: Option<string>)
    requires k.None? || forall i :: 0 <= i < |cs| ==> cs[i].tag != "boolean" || BooleanKey(cs[i]) != k.value
    ensures k in Booleans(w, cs) <==> k in w
    ensures k in w ==> Booleans(w, cs)[k] == w[k]
    decreases |cs|
  {
    if cs != [] {
      var w' := if cs[0].tag != "boolean" then w else BooleanStep(w, cs[0]);
      assert k in w' <==> k in w;
      assert k in w ==> w'[k] == w[k];
      BooleansKeep(w', cs[1..], k);
    }
  }

  /** The key a boolean is stored under. */
  function BooleanKey(c: Child): string {
    if c.name.Some? then c.name.value else NoName
  }

  /** Last write wins: after the booleans, a name holds the value of the
      last boolean carrying it. */
  lemma {:induction false} LastBooleanWins(w: WifiMap, cs: seq<Child>, b: Child, after: seq<Child>)
    requires b.tag == "boolean"
    requires forall i :: 0 <= i < |after| ==> after[i].tag != "boolean" || BooleanKey(after[i]) != BooleanKey(b)
    ensures var r := Booleans(w, cs + [b] + after);
      Some(BooleanKey(b)) in r && r[Some(BooleanKey(b))] == Some(if b.value.Some? then b.value.value else "")
  {
    BooleansSplit(w, cs, [b] + after);
    assert cs + [b] + after == cs + ([b] + after);
    var mid := Booleans(w, cs);
    assert ([b] + after)[1..] == after;
    BooleansKeep(BooleanStep(mid, b), after, Some(BooleanKey(b)));
  }

  lemma {:induction false} BooleansSplit(w: WifiMap, a: seq<Child>, b: seq<Child>)
    ensures Booleans(w, a + b) == Booleans(Booleans(w, a), b)
    decreases |a|
  {
    if a == [] {
      assert a + b == b;
    } else {
      assert (a + b)[1..] == a[1..] + b;
      var w' := if a[0].tag != "boolean" then w else BooleanStep(w, a[0]);
      BooleansSplit(w', a[1..], b);
    }
  }

  /** An `IpConfiguration` stores only named strings: every key it adds is
      a non-empty name. */
  lemma {:induction false} IpKeysNamed(w: WifiMap, cs: seq<Child>)
    ensures forall k :: k in IpStrings(w, cs) && k !in w ==> k.Some? && k.value != ""
    ensures w.Keys <= IpStrings(w, cs).Keys
    decreases |cs|
  {
    if cs != [] {
      var w' := if cs[0].tag != "string" then w else IpStep(w, cs[0]);
      IpKeysNamed(w', cs[1..]);
    }
  }

  /** An `IpConfiguration` string without a name changes nothing. */
  lemma UnnamedIpSkipped(w: WifiMap, c: Child)
    requires c.name.None? || c.name == Some("")
    ensures IpStep(w, c) == w
  {
  }

  /** Configuration elements other than the two the tool knows change
      nothing. */
  lemma OtherConfigIgnored(w: WifiMap, cfg: Config)
    requires cfg.tag != "WifiConfiguration" && cfg.tag != "IpConfiguration"
    ensures ConfigStep(w, cfg) == Some(w)
  {
  }
}
