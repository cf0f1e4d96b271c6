/** The name/value pair lists of the settings backup: the `system`,
    `secure` and `global` tables use 32-bit big-endian lengths, the
    `lock_settings` table 16-bit ones. Each record is a name length, the
    name, a value length and, unless the value length is the all-ones
    sentinel, the value. Names and values are fixed-length string fields,
    so trailing NUL padding is removed from them. */
module NameValues {
  import opened Bytes

  /** The width of the two length fields of a record. */
  datatype Width =
    | Wide    // `NameValue`: 32-bit lengths, sentinel 0xFFFFFFFF
    | Narrow  // `NameValue2`: 16-bit lengths, sentinel 0xFFFF

  function LenBytes(w: Width): nat {
    if w == Wide then 4 else 2
  }

  /** The first length that does not fit the field. */
  function Limit(w: Width): nat {
    if w == Wide then 0x1_0000_0000 else 0x1_0000
  }

  /** The value length that means the value is absent. */
  function Sentinel(w: Width): nat {
    Limit(w) - 1
  }

  /** What the read loop adds to the value and name lengths to step to the
      next record: both length fields. */
  function Overhead(w: Width): nat {
    2 * LenBytes(w)
  }

  lemma LimitIsPow(w: Width)
    ensures Limit(w) == Pow256(LenBytes(w))
  {
    Pow256Values();
  }

  /** One decoded record, with both declared lengths (the read loop steps by
      them, whatever the padding removal left). */
  datatype NameValue = NameValue(nameLen: nat, name: Bytes, valueLen: nat, value: Option<Bytes>)

  predicate Unpadded(b: Bytes) {
    b == [] || b[|b| - 1] != 0
  }

  /** A record the layout can hold: the lengths fit their fields, the texts
      fit their lengths and carry no NUL padding of their own, and the value
      is absent exactly when its length is the sentinel. */
  predicate ValidNameValue(w: Width, nv: NameValue) {
    && nv.nameLen < Limit(w) && nv.valueLen < Limit(w)
    && |nv.name| <= nv.nameLen && Unpadded(nv.name)
    && (nv.value.None? <==> nv.valueLen == Sentinel(w))
    && (nv.value.Some? ==> |nv.value.value| <= nv.valueLen && Unpadded(nv.value.value))
  }

  /** The bytes a record occupies. */
  function RecordSize(w: Width, nv: NameValue): nat {
    Overhead(w) + nv.nameLen + (if nv.value.Some? then nv.valueLen else 0)
  }

  /** A length field and the bytes it counts. */
  function ReadNameField(w: Width, s: Bytes): (r: Option<Read<(nat, Bytes)>>)
    ensures r.Some? ==> r.value.value.0 < Limit(w) && |r.value.value.1| == r.value.value.0
    ensures r.Some? ==> |s| == LenBytes(w) + r.value.value.0 + |r.value.rest|
  {
    LimitIsPow(w);
    var len :- ReadUnsigned(s, LenBytes(w));
    var raw :- ReadBytes(len.rest, len.value);
    Some(Read((len.value, raw.value), raw.rest))
  }

  /** A length field and, unless it is the sentinel, the bytes it counts. */
  function ReadValueField(w: Width, s: Bytes): (r: Option<Read<(nat, Option<Bytes>)>>)
    ensures r.Some? ==> r.value.value.0 < Limit(w)
    ensures r.Some? ==> (r.value.value.1.None? <==> r.value.value.0 == Sentinel(w))
    ensures r.Some? && r.value.value.1.Some? ==> |r.value.value.1.value| == r.value.value.0
    ensures r.Some? ==> |s| == LenBytes(w) + (if r.value.value.1.Some? then r.value.value.0 else 0) + |r.value.rest|
  {
    LimitIsPow(w);
    var len :- ReadUnsigned(s, LenBytes(w));
    if len.value == Sentinel(w) then Some(Read((len.value, None), len.rest))
    else
      var raw :- ReadBytes(len.rest, len.value);
      Some(Read((len.value, Some(raw.value)), raw.rest))
  }

  /** A record parsed from the front of `s`; `None` where the parser raises
      because the bytes run out. */
  function DecodeNameValue(w: Width, s: Bytes): (r: Option<NameValue>)
    ensures r.Some? ==> ValidNameValue(w, r.value) && RecordSize(w, r.value) <= |s|
  {
    var name :- ReadNameField(w, s);
    var value :- ReadValueField(w, name.rest);
    var (nameLen, rawName) := name.value;
    var (valueLen, rawValue) := value.value;
    Some(NameValue(nameLen, StripTrailingNuls(rawName), valueLen,
      if rawValue.Some? then Some(StripTrailingNuls(rawValue.value)) else None))
  }

  /** A text followed by NUL padding up to its field length. */
  function Padded(t: Bytes, len: nat): (r: Bytes)
    requires |t| <= len
    ensures |r| == len
  {
    t + Zeros(len - |t|)
  }

  /** The value field of a record followed by `rest`. */
  function ValueOnto(nv: NameValue, rest: Bytes): Bytes
    requires nv.value.Some? ==> |nv.value.value| <= nv.valueLen
  {
    match nv.value
    case Some(v) => Padded(v, nv.valueLen) + rest
    case None => rest
  }

  /** The bytes of a record, with each text padded to its length, followed
      by `rest`. */
  function EncodeOnto(w: Width, nv: NameValue, rest: Bytes): (r: Bytes)
    requires ValidNameValue(w, nv)
    ensures |r| == RecordSize(w, nv) + |rest|
  {
    BigEndianBytes(nv.nameLen, LenBytes(w)) + (Padded(nv.name, nv.nameLen)
      + (BigEndianBytes(nv.valueLen, LenBytes(w)) + ValueOnto(nv, rest)))
  }

  /** The bytes of a record. */
  function EncodeNameValue(w: Width, nv: NameValue): (r: Bytes)
    requires ValidNameValue(w, nv)
    ensures |r| == RecordSize(w, nv)
  {
    EncodeOnto(w, nv, [])
  }

  lemma EncodeOntoAppend(w: Width, nv: NameValue, rest: Bytes)
    requires ValidNameValue(w, nv)
    ensures EncodeOnto(w, nv, rest) == EncodeNameValue(w, nv) + rest
  {
    assert ValueOnto(nv, rest) == ValueOnto(nv, []) + rest;
  }

  lemma NameFieldOfEncoding(w: Width, len: nat, raw: Bytes, rest: Bytes)
    requires len < Limit(w) && |raw| == len
    ensures ReadNameField(w, BigEndianBytes(len, LenBytes(w)) + (raw + rest)) == Some(Read((len, raw), rest))
  {
    LimitIsPow(w);
    ReadUnsignedOfEncoding(len, LenBytes(w), raw + rest);
    ReadPrefix(raw, rest);
  }

  lemma ValueFieldOfEncoding(w: Width, len: nat, raw: Option<Bytes>, rest: Bytes)
    requires len < Limit(w) && (raw.None? <==> len == Sentinel(w)) && (raw.Some? ==> |raw.value| == len)
    ensures var after := if raw.Some? then raw.value + rest else rest;
      ReadValueField(w, BigEndianBytes(len, LenBytes(w)) + after) == Some(Read((len, raw), rest))
  {
    LimitIsPow(w);
    var after := if raw.Some? then raw.value + rest else rest;
    ReadUnsignedOfEncoding(len, LenBytes(w), after);
    if raw.Some? {
      ReadPrefix(raw.value, rest);
    }
  }

  /** A record is its two fields, read one after the other. */
  lemma DecodeFields(w: Width, s: Bytes, nameLen: nat, rawName: Bytes, afterName: Bytes,
                     valueLen: nat, rawValue: Option<Bytes>, rest: Bytes)
    requires ReadNameField(w, s) == Some(Read((nameLen, rawName), afterName))
    requires ReadValueField(w, afterName) == Some(Read((valueLen, rawValue), rest))
    ensures DecodeNameValue(w, s) == Some(NameValue(nameLen, StripTrailingNuls(rawName), valueLen,
      if rawValue.Some? then Some(StripTrailingNuls(rawValue.value)) else None))
  {
  }

  /** The value field of a record reads back, whatever follows it. */
  lemma ValueOfEncoding(w: Width, nv: NameValue, rest: Bytes)
    requires ValidNameValue(w, nv)
    ensures var raw := if nv.value.Some? then Some(Padded(nv.value.value, nv.valueLen)) else None;
      ReadValueField(w, BigEndianBytes(nv.valueLen, LenBytes(w)) + ValueOnto(nv, rest)) == Some(Read((nv.valueLen, raw), rest))
  {
    var raw := if nv.value.Some? then Some(Padded(nv.value.value, nv.valueLen)) else None;
    ValueFieldOfEncoding(w, nv.valueLen, raw, rest);
  }

  /** Record round trip: a written record reads back whole, whatever follows
      it. */
  lemma DecodeOfEncode(w: Width, nv: NameValue, rest: Bytes)
    requires ValidNameValue(w, nv)
    ensures DecodeNameValue(w, EncodeOnto(w, nv, rest)) == Some(nv)
  {
    var rawName := Padded(nv.name, nv.nameLen);
    var rawValue := if nv.value.Some? then Some(Padded(nv.value.value, nv.valueLen)) else None;
    var afterName := BigEndianBytes(nv.valueLen, LenBytes(w)) + ValueOnto(nv, rest);
    var s := EncodeOnto(w, nv, rest);
    assert s == BigEndianBytes(nv.nameLen, LenBytes(w)) + (rawName + afterName);
    NameFieldOfEncoding(w, nv.nameLen, rawName, afterName);
    ValueOfEncoding(w, nv, rest);
    DecodeFields(w, s, nv.nameLen, rawName, afterName, nv.valueLen, rawValue, rest);
    StripPaddedField(nv.name, nv.nameLen);
    if nv.value.Some? {
      StripPaddedField(nv.value.value, nv.valueLen);
    }
    assert (if rawValue.Some? then Some(StripTrailingNuls(rawValue.value)) else None) == nv.value;
  }

  lemma StripPaddedField(t: Bytes, len: nat)
    requires |t| <= len && Unpadded(t)
    ensures StripTrailingNuls(Padded(t, len)) == t
  {
    StripPadded(t, len - |t|);
  }

  /** The bytes a name field was read from: its length, the name padded
      back to that length, then the rest. */
  lemma NameFieldEncoding(w: Width, s: Bytes, len: nat, raw: Bytes, rest: Bytes)
    requires ReadNameField(w, s) == Some(Read((len, raw), rest))
    ensures |StripTrailingNuls(raw)| <= len
    ensures s == BigEndianBytes(len, LenBytes(w)) + (Padded(StripTrailingNuls(raw), len) + rest)
  {
    LimitIsPow(w);
    EncodingOfReadUnsigned(s, LenBytes(w));
    StripTrailingNulsPadding(raw);
  }

  /** The bytes a value field was read from, likewise. */
  lemma ValueFieldEncoding(w: Width, s: Bytes, nv: NameValue, rest: Bytes)
    requires ReadValueField(w, s).Some? && ReadValueField(w, s).value.rest == rest
    requires var (len, raw) := ReadValueField(w, s).value.value;
      nv.valueLen == len && nv.value == (if raw.Some? then Some(StripTrailingNuls(raw.value)) else None)
    ensures nv.value.Some? ==> |nv.value.value| <= nv.valueLen
    ensures s == BigEndianBytes(nv.valueLen, LenBytes(w)) + ValueOnto(nv, rest)
  {
    LimitIsPow(w);
    EncodingOfReadUnsigned(s, LenBytes(w));
    var raw := ReadValueField(w, s).value.value.1;
    if raw.Some? {
      StripTrailingNulsPadding(raw.value);
    }
  }

  /** The other direction: the bytes a record was read from are the
      encoding of what was read, padding included, followed by the rest. */
  lemma EncodeOfDecode(w: Width, s: Bytes, nv: NameValue)
    requires DecodeNameValue(w, s) == Some(nv)
    ensures RecordSize(w, nv) <= |s|
    ensures EncodeOnto(w, nv, s[RecordSize(w, nv)..]) == s
  {
    var name := ReadNameField(w, s).value;
    var value := ReadValueField(w, name.rest).value;
    NameFieldEncoding(w, s, name.value.0, name.value.1, name.rest);
    ValueFieldEncoding(w, name.rest, nv, value.rest);
    var rest := value.rest;
    assert EncodeOnto(w, nv, rest) == s;
    EncodeOntoAppend(w, nv, rest);
    assert s[RecordSize(w, nv)..] == rest;
  }

  /** One dictionary the loop appends: `{name: value}`, with '' for a value
      that was absent. */
  datatype Pair = Pair(name: Bytes, value: Bytes)

  /** The pair of a decoded record; `PairOfRecord` states it over the
      record's bytes. */
  function PairOf(nv: NameValue): Pair {
    match nv.value
    case Some(v) => Pair(nv.name, v)
    case None => Pair(nv.name, [])
  }

  /** The pair the loop appends for the record at the front of `s`: the
      name is the text of the name field and the value the text of the value
      field, or '' when the value length is the sentinel, both without their
      NUL padding; each field is as long as the big-endian length in front of
      it. */
  lemma PairOfRecord(w: Width, s: Bytes, nv: NameValue)
    requires DecodeNameValue(w, s) == Some(nv)
    ensures var n := LenBytes(w);
      && 2 * n + nv.nameLen <= |s|
      && nv.nameLen == BigEndian(s[..n])
      && nv.valueLen == BigEndian(s[n + nv.nameLen..2 * n + nv.nameLen])
      && PairOf(nv).name == StripTrailingNuls(s[n..n + nv.nameLen])
      && (nv.valueLen == Sentinel(w) ==> PairOf(nv).value == [])
      && (nv.valueLen != Sentinel(w) ==>
            2 * n + nv.nameLen + nv.valueLen <= |s| &&
            PairOf(nv).value == StripTrailingNuls(s[2 * n + nv.nameLen..2 * n + nv.nameLen + nv.valueLen]))
  {
    EncodeOfDecode(w, s, nv);
    RecordPieces(w, nv, s[RecordSize(w, nv)..]);
    LimitIsPow(w);
    BigEndianOfBytes(nv.nameLen, LenBytes(w));
    BigEndianOfBytes(nv.valueLen, LenBytes(w));
    StripPaddedField(nv.name, nv.nameLen);
    if nv.value.Some? {
      StripPaddedField(nv.value.value, nv.valueLen);
    }
  }

  /** Where the four fields of a written record lie. */
  lemma RecordPieces(w: Width, nv: NameValue, rest: Bytes)
    requires ValidNameValue(w, nv)
    ensures var s := EncodeOnto(w, nv, rest);
      var n := LenBytes(w);
      && 2 * n + nv.nameLen <= |s|
      && s[..n] == BigEndianBytes(nv.nameLen, n)
      && s[n..n + nv.nameLen] == Padded(nv.name, nv.nameLen)
      && s[n + nv.nameLen..2 * n + nv.nameLen] == BigEndianBytes(nv.valueLen, n)
      && (nv.value.Some? ==>
            2 * n + nv.nameLen + nv.valueLen <= |s| &&
            s[2 * n + nv.nameLen..2 * n + nv.nameLen + nv.valueLen] == Padded(nv.value.value, nv.valueLen))
  {
    var n := LenBytes(w);
    var a := BigEndianBytes(nv.nameLen, n);
    var b := Padded(nv.name, nv.nameLen);
    var c := BigEndianBytes(nv.valueLen, n);
    var d := ValueOnto(nv, rest);
    var s := EncodeOnto(w, nv, rest);
    assert s == a + (b + (c + d));
    var i, j, k := n, n + nv.nameLen, 2 * n + nv.nameLen;
    FourPieces(a, b, c, d, i, j, k);
    if nv.value.Some? {
      var v := Padded(nv.value.value, nv.valueLen);
      assert d == v + rest;
      FourthPiece(a, b, c, v, rest, k, k + nv.valueLen);
    }
  }

  /** The first three of four concatenated pieces, sliced back out at their
      boundaries `i`, `j` and `k`. */
  lemma FourPieces(a: Bytes, b: Bytes, c: Bytes, d: Bytes, i: nat, j: nat, k: nat)
    requires |a| == i && |a| + |b| == j && j + |c| == k
    ensures var s := a + (b + (c + d));
      && k <= |s|
      && s[..i] == a
      && s[i..j] == b
      && s[j..k] == c
  {
    var s := a + (b + (c + d));
    assert s == (a + b) + (c + d);
    assert s[i..] == b + (c + d);
    assert s[j..] == c + d;
  }

  /** The fourth piece, between `k` and `l`, when it is followed by more. */
  lemma FourthPiece(a: Bytes, b: Bytes, c: Bytes, v: Bytes, rest: Bytes, k: nat, l: nat)
    requires |a| + |b| + |c| == k && k + |v| == l
    ensures var s := a + (b + (c + (v + rest)));
      l <= |s| && s[k..l] == v
  {
    var s := a + (b + (c + (v + rest)));
    assert s == ((a + b) + c) + (v + rest);
    assert s[k..] == v + rest;
  }

  /** How far the loop moves after a record: both lengths and both length
      fields, the sentinel included as if it were a length. */
  function Advance(w: Width, nv: NameValue): nat {
    nv.nameLen + nv.valueLen + Overhead(w)
  }

  /** Appending to a list, or the exception that ends the tool. */
  function Extend(ps: seq<Pair>, more: Option<seq<Pair>>): (r: Option<seq<Pair>>)
    ensures r.Some? <==> more.Some?
    ensures r.Some? ==> r.value == ps + more.value
  {
    match more
    case None => None
    case Some(qs) => Some(ps + qs)
  }

  /** The pairs the loop reads from `s` (the data from the loop's position
      on): it runs while more than 4 bytes remain, and `None` means that a
      record failed to parse, which the tool does not catch. */
  function PairsOf(w: Width, s: Bytes): (r: Option<seq<Pair>>)
    ensures |s| <= 4 ==> r == Some([])
    decreases |s|
  {
    if |s| <= 4 then Some([])
    else match DecodeNameValue(w, s)
      case None => None
      case Some(nv) =>
        var adv := Advance(w, nv);
        Extend([PairOf(nv)], if adv < |s| then PairsOf(w, s[adv..]) else Some([]))
  }

  /** `ReadNameValuePairs` / `ReadNameValue2Pairs`: nothing for data shorter
      than 4 (respectively 2) bytes, then the read loop. The shorter guard of
      the 16-bit variant makes no difference: the loop condition alone
      already yields nothing for 4 bytes or fewer. */
  function Pairs(w: Width, data: Bytes): (r: Option<seq<Pair>>)
    ensures |data| <= 4 ==> r == Some([])
    ensures r == PairsOf(w, data)
  {
    if |data| < (if w == Wide then 4 else 2) then Some([]) else PairsOf(w, data)
  }

  /** The pairs from position `pos` of the data on. */
  function PairsAt(w: Width, data: Bytes, pos: nat): Option<seq<Pair>> {
    if pos < |data| then PairsOf(w, data[pos..]) else Some([])
  }

  lemma ExtendTwice(ps: seq<Pair>, p: Pair, more: Option<seq<Pair>>)
    ensures Extend(ps, Extend([p], more)) == Extend(ps + [p], more)
  {
    if more.Some? {
      assert ps + ([p] + more.value) == ps + [p] + more.value;
    }
  }

  /** One iteration of the read loop at `pos`. */
  lemma PairsStep(w: Width, data: Bytes, pos: nat, nv: NameValue, next: nat)
    requires pos + 4 < |data| && DecodeNameValue(w, data[pos..]) == Some(nv)
    requires next == pos + Advance(w, nv)
    ensures PairsAt(w, data, pos) == Extend([PairOf(nv)], PairsAt(w, data, next))
  {
    var s := data[pos..];
    var adv := Advance(w, nv);
    if adv < |s| {
      assert s[adv..] == data[next..];
    }
  }

  /** What the read loop has collected, together with what it has still to
      read, is unchanged by one iteration. */
  lemma LoopStep(w: Width, data: Bytes, pos: nat, nv: NameValue, next: nat, out: seq<Pair>)
    requires pos + 4 < |data| && DecodeNameValue(w, data[pos..]) == Some(nv)
    requires next == pos + Advance(w, nv)
    ensures Extend(out, PairsAt(w, data, pos)) == Extend(out + [PairOf(nv)], PairsAt(w, data, next))
  {
    var more := PairsAt(w, data, next);
    PairsStep(w, data, pos, nv, next);
    ExtendTwice(out, PairOf(nv), more);
  }

  lemma PairsFail(w: Width, data: Bytes, pos: nat)
    requires pos + 4 < |data| && DecodeNameValue(w, data[pos..]).None?
    ensures PairsAt(w, data, pos) == None
  {
  }

  /** The read loop, appending to the list `logs` it was handed: the result
      is `logs` with the pairs of the data after it, or `None` when a record
      fails to parse. */
  method ReadPairs(w: Width, data: Bytes, logs: seq<Pair>) returns (r: Option<seq<Pair>>)
    ensures r == Extend(logs, Pairs(w, data))
  {
    var size := |data|;
    if size < (if w == Wide then 4 else 2) {
      assert logs + [] == logs;
      return Some(logs);
    }
    var pos: nat := 0;
    var out := logs;
    assert data[0..] == data;
    while pos + 4 < size
      invariant Extend(logs, Pairs(w, data)) == Extend(out, PairsAt(w, data, pos))
      decreases size - pos
    {
      var nv := DecodeNameValue(w, data[pos..]);
      if nv.None? {
        PairsFail(w, data, pos);
        return None;
      }
      var next := pos + Advance(w, nv.value);
      LoopStep(w, data, pos, nv.value, next, out);
      out := out + [PairOf(nv.value)];
      pos := next;
    }
    assert out + [] == out;
    return Some(out);
  }

  // ---------------------------------------------------------------------
  // Lists of records
  // ---------------------------------------------------------------------

  /** A record the loop steps over exactly: its value is present, so the
      step is its size, and it is longer than the 4 bytes the loop leaves
      unread. */
  predicate Steppable(w: Width, nv: NameValue) {
    ValidNameValue(w, nv) && nv.value.Some? && RecordSize(w, nv) > 4
  }

  predicate AllSteppable(w: Width, nvs: seq<NameValue>)
    decreases |nvs|
  {
    nvs == [] || (Steppable(w, nvs[0]) && AllSteppable(w, nvs[1..]))
  }

  /** The records written one after another, followed by `tail`. */
  function EncodeAllOnto(w: Width, nvs: seq<NameValue>, tail: Bytes): Bytes
    requires AllSteppable(w, nvs)
    decreases |nvs|
  {
    if nvs == [] then tail else EncodeOnto(w, nvs[0], EncodeAllOnto(w, nvs[1..], tail))
  }

  function PairsOfAll(nvs: seq<NameValue>): (r: seq<Pair>)
    ensures |r| == |nvs| && forall i :: 0 <= i < |nvs| ==> r[i] == PairOf(nvs[i])
    decreases |nvs|
  {
    if nvs == [] then [] else [PairOf(nvs[0])] + PairsOfAll(nvs[1..])
  }

  /** One record the loop steps over exactly, then `more`. */
  lemma PairsOfRecord(w: Width, nv: NameValue, more: Bytes)
    requires Steppable(w, nv)
    ensures PairsOf(w, EncodeOnto(w, nv, more)) == Extend([PairOf(nv)], PairsOf(w, more))
  {
    var s := EncodeOnto(w, nv, more);
    DecodeOfEncode(w, nv, more);
    EncodeOntoAppend(w, nv, more);
    assert s[RecordSize(w, nv)..] == more;
  }

  lemma ConsExtend(p: Pair, ps: seq<Pair>, more: Option<seq<Pair>>)
    ensures Extend([p], Extend(ps, more)) == Extend([p] + ps, more)
  {
    if more.Some? {
      assert [p] + (ps + more.value) == [p] + ps + more.value;
    }
  }

  /** Records the loop steps over exactly, followed by any bytes: their pairs
      come first, then what the loop reads from those bytes. */
  lemma {:induction false} PairsThen(w: Width, nvs: seq<NameValue>, tail: Bytes)
    requires AllSteppable(w, nvs)
    ensures PairsOf(w, EncodeAllOnto(w, nvs, tail)) == Extend(PairsOfAll(nvs), PairsOf(w, tail))
    decreases |nvs|
  {
    if nvs == [] {
      if PairsOf(w, tail).Some? {
        assert [] + PairsOf(w, tail).value == PairsOf(w, tail).value;
      }
    } else {
      PairsOfRecord(w, nvs[0], EncodeAllOnto(w, nvs[1..], tail));
      PairsThen(w, nvs[1..], tail);
      ConsExtend(PairOf(nvs[0]), PairsOfAll(nvs[1..]), PairsOf(w, tail));
    }
  }

  /** List round trip: the data written from such records reads back as
      their pairs, in order. */
  lemma PairsRoundTrip(w: Width, nvs: seq<NameValue>)
    requires AllSteppable(w, nvs)
    ensures Pairs(w, EncodeAllOnto(w, nvs, [])) == Some(PairsOfAll(nvs))
  {
    PairsThen(w, nvs, []);
    assert PairsOfAll(nvs) + [] == PairsOfAll(nvs);
  }

  /** A last record without a value (written with the sentinel length) is
      read too, as an empty value. */
  lemma AbsentValueLast(w: Width, nvs: seq<NameValue>, last: NameValue)
    requires AllSteppable(w, nvs)
    requires ValidNameValue(w, last) && last.value.None? && RecordSize(w, last) > 4
    ensures Pairs(w, EncodeAllOnto(w, nvs, EncodeNameValue(w, last))) == Some(PairsOfAll(nvs) + [Pair(last.name, [])])
  {
    var enc := EncodeNameValue(w, last);
    PairsThen(w, nvs, enc);
    DecodeOfEncode(w, last, []);
    assert Advance(w, last) >= |enc|;
    assert PairsOf(w, enc) == Some([PairOf(last)] + []);
    assert [PairOf(last)] + [] == [Pair(last.name, [])];
  }

  /** The record with an empty name and an empty value is 4 bytes in the
      16-bit layout; as the last record, the loop condition `pos < size - 4`
      leaves it unread. */
  lemma ShortLastRecordDropped(nvs: seq<NameValue>)
    requires AllSteppable(Narrow, nvs)
    ensures var empty := NameValue(0, [], 0, Some([]));
      && |EncodeNameValue(Narrow, empty)| == 4
      && Pairs(Narrow, EncodeAllOnto(Narrow, nvs, EncodeNameValue(Narrow, empty))) == Some(PairsOfAll(nvs))
  {
    var empty := NameValue(0, [], 0, Some([]));
    PairsThen(Narrow, nvs, EncodeNameValue(Narrow, empty));
    assert PairsOfAll(nvs) + [] == PairsOfAll(nvs);
  }

  /** In the 32-bit layout a record without a value ends the loop: the
      sentinel is added to the position as if it were a length, which moves
      past any data a frame can carry, so nothing after it is decoded. */
  lemma AbsentValueEndsWide(s: Bytes, nv: NameValue)
    requires |s| < 0x1_0000_0000 && |s| > 4
    requires DecodeNameValue(Wide, s) == Some(nv) && nv.value.None?
    ensures PairsOf(Wide, s) == Some([Pair(nv.name, [])])
  {
    PairsOfDecoded(Wide, s, nv);
    assert Advance(Wide, nv) >= |s|;
    assert [PairOf(nv)] + [] == [Pair(nv.name, [])];
  }

  /** In the 16-bit layout the sentinel is likewise added to the position:
      after a record without a value the loop skips 65535 bytes that belong
      to no record before reading on. */
  lemma AbsentValueSkipsNarrow(s: Bytes, nv: NameValue, next: nat)
    requires |s| > 4 && DecodeNameValue(Narrow, s) == Some(nv) && nv.value.None?
    requires next == RecordSize(Narrow, nv) + 0xFFFF
    ensures PairsOf(Narrow, s) == Extend([Pair(nv.name, [])], if next < |s| then PairsOf(Narrow, s[next..]) else Some([]))
  {
    PairsOfDecoded(Narrow, s, nv);
    assert Advance(Narrow, nv) == next;
  }

  /** The read loop at a record that parses. */
  lemma PairsOfDecoded(w: Width, s: Bytes, nv: NameValue)
    requires |s| > 4 && DecodeNameValue(w, s) == Some(nv)
    ensures PairsOf(w, s) == Extend([PairOf(nv)], if Advance(w, nv) < |s| then PairsOf(w, s[Advance(w, nv)..]) else Some([]))
  {
  }
}
