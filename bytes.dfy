/** Byte strings and the reading primitives both backup parsers are built on:
    Python's file-read semantics, 4-byte alignment, big- and little-endian
    unsigned fields, the signed 64-bit field, 16-bit length-prefixed strings
    and the presence-flagged strings of the record layouts. */
module Bytes {

  /** One octet. */
  type byte = x: int | 0 <= x < 256

  type Bytes = seq<byte>

  datatype Option<+T> = None | Some(value: T) {
    predicate IsFailure() { None? }
    function PropagateFailure<U>(): Option<U> requires None? { None }
    function Extract(): T requires Some? { value }
  }

  /** A field read from the front of a byte string, and the bytes after it. */
  datatype Read<+T> = Read(value: T, rest: Bytes)

  /** A string-valued output field: a byte string, or Python's `None`. */
  datatype Cell = Str(bytes: Bytes) | Null

  function Min(a: int, b: int): int { if a <= b then a else b }

  function Zeros(n: nat): (r: Bytes)
    ensures |r| == n && forall i :: 0 <= i < n ==> r[i] == 0
  {
    if n == 0 then [] else [0] + Zeros(n - 1)
  }

  // ---------------------------------------------------------------------
  // The file as the tools see it
  // ---------------------------------------------------------------------

  /** What a read of up to `n` bytes returns when the file position is `pos`:
      the next `n` bytes, fewer at the end of the file, nothing once `pos` is
      at or past the end (a seek may move the position past the end). The
      position afterwards is `pos` plus the length of what was returned. */
  function FileRead(f: Bytes, pos: nat, n: nat): (r: Bytes)
    ensures |r| == Min(n, if pos <= |f| then |f| - pos else 0)
  {
    if pos >= |f| then [] else f[pos..Min(pos + n, |f|)]
  }

  /** A read returns the bytes at the position, in order; all `n` of them
      when the file is long enough. */
  lemma FileReadContents(f: Bytes, pos: nat, n: nat)
    ensures var r := FileRead(f, pos, n);
      forall i :: 0 <= i < |r| ==> r[i] == f[pos + i]
    ensures pos + n <= |f| ==> FileRead(f, pos, n) == f[pos..pos + n]
  {
  }

  /** The position after the alignment step of both tools: when `pos % 4`
      is not zero they seek forward by `4 - pos % 4`. The result is the first
      multiple of 4 at or after `pos`. */
  function Align4(pos: nat): (r: nat)
    ensures r % 4 == 0 && pos <= r < pos + 4
  {
    if pos % 4 != 0 then pos + (4 - pos % 4) else pos
  }

  /** The number of padding bytes a writer puts after `n` bytes. */
  function PadLen(n: nat): (r: nat)
    ensures (n + r) % 4 == 0 && r < 4
  {
    Align4(n) - n
  }

  /** Aligning after a part that itself starts on a 4-byte boundary only
      depends on the length of the part. */
  lemma Align4Shift(base: nat, n: nat, end: nat)
    requires base % 4 == 0 && end == base + n + PadLen(n)
    ensures Align4(base + n) == end
  {
    assert (base + n) % 4 == n % 4;
  }

  /** The file holds the bytes `s` from position `pos` on. */
  predicate HoldsAt(f: Bytes, pos: nat, s: Bytes)
    decreases |s|
  {
    pos + |s| <= |f| && (s == [] || (f[pos] == s[0] && HoldsAt(f, pos + 1, s[1..])))
  }

  lemma {:induction false} HoldsAtSlice(f: Bytes, pos: nat, s: Bytes)
    ensures HoldsAt(f, pos, s) <==> pos + |s| <= |f| && f[pos..pos + |s|] == s
    decreases |s|
  {
    if s != [] {
      HoldsAtSlice(f, pos + 1, s[1..]);
      if pos + |s| <= |f| {
        assert f[pos..pos + |s|] == [f[pos]] + f[pos + 1..pos + 1 + |s[1..]|];
        assert s == [s[0]] + s[1..];
      }
    }
  }

  /** A file holds itself from its start. */
  lemma HoldsWhole(f: Bytes)
    ensures HoldsAt(f, 0, f)
  {
    assert f[0..|f|] == f;
    HoldsAtSlice(f, 0, f);
  }

  /** A file holds `a + b` where it holds `a` followed by `b`, which starts
      at `mid`. */
  lemma {:induction false} HoldsAtAppend(f: Bytes, pos: nat, a: Bytes, b: Bytes, mid: nat)
    requires mid == pos + |a|
    ensures HoldsAt(f, pos, a + b) <==> HoldsAt(f, pos, a) && HoldsAt(f, mid, b)
    decreases |a|
  {
    if a == [] {
      assert a + b == b;
    } else {
      assert (a + b)[1..] == a[1..] + b;
      HoldsAtAppend(f, pos + 1, a[1..], b, mid);
    }
  }

  // ---------------------------------------------------------------------
  // Trailing NUL bytes
  // ---------------------------------------------------------------------

  /** The bytes with every trailing NUL removed (Python's `rstrip('\x00')`,
      and the padding removal of a fixed-length string field). */
  function StripTrailingNuls(b: Bytes): (r: Bytes)
    ensures r <= b
    ensures r == [] || r[|r| - 1] != 0
    ensures forall i :: |r| <= i < |b| ==> b[i] == 0
    decreases |b|
  {
    if b != [] && b[|b| - 1] == 0 then StripTrailingNuls(b[..|b| - 1]) else b
  }

  /** What was stripped is NUL padding: putting it back gives the bytes. */
  lemma StripTrailingNulsPadding(b: Bytes)
    ensures StripTrailingNuls(b) + Zeros(|b| - |StripTrailingNuls(b)|) == b
  {
    var r := StripTrailingNuls(b);
    assert forall i :: 0 <= i < |b| ==> (r + Zeros(|b| - |r|))[i] == b[i];
  }

  /** Stripping NUL padding from bytes that do not end in NUL gives them back. */
  lemma StripPadded(t: Bytes, n: nat)
    requires t == [] || t[|t| - 1] != 0
    ensures StripTrailingNuls(t + Zeros(n)) == t
  {
    var b := t + Zeros(n);
    var r := StripTrailingNuls(b);
    if t != [] {
      assert b[|t| - 1] != 0;  // so the stripped part starts after it
    }
    if r != [] {
      assert b[|r| - 1] != 0;  // so the kept part ends before the zeros
    }
    assert r == b[..|r|] == t;
  }

  // ---------------------------------------------------------------------
  // Unsigned integers
  // ---------------------------------------------------------------------

  function Pow256(n: nat): (r: nat)
    ensures r > 0
  {
    if n == 0 then 1 else 256 * Pow256(n - 1)
  }

  lemma Pow256Values()
    ensures Pow256(1) == 0x100 && Pow256(2) == 0x1_0000
    ensures Pow256(4) == 0x1_0000_0000 && Pow256(8) == 0x1_0000_0000_0000_0000
  {
    assert Pow256(1) == 0x100;
    assert Pow256(2) == 0x1_0000;
    assert Pow256(3) == 0x100_0000;
    assert Pow256(4) == 0x1_0000_0000;
    assert Pow256(5) == 0x100_0000_0000;
    assert Pow256(6) == 0x1_0000_0000_0000;
    assert Pow256(7) == 0x100_0000_0000_0000;
  }

  /** The unsigned integer that the bytes spell, most significant first. */
  function BigEndian(b: Bytes): (r: nat)
    ensures r < Pow256(|b|)
    decreases |b|
  {
    if b == [] then 0 else BigEndian(b[..|b| - 1]) * 256 + b[|b| - 1]
  }

  /** The `n`-byte big-endian encoding of `v`. */
  function BigEndianBytes(v: nat, n: nat): (r: Bytes)
    ensures |r| == n
  {
    if n == 0 then [] else BigEndianBytes(v / 256, n - 1) + [v % 256]
  }

  lemma {:induction false} BigEndianOfBytes(v: nat, n: nat)
    requires v < Pow256(n)
    ensures BigEndian(BigEndianBytes(v, n)) == v
  {
    if n > 0 {
      var b := BigEndianBytes(v, n);
      assert b[..n - 1] == BigEndianBytes(v / 256, n - 1);
      BigEndianOfBytes(v / 256, n - 1);
    }
  }

  lemma {:induction false} BytesOfBigEndian(b: Bytes)
    ensures BigEndianBytes(BigEndian(b), |b|) == b
    decreases |b|
  {
    if b != [] {
      var p := b[..|b| - 1];
      BytesOfBigEndian(p);
      var v := BigEndian(b);
      assert v / 256 == BigEndian(p) && v % 256 == b[|b| - 1];
      assert b == p + [b[|b| - 1]];
    }
  }

  /** The unsigned integer that the bytes spell, least significant first. */
  function LittleEndian(b: Bytes): (r: nat)
    ensures r < Pow256(|b|)
    decreases |b|
  {
    if b == [] then 0 else b[0] + 256 * LittleEndian(b[1..])
  }

  /** The `n`-byte little-endian encoding of `v`. */
  function LittleEndianBytes(v: nat, n: nat): (r: Bytes)
    ensures |r| == n
  {
    if n == 0 then [] else [v % 256] + LittleEndianBytes(v / 256, n - 1)
  }

  lemma {:induction false} LittleEndianOfBytes(v: nat, n: nat)
    requires v < Pow256(n)
    ensures LittleEndian(LittleEndianBytes(v, n)) == v
  {
    if n > 0 {
      var b := LittleEndianBytes(v, n);
      assert b[1..] == LittleEndianBytes(v / 256, n - 1);
      LittleEndianOfBytes(v / 256, n - 1);
    }
  }

  lemma {:induction false} BytesOfLittleEndian(b: Bytes)
    ensures LittleEndianBytes(LittleEndian(b), |b|) == b
    decreases |b|
  {
    if b != [] {
      BytesOfLittleEndian(b[1..]);
      var v := LittleEndian(b);
      assert v / 256 == LittleEndian(b[1..]) && v % 256 == b[0];
      assert b == [b[0]] + b[1..];
    }
  }

  // ---------------------------------------------------------------------
  // Sequential field readers over a value slice
  // ---------------------------------------------------------------------

  /** `n` raw bytes, or a failure when fewer remain. */
  function ReadBytes(s: Bytes, n: nat): (r: Option<Read<Bytes>>)
    ensures r.Some? <==> n <= |s|
    ensures r.Some? ==> |r.value.value| == n && r.value.value + r.value.rest == s
  {
    if n <= |s| then Some(Read(s[..n], s[n..])) else None
  }

  /** A field read from the front of its own bytes gives those bytes and
      leaves what follows. */
  lemma ReadPrefix(p: Bytes, rest: Bytes)
    ensures ReadBytes(p + rest, |p|) == Some(Read(p, rest))
  {
    assert (p + rest)[..|p|] == p && (p + rest)[|p|..] == rest;
  }

  /** An `n`-byte big-endian unsigned field. */
  function ReadUnsigned(s: Bytes, n: nat): (r: Option<Read<nat>>)
    ensures r.Some? <==> n <= |s|
    ensures r.Some? ==> r.value.value < Pow256(n) && r.value.rest == s[n..]
  {
    var b :- ReadBytes(s, n);
    Some(Read(BigEndian(b.value), b.rest))
  }

  lemma ReadUnsignedOfEncoding(v: nat, n: nat, rest: Bytes)
    requires v < Pow256(n)
    ensures ReadUnsigned(BigEndianBytes(v, n) + rest, n) == Some(Read(v, rest))
  {
    var s := BigEndianBytes(v, n) + rest;
    assert s[..n] == BigEndianBytes(v, n);
    BigEndianOfBytes(v, n);
  }

  lemma EncodingOfReadUnsigned(s: Bytes, n: nat)
    requires ReadUnsigned(s, n).Some?
    ensures BigEndianBytes(ReadUnsigned(s, n).value.value, n) + ReadUnsigned(s, n).value.rest == s
  {
    BytesOfBigEndian(s[..n]);
    assert s == s[..n] + s[n..];
  }

  const TwoTo63: int := 0x8000_0000_0000_0000

  /** A signed 64-bit big-endian field, in two's complement. */
  function ReadS64(s: Bytes): (r: Option<Read<int>>)
    ensures r.Some? <==> 8 <= |s|
    ensures r.Some? ==> -TwoTo63 <= r.value.value < TwoTo63 && r.value.rest == s[8..]
  {
    Pow256Values();
    var u :- ReadUnsigned(s, 8);
    Some(Read(if u.value >= TwoTo63 then u.value - 2 * TwoTo63 else u.value, u.rest))
  }

  function S64Bytes(v: int): (r: Bytes)
    requires -TwoTo63 <= v < TwoTo63
    ensures |r| == 8
  {
    BigEndianBytes(if v < 0 then v + 2 * TwoTo63 else v, 8)
  }

  lemma ReadS64OfEncoding(v: int, rest: Bytes)
    requires -TwoTo63 <= v < TwoTo63
    ensures ReadS64(S64Bytes(v) + rest) == Some(Read(v, rest))
  {
    Pow256Values();
    ReadUnsignedOfEncoding(if v < 0 then v + 2 * TwoTo63 else v, 8, rest);
  }

  lemma EncodingOfReadS64(s: Bytes)
    requires ReadS64(s).Some?
    ensures S64Bytes(ReadS64(s).value.value) + ReadS64(s).value.rest == s
  {
    Pow256Values();
    EncodingOfReadUnsigned(s, 8);
  }

  /** A string preceded by its 16-bit big-endian length. */
  function ReadPascal16(s: Bytes): (r: Option<Read<Bytes>>)
    ensures r.Some? ==> |r.value.value| < 0x1_0000 && |s| == 2 + |r.value.value| + |r.value.rest|
  {
    Pow256Values();
    var len :- ReadUnsigned(s, 2);
    ReadBytes(len.rest, len.value)
  }

  function Pascal16Bytes(t: Bytes): (r: Bytes)
    requires |t| < 0x1_0000
    ensures |r| == 2 + |t|
  {
    BigEndianBytes(|t|, 2) + t
  }

  lemma ReadPascal16OfEncoding(t: Bytes, rest: Bytes)
    requires |t| < 0x1_0000
    ensures ReadPascal16(Pascal16Bytes(t) + rest) == Some(Read(t, rest))
  {
    Pow256Values();
    assert Pascal16Bytes(t) + rest == BigEndianBytes(|t|, 2) + (t + rest);
    ReadUnsignedOfEncoding(|t|, 2, t + rest);
    assert (t + rest)[..|t|] == t;
  }

  lemma EncodingOfReadPascal16(s: Bytes)
    requires ReadPascal16(s).Some?
    ensures Pascal16Bytes(ReadPascal16(s).value.value) + ReadPascal16(s).value.rest == s
  {
    Pow256Values();
    EncodingOfReadUnsigned(s, 2);
    var r := ReadPascal16(s).value;
    assert BigEndianBytes(|r.value|, 2) + (r.value + r.rest) == s;
  }

  // ---------------------------------------------------------------------
  // Presence-flagged strings
  // ---------------------------------------------------------------------

  /** A one-byte presence flag and the 16-bit length-prefixed string that
      follows it only when the flag is exactly 1. */
  datatype Flagged = Flagged(flag: nat, text: Option<Bytes>)

  predicate ValidFlagged(x: Flagged) {
    && x.flag < 256
    && (x.text.Some? <==> x.flag == 1)
    && (x.text.Some? ==> |x.text.value| < 0x1_0000)
  }

  function ReadFlagged(s: Bytes): (r: Option<Read<Flagged>>)
    ensures r.Some? ==> ValidFlagged(r.value.value)
  {
    Pow256Values();
    var flag :- ReadUnsigned(s, 1);
    if flag.value == 1 then
      var text :- ReadPascal16(flag.rest);
      Some(Read(Flagged(1, Some(text.value)), text.rest))
    else
      Some(Read(Flagged(flag.value, None), flag.rest))
  }

  function FlaggedBytes(x: Flagged): (r: Bytes)
    requires ValidFlagged(x)
    ensures |r| == FlaggedSize(x)
  {
    [x.flag] + (if x.text.Some? then Pascal16Bytes(x.text.value) else [])
  }

  /** One flag byte, and the prefixed string when the flag is 1. */
  function FlaggedSize(x: Flagged): nat {
    1 + (if x.text.Some? then 2 + |x.text.value| else 0)
  }

  lemma ReadFlaggedOfEncoding(x: Flagged, rest: Bytes)
    requires ValidFlagged(x)
    ensures ReadFlagged(FlaggedBytes(x) + rest) == Some(Read(x, rest))
  {
    Pow256Values();
    var tail := (if x.text.Some? then Pascal16Bytes(x.text.value) else []) + rest;
    assert FlaggedBytes(x) + rest == BigEndianBytes(x.flag, 1) + tail;
    ReadUnsignedOfEncoding(x.flag, 1, tail);
    if x.text.Some? {
      ReadPascal16OfEncoding(x.text.value, rest);
    }
  }

  lemma EncodingOfReadFlagged(s: Bytes)
    requires ReadFlagged(s).Some?
    ensures FlaggedBytes(ReadFlagged(s).value.value) + ReadFlagged(s).value.rest == s
  {
    Pow256Values();
    EncodingOfReadUnsigned(s, 1);
    var flag := ReadUnsigned(s, 1).value;
    if flag.value == 1 {
      EncodingOfReadPascal16(flag.rest);
    }
  }

  /** How both tools render a flagged string: `text if flag else ''`. A zero
      flag gives the empty string; a flag of 1 gives the text; any other flag
      is truthy although no text was read, which gives `None`. */
  function FlaggedCell(x: Flagged): (r: Cell)
    requires ValidFlagged(x)
    ensures x.flag == 0 ==> r == Str([])
    ensures x.flag == 1 ==> r == Str(x.text.value)
    ensures x.flag != 0 && x.flag != 1 ==> r == Null
  {
    if x.flag == 0 then Str([])
    else match x.text
      case Some(t) => Str(t)
      case None => Null
  }
}
