/** UTF-8 as Rust's `str` uses it (RFC 3629, section 4): `as_bytes` encodes,
    `String::from_utf8` decodes or rejects, `String::from_utf8_lossy` decodes and
    replaces every ill-formed part with U+FFFD. Dafny's `char` is a Unicode scalar
    value, so a `string` here is exactly what a Rust `String` may hold. */
module Utf8 {
  import opened Prelude

  const Replacement: char := '\U{FFFD}'

  /** Number of bytes in the sequence that `lead` starts: 1 to 4, or 0 for a byte
      that can never start one (a continuation byte, 0xC0, 0xC1, 0xF5 to 0xFF). */
  function Width(lead: byte): (w: nat)
    ensures w <= 4
  {
    if lead < 0x80 then 1
    else if 0xC2 <= lead <= 0xDF then 2
    else if 0xE0 <= lead <= 0xEF then 3
    else if 0xF0 <= lead <= 0xF4 then 4
    else 0
  }

  predicate IsContinuation(x: byte) {
    0x80 <= x <= 0xBF
  }

  /** The range of the byte after `lead`: narrower than the continuation range
      after 0xE0, 0xED, 0xF0 and 0xF4, which rules out overlong forms, surrogates
      and values above U+10FFFF. */
  predicate SecondOk(lead: byte, x: byte) {
    if lead == 0xE0 then 0xA0 <= x <= 0xBF
    else if lead == 0xED then 0x80 <= x <= 0x9F
    else if lead == 0xF0 then 0x90 <= x <= 0xBF
    else if lead == 0xF4 then 0x80 <= x <= 0x8F
    else IsContinuation(x)
  }

  /** Whether `b` begins with one well-formed encoded scalar value. */
  predicate StartsWellFormed(b: seq<byte>) {
    && |b| > 0
    && var w := Width(b[0]);
    && w > 0
    && |b| >= w
    && (w >= 2 ==> SecondOk(b[0], b[1]))
    && (w >= 3 ==> IsContinuation(b[2]))
    && (w >= 4 ==> IsContinuation(b[3]))
  }

  /** The scalar value that a well-formed prefix of `b` encodes. */
  function ScalarValue(b: seq<byte>): (n: int)
    requires StartsWellFormed(b)
    ensures 0 <= n < 0xD800 || 0xE000 <= n < 0x11_0000
    ensures Width(b[0]) == 1 <==> n < 0x80
    ensures Width(b[0]) == 2 <==> 0x80 <= n < 0x800
    ensures Width(b[0]) == 3 <==> 0x800 <= n < 0x1_0000
    ensures Width(b[0]) == 4 <==> 0x1_0000 <= n
  {
    var w := Width(b[0]);
    var b0: int := b[0];
    if w == 1 then b0
    else if w == 2 then (b0 - 0xC0) * 64 + (b[1] - 0x80)
    else if w == 3 then (b0 - 0xE0) * 4096 + (b[1] as int - 0x80) * 64 + (b[2] - 0x80)
    else (b0 - 0xF0) * 262144 + (b[1] as int - 0x80) * 4096 + (b[2] as int - 0x80) * 64 + (b[3] - 0x80)
  }

  /** How many bytes the first item of `b` takes when `b` is read as UTF-8: the
      width of a well-formed sequence, or else the length of the longest prefix
      that could still begin one (at least 1). Rust's `Utf8Chunks` cuts an
      ill-formed part at exactly this length. */
  function ItemLength(b: seq<byte>): (n: nat)
    requires |b| > 0
    ensures 1 <= n <= |b|
    ensures StartsWellFormed(b) ==> n == Width(b[0])
  {
    var w := Width(b[0]);
    if w < 2 || |b| < 2 || !SecondOk(b[0], b[1]) then 1
    else if w == 2 || |b| < 3 || !IsContinuation(b[2]) then 2
    else if w == 3 || |b| < 4 || !IsContinuation(b[3]) then 3
    else 4
  }

  /** The encoding of one scalar value (RFC 3629, section 3). */
  function EncodeChar(c: char): (b: seq<byte>)
    ensures 1 <= |b| <= 4
  {
    var n := c as int;
    if n < 0x80 then [n]
    else if n < 0x800 then [0xC0 + n / 64, 0x80 + n % 64]
    else if n < 0x1_0000 then [0xE0 + n / 4096, 0x80 + (n / 64) % 64, 0x80 + n % 64]
    else [0xF0 + n / 262144, 0x80 + (n / 4096) % 64, 0x80 + (n / 64) % 64, 0x80 + n % 64]
  }

  /** `str::as_bytes`. */
  function Encode(s: string): (b: seq<byte>)
    ensures |b| >= |s|
  {
    if s == [] then [] else EncodeChar(s[0]) + Encode(s[1..])
  }

  /** `String::from_utf8`: the text, or `None` when `b` is not well-formed. */
  function Decode(b: seq<byte>): (r: Option<string>)
    ensures r.Some? ==> |r.value| <= |b|
    decreases |b|
  {
    if |b| == 0 then Some([])
    else if !StartsWellFormed(b) then None
    else match Decode(b[Width(b[0])..])
      case None => None
      case Some(rest) => Some([ScalarValue(b) as char] + rest)
  }

  /** `String::from_utf8_lossy`: every ill-formed part becomes one U+FFFD. */
  function DecodeLossy(b: seq<byte>): (s: string)
    ensures |s| <= |b|
    decreases |b|
  {
    if |b| == 0 then []
    else if StartsWellFormed(b) then [ScalarValue(b) as char] + DecodeLossy(b[Width(b[0])..])
    else [Replacement] + DecodeLossy(b[ItemLength(b)..])
  }

  // ---------------------------------------------------------------------------
  // One scalar value

  lemma Digits2(n: int)
    requires 0x80 <= n < 0x800
    ensures n == (n / 64) * 64 + n % 64
    ensures 2 <= n / 64 <= 31
  {
  }

  lemma Digits3(n: int)
    requires 0x800 <= n < 0x1_0000
    ensures n == (n / 4096) * 4096 + ((n / 64) % 64) * 64 + n % 64
    ensures n / 4096 <= 15
    ensures n / 4096 == 0 ==> 32 <= (n / 64) % 64
    ensures n / 4096 == 13 && n < 0xD800 ==> (n / 64) % 64 <= 31
  {
    var q := n / 64;
    assert n == q * 64 + n % 64;
    assert q == (q / 64) * 64 + q % 64;
    assert q / 64 == n / 4096;
  }

  lemma Digits4(n: int)
    requires 0x1_0000 <= n < 0x11_0000
    ensures n == (n / 262144) * 262144 + ((n / 4096) % 64) * 4096 + ((n / 64) % 64) * 64 + n % 64
    ensures 1 <= n / 262144 || 16 <= (n / 4096) % 64
    ensures n / 262144 <= 4
    ensures n / 262144 == 4 ==> (n / 4096) % 64 <= 15
  {
    var q := n / 64;
    var q2 := q / 64;
    assert n == q * 64 + n % 64;
    assert q == q2 * 64 + q % 64;
    assert q2 == (q2 / 64) * 64 + q2 % 64;
    assert q2 == n / 4096;
    assert q2 / 64 == n / 262144;
  }

  /** The encoding of `c` is well-formed, takes `Width` bytes and decodes to `c`,
      whatever follows it. */
  lemma EncodeCharDecodes(c: char, rest: seq<byte>)
    ensures StartsWellFormed(EncodeChar(c) + rest)
    ensures Width(EncodeChar(c)[0]) == |EncodeChar(c)|
    ensures ScalarValue(EncodeChar(c) + rest) == c as int
  {
    var n := c as int;
    var b := EncodeChar(c) + rest;
    if n < 0x80 {
    } else if n < 0x800 {
      Digits2(n);
    } else if n < 0x1_0000 {
      Digits3(n);
    } else {
      Digits4(n);
    }
  }

  lemma Pack2(a: int, x: int)
    requires 2 <= a < 32 && 0 <= x < 64
    ensures var n := a * 64 + x; n / 64 == a && n % 64 == x
  {
  }

  lemma Pack3(a: int, x: int, y: int)
    requires 0 <= a && 0 <= x < 64 && 0 <= y < 64
    ensures var n := a * 4096 + x * 64 + y;
      n / 64 == a * 64 + x && n % 64 == y && n / 4096 == a && (n / 64) % 64 == x
  {
    var n := a * 4096 + x * 64 + y;
    assert n == (a * 64 + x) * 64 + y;
    assert n / 64 == a * 64 + x;
  }

  lemma Pack4(a: int, x: int, y: int, z: int)
    requires 0 <= a < 8 && 0 <= x < 64 && 0 <= y < 64 && 0 <= z < 64
    ensures var n := a * 262144 + x * 4096 + y * 64 + z;
      n / 262144 == a && (n / 4096) % 64 == x && (n / 64) % 64 == y && n % 64 == z
  {
    var n := a * 262144 + x * 4096 + y * 64 + z;
    Pack3(a * 64 + x, y, z);
    assert n == a * 262144 + (x * 4096 + y * 64 + z);
  }

  /** A well-formed prefix is the encoding of the scalar value it decodes to. */
  lemma DecodedCharEncodes(b: seq<byte>)
    requires StartsWellFormed(b)
    ensures EncodeChar(ScalarValue(b) as char) == b[..Width(b[0])]
  {
    var w := Width(b[0]);
    if w == 2 {
      Pack2(b[0] - 0xC0, b[1] - 0x80);
    } else if w == 3 {
      Pack3(b[0] - 0xE0, b[1] - 0x80, b[2] - 0x80);
    } else if w == 4 {
      Pack4(b[0] - 0xF0, b[1] - 0x80, b[2] - 0x80, b[3] - 0x80);
    }
  }

  // ---------------------------------------------------------------------------
  // Whole texts

  /** Decoding undoes `as_bytes`: every string survives the trip through bytes. */
  lemma {:induction false} DecodeEncode(s: string)
    ensures Decode(Encode(s)) == Some(s)
  {
    if s != [] {
      var head := EncodeChar(s[0]);
      var tail := Encode(s[1..]);
      EncodeCharDecodes(s[0], tail);
      assert Encode(s) == head + tail;
      assert (head + tail)[|head|..] == tail;
      DecodeEncode(s[1..]);
      assert [s[0]] + s[1..] == s;
    }
  }

  /** Decoding is exact: a text that `from_utf8` accepts is the only one whose
      bytes are `b`. */
  lemma {:induction false} EncodeDecode(b: seq<byte>)
    requires Decode(b).Some?
    ensures Encode(Decode(b).value) == b
    decreases |b|
  {
    if |b| > 0 {
      EncodeDecode(b[Width(b[0])..]);
      EncodeDecodeStep(b);
    }
  }

  /** One step of `EncodeDecode`: if the rest re-encodes exactly, so does the
      whole. */
  lemma EncodeDecodeStep(b: seq<byte>)
    requires |b| > 0 && Decode(b).Some?
    requires Encode(Decode(b[Width(b[0])..]).value) == b[Width(b[0])..]
    ensures Encode(Decode(b).value) == b
  {
    var w := Width(b[0]);
    var c := ScalarValue(b) as char;
    var t := Decode(b[w..]).value;
    assert Decode(b) == Some([c] + t);
    EncodeCons(c, t);
    DecodedCharEncodes(b);
    SliceJoin(b, w);
  }

  lemma EncodeCons(c: char, t: string)
    ensures Encode([c] + t) == EncodeChar(c) + Encode(t)
  {
    assert ([c] + t)[0] == c && ([c] + t)[1..] == t;
  }

  lemma SliceJoin(b: seq<byte>, w: nat)
    requires w <= |b|
    ensures b[..w] + b[w..] == b
  {
  }

  /** `from_utf8_lossy` agrees with `from_utf8` on well-formed bytes. */
  lemma {:induction false} LossyAgrees(b: seq<byte>)
    requires Decode(b).Some?
    ensures DecodeLossy(b) == Decode(b).value
    decreases |b|
  {
    if |b| > 0 {
      LossyAgrees(b[Width(b[0])..]);
    }
  }

  /** `from_utf8_lossy` marks what `from_utf8` rejects: its result then holds a
      replacement character. */
  lemma {:induction false} LossyMarksRejected(b: seq<byte>)
    requires Decode(b).None?
    ensures Replacement in DecodeLossy(b)
    decreases |b|
  {
    if StartsWellFormed(b) {
      LossyMarksRejected(b[Width(b[0])..]);
      assert DecodeLossy(b) == [ScalarValue(b) as char] + DecodeLossy(b[Width(b[0])..]);
    } else {
      assert DecodeLossy(b)[0] == Replacement;
    }
  }

  /** The lossy conversion returns any text unchanged after `as_bytes`. */
  lemma LossyEncode(s: string)
    ensures DecodeLossy(Encode(s)) == s
  {
    DecodeEncode(s);
    LossyAgrees(Encode(s));
  }
}
