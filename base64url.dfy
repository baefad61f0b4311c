/** Base 64 over the URL- and filename-safe alphabet (section 5 of RFC 4648), in
    the two configurations the code uses from the `base64` crate:
    `URL_SAFE_NO_PAD`, which writes no padding and rejects padding, and
    `URL_SAFE`, which writes padding (section 3.2 of RFC 4648) and accepts only
    canonically padded input. Both decoders reject a final symbol whose unused
    low bits are not zero, so every accepted text is the encoding of what it
    decodes to. */
module Base64Url {
  import opened Prelude

  /** The symbol for the 6-bit value `v` (table 2 of RFC 4648). */
  function Symbol(v: nat): (c: char)
    requires v < 64
    ensures IsSymbol(c)
  {
    if v < 26 then (65 + v) as char
    else if v < 52 then (97 + v - 26) as char
    else if v < 62 then (48 + v - 52) as char
    else if v == 62 then '-'
    else '_'
  }

  predicate IsSymbol(c: char) {
    ('A' <= c <= 'Z') || ('a' <= c <= 'z') || ('0' <= c <= '9') || c == '-' || c == '_'
  }

  /** The 6-bit value of a symbol. */
  function ValueOf(c: char): (v: nat)
    requires IsSymbol(c)
    ensures v < 64 && Symbol(v) == c
  {
    if 'A' <= c <= 'Z' then c as int - 65
    else if 'a' <= c <= 'z' then c as int - 97 + 26
    else if '0' <= c <= '9' then c as int - 48 + 52
    else if c == '-' then 62
    else 63
  }

  lemma ValueOfSymbol(v: nat)
    requires v < 64
    ensures ValueOf(Symbol(v)) == v
  {
  }

  /** Whether every character of `s` belongs to the alphabet. */
  predicate AllSymbols(s: string) {
    forall i :: 0 <= i < |s| ==> IsSymbol(s[i])
  }

  /** The symbols for one group of one to three bytes: four for three bytes,
      and for a shorter final group only the symbols that carry its bits, the
      missing bytes counting as zero. */
  function EncodeGroup(g: seq<byte>): (q: string)
    requires 1 <= |g| <= 3
    ensures |q| == |g| + 1 && AllSymbols(q)
  {
    var b0, b1, b2 := g[0], if |g| > 1 then g[1] else 0, if |g| > 2 then g[2] else 0;
    [Symbol(b0 / 4), Symbol(b0 % 4 * 16 + b1 / 16), Symbol(b1 % 16 * 4 + b2 / 64), Symbol(b2 % 64)][..|g| + 1]
  }

  /** `URL_SAFE_NO_PAD.encode`: four symbols per three bytes, then two symbols
      for a final single byte or three for a final pair. */
  function EncodeNoPad(b: seq<byte>): (s: string)
    ensures |s| == (4 * |b| + 2) / 3
    ensures AllSymbols(s)
    decreases |b|
  {
    if |b| == 0 then []
    else if |b| <= 3 then EncodeGroup(b)
    else EncodeGroup(b[..3]) + EncodeNoPad(b[3..])
  }

  /** The three bytes that four 6-bit values stand for. */
  function Unpack(v0: nat, v1: nat, v2: nat, v3: nat): (b: seq<byte>)
    requires v0 < 64 && v1 < 64 && v2 < 64 && v3 < 64
    ensures |b| == 3
  {
    [v0 * 4 + v1 / 16, v1 % 16 * 16 + v2 / 4, v2 % 4 * 64 + v3]
  }

  /** The bytes of one group of two to four symbols, or `None` when a character
      is outside the alphabet or the unused low bits of a short group's last
      symbol are not zero. */
  function DecodeGroup(q: string): (r: Option<seq<byte>>)
    requires 2 <= |q| <= 4
    ensures r.Some? ==> |r.value| == |q| - 1
  {
    if !AllSymbols(q) then None
    else
      var v0, v1 := ValueOf(q[0]), ValueOf(q[1]);
      var v2, v3 := if |q| > 2 then ValueOf(q[2]) else 0, if |q| > 3 then ValueOf(q[3]) else 0;
      if (|q| == 2 && v1 % 16 != 0) || (|q| == 3 && v2 % 4 != 0) then None
      else Some(Unpack(v0, v1, v2, v3)[..|q| - 1])
  }

  /** `URL_SAFE_NO_PAD.decode`: `None` for a character outside the alphabet
      (padding included), a length of the form 4k + 1, or non-zero unused bits
      in the last symbol. */
  function DecodeNoPad(s: string): (r: Option<seq<byte>>)
    ensures r.Some? ==> |s| % 4 != 1 && |r.value| == 3 * |s| / 4
    decreases |s|
  {
    if |s| == 0 then Some([])
    else if |s| == 1 then None
    else if |s| <= 4 then DecodeGroup(s)
    else match (DecodeGroup(s[..4]), DecodeNoPad(s[4..]))
      case (Some(head), Some(rest)) => QuadStep(|s| - 4); Some(head + rest)
      case _ => None
  }

  /** Four more symbols carry three more bytes. */
  lemma QuadStep(n: nat)
    ensures 3 * (n + 4) / 4 == 3 + 3 * n / 4 && (n + 4) % 4 == n % 4
  {
  }

  /** The padding `URL_SAFE` appends after the symbols of `n` bytes. */
  function Padding(n: nat): string
  {
    if n % 3 == 0 then "" else if n % 3 == 1 then "==" else "="
  }

  /** The padding takes the symbols of `n` bytes to a multiple of four. */
  lemma PaddingCompletesQuad(n: nat)
    ensures ((4 * n + 2) / 3 + |Padding(n)|) % 4 == 0
  {
    var q := n / 3;
    if n % 3 == 0 {
      assert n == 3 * q && (4 * n + 2) / 3 == 4 * q;
    } else if n % 3 == 1 {
      assert n == 3 * q + 1 && (4 * n + 2) / 3 == 4 * q + 2;
    } else {
      assert n == 3 * q + 2 && (4 * n + 2) / 3 == 4 * q + 3;
    }
  }

  /** `URL_SAFE.encode`. */
  function EncodePadded(b: seq<byte>): (s: string)
    ensures |s| % 4 == 0
  {
    PaddingCompletesQuad(|b|);
    EncodeNoPad(b) + Padding(|b|)
  }

  /** `URL_SAFE.decode` with canonical padding: the length must be a multiple
      of four, and the one or two `=` at the end are removed before the symbols
      are decoded as without padding. */
  function DecodePadded(s: string): (r: Option<seq<byte>>)
    ensures r.Some? ==> |s| % 4 == 0
  {
    if |s| % 4 != 0 then None
    else if |s| >= 2 && s[|s| - 1] == '=' && s[|s| - 2] == '=' then DecodeNoPad(s[..|s| - 2])
    else if |s| >= 1 && s[|s| - 1] == '=' then DecodeNoPad(s[..|s| - 1])
    else DecodeNoPad(s)
  }

  // ---------------------------------------------------------------------------
  // Round trips

  /** The 6-bit values of three bytes unpack to those bytes. */
  lemma UnpackPacked(b0: byte, b1: byte, b2: byte)
    ensures b0 / 4 < 64 && b0 % 4 * 16 + b1 / 16 < 64 && b1 % 16 * 4 + b2 / 64 < 64
    ensures Unpack(b0 / 4, b0 % 4 * 16 + b1 / 16, b1 % 16 * 4 + b2 / 64, b2 % 64) == [b0, b1, b2]
  {
    var x1, x2 := b0 % 4 * 16 + b1 / 16, b1 % 16 * 4 + b2 / 64;
    assert x1 / 16 == b0 % 4 && x1 % 16 == b1 / 16;
    assert x2 / 4 == b1 % 16 && x2 % 4 == b2 / 64;
  }

  /** Four 6-bit values are the values of the bytes they unpack to; zero
      unused bits give zero bytes. */
  lemma PackedUnpack(v0: nat, v1: nat, v2: nat, v3: nat)
    requires v0 < 64 && v1 < 64 && v2 < 64 && v3 < 64
    ensures var u := Unpack(v0, v1, v2, v3);
      u[0] / 4 == v0 && u[0] % 4 * 16 + u[1] / 16 == v1 &&
      u[1] % 16 * 4 + u[2] / 64 == v2 && u[2] % 64 == v3
    ensures v1 % 16 == 0 && v2 == 0 ==> Unpack(v0, v1, v2, v3)[1] == 0
    ensures v2 % 4 == 0 && v3 == 0 ==> Unpack(v0, v1, v2, v3)[2] == 0
  {
    var u0, u1, u2 := v0 * 4 + v1 / 16, v1 % 16 * 16 + v2 / 4, v2 % 4 * 64 + v3;
    assert u0 / 4 == v0 && u0 % 4 == v1 / 16;
    assert u1 / 16 == v1 % 16 && u1 % 16 == v2 / 4;
    assert u2 / 64 == v2 % 4 && u2 % 64 == v3;
  }

  /** One group survives encoding and decoding. */
  lemma DecodeEncodeGroup(g: seq<byte>)
    requires 1 <= |g| <= 3
    ensures DecodeGroup(EncodeGroup(g)) == Some(g)
  {
    var b0, b1, b2 := g[0], if |g| > 1 then g[1] else 0, if |g| > 2 then g[2] else 0;
    UnpackPacked(b0, b1, b2);
    var x0, x1, x2, x3 := b0 / 4, b0 % 4 * 16 + b1 / 16, b1 % 16 * 4 + b2 / 64, b2 % 64;
    var q := EncodeGroup(g);
    assert q == [Symbol(x0), Symbol(x1), Symbol(x2), Symbol(x3)][..|g| + 1];
    ValueOfSymbol(x0);
    ValueOfSymbol(x1);
    ValueOfSymbol(x2);
    ValueOfSymbol(x3);
    assert ValueOf(q[0]) == x0 && ValueOf(q[1]) == x1;
    assert |q| > 2 ==> ValueOf(q[2]) == x2;
    assert |q| > 3 ==> ValueOf(q[3]) == x3;
    assert |g| == 1 ==> x1 % 16 == 0 && x2 == 0;
    assert |g| == 2 ==> x2 % 4 == 0 && x3 == 0;
    assert [b0, b1, b2][..|g|] == g;
  }

  /** Decoding one group is canonical: an accepted group is the encoding of the
      bytes it yields. */
  lemma EncodeDecodeGroup(q: string)
    requires 2 <= |q| <= 4 && DecodeGroup(q).Some?
    ensures EncodeGroup(DecodeGroup(q).value) == q
  {
    var v0, v1 := ValueOf(q[0]), ValueOf(q[1]);
    var v2, v3 := if |q| > 2 then ValueOf(q[2]) else 0, if |q| > 3 then ValueOf(q[3]) else 0;
    PackedUnpack(v0, v1, v2, v3);
    var u := Unpack(v0, v1, v2, v3);
    var g := DecodeGroup(q).value;
    assert g == u[..|q| - 1];
    var b0, b1, b2 := g[0], if |g| > 1 then g[1] else 0, if |g| > 2 then g[2] else 0;
    assert b0 == u[0] && b1 == u[1] && b2 == u[2];
    var e := EncodeGroup(g);
    assert e[0] == q[0] && e[1] == q[1];
    assert |q| > 2 ==> e[2] == q[2];
    assert |q| > 3 ==> e[3] == q[3];
  }

  /** Decoding undoes encoding without padding. */
  lemma {:induction false} DecodeEncodeNoPad(b: seq<byte>)
    ensures DecodeNoPad(EncodeNoPad(b)) == Some(b)
    decreases |b|
  {
    if 1 <= |b| <= 3 {
      DecodeEncodeGroup(b);
    } else if |b| > 3 {
      var s := EncodeNoPad(b);
      var q := EncodeGroup(b[..3]);
      assert s == q + EncodeNoPad(b[3..]);
      assert s[..4] == q && s[4..] == EncodeNoPad(b[3..]);
      DecodeEncodeGroup(b[..3]);
      DecodeEncodeNoPad(b[3..]);
      assert b == b[..3] + b[3..];
    }
  }

  /** Decoding without padding is canonical: an accepted text is exactly the
      encoding of the bytes it yields. */
  lemma {:induction false} EncodeDecodeNoPad(s: string)
    requires DecodeNoPad(s).Some?
    ensures EncodeNoPad(DecodeNoPad(s).value) == s
    decreases |s|
  {
    if 2 <= |s| <= 4 {
      EncodeDecodeGroup(s);
    } else if |s| > 4 {
      var head := DecodeGroup(s[..4]).value;
      var rest := DecodeNoPad(s[4..]).value;
      var b := head + rest;
      assert DecodeNoPad(s).value == b;
      EncodeDecodeGroup(s[..4]);
      EncodeDecodeNoPad(s[4..]);
      assert b[..3] == head && b[3..] == rest;
      assert EncodeNoPad(b) == s[..4] + s[4..];
      assert s[..4] + s[4..] == s;
    }
  }

  /** Decoding with padding undoes encoding with padding. */
  lemma DecodeEncodePadded(b: seq<byte>)
    ensures DecodePadded(EncodePadded(b)) == Some(b)
  {
    var e := EncodeNoPad(b);
    var s := EncodePadded(b);
    assert |s| % 4 == 0;
    if |b| % 3 == 1 {
      assert s == e + "==";
      assert s[..|s| - 2] == e;
      assert DecodePadded(s) == DecodeNoPad(e);
    } else if |b| % 3 == 2 {
      assert s == e + "=";
      assert s[|s| - 2] == e[|e| - 1];
      assert IsSymbol(e[|e| - 1]);
      assert s[..|s| - 1] == e;
      assert DecodePadded(s) == DecodeNoPad(e);
    } else {
      assert s == e;
      assert |e| > 0 ==> IsSymbol(e[|e| - 1]);
      assert DecodePadded(s) == DecodeNoPad(e);
    }
    DecodeEncodeNoPad(b);
  }

  /** Decoding with padding is canonical: an accepted text is exactly the
      padded encoding of the bytes it yields. */
  lemma EncodeDecodePadded(s: string)
    requires DecodePadded(s).Some?
    ensures EncodePadded(DecodePadded(s).value) == s
  {
    var n := |s|;
    if n >= 2 && s[n - 1] == '=' && s[n - 2] == '=' {
      assert DecodePadded(s) == DecodeNoPad(s[..n - 2]);
      PaddedBranch(s, "==");
    } else if n >= 1 && s[n - 1] == '=' {
      assert DecodePadded(s) == DecodeNoPad(s[..n - 1]);
      PaddedBranch(s, "=");
    } else {
      assert s[..n] == s;
      PaddedBranch(s, "");
    }
  }

  /** `EncodeDecodePadded` for a text that ends in exactly the padding `pad`. */
  lemma PaddedBranch(s: string, pad: string)
    requires pad == "==" || pad == "=" || pad == ""
    requires |pad| <= |s| && forall i :: 0 <= i < |pad| ==> s[|s| - |pad| + i] == pad[i]
    requires DecodePadded(s) == DecodeNoPad(s[..|s| - |pad|]) && DecodePadded(s).Some?
    ensures EncodePadded(DecodePadded(s).value) == s
  {
    DropSuffix(s, pad);
    PaddedCase(s[..|s| - |pad|], pad);
  }

  lemma DropSuffix(s: string, pad: string)
    requires |pad| <= |s| && forall i :: 0 <= i < |pad| ==> s[|s| - |pad| + i] == pad[i]
    ensures s == s[..|s| - |pad|] + pad
  {
    assert s[|s| - |pad|..] == pad;
  }

  /** `EncodeDecodePadded` once the padding `pad` is cut off the text `e`. */
  lemma PaddedCase(e: string, pad: string)
    requires pad == "==" || pad == "=" || pad == ""
    requires (|e| + |pad|) % 4 == 0 && DecodeNoPad(e).Some?
    ensures EncodePadded(DecodeNoPad(e).value) == e + pad
  {
    var b := DecodeNoPad(e).value;
    EncodeDecodeNoPad(e);
    PaddedFromParts(b, e, pad);
  }

  lemma PaddedFromParts(b: seq<byte>, e: string, pad: string)
    requires pad == "==" || pad == "=" || pad == ""
    requires (|e| + |pad|) % 4 == 0 && |b| == 3 * |e| / 4
    requires EncodeNoPad(b) == e
    ensures EncodePadded(b) == e + pad
  {
    PaddingOfDecoded(|e|, pad);
  }

  /** The padding written after the bytes of `n` symbols is as long as the
      padding that took them to a multiple of four. */
  lemma PaddingOfDecoded(n: nat, pad: string)
    requires pad == "==" || pad == "=" || pad == ""
    requires (n + |pad|) % 4 == 0
    ensures Padding(3 * n / 4) == pad
  {
    var q := n / 4;
    if pad == "" {
      assert n == 4 * q;
      assert 3 * n / 4 == 3 * q;
    } else if pad == "=" {
      assert n == 4 * q + 3;
      assert 3 * n / 4 == 3 * q + 2;
    } else {
      assert n == 4 * q + 2;
      assert 3 * n / 4 == 3 * q + 1;
    }
  }

  /** The padded decoder rejects the unpadded encoding of any length that needs
      padding; in particular a 32-byte key written by `URL_SAFE_NO_PAD`. */
  lemma PaddedRejectsUnpadded(b: seq<byte>)
    requires |b| % 3 != 0
    ensures DecodePadded(EncodeNoPad(b)) == None
  {
    UnpaddedLength(|b|);
    PaddedNeedsWholeQuads(EncodeNoPad(b));
  }

  lemma PaddedNeedsWholeQuads(s: string)
    requires |s| % 4 != 0
    ensures DecodePadded(s) == None
  {
  }

  lemma UnpaddedLength(n: nat)
    ensures n % 3 == 0 <==> ((4 * n + 2) / 3) % 4 == 0
  {
    var k := n / 3;
    assert n == 3 * k + n % 3;
    assert (4 * n + 2) / 3 == 4 * k + (if n % 3 == 0 then 0 else if n % 3 == 1 then 2 else 3);
  }

  /** The unpadded decoder rejects padded text whenever padding was written. */
  lemma {:induction false} UnpaddedRejectsPadding(s: string)
    requires |s| > 0 && s[|s| - 1] == '='
    ensures DecodeNoPad(s) == None
    decreases |s|
  {
    if |s| > 4 && AllSymbols(s[..4]) {
      UnpaddedRejectsPadding(s[4..]);
    } else if |s| <= 4 {
      assert !IsSymbol(s[|s| - 1]);
    }
  }

  // ---------------------------------------------------------------------------
  // The alphabet in a token

  /** The encodings contain no `:`, so they cannot contain the token separator;
      the unpadded one contains no `=` either. */
  lemma EncodingsAvoidSeparator(b: seq<byte>)
    ensures ':' !in EncodeNoPad(b) && '=' !in EncodeNoPad(b)
    ensures ':' !in EncodePadded(b)
  {
    var s := EncodeNoPad(b);
    forall i | 0 <= i < |s|
      ensures s[i] != ':' && s[i] != '='
    {
      assert IsSymbol(s[i]);
    }
    var p := EncodePadded(b);
    forall i | 0 <= i < |p|
      ensures p[i] != ':'
    {
      if i >= |s| {
        assert p[i] == Padding(|b|)[i - |s|];
      } else {
        assert p[i] == s[i];
      }
    }
  }

  /** A 32-byte key is written as 43 symbols without padding, and as 44
      characters ending in one `=` with it. */
  lemma KeyTextLength(b: seq<byte>)
    requires |b| == 32
    ensures |EncodeNoPad(b)| == 43
    ensures EncodePadded(b) == EncodeNoPad(b) + "="
  {
  }
}
