/** Percent coding of file paths, on bytes. */
module Uri {

  newtype Byte = x: int | 0 <= x < 0x100

  type Bytes = seq<Byte>

  const PERCENT: Byte := 0x25
  const PLUS: Byte := 0x2B
  const SLASH: Byte := 0x2F
  const SPACE: Byte := 0x20

  predicate IsDigit(b: Byte) {
    0x30 <= b <= 0x39
  }

  predicate IsUpper(b: Byte) {
    0x41 <= b <= 0x5A
  }

  predicate IsLower(b: Byte) {
    0x61 <= b <= 0x7A
  }

  /** Letters, digits and / . - _ ~ stand for themselves. */
  predicate Unreserved(b: Byte) {
    IsDigit(b) || IsUpper(b) || IsLower(b) || b == SLASH || b == 0x2E || b == 0x2D || b == 0x5F || b == 0x7E
  }

  /** The value of a hexadecimal digit of either case, or -1. */
  function FromHex(b: Byte): (v: int)
    ensures -1 <= v < 16
  {
    if IsDigit(b) then b as int - 0x30
    else if 0x61 <= b <= 0x66 then b as int - 0x61 + 10
    else if 0x41 <= b <= 0x46 then b as int - 0x41 + 10
    else -1
  }

  function HexDigit(v: int): (b: Byte)
    requires 0 <= v < 16
    ensures FromHex(b) == v && !IsLower(b)
  {
    if v < 10 then (0x30 + v) as Byte else (0x41 + v - 10) as Byte
  }

  function EncodeByte(b: Byte): Bytes {
    if Unreserved(b) then [b] else [PERCENT, HexDigit(b as int / 16), HexDigit(b as int % 16)]
  }

  function Encode(s: Bytes): Bytes {
    if s == [] then [] else EncodeByte(s[0]) + Encode(s[1..])
  }

  /** A percent sign with two digits after it. */
  predicate Escaped(s: Bytes) {
    |s| > 2 && s[0] == PERCENT && FromHex(s[1]) >= 0 && FromHex(s[2]) >= 0
  }

  function EscapedByte(s: Bytes): Byte
    requires Escaped(s)
  {
    (16 * FromHex(s[1]) + FromHex(s[2])) as Byte
  }

  function Decode(s: Bytes): Bytes {
    if s == [] then []
    else if Escaped(s) then [EscapedByte(s)] + Decode(s[3..])
    else [if s[0] == PLUS then SPACE else s[0]] + Decode(s[1..])
  }

  method PercentEncode(input: Bytes) returns (out: Bytes)
    ensures out == Encode(input)
  {
    out := [];
    for i := 0 to |input|
      invariant out + Encode(input[i..]) == Encode(input)
    {
      var ch := input[i];
      EncodeStep(out, input, i);
      if Unreserved(ch) {
        out := out + [ch];
      } else {
        out := out + [PERCENT, HexDigit(ch as int / 16), HexDigit(ch as int % 16)];
      }
    }
  }

  lemma EncodeStep(out: Bytes, input: Bytes, i: nat)
    requires i < |input|
    ensures out + Encode(input[i..]) == out + EncodeByte(input[i]) + Encode(input[i + 1..])
  {
    assert input[i..][1..] == input[i + 1..];
  }

  method PercentDecode(input: Bytes) returns (out: Bytes)
    ensures out == Decode(input)
  {
    out := [];
    var i := 0;
    while i < |input|
      invariant i <= |input|
      invariant out + Decode(input[i..]) == Decode(input)
    {
      DecodeStep(out, input, i);
      if input[i] == PERCENT && i + 2 < |input| {
        var hi, lo := FromHex(input[i + 1]), FromHex(input[i + 2]);
        if hi >= 0 && lo >= 0 {
          out := out + [(16 * hi + lo) as Byte];
          i := i + 3;
          continue;
        }
      }
      out := out + [if input[i] == PLUS then SPACE else input[i]];
      i := i + 1;
    }
  }

  lemma DecodeStep(out: Bytes, input: Bytes, i: nat)
    requires i < |input|
    ensures Escaped(input[i..]) ==>
              out + Decode(input[i..]) == out + [EscapedByte(input[i..])] + Decode(input[i + 3..])
    ensures !Escaped(input[i..]) ==>
              out + Decode(input[i..]) == out + [if input[i] == PLUS then SPACE else input[i]] + Decode(input[i + 1..])
  {
    assert input[i..][1..] == input[i + 1..];
    assert i + 3 <= |input| ==> input[i..][3..] == input[i + 3..];
  }

  // ----- which bytes mean what -----

  /** The sixteen digits in both cases. */
  const LOWER_DIGITS: Bytes :=
    [0x30, 0x31, 0x32, 0x33, 0x34, 0x35, 0x36, 0x37, 0x38, 0x39, 0x61, 0x62, 0x63, 0x64, 0x65, 0x66]
  const UPPER_DIGITS: Bytes :=
    [0x30, 0x31, 0x32, 0x33, 0x34, 0x35, 0x36, 0x37, 0x38, 0x39, 0x41, 0x42, 0x43, 0x44, 0x45, 0x46]

  predicate Digit(b: Byte, v: int) {
    0 <= v < 16 && (b == LOWER_DIGITS[v] || b == UPPER_DIGITS[v])
  }

  lemma DigitExactly(b: Byte)
    ensures forall v :: Digit(b, v) <==> v >= 0 && FromHex(b) == v
  {
    forall v ensures Digit(b, v) <==> v >= 0 && FromHex(b) == v {
      if 0 <= v < 16 {
        assert LOWER_DIGITS[v] == if v < 10 then (0x30 + v) as Byte else (0x61 + v - 10) as Byte;
        assert UPPER_DIGITS[v] == if v < 10 then (0x30 + v) as Byte else (0x41 + v - 10) as Byte;
      }
    }
  }

  /** A percent sign and two digits of either case are one byte; a percent sign without them, a
      plus sign and every other byte are read on their own, the plus sign as a space. */
  lemma DecodeExactly(h: Byte, l: Byte, rest: Bytes)
    ensures forall v, w :: Digit(h, v) && Digit(l, w) ==>
              Decode([0x25, h, l] + rest) == [(16 * v + w) as Byte] + Decode(rest)
    ensures (forall v, w :: !(Digit(h, v) && Digit(l, w))) ==>
              Decode([0x25, h, l] + rest) == [0x25] + Decode([h, l] + rest)
    ensures Decode([0x25]) == [0x25] && Decode([0x25, h]) == [0x25] + Decode([h])
    ensures Decode([0x2B] + rest) == [0x20] + Decode(rest)
    ensures h != 0x25 && h != 0x2B ==> Decode([h] + rest) == [h] + Decode(rest)
  {
    DigitExactly(h);
    DigitExactly(l);
    var s := [0x25, h, l] + rest;
    assert s[1..] == [h, l] + rest && s[3..] == rest && s[1] == h && s[2] == l;
    assert ([0x2B as Byte] + rest)[1..] == rest && ([h] + rest)[1..] == rest;
    if FromHex(h) >= 0 && FromHex(l) >= 0 {
      assert Digit(h, FromHex(h)) && Digit(l, FromHex(l));
    }
    assert [0x25 as Byte][1..] == [] && [0x25, h][1..] == [h];
  }

  /** Exactly letters, digits and / - . _ ~ stand for themselves; every other byte is written as a
      percent sign and its two digits in upper case. */
  lemma EncodeExactly(b: Byte, rest: Bytes)
    ensures var plain := 0x41 <= b <= 0x5A || 0x61 <= b <= 0x7A || 0x30 <= b <= 0x39
                         || b in [0x2F as Byte, 0x2D, 0x2E, 0x5F, 0x7E];
            && (plain ==> Encode([b] + rest) == [b] + Encode(rest))
            && (!plain ==> Encode([b] + rest)
                           == [0x25, UPPER_DIGITS[b as int / 16], UPPER_DIGITS[b as int % 16]] + Encode(rest))
  {
    assert ([b] + rest)[1..] == rest;
    forall v | 0 <= v < 16 ensures HexDigit(v) == UPPER_DIGITS[v] {
    }
  }

  // ----- round trips -----

  lemma DecodeEncodedByte(b: Byte, rest: Bytes)
    ensures Decode(EncodeByte(b) + rest) == [b] + Decode(rest)
  {
    var e := EncodeByte(b);
    if Unreserved(b) {
      assert (e + rest)[1..] == rest;
    } else {
      assert Escaped(e + rest) && EscapedByte(e + rest) == b && (e + rest)[3..] == rest;
    }
  }

  /** Decoding undoes encoding for every byte string, although it also turns + into a space. */
  lemma {:induction false} DecodeEncode(s: Bytes)
    ensures Decode(Encode(s)) == s
  {
    if s != [] {
      DecodeEncodedByte(s[0], Encode(s[1..]));
      DecodeEncode(s[1..]);
    }
  }

  /** Only what the encoder itself would write: bytes that stand for themselves, and escapes in
      upper case of bytes that do not. */
  predicate Canonical(u: Bytes) {
    u == []
    || (Unreserved(u[0]) && Canonical(u[1..]))
    || (Escaped(u) && !IsLower(u[1]) && !IsLower(u[2]) && !Unreserved(EscapedByte(u)) && Canonical(u[3..]))
  }

  lemma {:induction false} EncodeIsCanonical(s: Bytes)
    ensures Canonical(Encode(s))
  {
    if s != [] {
      EncodeIsCanonical(s[1..]);
      var e, rest := EncodeByte(s[0]), Encode(s[1..]);
      if Unreserved(s[0]) {
        assert (e + rest)[1..] == rest;
      } else {
        assert Escaped(e + rest) && EscapedByte(e + rest) == s[0] && (e + rest)[3..] == rest;
      }
    }
  }

  lemma UpperHexUnique(b: Byte)
    requires FromHex(b) >= 0 && !IsLower(b)
    ensures HexDigit(FromHex(b)) == b
  {
  }

  lemma {:induction false} EncodeDecodeCanonical(u: Bytes)
    requires Canonical(u)
    ensures Encode(Decode(u)) == u
  {
    if u != [] {
      if Unreserved(u[0]) {
        EncodeDecodeCanonical(u[1..]);
        assert u == [u[0]] + u[1..];
      } else {
        EncodeDecodeCanonical(u[3..]);
        UpperHexUnique(u[1]);
        UpperHexUnique(u[2]);
        assert u == [PERCENT, u[1], u[2]] + u[3..];
      }
    }
  }

  /** Encoding undoes decoding exactly on the canonical strings. */
  lemma EncodeDecodeExactly(u: Bytes)
    ensures Encode(Decode(u)) == u <==> Canonical(u)
  {
    EncodeIsCanonical(Decode(u));
    if Canonical(u) {
      EncodeDecodeCanonical(u);
    }
  }

  // ----- paths -----

  /** The bytes of file:// */
  const SCHEME: Bytes := [0x66, 0x69, 0x6C, 0x65, 0x3A, 0x2F, 0x2F]

  function Rooted(path: Bytes): Bytes {
    if path == [] || path[0] != SLASH then [SLASH] + path else path
  }

  /** Path normalization is a given function. */
  method UriFromPath(path: Bytes, normal: Bytes -> Bytes) returns (uri: Bytes)
    ensures uri == UriOf(path, normal)
  {
    var normalized := normal(path);
    if normalized == [] || normalized[0] != SLASH {
      normalized := [SLASH] + normalized;
    }
    var encoded := PercentEncode(normalized);
    uri := SCHEME + encoded;
  }

  function UriOf(path: Bytes, normal: Bytes -> Bytes): Bytes {
    SCHEME + Encode(Rooted(normal(path)))
  }

  /** Anything but a file URI is taken as it is; an empty path stays empty. */
  function PathOf(uri: Bytes): Bytes {
    if SCHEME <= uri then
      var decoded := Decode(uri[7..]);
      if decoded != [] then Rooted(decoded) else decoded
    else uri
  }

  method PathFromUri(uri: Bytes) returns (path: Bytes)
    ensures path == PathOf(uri)
  {
    if !(SCHEME <= uri) {
      return uri;
    }
    path := PercentDecode(uri[7..]);
    if path != [] && path[0] != SLASH {
      path := [SLASH] + path;
    }
  }

  /** A path comes back normalized and rooted; so exactly the paths that are so already come
      back unchanged. */
  lemma PathRoundTrip(path: Bytes, normal: Bytes -> Bytes)
    ensures PathOf(UriOf(path, normal)) == Rooted(normal(path))
    ensures PathOf(UriOf(path, normal)) == path <==> Rooted(normal(path)) == path
  {
    var p := Rooted(normal(path));
    var uri := UriOf(path, normal);
    assert uri[7..] == Encode(p);
    DecodeEncode(p);
  }

  /** A URI that names a path comes back unchanged when it is canonical and its path is. */
  lemma UriRoundTrip(uri: Bytes, normal: Bytes -> Bytes)
    requires SCHEME <= uri && |uri| > 7 && uri[7] == SLASH
    requires normal(Decode(uri[7..])) == Decode(uri[7..])
    ensures UriOf(PathOf(uri), normal) == uri <==> Canonical(uri[7..])
  {
    var rest := uri[7..];
    EncodeDecodeExactly(rest);
    assert Decode(rest)[0] == SLASH;
    assert uri == SCHEME + rest;
    if UriOf(PathOf(uri), normal) == uri {
      assert Encode(Decode(rest)) == (SCHEME + Encode(Decode(rest)))[7..];
    }
  }

  /** A URI is the scheme and a path that begins with a slash and decodes to the normalized one,
      with a slash in front if it has none. */
  lemma UriExactly(path: Bytes, normal: Bytes -> Bytes)
    ensures var uri, n := UriOf(path, normal), normal(path);
            && |uri| > 7 && uri[..8] == [0x66, 0x69, 0x6C, 0x65, 0x3A, 0x2F, 0x2F, 0x2F] && Canonical(uri[7..])
            && Decode(uri[7..]) == if n != [] && n[0] == 0x2F then n else [0x2F] + n
  {
    var uri, rooted := UriOf(path, normal), Rooted(normal(path));
    assert uri[7..] == Encode(rooted) && uri[..7] == SCHEME;
    assert Encode(rooted)[0] == 0x2F;
    assert uri[..8] == uri[..7] + [uri[7]];
    EncodeIsCanonical(rooted);
    DecodeEncode(rooted);
  }

  /** What has no file scheme is not a URI to the reader, and is returned as it is; behind the scheme
      an empty path stays empty and any other begins with a slash. */
  lemma PathExactly(uri: Bytes)
    ensures !([0x66, 0x69, 0x6C, 0x65, 0x3A, 0x2F, 0x2F] <= uri) ==> PathOf(uri) == uri
    ensures forall rest: Bytes :: uri == [0x66, 0x69, 0x6C, 0x65, 0x3A, 0x2F, 0x2F] + rest ==>
              PathOf(uri)
              == if Decode(rest) == [] || Decode(rest)[0] == 0x2F then Decode(rest) else [0x2F] + Decode(rest)
  {
    forall rest: Bytes | uri == [0x66, 0x69, 0x6C, 0x65, 0x3A, 0x2F, 0x2F] + rest
      ensures PathOf(uri)
              == if Decode(rest) == [] || Decode(rest)[0] == 0x2F then Decode(rest) else [0x2F] + Decode(rest)
    {
      assert uri[7..] == rest;
    }
  }
}
