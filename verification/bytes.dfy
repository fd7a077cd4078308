/** The primitive binary codec of `binary_serialization.h` and the
    little-endian `int32` fields written by the Go port's
    `binary.Write(w, binary.LittleEndian, int32(...))`.

    A byte stream is a `seq<byte>`.  Every decoder returns the decoded value
    together with the rest of the stream, or `None` when the stream ends
    inside the field.  The C++ readers do not detect that condition (the
    value they return is then indeterminate); `None` stands for exactly that
    indeterminate outcome and is not a reported error. */
module Bytes {
  import opened Wrappers

  type byte = x: int | 0 <= x < 256

  const TWO_31: int := 0x8000_0000
  const TWO_32: int := 0x1_0000_0000

  type u32 = x: int | 0 <= x < 0x1_0000_0000

  /** A string as the codecs see it: its raw bytes. */
  type Str = seq<byte>

  const TWO_64: int := 0x1_0000_0000_0000_0000

  /** A C++ `size_t` on a 64-bit target; `++` and `--` wrap modulo 2^64. */
  type usize = x: int | 0 <= x < 0x1_0000_0000_0000_0000

  /** `++` on a `size_t`. */
  function Inc(n: usize): (r: usize)
    ensures r == (n + 1) % TWO_64
  {
    if n + 1 == TWO_64 then 0 else n + 1
  }

  /** `--` on a `size_t`. */
  function Dec(n: usize): (r: usize)
    ensures r == (n - 1) % TWO_64
  {
    if n == 0 then TWO_64 - 1 else n - 1
  }

  /** A Go `int32`. */
  type i32 = x: int | -0x8000_0000 <= x < 0x8000_0000

  // ---------------------------------------------------------------------
  // u32, little-endian, 4 bytes

  function EncodeU32(n: u32): (r: seq<byte>)
    ensures |r| == 4
  {
    [n % 256, (n / 256) % 256, (n / 65536) % 256, n / 16777216]
  }

  /** The little-endian value of four bytes. */
  function Combine(b0: byte, b1: byte, b2: byte, b3: byte): (n: u32)
    ensures n % 256 == b0
  {
    b0 as int + 256 * (b1 as int) + 65536 * (b2 as int) + 16777216 * (b3 as int)
  }

  function DecodeU32(s: seq<byte>): (r: Option<(u32, seq<byte>)>)
    ensures r.Some? <==> |s| >= 4
    ensures r.Some? ==> r.value.1 == s[4..]
  {
    if |s| < 4 then None
    else Some((Combine(s[0], s[1], s[2], s[3]), s[4..]))
  }

  /** `readUint32` returns what `writeBinary(uint32_t)` wrote. */
  lemma U32RoundTrip(n: u32, rest: seq<byte>)
    ensures DecodeU32(EncodeU32(n) + rest) == Some((n, rest))
  {
    var e := EncodeU32(n);
    var s := e + rest;
    assert s[4..] == rest;
    var a, b, c, d := n % 256, (n / 256) % 256, (n / 65536) % 256, n / 16777216;
    assert n / 256 == b + 256 * ((n / 65536) % 256) + 65536 * d by {
      assert n / 65536 == (n / 256) / 256;
      assert n / 16777216 == (n / 65536) / 256;
    }
    assert n == a + 256 * b + 65536 * c + 16777216 * d;
  }

  /** Four bytes determine the u32 they decode to: decoding and re-encoding
      reproduces the stream. */
  lemma U32DecodeEncode(s: seq<byte>)
    requires |s| >= 4
    ensures DecodeU32(s).Some?
    ensures EncodeU32(DecodeU32(s).value.0) + DecodeU32(s).value.1 == s
  {
    var n := DecodeU32(s).value.0;
    var m2 := s[2] as int + 256 * (s[3] as int);
    var m1 := s[1] as int + 256 * m2;
    assert n == s[0] as int + 256 * m1;
    ByteDigit(s[0], m1);
    ByteDigit(s[1], m2);
    ByteDigit(s[2], s[3] as int);
    assert n / 65536 == (n / 256) / 256;
    assert n / 16777216 == (n / 65536) / 256;
    assert EncodeU32(n) == s[..4];
  }

  /** Peeling the low byte off a little-endian number. */
  lemma ByteDigit(b: byte, m: int)
    requires m >= 0
    ensures (b as int + 256 * m) % 256 == b as int
    ensures (b as int + 256 * m) / 256 == m
  {
  }

  /** Concatenation regroups freely.  Stated as a lemma of its own so that
      the byte-stream proofs using it are not left to find it among their
      arithmetic facts. */
  lemma Associative<T>(a: seq<T>, b: seq<T>, c: seq<T>)
    ensures (a + b) + c == a + (b + c)
  {
  }

  /** A value below 2^32 is its own u32 truncation; a lemma of its own for
      the same reason. */
  lemma BelowTwo32(n: int)
    requires 0 <= n < TWO_32
    ensures n % TWO_32 == n
  {
  }

  // ---------------------------------------------------------------------
  // size_t: truncated to u32 on write, zero-extended on read

  function EncodeSize(n: nat): (r: seq<byte>)
    ensures r == EncodeU32(n % TWO_32)
  {
    EncodeU32(n % TWO_32)
  }

  function DecodeSize(s: seq<byte>): (r: Option<(nat, seq<byte>)>)
  {
    match DecodeU32(s)
    case None => None
    case Some((n, rest)) => Some((n, rest))
  }

  /** A `size_t` survives `writeBinary`/`readSize` exactly when it fits in
      32 bits; otherwise the reader sees it modulo 2^32. */
  lemma SizeRoundTrip(n: nat, rest: seq<byte>)
    ensures DecodeSize(EncodeSize(n) + rest) == Some((n % TWO_32, rest))
    ensures DecodeSize(EncodeSize(n) + rest) == Some((n, rest)) <==> n < TWO_32
  {
    var m := n % TWO_32;
    U32RoundTrip(m, rest);
    if n < TWO_32 {
      BelowTwo32(n);
    } else {
      assert m < TWO_32 <= n;
    }
  }

  // ---------------------------------------------------------------------
  // bool: one byte, 1 or 0; any nonzero byte reads as true

  function EncodeBool(b: bool): (r: seq<byte>)
    ensures |r| == 1 && (r[0] == 1 <==> b) && (r[0] == 0 <==> !b)
  {
    if b then [1] else [0]
  }

  function DecodeBool(s: seq<byte>): (r: Option<(bool, seq<byte>)>)
    ensures r.Some? <==> |s| >= 1
    ensures r.Some? ==> r.value == (s[0] != 0, s[1..])
  {
    if |s| < 1 then None else Some((s[0] != 0, s[1..]))
  }

  lemma BoolRoundTrip(b: bool, rest: seq<byte>)
    ensures DecodeBool(EncodeBool(b) + rest) == Some((b, rest))
  {
    assert (EncodeBool(b) + rest)[1..] == rest;
  }

  // ---------------------------------------------------------------------
  // std::string: u32 length, then that many raw bytes, no terminator

  /** `writeBinary(string)`: the length is cast to `uint32_t` and exactly
      that many bytes of the string are written, so a string of 2^32 bytes
      or more is written truncated. */
  function EncodeString(str: seq<byte>): (r: seq<byte>)
    ensures |r| == 4 + |str| % TWO_32
    ensures r[4..] == str[..|str| % TWO_32]
  {
    var len := |str| % TWO_32;
    EncodeU32(len) + str[..len]
  }

  function DecodeString(s: seq<byte>): (r: Option<(seq<byte>, seq<byte>)>)
    ensures r.Some? ==> |s| >= 4 && |r.value.0| + |r.value.1| + 4 == |s|
    ensures r.Some? ==> s[4..] == r.value.0 + r.value.1
    ensures r.Some? ==> |r.value.0| == DecodeU32(s).value.0
  {
    match DecodeU32(s)
    case None => None
    case Some((len, rest)) =>
      if |rest| < len then None else Some((rest[..len], rest[len..]))
  }

  /** `readString` returns the string `writeBinary` wrote (its first 2^32-1
      bytes at most) and leaves the stream just after it. */
  lemma StringRoundTrip(str: seq<byte>, rest: seq<byte>)
    ensures DecodeString(EncodeString(str) + rest) == Some((str[..|str| % TWO_32], rest))
    ensures |str| < TWO_32 ==> DecodeString(EncodeString(str) + rest) == Some((str, rest))
  {
    var len := |str| % TWO_32;
    LengthPrefixed(len, str[..len], rest);
    if |str| < TWO_32 {
      BelowTwo32(|str|);
      assert str[..len] == str;
    }
  }

  /** A length prefix followed by exactly that many bytes reads back as
      those bytes. */
  lemma LengthPrefixed(len: u32, body: seq<byte>, rest: seq<byte>)
    requires |body| == len
    ensures DecodeString(EncodeU32(len) + body + rest) == Some((body, rest))
  {
    var s := EncodeU32(len) + body + rest;
    assert s == EncodeU32(len) + (body + rest);
    U32RoundTrip(len, body + rest);
    assert (body + rest)[..len] == body;
    assert (body + rest)[len..] == rest;
  }

  // ---------------------------------------------------------------------
  // Go int32, little-endian two's complement

  /** Go's conversion `int32(x)` of a (64-bit) `int`: wrap-around modulo 2^32
      into the signed range. */
  function ToInt32(x: int): (r: i32)
    ensures (r - x) % TWO_32 == 0
    ensures -TWO_31 <= x < TWO_31 ==> r == x
  {
    var m := x % TWO_32;
    if m >= TWO_31 then m - TWO_32 else m
  }

  function EncodeI32(x: int): (r: seq<byte>)
    ensures |r| == 4
  {
    EncodeU32(x % TWO_32)
  }

  function DecodeI32(s: seq<byte>): (r: Option<(i32, seq<byte>)>)
    ensures r.Some? <==> |s| >= 4
    ensures r.Some? ==> r.value.1 == s[4..]
  {
    match DecodeU32(s)
    case None => None
    case Some((n, rest)) => Some((if n >= TWO_31 then n - TWO_32 else n, rest))
  }

  /** `binary.Read` of an `int32` gives back `int32(x)`; a Go `int` survives
      the trip exactly when it lies in the int32 range. */
  lemma I32RoundTrip(x: int, rest: seq<byte>)
    ensures DecodeI32(EncodeI32(x) + rest) == Some((ToInt32(x), rest))
    ensures DecodeI32(EncodeI32(x) + rest) == Some((x, rest)) <==> -TWO_31 <= x < TWO_31
  {
    U32RoundTrip(x % TWO_32, rest);
  }

  /** The Go string field: an int32 length (all bytes are written). */
  function EncodeGoString(str: seq<byte>): (r: seq<byte>)
    ensures |r| == 4 + |str|
  {
    EncodeI32(|str|) + str
  }

  /** `binary.Read` of the int32 length, then `io.ReadFull` of that many
      bytes.  A negative length makes `make([]byte, n)` panic; the model
      reports it as `NegativeLength`. */
  function DecodeGoString(s: seq<byte>): (r: Result<(seq<byte>, seq<byte>)>)
    ensures r.Ok? ==> |r.value.1| < |s|
  {
    match DecodeI32(s)
    case None => Err(ShortRead)
    case Some((len, rest)) =>
      if len < 0 then Err(NegativeLength)
      else if |rest| < len then Err(ShortRead)
      else Ok((rest[..len], rest[len..]))
  }

  lemma GoStringRoundTrip(str: seq<byte>, rest: seq<byte>)
    requires |str| < TWO_31
    ensures DecodeGoString(EncodeGoString(str) + rest) == Ok((str, rest))
  {
    assert EncodeGoString(str) + rest == EncodeI32(|str|) + (str + rest);
    I32RoundTrip(|str|, str + rest);
    assert (str + rest)[..|str|] == str;
    assert (str + rest)[|str|..] == rest;
  }
}
