/** The element codecs of the linear containers.

    C++ (`linear.h`, `array.cpp`, `stack.cpp`, `queue.cpp`): the string
    specialisations write a u32 element count and then every element as
    `writeBinary(string)` does; the loaders read the count and then that
    many strings.  As in `Bytes`, `None` stands for a stream that ran out,
    which the C++ readers do not notice.

    Go (`array.go`, `stack.go`, `queue.go`, `singlelist.go`,
    `doublelist.go`): every container writes an int32 count and then its
    `int` elements as little-endian int32 values; the loaders read the
    count and then values one at a time, stopping at the first failed
    read. */
module Streams {
  import opened Wrappers
  import opened Bytes

  // ---------------------------------------------------------------------
  // C++: u32 count, then length-prefixed strings

  /** The strings one after another. */
  function EncodeStrings(xs: seq<Str>): (r: seq<byte>)
    ensures |r| >= 4 * |xs|
  {
    if xs == [] then [] else EncodeString(xs[0]) + EncodeStrings(xs[1..])
  }

  /** `n` successive `readString` calls. */
  function DecodeStrings(s: seq<byte>, n: nat): (r: Option<(seq<Str>, seq<byte>)>)
    ensures r.Some? ==> |r.value.0| == n && |r.value.1| <= |s|
    decreases n
  {
    if n == 0 then Some(([], s))
    else
      match DecodeString(s)
      case None => None
      case Some((x, s1)) =>
        match DecodeStrings(s1, n - 1)
        case None => None
        case Some((xs, s2)) => Some(([x] + xs, s2))
  }

  /** Every element is short enough for its length to fit the u32 prefix. */
  ghost predicate ShortStrings(xs: seq<Str>)
  {
    forall i | 0 <= i < |xs| :: |xs[i]| < TWO_32
  }

  /** Reading `|xs|` strings back gives `xs` and leaves the stream just
      after them. */
  lemma {:induction false} StringsRoundTrip(xs: seq<Str>, rest: seq<byte>)
    requires ShortStrings(xs)
    ensures DecodeStrings(EncodeStrings(xs) + rest, |xs|) == Some((xs, rest))
    decreases |xs|
  {
    if xs != [] {
      var tail := EncodeStrings(xs[1..]) + rest;
      assert EncodeStrings(xs) + rest == EncodeString(xs[0]) + tail;
      assert |xs[0]| < TWO_32;
      StringRoundTrip(xs[0], tail);
      assert DecodeString(EncodeStrings(xs) + rest) == Some((xs[0], tail));
      assert ShortStrings(xs[1..]) by {
        forall i | 0 <= i < |xs[1..]| ensures |xs[1..][i]| < TWO_32 {
          assert xs[1..][i] == xs[i + 1];
        }
      }
      StringsRoundTrip(xs[1..], rest);
      assert DecodeStrings(tail, |xs| - 1) == Some((xs[1..], rest));
      assert [xs[0]] + xs[1..] == xs;
    } else {
      assert EncodeStrings(xs) + rest == rest;
    }
  }

  /** A string container's file: the count cast to u32, then the elements in
      the order given. */
  function SaveStrings(xs: seq<Str>): (r: seq<byte>)
    ensures |r| >= 4 + 4 * |xs|
    ensures r[..4] == EncodeU32(|xs| % TWO_32) && r[4..] == EncodeStrings(xs)
  {
    var head := EncodeU32(|xs| % TWO_32);
    assert |head| == 4;
    head + EncodeStrings(xs)
  }

  /** The count, then that many strings. */
  function LoadStrings(s: seq<byte>): (r: Option<(seq<Str>, seq<byte>)>)
    ensures r.Some? ==> |s| >= 4 && |r.value.0| == DecodeU32(s).value.0
  {
    match DecodeU32(s)
    case None => None
    case Some((n, rest)) => DecodeStrings(rest, n)
  }

  /** Loading what `SaveStrings` wrote gives back the elements in order,
      provided the count and every length fit in 32 bits. */
  lemma SaveLoadStrings(xs: seq<Str>, rest: seq<byte>)
    requires |xs| < TWO_32 && ShortStrings(xs)
    ensures LoadStrings(SaveStrings(xs) + rest) == Some((xs, rest))
  {
    var body := EncodeStrings(xs) + rest;
    SaveStringsSplits(xs, rest);
    U32RoundTrip(|xs|, body);
    StringsRoundTrip(xs, rest);
  }

  lemma SaveStringsSplits(xs: seq<Str>, rest: seq<byte>)
    requires |xs| < TWO_32
    ensures SaveStrings(xs) + rest == EncodeU32(|xs|) + (EncodeStrings(xs) + rest)
  {
    SaveStringsCount(xs);
    Associative(EncodeU32(|xs|), EncodeStrings(xs), rest);
  }

  lemma SaveStringsCount(xs: seq<Str>)
    requires |xs| < TWO_32
    ensures SaveStrings(xs) == EncodeU32(|xs|) + EncodeStrings(xs)
  {
    BelowTwo32(|xs|);
  }

  // ---------------------------------------------------------------------
  // Go: int32 count, then int32 elements

  /** Each `int` as `binary.Write(w, binary.LittleEndian, int32(x))`. */
  function EncodeInt32s(xs: seq<int>): (r: seq<byte>)
    ensures |r| == 4 * |xs|
  {
    if xs == [] then [] else EncodeI32(xs[0]) + EncodeInt32s(xs[1..])
  }

  /** What a Go loader's read loop got: the values read, the rest of the
      stream, and whether every read succeeded. */
  datatype Read = Read(values: seq<int>, rest: seq<byte>, ok: bool)

  /** The loop `for i := 0; i < int(n); i++ { binary.Read(...) }`: up to `n`
      values, stopping at the first read that fails; a non-positive `n`
      reads nothing. */
  function ReadInt32s(s: seq<byte>, n: int): (r: Read)
    ensures r.ok ==> |r.values| == if n <= 0 then 0 else n
    ensures !r.ok ==> |r.values| < n
    decreases n
  {
    if n <= 0 then Read([], s, true)
    else
      match DecodeI32(s)
      case None => Read([], s, false)
      case Some((x, s1)) =>
        var r := ReadInt32s(s1, n - 1);
        Read([x] + r.values, r.rest, r.ok)
  }

  /** Go's `int32(x)` of every element. */
  function Wrap32(xs: seq<int>): (r: seq<int>)
    ensures |r| == |xs|
    ensures forall i | 0 <= i < |xs| :: r[i] == ToInt32(xs[i])
  {
    seq(|xs|, i requires 0 <= i < |xs| => ToInt32(xs[i]))
  }

  /** Every element lies in the int32 range. */
  ghost predicate Fits32(xs: seq<int>)
  {
    forall i | 0 <= i < |xs| :: -TWO_31 <= xs[i] < TWO_31
  }

  lemma Wrap32Fits(xs: seq<int>)
    requires Fits32(xs)
    ensures Wrap32(xs) == xs
  {
  }

  /** Reading back `|xs|` values gives every element as `int32(x)`. */
  lemma {:induction false} Int32sRoundTrip(xs: seq<int>, rest: seq<byte>)
    ensures ReadInt32s(EncodeInt32s(xs) + rest, |xs|) == Read(Wrap32(xs), rest, true)
    decreases |xs|
  {
    if xs != [] {
      var tail := EncodeInt32s(xs[1..]) + rest;
      assert EncodeInt32s(xs) + rest == EncodeI32(xs[0]) + tail;
      I32RoundTrip(xs[0], tail);
      Int32sRoundTrip(xs[1..], rest);
      assert Wrap32(xs) == [ToInt32(xs[0])] + Wrap32(xs[1..]);
    } else {
      assert EncodeInt32s(xs) + rest == rest;
    }
  }

  /** A Go container's file: `int32(count)`, then the elements. */
  function GoSaveInts(xs: seq<int>): (r: seq<byte>)
    ensures |r| == 4 + 4 * |xs|
  {
    EncodeI32(|xs|) + EncodeInt32s(xs)
  }

  /** The count, then the values; a stream too short for the count reads
      nothing and fails. */
  function GoLoadInts(s: seq<byte>): (r: Read)
    ensures |s| < 4 ==> r == Read([], s, false)
    ensures |s| >= 4 && DecodeI32(s).value.0 <= 0 ==> r == Read([], s[4..], true)
  {
    match DecodeI32(s)
    case None => Read([], s, false)
    case Some((n, rest)) => ReadInt32s(rest, n)
  }

  /** Loading what `GoSaveInts` wrote gives back every element as
      `int32(x)`, so exactly the elements when they all fit in int32. */
  lemma GoSaveLoadInts(xs: seq<int>, rest: seq<byte>)
    requires |xs| < TWO_31
    ensures GoLoadInts(GoSaveInts(xs) + rest) == Read(Wrap32(xs), rest, true)
    ensures Fits32(xs) ==> GoLoadInts(GoSaveInts(xs) + rest) == Read(xs, rest, true)
  {
    var body := EncodeInt32s(xs) + rest;
    assert GoSaveInts(xs) + rest == EncodeI32(|xs|) + body;
    I32RoundTrip(|xs|, body);
    assert ToInt32(|xs|) == |xs|;
    Int32sRoundTrip(xs, rest);
    if Fits32(xs) {
      Wrap32Fits(xs);
    }
  }
}
