/** `ImageWriter` of raytracer/src/image_writer.rs: the plain (ASCII, magic `P3`) PPM format
    of the Netpbm ppm(5) specification, written as bytes. The header is the same in the
    earlier snapshot src/image_writer.rs and in expanded.rs; their `write_pixel` quantises
    the colour directly, without dividing by the sample count or taking square roots. */
module Ppm {
  import opened Options
  import opened Roots
  import Colors
  import opened Pixels

  /** A `u8`. */
  type Byte = x: int | 0 <= x < 256

  const DigitZero: Byte := 48   // '0'
  const Space: Byte := 32   // ' '
  const Newline: Byte := 10 // '\n'

  predicate IsDigit(b: Byte) {
    DigitZero <= b <= DigitZero + 9
  }

  predicate AllDigits(s: seq<Byte>) {
    forall i :: 0 <= i < |s| ==> IsDigit(s[i])
  }

  // ---- decimal numbers (the `{}` of `format!`) --------------------------------------

  /** The decimal digits of `n`, most significant first, without leading zeros. */
  function Dec(n: nat): (s: seq<Byte>)
    ensures |s| > 0 && AllDigits(s)
    ensures s[0] == DigitZero ==> n == 0
    decreases n
  {
    if n < 10 then [DigitZero + n] else Dec(n / 10) + [DigitZero + n % 10]
  }

  /** The value of a string of decimal digits. */
  function ParseDec(s: seq<Byte>): nat
    requires AllDigits(s)
    decreases |s|
  {
    if |s| == 0 then 0 else ParseDec(s[..|s| - 1]) * 10 + (s[|s| - 1] - DigitZero)
  }

  lemma {:induction false} ParseDecOfDec(n: nat)
    ensures ParseDec(Dec(n)) == n
    decreases n
  {
    if n >= 10 {
      var s := Dec(n);
      assert s[..|s| - 1] == Dec(n / 10);
      ParseDecOfDec(n / 10);
    }
  }

  /** The longest prefix of digits, and what follows it. */
  function SpanDigits(s: seq<Byte>): (r: (seq<Byte>, seq<Byte>))
    ensures AllDigits(r.0) && r.0 + r.1 == s
    ensures |r.1| > 0 ==> !IsDigit(r.1[0])
    decreases |s|
  {
    if |s| == 0 || !IsDigit(s[0]) then ([], s)
    else
      var rest := SpanDigits(s[1..]);
      ([s[0]] + rest.0, rest.1)
  }

  lemma {:induction false} SpanDigitsOfDigits(d: seq<Byte>, rest: seq<Byte>)
    requires AllDigits(d)
    requires |rest| > 0 ==> !IsDigit(rest[0])
    ensures SpanDigits(d + rest) == (d, rest)
    decreases |d|
  {
    if |d| > 0 {
      assert (d + rest)[1..] == d[1..] + rest;
      SpanDigitsOfDigits(d[1..], rest);
      assert [d[0]] + d[1..] == d;
    } else {
      assert d + rest == rest;
    }
  }

  // ---- header -----------------------------------------------------------------------

  /** `P3 ` */
  const Magic: seq<Byte> := [80, 51, 32]
  /** ` 255\n`: the maximum channel value and the end of the header. */
  const MaxvalLine: seq<Byte> := [32, 50, 53, 53, 10]

  /** `format!("P3 {} {} 255\n", width, height)`. */
  function Header(width: nat, height: nat): seq<Byte> {
    Magic + Dec(width) + [Space] + Dec(height) + MaxvalLine
  }

  /** Read a header back: the magic, the width, one space, the height, then ` 255\n`. */
  function ParseHeader(s: seq<Byte>): Option<(nat, nat)> {
    if |s| < 3 || s[..3] != Magic then None else ParseDimensions(s[3..])
  }

  function ParseDimensions(s: seq<Byte>): Option<(nat, nat)> {
    var (w, rest) := SpanDigits(s);
    if |w| == 0 || |rest| == 0 || rest[0] != Space then None
    else
      match ParseHeight(rest[1..])
      case None => None
      case Some(h) => Some((ParseDec(w), h))
  }

  function ParseHeight(s: seq<Byte>): Option<nat> {
    var (h, rest) := SpanDigits(s);
    if |h| == 0 || rest != MaxvalLine then None else Some(ParseDec(h))
  }

  /** The header gives back the dimensions it was written with. */
  lemma HeaderRoundTrip(width: nat, height: nat)
    ensures ParseHeader(Header(width, height)) == Some((width, height))
  {
    var tail := Dec(width) + ([Space] + (Dec(height) + MaxvalLine));
    assert Header(width, height) == Magic + tail;
    assert (Magic + tail)[..3] == Magic && (Magic + tail)[3..] == tail;
    DimensionsRoundTrip(width, height);
  }

  lemma DimensionsRoundTrip(width: nat, height: nat)
    ensures ParseDimensions(Dec(width) + ([Space] + (Dec(height) + MaxvalLine))) == Some((width, height))
  {
    var rest := [Space] + (Dec(height) + MaxvalLine);
    SpanDigitsOfDigits(Dec(width), rest);
    assert rest[1..] == Dec(height) + MaxvalLine;
    HeightRoundTrip(height);
    ParseDecOfDec(width);
  }

  lemma HeightRoundTrip(height: nat)
    ensures ParseHeight(Dec(height) + MaxvalLine) == Some(height)
  {
    SpanDigitsOfDigits(Dec(height), MaxvalLine);
    ParseDecOfDec(height);
  }

  // ---- channel digits ---------------------------------------------------------------

  /** The three zero-padded decimal digits of a byte. */
  function Digits3(c: Byte): seq<Byte> {
    [DigitZero + c / 100, DigitZero + c / 10 % 10, DigitZero + c % 10]
  }

  /** The value of three decimal digits, if it fits in a byte. */
  function DecodeDigits(v: seq<Byte>): (r: Option<Byte>)
    requires |v| == 3
  {
    if AllDigits(v) && 100 * (v[0] - DigitZero) + 10 * (v[1] - DigitZero) + (v[2] - DigitZero) < 256 then
      Some(100 * (v[0] - DigitZero) + 10 * (v[1] - DigitZero) + (v[2] - DigitZero))
    else None
  }

  /** Three digits decode to `c` exactly when they are the digits of `c`. */
  lemma DigitsRoundTrip(c: Byte, v: seq<Byte>)
    requires |v| == 3
    ensures DecodeDigits(Digits3(c)) == Some(c)
    ensures DecodeDigits(v) == Some(c) <==> v == Digits3(c)
  {
    DigitsOfByte(c);
    if DecodeDigits(v) == Some(c) {
      DigitsUnique(c, v);
    }
  }

  /** Only the digits of `c` decode to `c`: the quotients and remainders by ten and a
      hundred are unique. */
  lemma DigitsUnique(c: Byte, v: seq<Byte>)
    requires |v| == 3 && DecodeDigits(v) == Some(c)
    ensures v == Digits3(c)
  {
    var d0, d1, d2 := v[0] - DigitZero, v[1] - DigitZero, v[2] - DigitZero;
    assert 0 <= d0 < 10 && 0 <= d1 < 10 && 0 <= d2 < 10;
    assert c == (10 * d0 + d1) * 10 + d2;
    DivModUnique(c, 10, 10 * d0 + d1, d2);
    DivModUnique(c / 10, 10, d0, d1);
    DivModUnique(c, 100, d0, 10 * d1 + d2);
    assert v == [v[0], v[1], v[2]];
  }

  /** The digits are zero-padded: a byte below 100 starts with `0`, one below 10 with
      `00`, so 7 is written `007` and 255 `255`. */
  lemma DigitsZeroPadded(c: Byte)
    ensures c < 100 <==> Digits3(c)[0] == DigitZero
    ensures c < 10 <==> Digits3(c)[0] == DigitZero && Digits3(c)[1] == DigitZero
    ensures Digits3(7) == [48, 48, 55] && Digits3(255) == [50, 53, 53]
  {
  }

  /** The three digits are digits, spell the byte, and successive divisions by ten reach
      the leading digit. */
  lemma DigitsOfByte(c: Byte)
    ensures AllDigits(Digits3(c))
    ensures 100 * (Digits3(c)[0] - DigitZero) + 10 * (Digits3(c)[1] - DigitZero) + (Digits3(c)[2] - DigitZero) == c
    ensures c / 10 / 10 == c / 100 && c / 100 < 10 && (c / 10) % 10 == c / 10 % 10
  {
  }

  /** `channel_to_digits`: fill `v` from the right with `c % 10`, dividing `c` by ten each
      time. It always starts at `s == 0`, and the three digits spell `c0` with leading
      zeros. */
  method ChannelToDigits(c0: Byte) returns (s: nat, v: seq<Byte>)
    ensures s == 0 && |v| == 3 && AllDigits(v)
    ensures 100 * (v[0] - DigitZero) + 10 * (v[1] - DigitZero) + (v[2] - DigitZero) == c0
    ensures v == Digits3(c0)
  {
    s := 0;
    v := [0, 0, 0];
    var c: Byte := c0;
    DigitsOfByte(c0);
    for i := 0 to 3
      invariant |v| == 3
      invariant i == 0 ==> c == c0
      invariant i == 1 ==> c == c0 / 10 && v[2] == DigitZero + c0 % 10
      invariant i == 2 ==> c == c0 / 100 && v[2] == DigitZero + c0 % 10 && v[1] == DigitZero + c0 / 10 % 10
      invariant i == 3 ==> v == Digits3(c0)
    {
      var digit: Byte := DigitZero + c % 10;
      v := v[2 - i := digit];
      c := c / 10;
    }
  }

  // ---- pixel records ----------------------------------------------------------------

  /** One pixel line: `rrr ggg bbb\n`. */
  function Record(r: Byte, g: Byte, b: Byte): (line: seq<Byte>)
    ensures |line| == 12
  {
    Digits3(r) + [Space] + Digits3(g) + [Space] + Digits3(b) + [Newline]
  }

  /** Read a pixel line back. */
  function ParseRecord(line: seq<Byte>): Option<(Byte, Byte, Byte)> {
    if |line| != 12 || line[3] != Space || line[7] != Space || line[11] != Newline then None
    else
      match (DecodeDigits(line[0..3]), DecodeDigits(line[4..7]), DecodeDigits(line[8..11]))
      case (Some(r), Some(g), Some(b)) => Some((r, g, b))
      case _ => None
  }

  lemma ParsesAs(line: seq<Byte>, r: Byte, g: Byte, b: Byte)
    requires line == Record(r, g, b)
    ensures ParseRecord(line) == Some((r, g, b))
  {
    RecordParses(r, g, b);
  }

  lemma RecordParses(r: Byte, g: Byte, b: Byte)
    ensures ParseRecord(Record(r, g, b)) == Some((r, g, b))
  {
    var rec := Record(r, g, b);
    assert rec[0..3] == Digits3(r) && rec[4..7] == Digits3(g) && rec[8..11] == Digits3(b);
    DigitsRoundTrip(r, Digits3(r));
    DigitsRoundTrip(g, Digits3(g));
    DigitsRoundTrip(b, Digits3(b));
  }

  /** A record is read back as the channels it was written from, and only a record of
      those channels reads back as them. */
  lemma RecordRoundTrip(r: Byte, g: Byte, b: Byte, line: seq<Byte>)
    ensures ParseRecord(Record(r, g, b)) == Some((r, g, b))
    ensures ParseRecord(line) == Some((r, g, b)) ==> line == Record(r, g, b)
  {
    RecordParses(r, g, b);
    if ParseRecord(line) == Some((r, g, b)) {
      DigitsRoundTrip(r, line[0..3]);
      DigitsRoundTrip(g, line[4..7]);
      DigitsRoundTrip(b, line[8..11]);
      assert line == line[0..3] + [Space] + line[4..7] + [Space] + line[8..11] + [Newline];
    }
  }

  // ---- channel quantisation -----------------------------------------------------------

  /** Rust's `f as u8`: truncate towards zero, then saturate to `0..=255`. */
  function SaturatingCast(f: real): (b: Byte)
    ensures f < 0.0 ==> b == 0
    ensures f >= 256.0 ==> b == 255
    ensures 0.0 <= f < 256.0 ==> b as real <= f < b as real + 1.0
  {
    if f < 0.0 then 0 else if f.Floor > 255 then 255 else f.Floor
  }

  /** The canonical channel: `(sqrt(x) * 256.0) as u8`. The square root of a negative
      channel is NaN, which the cast turns into 0. */
  ghost function GammaByte(x: real): (b: Byte)
    ensures x <= 0.0 ==> b == 0
  {
    if x < 0.0 then 0 else SaturatingCast(Sqrt(x) * 256.0)
  }

  /** `write_pixel(color, samples)` of the canonical writer: scale by `1 / samples`, take
      square roots, quantise. A sample count of zero would divide by zero. */
  ghost function WritePixel(color: Colors.Color, samples: nat): (line: seq<Byte>)
    requires samples > 0
    ensures |line| == 12
  {
    var c := Colors.MulS(color, 1.0 / samples as real);
    Record(GammaByte(c.r), GammaByte(c.g), GammaByte(c.b))
  }

  /** `write_pixel(color)` of the earlier writers: `(channel * 256.) as u8` directly. */
  function EarlyWritePixel(color: Colors.Color): (line: seq<Byte>)
    ensures |line| == 12
  {
    Record(SaturatingCast(color.r * 256.0), SaturatingCast(color.g * 256.0),
           SaturatingCast(color.b * 256.0))
  }

  /** A channel whose average is one or more prints as 255. */
  lemma GammaSaturates(x: real)
    requires SquareRootsExist()
    requires x >= 1.0
    ensures GammaByte(x) == 255
  {
    SqrtAtLeastOne(x);
  }

  /** The canonical pixel line reads back as the quantised averages of its channels; a
      sum of `samples` white samples prints as `255 255 255`. */
  lemma WritePixelContents(color: Colors.Color, samples: nat)
    requires SquareRootsExist()
    requires samples > 0
    ensures var c := Colors.MulS(color, 1.0 / samples as real);
      ParseRecord(WritePixel(color, samples)) == Some((GammaByte(c.r), GammaByte(c.g), GammaByte(c.b)))
    ensures color == Colors.MulS(Colors.White, samples as real) ==>
      WritePixel(color, samples) == [50, 53, 53, 32, 50, 53, 53, 32, 50, 53, 53, 10]
  {
    var c := Colors.MulS(color, 1.0 / samples as real);
    RecordRoundTrip(GammaByte(c.r), GammaByte(c.g), GammaByte(c.b), []);
    if color == Colors.MulS(Colors.White, samples as real) {
      WhiteSamples(samples);
    }
  }

  lemma WhiteSamples(samples: nat)
    requires SquareRootsExist()
    requires samples > 0
    ensures WritePixel(Colors.MulS(Colors.White, samples as real), samples) ==
      [50, 53, 53, 32, 50, 53, 53, 32, 50, 53, 53, 10]
  {
    var n := samples as real;
    var c := Colors.MulS(Colors.MulS(Colors.White, n), 1.0 / n);
    assert n * (1.0 / n) == 1.0;
    assert c == Colors.White;
    GammaSaturates(1.0);
    assert Digits3(255) == [50, 53, 53];
  }

  /** The earlier writers print a pixel as the record of its three channels, each cast
      with `(x * 256.0) as u8`. */
  lemma EarlyWritePixelContents(color: Colors.Color)
    ensures ParseRecord(EarlyWritePixel(color)) ==
      Some((SaturatingCast(color.r * 256.0), SaturatingCast(color.g * 256.0),
            SaturatingCast(color.b * 256.0)))
  {
    ParsesAs(EarlyWritePixel(color), SaturatingCast(color.r * 256.0), SaturatingCast(color.g * 256.0),
             SaturatingCast(color.b * 256.0));
  }

  /** The earlier writers' cast of any channel `x`: a value in `[0, 1)` prints as
      `floor(256 x)`, and one of 1 or more as 255. */
  lemma EarlyChannel(x: real)
    ensures 0.0 <= x < 1.0 ==> SaturatingCast(x * 256.0) == (x * 256.0).Floor
    ensures x >= 1.0 ==> SaturatingCast(x * 256.0) == 255
  {
    if x >= 1.0 {
      assert x * 256.0 >= 256.0;
    }
  }

  // ---- the image body -----------------------------------------------------------------

  /** The pixel lines one after another, in writing order. */
  function Concat(lines: seq<seq<Byte>>): seq<Byte> {
    if |lines| == 0 then [] else Concat(lines[..|lines| - 1]) + lines[|lines| - 1]
  }

  predicate AllRecords(lines: seq<seq<Byte>>) {
    forall k :: 0 <= k < |lines| ==> |lines[k]| == 12
  }

  /** When every line is a 12-byte record, the body is 12 bytes per line and line `k`
      occupies bytes `12 k` to `12 k + 12`. */
  lemma {:induction false} ConcatLayout(lines: seq<seq<Byte>>, k: nat)
    requires AllRecords(lines) && k < |lines|
    ensures |Concat(lines)| == 12 * |lines|
    ensures Concat(lines)[12 * k..12 * k + 12] == lines[k]
    decreases |lines|
  {
    var front := lines[..|lines| - 1];
    var last := lines[|lines| - 1];
    ConcatLength(front);
    assert Concat(lines) == Concat(front) + last;
    if k < |front| {
      ConcatLayout(front, k);
      SlicePrefix(Concat(front), last, 12 * k, 12 * k + 12);
    } else {
      assert (Concat(front) + last)[|Concat(front)|..] == last;
    }
  }

  lemma SlicePrefix(a: seq<Byte>, b: seq<Byte>, i: nat, j: nat)
    requires i <= j <= |a|
    ensures (a + b)[i..j] == a[i..j]
  {
  }

  /** After a header, line `k` of the body starts at byte `|header| + 12 k`. */
  lemma RecordAfterHeader(header: seq<Byte>, lines: seq<seq<Byte>>, k: nat)
    requires AllRecords(lines) && k < |lines|
    ensures |header + Concat(lines)| == |header| + 12 * |lines|
    ensures (header + Concat(lines))[..|header|] == header
    ensures (header + Concat(lines))[|header| + 12 * k..|header| + 12 * k + 12] == lines[k]
  {
    ConcatLayout(lines, k);
    var body := Concat(lines);
    assert (header + body)[|header| + 12 * k..|header| + 12 * k + 12] == body[12 * k..12 * k + 12];
  }

  /** Writing one more line appends its bytes. */
  lemma ConcatAppend(front: seq<seq<Byte>>, last: seq<Byte>)
    ensures Concat(front + [last]) == Concat(front) + last
  {
    assert (front + [last])[..|front|] == front;
  }

  lemma {:induction false} ConcatLength(lines: seq<seq<Byte>>)
    requires AllRecords(lines)
    ensures |Concat(lines)| == 12 * |lines|
    decreases |lines|
  {
    if |lines| > 0 {
      ConcatLength(lines[..|lines| - 1]);
    }
  }
}
