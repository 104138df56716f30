/** The sequential part of headless/src/main.rs: one thread's passes over the image, each
    adding one sample to every cell of the shared buffer, and the final write of the buffer
    with the total sample count as divisor. */
module Headless {
  import Colors
  import opened Ppm
  import opened Pixels

  /** One pass: rows from the top down, columns left to right, adding the pass's sample of
      pixel `(i, j)` to cell `(h - j - 1) w + i`. Every cell gets exactly the sample of its
      own pixel. */
  method AccumulatePass(buffer: seq<Colors.Color>, width: nat, height: nat,
                        sample: (nat, nat) -> Colors.Color) returns (out: seq<Colors.Color>)
    requires |buffer| == width * height
    ensures |out| == |buffer|
    ensures forall k :: 0 <= k < |out| ==>
      var p := PixelAt(k, width, height);
      out[k] == Colors.Add(buffer[k], sample(p.0, p.1))
  {
    out := buffer;
    var row := 0;
    while row < height
      invariant row <= height
      invariant |out| == |buffer|
      invariant forall k :: 0 <= k < |buffer| && k < row * width ==>
        var p := PixelAt(k, width, height);
        out[k] == Colors.Add(buffer[k], sample(p.0, p.1))
      invariant forall k :: row * width <= k < |out| ==> out[k] == buffer[k]
    {
      out := AccumulateRow(out, buffer, width, height, row, sample);
      row := row + 1;
    }
  }

  /** The columns of row `height - 1 - row` of one pass, left to right: they fill cells
      `[row w, (row + 1) w)`. */
  method AccumulateRow(cells: seq<Colors.Color>, buffer: seq<Colors.Color>, width: nat, height: nat, row: nat,
                       sample: (nat, nat) -> Colors.Color) returns (out: seq<Colors.Color>)
    requires |cells| == |buffer| == width * height && row < height
    requires forall k :: 0 <= k < |buffer| && k < row * width ==>
      var p := PixelAt(k, width, height);
      cells[k] == Colors.Add(buffer[k], sample(p.0, p.1))
    requires forall k :: row * width <= k < |cells| ==> cells[k] == buffer[k]
    ensures |out| == |buffer|
    ensures forall k :: 0 <= k < |buffer| && k < (row + 1) * width ==>
      var p := PixelAt(k, width, height);
      out[k] == Colors.Add(buffer[k], sample(p.0, p.1))
    ensures forall k :: (row + 1) * width <= k < |out| ==> out[k] == buffer[k]
  {
    var start := row * width;
    RowStart(row, width, height);
    NextRow(row, width);
    out := cells;
    var i := 0;
    while i < width
      invariant i <= width
      invariant |out| == |buffer|
      invariant forall k :: 0 <= k < |buffer| && k < start + i ==>
        var p := PixelAt(k, width, height);
        out[k] == Colors.Add(buffer[k], sample(p.0, p.1))
      invariant forall k :: start + i <= k < |out| ==> out[k] == buffer[k]
    {
      ScanOrder(row, i, width, height);
      var index := PixelIndex(i, height - 1 - row, width, height);
      out := out[index := Colors.Add(out[index], sample(i, height - 1 - row))];
      i := i + 1;
    }
  }

  lemma NextRow(row: nat, width: nat)
    ensures row * width + width == (row + 1) * width
  {
  }

  /** The sum of the first `n` samples of pixel `(i, j)`. */
  function SampleSum(sample: (nat, nat, nat) -> Colors.Color, i: nat, j: nat, n: nat): Colors.Color {
    if n == 0 then Colors.Black else Colors.Add(SampleSum(sample, i, j, n - 1), sample(n - 1, i, j))
  }

  /** One thread's work: a buffer of black cells and `passes` passes over it, pass `s`
      contributing `sample(s, i, j)` to pixel `(i, j)`. Afterwards every cell holds the sum
      of its own pixel's samples. */
  method RenderThread(width: nat, height: nat, passes: nat, sample: (nat, nat, nat) -> Colors.Color)
    returns (buffer: seq<Colors.Color>)
    ensures |buffer| == width * height
    ensures forall k :: 0 <= k < |buffer| ==>
      var p := PixelAt(k, width, height);
      buffer[k] == SampleSum(sample, p.0, p.1, passes)
  {
    buffer := seq(width * height, _ => Colors.Black);
    var s := 0;
    while s < passes
      invariant s <= passes
      invariant |buffer| == width * height
      invariant forall k :: 0 <= k < |buffer| ==>
        var p := PixelAt(k, width, height);
        buffer[k] == SampleSum(sample, p.0, p.1, s)
    {
      buffer := AccumulatePass(buffer, width, height, (i: nat, j: nat) => sample(s, i, j));
      s := s + 1;
    }
  }

  /** The image file: the header, then every cell in buffer order, each divided by the
      total sample count `samples_per_thread * thread_count`. */
  ghost function HeadlessImage(buffer: seq<Colors.Color>, width: nat, height: nat,
                               samplesPerThread: nat, threadCount: nat): (image: seq<Byte>)
    requires samplesPerThread > 0 && threadCount > 0
    ensures |image| == |Header(width, height)| + 12 * |buffer|
  {
    Positive(samplesPerThread, threadCount);
    var lines := seq(|buffer|, k requires 0 <= k < |buffer| => WritePixel(buffer[k], samplesPerThread * threadCount));
    ConcatLength(lines);
    Header(width, height) + Concat(lines)
  }

  lemma Positive(a: nat, b: nat)
    requires a > 0 && b > 0
    ensures a * b > 0
  {
  }

  /** Record `k` of the image is cell `k` written with the total sample count. */
  lemma HeadlessImageLayout(buffer: seq<Colors.Color>, width: nat, height: nat,
                            samplesPerThread: nat, threadCount: nat, k: nat)
    requires samplesPerThread > 0 && threadCount > 0 && k < |buffer|
    ensures var divisor := samplesPerThread * threadCount;
      var start := |Header(width, height)| + 12 * k;
      divisor > 0 &&
      HeadlessImage(buffer, width, height, samplesPerThread, threadCount)[..|Header(width, height)|] ==
        Header(width, height) &&
      HeadlessImage(buffer, width, height, samplesPerThread, threadCount)[start..start + 12] ==
        WritePixel(buffer[k], divisor)
  {
    Positive(samplesPerThread, threadCount);
    var lines := seq(|buffer|, k requires 0 <= k < |buffer| => WritePixel(buffer[k], samplesPerThread * threadCount));
    RecordAfterHeader(Header(width, height), lines, k);
  }
}
