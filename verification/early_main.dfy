/** The `main` loops of the earlier snapshots: src/main.rs sums each pixel's samples with
    `reduce` and writes the pixels row by row from the top, and expanded.rs writes one
    record per pixel after the header, rows `0..height` outside and columns `0..width`
    inside. The colours they compute are parameters here. */
module EarlyMain {
  import opened Options
  import Colors
  import opened Ppm
  import opened Pixels
  import opened Headless

  /** `samples.reduce(|accum, sample| accum + sample)`: the samples added from the first
      one on; `None` for no samples, where the `unwrap` that follows panics. */
  function SumSamples(samples: seq<Colors.Color>): (r: Option<Colors.Color>)
    ensures r.None? <==> |samples| == 0
  {
    if |samples| == 0 then None
    else if |samples| == 1 then Some(samples[0])
    else Some(Colors.Add(SumSamples(samples[..|samples| - 1]).value, samples[|samples| - 1]))
  }

  /** The early renderer sums a pixel's samples to the same colour as the headless
      renderer's passes do, which start from black. */
  lemma {:induction false} SumMatchesPasses(samples: seq<Colors.Color>, sample: (nat, nat, nat) -> Colors.Color,
                                            i: nat, j: nat)
    requires |samples| > 0
    requires forall s :: 0 <= s < |samples| ==> samples[s] == sample(s, i, j)
    ensures SumSamples(samples) == Some(SampleSum(sample, i, j, |samples|))
    decreases |samples|
  {
    if |samples| > 1 {
      SumMatchesPasses(samples[..|samples| - 1], sample, i, j);
    }
  }

  /** The order of src/main.rs's writes: rows `j` from `h - 1` down to 0, columns `i` from
      0 to `w - 1`, one write each. The `k`-th write is the pixel of headless cell `k`. */
  method EarlyWriteOrder(width: nat, height: nat) returns (order: seq<(nat, nat)>)
    ensures |order| == width * height
    ensures forall k :: 0 <= k < |order| ==>
      order[k] == PixelAt(k, width, height) &&
      PixelIndex(order[k].0, order[k].1, width, height) == k
  {
    order := [];
    var j := height;
    while j > 0
      invariant j <= height
      invariant |order| == (height - j) * width && |order| <= width * height
      invariant forall k :: 0 <= k < |order| ==>
        order[k] == PixelAt(k, width, height) &&
        PixelIndex(order[k].0, order[k].1, width, height) == k
    {
      j := j - 1;
      var row := height - 1 - j;
      NextRow(row, width);
      RowStart(row, width, height);
      var i := 0;
      while i < width
        invariant i <= width
        invariant |order| == row * width + i
        invariant forall k :: 0 <= k < |order| ==>
          order[k] == PixelAt(k, width, height) &&
          PixelIndex(order[k].0, order[k].1, width, height) == k
      {
        ScanOrder(row, i, width, height);
        order := order + [(i, j)];
        i := i + 1;
      }
    }
  }

  /** The number of records in the first `i` rows, counted row by row. */
  function RowsStart(i: nat, width: nat): nat {
    if i == 0 then 0 else RowsStart(i - 1, width) + width
  }

  lemma {:induction false} RowsStartIsProduct(i: nat, width: nat)
    ensures RowsStart(i, width) == i * width
  {
    if i > 0 {
      RowsStartIsProduct(i - 1, width);
      NextRow(i - 1, width);
    }
  }

  /** The records expanded.rs's `main` has written once it reaches column `j` of row `i`:
      every column of the rows before `i`, then columns `0..j` of row `i`. */
  function ExpandedLines(pixel: (nat, nat) -> Colors.Color, width: nat, i: nat, j: nat): (lines: seq<seq<Byte>>)
    requires j <= width
    ensures |lines| == RowsStart(i, width) + j && AllRecords(lines)
    decreases i, j
  {
    if j > 0 then ExpandedLines(pixel, width, i, j - 1) + [EarlyWritePixel(pixel(i, j - 1))]
    else if i > 0 then ExpandedLines(pixel, width, i - 1, width)
    else []
  }

  /** Record `RowsStart(i', w) + j'`, that is `i' w + j'`, is the record of pixel `(i', j')`. */
  lemma {:induction false} ExpandedLineAt(pixel: (nat, nat) -> Colors.Color, width: nat, i: nat, j: nat,
                                          i': nat, j': nat)
    requires j <= width && j' < width
    requires i' < i || (i' == i && j' < j)
    ensures 0 <= RowsStart(i', width) + j' < RowsStart(i, width) + j
    ensures ExpandedLines(pixel, width, i, j)[RowsStart(i', width) + j'] == EarlyWritePixel(pixel(i', j'))
    decreases i, j
  {
    if j > 0 {
      if i' == i && j' == j - 1 {
      } else {
        ExpandedLineAt(pixel, width, i, j - 1, i', j');
      }
    } else {
      ExpandedLineAt(pixel, width, i - 1, width, i', j');
    }
  }

  /** Writing pixel `(i, j)` appends its record. */
  lemma ExpandedStep(header: seq<Byte>, pixel: (nat, nat) -> Colors.Color, width: nat, i: nat, j: nat)
    requires j < width
    ensures header + Concat(ExpandedLines(pixel, width, i, j + 1)) ==
      header + Concat(ExpandedLines(pixel, width, i, j)) + EarlyWritePixel(pixel(i, j))
  {
    var before := ExpandedLines(pixel, width, i, j);
    var record := EarlyWritePixel(pixel(i, j));
    assert ExpandedLines(pixel, width, i, j + 1) == before + [record];
    ConcatAppend(before, record);
  }

  /** Record `k` after the first `offset` bytes of `image` is `line`. */
  predicate RecordIs(image: seq<Byte>, offset: nat, k: int, line: seq<Byte>) {
    0 <= k && offset + 12 * k + 12 <= |image| && image[offset + 12 * k..offset + 12 * k + 12] == line
  }

  /** `image` is `header` followed by exactly `height * width` records, the record of
      pixel `(i, j)` at position `i w + j`. */
  predicate RowMajorImage(image: seq<Byte>, header: seq<Byte>, pixel: (nat, nat) -> Colors.Color,
                          width: nat, height: nat)
  {
    |image| == |header| + 12 * (height * width) && image[..|header|] == header &&
    forall i: nat, j: nat :: i < height && j < width ==> PixelRecorded(image, |header|, pixel, width, height, i, j)
  }

  /** Pixel `(i, j)` is one of the `height * width` pixels, and its record is record
      `i w + j` after the first `offset` bytes. */
  predicate PixelRecorded(image: seq<Byte>, offset: nat, pixel: (nat, nat) -> Colors.Color,
                          width: nat, height: nat, i: nat, j: nat)
  {
    i * width + j < height * width && RecordIs(image, offset, i * width + j, EarlyWritePixel(pixel(i, j)))
  }

  /** The header followed by every record of the image is in row order. */
  lemma ExpandedLayout(header: seq<Byte>, pixel: (nat, nat) -> Colors.Color, width: nat, height: nat)
    ensures RowMajorImage(header + Concat(ExpandedLines(pixel, width, height, 0)), header, pixel, width, height)
  {
    var lines := ExpandedLines(pixel, width, height, 0);
    var image := header + Concat(lines);
    ConcatLength(lines);
    RowsStartIsProduct(height, width);
    assert image[..|header|] == header;
    forall i: nat, j: nat | i < height && j < width
      ensures PixelRecorded(image, |header|, pixel, width, height, i, j)
    {
      ExpandedRecordAt(header, pixel, width, height, i, j);
    }
  }

  lemma ExpandedRecordAt(header: seq<Byte>, pixel: (nat, nat) -> Colors.Color, width: nat, height: nat,
                         i: nat, j: nat)
    requires i < height && j < width
    ensures PixelRecorded(header + Concat(ExpandedLines(pixel, width, height, 0)), |header|, pixel, width, height, i, j)
  {
    var lines := ExpandedLines(pixel, width, height, 0);
    ConcatLength(lines);
    ExpandedLineAt(pixel, width, height, 0, i, j);
    RowsStartIsProduct(i, width);
    RowsStartIsProduct(height, width);
    var k := i * width + j;
    assert k < |lines| && lines[k] == EarlyWritePixel(pixel(i, j));
    RecordAfterHeader(header, lines, k);
  }

  /** `main` of expanded.rs: the header, then for `i` in `0..height` and `j` in
      `0..width` the record of `pixel(i, j)`, so the file holds exactly `height * width`
      records, row by row. */
  method WriteExpandedImage(width: nat, height: nat, pixel: (nat, nat) -> Colors.Color)
    returns (out: seq<Byte>)
    ensures RowMajorImage(out, Header(width, height), pixel, width, height)
  {
    var header := Header(width, height);
    out := header;
    var i := 0;
    while i < height
      invariant i <= height
      invariant out == header + Concat(ExpandedLines(pixel, width, i, 0))
    {
      var j := 0;
      while j < width
        invariant j <= width
        invariant out == header + Concat(ExpandedLines(pixel, width, i, j))
      {
        ExpandedStep(header, pixel, width, i, j);
        out := out + EarlyWritePixel(pixel(i, j));
        j := j + 1;
      }
      i := i + 1;
    }
    ExpandedLayout(header, pixel, width, height);
  }
}
