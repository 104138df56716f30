/** The pixel layout shared by the renderers: rows are scanned from the top row `h - 1` down
    to row 0, columns from left to right, and cell `(h - j - 1) w + i` of the headless
    buffer holds pixel `(i, j)`, so the buffer is in writing order. */
module Pixels {

  /** The buffer cell of column `i`, row `j`. */
  function PixelIndex(i: nat, j: nat, width: nat, height: nat): (k: nat)
    requires i < width && j < height
    ensures k < width * height
  {
    RowStart(height - j - 1, width, height);
    (height - j - 1) * width + i
  }

  /** The column and row whose cell is `k`. */
  function PixelAt(k: nat, width: nat, height: nat): (p: (nat, nat))
    requires k < width * height
    ensures p.0 < width && p.1 < height
  {
    QuotientBelow(k, width, height);
    (k % width, height - 1 - k / width)
  }

  lemma RowStart(row: nat, width: nat, height: nat)
    requires row < height
    ensures row * width + width <= width * height
  {
    assert (row + 1) * width <= height * width by {
      MulMonotone(row + 1, height, width);
    }
  }

  lemma MulMonotone(a: nat, b: nat, w: nat)
    requires a <= b
    ensures a * w <= b * w
  {
    assert b * w == a * w + (b - a) * w;
  }

  lemma QuotientBelow(k: nat, width: nat, height: nat)
    requires k < width * height
    ensures width > 0 && k / width < height
  {
    assert width != 0;
    var q := k / width;
    if q >= height {
      MulMonotone(height, q, width);
    }
  }

  /** Integer division has exactly one quotient and remainder. */
  lemma DivModUnique(k: nat, w: nat, q: nat, r: nat)
    requires 0 <= r < w && k == q * w + r
    ensures k / w == q && k % w == r
  {
    var q', r' := k / w, k % w;
    assert q' * w + r' == q * w + r;
    if q' > q {
      MulMonotone(q + 1, q', w);
    } else if q' < q {
      MulMonotone(q' + 1, q, w);
    }
  }

  /** The index mapping is a bijection between the pixels and the cells `[0, w h)`: each
      pixel's cell maps back to it and each cell's pixel maps back to it, so distinct pixels
      have distinct cells and a pass over all pixels touches every cell once. */
  lemma IndexBijection(i: nat, j: nat, k: nat, width: nat, height: nat)
    requires i < width && j < height && k < width * height
    ensures PixelAt(PixelIndex(i, j, width, height), width, height) == (i, j)
    ensures PixelIndex(PixelAt(k, width, height).0, PixelAt(k, width, height).1, width, height) == k
  {
    DivModUnique(PixelIndex(i, j, width, height), width, height - j - 1, i);
    QuotientBelow(k, width, height);
  }

  /** Two pixels share a cell only if they are the same pixel. */
  lemma IndexInjective(i: nat, j: nat, i': nat, j': nat, width: nat, height: nat)
    requires i < width && j < height && i' < width && j' < height
    requires PixelIndex(i, j, width, height) == PixelIndex(i', j', width, height)
    ensures i == i' && j == j'
  {
    IndexBijection(i, j, 0, width, height);
    IndexBijection(i', j', 0, width, height);
  }

  /** The cell of the `i`-th column in the `row`-th row scanned. */
  lemma ScanOrder(row: nat, i: nat, width: nat, height: nat)
    requires row < height && i < width
    ensures PixelIndex(i, height - 1 - row, width, height) == row * width + i
    ensures PixelAt(row * width + i, width, height) == (i, height - 1 - row)
  {
    IndexBijection(i, height - 1 - row, 0, width, height);
  }
}
