/**
 The flat map buffer shared by both generators: a grid of `width * height`
 cells stored as one sequence, where cell `(x, y)` lives at `x * width + y`.
 Neighbours are addressed by re-flattening `(x + i, y + j)` without any
 column check, and bounds are checked against the flat range only.
 */
module Grid {

  /** The only dimensions the generators accept: a non-empty grid. */
  predicate ValidDims(width: int, height: int)
  {
    width > 0 && height > 0
  }

  /** A flat index lies inside a map of `size` cells. */
  predicate InBounds(size: int, n: int)
  {
    0 <= n < size
  }

  /** Offset `(i', j')` comes before `(i, j)` in the order of the nested offset loops. */
  predicate Before(i': int, j': int, i: int, j: int)
  {
    i' < i || (i' == i && j' < j)
  }

  /**
   The flat index of the cell at offset `(i, j)` from `index`, computed the
   way the generators do it: split `index` into row `x` and column `y`, move,
   and flatten again. Because the column is never checked, this is simply
   `index` moved by `i` rows and `j` cells, so a step off the right or left
   edge of a row lands on the neighbouring row.
   */
  function Neighbour(width: int, index: int, i: int, j: int): (n: int)
    requires width > 0
    ensures n == index + i * width + j
  {
    var x, y := index / width, index % width;
    (x + i) * width + (y + j)
  }

  /**
   The row-wrap of the flat neighbour arithmetic: from the last column of a
   row the offset `(0, 1)` reaches the first cell of the next row, and from
   the first column the offset `(0, -1)` reaches the last cell of the
   previous row.
   */
  lemma RowWrap(width: int, index: int)
    requires width > 0 && index >= 0
    ensures index % width == width - 1 ==>
      var n := Neighbour(width, index, 0, 1);
      n / width == index / width + 1 && n % width == 0
    ensures index % width == 0 && index >= width ==>
      var n := Neighbour(width, index, 0, -1);
      n / width == index / width - 1 && n % width == width - 1
  {
    var x, y := index / width, index % width;
    assert index == x * width + y;
    if y == width - 1 {
      var n := index + 1;
      assert n == (x + 1) * width + 0;
      DivModUnique(width, n, x + 1, 0);
    }
    if y == 0 && index >= width {
      var n := index - 1;
      assert n == (x - 1) * width + (width - 1);
      DivModUnique(width, n, x - 1, width - 1);
    }
  }

  /** Row and column of a flat index are unique. */
  lemma DivModUnique(width: int, n: int, q: int, r: int)
    requires width > 0 && 0 <= r < width && n == q * width + r
    ensures n / width == q && n % width == r
  {
    var q', r' := n / width, n % width;
    assert q * width + r == q' * width + r';
    if q > q' {
      assert (q - q') * width == q * width - q' * width;
      MulAtLeast(q - q', width);
    } else if q < q' {
      assert (q' - q) * width == q' * width - q * width;
      MulAtLeast(q' - q, width);
    }
  }

  lemma MulAtLeast(a: int, width: int)
    requires a >= 1 && width > 0
    ensures a * width >= width
  {
    assert a * width == (a - 1) * width + width;
  }
}
