/**
 * The pure rules of the gallery view: how the photo indices are dealt out
 * over the columns, which item carries the infinite-scroll sentinel, how
 * an arriving page is appended to the bounded window of photos, and how
 * the viewport width picks the number of columns.
 */
module GalleryLayout {

  /** Maximum number of photos the gallery keeps in memory. */
  const PHOTOS_LIMIT: nat := 300

  // ---------------------------------------------------------------------
  // Arithmetic helpers
  // ---------------------------------------------------------------------

  lemma {:induction false} MulMono(a: nat, b: nat, k: nat)
    requires a <= b
    ensures a * k <= b * k
  {
    if k > 0 {
      MulMono(a, b, k - 1);
      assert a * k == a * (k - 1) + a;
      assert b * k == b * (k - 1) + b;
    }
  }

  /** `k * d + c` with `c < d` has quotient `k` and remainder `c`. */
  lemma DivModUnique(i: nat, d: nat, k: nat, c: nat)
    requires c < d && i == k * d + c
    ensures i / d == k && i % d == c
  {
    var q, r := i / d, i % d;
    assert i == q * d + r;
    if k < q {
      MulMono(k + 1, q, d);
    } else if q < k {
      MulMono(q + 1, k, d);
    }
  }

  /** `Math.ceil(n / d)` on naturals: the least `q` with `q * d >= n`. */
  function CeilDiv(n: nat, d: nat): (q: nat)
    requires d > 0
    ensures q * d >= n
    ensures q == 0 || (q - 1) * d < n
  {
    var q := (n + d - 1) / d;
    assert n + d - 1 == q * d + (n + d - 1) % d;
    assert q > 0 ==> (q - 1) * d == q * d - d;
    q
  }

  // ---------------------------------------------------------------------
  // Column layout
  // ---------------------------------------------------------------------

  /** `Array.from({length: count}, (_, row) => row * cols + col)`. */
  function Rows(count: nat, cols: nat, col: nat): (s: seq<nat>)
    ensures |s| == count
  {
    seq(count, (row: int) requires 0 <= row => row * cols + col)
  }

  /** `.filter(index => index < n)`. */
  function Below(s: seq<nat>, n: nat): (r: seq<nat>)
    ensures |r| <= |s|
    ensures forall x :: x in r <==> x in s && x < n
  {
    if s == [] then []
    else if s[0] < n then [s[0]] + Below(s[1..], n)
    else Below(s[1..], n)
  }

  /** The indices shown in column `col` when `n` photos are laid out over `cols` columns. */
  function Column(n: nat, cols: nat, col: nat): (column: seq<nat>)
    requires cols > 0
    ensures |column| <= CeilDiv(n, cols)
    ensures forall x :: x in column ==> x < n
  {
    Below(Rows(CeilDiv(n, cols), cols, col), n)
  }

  /** The column index lists of the gallery: one list per column. */
  function ColumnIndices(n: nat, cols: nat): (columns: seq<seq<nat>>)
    requires cols > 0
    ensures |columns| == cols
  {
    seq(cols, (col: int) requires 0 <= col => Column(n, cols, col))
  }

  /**
   * How many of the indices `0 .. n-1` are congruent to `col` modulo `cols`:
   * every column gets `n / cols` of them, and the first `n % cols` columns
   * one more.
   */
  function ColumnSize(n: nat, cols: nat, col: nat): nat
    requires cols > 0
  {
    n / cols + (if col < n % cols then 1 else 0)
  }

  /** Row `row` of column `col` holds a photo exactly when `row < ColumnSize(n, cols, col)`. */
  lemma RowInRange(n: nat, cols: nat, col: nat, row: nat)
    requires col < cols
    ensures row * cols + col < n <==> row < ColumnSize(n, cols, col)
  {
    var q, r := n / cols, n % cols;
    assert n == q * cols + r;
    if row < q {
      MulMono(row + 1, q, cols);
      assert (row + 1) * cols == row * cols + cols;
    } else if row > q {
      MulMono(q + 1, row, cols);
      assert (q + 1) * cols == q * cols + cols;
    }
  }

  /** Filtering a sequence whose first `k` elements are below `n` and the rest are not keeps the first `k`. */
  lemma {:induction false} BelowPrefix(s: seq<nat>, n: nat, k: nat)
    requires k <= |s|
    requires forall j :: 0 <= j < k ==> s[j] < n
    requires forall j :: k <= j < |s| ==> s[j] >= n
    ensures Below(s, n) == s[..k]
  {
    if s != [] {
      if k > 0 {
        BelowPrefix(s[1..], n, k - 1);
        assert s[..k] == [s[0]] + s[1..][..k - 1];
      } else {
        BelowPrefix(s[1..], n, 0);
      }
    }
  }

  /** Closed form of a column: `col, col + cols, col + 2 * cols, ...`, as many as `ColumnSize` says. */
  lemma ColumnClosedForm(n: nat, cols: nat, col: nat)
    requires col < cols
    ensures |Column(n, cols, col)| == ColumnSize(n, cols, col)
    ensures forall k :: 0 <= k < |Column(n, cols, col)| ==> Column(n, cols, col)[k] == k * cols + col
  {
    var m := CeilDiv(n, cols);
    var rows := Rows(m, cols, col);
    var size := ColumnSize(n, cols, col);
    if size > m {
      RowInRange(n, cols, col, m);
      assert false;
    }
    forall j | 0 <= j < |rows|
      ensures (j < size ==> rows[j] < n) && (size <= j ==> rows[j] >= n)
    {
      RowInRange(n, cols, col, j);
    }
    BelowPrefix(rows, n, size);
  }

  lemma ColumnLength(n: nat, cols: nat, col: nat)
    requires col < cols
    ensures |ColumnIndices(n, cols)[col]| == ColumnSize(n, cols, col)
  {
    ColumnClosedForm(n, cols, col);
  }

  /** Every cell of the layout: column `col`, position `k` holds index `k * cols + col`, below `n`. */
  lemma ColumnEntry(n: nat, cols: nat, col: nat, k: nat)
    requires col < cols
    requires k < |ColumnIndices(n, cols)[col]|
    ensures ColumnIndices(n, cols)[col][k] == k * cols + col
    ensures ColumnIndices(n, cols)[col][k] < n
    ensures ColumnIndices(n, cols)[col][k] % cols == col
    ensures ColumnIndices(n, cols)[col][k] / cols == k
  {
    ColumnClosedForm(n, cols, col);
    RowInRange(n, cols, col, k);
    DivModUnique(k * cols + col, cols, k, col);
  }

  /** Index `i < n` lies in column `i % cols` at position `i / cols`. */
  lemma IndexPlacement(n: nat, cols: nat, i: nat)
    requires cols > 0 && i < n
    ensures i / cols < |ColumnIndices(n, cols)[i % cols]|
    ensures ColumnIndices(n, cols)[i % cols][i / cols] == i
  {
    var col, row := i % cols, i / cols;
    assert i == row * cols + col;
    assert ColumnIndices(n, cols)[col] == Column(n, cols, col);
    RowInRange(n, cols, col, row);
    ColumnClosedForm(n, cols, col);
  }

  /** Index `i` appears nowhere else: the only cell holding it is that of `IndexPlacement`. */
  lemma IndexUnique(n: nat, cols: nat, i: nat, col: nat, k: nat)
    requires col < cols
    requires k < |ColumnIndices(n, cols)[col]|
    requires ColumnIndices(n, cols)[col][k] == i
    ensures col == i % cols && k == i / cols
  {
    ColumnEntry(n, cols, col, k);
  }

  /**
   * The layout partitions `0 .. n-1`: there are `cols` columns, an index is in
   * column `col` exactly when it is below `n` and congruent to `col`, and each
   * index occupies exactly one cell.
   */
  lemma ColumnsPartition(n: nat, cols: nat)
    requires cols > 0
    ensures |ColumnIndices(n, cols)| == cols
    ensures forall col, i :: 0 <= col < cols ==>
      (i in ColumnIndices(n, cols)[col] <==> 0 <= i < n && i % cols == col)
    ensures forall col, k :: 0 <= col < cols && 0 <= k < |ColumnIndices(n, cols)[col]| ==>
      ColumnIndices(n, cols)[col][k] < n
    ensures forall col, k, col', k' ::
      0 <= col < cols && 0 <= k < |ColumnIndices(n, cols)[col]| &&
      0 <= col' < cols && 0 <= k' < |ColumnIndices(n, cols)[col']| &&
      ColumnIndices(n, cols)[col][k] == ColumnIndices(n, cols)[col'][k'] ==>
      col == col' && k == k'
  {
    var columns := ColumnIndices(n, cols);
    forall col, i | 0 <= col < cols
      ensures i in columns[col] <==> 0 <= i < n && i % cols == col
    {
      if i in columns[col] {
        var k :| 0 <= k < |columns[col]| && columns[col][k] == i;
        ColumnEntry(n, cols, col, k);
      }
      if 0 <= i < n && i % cols == col {
        IndexPlacement(n, cols, i);
      }
    }
    forall col, k | 0 <= col < cols && 0 <= k < |columns[col]|
      ensures columns[col][k] < n
    {
      ColumnEntry(n, cols, col, k);
    }
    forall col, k, col', k' |
      0 <= col < cols && 0 <= k < |columns[col]| &&
      0 <= col' < cols && 0 <= k' < |columns[col']| &&
      columns[col][k] == columns[col'][k']
      ensures col == col' && k == k'
    {
      var i := columns[col][k];
      IndexUnique(n, cols, i, col, k);
      IndexUnique(n, cols, i, col', k');
    }
  }

  /** Each column lists its indices in strictly increasing order. */
  lemma ColumnIncreasing(n: nat, cols: nat, col: nat)
    requires col < cols
    ensures forall j, k :: 0 <= j < k < |ColumnIndices(n, cols)[col]| ==>
      ColumnIndices(n, cols)[col][j] < ColumnIndices(n, cols)[col][k]
  {
    var column := ColumnIndices(n, cols)[col];
    forall j, k | 0 <= j < k < |column|
      ensures column[j] < column[k]
    {
      ColumnEntry(n, cols, col, j);
      ColumnEntry(n, cols, col, k);
      MulMono(j + 1, k, cols);
      assert (j + 1) * cols == j * cols + cols;
    }
  }

  /** Column sizes never grow from left to right, and the first and last differ by at most one. */
  lemma ColumnSizesBalanced(n: nat, cols: nat, col: nat, col': nat)
    requires col <= col' < cols
    ensures |ColumnIndices(n, cols)[col']| <= |ColumnIndices(n, cols)[col]| <= |ColumnIndices(n, cols)[col']| + 1
  {
    ColumnClosedForm(n, cols, col);
    ColumnClosedForm(n, cols, col');
  }

  /** Total number of cells over a list of columns. */
  function TotalLength(columns: seq<seq<nat>>): nat
  {
    if columns == [] then 0 else TotalLength(columns[..|columns| - 1]) + |columns[|columns| - 1]|
  }

  lemma {:induction false} PrefixTotal(n: nat, cols: nat, c: nat)
    requires 0 < cols && c <= cols
    ensures TotalLength(ColumnIndices(n, cols)[..c]) ==
      c * (n / cols) + (if c < n % cols then c else n % cols)
  {
    if c > 0 {
      var columns := ColumnIndices(n, cols);
      var prefix := columns[..c];
      PrefixTotal(n, cols, c - 1);
      assert prefix[..c - 1] == columns[..c - 1];
      ColumnLength(n, cols, c - 1);
      assert TotalLength(prefix) == TotalLength(columns[..c - 1]) + ColumnSize(n, cols, c - 1);
      PrefixStep(c, n / cols, n % cols);
    }
  }

  /** Adding one more column's size to the total of the columns before it. */
  lemma PrefixStep(c: nat, q: nat, r: nat)
    requires c > 0
    ensures (c - 1) * q + (if c - 1 < r then c - 1 else r) + (q + (if c - 1 < r then 1 else 0)) ==
      c * q + (if c < r then c else r)
  {
    assert c * q == (c - 1) * q + q;
  }

  /** The columns together hold exactly `n` cells: no index is lost or repeated. */
  lemma ColumnsCoverAll(n: nat, cols: nat)
    requires cols > 0
    ensures TotalLength(ColumnIndices(n, cols)) == n
  {
    PrefixTotal(n, cols, cols);
    assert ColumnIndices(n, cols)[..cols] == ColumnIndices(n, cols);
  }

  /** Seven photos over three columns: `[[0, 3, 6], [1, 4], [2, 5]]`. */
  lemma SevenOverThree()
    ensures ColumnIndices(7, 3) == [[0, 3, 6], [1, 4], [2, 5]]
  {
    ColumnClosedForm(7, 3, 0);
    ColumnClosedForm(7, 3, 1);
    ColumnClosedForm(7, 3, 2);
    assert ColumnIndices(7, 3)[0] == [0, 3, 6];
    assert ColumnIndices(7, 3)[1] == [1, 4];
    assert ColumnIndices(7, 3)[2] == [2, 5];
  }

  /** The photos of each column, in the order they are rendered. */
  function ColumnPhotos<T>(photos: seq<T>, cols: nat): (grid: seq<seq<T>>)
    requires cols > 0
    ensures |grid| == cols
  {
    var columns := ColumnIndices(|photos|, cols);
    ColumnsPartition(|photos|, cols);
    seq(cols, (col: int) requires 0 <= col < cols =>
      seq(|columns[col]|, (k: int) requires 0 <= k < |columns[col]| => photos[columns[col][k]]))
  }

  /** Photo `i` is rendered in column `i % cols`, at row `i / cols`. */
  lemma ColumnPhotosPlacement<T>(photos: seq<T>, cols: nat, i: nat)
    requires cols > 0 && i < |photos|
    ensures i / cols < |ColumnPhotos(photos, cols)[i % cols]|
    ensures ColumnPhotos(photos, cols)[i % cols][i / cols] == photos[i]
  {
    IndexPlacement(|photos|, cols, i);
  }

  // ---------------------------------------------------------------------
  // Sentinel
  // ---------------------------------------------------------------------

  /** The item that receives the infinite-scroll observer: the last photo of the window. */
  predicate IsSentinel(n: nat, index: nat)
  {
    index == n - 1
  }

  /**
   * With at least one photo, exactly one cell of the layout holds the sentinel:
   * the last cell of column `(n - 1) % cols`. With none, there is no sentinel.
   */
  lemma SentinelPlacement(n: nat, cols: nat)
    requires cols > 0
    ensures n == 0 ==> forall col :: 0 <= col < cols ==> ColumnIndices(n, cols)[col] == []
    ensures forall col, k :: 0 <= col < cols && 0 <= k < |ColumnIndices(n, cols)[col]| ==>
      (IsSentinel(n, ColumnIndices(n, cols)[col][k]) <==> col == (n - 1) % cols && k == (n - 1) / cols)
    ensures n > 0 ==> (n - 1) / cols == |ColumnIndices(n, cols)[(n - 1) % cols]| - 1
  {
    var columns := ColumnIndices(n, cols);
    forall col, k | 0 <= col < cols && 0 <= k < |columns[col]|
      ensures IsSentinel(n, columns[col][k]) <==> col == (n - 1) % cols && k == (n - 1) / cols
    {
      ColumnEntry(n, cols, col, k);
      if IsSentinel(n, columns[col][k]) {
        IndexUnique(n, cols, n - 1, col, k);
      } else if col == (n - 1) % cols && k == (n - 1) / cols {
        IndexPlacement(n, cols, n - 1);
      }
    }
    if n == 0 {
      forall col | 0 <= col < cols
        ensures columns[col] == []
      {
        if columns[col] != [] {
          ColumnEntry(n, cols, col, 0);
        }
      }
    } else {
      SentinelIsLast(n, cols);
    }
  }

  lemma SentinelIsLast(n: nat, cols: nat)
    requires cols > 0 && n > 0
    ensures (n - 1) / cols == |ColumnIndices(n, cols)[(n - 1) % cols]| - 1
  {
    var col, row := (n - 1) % cols, (n - 1) / cols;
    var column := ColumnIndices(n, cols)[col];
    IndexPlacement(n, cols, n - 1);
    var last := |column| - 1;
    if row < last {
      ColumnEntry(n, cols, col, last);
      ColumnIncreasing(n, cols, col);
      assert false;
    }
  }

  // ---------------------------------------------------------------------
  // Bounded window
  // ---------------------------------------------------------------------

  /**
   * JavaScript `s.slice(-k)` for a positive `k`: the last `k` elements, or
   * all of them when there are fewer. (`slice(-0)` is `slice(0)`, the whole
   * array, so `k = 0` is not this operation.)
   */
  function SliceLast<T>(s: seq<T>, k: nat): (r: seq<T>)
    requires k > 0
    ensures |r| <= k && |r| <= |s|
    ensures |r| == k || |r| == |s|
    ensures r == s[|s| - |r|..]
  {
    s[(if |s| > k then |s| - k else 0)..]
  }

  /** The window after a page arrives: `[...prev, ...data].slice(-PHOTOS_LIMIT)`. */
  function Window<T>(prev: seq<T>, data: seq<T>): (w: seq<T>)
    ensures |w| <= PHOTOS_LIMIT && |w| <= |prev| + |data|
    ensures |w| == |prev| + |data| || |w| == PHOTOS_LIMIT
    ensures w == (prev + data)[|prev| + |data| - |w|..]
  {
    SliceLast(prev + data, PHOTOS_LIMIT)
  }

  /** No truncation while everything fits. */
  lemma WindowFits<T>(prev: seq<T>, data: seq<T>)
    requires |prev| + |data| <= PHOTOS_LIMIT
    ensures Window(prev, data) == prev + data
  {
  }

  /** The window drops only the oldest photos: a newly arrived page is kept whole when it fits. */
  lemma WindowKeepsNewest<T>(prev: seq<T>, data: seq<T>)
    requires |data| <= PHOTOS_LIMIT
    ensures |data| <= |Window(prev, data)|
    ensures Window(prev, data)[|Window(prev, data)| - |data|..] == data
  {
    var w := Window(prev, data);
    var all := prev + data;
    assert all[|all| - |data|..] == data;
  }

  /** An empty page leaves a window within the bound unchanged. */
  lemma WindowEmptyPage<T>(prev: seq<T>)
    requires |prev| <= PHOTOS_LIMIT
    ensures Window(prev, []) == prev
  {
    assert prev + [] == prev;
  }

  // ---------------------------------------------------------------------
  // Breakpoints
  // ---------------------------------------------------------------------

  /** The column count for a viewport width. */
  function ColumnsForWidth(width: int): (cols: nat)
    ensures 1 <= cols <= 4
  {
    if width < 640 then 1
    else if width < 768 then 2
    else if width < 1024 then 3
    else 4
  }

  /** The four breakpoint bands: below 640, below 768, below 1024, and the rest. */
  lemma ColumnsForWidthValues(width: int)
    ensures width < 640 ==> ColumnsForWidth(width) == 1
    ensures 640 <= width < 768 ==> ColumnsForWidth(width) == 2
    ensures 768 <= width < 1024 ==> ColumnsForWidth(width) == 3
    ensures 1024 <= width ==> ColumnsForWidth(width) == 4
  {
  }

  /** A wider viewport never has fewer columns. */
  lemma ColumnsForWidthMonotone(narrow: int, wide: int)
    requires narrow <= wide
    ensures ColumnsForWidth(narrow) <= ColumnsForWidth(wide)
  {
  }

  /** The column count changes only at the breakpoints 640, 768 and 1024, and by one column each time. */
  lemma ColumnsForWidthSteps(width: int)
    ensures ColumnsForWidth(width + 1) != ColumnsForWidth(width) <==>
      width + 1 == 640 || width + 1 == 768 || width + 1 == 1024
    ensures ColumnsForWidth(width + 1) <= ColumnsForWidth(width) + 1
  {
  }
}
