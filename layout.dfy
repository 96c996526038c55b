// Geometry of the swimlane view: per-category dimensions, the total content
// height, where a row sits vertically, how wide a row's content is, which
// rows and which item counters fall inside the buffered viewport, and the
// scroll targets the navigation code aims for. Lengths are reals (the
// view's qreal); the per-category dimensions are C++ ints.

module Layout {
  import opened ImageTypes
  import opened ContentIndex

  /** The view's layout fields that the geometry depends on. */
  datatype Geometry = Geometry(
    itemWidth: real,
    itemHeight: real,
    spacing: real,
    rowSpacing: real,
    titleHeight: int,
    startPositionX: real,
    width: real,
    height: real,
    dimensions: map<Category, CategoryDimensions>)

  /** Conversion of a real to a C++ int: truncation toward zero. */
  function TruncToInt(x: real): (r: int)
    ensures x >= 0.0 ==> r as real <= x < r as real + 1.0
    ensures x < 0.0 ==> r as real - 1.0 < x <= r as real
  {
    if x >= 0.0 then x.Floor else -((-x).Floor)
  }

  /** C++ division of two ints: the quotient truncated toward zero. */
  function TruncDiv(a: int, b: int): (r: int)
    requires b > 0
    ensures a >= 0 ==> r * b <= a < r * b + b
    ensures a < 0 ==> r * b - b < a <= r * b
  {
    if a >= 0 then a / b else -((-a) / b)
  }

  function Min(a: real, b: real): real { if a <= b then a else b }
  function Max(a: real, b: real): real { if a >= b then a else b }

  /** Qt's qBound(lo, v, hi): the upper bound is applied first, then the lower one. */
  function QBound(lo: real, v: real, hi: real): (r: real)
    ensures r >= lo
    ensures lo <= hi ==> r <= hi
    ensures lo <= v <= hi ==> r == v
    ensures hi < lo ==> r == lo
  {
    Max(lo, Min(hi, v))
  }

  /** Stored dimensions of a category, or ones derived from the item size and spacing. */
  function DimensionsFor(g: Geometry, cat: Category): CategoryDimensions
  {
    if cat in g.dimensions then g.dimensions[cat]
    else CategoryDimensions(TruncToInt(g.itemHeight + 10.0), TruncToInt(g.itemHeight), TruncToInt(g.itemWidth), g.spacing)
  }

  /**
   * A category without stored dimensions gets a poster of the item size, a row
   * ten units taller than the poster, and the view's spacing, as whole units.
   */
  lemma DerivedDimensions(g: Geometry, cat: Category, w: nat, h: nat)
    requires cat !in g.dimensions
    requires g.itemWidth == w as real && g.itemHeight == h as real
    ensures DimensionsFor(g, cat) == CategoryDimensions(h + 10, h, w, g.spacing)
  {
    assert (h as real + 10.0).Floor == h + 10;
  }

  /** Horizontal scroll offset of a category, 0 when it was never scrolled. */
  function ContentXOf(contentX: map<Category, real>, cat: Category): real
  {
    if cat in contentX then contentX[cat] else 0.0
  }

  /** Height of the rows from `k` on: spacing, title and poster, and half a poster below the last. */
  function RowBlocks(g: Geometry, rows: seq<Category>, k: nat): (r: real)
    requires k <= |rows|
    ensures g.titleHeight >= 0 && g.rowSpacing >= 0.0 && (forall c :: c in rows ==> DimensionsFor(g, c).posterHeight >= 0)
            ==> r >= ((|rows| - k) * g.titleHeight) as real
    decreases |rows| - k
  {
    if k == |rows| then 0.0
    else
      var d := DimensionsFor(g, rows[k]);
      (if k > 0 then g.rowSpacing * 0.3 else 0.0)
      + g.titleHeight as real
      + d.posterHeight as real
      + (if k == |rows| - 1 then d.posterHeight as real * 0.5 else 0.0)
      + RowBlocks(g, rows, k + 1)
  }

  /** Total scrollable height: a fifth of the row spacing on top, the rows, then spacing plus 50. */
  function ContentHeight(g: Geometry, rows: seq<Category>): (r: real)
    ensures g.titleHeight >= 0 && g.rowSpacing >= 0.0 && (forall c :: c in rows ==> DimensionsFor(g, c).posterHeight >= 0)
            ==> r >= g.rowSpacing * 1.2 + 50.0 + (|rows| * g.titleHeight) as real
  {
    g.rowSpacing / 5.0 + RowBlocks(g, rows, 0) + g.rowSpacing + 50.0
  }

  /** Largest vertical scroll offset that keeps the content's bottom at the viewport's bottom. */
  function MaxScroll(g: Geometry, rows: seq<Category>): real
  {
    ContentHeight(g, rows) - g.height
  }

  /** The offset setContentY stores: never more than 50 past the largest scroll offset. */
  function PaddedContentY(g: Geometry, rows: seq<Category>, y: real): (r: real)
    ensures r <= MaxScroll(g, rows) + 50.0
    ensures r <= y
    ensures y <= MaxScroll(g, rows) + 50.0 ==> r == y
  {
    Min(y, MaxScroll(g, rows) + 50.0)
  }

  /** Walk the rows from `k`, stacking titles and rows, until the target category's title. */
  function VerticalWalk(g: Geometry, rows: seq<Category>, k: nat, position: real, target: Category, isLast: bool, contentHeight: real): (r: real)
    requires k <= |rows|
    ensures (target !in rows[k..] && position >= 0.0 && g.rowSpacing >= 0.0 && g.titleHeight >= 0 &&
             (forall c :: c in rows ==> DimensionsFor(g, c).rowHeight >= 0)) ==> r >= position
    decreases |rows| - k
  {
    if k == |rows| then position
    else
      var d := DimensionsFor(g, rows[k]);
      var spaced := if position > 0.0 then position + g.rowSpacing else position;
      var titled := spaced + g.titleHeight as real;
      if rows[k] == target then
        if isLast then Min(titled, contentHeight - d.rowHeight as real - g.titleHeight as real) else titled
      else
        assert rows[k] in rows;
        VerticalWalk(g, rows, k + 1, titled + d.rowHeight as real, target, isLast, contentHeight)
  }

  /** Vertical offset of the title bottom of the row holding item `index`, 0 out of range. */
  function ItemVerticalPosition(g: Geometry, items: seq<ImageData>, rows: seq<Category>, index: int): real
  {
    if index < 0 || index >= |items| then 0.0
    else
      var target := items[index].category;
      var isLast := IndexOf(rows, target) == |rows| - 1;
      VerticalWalk(g, rows, 0, 0.0, target, isLast, ContentHeight(g, rows))
  }

  /** The first row, when it is not the last, starts right below its title. */
  lemma FirstRowVerticalPosition(g: Geometry, items: seq<ImageData>, rows: seq<Category>, index: int)
    requires 0 <= index < |items| && |rows| >= 2 && rows[0] == items[index].category
    ensures ItemVerticalPosition(g, items, rows, index) == g.titleHeight as real
  {
    assert IndexOf(rows, rows[0]) == 0;
  }

  /** Where the walk stands after stacking the first `k` rows' titles and bodies. */
  function PrefixPosition(g: Geometry, rows: seq<Category>, k: nat): real
    requires k <= |rows|
  {
    if k == 0 then 0.0
    else
      var p := PrefixPosition(g, rows, k - 1);
      (if p > 0.0 then p + g.rowSpacing else p) + g.titleHeight as real + DimensionsFor(g, rows[k - 1]).rowHeight as real
  }

  predicate NonNegativeLayout(g: Geometry, rows: seq<Category>)
  {
    g.rowSpacing >= 0.0 && g.titleHeight > 0 && forall c :: c in rows ==> DimensionsFor(g, c).rowHeight >= 0
  }

  lemma {:induction false} PrefixPositionMonotone(g: Geometry, rows: seq<Category>, m: nat, n: nat)
    requires m <= n <= |rows| && NonNegativeLayout(g, rows)
    ensures 0.0 <= PrefixPosition(g, rows, m) <= PrefixPosition(g, rows, n)
    decreases n
  {
    if n > m {
      PrefixPositionMonotone(g, rows, m, n - 1);
      assert rows[n - 1] in rows;
    } else if n > 0 {
      PrefixPositionMonotone(g, rows, 0, n - 1);
      assert rows[n - 1] in rows;
    }
  }

  /** Until the target's row is reached, the walk only depends on the rows already passed. */
  lemma {:induction false} WalkFromPrefix(g: Geometry, rows: seq<Category>, k: nat, target: Category, isLast: bool, contentHeight: real)
    requires k <= |rows| && target !in rows[..k]
    ensures VerticalWalk(g, rows, 0, 0.0, target, isLast, contentHeight) ==
            VerticalWalk(g, rows, k, PrefixPosition(g, rows, k), target, isLast, contentHeight)
  {
    if k > 0 {
      assert rows[..k - 1] <= rows[..k];
      WalkFromPrefix(g, rows, k - 1, target, isLast, contentHeight);
      assert rows[k - 1] == rows[..k][k - 1];
    }
  }

  /**
   * Rows stack downward: an item whose row is listed earlier sits strictly
   * above an item of a later row that is not the last one.
   */
  lemma RowsStackDownward(g: Geometry, items: seq<ImageData>, rows: seq<Category>, a: int, b: int)
    requires 0 <= a < |items| && 0 <= b < |items|
    requires 0 <= IndexOf(rows, items[a].category) < IndexOf(rows, items[b].category) < |rows| - 1
    requires NonNegativeLayout(g, rows)
    ensures ItemVerticalPosition(g, items, rows, a) < ItemVerticalPosition(g, items, rows, b)
  {
    var i := IndexOf(rows, items[a].category);
    var j := IndexOf(rows, items[b].category);
    var ch := ContentHeight(g, rows);
    WalkFromPrefix(g, rows, i, items[a].category, false, ch);
    WalkFromPrefix(g, rows, j, items[b].category, false, ch);
    PrefixPositionMonotone(g, rows, i + 1, j);
    PrefixPositionMonotone(g, rows, 0, i);
    assert rows[i] in rows;
  }

  /** Width of a row's posters and the gaps between them. */
  function RowContentWidth(g: Geometry, items: seq<ImageData>, cat: Category): real
  {
    var d := DimensionsFor(g, cat);
    var n := CategoryCount(items, cat);
    (n * d.posterWidth) as real + (n - 1) as real * d.itemSpacing
  }

  /**
   * Width of a category's content: the row, padded by half a poster only
   * when it overflows the view, so padding never makes a row overflow.
   */
  function CategoryContentWidth(g: Geometry, items: seq<ImageData>, cat: Category): (r: real)
    ensures DimensionsFor(g, cat).posterWidth >= 0 ==> r >= RowContentWidth(g, items, cat)
    ensures DimensionsFor(g, cat).posterWidth >= 0 ==> (r > g.width <==> RowContentWidth(g, items, cat) > g.width)
    ensures RowContentWidth(g, items, cat) <= g.width ==> r == RowContentWidth(g, items, cat)
  {
    var d := DimensionsFor(g, cat);
    var total := RowContentWidth(g, items, cat);
    if total > g.width then total + d.posterWidth as real * 0.5 else total
  }

  /** Horizontal offset that centres the item at `position` of a row, never negative. */
  function HorizontalTarget(position: int, d: CategoryDimensions, width: real): (r: real)
    ensures r >= 0.0
    ensures r >= position as real * (d.posterWidth as real + d.itemSpacing) - (width - d.posterWidth as real) / 2.0
    ensures r == 0.0 || r == position as real * (d.posterWidth as real + d.itemSpacing) - (width - d.posterWidth as real) / 2.0
  {
    Max(0.0, position as real * (d.posterWidth as real + d.itemSpacing) - (width - d.posterWidth as real) / 2.0)
  }

  /**
   * Horizontal offset a move right animates an overflowing row to: the
   * row's end against the view's right edge for its last item, otherwise
   * the item centred.
   */
  function RightScrollTarget(g: Geometry, items: seq<ImageData>, cat: Category, next: int): real
  {
    if next == IndexOfNth(items, cat, CategoryCount(items, cat) - 1) then CategoryContentWidth(g, items, cat) - g.width
    else HorizontalTarget(CountBefore(items, cat, if 0 <= next <= |items| then next else 0), DimensionsFor(g, cat), g.width)
  }

  /** On an overflowing row the offset a move right animates to is never negative. */
  lemma RightScrollTargetNonNegative(g: Geometry, items: seq<ImageData>, cat: Category, next: int)
    requires DimensionsFor(g, cat).posterWidth >= 0 && RowContentWidth(g, items, cat) > g.width
    ensures RightScrollTarget(g, items, cat, next) >= 0.0
  {
  }

  /** Rows from `k` on whose title-plus-row band meets [top, bottom]. */
  function VisibleCategoriesFrom(g: Geometry, rows: seq<Category>, k: nat, currentY: real, top: real, bottom: real): set<Category>
    requires k <= |rows|
    decreases |rows| - k
  {
    if k == |rows| then {}
    else
      var d := DimensionsFor(g, rows[k]);
      var rowEnd := currentY + d.rowHeight as real + g.titleHeight as real;
      var here := if !(rowEnd < top || currentY > bottom) then {rows[k]} else {};
      here + VisibleCategoriesFrom(g, rows, k + 1, rowEnd + g.rowSpacing, top, bottom)
  }

  /** Only listed rows are reported. */
  lemma {:induction false} VisibleCategoriesFromRows(g: Geometry, rows: seq<Category>, k: nat, currentY: real, top: real, bottom: real)
    requires k <= |rows|
    ensures forall c :: c in VisibleCategoriesFrom(g, rows, k, currentY, top, bottom) ==> c in rows[k..]
    decreases |rows| - k
  {
    if k < |rows| {
      var d := DimensionsFor(g, rows[k]);
      var rowEnd := currentY + d.rowHeight as real + g.titleHeight as real;
      VisibleCategoriesFromRows(g, rows, k + 1, rowEnd + g.rowSpacing, top, bottom);
      assert rows[k..] == [rows[k]] + rows[k + 1..];
    }
  }

  /** Categories visible with half a viewport of buffer above and below. */
  function VisibleCategories(g: Geometry, rows: seq<Category>, contentY: real): (r: set<Category>)
    ensures forall c :: c in r ==> c in rows
  {
    var buffer := g.height * 0.5;
    VisibleCategoriesFromRows(g, rows, 0, 0.0, contentY - buffer, contentY + g.height + buffer);
    assert rows[0..] == rows;
    VisibleCategoriesFrom(g, rows, 0, 0.0, contentY - buffer, contentY + g.height + buffer)
  }

  /**
   * With a 300-unit viewport, a row spanning [500, 600] is outside the buffered
   * viewport at offset 0 and inside it at offset 200.
   */
  lemma VisibleCategoriesBufferExample(g: Geometry)
    requires g.height == 300.0 && g.titleHeight == 15 && g.rowSpacing == 10.0
    requires g.dimensions == map["A" := CategoryDimensions(475, 400, 200, 10.0), "B" := CategoryDimensions(85, 80, 100, 10.0)]
    ensures "B" !in VisibleCategories(g, ["A", "B"], 0.0)
    ensures "B" in VisibleCategories(g, ["A", "B"], 200.0)
  {
    var rows: seq<Category> := ["A", "B"];
    assert DimensionsFor(g, "A").rowHeight == 475;
    assert DimensionsFor(g, "B").rowHeight == 85;
    assert VisibleCategoriesFrom(g, rows, 2, 610.0, -150.0, 450.0) == {};
    assert VisibleCategoriesFrom(g, rows, 2, 610.0, 50.0, 650.0) == {};
  }

  /** Total number of items over the categories of `rows` from `k` on, duplicates counted again. */
  function CountFrom(items: seq<ImageData>, rows: seq<Category>, k: nat): nat
    requires k <= |rows|
    decreases |rows| - k
  {
    if k == |rows| then 0 else CategoryCount(items, rows[k]) + CountFrom(items, rows, k + 1)
  }

  predicate StrictlyIncreasing(s: seq<int>)
  {
    forall i, j :: 0 <= i < j < |s| ==> s[i] < s[j]
  }

  /**
   * Counters `counter + j` for the items from the `j`-th on of one row whose
   * horizontal position lies in [lo, hi]; item `j` sits at `x` and each next
   * item one `step` further.
   */
  function RowVisible(vertical: bool, x: real, step: real, lo: real, hi: real, counter: int, n: nat, j: nat): seq<int>
    requires j <= n
    decreases n - j
  {
    if j == n then []
    else
      var here := if vertical && lo <= x <= hi then [counter + j] else [];
      here + RowVisible(vertical, x + step, step, lo, hi, counter, n, j + 1)
  }

  /**
   * Joining two increasing runs, the first inside [lo, mid) and the second
   * inside [mid, hi), gives an increasing run inside [lo, hi).
   */
  lemma JoinBounded(a: seq<int>, b: seq<int>, lo: int, mid: int, hi: int)
    requires lo <= mid <= hi
    requires StrictlyIncreasing(a) && StrictlyIncreasing(b)
    requires forall i :: 0 <= i < |a| ==> lo <= a[i] < mid
    requires forall i :: 0 <= i < |b| ==> mid <= b[i] < hi
    ensures StrictlyIncreasing(a + b)
    ensures forall i :: 0 <= i < |a + b| ==> lo <= (a + b)[i] < hi
  {
    var c := a + b;
    forall i, j | 0 <= i < j < |c|
      ensures c[i] < c[j]
    {
      if j < |a| {
        assert c[i] == a[i] && c[j] == a[j];
      } else if i >= |a| {
        assert c[i] == b[i - |a|] && c[j] == b[j - |a|];
      } else {
        assert c[i] == a[i] && c[j] == b[j - |a|];
      }
    }
    forall i | 0 <= i < |c|
      ensures lo <= c[i] < hi
    {
      if i < |a| {
        assert c[i] == a[i];
      } else {
        assert c[i] == b[i - |a|];
      }
    }
  }

  /** The counters of one row increase and stay within the row's own range. */
  lemma {:induction false} RowVisibleBounds(vertical: bool, x: real, step: real, lo: real, hi: real, counter: int, n: nat, j: nat)
    requires j <= n
    ensures var r := RowVisible(vertical, x, step, lo, hi, counter, n, j);
            StrictlyIncreasing(r) && forall i :: 0 <= i < |r| ==> counter + j <= r[i] < counter + n
    decreases n - j
  {
    if j < n {
      var here := if vertical && lo <= x <= hi then [counter + j] else [];
      var rest := RowVisible(vertical, x + step, step, lo, hi, counter, n, j + 1);
      RowVisibleBounds(vertical, x + step, step, lo, hi, counter, n, j + 1);
      JoinBounded(here, rest, counter + j, counter + j + 1, counter + n);
    }
  }

  /** Scanning item `j` moves its counter, if reported, from the remaining scan to the result so far. */
  lemma RowVisibleStep(vertical: bool, x: real, step: real, lo: real, hi: real, counter: int, n: nat, j: nat, r: seq<int>)
    requires j < n
    ensures (if vertical && lo <= x <= hi then r + [counter + j] else r) + RowVisible(vertical, x + step, step, lo, hi, counter, n, j + 1)
            == r + RowVisible(vertical, x, step, lo, hi, counter, n, j)
  {
    var rest := RowVisible(vertical, x + step, step, lo, hi, counter, n, j + 1);
    if vertical && lo <= x <= hi {
      assert (r + [counter + j]) + rest == r + ([counter + j] + rest);
    } else {
      assert [] + rest == rest;
    }
  }

  /**
   * The counter scan over rows from `k`: every item of every listed category
   * advances the counter, and the items of rows meeting the viewport whose
   * position passes the buffered checks are reported.
   */
  function VisibleFrom(g: Geometry, items: seq<ImageData>, rows: seq<Category>, contentX: map<Category, real>,
                       top: real, bottom: real, k: nat, currentY: real, counter: int): seq<int>
    requires k <= |rows|
    decreases |rows| - k
  {
    if k == |rows| then []
    else
      var cat := rows[k];
      var d := DimensionsFor(g, cat);
      var n := CategoryCount(items, cat);
      var y := currentY + (g.titleHeight + 10) as real;
      if y > bottom then
        VisibleFrom(g, items, rows, contentX, top, bottom, k + 1, y + d.rowHeight as real + g.rowSpacing, counter + n)
      else
        var endY := y + d.rowHeight as real;
        if endY < top then
          VisibleFrom(g, items, rows, contentX, top, bottom, k + 1, endY + g.rowSpacing, counter + n)
        else
          var buffer := g.width * 0.5;
          var x0 := g.startPositionX + 10.0 - ContentXOf(contentX, cat);
          var vertical := y >= top - d.posterHeight as real && y <= bottom + d.posterHeight as real;
          RowVisible(vertical, x0, d.posterWidth as real + d.itemSpacing,
                     (-d.posterWidth) as real - buffer, g.width + d.posterWidth as real + buffer, counter, n, 0)
          + VisibleFrom(g, items, rows, contentX, top, bottom, k + 1, endY + g.rowSpacing, counter + n)
  }

  /** The counters of the scan increase and stay below the number of items the scanned rows hold. */
  lemma {:induction false} VisibleFromBounds(g: Geometry, items: seq<ImageData>, rows: seq<Category>, contentX: map<Category, real>,
                                             top: real, bottom: real, k: nat, currentY: real, counter: int)
    requires k <= |rows|
    ensures var r := VisibleFrom(g, items, rows, contentX, top, bottom, k, currentY, counter);
            StrictlyIncreasing(r) && forall i :: 0 <= i < |r| ==> counter <= r[i] < counter + CountFrom(items, rows, k)
    decreases |rows| - k
  {
    if k < |rows| {
      var cat := rows[k];
      var d := DimensionsFor(g, cat);
      var n := CategoryCount(items, cat);
      var y := currentY + (g.titleHeight + 10) as real;
      if y > bottom {
        VisibleFromBounds(g, items, rows, contentX, top, bottom, k + 1, y + d.rowHeight as real + g.rowSpacing, counter + n);
      } else {
        var endY := y + d.rowHeight as real;
        var nextY := endY + g.rowSpacing;
        VisibleFromBounds(g, items, rows, contentX, top, bottom, k + 1, nextY, counter + n);
        if endY >= top {
          var buffer := g.width * 0.5;
          var x0 := g.startPositionX + 10.0 - ContentXOf(contentX, cat);
          var vertical := y >= top - d.posterHeight as real && y <= bottom + d.posterHeight as real;
          var lo := (-d.posterWidth) as real - buffer;
          var hi := g.width + d.posterWidth as real + buffer;
          var step := d.posterWidth as real + d.itemSpacing;
          RowVisibleBounds(vertical, x0, step, lo, hi, counter, n, 0);
          var here := RowVisible(vertical, x0, step, lo, hi, counter, n, 0);
          var rest := VisibleFrom(g, items, rows, contentX, top, bottom, k + 1, nextY, counter + n);
          assert VisibleFrom(g, items, rows, contentX, top, bottom, k, currentY, counter) == here + rest;
          JoinBounded(here, rest, counter, counter + n, counter + CountFrom(items, rows, k));
        }
      }
    }
  }

  /** Top of the viewport enlarged by `bufferFactor` viewport heights. */
  function BandTop(g: Geometry, contentY: real, bufferFactor: real): real
  {
    contentY - g.height * bufferFactor
  }

  /** Bottom of the viewport enlarged by `bufferFactor` viewport heights. */
  function BandBottom(g: Geometry, contentY: real, bufferFactor: real): real
  {
    contentY + g.height + g.height * bufferFactor
  }

  /**
   * Item counters inside the viewport enlarged by `bufferFactor` viewport
   * heights: strictly increasing, and each below the number of items over
   * the listed categories; nothing for an empty viewport.
   */
  function VisibleIndices(g: Geometry, items: seq<ImageData>, rows: seq<Category>, contentY: real,
                          contentX: map<Category, real>, bufferFactor: real): (r: seq<int>)
    ensures g.width <= 0.0 || g.height <= 0.0 ==> r == []
    ensures StrictlyIncreasing(r)
    ensures forall i :: 0 <= i < |r| ==> 0 <= r[i] < CountFrom(items, rows, 0)
  {
    if g.width <= 0.0 || g.height <= 0.0 then []
    else
      var top, bottom := BandTop(g, contentY, bufferFactor), BandBottom(g, contentY, bufferFactor);
      VisibleFromBounds(g, items, rows, contentX, top, bottom, 0, 0.0, 0);
      VisibleFrom(g, items, rows, contentX, top, bottom, 0, 0.0, 0)
  }

  /** The visible counters, for a buffer of `bufferFactor` viewport heights, as a set of non-negative indices. */
  function VisibleIndexSet(g: Geometry, items: seq<ImageData>, rows: seq<Category>, contentY: real,
                           contentX: map<Category, real>, bufferFactor: real): (r: set<int>)
    ensures forall i :: i in r <==> i in VisibleIndices(g, items, rows, contentY, contentX, bufferFactor)
    ensures forall i :: i in r ==> 0 <= i
  {
    set i | i in VisibleIndices(g, items, rows, contentY, contentX, bufferFactor)
  }

  /** `cats` and `indices` are the visible categories and visible counters (half a viewport of buffer) of this layout. */
  ghost predicate VisibleSetsOf(cats: set<Category>, indices: set<int>, g: Geometry, items: seq<ImageData>, rows: seq<Category>,
                                contentY: real, contentX: map<Category, real>)
  {
    cats == VisibleCategories(g, rows, contentY) && indices == VisibleIndexSet(g, items, rows, contentY, contentX, 0.5)
  }

  /** Each listed category's items appear at most once among the visible counters. */
  lemma VisibleIndicesDistinct(g: Geometry, items: seq<ImageData>, rows: seq<Category>, contentY: real,
                               contentX: map<Category, real>, bufferFactor: real)
    ensures var r := VisibleIndices(g, items, rows, contentY, contentX, bufferFactor);
            |r| <= CountFrom(items, rows, 0) && forall i, j :: 0 <= i < |r| && 0 <= j < |r| && r[i] == r[j] ==> i == j
  {
    var r := VisibleIndices(g, items, rows, contentY, contentX, bufferFactor);
    IncreasingBounded(r, 0, CountFrom(items, rows, 0));
  }

  /** A strictly increasing sequence inside [lo, hi) has at most hi - lo elements. */
  lemma {:induction false} IncreasingBounded(s: seq<int>, lo: int, hi: int)
    requires StrictlyIncreasing(s)
    requires forall i :: 0 <= i < |s| ==> lo <= s[i] < hi
    ensures |s| <= if hi - lo < 0 then 0 else hi - lo
    decreases |s|
  {
    if |s| > 0 {
      var t := s[1..];
      assert forall i :: 0 <= i < |t| ==> t[i] == s[i + 1];
      IncreasingBounded(t, s[0] + 1, hi);
    }
  }

  /** Vertical offset ensureIndexVisible aims for: the bottom for the last row, else the row centred. */
  function EnsureVisibleTarget(g: Geometry, items: seq<ImageData>, rows: seq<Category>, index: int): (r: real)
    requires 0 <= index < |items|
    ensures 0.0 <= r
    ensures MaxScroll(g, rows) >= 0.0 ==> r <= MaxScroll(g, rows)
    ensures IndexOf(rows, items[index].category) == |rows| - 1 && DimensionsFor(g, items[index].category).posterHeight >= 0
            ==> r == Max(0.0, MaxScroll(g, rows))
  {
    var cat := items[index].category;
    var d := DimensionsFor(g, cat);
    var isLast := IndexOf(rows, cat) == |rows| - 1;
    var targetY := ItemVerticalPosition(g, items, rows, index);
    var rowHeight := d.rowHeight as real + g.titleHeight as real;
    var ch := ContentHeight(g, rows);
    var desired :=
      if isLast then Min(ch - g.height + d.posterHeight as real * 0.1, ch - g.height)
      else targetY - (g.height - rowHeight) / 2.0;
    QBound(0.0, desired, ch - g.height)
  }

  /** Vertical offset an upward move animates to: the target row centred, within [0, max]. */
  function UpScrollTarget(g: Geometry, items: seq<ImageData>, rows: seq<Category>, target: int, prevCat: Category): (r: real)
    ensures 0.0 <= r
    ensures MaxScroll(g, rows) >= 0.0 ==> r <= MaxScroll(g, rows)
  {
    var targetY := ItemVerticalPosition(g, items, rows, target);
    var d := DimensionsFor(g, prevCat);
    var desired := targetY - g.height / 2.0 + TruncDiv(d.rowHeight, 2) as real;
    QBound(0.0, desired, MaxScroll(g, rows))
  }

  /**
   * Vertical offset a downward move animates to: into the last row's bottom
   * band (capped above only), otherwise the row centred within [0, max].
   */
  function DownScrollTarget(g: Geometry, items: seq<ImageData>, rows: seq<Category>, target: int, nextCat: Category, isLast: bool): (r: real)
    ensures r <= Max(0.0, MaxScroll(g, rows))
    ensures !isLast ==> 0.0 <= r
    ensures isLast ==> r <= MaxScroll(g, rows)
  {
    var targetY := ItemVerticalPosition(g, items, rows, target);
    var d := DimensionsFor(g, nextCat);
    if isLast then
      var rowBottom := targetY + d.posterHeight as real + d.posterHeight as real * 0.2;
      Min(rowBottom - g.height * 0.9, MaxScroll(g, rows))
    else
      QBound(0.0, targetY - (g.height - d.rowHeight as real) / 2.0, MaxScroll(g, rows))
  }

  /** The last-row target of a downward move can be negative: only the upper bound is applied. */
  lemma DownScrollLastRowMayBeNegative()
    ensures exists g: Geometry, items: seq<ImageData>, rows: seq<Category> ::
              DownScrollTarget(g, items, rows, 0, "A", true) < 0.0
  {
    var g := Geometry(200.0, 200.0, 10.0, 10.0, 25, 0.0, 800.0, 1000.0, map[]);
    var items := [ImageData("u", "t", "A", "", "0", "", map[])];
    var rows: seq<Category> := ["A"];
    assert DimensionsFor(g, "A") == CategoryDimensions(210, 200, 200, 10.0) by {
      DerivedDimensions(g, "A", 200, 200);
    }
    assert IndexOf(rows, "A") == 0;
    assert ItemVerticalPosition(g, items, rows, 0) <= 25.0;
    assert DownScrollTarget(g, items, rows, 0, "A", true) < 0.0;
  }
}
