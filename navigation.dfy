// Moves between rows: which item a move up or down selects, the row it
// belongs to and the vertical offset the move's animation ends at.

module Navigation {
  import opened ImageTypes
  import opened ContentIndex
  import opened Layout

  datatype Direction = Up | Down

  /**
   * A vertical move once its animation has been started: where the
   * selection goes, the row it belongs to, the offset the animation ends
   * at, and whether the row is the last one.
   */
  datatype VerticalMove = VerticalMove(direction: Direction, target: int, targetCategory: Category,
                                       desiredY: real, isLastCategory: bool)

  /** The arrow keys, each bound to one move. */
  datatype Arrow = ArrowLeft | ArrowRight | ArrowUp | ArrowDown

  /**
   * The test each move makes, as written, before it reads the current
   * record: left needs a selection and a non-empty list, up and down a
   * selection and some rows, and right tests nothing. None of them tests
   * that the selection lies inside the list.
   */
  predicate GuardAsWritten(arrow: Arrow, items: seq<ImageData>, rows: seq<Category>, current: int)
  {
    match arrow
    case ArrowLeft => !(current < 0 || |items| == 0)
    case ArrowRight => true
    case ArrowUp => !(current < 0 || |rows| == 0)
    case ArrowDown => !(current < 0 || |rows| == 0)
  }

  /**
   * The move up from `current`: none without a selection inside the list,
   * without rows, from the first row or an unlisted one, or when the row
   * above is empty; otherwise to the matching item of the row above,
   * centred vertically.
   */
  function UpMove(g: Geometry, items: seq<ImageData>, rows: seq<Category>, current: int): (r: Option<VerticalMove>)
    ensures r.None? <==>
              current < 0 || |rows| == 0 || current >= |items| || IndexOf(rows, items[current].category) <= 0 ||
              CategoryCount(items, rows[IndexOf(rows, items[current].category) - 1]) == 0
    ensures r.Some? ==>
              var k := IndexOf(rows, items[current].category);
              var m := r.value;
              m.direction == Up && !m.isLastCategory && 0 <= current && 1 <= k && m.targetCategory == rows[k - 1] &&
              0 <= m.target < |items| && items[m.target].category == m.targetCategory
    ensures r.Some? ==>
              var m := r.value;
              var p := PositionInCategory(items, current);
              CountBefore(items, m.targetCategory, m.target) == (if p < CategoryCount(items, m.targetCategory) then p else 0)
    ensures r.Some? ==> 0.0 <= r.value.desiredY && (MaxScroll(g, rows) >= 0.0 ==> r.value.desiredY <= MaxScroll(g, rows))
  {
    if current < 0 || |rows| == 0 || current >= |items| then None
    else
      var k := IndexOf(rows, items[current].category);
      if k <= 0 then None
      else
        var prev := rows[k - 1];
        var target := FindMatchingPosition(items, current, prev);
        if target == -1 then None
        else Some(VerticalMove(Up, target, prev, UpScrollTarget(g, items, rows, target, prev), false))
  }

  /**
   * The move down from `current`: none without a selection inside the
   * list, without rows, from the last row, or when the row below is empty;
   * otherwise to the matching item of the row below (the first row when
   * the current row is not listed), with the last row's offset computed
   * apart.
   */
  function DownMove(g: Geometry, items: seq<ImageData>, rows: seq<Category>, current: int): (r: Option<VerticalMove>)
    ensures r.None? <==>
              current < 0 || |rows| == 0 || current >= |items| || IndexOf(rows, items[current].category) >= |rows| - 1 ||
              CategoryCount(items, rows[IndexOf(rows, items[current].category) + 1]) == 0
    ensures r.Some? ==>
              var k := IndexOf(rows, items[current].category);
              var m := r.value;
              m.direction == Down && 0 <= current && k + 1 < |rows| && m.targetCategory == rows[k + 1] &&
              m.isLastCategory == (k == |rows| - 2) &&
              0 <= m.target < |items| && items[m.target].category == m.targetCategory
    ensures r.Some? && items[current].category !in rows ==> r.value.targetCategory == rows[0]
    ensures r.Some? ==>
              var m := r.value;
              var p := PositionInCategory(items, current);
              CountBefore(items, m.targetCategory, m.target) == (if p < CategoryCount(items, m.targetCategory) then p else 0)
    ensures r.Some? ==> r.value.desiredY <= Max(0.0, MaxScroll(g, rows))
    ensures r.Some? && !r.value.isLastCategory ==> 0.0 <= r.value.desiredY
  {
    if current < 0 || |rows| == 0 || current >= |items| then None
    else
      var k := IndexOf(rows, items[current].category);
      if k >= |rows| - 1 then None
      else
        var next := rows[k + 1];
        var target := FindMatchingPosition(items, current, next);
        if target == -1 then None
        else
          var isLast := k == |rows| - 2;
          Some(VerticalMove(Down, target, next, DownScrollTarget(g, items, rows, target, next, isLast), isLast))
  }

  /**
   * A move down and a move up from its target come back to the starting
   * item when the row below is long enough, else to the first item of the
   * starting row (rows listed once).
   */
  lemma {:induction false} DownThenUp(g: Geometry, items: seq<ImageData>, rows: seq<Category>, current: int)
    requires 0 <= current < |items| && DownMove(g, items, rows, current).Some?
    requires items[current].category in rows
    requires NoDuplicateRows(rows)
    ensures var m := DownMove(g, items, rows, current).value;
            UpMove(g, items, rows, m.target).Some? &&
            UpMove(g, items, rows, m.target).value.target ==
              (if PositionInCategory(items, current) < CategoryCount(items, m.targetCategory) then current
               else IndexOfNth(items, items[current].category, 0))
  {
    var m := DownMove(g, items, rows, current).value;
    var k := IndexOf(rows, items[current].category);
    IndexOfFirst(rows, k + 1);
    RowMatchingRoundTrip(items, current, m.targetCategory);
  }

  /**
   * A move up and a move down from its target come back to the starting
   * item when the row above is long enough, else to the first item of the
   * starting row (rows listed once).
   */
  lemma {:induction false} UpThenDown(g: Geometry, items: seq<ImageData>, rows: seq<Category>, current: int)
    requires 0 <= current < |items| && UpMove(g, items, rows, current).Some?
    requires NoDuplicateRows(rows)
    ensures var m := UpMove(g, items, rows, current).value;
            DownMove(g, items, rows, m.target).Some? &&
            DownMove(g, items, rows, m.target).value.target ==
              (if PositionInCategory(items, current) < CategoryCount(items, m.targetCategory) then current
               else IndexOfNth(items, items[current].category, 0))
  {
    var m := UpMove(g, items, rows, current).value;
    var k := IndexOf(rows, items[current].category);
    IndexOfFirst(rows, k - 1);
    RowMatchingRoundTrip(items, current, m.targetCategory);
  }

  /** Every row title is listed once. */
  predicate NoDuplicateRows(rows: seq<Category>)
  {
    forall i, j :: 0 <= i < j < |rows| ==> rows[i] != rows[j]
  }
}
