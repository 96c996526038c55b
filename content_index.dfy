// Queries over the flat list of image records: how many items of a category
// precede an index, which index holds the p-th item of a category, the
// position-preserving match used when moving between rows, and the small
// index helpers the navigation code relies on.

module ContentIndex {
  import opened ImageTypes

  /** Number of items of category `cat` among the first `n` records. */
  function CountBefore(items: seq<ImageData>, cat: Category, n: int): (r: nat)
    requires 0 <= n <= |items|
    ensures r <= n
    decreases n
  {
    if n == 0 then 0
    else CountBefore(items, cat, n - 1) + (if items[n - 1].category == cat then 1 else 0)
  }

  /** Number of items of category `cat` in the whole list. */
  function CategoryCount(items: seq<ImageData>, cat: Category): (r: nat)
    ensures r <= |items|
  {
    CountBefore(items, cat, |items|)
  }

  /** The prefix count never decreases as the prefix grows. */
  lemma {:induction false} CountBeforeMonotone(items: seq<ImageData>, cat: Category, m: int, n: int)
    requires 0 <= m <= n <= |items|
    ensures CountBefore(items, cat, m) <= CountBefore(items, cat, n)
    ensures CountBefore(items, cat, n) - CountBefore(items, cat, m) <= n - m
    decreases n - m
  {
    if m < n {
      CountBeforeMonotone(items, cat, m, n - 1);
    }
  }

  /** Strictly more items of `cat` lie before `j` than before an earlier item of `cat`. */
  lemma CountBeforeStrict(items: seq<ImageData>, cat: Category, i: int, j: int)
    requires 0 <= i < j <= |items| && items[i].category == cat
    ensures CountBefore(items, cat, i) < CountBefore(items, cat, j)
  {
    CountBeforeMonotone(items, cat, i + 1, j);
  }

  /** No item of `cat` lies before `n` exactly when the prefix count is zero. */
  lemma {:induction false} NoneBefore(items: seq<ImageData>, cat: Category, n: int)
    requires 0 <= n <= |items|
    ensures CountBefore(items, cat, n) == 0 <==> forall i :: 0 <= i < n ==> items[i].category != cat
    decreases n
  {
    if n > 0 {
      NoneBefore(items, cat, n - 1);
    }
  }

  /** Position of the current item within its own category, 0 when the index is out of range. */
  function PositionInCategory(items: seq<ImageData>, current: int): (r: nat)
    ensures current < 0 || current >= |items| ==> r == 0
    ensures 0 <= current < |items| ==> r < CategoryCount(items, items[current].category)
  {
    if current < 0 || current >= |items| then 0
    else
      CountBeforeStrict(items, items[current].category, current, |items|);
      CountBefore(items, items[current].category, current)
  }

  /** Scan from index `i` for the item of `cat` at position `p`, having seen `seen` of them. */
  function NthFrom(items: seq<ImageData>, cat: Category, p: int, i: int, seen: nat): (r: int)
    requires 0 <= i <= |items| && seen == CountBefore(items, cat, i)
    ensures r == -1 || (i <= r < |items| && items[r].category == cat && CountBefore(items, cat, r) == p)
    ensures r == -1 <==> (p < seen || CategoryCount(items, cat) <= p)
    decreases |items| - i
  {
    if i == |items| then -1
    else if items[i].category == cat then
      if seen == p then
        CountBeforeMonotone(items, cat, i + 1, |items|);
        i
      else NthFrom(items, cat, p, i + 1, seen + 1)
    else NthFrom(items, cat, p, i + 1, seen)
  }

  /** Index of the item at position `p` of category `cat`, or -1 when the category is shorter. */
  function IndexOfNth(items: seq<ImageData>, cat: Category, p: int): (r: int)
    ensures r == -1 || (0 <= r < |items| && items[r].category == cat && CountBefore(items, cat, r) == p)
    ensures r == -1 <==> (p < 0 || CategoryCount(items, cat) <= p)
  {
    NthFrom(items, cat, p, 0, 0)
  }

  /** At most one index holds a given position of a category. */
  lemma IndexOfNthUnique(items: seq<ImageData>, cat: Category, j: int)
    requires 0 <= j < |items| && items[j].category == cat
    ensures IndexOfNth(items, cat, CountBefore(items, cat, j)) == j
  {
    var p := CountBefore(items, cat, j);
    CountBeforeStrict(items, cat, j, |items|);
    var r := IndexOfNth(items, cat, p);
    if r < j {
      CountBeforeStrict(items, cat, r, j);
    } else if r > j {
      CountBeforeStrict(items, cat, j, r);
    }
  }

  /**
   * The item of `next` at the current item's position, or the first item of
   * `next` when that category is shorter, or -1 when it has no items.
   */
  function FindMatchingPosition(items: seq<ImageData>, current: int, next: Category): (r: int)
    ensures r == -1 <==> CategoryCount(items, next) == 0
    ensures r != -1 ==> 0 <= r < |items| && items[r].category == next
    ensures r != -1 ==>
              CountBefore(items, next, r) ==
              (if PositionInCategory(items, current) < CategoryCount(items, next) then PositionInCategory(items, current) else 0)
  {
    var target := IndexOfNth(items, next, PositionInCategory(items, current));
    if target == -1 then IndexOfNth(items, next, 0) else target
  }

  /**
   * Moving to another row and back lands on the starting item when the other
   * row is long enough, and on the first item of the starting row otherwise.
   */
  lemma RowMatchingRoundTrip(items: seq<ImageData>, current: int, next: Category)
    requires 0 <= current < |items|
    requires CategoryCount(items, next) > 0
    ensures FindMatchingPosition(items, FindMatchingPosition(items, current, next), items[current].category) ==
      (if PositionInCategory(items, current) < CategoryCount(items, next) then current
       else IndexOfNth(items, items[current].category, 0))
  {
    var c := items[current].category;
    var p := PositionInCategory(items, current);
    var d := FindMatchingPosition(items, current, next);
    assert PositionInCategory(items, d) == CountBefore(items, next, d);
    if p < CategoryCount(items, next) {
      IndexOfNthUnique(items, c, current);
    } else {
      assert PositionInCategory(items, d) == 0;
    }
  }

  /** First index of `s` in `rows`, -1 when absent. */
  function IndexOf(rows: seq<string>, s: string): (r: int)
    ensures -1 <= r < |rows|
    ensures r == -1 <==> s !in rows
    ensures r >= 0 ==> rows[r] == s && s !in rows[..r]
  {
    if |rows| == 0 then -1
    else if rows[0] == s then 0
    else
      var k := IndexOf(rows[1..], s);
      assert rows == [rows[0]] + rows[1..];
      if k == -1 then -1
      else
        assert rows[..k + 1] == [rows[0]] + rows[1..][..k];
        k + 1
  }

  /** An index clamped into the list, -1 for an empty list. */
  function EnsureValidIndex(size: int, index: int): (r: int)
    ensures size > 0 ==> 0 <= r < size
    ensures 0 <= index < size ==> r == index
    ensures size > 0 && index < 0 ==> r == 0
    ensures size > 0 && index >= size ==> r == size - 1
    ensures size == 0 ==> r == -1
  {
    var lifted := if index < 0 then 0 else index;
    if lifted >= size then size - 1 else lifted
  }

  /**
   * The current item sits past the middle of its row and its row is the
   * next-to-last one.
   */
  predicate ShouldJumpToLastRow(items: seq<ImageData>, rows: seq<string>, current: int)
  {
    if current < 0 || current >= |items| then false
    else
      var cat := items[current].category;
      var positionInclusive := CountBefore(items, cat, current + 1);
      var total := CategoryCount(items, cat);
      positionInclusive > total / 2 && IndexOf(rows, cat) == |rows| - 2
  }

  /**
   * Past the middle means twice the 1-based position exceeds the row length;
   * a category missing from a one-row list also reads as next-to-last.
   */
  lemma ShouldJumpToLastRowMeaning(items: seq<ImageData>, rows: seq<string>, current: int)
    ensures ShouldJumpToLastRow(items, rows, current) <==>
      (0 <= current < |items|
       && 2 * (PositionInCategory(items, current) + 1) > CategoryCount(items, items[current].category)
       && (if items[current].category in rows
           then |rows| >= 2 && rows[|rows| - 2] == items[current].category && items[current].category !in rows[..|rows| - 2]
           else |rows| == 1))
  {
    if 0 <= current < |items| {
      var cat := items[current].category;
      assert CountBefore(items, cat, current + 1) == PositionInCategory(items, current) + 1;
    }
  }

  /**
   * Indices of `cat` whose position in the category is within five of the
   * current item's position: the neighbourhood loaded ahead of a row change.
   */
  function PreloadWindow(items: seq<ImageData>, current: int, cat: Category): (r: set<int>)
    ensures forall i :: i in r <==> 0 <= i < |items| && InWindow(items, current, cat, i)
    ensures forall i :: i in r ==> 0 <= i < |items| && items[i].category == cat
  {
    set i | 0 <= i < |items| && InWindow(items, current, cat, i)
  }

  /** Index `i` holds an item of `cat` whose position lies within five of the current item's. */
  predicate InWindow(items: seq<ImageData>, current: int, cat: Category, i: int)
    requires 0 <= i < |items|
  {
    var p := PositionInCategory(items, current);
    items[i].category == cat && (if p - 5 < 0 then 0 else p - 5) <= CountBefore(items, cat, i) <= p + 5
  }

  /** Every existing position of `cat` within five of the current one is in the window. */
  lemma PreloadWindowComplete(items: seq<ImageData>, current: int, cat: Category, q: int)
    requires 0 <= q < CategoryCount(items, cat)
    requires PositionInCategory(items, current) - 5 <= q <= PositionInCategory(items, current) + 5
    ensures 0 <= IndexOfNth(items, cat, q) && IndexOfNth(items, cat, q) in PreloadWindow(items, current, cat)
  {
  }

  /**
   * Rows whose items are preloaded around category `cat`: the row itself,
   * the row above when there is one, and the row below (the first row when
   * `cat` is not listed).
   */
  function NeighbourRows(rows: seq<string>, cat: string): (r: seq<string>)
    ensures 1 <= |r| <= 3 && r[0] == cat
    ensures forall i :: 1 <= i < |r| ==> r[i] in rows
  {
    var k := IndexOf(rows, cat);
    [cat] + (if k > 0 then [rows[k - 1]] else []) + (if k < |rows| - 1 then [rows[k + 1]] else [])
  }

  /** The union of the preload windows of the rows `cats`. */
  function PreloadWindows(items: seq<ImageData>, current: int, cats: seq<Category>): (r: set<int>)
    ensures forall i :: i in r <==> 0 <= i < |items| && items[i].category in cats && i in PreloadWindow(items, current, items[i].category)
  {
    set i | 0 <= i < |items| && items[i].category in cats && i in PreloadWindow(items, current, items[i].category)
  }

  /** The windows of a row's neighbours are the windows of the row, the row above and the row below. */
  lemma NeighbourWindowsSplit(items: seq<ImageData>, current: int, rows: seq<Category>, cat: Category)
    ensures var k := IndexOf(rows, cat);
            PreloadWindows(items, current, NeighbourRows(rows, cat)) ==
              PreloadWindow(items, current, cat)
              + (if k > 0 then PreloadWindow(items, current, rows[k - 1]) else {})
              + (if k < |rows| - 1 then PreloadWindow(items, current, rows[k + 1]) else {})
  {
  }

  /** A listed row's neighbours are the rows directly above and below it. */
  lemma NeighbourRowsAdjacent(rows: seq<string>, k: int)
    requires 0 <= k < |rows| && rows[k] !in rows[..k]
    ensures forall c :: c in NeighbourRows(rows, rows[k]) ==>
              c == rows[k] || (k > 0 && c == rows[k - 1]) || (k + 1 < |rows| && c == rows[k + 1])
    ensures k > 0 ==> rows[k - 1] in NeighbourRows(rows, rows[k])
    ensures k + 1 < |rows| ==> rows[k + 1] in NeighbourRows(rows, rows[k])
  {
    IndexOfFirst(rows, k);
  }

  /** The first occurrence of a row title is found by IndexOf. */
  lemma IndexOfFirst(rows: seq<string>, k: int)
    requires 0 <= k < |rows| && rows[k] !in rows[..k]
    ensures IndexOf(rows, rows[k]) == k
  {
  }

  /**
   * The item a move left selects: the one just before `current` when it is
   * in the same category, else none.
   */
  function StepLeft(items: seq<ImageData>, current: int): (r: Option<int>)
    ensures r.Some? ==> r.value == current - 1 && 0 <= r.value && current < |items|
    ensures r.Some? ==> items[r.value].category == items[current].category
    ensures r.Some? ==>
              CountBefore(items, items[current].category, r.value) + 1 == CountBefore(items, items[current].category, current)
    ensures r.None? && 0 < current < |items| ==> items[current - 1].category != items[current].category
  {
    if 0 < current < |items| && items[current - 1].category == items[current].category then Some(current - 1) else None
  }

  /**
   * The item a move right selects: the one just after `current` when it is
   * in the same category, else none.
   */
  function StepRight(items: seq<ImageData>, current: int): (r: Option<int>)
    ensures r.Some? ==> r.value == current + 1 && 0 <= current && r.value < |items|
    ensures r.Some? ==> items[r.value].category == items[current].category
    ensures r.Some? ==>
              CountBefore(items, items[current].category, current) + 1 == CountBefore(items, items[current].category, r.value)
    ensures r.None? && 0 <= current && current + 1 < |items| ==> items[current + 1].category != items[current].category
  {
    if 0 <= current && current + 1 < |items| && items[current + 1].category == items[current].category then Some(current + 1) else None
  }

  /** A move right is undone by a move left, and a move left by a move right. */
  lemma StepsInverse(items: seq<ImageData>, current: int)
    ensures StepRight(items, current).Some? ==> StepLeft(items, StepRight(items, current).value) == Some(current)
    ensures StepLeft(items, current).Some? ==> StepRight(items, StepLeft(items, current).value) == Some(current)
  {
  }
}
