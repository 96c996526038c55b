// Specification of the texture cache: the least-recently-used queue of
// indices, the set of entries the off-screen recycler removes, and the
// entries that survive trimming the cache to a size. The view's methods are
// proved against these functions.

module TextureCache {
  import opened ImageTypes
  import opened Layout

  // ---------------------------------------------------------------------
  // Usage queue

  predicate NoDuplicates(q: seq<int>)
  {
    forall i, j :: 0 <= i < j < |q| ==> q[i] != q[j]
  }

  /** `q` without the elements of `s`, the others in their order. */
  function Without(q: seq<int>, s: set<int>): (r: seq<int>)
    ensures |r| <= |q|
    ensures forall y :: y in r <==> y in q && y !in s
    ensures NoDuplicates(q) ==> NoDuplicates(r)
    decreases |q|
  {
    if q == [] then []
    else
      var rest := Without(q[1..], s);
      assert forall y :: y in q[1..] ==> y in q;
      if q[0] in s then rest else [q[0]] + rest
  }

  /** `q` with its first occurrence of `x` removed. */
  function RemoveOne(q: seq<int>, x: int): (r: seq<int>)
    ensures x !in q ==> r == q
    ensures x in q ==> |r| == |q| - 1
    decreases |q|
  {
    if q == [] then []
    else if q[0] == x then q[1..]
    else [q[0]] + RemoveOne(q[1..], x)
  }

  /** `RemoveOne` takes out exactly one copy of `x` when there is one, and nothing else. */
  lemma {:induction false} RemoveOneMultiset(q: seq<int>, x: int)
    ensures multiset(RemoveOne(q, x)) == multiset(q) - multiset{x}
    decreases |q|
  {
    if q != [] {
      assert q == [q[0]] + q[1..];
      if q[0] != x {
        RemoveOneMultiset(q[1..], x);
      }
    }
  }

  /** The occurrence `RemoveOne` takes out is the first one; the rest keep their order. */
  lemma {:induction false} RemoveOneFirst(q: seq<int>, x: int, i: int)
    requires 0 <= i < |q| && q[i] == x && x !in q[..i]
    ensures RemoveOne(q, x) == q[..i] + q[i + 1..]
    decreases |q|
  {
    if i == 0 {
      assert q[0] == x;
    } else {
      assert q[..i][0] == q[0];
      var t := q[1..];
      assert t[i - 1] == x;
      assert t[..i - 1] == q[1..i];
      assert q[..i] == [q[0]] + t[..i - 1];
      RemoveOneFirst(t, x, i - 1);
      assert q[i + 1..] == t[i..];
    }
  }

  /** Removing a set the queue never meets leaves the queue as it was. */
  lemma {:induction false} WithoutNothing(q: seq<int>, s: set<int>)
    requires forall i :: 0 <= i < |q| ==> q[i] !in s
    ensures Without(q, s) == q
    decreases |q|
  {
    if q != [] {
      WithoutNothing(q[1..], s);
      assert q == [q[0]] + q[1..];
    }
  }

  /** On a queue without duplicates, removing the first occurrence removes every occurrence. */
  lemma {:induction false} RemoveOneIsWithout(q: seq<int>, x: int)
    requires NoDuplicates(q)
    ensures RemoveOne(q, x) == Without(q, {x})
    decreases |q|
  {
    if q != [] {
      assert NoDuplicates(q[1..]);
      if q[0] == x {
        assert x !in q[1..];
        WithoutNothing(q[1..], {x});
      } else {
        RemoveOneIsWithout(q[1..], x);
      }
    }
  }

  lemma {:induction false} WithoutTwice(q: seq<int>, s: set<int>, x: int)
    ensures Without(Without(q, s), {x}) == Without(q, s + {x})
    decreases |q|
  {
    if q != [] {
      WithoutTwice(q[1..], s, x);
    }
  }

  /** The queue after a texture for `index` is cached: `index` moves to the back. */
  function Touch(q: seq<int>, index: int): (r: seq<int>)
    ensures |r| > 0 && r[|r| - 1] == index && index !in r[..|r| - 1]
    ensures forall y :: y in r <==> y in q || y == index
    ensures NoDuplicates(q) ==> NoDuplicates(r)
  {
    var rest := Without(q, {index});
    assert (rest + [index])[..|rest|] == rest;
    rest + [index]
  }

  /** Touching keeps the other indices in their relative order, and touching twice is touching once. */
  lemma TouchTwice(q: seq<int>, index: int)
    ensures Touch(q, index)[..|Touch(q, index)| - 1] == Without(q, {index})
    ensures Touch(Touch(q, index), index) == Touch(q, index)
  {
    var w := Without(q, {index});
    var r := Touch(q, index);
    assert r == w + [index];
    assert r[..|r| - 1] == w;
    WithoutLast(w, index);
    WithoutTwice(q, {index}, index);
    assert {index} + {index} == {index};
    assert Without(r, {index}) == w;
  }

  lemma {:induction false} WithoutLast(q: seq<int>, x: int)
    ensures Without(q + [x], {x}) == Without(q, {x})
    decreases |q|
  {
    if q == [] {
      assert Without([x], {x}) == [];
    } else {
      assert (q + [x])[1..] == q[1..] + [x];
      WithoutLast(q[1..], x);
    }
  }

  // ---------------------------------------------------------------------
  // Releasing node wrappers

  /** Node ids released when the entries of `keys` are cleaned up. */
  function ReleasedOf(nodes: map<int, TexturedNode>, keys: set<int>): set<nat>
  {
    set k | k in keys && k in nodes && nodes[k].node.Node? :: nodes[k].node.id
  }

  lemma ReleasedOfAdd(nodes: map<int, TexturedNode>, keys: set<int>, k: int)
    requires k in nodes
    ensures ReleasedOf(nodes, keys + {k}) == ReleasedOf(nodes, keys) + ReleasedNodes(nodes[k])
  {
  }

  /** Releasing one more slot extends the released ids by that slot's node wrapper. */
  lemma ReleaseStep(nodes: map<int, TexturedNode>, done: set<int>, k: int, before: set<nat>, deleted: set<nat>)
    requires k in nodes && deleted == before + ReleasedOf(nodes, done)
    ensures deleted + ReleasedNodes(nodes[k]) == before + ReleasedOf(nodes, done + {k})
  {
    ReleasedOfAdd(nodes, done, k);
  }

  // ---------------------------------------------------------------------
  // Node wrappers deleted, counted with repeats

  /** Node slots holding the same node wrapper are never two different slots. */
  predicate DistinctNodes(slots: seq<TexturedNode>)
  {
    forall i, j :: 0 <= i < j < |slots| && slots[i].node.Node? ==> slots[j].node != slots[i].node
  }

  /** The node ids deleted when each slot's node pointer is deleted once, slot by slot. */
  function NodeDeletes(slots: seq<TexturedNode>): (r: multiset<nat>)
    ensures forall id :: id in r ==> exists i :: 0 <= i < |slots| && slots[i].node == Node(id)
    decreases |slots|
  {
    if slots == [] then multiset{}
    else
      var last := slots[|slots| - 1];
      NodeDeletes(slots[..|slots| - 1]) + (if last.node.Node? then multiset{last.node.id} else multiset{})
  }

  /** With every node wrapper held by one slot, each held wrapper is deleted exactly once and no other id is. */
  lemma {:induction false} DistinctNodesDeletedOnce(slots: seq<TexturedNode>)
    requires DistinctNodes(slots)
    ensures forall id :: NodeDeletes(slots)[id] <= 1
    ensures forall i :: 0 <= i < |slots| && slots[i].node.Node? ==> NodeDeletes(slots)[slots[i].node.id] == 1
    decreases |slots|
  {
    if slots != [] {
      var pre := slots[..|slots| - 1];
      var last := slots[|slots| - 1];
      assert DistinctNodes(pre);
      DistinctNodesDeletedOnce(pre);
      forall i | 0 <= i < |slots| && slots[i].node.Node?
        ensures NodeDeletes(slots)[slots[i].node.id] == 1
      {
        if i < |pre| {
          assert pre[i] == slots[i];
          assert last.node != slots[i].node;
        }
      }
    }
  }

  /** A slot without a node wrapper deletes nothing. */
  lemma {:induction false} NoNodesNoDeletes(slots: seq<TexturedNode>)
    requires forall i :: 0 <= i < |slots| ==> slots[i].node.NullNode?
    ensures NodeDeletes(slots) == multiset{}
    decreases |slots|
  {
    if slots != [] {
      NoNodesNoDeletes(slots[..|slots| - 1]);
    }
  }

  /**
   * safeReleaseTextures as written: its loop deletes each slot's node
   * wrapper but leaves the pointer set, so clearing the map runs the slot
   * destructor on the same pointers and deletes every wrapper again.
   */
  function SafeReleaseDeletesAsWritten(slots: seq<TexturedNode>): multiset<nat>
  {
    NodeDeletes(slots) + NodeDeletes(slots)
  }

  /** A single slot holding wrapper 7 has that wrapper deleted twice. */
  lemma SafeReleaseDeletesTwice()
    ensures SafeReleaseDeletesAsWritten([TexturedNode(Node(7), NullTexture)])[7] == 2
  {
    var slots := [TexturedNode(Node(7), NullTexture)];
    assert slots[..0] == [];
  }

  /** Every held wrapper is deleted twice by safeReleaseTextures as written. */
  lemma SafeReleaseAsWrittenDeletesHeldTwice(slots: seq<TexturedNode>)
    requires DistinctNodes(slots)
    ensures forall i :: 0 <= i < |slots| && slots[i].node.Node? ==> SafeReleaseDeletesAsWritten(slots)[slots[i].node.id] == 2
  {
    DistinctNodesDeletedOnce(slots);
  }

  /**
   * Releasing by cleanupNode then clearing the map, as cleanupTextures
   * does: each wrapper is deleted and its pointer cleared, so the slot
   * destructors that clearing runs delete nothing more.
   */
  function CleanupThenClearDeletes(slots: seq<TexturedNode>): multiset<nat>
  {
    NodeDeletes(slots) + NodeDeletes(seq(|slots|, i requires 0 <= i < |slots| => CleanupNode(slots[i])))
  }

  /** Cleaning then clearing deletes each held wrapper exactly once, and nothing else. */
  lemma CleanupThenClearDeletesOnce(slots: seq<TexturedNode>)
    requires DistinctNodes(slots)
    ensures CleanupThenClearDeletes(slots) == NodeDeletes(slots)
    ensures forall id :: CleanupThenClearDeletes(slots)[id] <= 1
    ensures forall i :: 0 <= i < |slots| && slots[i].node.Node? ==> CleanupThenClearDeletes(slots)[slots[i].node.id] == 1
  {
    NoNodesNoDeletes(seq(|slots|, i requires 0 <= i < |slots| => CleanupNode(slots[i])));
    DistinctNodesDeletedOnce(slots);
  }

  // ---------------------------------------------------------------------
  // Off-screen recycling

  /** Every cached index is one the recycler can look up: none is negative. */
  predicate RecycleDefined(nodes: map<int, TexturedNode>)
  {
    forall k :: k in nodes ==> 0 <= k
  }

  /** A visible category scrolled more than two posters past either edge of the view. */
  predicate CategoryScrolledAway(g: Geometry, contentX: map<Category, real>, cat: Category)
  {
    var pw := DimensionsFor(g, cat).posterWidth;
    var x := ContentXOf(contentX, cat);
    x < (-pw * 2) as real || x > g.width + (pw * 2) as real
  }

  /** First pass: cached items of categories that are not visible. */
  function RecycleFirstPass(nodes: map<int, TexturedNode>, items: seq<ImageData>, visibleCategories: set<Category>): (r: set<int>)
    requires forall k :: k in nodes ==> 0 <= k
    ensures forall k :: k in r <==> k in nodes && k < |items| && items[k].category !in visibleCategories
  {
    set k | k in nodes && k < |items| && items[k].category !in visibleCategories
  }

  /**
   * Second pass, as written: cached items outside the visible indices and
   * outside `first` whose category is visible but scrolled away. The record
   * of every such index is read without a range test, so the pass is only
   * defined when all of them name a record.
   */
  predicate SecondPassReadsInRange(nodes: map<int, TexturedNode>, items: seq<ImageData>, visibleIndices: set<int>, first: set<int>)
  {
    forall k :: k in nodes && k !in visibleIndices && k !in first ==> 0 <= k < |items|
  }

  function RecycleSecondPassAsWritten(nodes: map<int, TexturedNode>, items: seq<ImageData>, visibleCategories: set<Category>,
                                      visibleIndices: set<int>, g: Geometry, contentX: map<Category, real>, first: set<int>): (r: set<int>)
    requires SecondPassReadsInRange(nodes, items, visibleIndices, first)
    ensures forall k :: k in r <==> k in nodes && k !in visibleIndices && k !in first &&
                                    items[k].category in visibleCategories && CategoryScrolledAway(g, contentX, items[k].category)
  {
    set k | k in nodes && k !in visibleIndices && k !in first &&
            items[k].category in visibleCategories && CategoryScrolledAway(g, contentX, items[k].category)
  }

  /**
   * A cached index past the record list that is not visible is read out of
   * range by the second pass: the first pass never marks it, because that
   * pass tests the range.
   */
  lemma StaleKeyReadPastList(nodes: map<int, TexturedNode>, items: seq<ImageData>, visibleCategories: set<Category>,
                             visibleIndices: set<int>, k: int)
    requires RecycleDefined(nodes)
    requires k in nodes && k >= |items| && k !in visibleIndices
    ensures !SecondPassReadsInRange(nodes, items, visibleIndices, RecycleFirstPass(nodes, items, visibleCategories))
  {
  }

  /**
   * Second pass, corrected: as written, but an index past the record list
   * is skipped, as the first pass skips it.
   */
  function RecycleSecondPass(nodes: map<int, TexturedNode>, items: seq<ImageData>, visibleCategories: set<Category>,
                             visibleIndices: set<int>, g: Geometry, contentX: map<Category, real>, first: set<int>): (r: set<int>)
    requires RecycleDefined(nodes)
    ensures forall k :: k in r <==> k in nodes && k < |items| && k !in visibleIndices && k !in first &&
                                    items[k].category in visibleCategories && CategoryScrolledAway(g, contentX, items[k].category)
  {
    set k | k in nodes && k < |items| && k !in visibleIndices && k !in first &&
            items[k].category in visibleCategories && CategoryScrolledAway(g, contentX, items[k].category)
  }

  /** Wherever the as-written pass is defined, the corrected pass agrees with it. */
  lemma SecondPassGuardAgrees(nodes: map<int, TexturedNode>, items: seq<ImageData>, visibleCategories: set<Category>,
                              visibleIndices: set<int>, g: Geometry, contentX: map<Category, real>, first: set<int>)
    requires RecycleDefined(nodes) && SecondPassReadsInRange(nodes, items, visibleIndices, first)
    ensures RecycleSecondPass(nodes, items, visibleCategories, visibleIndices, g, contentX, first)
            == RecycleSecondPassAsWritten(nodes, items, visibleCategories, visibleIndices, g, contentX, first)
  {
  }

  /**
   * Entries the recycler removes: the first pass, and, when the cache holds
   * more than the threshold, cached items outside the visible indices whose
   * visible category is scrolled away.
   */
  function RecycleSet(nodes: map<int, TexturedNode>, items: seq<ImageData>, visibleCategories: set<Category>,
                      visibleIndices: set<int>, g: Geometry, contentX: map<Category, real>): (r: set<int>)
    requires RecycleDefined(nodes)
    ensures r <= nodes.Keys
    ensures forall k :: k in r && k in visibleIndices ==> k < |items| && items[k].category !in visibleCategories
    ensures |nodes| <= CleanupThreshold ==> r == RecycleFirstPass(nodes, items, visibleCategories)
    ensures forall k :: k in nodes && k < |items| && items[k].category !in visibleCategories ==> k in r
  {
    var first := RecycleFirstPass(nodes, items, visibleCategories);
    if |nodes| > CleanupThreshold then
      first + RecycleSecondPass(nodes, items, visibleCategories, visibleIndices, g, contentX, first)
    else first
  }

  /**
   * The cache `nodes`, queue `queue` and deleted set `deleted` are what the
   * cleanup check leaves from `nodes0`, `queue0` and `deleted0`: over the
   * threshold the recycle set is removed, its nodes released and the queue
   * filtered; otherwise nothing changes.
   */
  ghost predicate RecycledState(nodes0: map<int, TexturedNode>, queue0: seq<int>, deleted0: set<nat>,
                                nodes: map<int, TexturedNode>, queue: seq<int>, deleted: set<nat>,
                                items: seq<ImageData>, visibleCategories: set<Category>, visibleIndices: set<int>,
                                g: Geometry, contentX: map<Category, real>)
  {
    RecycleDefined(nodes0)
    && if |nodes0| > CleanupThreshold then
         var removed := RecycleSet(nodes0, items, visibleCategories, visibleIndices, g, contentX);
         nodes == nodes0 - removed && queue == Without(queue0, removed) && deleted == deleted0 + ReleasedOf(nodes0, removed)
       else
         nodes == nodes0 && queue == queue0 && deleted == deleted0
  }

  /** An item on screen in a visible category is never recycled. */
  lemma RecycleKeepsOnScreenItems(nodes: map<int, TexturedNode>, items: seq<ImageData>, visibleCategories: set<Category>,
                                  visibleIndices: set<int>, g: Geometry, contentX: map<Category, real>, k: int)
    requires RecycleDefined(nodes)
    requires k in visibleIndices && 0 <= k < |items| && items[k].category in visibleCategories
    ensures k !in RecycleSet(nodes, items, visibleCategories, visibleIndices, g, contentX)
  {
  }

  /** When no cached item's category is visible, the recycler empties the cache. */
  lemma RecycleClearsHiddenCategories(nodes: map<int, TexturedNode>, items: seq<ImageData>, visibleCategories: set<Category>,
                                      visibleIndices: set<int>, g: Geometry, contentX: map<Category, real>)
    requires RecycleDefined(nodes)
    requires forall k :: k in nodes ==> k < |items| && items[k].category !in visibleCategories
    ensures RecycleSet(nodes, items, visibleCategories, visibleIndices, g, contentX) == nodes.Keys
  {
  }

  // ---------------------------------------------------------------------
  // Trimming to a size

  /** A non-empty set of indices has an element to pick. */
  lemma HasElement(s: set<int>)
    requires s != {}
    ensures exists y :: y in s
  {
    if forall y :: y !in s {
      assert false;
    }
  }

  lemma SetHasMinimum(s: set<int>)
    requires s != {}
    ensures exists m :: m in s && forall x :: x in s ==> m <= x
    decreases |s|
  {
    HasElement(s);
    var y :| y in s;
    var rest := s - {y};
    if rest != {} {
      SetHasMinimum(rest);
      var m :| m in rest && forall x :: x in rest ==> m <= x;
      var low := if y < m then y else m;
      assert low in s;
      forall x | x in s
        ensures low <= x
      {
        if x != y {
          assert x in rest;
        }
      }
      assert low in s && forall x :: x in s ==> low <= x;
    } else {
      forall x | x in s
        ensures y <= x
      {
        assert x !in rest;
      }
      assert y in s && forall x :: x in s ==> y <= x;
    }
  }

  ghost function SetMin(s: set<int>): (m: int)
    requires s != {}
    ensures m in s && forall x :: x in s ==> m <= x
  {
    SetHasMinimum(s);
    var m :| m in s && forall x :: x in s ==> m <= x; m
  }

  /** The smallest element of a non-empty set of indices. */
  method SmallestKey(s: set<int>) returns (m: int)
    requires s != {}
    ensures m == SetMin(s)
  {
    SetHasMinimum(s);
    m :| m in s && forall x :: x in s ==> m <= x;
    var n := SetMin(s);
    assert m <= n && n <= m;
  }

  /** Keys left after dropping the smallest key until at most `max` remain. */
  ghost function TrimmedKeys(keys: set<int>, max: int): (r: set<int>)
    ensures r <= keys
    decreases |keys|
  {
    if |keys| <= max || keys == {} then keys else TrimmedKeys(keys - {SetMin(keys)}, max)
  }

  /**
   * Trimming `orig` down to `max` slots has reached `keys`: what remains trims
   * to the same keys, and `deleted` adds the released slots' ids to `before`.
   */
  ghost predicate TrimProgress(orig: map<int, TexturedNode>, keys: set<int>, max: int, before: set<nat>, deleted: set<nat>)
  {
    keys <= orig.Keys && TrimmedKeys(keys, max) == TrimmedKeys(orig.Keys, max) &&
    deleted == before + ReleasedOf(orig, orig.Keys - keys)
  }

  /** Dropping the smallest remaining slot keeps the trim on course. */
  lemma TrimStep(orig: map<int, TexturedNode>, keys: set<int>, max: int, before: set<nat>, deleted: set<nat>)
    requires TrimProgress(orig, keys, max, before, deleted) && keys != {} && |keys| > max
    ensures SetMin(keys) in orig
    ensures TrimProgress(orig, keys - {SetMin(keys)}, max, before, deleted + ReleasedNodes(orig[SetMin(keys)]))
  {
    var k := SetMin(keys);
    assert TrimmedKeys(keys, max) == TrimmedKeys(keys - {k}, max);
    ReleasedOfAdd(orig, orig.Keys - keys, k);
    assert (orig.Keys - keys) + {k} == orig.Keys - (keys - {k});
  }

  /**
   * Trimming keeps the `max` largest keys: the size is min(|keys|, max)
   * (nothing for a negative max) and every dropped key is below every kept one.
   */
  lemma {:induction false} TrimmedKeysMeaning(keys: set<int>, max: int)
    ensures |TrimmedKeys(keys, max)| == if |keys| <= max then |keys| else if max < 0 then 0 else max
    ensures forall a, b :: a in keys - TrimmedKeys(keys, max) && b in TrimmedKeys(keys, max) ==> a < b
    decreases |keys|
  {
    if !(|keys| <= max || keys == {}) {
      var m := SetMin(keys);
      TrimmedKeysMeaning(keys - {m}, max);
      var r := TrimmedKeys(keys, max);
      assert r == TrimmedKeys(keys - {m}, max);
      forall a, b | a in keys - r && b in r
        ensures a < b
      {
        assert b in keys - {m};
        if a == m {
          assert m <= b;
        } else {
          assert a in (keys - {m}) - TrimmedKeys(keys - {m}, max);
        }
      }
    }
  }
}
