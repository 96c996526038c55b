// The swimlane view as an object: its content, the selection, the scroll
// offsets, the texture cache with its usage queue, and the network fetches in
// flight. Each method mirrors one member of the view and states its new state
// in terms of the specification functions of the other modules.
//
// The window, the scene graph and the network are reduced to fields the
// environment sets: whether a window is present, exposed and ready, whether
// it hands out textures, and which paths decode as local images. Textures,
// node wrappers and network replies are handles numbered from counters.

module ImageListView {
  import opened ImageTypes
  import opened ContentIndex
  import opened Layout
  import opened ContentTransform
  import opened TextureCache
  import opened Navigation

  /** A network reply; each request gets a fresh one. */
  datatype Reply = Reply(id: nat)

  /** How a reply ended: a network error, or a body that may be empty and may decode as an image. */
  datatype ReplyOutcome = NetworkFailure | Body(empty: bool, decodes: bool)

  class ImageListView {
    // Content.
    var imageData: seq<ImageData>
    var rowTitles: seq<Category>
    var count: int
    // The item size, spacings, title height, start position, viewport size
    // and per-category dimensions, as one layout value.
    var layout: Geometry

    // Selection and scrolling.
    var currentIndex: int
    var currentCategory: Category
    var contentY: real
    var categoryContentX: map<Category, real>

    // What the last visibility pass found.
    var visibleIndices: set<int>
    var visibleCategories: set<Category>

    // Texture cache: one slot per loaded index, the usage queue, and the
    // node wrappers deleted so far.
    var nodes: map<int, TexturedNode>
    var textureUsageQueue: seq<int>
    var deletedNodes: set<nat>
    var nextTextureId: nat

    // Network fetches: the reply pending for each index, the replies
    // aborted because a newer request replaced them.
    var pendingRequests: map<int, Reply>
    var abortedReplies: seq<Reply>
    var nextReplyId: nat

    // Environment.
    var isBeingDestroyed: bool
    var isDestroying: bool
    var windowReady: bool
    var windowPresent: bool
    var windowExposed: bool
    var windowShown: bool
    var texturesAvailable: bool
    var localImages: set<string>

    /** The usage queue never holds an index twice. */
    ghost predicate QueueValid()
      reads this`textureUsageQueue
    {
      NoDuplicates(textureUsageQueue)
    }

    /** Cached indices are non-negative. */
    ghost predicate NodesValid()
      reads this`nodes
    {
      forall k :: k in nodes ==> 0 <= k
    }

    /** Requested indices are non-negative, and each pending reply is a distinct, already issued one. */
    ghost predicate RepliesValid()
      reads this`pendingRequests, this`nextReplyId
    {
      (forall k :: k in pendingRequests ==> 0 <= k && pendingRequests[k].id < nextReplyId)
      && (forall a, b :: a in pendingRequests && b in pendingRequests && pendingRequests[a] == pendingRequests[b] ==> a == b)
    }

    ghost predicate Valid()
      reads this`textureUsageQueue, this`nodes, this`pendingRequests, this`nextReplyId
    {
      QueueValid() && NodesValid() && RepliesValid()
    }

    /** Every cached index names a record. */
    ghost predicate KeysInRange()
      reads this`nodes, this`imageData
    {
      forall k :: k in nodes ==> k < |imageData|
    }

    /** The scene graph is initialised and the window is present, shown, exposed and non-empty. */
    predicate ReadyForTextures()
      reads this`windowReady, this`windowPresent, this`windowShown, this`windowExposed
    {
      windowReady && windowPresent && windowShown && windowExposed
    }

    /** The texture the window hands out next: none without a window or when creation fails. */
    function NextTexture(): (t: TextureHandle)
      reads this`windowPresent, this`texturesAvailable, this`nextTextureId
      ensures t.Texture? <==> windowPresent && texturesAvailable
    {
      if windowPresent && texturesAvailable then Texture(nextTextureId) else NullTexture
    }

    constructor(readyWindow: bool, textures: bool, local: set<string>)
      ensures imageData == [] && rowTitles == [] && count == DefaultCount
      ensures layout == Layout.Geometry(DefaultItemWidth, DefaultItemHeight, DefaultSpacing, DefaultRowSpacing, DefaultTitleHeight,
                                        0.0, 0.0, InitialHeight, map[])
      ensures currentIndex == 0 && currentCategory == "" && contentY == 0.0 && categoryContentX == map[]
      ensures visibleIndices == {} && visibleCategories == {}
      ensures nodes == map[] && textureUsageQueue == [] && deletedNodes == {}
      ensures pendingRequests == map[] && abortedReplies == []
      ensures !isBeingDestroyed && !isDestroying && !windowReady
      ensures windowPresent == readyWindow && windowExposed == readyWindow && windowShown == readyWindow
      ensures texturesAvailable == textures && localImages == local
      ensures Valid() && KeysInRange()
    {
      imageData := [];
      rowTitles := [];
      count := DefaultCount;
      layout := Layout.Geometry(DefaultItemWidth, DefaultItemHeight, DefaultSpacing, DefaultRowSpacing, DefaultTitleHeight,
                                0.0, 0.0, InitialHeight, map[]);
      currentIndex := 0;
      currentCategory := "";
      contentY := 0.0;
      categoryContentX := map[];
      visibleIndices := {};
      visibleCategories := {};
      nodes := map[];
      textureUsageQueue := [];
      deletedNodes := {};
      nextTextureId := 0;
      pendingRequests := map[];
      abortedReplies := [];
      nextReplyId := 0;
      isBeingDestroyed := false;
      isDestroying := false;
      windowReady := false;
      windowPresent := readyWindow;
      windowExposed := readyWindow;
      windowShown := readyWindow;
      texturesAvailable := textures;
      localImages := local;
    }

    // -------------------------------------------------------------------
    // Texture cache

    /** Ask the window for a texture; a fresh handle when one is handed out. */
    method CreateTexture() returns (t: TextureHandle)
      modifies this`nextTextureId
      ensures t == old(NextTexture())
      ensures nextTextureId == old(nextTextureId) + (if t.Texture? then 1 else 0)
    {
      if windowPresent && texturesAvailable {
        t := Texture(nextTextureId);
        nextTextureId := nextTextureId + 1;
      } else {
        t := NullTexture;
      }
    }

    /** Store a texture for `index` and move `index` to the back of the usage queue. */
    method CacheTexture(index: int, texture: TextureHandle)
      requires Valid() && index >= 0
      modifies this`nodes, this`textureUsageQueue
      ensures nodes == old(nodes)[index := TexturedNode(NullNode, texture)]
      ensures textureUsageQueue == Touch(old(textureUsageQueue), index)
      ensures Valid()
    {
      textureUsageQueue := Without(textureUsageQueue, {index});
      textureUsageQueue := textureUsageQueue + [index];
      nodes := nodes[index := TexturedNode(NullNode, texture)];
    }

    /** Cache a placeholder texture for `index`; the usage queue is left alone. */
    method CreateFallbackTexture(index: int)
      requires Valid() && index >= 0
      modifies this`nodes, this`nextTextureId
      ensures var t := old(NextTexture());
              nodes == (if t.Texture? then old(nodes)[index := TexturedNode(NullNode, t)] else old(nodes))
      ensures nextTextureId == old(nextTextureId) + (if old(NextTexture()).Texture? then 1 else 0)
      ensures Valid()
    {
      if windowPresent {
        var texture := CreateTexture();
        if texture != NullTexture {
          nodes := nodes[index := TexturedNode(NullNode, texture)];
        }
      }
    }

    /** A decoded image becomes a cached texture only while its index is visible. */
    method ProcessLoadedImage(index: int, decoded: bool)
      requires Valid() && index >= 0
      modifies this`nodes, this`textureUsageQueue, this`nextTextureId
      ensures var t := old(NextTexture());
              if decoded && index in old(visibleIndices) && t.Texture? then
                nodes == old(nodes)[index := TexturedNode(NullNode, t)] &&
                textureUsageQueue == Touch(old(textureUsageQueue), index) &&
                nextTextureId == old(nextTextureId) + 1
              else
                nodes == old(nodes) && textureUsageQueue == old(textureUsageQueue) && nextTextureId == old(nextTextureId)
      ensures Valid()
    {
      if decoded && windowPresent && index in visibleIndices {
        var texture := CreateTexture();
        if texture != NullTexture {
          CacheTexture(index, texture);
        }
      }
    }

    /** First recycling pass: the cached indices whose category is not visible. */
    method MarkHiddenCategories() returns (first: set<int>)
      requires Valid()
      ensures first == RecycleFirstPass(nodes, imageData, visibleCategories)
    {
      first := {};
      var rest := nodes.Keys;
      while rest != {}
        invariant rest <= nodes.Keys
        invariant first == RecycleFirstPass(nodes, imageData, visibleCategories) * (nodes.Keys - rest)
        decreases |rest|
      {
        HasElement(rest);
        var k :| k in rest;
        if k < |imageData| && imageData[k].category !in visibleCategories {
          first := first + {k};
        }
        rest := rest - {k};
      }
    }

    /** Second recycling pass, run over the threshold: visible categories scrolled well past the view, records only. */
    method MarkScrolledAway(first: set<int>) returns (second: set<int>)
      requires Valid()
      ensures second == RecycleSecondPass(nodes, imageData, visibleCategories, visibleIndices, layout, categoryContentX, first)
    {
      second := {};
      var rest := nodes.Keys;
      while rest != {}
        invariant rest <= nodes.Keys
        invariant second == RecycleSecondPass(nodes, imageData, visibleCategories, visibleIndices, layout, categoryContentX, first) * (nodes.Keys - rest)
        decreases |rest|
      {
        HasElement(rest);
        var k :| k in rest;
        if k < |imageData| && k !in visibleIndices && k !in first {
          var category := imageData[k].category;
          if category in visibleCategories && CategoryScrolledAway(layout, categoryContentX, category) {
            second := second + {k};
          }
        }
        rest := rest - {k};
      }
    }

    /** The cached indices the recycler removes. */
    method MarkForRecycling() returns (removed: set<int>)
      requires Valid()
      ensures removed == RecycleSet(nodes, imageData, visibleCategories, visibleIndices, layout, categoryContentX)
    {
      removed := MarkHiddenCategories();
      if |nodes| > CleanupThreshold {
        var second := MarkScrolledAway(removed);
        removed := removed + second;
      }
    }

    /** Release the node wrapper of `k`, drop its slot, and take it out of the usage queue once. */
    method RemoveEntry(k: int)
      requires Valid() && k in nodes
      modifies this`nodes, this`textureUsageQueue, this`deletedNodes
      ensures nodes == old(nodes) - {k}
      ensures textureUsageQueue == Without(old(textureUsageQueue), {k})
      ensures deletedNodes == old(deletedNodes) + ReleasedNodes(old(nodes)[k])
      ensures Valid()
    {
      deletedNodes := deletedNodes + ReleasedNodes(nodes[k]);
      nodes := nodes - {k};
      RemoveOneIsWithout(textureUsageQueue, k);
      textureUsageQueue := RemoveOne(textureUsageQueue, k);
    }

    /** Remove every entry of `removed`, one at a time. */
    method RemoveEntries(removed: set<int>)
      requires Valid() && removed <= nodes.Keys
      modifies this`nodes, this`textureUsageQueue, this`deletedNodes
      ensures nodes == old(nodes) - removed
      ensures textureUsageQueue == Without(old(textureUsageQueue), removed)
      ensures deletedNodes == old(deletedNodes) + ReleasedOf(old(nodes), removed)
      ensures Valid()
    {
      var done: set<int> := {};
      assert old(nodes) - done == old(nodes);
      WithoutNothing(textureUsageQueue, {});
      while done != removed
        invariant done <= removed
        invariant nodes == old(nodes) - done
        invariant textureUsageQueue == Without(old(textureUsageQueue), done)
        invariant deletedNodes == old(deletedNodes) + ReleasedOf(old(nodes), done)
        invariant Valid()
        decreases |removed - done|
      {
        HasElement(removed - done);
        var k :| k in removed - done;
        RemoveAnother(k, old(nodes), old(textureUsageQueue), old(deletedNodes), done);
        done := done + {k};
      }
    }

    /** One step of `RemoveEntries`: removing `k` after the entries of `done`. */
    method RemoveAnother(k: int, ghost nodes0: map<int, TexturedNode>, ghost queue0: seq<int>, ghost deleted0: set<nat>,
                         ghost done: set<int>)
      requires Valid() && k in nodes0 && k !in done
      requires nodes == nodes0 - done && textureUsageQueue == Without(queue0, done)
      requires deletedNodes == deleted0 + ReleasedOf(nodes0, done)
      modifies this`nodes, this`textureUsageQueue, this`deletedNodes
      ensures nodes == nodes0 - (done + {k})
      ensures textureUsageQueue == Without(queue0, done + {k})
      ensures deletedNodes == deleted0 + ReleasedOf(nodes0, done + {k})
      ensures Valid()
    {
      ReleaseStep(nodes0, done, k, deleted0, deletedNodes);
      WithoutTwice(queue0, done, k);
      RemoveEntry(k);
      assert nodes == nodes0 - (done + {k});
    }

    /**
     * Drop the cached entries of hidden categories and, over the threshold,
     * those of visible categories scrolled well past the view.
     */
    method RecycleOffscreenTextures()
      requires Valid()
      modifies this`nodes, this`textureUsageQueue, this`deletedNodes
      ensures var removed := RecycleSet(old(nodes), imageData, visibleCategories, visibleIndices, layout, categoryContentX);
              nodes == old(nodes) - removed &&
              textureUsageQueue == Without(old(textureUsageQueue), removed) &&
              deletedNodes == old(deletedNodes) + ReleasedOf(old(nodes), removed)
      ensures Valid()
    {
      var removed := MarkForRecycling();
      RemoveEntries(removed);
    }

    /** Clean and drop the slot of the smallest cached index. */
    method DropSmallest()
      requires Valid() && nodes != map[]
      modifies this`nodes, this`deletedNodes
      ensures old(nodes).Keys != {}
      ensures nodes == old(nodes) - {SetMin(old(nodes).Keys)}
      ensures deletedNodes == old(deletedNodes) + ReleasedNodes(old(nodes)[SetMin(old(nodes).Keys)])
      ensures Valid()
    {
      var keys := nodes.Keys;
      assert keys != {};
      var k := SmallestKey(keys);
      deletedNodes := deletedNodes + ReleasedNodes(nodes[k]);
      nodes := nodes - {k};
    }

    /** Drop the smallest cached indices until at most `maxTextures` remain. */
    method LimitTextureCacheSize(maxTextures: int)
      requires Valid()
      modifies this`nodes, this`deletedNodes
      ensures nodes.Keys == TrimmedKeys(old(nodes).Keys, maxTextures)
      ensures forall k :: k in nodes ==> nodes[k] == old(nodes)[k]
      ensures deletedNodes == old(deletedNodes) + ReleasedOf(old(nodes), old(nodes).Keys - nodes.Keys)
      ensures Valid()
    {
      assert old(nodes).Keys - nodes.Keys == {};
      if |nodes| > maxTextures {
        while |nodes| > maxTextures && nodes != map[]
          invariant forall k :: k in nodes ==> k in old(nodes) && nodes[k] == old(nodes)[k]
          invariant TrimProgress(old(nodes), nodes.Keys, maxTextures, old(deletedNodes), deletedNodes)
          invariant Valid()
          decreases |nodes|
        {
          ghost var keys := nodes.Keys;
          TrimStep(old(nodes), keys, maxTextures, old(deletedNodes), deletedNodes);
          DropSmallest();
          assert nodes.Keys == keys - {SetMin(keys)};
        }
      }
    }

    /** Clean every slot (releasing its node wrapper), then empty the cache; the usage queue is kept. */
    method CleanupTextures()
      modifies this`nodes, this`deletedNodes
      ensures nodes == map[]
      ensures deletedNodes == old(deletedNodes) + ReleasedOf(old(nodes), old(nodes).Keys)
    {
      var rest := nodes.Keys;
      ghost var done: set<int> := {};
      while rest != {}
        invariant rest + done == old(nodes).Keys && nodes.Keys == old(nodes).Keys
        invariant forall k :: k in rest ==> nodes[k] == old(nodes)[k]
        invariant deletedNodes == old(deletedNodes) + ReleasedOf(old(nodes), done)
        decreases |rest|
      {
        HasElement(rest);
        var k :| k in rest;
        ReleaseStep(old(nodes), done, k, old(deletedNodes), deletedNodes);
        deletedNodes := deletedNodes + ReleasedNodes(nodes[k]);
        nodes := nodes[k := CleanupNode(nodes[k])];
        done := done + {k};
        rest := rest - {k};
      }
      nodes := map[];
    }

    /**
     * Delete the node wrapper of every slot that has one, then empty the
     * cache. The source deletes each wrapper without clearing its pointer,
     * so emptying the map deletes it a second time
     * (TextureCache.SafeReleaseDeletesAsWritten); here each wrapper is
     * released once, by cleaning its slot first, as cleanupTextures does
     * (TextureCache.CleanupThenClearDeletesOnce).
     */
    method SafeReleaseTextures()
      modifies this`nodes, this`deletedNodes
      ensures nodes == map[]
      ensures deletedNodes == old(deletedNodes) + ReleasedOf(old(nodes), old(nodes).Keys)
    {
      CleanupTextures();
    }

    // -------------------------------------------------------------------
    // Network fetches

    /**
     * Fetch a valid URL whose final scheme is http, replacing (and
     * aborting) the reply pending for the same index; anything else gets a
     * placeholder texture.
     */
    method LoadUrlImage(index: int, url: Url)
      requires Valid() && index >= 0
      modifies this`nodes, this`nextTextureId, this`pendingRequests, this`abortedReplies, this`nextReplyId
      ensures FetchedOverNetwork(url) ==>
                pendingRequests == old(pendingRequests)[index := Reply(old(nextReplyId))] &&
                abortedReplies == old(abortedReplies) + (if index in old(pendingRequests) then [old(pendingRequests)[index]] else []) &&
                nextReplyId == old(nextReplyId) + 1 &&
                nodes == old(nodes) && nextTextureId == old(nextTextureId)
      ensures !FetchedOverNetwork(url) ==>
                pendingRequests == old(pendingRequests) && abortedReplies == old(abortedReplies) &&
                nextReplyId == old(nextReplyId) &&
                nodes == (var t := old(NextTexture());
                          if t.Texture? then old(nodes)[index := TexturedNode(NullNode, t)] else old(nodes)) &&
                nextTextureId == old(nextTextureId) + (if old(NextTexture()).Texture? then 1 else 0)
      ensures Valid()
    {
      if !url.valid {
        CreateFallbackTexture(index);
        return;
      }
      var finalUrl := url;
      if StartsWith(url.text, "//") {
        finalUrl := ParseUrl("http:" + url.text);
      }
      if finalUrl.scheme == "http" {
        if index in pendingRequests {
          abortedReplies := abortedReplies + [pendingRequests[index]];
          pendingRequests := pendingRequests - {index};
        }
        var reply := Reply(nextReplyId);
        nextReplyId := nextReplyId + 1;
        pendingRequests := pendingRequests[index := reply];
      } else {
        CreateFallbackTexture(index);
      }
    }

    /** The index whose pending reply is `reply`, or -1. */
    ghost function ReplyIndex(reply: Reply): (r: int)
      requires Valid()
      reads this`pendingRequests, this`textureUsageQueue, this`nodes, this`nextReplyId
      ensures r == -1 <==> forall k :: k in pendingRequests ==> pendingRequests[k] != reply
      ensures r != -1 ==> r in pendingRequests && pendingRequests[r] == reply
    {
      if exists k :: k in pendingRequests && pendingRequests[k] == reply then
        var k :| k in pendingRequests && pendingRequests[k] == reply; k
      else -1
    }

    /** Find and forget the pending entry of `reply`; -1 when it is not pending. */
    method TakeReply(reply: Reply) returns (index: int)
      requires Valid()
      modifies this`pendingRequests
      ensures index == old(ReplyIndex(reply))
      ensures pendingRequests == old(pendingRequests) - {index}
      ensures Valid()
    {
      index := -1;
      var rest := pendingRequests.Keys;
      while rest != {}
        invariant rest <= pendingRequests.Keys && pendingRequests == old(pendingRequests)
        invariant index == -1 || (index in pendingRequests && pendingRequests[index] == reply)
        invariant index == -1 ==> forall k :: k in pendingRequests && k !in rest ==> pendingRequests[k] != reply
        decreases |rest|
      {
        HasElement(rest);
        var k :| k in rest;
        if pendingRequests[k] == reply {
          index := k;
        }
        rest := rest - {k};
      }
      if index != -1 {
        pendingRequests := pendingRequests - {index};
      } else {
        assert pendingRequests - {index} == pendingRequests;
      }
    }

    /**
     * A finished reply of a pending request: a non-empty body that decodes
     * becomes a texture (while the index is visible), anything else a
     * placeholder. A reply that is no longer pending changes nothing.
     */
    method OnNetworkReplyFinished(reply: Reply, outcome: ReplyOutcome)
      requires Valid()
      modifies this`pendingRequests, this`nodes, this`textureUsageQueue, this`nextTextureId
      ensures var index := old(ReplyIndex(reply));
              var t := old(NextTexture());
              var decoded := outcome.Body? && !outcome.empty && outcome.decodes;
              pendingRequests == old(pendingRequests) - {index} &&
              (index == -1 ==> nodes == old(nodes) && textureUsageQueue == old(textureUsageQueue) && nextTextureId == old(nextTextureId)) &&
              (index != -1 && !decoded ==>
                 textureUsageQueue == old(textureUsageQueue) &&
                 nodes == (if t.Texture? then old(nodes)[index := TexturedNode(NullNode, t)] else old(nodes))) &&
              (index != -1 && decoded ==>
                 if index in old(visibleIndices) && t.Texture? then
                   nodes == old(nodes)[index := TexturedNode(NullNode, t)] && textureUsageQueue == Touch(old(textureUsageQueue), index)
                 else nodes == old(nodes) && textureUsageQueue == old(textureUsageQueue))
      ensures Valid()
    {
      var index := TakeReply(reply);
      if index == -1 {
        return;
      }
      if outcome.Body? && !outcome.empty && outcome.decodes {
        ProcessLoadedImage(index, true);
      } else {
        CreateFallbackTexture(index);
      }
    }

    /** A failed reply of a pending request gets a placeholder; other replies change nothing. */
    method OnNetworkError(reply: Reply)
      requires Valid()
      modifies this`pendingRequests, this`nodes, this`nextTextureId
      ensures var index := old(ReplyIndex(reply));
              var t := old(NextTexture());
              pendingRequests == old(pendingRequests) - {index} &&
              nodes == (if index != -1 && t.Texture? then old(nodes)[index := TexturedNode(NullNode, t)] else old(nodes))
      ensures Valid()
    {
      var index := TakeReply(reply);
      if index != -1 {
        CreateFallbackTexture(index);
      }
    }

    // -------------------------------------------------------------------
    // Queries over the content

    /** Number of items of `cat` before index `n`. */
    method ItemsBeforeInCategory(cat: Category, n: int) returns (c: nat)
      requires 0 <= n <= |imageData|
      ensures c == CountBefore(imageData, cat, n)
    {
      c := 0;
      var i := 0;
      while i < n
        invariant 0 <= i <= n
        invariant c == CountBefore(imageData, cat, i)
      {
        if imageData[i].category == cat {
          c := c + 1;
        }
        i := i + 1;
      }
    }

    /** Whether no item of `cat` comes before index `n`: the item is the first of its row. */
    method IsLeftmost(cat: Category, n: int) returns (leftmost: bool)
      requires 0 <= n <= |imageData|
      ensures leftmost <==> forall i :: 0 <= i < n ==> imageData[i].category != cat
      ensures leftmost <==> CountBefore(imageData, cat, n) == 0
    {
      NoneBefore(imageData, cat, n);
      leftmost := true;
      var i := 0;
      while i < n
        invariant 0 <= i <= n
        invariant leftmost <==> forall j :: 0 <= j < i ==> imageData[j].category != cat
      {
        if imageData[i].category == cat {
          leftmost := false;
          break;
        }
        i := i + 1;
      }
    }

    /**
     * Number of items of `cat` and the index of its last one; `start` when
     * the category is empty.
     */
    method CategoryExtent(cat: Category, start: int) returns (n: nat, last: int)
      ensures n == CategoryCount(imageData, cat)
      ensures n > 0 ==> last == IndexOfNth(imageData, cat, n - 1)
      ensures n == 0 ==> last == start
    {
      n := 0;
      last := start;
      var i := 0;
      while i < |imageData|
        invariant 0 <= i <= |imageData|
        invariant n == CountBefore(imageData, cat, i)
        invariant n > 0 ==> last == IndexOfNth(imageData, cat, n - 1)
        invariant n == 0 ==> last == start
      {
        if imageData[i].category == cat {
          IndexOfNthUnique(imageData, cat, i);
          n := n + 1;
          last := i;
        }
        i := i + 1;
      }
    }

    /** Position of the current item within its category; 0 without a current item. */
    method CurrentItemPositionInCategory() returns (p: nat)
      ensures p == PositionInCategory(imageData, currentIndex)
    {
      if currentIndex < 0 || currentIndex >= |imageData| {
        return 0;
      }
      p := ItemsBeforeInCategory(imageData[currentIndex].category, currentIndex);
    }

    /**
     * The item of `next` at the current item's position, else the first
     * item of `next`, else -1.
     */
    method FindMatchingPositionInNextCategory(next: Category) returns (target: int)
      ensures target == FindMatchingPosition(imageData, currentIndex, next)
    {
      var position := CurrentItemPositionInCategory();
      target := -1;
      var seen := 0;
      var i := 0;
      while i < |imageData|
        invariant 0 <= i <= |imageData| && seen == CountBefore(imageData, next, i)
        invariant target == -1 ==> position >= seen
        invariant target != -1 ==> target == IndexOfNth(imageData, next, position)
      {
        if imageData[i].category == next {
          if seen == position {
            IndexOfNthUnique(imageData, next, i);
            target := i;
            break;
          }
          seen := seen + 1;
        }
        i := i + 1;
      }
      if target == -1 {
        CountBeforeMonotone(imageData, next, i, |imageData|);
        assert IndexOfNth(imageData, next, position) == -1;
        i := 0;
        while i < |imageData|
          invariant 0 <= i <= |imageData|
          invariant target == -1 ==> CountBefore(imageData, next, i) == 0
          invariant target != -1 ==> target == IndexOfNth(imageData, next, 0)
        {
          if imageData[i].category == next {
            IndexOfNthUnique(imageData, next, i);
            target := i;
            break;
          }
          i := i + 1;
        }
      }
    }

    /** Whether the current item is past the middle of the next-to-last row. */
    method ShouldJumpToLastRowFor(current: int) returns (jump: bool)
      ensures jump == ShouldJumpToLastRow(imageData, rowTitles, current)
    {
      if current < 0 || current >= |imageData| {
        return false;
      }
      var cat := imageData[current].category;
      var categoryIndex := IndexOf(rowTitles, cat);
      var total := 0;
      var position := 0;
      var i := 0;
      while i < |imageData|
        invariant 0 <= i <= |imageData|
        invariant total == CountBefore(imageData, cat, i)
        invariant position == CountBefore(imageData, cat, if i <= current + 1 then i else current + 1)
      {
        if imageData[i].category == cat {
          total := total + 1;
          if i <= current {
            position := position + 1;
          }
        }
        i := i + 1;
      }
      jump := position > total / 2 && categoryIndex == |rowTitles| - 2;
    }

    /** Total scrollable height, row by row. */
    method ComputeContentHeight() returns (h: real)
      ensures h == ContentHeight(layout, rowTitles)
    {
      var g := layout;
      h := layout.rowSpacing / 5.0;
      var k := 0;
      while k < |rowTitles|
        invariant 0 <= k <= |rowTitles|
        invariant h + RowBlocks(g, rowTitles, k) == layout.rowSpacing / 5.0 + RowBlocks(g, rowTitles, 0)
      {
        if k > 0 {
          h := h + layout.rowSpacing * 0.3;
        }
        h := h + layout.titleHeight as real;
        var d := DimensionsFor(g, rowTitles[k]);
        h := h + d.posterHeight as real;
        if k == |rowTitles| - 1 {
          h := h + d.posterHeight as real * 0.5;
        }
        k := k + 1;
      }
      h := h + layout.rowSpacing + 50.0;
    }

    /** Vertical offset of the title bottom of the row holding `index`. */
    method CalculateItemVerticalPosition(index: int) returns (position: real)
      ensures position == ItemVerticalPosition(layout, imageData, rowTitles, index)
    {
      if index < 0 || index >= |imageData| {
        return 0.0;
      }
      var g := layout;
      var target := imageData[index].category;
      var isLast := IndexOf(rowTitles, target) == |rowTitles| - 1;
      var ch := ComputeContentHeight();
      position := 0.0;
      var k := 0;
      while k < |rowTitles|
        invariant 0 <= k <= |rowTitles|
        invariant VerticalWalk(g, rowTitles, 0, 0.0, target, isLast, ch) == VerticalWalk(g, rowTitles, k, position, target, isLast, ch)
      {
        var d := DimensionsFor(g, rowTitles[k]);
        if position > 0.0 {
          position := position + layout.rowSpacing;
        }
        position := position + layout.titleHeight as real;
        if rowTitles[k] == target {
          if isLast {
            position := Min(position, ch - d.rowHeight as real - layout.titleHeight as real);
          }
          return;
        }
        position := position + d.rowHeight as real;
        k := k + 1;
      }
    }

    /** Width of a category's content, padded by half a poster when it overflows the view. */
    method ComputeCategoryContentWidth(cat: Category) returns (w: real)
      ensures w == CategoryContentWidth(layout, imageData, cat)
    {
      var d := DimensionsFor(layout, cat);
      var n := ItemsBeforeInCategory(cat, |imageData|);
      w := (n * d.posterWidth) as real + (n - 1) as real * d.itemSpacing;
      assert w == RowContentWidth(layout, imageData, cat);
      if w > layout.width {
        w := w + d.posterWidth as real * 0.5;
      }
    }

    /**
     * The counters of the items of `cat` whose horizontal position, starting
     * at `x0` and advancing by `step`, lies within [lo, hi], when the row
     * passes the vertical check.
     */
    method VisibleInRow(cat: Category, vertical: bool, x0: real, step: real, lo: real, hi: real, counter: int)
      returns (r: seq<int>)
      ensures r == RowVisible(vertical, x0, step, lo, hi, counter, CategoryCount(imageData, cat), 0)
    {
      var n := CategoryCount(imageData, cat);
      r := [];
      var x := x0;
      var j := 0;
      var i := 0;
      while i < |imageData|
        invariant 0 <= i <= |imageData|
        invariant j == CountBefore(imageData, cat, i) && j <= n
        invariant r + RowVisible(vertical, x, step, lo, hi, counter, n, j) == RowVisible(vertical, x0, step, lo, hi, counter, n, 0)
      {
        if imageData[i].category == cat {
          CountBeforeStrict(imageData, cat, i, |imageData|);
          RowVisibleStep(vertical, x, step, lo, hi, counter, n, j, r);
          if vertical && lo <= x <= hi {
            r := r + [counter + j];
          }
          x := x + step;
          j := j + 1;
        }
        i := i + 1;
      }
      assert r + [] == r;
    }

    /**
     * One row of the visibility scan: the counters reported for row `k` and
     * the vertical position and counter the next row starts from.
     */
    method VisibleRowStep(top: real, bottom: real, k: nat, currentY: real, counter: int)
      returns (here: seq<int>, nextY: real, nextCounter: int)
      requires k < |rowTitles|
      ensures here + VisibleFrom(layout, imageData, rowTitles, categoryContentX, top, bottom, k + 1, nextY, nextCounter)
              == VisibleFrom(layout, imageData, rowTitles, categoryContentX, top, bottom, k, currentY, counter)
    {
      var g := layout;
      var cat := rowTitles[k];
      var d := DimensionsFor(g, cat);
      var n := ItemsBeforeInCategory(cat, |imageData|);
      var y := currentY + (layout.titleHeight + 10) as real;
      here := [];
      nextCounter := counter + n;
      if y > bottom {
        nextY := y + d.rowHeight as real + layout.rowSpacing;
      } else {
        var endY := y + d.rowHeight as real;
        if endY >= top {
          var buffer := layout.width * 0.5;
          var x0 := layout.startPositionX + 10.0 - ContentXOf(categoryContentX, cat);
          var vertical := y >= top - d.posterHeight as real && y <= bottom + d.posterHeight as real;
          here := VisibleInRow(cat, vertical, x0, d.posterWidth as real + d.itemSpacing,
                               (-d.posterWidth) as real - buffer, layout.width + d.posterWidth as real + buffer, counter);
        }
        nextY := endY + layout.rowSpacing;
      }
    }

    /**
     * Item counters of the items inside the viewport enlarged by
     * `bufferFactor` viewport heights, walking the rows top to bottom.
     */
    method GetVisibleIndices(bufferFactor: real) returns (result: seq<int>)
      ensures result == VisibleIndices(layout, imageData, rowTitles, contentY, categoryContentX, bufferFactor)
    {
      var g := layout;
      if g.width <= 0.0 || g.height <= 0.0 {
        return [];
      }
      var bufferSize := g.height * bufferFactor;
      var top := contentY - bufferSize;
      var bottom := contentY + g.height + bufferSize;
      assert top == BandTop(g, contentY, bufferFactor) && bottom == BandBottom(g, contentY, bufferFactor);
      ghost var all := VisibleFrom(g, imageData, rowTitles, categoryContentX, top, bottom, 0, 0.0, 0);
      var currentY := 0.0;
      var counter := 0;
      result := [];
      var k := 0;
      while k < |rowTitles|
        invariant 0 <= k <= |rowTitles|
        invariant result + VisibleFrom(g, imageData, rowTitles, categoryContentX, top, bottom, k, currentY, counter) == all
      {
        var here;
        ghost var rest := VisibleFrom(g, imageData, rowTitles, categoryContentX, top, bottom, k, currentY, counter);
        here, currentY, counter := VisibleRowStep(top, bottom, k, currentY, counter);
        assert (result + here) + VisibleFrom(g, imageData, rowTitles, categoryContentX, top, bottom, k + 1, currentY, counter)
               == result + rest;
        result := result + here;
        k := k + 1;
      }
      assert result + [] == result;
    }

    // -------------------------------------------------------------------
    // Loading

    /**
     * Loading `index` does nothing: the view is being torn down, the window
     * is missing or hidden, the index has no record, the window is not ready
     * yet (the retry timer is not modelled), or the slot already holds a
     * texture.
     */
    predicate LoadSkipped(index: int)
      reads this`isBeingDestroyed, this`windowPresent, this`windowExposed, this`isDestroying, this`imageData,
            this`windowReady, this`windowShown, this`nodes
    {
      isBeingDestroyed || !(windowPresent && windowExposed && !isDestroying) || index >= |imageData|
      || !ReadyForTextures() || (index in nodes && nodes[index].texture.Texture?)
    }

    /** Loads go through: the view is live, the window ready and textures are handed out. */
    predicate CanLoad()
      reads this`isBeingDestroyed, this`isDestroying, this`windowReady, this`windowPresent, this`windowShown,
            this`windowExposed, this`texturesAvailable
    {
      !isBeingDestroyed && !isDestroying && ReadyForTextures() && texturesAvailable
    }

    /**
     * `index` has been dealt with: it has a slot, a request in flight, or it
     * is a local image that was decoded while not visible and so dropped.
     */
    ghost predicate Handled(index: int)
      reads this`nodes, this`pendingRequests, this`imageData, this`localImages, this`visibleIndices
    {
      index in nodes || index in pendingRequests
      || (0 <= index < |imageData| && imageData[index].url in localImages && index !in visibleIndices)
    }

    /** A request pending for an index past the record list is neither dropped nor replaced. */
    twostate predicate PendingPastListKept()
      reads this`pendingRequests, this`imageData
    {
      forall j :: j in old(pendingRequests) && j >= |imageData| ==> j in pendingRequests && pendingRequests[j] == old(pendingRequests)[j]
    }

    /**
     * Load a path that is not a local file: an http or scheme-relative path
     * is fetched, anything else gets a placeholder texture.
     */
    method LoadRemote(index: int, path: string)
      requires Valid() && index >= 0 && path !in localImages
      modifies this`nodes, this`nextTextureId, this`pendingRequests, this`abortedReplies, this`nextReplyId
      ensures OutcomeFor(path, localImages).Request? ==>
                pendingRequests == old(pendingRequests)[index := Reply(old(nextReplyId))] &&
                abortedReplies == old(abortedReplies) + (if index in old(pendingRequests) then [old(pendingRequests)[index]] else []) &&
                nodes == old(nodes)
      ensures OutcomeFor(path, localImages).PlaceholderTexture? ==>
                pendingRequests == old(pendingRequests) && abortedReplies == old(abortedReplies) &&
                nodes == (var t := old(NextTexture());
                          if t.Texture? then old(nodes)[index := TexturedNode(NullNode, t)] else old(nodes))
      ensures Valid()
    {
      var url := ParseUrl(path);
      if StartsWith(url.scheme, "http") || StartsWith(path, "//") {
        if StartsWith(path, "//") {
          HttpPrefixScheme(path);
          url := ParseUrl("http:" + path);
        }
        LoadUrlImage(index, url);
      } else {
        CreateFallbackTexture(index);
      }
    }

    /**
     * Load the image of record `index` once the checks have passed: a local
     * file is decoded and cached (while the index is visible), other paths
     * are fetched or get a placeholder.
     */
    method LoadRecord(index: int)
      requires Valid() && 0 <= index < |imageData|
      modifies this`nodes, this`textureUsageQueue, this`nextTextureId, this`pendingRequests, this`abortedReplies, this`nextReplyId
      ensures var t := old(NextTexture());
              match OutcomeFor(imageData[index].url, localImages)
              case DecodeLocal =>
                pendingRequests == old(pendingRequests) && abortedReplies == old(abortedReplies) &&
                (if index in visibleIndices && t.Texture? then
                   nodes == old(nodes)[index := TexturedNode(NullNode, t)] && textureUsageQueue == Touch(old(textureUsageQueue), index)
                 else nodes == old(nodes) && textureUsageQueue == old(textureUsageQueue))
              case Request(_) =>
                pendingRequests == old(pendingRequests)[index := Reply(old(nextReplyId))] &&
                abortedReplies == old(abortedReplies) + (if index in old(pendingRequests) then [old(pendingRequests)[index]] else []) &&
                nodes == old(nodes) && textureUsageQueue == old(textureUsageQueue)
              case PlaceholderTexture =>
                pendingRequests == old(pendingRequests) && abortedReplies == old(abortedReplies) &&
                textureUsageQueue == old(textureUsageQueue) &&
                nodes == (if t.Texture? then old(nodes)[index := TexturedNode(NullNode, t)] else old(nodes))
      ensures Valid()
    {
      var path := imageData[index].url;
      if path in localImages {
        ProcessLoadedImage(index, true);
      } else {
        LoadRemote(index, path);
      }
    }

    /**
     * Load the image of record `index` unless the view is torn down, the
     * window is not usable, the index has no record or its slot already
     * holds a texture. Only `index` gains a slot or a request, and with a
     * usable window and textures it ends up handled.
     */
    method LoadImage(index: int)
      requires Valid() && index >= 0
      modifies this`nodes, this`textureUsageQueue, this`nextTextureId, this`pendingRequests, this`abortedReplies, this`nextReplyId
      ensures old(LoadSkipped(index)) ==>
                nodes == old(nodes) && textureUsageQueue == old(textureUsageQueue) && nextTextureId == old(nextTextureId) &&
                pendingRequests == old(pendingRequests) && abortedReplies == old(abortedReplies) && nextReplyId == old(nextReplyId)
      ensures old(nodes).Keys <= nodes.Keys && old(pendingRequests).Keys <= pendingRequests.Keys
      ensures nodes.Keys <= old(nodes).Keys + {index} && pendingRequests.Keys <= old(pendingRequests).Keys + {index}
      ensures CanLoad() && index < |imageData| ==> Handled(index)
      ensures forall i :: old(Handled(i)) ==> Handled(i)
      ensures PendingPastListKept()
      ensures Valid() && (old(KeysInRange()) ==> KeysInRange())
    {
      if isBeingDestroyed || !(windowPresent && windowExposed && !isDestroying) || index >= |imageData| {
        return;
      }
      if !ReadyForTextures() {
        return;
      }
      if index in nodes && nodes[index].texture.Texture? {
        return;
      }
      LoadRecord(index);
    }

    /** Recompute the visible indices with half a viewport of buffer; returns them in scan order. */
    method RefreshVisibleIndices() returns (newVisible: seq<int>)
      modifies this`visibleIndices
      ensures newVisible == VisibleIndices(layout, imageData, rowTitles, contentY, categoryContentX, 0.5)
      ensures visibleIndices == VisibleIndexSet(layout, imageData, rowTitles, contentY, categoryContentX, 0.5)
    {
      newVisible := GetVisibleIndices(0.5);
      visibleIndices := set i | i in newVisible;
    }

    /**
     * The cache after the cleanup check, from a cache that held `nodes0`
     * with queue `queue0` and deleted `deleted0`: over the threshold the
     * recycle set is gone, with its nodes released; otherwise nothing changed.
     */
    ghost predicate RecycledFrom(nodes0: map<int, TexturedNode>, queue0: seq<int>, deleted0: set<nat>)
      reads this`layout,
            this`imageData, this`categoryContentX, this`visibleCategories, this`visibleIndices,
            this`nodes, this`textureUsageQueue, this`deletedNodes
    {
      RecycledState(nodes0, queue0, deleted0, nodes, textureUsageQueue, deletedNodes,
                    imageData, visibleCategories, visibleIndices, layout, categoryContentX)
    }

    /** Recycle off-screen entries when the cache holds more than the threshold. */
    method RecycleIfFull()
      requires Valid()
      modifies this`nodes, this`textureUsageQueue, this`deletedNodes
      ensures nodes.Keys <= old(nodes).Keys
      ensures RecycledFrom(old(nodes), old(textureUsageQueue), old(deletedNodes))
      ensures Valid() && (old(KeysInRange()) ==> KeysInRange())
    {
      if |nodes| > CleanupThreshold {
        RecycleOffscreenTextures();
      }
    }

    /**
     * Request every visible index without a slot. Each index of `indices`
     * ends up handled when loads go through, and only those indices gain a
     * slot or a request.
     */
    method LoadUncached(indices: seq<int>)
      requires Valid() && forall i :: i in indices ==> 0 <= i
      modifies this`nodes, this`textureUsageQueue, this`nextTextureId, this`pendingRequests, this`abortedReplies, this`nextReplyId
      ensures old(nodes).Keys <= nodes.Keys && old(pendingRequests).Keys <= pendingRequests.Keys
      ensures forall k :: k in nodes ==> k in old(nodes) || k in indices
      ensures forall k :: k in pendingRequests ==> k in old(pendingRequests) || k in indices
      ensures CanLoad() ==> forall i :: i in indices && i < |imageData| ==> Handled(i)
      ensures PendingPastListKept()
      ensures Valid() && (old(KeysInRange()) ==> KeysInRange())
    {
      var j := 0;
      while j < |indices|
        invariant 0 <= j <= |indices|
        invariant old(nodes).Keys <= nodes.Keys && old(pendingRequests).Keys <= pendingRequests.Keys
        invariant forall k :: k in nodes ==> k in old(nodes) || k in indices[..j]
        invariant forall k :: k in pendingRequests ==> k in old(pendingRequests) || k in indices[..j]
        invariant CanLoad() ==> forall i :: i in indices[..j] && i < |imageData| ==> Handled(i)
        invariant PendingPastListKept()
        invariant Valid() && (old(KeysInRange()) ==> KeysInRange())
      {
        var index := indices[j];
        assert index in indices;
        if index !in nodes {
          LoadImage(index);
        }
        assert indices[..j + 1] == indices[..j] + [index];
        j := j + 1;
      }
      assert indices[..j] == indices;
    }

    /**
     * Load the visible images: with the window not ready nothing happens
     * (the retry timer is not modelled); otherwise the visible set is
     * recomputed, the visible indices without a slot are loaded, and the
     * cache is recycled when it holds more than the threshold.
     */
    method LoadAllImages()
      requires Valid()
      modifies this`visibleIndices, this`nodes, this`textureUsageQueue, this`nextTextureId, this`pendingRequests,
               this`abortedReplies, this`nextReplyId, this`deletedNodes
      ensures !old(ReadyForTextures()) ==>
                visibleIndices == old(visibleIndices) && nodes == old(nodes) && pendingRequests == old(pendingRequests) &&
                deletedNodes == old(deletedNodes)
      ensures old(ReadyForTextures()) ==> visibleIndices == VisibleIndexSet(layout, imageData, rowTitles, contentY, categoryContentX, 0.5)
      ensures forall k :: k in nodes ==> k in old(nodes) || k in visibleIndices
      ensures forall k :: k in pendingRequests ==> k in old(pendingRequests) || k in visibleIndices
      ensures PendingPastListKept()
      ensures Valid() && (old(KeysInRange()) ==> KeysInRange())
    {
      if !ReadyForTextures() {
        return;
      }
      LoadVisible();
      TrimCache();
    }

    /**
     * A frame about to render: the first one with the scene graph
     * initialised marks the window ready and loads the visible images;
     * every other frame changes nothing.
     */
    method OnBeforeRendering(sceneGraphInitialized: bool)
      requires Valid()
      modifies this`windowReady, this`visibleIndices, this`nodes, this`textureUsageQueue, this`nextTextureId,
               this`pendingRequests, this`abortedReplies, this`nextReplyId, this`deletedNodes
      ensures windowReady == (old(windowReady) || sceneGraphInitialized)
      ensures old(windowReady) || !sceneGraphInitialized ==>
                visibleIndices == old(visibleIndices) && nodes == old(nodes) && pendingRequests == old(pendingRequests) &&
                deletedNodes == old(deletedNodes)
      ensures !old(windowReady) && sceneGraphInitialized && ReadyForTextures() ==>
                visibleIndices == VisibleIndexSet(layout, imageData, rowTitles, contentY, categoryContentX, 0.5)
      ensures forall k :: k in nodes ==> k in old(nodes) || k in visibleIndices
      ensures PendingPastListKept()
      ensures Valid() && (old(KeysInRange()) ==> KeysInRange())
    {
      if !windowReady && sceneGraphInitialized {
        windowReady := true;
        LoadAllImages();
      }
    }

    /** Recompute the visible indices and load those without a slot. */
    method LoadVisible()
      requires Valid()
      modifies this`visibleIndices, this`nodes, this`textureUsageQueue, this`nextTextureId, this`pendingRequests,
               this`abortedReplies, this`nextReplyId
      ensures visibleIndices == VisibleIndexSet(layout, imageData, rowTitles, contentY, categoryContentX, 0.5)
      ensures forall k :: k in nodes ==> k in old(nodes) || k in visibleIndices
      ensures forall k :: k in pendingRequests ==> k in old(pendingRequests) || k in visibleIndices
      ensures old(nodes).Keys <= nodes.Keys && old(pendingRequests).Keys <= pendingRequests.Keys
      ensures CanLoad() ==> forall i :: i in visibleIndices && i < |imageData| ==> Handled(i)
      ensures PendingPastListKept()
      ensures Valid() && (old(KeysInRange()) ==> KeysInRange())
    {
      var newVisible := RefreshVisibleIndices();
      LoadUncached(newVisible);
    }

    /** Categories whose title-and-row band meets the viewport enlarged by half its height. */
    method ComputeVisibleCategories() returns (cats: set<Category>)
      ensures cats == VisibleCategories(layout, rowTitles, contentY)
    {
      var g := layout;
      var bufferSize := layout.height * 0.5;
      var top := contentY - bufferSize;
      var bottom := contentY + layout.height + bufferSize;
      cats := {};
      var currentY := 0.0;
      var k := 0;
      while k < |rowTitles|
        invariant 0 <= k <= |rowTitles|
        invariant cats + VisibleCategoriesFrom(g, rowTitles, k, currentY, top, bottom) == VisibleCategoriesFrom(g, rowTitles, 0, 0.0, top, bottom)
      {
        var d := DimensionsFor(g, rowTitles[k]);
        var rowStart := currentY;
        var rowEnd := currentY + d.rowHeight as real + layout.titleHeight as real;
        if !(rowEnd < top || rowStart > bottom) {
          cats := cats + {rowTitles[k]};
        }
        currentY := currentY + d.rowHeight as real + layout.titleHeight as real + layout.rowSpacing;
        k := k + 1;
      }
    }

    /** Recompute the visible categories and the visible indices. */
    method RefreshVisibility()
      modifies this`visibleCategories, this`visibleIndices
      ensures visibleCategories == VisibleCategories(layout, rowTitles, contentY)
      ensures visibleIndices == VisibleIndexSet(layout, imageData, rowTitles, contentY, categoryContentX, 0.5)
    {
      visibleCategories := ComputeVisibleCategories();
      var _ := RefreshVisibleIndices();
    }

    /**
     * The state after a scroll position change was handled, from a cache
     * that held `nodes0` with queue `queue0` and deleted `deleted0`: the
     * visible categories and indices recomputed, and, over the threshold,
     * the cache recycled against them.
     */
    ghost predicate PositionChangeHandled(nodes0: map<int, TexturedNode>, queue0: seq<int>, deleted0: set<nat>)
      reads this`layout,
            this`imageData, this`rowTitles, this`contentY, this`categoryContentX,
            this`visibleCategories, this`visibleIndices, this`nodes, this`textureUsageQueue, this`deletedNodes
    {
      VisibilityCurrent() && RecycledFrom(nodes0, queue0, deleted0)
    }

    /** The visible categories and indices are those of the current layout and offsets. */
    ghost predicate VisibilityCurrent()
      reads this`layout,
            this`imageData, this`rowTitles, this`contentY, this`categoryContentX, this`visibleCategories, this`visibleIndices
    {
      VisibleSetsOf(visibleCategories, visibleIndices, layout, imageData, rowTitles, contentY, categoryContentX)
    }

    /**
     * React to a scroll: unless the view is torn down, recompute the visible
     * categories and indices and recycle over the threshold. The loads the
     * view schedules for newly visible indices are not modelled.
     */
    method HandleContentPositionChange()
      requires Valid()
      modifies this`visibleCategories, this`visibleIndices, this`nodes, this`textureUsageQueue, this`deletedNodes
      ensures old(isBeingDestroyed) ==>
                visibleCategories == old(visibleCategories) && visibleIndices == old(visibleIndices) &&
                nodes == old(nodes) && textureUsageQueue == old(textureUsageQueue) && deletedNodes == old(deletedNodes)
      ensures !old(isBeingDestroyed) ==> PositionChangeHandled(old(nodes), old(textureUsageQueue), old(deletedNodes))
      ensures nodes.Keys <= old(nodes).Keys
      ensures Valid() && (old(KeysInRange()) ==> KeysInRange())
    {
      if isBeingDestroyed {
        return;
      }
      RefreshVisibility();
      RecycleAfterScroll();
    }

    /** The cleanup check of a scroll, once the visible sets are up to date. */
    method RecycleAfterScroll()
      requires Valid()
      requires VisibilityCurrent()
      modifies this`nodes, this`textureUsageQueue, this`deletedNodes
      ensures PositionChangeHandled(old(nodes), old(textureUsageQueue), old(deletedNodes))
      ensures nodes.Keys <= old(nodes).Keys
      ensures Valid() && (old(KeysInRange()) ==> KeysInRange())
    {
      RecycleIfFull();
    }

    /** The visible sets and the cache are as they were. */
    twostate predicate CacheKept()
      reads this`visibleCategories, this`visibleIndices, this`nodes, this`textureUsageQueue, this`deletedNodes
    {
      visibleCategories == old(visibleCategories) && visibleIndices == old(visibleIndices) &&
      nodes == old(nodes) && textureUsageQueue == old(textureUsageQueue) && deletedNodes == old(deletedNodes)
    }

    // -------------------------------------------------------------------
    // Scrolling and selection

    /**
     * Scroll vertically to `y`, never more than 50 past the largest offset;
     * a change of offset is handled like any scroll.
     */
    method SetContentY(y: real)
      requires Valid()
      modifies this`contentY, this`visibleCategories, this`visibleIndices, this`nodes, this`textureUsageQueue, this`deletedNodes
      ensures contentY == PaddedContentY(layout, rowTitles, y)
      ensures old(contentY) == contentY || isBeingDestroyed ==> CacheKept()
      ensures old(contentY) != contentY && !isBeingDestroyed ==> PositionChangeHandled(old(nodes), old(textureUsageQueue), old(deletedNodes))
      ensures nodes.Keys <= old(nodes).Keys
      ensures Valid() && (old(KeysInRange()) ==> KeysInRange())
    {
      var paddedY := PaddedContentY(layout, rowTitles, y);
      if contentY != paddedY {
        MoveContentY(paddedY);
      }
    }

    /** Store a new vertical offset and handle the change like any scroll. */
    method MoveContentY(y: real)
      requires Valid()
      modifies this`contentY, this`visibleCategories, this`visibleIndices, this`nodes, this`textureUsageQueue, this`deletedNodes
      ensures contentY == y
      ensures isBeingDestroyed ==> CacheKept()
      ensures !isBeingDestroyed ==> PositionChangeHandled(old(nodes), old(textureUsageQueue), old(deletedNodes))
      ensures nodes.Keys <= old(nodes).Keys
      ensures Valid() && (old(KeysInRange()) ==> KeysInRange())
    {
      contentY := y;
      HandleContentPositionChange();
    }

    /**
     * Scroll category `cat` horizontally to `x`; a change of the current
     * category's offset is handled like any scroll.
     */
    method SetCategoryContentX(cat: Category, x: real)
      requires Valid()
      modifies this`categoryContentX, this`visibleCategories, this`visibleIndices, this`nodes, this`textureUsageQueue, this`deletedNodes
      ensures categoryContentX == if ContentXOf(old(categoryContentX), cat) != x then old(categoryContentX)[cat := x] else old(categoryContentX)
      ensures ContentXOf(categoryContentX, cat) == x
      ensures forall c :: c != cat ==> ContentXOf(categoryContentX, c) == ContentXOf(old(categoryContentX), c)
      ensures ContentXOf(old(categoryContentX), cat) != x && cat == currentCategory && !isBeingDestroyed ==> PositionChangeHandled(old(nodes), old(textureUsageQueue), old(deletedNodes))
      ensures ContentXOf(old(categoryContentX), cat) == x || cat != currentCategory || isBeingDestroyed ==> CacheKept()
      ensures nodes.Keys <= old(nodes).Keys
      ensures Valid() && (old(KeysInRange()) ==> KeysInRange())
    {
      if ContentXOf(categoryContentX, cat) != x {
        if cat == currentCategory {
          MoveCurrentContentX(x);
        } else {
          categoryContentX := categoryContentX[cat := x];
        }
      }
    }

    /** Store a new offset for the current category and handle the change like any scroll. */
    method MoveCurrentContentX(x: real)
      requires Valid()
      modifies this`categoryContentX, this`visibleCategories, this`visibleIndices, this`nodes, this`textureUsageQueue, this`deletedNodes
      ensures categoryContentX == old(categoryContentX)[currentCategory := x]
      ensures isBeingDestroyed ==> CacheKept()
      ensures !isBeingDestroyed ==> PositionChangeHandled(old(nodes), old(textureUsageQueue), old(deletedNodes))
      ensures nodes.Keys <= old(nodes).Keys
      ensures Valid() && (old(KeysInRange()) ==> KeysInRange())
    {
      categoryContentX := categoryContentX[currentCategory := x];
      HandleContentPositionChange();
    }

    /** The current category is the category of the current item, when there is one. */
    predicate SelectionConsistent()
      reads this`currentIndex, this`currentCategory, this`imageData
    {
      0 <= currentIndex < |imageData| ==> currentCategory == imageData[currentIndex].category
    }

    /** Take the category of the current item, when the index names one. */
    method UpdateCurrentCategory()
      modifies this`currentCategory
      ensures currentCategory == if 0 <= currentIndex < |imageData| then imageData[currentIndex].category else old(currentCategory)
      ensures SelectionConsistent()
    {
      if currentIndex >= 0 && currentIndex < |imageData| {
        currentCategory := imageData[currentIndex].category;
      }
    }

    /**
     * Select `index` when it differs from the current one and lies below the
     * item count; the focus notification is not modelled.
     */
    method SetCurrentIndex(index: int)
      modifies this`currentIndex, this`currentCategory
      ensures old(currentIndex) != index && 0 <= index < count ==>
                currentIndex == index &&
                currentCategory == (if index < |imageData| then imageData[index].category else old(currentCategory))
      ensures !(old(currentIndex) != index && 0 <= index < count) ==>
                currentIndex == old(currentIndex) && currentCategory == old(currentCategory)
      ensures old(SelectionConsistent()) ==> SelectionConsistent()
    {
      if currentIndex != index && index >= 0 && index < count {
        currentIndex := index;
        UpdateCurrentCategory();
      }
    }

    // -------------------------------------------------------------------
    // Preloading

    /**
     * The indices of `cat`'s items within five positions of the current
     * item's position, in list order.
     */
    method WindowIndices(cat: Category) returns (w: seq<int>)
      ensures forall i :: i in w <==> i in PreloadWindow(imageData, currentIndex, cat)
    {
      var currentPosition: int := CurrentItemPositionInCategory();
      var visibleStart: int := if currentPosition - 5 < 0 then 0 else currentPosition - 5;
      var itemCount := 0;
      w := [];
      var i := 0;
      while i < |imageData|
        invariant 0 <= i <= |imageData| && itemCount == CountBefore(imageData, cat, i)
        invariant forall j :: j in w <==> 0 <= j < i && InWindow(imageData, currentIndex, cat, j)
      {
        if imageData[i].category == cat {
          if itemCount >= visibleStart && itemCount <= currentPosition + 5 {
            w := w + [i];
          }
          itemCount := itemCount + 1;
        }
        i := i + 1;
      }
    }

    /**
     * Load the items of the preload window of `cat` that have no slot yet.
     * Only those items gain a slot or a request, and with loads going
     * through each of them ends up handled.
     */
    method LoadWindow(cat: Category)
      requires Valid()
      modifies this`nodes, this`textureUsageQueue, this`nextTextureId, this`pendingRequests, this`abortedReplies, this`nextReplyId
      ensures forall k :: k in nodes ==> k in old(nodes) || k in PreloadWindow(imageData, currentIndex, cat)
      ensures forall k :: k in pendingRequests ==> k in old(pendingRequests) || k in PreloadWindow(imageData, currentIndex, cat)
      ensures old(nodes).Keys <= nodes.Keys && old(pendingRequests).Keys <= pendingRequests.Keys
      ensures CanLoad() ==> forall i :: i in PreloadWindow(imageData, currentIndex, cat) ==> Handled(i)
      ensures Valid() && (old(KeysInRange()) ==> KeysInRange())
    {
      var w := WindowIndices(cat);
      LoadUncached(w);
    }

    /**
     * Preload the items of `cat` around the current position, then recycle
     * over the threshold. Only those items gain a slot or a request, and
     * with loads going through, each of them that is on screen in a
     * visible row keeps a slot or a request.
     */
    method PreloadRowTextures(cat: Category)
      requires Valid()
      modifies this`nodes, this`textureUsageQueue, this`nextTextureId, this`pendingRequests, this`abortedReplies,
               this`nextReplyId, this`deletedNodes
      ensures forall k :: k in nodes ==> k in old(nodes) || k in PreloadWindow(imageData, currentIndex, cat)
      ensures forall k :: k in pendingRequests ==> k in old(pendingRequests) || k in PreloadWindow(imageData, currentIndex, cat)
      ensures old(pendingRequests).Keys <= pendingRequests.Keys
      ensures forall i :: i in old(nodes) && OnScreen(i) ==> i in nodes
      ensures CanLoad() ==> Covered(PreloadWindow(imageData, currentIndex, cat))
      ensures Valid() && (old(KeysInRange()) ==> KeysInRange())
    {
      LoadWindow(cat);
      TrimCache();
    }

    /**
     * The cleanup check that follows a preload or a move: recycling over
     * the threshold drops entries but never an on-screen one.
     */
    method TrimCache()
      requires Valid()
      modifies this`nodes, this`textureUsageQueue, this`deletedNodes
      ensures nodes.Keys <= old(nodes).Keys
      ensures forall i :: i in old(nodes) && OnScreen(i) ==> i in nodes
      ensures Valid() && (old(KeysInRange()) ==> KeysInRange())
    {
      ghost var loaded := nodes;
      RecycleIfFull();
      forall i | i in loaded && OnScreen(i)
        ensures i in nodes
      {
        RecycleKeepsOnScreenItems(loaded, imageData, visibleCategories, visibleIndices, layout, categoryContentX, i);
      }
    }

    /**
     * One preload of a sequence of preloads: the keys gained so far lie in
     * `acc`, whose on-screen items stay covered, and `cat`'s window joins it.
     */
    method PreloadStep(cat: Category, ghost base: set<int>, ghost acc: set<int>)
      requires Valid()
      requires forall k :: k in nodes ==> k in base || k in acc
      requires CanLoad() ==> Covered(acc)
      modifies this`nodes, this`textureUsageQueue, this`nextTextureId, this`pendingRequests, this`abortedReplies,
               this`nextReplyId, this`deletedNodes
      ensures forall k :: k in nodes ==> k in base || k in acc || k in PreloadWindow(imageData, currentIndex, cat)
      ensures CanLoad() ==> Covered(acc + PreloadWindow(imageData, currentIndex, cat))
      ensures Valid() && (old(KeysInRange()) ==> KeysInRange())
    {
      PreloadRowTextures(cat);
    }

    /** `i` is a visible index of a visible row. */
    ghost predicate OnScreen(i: int)
      reads this`visibleIndices, this`imageData, this`visibleCategories
    {
      i in visibleIndices && 0 <= i < |imageData| && imageData[i].category in visibleCategories
    }

    /** Every on-screen index of `w` has a slot or a request in flight. */
    ghost predicate Covered(w: set<int>)
      reads this`visibleIndices, this`imageData, this`visibleCategories, this`nodes, this`pendingRequests
    {
      forall i :: i in w && OnScreen(i) ==> i in nodes || i in pendingRequests
    }

    /**
     * Preload the rows around the current item: its own row, the row
     * above and the row below (the first row when the current row is not
     * listed). Only items of those windows gain a slot or a request, and
     * with loads going through every on-screen item of those windows is
     * covered. The per-item delayed loads of the wider buffer are not part
     * of this model.
     */
    method LoadVisibleTextures()
      requires Valid()
      modifies this`nodes, this`textureUsageQueue, this`nextTextureId, this`pendingRequests, this`abortedReplies,
               this`nextReplyId, this`deletedNodes
      ensures !(0 <= currentIndex < |imageData|) ==>
                nodes == old(nodes) && pendingRequests == old(pendingRequests) && deletedNodes == old(deletedNodes)
      ensures 0 <= currentIndex < |imageData| ==>
                var window := PreloadWindows(imageData, currentIndex, NeighbourRows(rowTitles, imageData[currentIndex].category));
                (forall k :: k in nodes ==> k in old(nodes) || k in window) &&
                (CanLoad() ==> Covered(window))
      ensures Valid() && (old(KeysInRange()) ==> KeysInRange())
    {
      if 0 <= currentIndex < |imageData| {
        var current := imageData[currentIndex].category;
        var categoryIndex := IndexOf(rowTitles, current);
        ghost var base := nodes.Keys;
        NeighbourWindowsSplit(imageData, currentIndex, rowTitles, current);
        PreloadStep(current, base, {});
        ghost var acc := PreloadWindow(imageData, currentIndex, current);
        if categoryIndex > 0 {
          PreloadStep(rowTitles[categoryIndex - 1], base, acc);
          acc := acc + PreloadWindow(imageData, currentIndex, rowTitles[categoryIndex - 1]);
        }
        if categoryIndex < |rowTitles| - 1 {
          PreloadStep(rowTitles[categoryIndex + 1], base, acc);
        }
      }
    }

    // -------------------------------------------------------------------
    // Keeping an item in view

    /**
     * The vertical offset that shows item `index`: the whole content bottom
     * for the last row, the row centred otherwise, bounded to [0, max].
     */
    method ScrollTargetFor(index: int) returns (desiredY: real)
      requires 0 <= index < |imageData|
      ensures desiredY == EnsureVisibleTarget(layout, imageData, rowTitles, index)
    {
      var category := imageData[index].category;
      var dims := DimensionsFor(layout, category);
      var isLastCategory := IndexOf(rowTitles, category) == |rowTitles| - 1;
      var targetY := CalculateItemVerticalPosition(index);
      var rowHeight := dims.rowHeight as real + layout.titleHeight as real;
      var contentHeight := ComputeContentHeight();
      if isLastCategory {
        desiredY := contentHeight - layout.height;
        desiredY := Min(desiredY + dims.posterHeight as real * 0.1, contentHeight - layout.height);
      } else {
        desiredY := targetY - (layout.height - rowHeight) / 2.0;
      }
      desiredY := QBound(0.0, desiredY, contentHeight - layout.height);
    }

    /**
     * Scroll so that item `index` shows: the vertical offset goes to the
     * item's target, and when the item is in the current category that
     * row's offset goes to the item centred; no other row moves.
     */
    method EnsureIndexVisible(index: int)
      requires Valid()
      modifies this`contentY, this`categoryContentX, this`visibleCategories, this`visibleIndices, this`nodes,
               this`textureUsageQueue, this`deletedNodes
      ensures !(0 <= index < |imageData|) ==>
                contentY == old(contentY) && categoryContentX == old(categoryContentX) && CacheKept()
      ensures 0 <= index < |imageData| ==>
                contentY == PaddedContentY(layout, rowTitles, EnsureVisibleTarget(layout, imageData, rowTitles, index))
      ensures 0 <= index < |imageData| && MaxScroll(layout, rowTitles) >= 0.0 ==>
                contentY == EnsureVisibleTarget(layout, imageData, rowTitles, index)
      ensures 0 <= index < |imageData| && imageData[index].category == currentCategory ==>
                ContentXOf(categoryContentX, currentCategory) ==
                HorizontalTarget(CountBefore(imageData, currentCategory, index), DimensionsFor(layout, currentCategory), layout.width)
      ensures forall c :: c != currentCategory ==> ContentXOf(categoryContentX, c) == ContentXOf(old(categoryContentX), c)
      ensures !(0 <= index < |imageData| && imageData[index].category == currentCategory) ==>
                categoryContentX == old(categoryContentX)
      ensures nodes.Keys <= old(nodes).Keys
      ensures Valid() && (old(KeysInRange()) ==> KeysInRange())
    {
      if index < 0 || index >= |imageData| {
        return;
      }
      ScrollToItemRow(index);
      CentreInCurrentRow(index);
    }

    /** The vertical half of keeping `index` in view. */
    method ScrollToItemRow(index: int)
      requires Valid() && 0 <= index < |imageData|
      modifies this`contentY, this`visibleCategories, this`visibleIndices, this`nodes, this`textureUsageQueue, this`deletedNodes
      ensures contentY == PaddedContentY(layout, rowTitles, EnsureVisibleTarget(layout, imageData, rowTitles, index))
      ensures nodes.Keys <= old(nodes).Keys
      ensures Valid() && (old(KeysInRange()) ==> KeysInRange())
    {
      var desiredY := ScrollTargetFor(index);
      SetContentY(desiredY);
    }

    /** The horizontal half: centre `index` in its row when that row is the current one. */
    method CentreInCurrentRow(index: int)
      requires Valid() && 0 <= index < |imageData|
      modifies this`categoryContentX, this`visibleCategories, this`visibleIndices, this`nodes, this`textureUsageQueue, this`deletedNodes
      ensures imageData[index].category == currentCategory ==>
                ContentXOf(categoryContentX, currentCategory) ==
                HorizontalTarget(CountBefore(imageData, currentCategory, index), DimensionsFor(layout, currentCategory), layout.width)
      ensures forall c :: c != currentCategory ==> ContentXOf(categoryContentX, c) == ContentXOf(old(categoryContentX), c)
      ensures imageData[index].category != currentCategory ==> categoryContentX == old(categoryContentX) && CacheKept()
      ensures nodes.Keys <= old(nodes).Keys
      ensures Valid() && (old(KeysInRange()) ==> KeysInRange())
    {
      var category := imageData[index].category;
      if category == currentCategory {
        var itemsBefore := ItemsBeforeInCategory(category, index);
        AnimateScroll(category, HorizontalTarget(itemsBefore, DimensionsFor(layout, category), layout.width));
      }
    }

    /**
     * Animate row `cat` to offset `x`; the animation is modelled by its end
     * state, so the row's offset becomes `x` and no other row moves.
     */
    method AnimateScroll(cat: Category, x: real)
      requires Valid()
      modifies this`categoryContentX, this`visibleCategories, this`visibleIndices, this`nodes, this`textureUsageQueue, this`deletedNodes
      ensures ContentXOf(categoryContentX, cat) == x
      ensures forall c :: c != cat ==> ContentXOf(categoryContentX, c) == ContentXOf(old(categoryContentX), c)
      ensures nodes.Keys <= old(nodes).Keys
      ensures Valid() && (old(KeysInRange()) ==> KeysInRange())
    {
      SetCategoryContentX(cat, x);
    }

    // -------------------------------------------------------------------
    // Navigation

    /**
     * Move the selection one item left within its category. Nothing happens
     * without a selection inside the list, at the leftmost item of the
     * category, nor when the item before the current one belongs to another
     * category. A move selects the previous item, centres it in its row,
     * scrolls its row into view and recycles over the threshold.
     */
    method NavigateLeft() returns (moved: bool)
      requires Valid()
      modifies this`currentIndex, this`currentCategory, this`contentY, this`categoryContentX, this`visibleCategories,
               this`visibleIndices, this`nodes, this`textureUsageQueue, this`deletedNodes
      ensures moved <==> StepLeft(imageData, old(currentIndex)).Some?
      ensures !moved ==>
                currentIndex == old(currentIndex) && currentCategory == old(currentCategory) && contentY == old(contentY) &&
                categoryContentX == old(categoryContentX) && CacheKept()
      ensures moved ==>
                var prev := old(currentIndex) - 1;
                var cat := imageData[prev].category;
                currentIndex == (if prev < count then prev else old(currentIndex)) && currentCategory == cat &&
                ContentXOf(categoryContentX, cat) == HorizontalTarget(CountBefore(imageData, cat, prev), DimensionsFor(layout, cat), layout.width) &&
                contentY == PaddedContentY(layout, rowTitles, EnsureVisibleTarget(layout, imageData, rowTitles, prev)) &&
                (forall c :: c != cat ==> ContentXOf(categoryContentX, c) == ContentXOf(old(categoryContentX), c))
      ensures nodes.Keys <= old(nodes).Keys
      ensures Valid() && (old(KeysInRange()) ==> KeysInRange())
    {
      // The source tests only for an empty list; a selection past the end stops here too.
      if currentIndex < 0 || |imageData| == 0 || currentIndex >= |imageData| {
        return false;
      }
      var category := imageData[currentIndex].category;
      var prevIndex := currentIndex - 1;
      var leftmost := IsLeftmost(category, currentIndex);
      if leftmost {
        return false;
      }
      // The scan back stops at once: it moves to the previous item or gives up.
      if prevIndex >= 0 && imageData[prevIndex].category == category {
        MoveLeftTo(prevIndex);
        return true;
      }
      return false;
    }

    /** Select `prev`, the item before the current one in the same category, and bring it into view. */
    method MoveLeftTo(prev: int)
      requires Valid()
      requires 0 <= prev && currentIndex == prev + 1 < |imageData| && imageData[prev].category == imageData[currentIndex].category
      modifies this`currentIndex, this`currentCategory, this`contentY, this`categoryContentX, this`visibleCategories,
               this`visibleIndices, this`nodes, this`textureUsageQueue, this`deletedNodes
      ensures var cat := imageData[prev].category;
              currentIndex == (if prev < count then prev else old(currentIndex)) && currentCategory == cat &&
              ContentXOf(categoryContentX, cat) == HorizontalTarget(CountBefore(imageData, cat, prev), DimensionsFor(layout, cat), layout.width) &&
              contentY == PaddedContentY(layout, rowTitles, EnsureVisibleTarget(layout, imageData, rowTitles, prev)) &&
              (forall c :: c != cat ==> ContentXOf(categoryContentX, c) == ContentXOf(old(categoryContentX), c))
      ensures nodes.Keys <= old(nodes).Keys
      ensures Valid() && (old(KeysInRange()) ==> KeysInRange())
    {
      SetCurrentIndex(prev);
      UpdateCurrentCategory();
      CentreAndShow(prev);
    }

    /** Centre item `index` of the current row, scroll its row into view, then the cleanup check. */
    method CentreAndShow(index: int)
      requires Valid()
      requires 0 <= index < |imageData| && imageData[index].category == currentCategory
      modifies this`contentY, this`categoryContentX, this`visibleCategories, this`visibleIndices, this`nodes,
               this`textureUsageQueue, this`deletedNodes
      ensures ContentXOf(categoryContentX, currentCategory) ==
              HorizontalTarget(CountBefore(imageData, currentCategory, index), DimensionsFor(layout, currentCategory), layout.width)
      ensures contentY == PaddedContentY(layout, rowTitles, EnsureVisibleTarget(layout, imageData, rowTitles, index))
      ensures forall c :: c != currentCategory ==> ContentXOf(categoryContentX, c) == ContentXOf(old(categoryContentX), c)
      ensures nodes.Keys <= old(nodes).Keys
      ensures Valid() && (old(KeysInRange()) ==> KeysInRange())
    {
      var category := imageData[index].category;
      var itemsBefore := ItemsBeforeInCategory(category, index);
      AnimateScroll(category, HorizontalTarget(itemsBefore, DimensionsFor(layout, category), layout.width));
      EnsureIndexVisible(index);
      TrimCache();
    }

    /**
     * Move the selection one item right within its category; nothing
     * happens without a selection inside the list or at the category's last
     * item. A move selects the next item and
     * scrolls it into view; when the row overflows the view, the row scrolls
     * to its end for its last item and centres the item otherwise.
     */
    method NavigateRight()
      requires Valid()
      modifies this`currentIndex, this`currentCategory, this`contentY, this`categoryContentX, this`visibleCategories,
               this`visibleIndices, this`nodes, this`textureUsageQueue, this`deletedNodes
      ensures StepRight(imageData, old(currentIndex)).None? ==>
                currentIndex == old(currentIndex) && currentCategory == old(currentCategory) && contentY == old(contentY) &&
                categoryContentX == old(categoryContentX) && CacheKept()
      ensures StepRight(imageData, old(currentIndex)).Some? ==>
                var next := old(currentIndex) + 1;
                var cat := imageData[next].category;
                currentIndex == (if next < count then next else old(currentIndex)) && currentCategory == cat &&
                contentY == PaddedContentY(layout, rowTitles, EnsureVisibleTarget(layout, imageData, rowTitles, next)) &&
                ContentXOf(categoryContentX, cat) ==
                  (if RowContentWidth(layout, imageData, cat) > layout.width then RightScrollTarget(layout, imageData, cat, next)
                   else if next < count || old(currentCategory) == cat then
                     HorizontalTarget(CountBefore(imageData, cat, next), DimensionsFor(layout, cat), layout.width)
                   else ContentXOf(old(categoryContentX), cat)) &&
                (forall c :: c != cat ==> ContentXOf(categoryContentX, c) == ContentXOf(old(categoryContentX), c))
      ensures nodes.Keys <= old(nodes).Keys
      ensures Valid() && (old(KeysInRange()) ==> KeysInRange())
    {
      // The source reads the current record unguarded; a selection outside the list stops here.
      if currentIndex < 0 || currentIndex >= |imageData| {
        return;
      }
      var category := imageData[currentIndex].category;
      var nextIndex := currentIndex + 1;
      // The scan forward stops at once: it moves to the next item or gives up.
      if nextIndex < |imageData| && imageData[nextIndex].category == category {
        MoveRightTo(nextIndex);
      }
    }

    /** Select `next`, the item after the current one in the same category, and bring it into view. */
    method MoveRightTo(next: int)
      requires Valid()
      requires 0 <= currentIndex && currentIndex + 1 == next < |imageData| && imageData[next].category == imageData[currentIndex].category
      modifies this`currentIndex, this`currentCategory, this`contentY, this`categoryContentX, this`visibleCategories,
               this`visibleIndices, this`nodes, this`textureUsageQueue, this`deletedNodes
      ensures var cat := imageData[next].category;
              currentIndex == (if next < count then next else old(currentIndex)) && currentCategory == cat &&
              contentY == PaddedContentY(layout, rowTitles, EnsureVisibleTarget(layout, imageData, rowTitles, next)) &&
              ContentXOf(categoryContentX, cat) ==
                (if RowContentWidth(layout, imageData, cat) > layout.width then RightScrollTarget(layout, imageData, cat, next)
                 else if next < count || old(currentCategory) == cat then
                   HorizontalTarget(CountBefore(imageData, cat, next), DimensionsFor(layout, cat), layout.width)
                 else ContentXOf(old(categoryContentX), cat)) &&
              (forall c :: c != cat ==> ContentXOf(categoryContentX, c) == ContentXOf(old(categoryContentX), c))
      ensures nodes.Keys <= old(nodes).Keys
      ensures Valid() && (old(KeysInRange()) ==> KeysInRange())
    {
      var category := imageData[next].category;
      SelectAndShow(next);
      ScrollRowRight(category, next);
    }

    /**
     * Select `next` and scroll it into view: its row is centred on it only
     * when the selection changed the current category to its row or it
     * already was.
     */
    method SelectAndShow(next: int)
      requires Valid()
      requires 0 <= currentIndex < |imageData| && currentIndex != next && 0 <= next < |imageData|
      requires imageData[next].category == imageData[currentIndex].category
      modifies this`currentIndex, this`currentCategory, this`contentY, this`categoryContentX, this`visibleCategories,
               this`visibleIndices, this`nodes, this`textureUsageQueue, this`deletedNodes
      ensures var cat := imageData[next].category;
              currentIndex == (if next < count then next else old(currentIndex)) && currentCategory == cat &&
              contentY == PaddedContentY(layout, rowTitles, EnsureVisibleTarget(layout, imageData, rowTitles, next)) &&
              ContentXOf(categoryContentX, cat) ==
                (if next < count || old(currentCategory) == cat then
                   HorizontalTarget(CountBefore(imageData, cat, next), DimensionsFor(layout, cat), layout.width)
                 else ContentXOf(old(categoryContentX), cat)) &&
              (forall c :: c != cat ==> ContentXOf(categoryContentX, c) == ContentXOf(old(categoryContentX), c))
      ensures nodes.Keys <= old(nodes).Keys
      ensures Valid() && (old(KeysInRange()) ==> KeysInRange())
    {
      SetCurrentIndex(next);
      EnsureIndexVisible(next);
      UpdateCurrentCategory();
    }

    /**
     * The rest of a move right to `next` in `cat`: only when the row
     * overflows the view, scroll to the row's end for the row's last item,
     * else centre the item; then the cleanup check.
     */
    method ScrollRowRight(cat: Category, next: int)
      requires Valid()
      requires 0 <= next < |imageData| && imageData[next].category == cat
      modifies this`categoryContentX, this`visibleCategories, this`visibleIndices, this`nodes, this`textureUsageQueue, this`deletedNodes
      ensures ContentXOf(categoryContentX, cat) ==
              if RowContentWidth(layout, imageData, cat) > layout.width then RightScrollTarget(layout, imageData, cat, next)
              else ContentXOf(old(categoryContentX), cat)
      ensures forall c :: c != cat ==> ContentXOf(categoryContentX, c) == ContentXOf(old(categoryContentX), c)
      ensures nodes.Keys <= old(nodes).Keys
      ensures Valid() && (old(KeysInRange()) ==> KeysInRange())
    {
      var itemsInCategory, last := CategoryExtent(cat, next);
      CountBeforeStrict(imageData, cat, next, |imageData|);
      var totalWidth := RowContentWidth(layout, imageData, cat);
      if totalWidth > layout.width {
        var targetX: real;
        if next == last {
          var contentWidth := ComputeCategoryContentWidth(cat);
          targetX := contentWidth - layout.width;
        } else {
          var itemsBefore := ItemsBeforeInCategory(cat, next);
          targetX := HorizontalTarget(itemsBefore, DimensionsFor(layout, cat), layout.width);
        }
        AnimateScroll(cat, targetX);
      }
      TrimCache();
    }

    /**
     * Start a move up: find the matching item of the row above and the
     * offset to animate to, mark that row visible and preload its window.
     * The animation and its completion are `CommitVerticalMove`.
     */
    method NavigateUp() returns (m: Option<VerticalMove>)
      requires Valid()
      modifies this`visibleCategories, this`nodes, this`textureUsageQueue, this`nextTextureId, this`pendingRequests,
               this`abortedReplies, this`nextReplyId, this`deletedNodes
      ensures m == UpMove(layout, imageData, rowTitles, currentIndex)
      ensures m.None? ==>
                visibleCategories == old(visibleCategories) && nodes == old(nodes) &&
                pendingRequests == old(pendingRequests) && deletedNodes == old(deletedNodes)
      ensures m.Some? ==> visibleCategories == old(visibleCategories) + {m.value.targetCategory}
      ensures m.Some? ==> forall k :: k in nodes ==> k in old(nodes) || k in PreloadWindow(imageData, currentIndex, m.value.targetCategory)
      ensures m.Some? && CanLoad() ==> Covered(PreloadWindow(imageData, currentIndex, m.value.targetCategory))
      ensures Valid() && (old(KeysInRange()) ==> KeysInRange())
    {
      m := FindUpMove();
      if m.Some? {
        // The zero-delay preload runs before the animation ends.
        MarkAndPreload(m.value.targetCategory);
      }
    }

    /** The move up from the current selection: the row above's matching item and the offset to animate to. */
    method FindUpMove() returns (m: Option<VerticalMove>)
      ensures m == UpMove(layout, imageData, rowTitles, currentIndex)
    {
      // The source does not test that the selection lies inside the list.
      if currentIndex < 0 || |rowTitles| == 0 || currentIndex >= |imageData| {
        return None;
      }
      var category := imageData[currentIndex].category;
      var categoryIndex := IndexOf(rowTitles, category);
      if categoryIndex <= 0 {
        return None;
      }
      var prevCategory := rowTitles[categoryIndex - 1];
      var target := FindMatchingPositionInNextCategory(prevCategory);
      if target == -1 {
        return None;
      }
      var desiredY := UpTargetFor(target, prevCategory);
      m := Some(VerticalMove(Up, target, prevCategory, desiredY, false));
    }

    /** The offset a move up to `target` in `prevCategory` animates to. */
    method UpTargetFor(target: int, prevCategory: Category) returns (desiredY: real)
      ensures desiredY == UpScrollTarget(layout, imageData, rowTitles, target, prevCategory)
    {
      var targetY := CalculateItemVerticalPosition(target);
      var dims := DimensionsFor(layout, prevCategory);
      var viewportCenter := layout.height / 2.0;
      desiredY := targetY - viewportCenter + TruncDiv(dims.rowHeight, 2) as real;
      var contentHeight := ComputeContentHeight();
      desiredY := QBound(0.0, desiredY, contentHeight - layout.height);
    }

    /**
     * Start a move down: find the matching item of the row below (the first
     * row when the current row is not listed) and the offset to animate to,
     * mark that row visible and preload its window. The animation and its
     * completion are `CommitVerticalMove`.
     */
    method NavigateDown() returns (m: Option<VerticalMove>)
      requires Valid()
      modifies this`visibleCategories, this`nodes, this`textureUsageQueue, this`nextTextureId, this`pendingRequests,
               this`abortedReplies, this`nextReplyId, this`deletedNodes
      ensures m == DownMove(layout, imageData, rowTitles, currentIndex)
      ensures m.None? ==>
                visibleCategories == old(visibleCategories) && nodes == old(nodes) &&
                pendingRequests == old(pendingRequests) && deletedNodes == old(deletedNodes)
      ensures m.Some? ==> visibleCategories == old(visibleCategories) + {m.value.targetCategory}
      ensures m.Some? ==> forall k :: k in nodes ==> k in old(nodes) || k in PreloadWindow(imageData, currentIndex, m.value.targetCategory)
      ensures m.Some? && CanLoad() ==> Covered(PreloadWindow(imageData, currentIndex, m.value.targetCategory))
      ensures Valid() && (old(KeysInRange()) ==> KeysInRange())
    {
      m := FindDownMove();
      if m.Some? {
        MarkAndPreload(m.value.targetCategory);
      }
    }

    /**
     * The move down from the current selection: the row below's matching
     * item (the first row's from an unlisted row) and the offset to animate to.
     */
    method FindDownMove() returns (m: Option<VerticalMove>)
      ensures m == DownMove(layout, imageData, rowTitles, currentIndex)
    {
      // The source does not test that the selection lies inside the list.
      if currentIndex < 0 || |rowTitles| == 0 || currentIndex >= |imageData| {
        return None;
      }
      var category := imageData[currentIndex].category;
      var categoryIndex := IndexOf(rowTitles, category);
      if categoryIndex >= |rowTitles| - 1 {
        return None;
      }
      var nextCategory := rowTitles[categoryIndex + 1];
      var target := FindMatchingPositionInNextCategory(nextCategory);
      if target == -1 {
        return None;
      }
      var isLastCategory := categoryIndex == |rowTitles| - 2;
      var desiredY := DownTargetFor(target, nextCategory, isLastCategory);
      m := Some(VerticalMove(Down, target, nextCategory, desiredY, isLastCategory));
    }

    /** The offset a move down to `target` in `nextCategory` animates to. */
    method DownTargetFor(target: int, nextCategory: Category, isLastCategory: bool) returns (desiredY: real)
      ensures desiredY == DownScrollTarget(layout, imageData, rowTitles, target, nextCategory, isLastCategory)
    {
      var dims := DimensionsFor(layout, nextCategory);
      var targetY := CalculateItemVerticalPosition(target);
      var contentHeight := ComputeContentHeight();
      if isLastCategory {
        var rowBottom := targetY + dims.posterHeight as real + dims.posterHeight as real * 0.2;
        desiredY := rowBottom - layout.height * 0.9;
        desiredY := Min(desiredY, contentHeight - layout.height);
      } else {
        desiredY := targetY - (layout.height - dims.rowHeight as real) / 2.0;
        desiredY := QBound(0.0, desiredY, contentHeight - layout.height);
      }
    }

    /**
     * The end of a vertical move's animation: the offset reaches the
     * animation's end value, the target is selected, and then a move up
     * brings the target into view while a move down marks its row visible
     * and preloads around the new selection.
     */
    method CommitVerticalMove(m: VerticalMove)
      requires Valid()
      modifies this`contentY, this`currentIndex, this`currentCategory, this`categoryContentX, this`visibleCategories,
               this`visibleIndices, this`nodes, this`textureUsageQueue, this`nextTextureId, this`pendingRequests,
               this`abortedReplies, this`nextReplyId, this`deletedNodes
      ensures currentIndex == if old(currentIndex) != m.target && 0 <= m.target < count then m.target else old(currentIndex)
      ensures m.direction == Up && 0 <= m.target < |imageData| ==>
                contentY == PaddedContentY(layout, rowTitles, EnsureVisibleTarget(layout, imageData, rowTitles, m.target))
      ensures m.direction == Up && !(0 <= m.target < |imageData|) ==> contentY == PaddedContentY(layout, rowTitles, m.desiredY)
      ensures m.direction == Down ==> contentY == PaddedContentY(layout, rowTitles, m.desiredY)
      ensures m.direction == Down ==> m.targetCategory in visibleCategories
      ensures m.direction == Down && 0 <= currentIndex < |imageData| && CanLoad() ==>
                Covered(PreloadWindows(imageData, currentIndex, NeighbourRows(rowTitles, imageData[currentIndex].category)))
      ensures Valid() && (old(KeysInRange()) ==> KeysInRange())
    {
      AnimateContentY(m.desiredY);
      if m.direction == Up {
        FinishMoveUp(m.target);
      } else {
        FinishMoveDown(m.target, m.targetCategory);
      }
    }

    /**
     * Animate the vertical offset to `y`; the animation is modelled by its
     * end state, the offset `setContentY` stores for `y`.
     */
    method AnimateContentY(y: real)
      requires Valid()
      modifies this`contentY, this`visibleCategories, this`visibleIndices, this`nodes, this`textureUsageQueue, this`deletedNodes
      ensures contentY == PaddedContentY(layout, rowTitles, y)
      ensures nodes.Keys <= old(nodes).Keys
      ensures Valid() && (old(KeysInRange()) ==> KeysInRange())
    {
      SetContentY(y);
    }

    /** Mark row `cat` visible and preload its window. */
    method MarkAndPreload(cat: Category)
      requires Valid()
      modifies this`visibleCategories, this`nodes, this`textureUsageQueue, this`nextTextureId, this`pendingRequests,
               this`abortedReplies, this`nextReplyId, this`deletedNodes
      ensures visibleCategories == old(visibleCategories) + {cat}
      ensures forall k :: k in nodes ==> k in old(nodes) || k in PreloadWindow(imageData, currentIndex, cat)
      ensures CanLoad() ==> Covered(PreloadWindow(imageData, currentIndex, cat))
      ensures Valid() && (old(KeysInRange()) ==> KeysInRange())
    {
      visibleCategories := visibleCategories + {cat};
      PreloadRowTextures(cat);
    }

    /** The completion of a move up: select `target` and bring it into view. */
    method FinishMoveUp(target: int)
      requires Valid()
      modifies this`contentY, this`currentIndex, this`currentCategory, this`categoryContentX, this`visibleCategories,
               this`visibleIndices, this`nodes, this`textureUsageQueue, this`deletedNodes
      ensures currentIndex == if old(currentIndex) != target && 0 <= target < count then target else old(currentIndex)
      ensures 0 <= target < |imageData| ==>
                contentY == PaddedContentY(layout, rowTitles, EnsureVisibleTarget(layout, imageData, rowTitles, target))
      ensures !(0 <= target < |imageData|) ==> contentY == old(contentY)
      ensures Valid() && (old(KeysInRange()) ==> KeysInRange())
    {
      SetCurrentIndex(target);
      EnsureIndexVisible(target);
    }

    /**
     * The completion of a move down: select `target`, mark its row
     * `targetCategory` visible and preload around the new selection.
     */
    method FinishMoveDown(target: int, targetCategory: Category)
      requires Valid()
      modifies this`currentIndex, this`currentCategory, this`visibleCategories, this`nodes, this`textureUsageQueue,
               this`nextTextureId, this`pendingRequests, this`abortedReplies, this`nextReplyId, this`deletedNodes
      ensures currentIndex == if old(currentIndex) != target && 0 <= target < count then target else old(currentIndex)
      ensures targetCategory in visibleCategories
      ensures 0 <= currentIndex < |imageData| && CanLoad() ==>
                Covered(PreloadWindows(imageData, currentIndex, NeighbourRows(rowTitles, imageData[currentIndex].category)))
      ensures Valid() && (old(KeysInRange()) ==> KeysInRange())
    {
      SetCurrentIndex(target);
      visibleCategories := visibleCategories + {targetCategory};
      LoadVisibleTextures();
    }

    // -------------------------------------------------------------------
    // Content

    /**
     * The link map of an item: each link object's events array, or else its
     * single event, maps the upper-cased event name to the link's href;
     * later links overwrite earlier ones.
     */
    method BuildLinks(links: seq<Link>) returns (m: map<string, string>)
      ensures m == LinksOf(links)
    {
      m := map[];
      var i := 0;
      while i < |links|
        invariant 0 <= i <= |links| && m == LinksOf(links[..i])
      {
        assert links[..i + 1][..i] == links[..i];
        var link := links[i];
        if link.LinkObject? {
          var href := link.href;
          if link.events != [] {
            ghost var m0 := m;
            var j := 0;
            while j < |link.events|
              invariant 0 <= j <= |link.events| && m == ApplyEvents(m0, link.events[..j], href)
            {
              assert link.events[..j + 1][..j] == link.events[..j];
              m := m[Upper(link.events[j]) := href];
              j := j + 1;
            }
            assert link.events[..j] == link.events;
          } else if link.event.Some? {
            m := m[Upper(link.event.value) := href];
          }
        }
        i := i + 1;
      }
      assert links[..i] == links;
    }

    /**
     * Replace the records and the row list by the rows of a menu: one row
     * title per row, and one record per item object that is not "viewAll",
     * with its URL chosen, cleaned and defaulted and its links collected.
     */
    method ConvertMenuRows(rows: seq<Row>)
      modifies this`imageData, this`rowTitles
      ensures imageData == ConvertRows(rows) && rowTitles == RowTitles(rows)
    {
      imageData := [];
      rowTitles := [];
      var r := 0;
      while r < |rows|
        invariant 0 <= r <= |rows|
        invariant imageData == ConvertRows(rows[..r]) && rowTitles == RowTitles(rows[..r])
      {
        assert rows[..r + 1][..r] == rows[..r];
        var row := rows[r];
        rowTitles := rowTitles + [row.title];
        ConvertRowItems(row.title, row.items);
        assert rows[..r + 1][r] == row;
        r := r + 1;
      }
      assert rows[..r] == rows;
    }

    /** Append the records of one row's items. */
    method ConvertRowItems(rowTitle: string, items: seq<MenuItem>)
      modifies this`imageData
      ensures imageData == old(imageData) + ConvertItems(rowTitle, items, |old(imageData)|)
    {
      var added := ConvertedRecords(rowTitle, items, |imageData|);
      imageData := imageData + added;
    }

    /** The records of one row's items, `base` records having been converted before them. */
    method ConvertedRecords(rowTitle: string, items: seq<MenuItem>, base: nat) returns (added: seq<ImageData>)
      ensures added == ConvertItems(rowTitle, items, base)
    {
      added := [];
      var j := 0;
      while j < |items|
        invariant 0 <= j <= |items|
        invariant ConvertedPrefix(added, rowTitle, items, j, base)
      {
        var item := items[j];
        if Skipped(item) {
          ConvertItemsStep(rowTitle, items, j, base, added, added);
        } else {
          var record := ConvertItem(rowTitle, item, base + |added|);
          ConvertItemsStep(rowTitle, items, j, base, added, added + [record]);
          added := added + [record];
        }
        j := j + 1;
      }
      assert items[..j] == items;
    }

    /**
     * The record of an item object that is not "viewAll", `n` records
     * having been converted before it.
     */
    method ConvertItem(rowTitle: string, item: MenuItem, n: nat) returns (record: ImageData)
      requires !Skipped(item)
      ensures record == ImageOfItem(rowTitle, item, n)
    {
      var url := item.moodImageUri;
      if url == "" {
        url := item.thumbnailUri;
      }
      if StartsWith(url, "//") {
        url := "https:" + url;
      }
      if url == "" {
        url := PlaceholderUrl(n % 5 + 1);
      }
      var links := BuildLinks(item.links);
      record := ImageData(url, item.title, rowTitle, item.shortSynopsis, item.assetType, "", links);
    }

    /**
     * Load a parsed menu document. A document that is not an object, or
     * whose menu is missing or empty, changes nothing. Otherwise the records
     * and rows are rebuilt; with records the cache is released and the
     * visible images are loaded, and without any the default records are
     * added.
     */
    method ProcessJsonData(doc: MenuDocument)
      requires Valid()
      modifies this`imageData, this`rowTitles, this`count, this`nodes, this`deletedNodes, this`visibleIndices,
               this`textureUsageQueue, this`nextTextureId, this`pendingRequests, this`abortedReplies, this`nextReplyId
      ensures !(doc.MenuObject? && doc.menuItems.MenuItemsObject?) ==>
                imageData == old(imageData) && rowTitles == old(rowTitles) && count == old(count) &&
                nodes == old(nodes) && pendingRequests == old(pendingRequests)
      ensures doc.MenuObject? && doc.menuItems.MenuItemsObject? ==>
                var rows := doc.menuItems.rows;
                (ConvertRows(rows) != [] ==> imageData == ConvertRows(rows) && rowTitles == RowTitles(rows)) &&
                (ConvertRows(rows) == [] ==> imageData == DefaultItems() && rowTitles == ["Test Items"]) &&
                count == |imageData| &&
                (forall k :: k in nodes ==> k in visibleIndices)
      ensures PendingPastListKept()
      ensures Valid() && (old(KeysInRange()) ==> KeysInRange())
    {
      if doc.NotAnObject? || doc.menuItems.EmptyMenuItems? {
        return;
      }
      ConvertMenuRows(doc.menuItems.rows);
      count := |imageData|;
      if count > 0 {
        ReloadVisible();
      } else {
        AddDefaultItems();
      }
    }

    /** Release the cache and load the visible images of the new content. */
    method ReloadVisible()
      requires Valid()
      modifies this`nodes, this`deletedNodes, this`visibleIndices, this`textureUsageQueue, this`nextTextureId,
               this`pendingRequests, this`abortedReplies, this`nextReplyId
      ensures forall k :: k in nodes ==> k in visibleIndices
      ensures PendingPastListKept()
      ensures Valid() && KeysInRange()
    {
      SafeReleaseTextures();
      LoadAllImages();
    }

    /** Show the single "Test Items" row with its five placeholder records, then reload. */
    method AddDefaultItems()
      requires Valid()
      modifies this`imageData, this`rowTitles, this`count, this`nodes, this`deletedNodes, this`visibleIndices,
               this`textureUsageQueue, this`nextTextureId, this`pendingRequests, this`abortedReplies, this`nextReplyId
      ensures rowTitles == ["Test Items"]
      ensures imageData == old(imageData) + DefaultItems() && count == |imageData|
      ensures forall k :: k in nodes ==> k in visibleIndices
      ensures PendingPastListKept()
      ensures Valid() && KeysInRange()
    {
      rowTitles := ["Test Items"];
      AppendDefaultItems();
      count := |imageData|;
      ReloadVisible();
    }

    /** Append the five placeholder records of the "Test Items" row. */
    method AppendDefaultItems()
      modifies this`imageData
      ensures imageData == old(imageData) + DefaultItems()
    {
      var i := 0;
      while i < 5
        invariant 0 <= i <= 5 && imageData == old(imageData) + DefaultItems()[..i]
      {
        assert DefaultItems()[..i + 1] == DefaultItems()[..i] + [DefaultItem(i)];
        imageData := imageData + [ImageData(PlaceholderUrl(i % 5 + 1), "Test Item " + [Digit(i + 1)], "Test Items", "", [Digit(i)], "", map[])];
        i := i + 1;
      }
      assert DefaultItems()[..5] == DefaultItems();
    }

    /** The swimlane-controlled part of the layout. */
    function Settings(): DimensionSettings
      reads this`layout
    {
      DimensionSettings(layout.dimensions, layout.itemWidth, layout.itemHeight, layout.spacing)
    }

    /**
     * Apply the swimlane settings: every non-empty entry sets the
     * dimensions of its category (and of the extra categories of
     * "portraitType1" and "landscapeType2"); the "default" entry also sets
     * the item size and spacing.
     */
    method ProcessSwimlaneDimensions(entries: seq<SwimlaneEntry>)
      modifies this`layout
      ensures Settings() == ApplySwimlane(old(Settings()), entries)
      ensures layout.rowSpacing == old(layout.rowSpacing) && layout.titleHeight == old(layout.titleHeight)
      ensures layout.startPositionX == old(layout.startPositionX)
      ensures layout.width == old(layout.width) && layout.height == old(layout.height)
    {
      ghost var l0 := layout;
      ghost var s0 := Settings();
      if entries == [] {
        return;
      }
      var i := 0;
      while i < |entries|
        invariant 0 <= i <= |entries|
        invariant Settings() == ApplySwimlane(s0, entries[..i])
        invariant layout.rowSpacing == l0.rowSpacing && layout.titleHeight == l0.titleHeight
        invariant layout.startPositionX == l0.startPositionX && layout.width == l0.width && layout.height == l0.height
      {
        assert entries[..i + 1][..i] == entries[..i];
        var e := entries[i];
        if e.config.Some? {
          var dims := e.config.value;
          layout := layout.(dimensions := layout.dimensions[CategoryForType(e.typeName) := dims]);
          if e.typeName == "default" {
            layout := layout.(itemWidth := dims.posterWidth as real, itemHeight := dims.posterHeight as real, spacing := dims.itemSpacing);
          }
          if e.typeName == "portraitType1" {
            layout := layout.(dimensions := layout.dimensions["Bein Series" := dims]["TV Shows" := dims]);
          } else if e.typeName == "landscapeType2" {
            layout := layout.(dimensions := layout.dimensions["TV Channels" := dims]["Live TV" := dims]);
          }
        }
        i := i + 1;
      }
      assert entries[..i] == entries;
    }
  }

  /**
   * A new view has index 0 selected while its list is still empty, and the
   * source's move right reads the current record without any test.
   */
  method NewViewSelectsPastList() returns (v: ImageListView)
    ensures GuardAsWritten(ArrowRight, v.imageData, v.rowTitles, v.currentIndex)
    ensures !(0 <= v.currentIndex < |v.imageData|)
  {
    v := new ImageListView(true, true, {});
  }

  /**
   * Selecting index 10 of a new view (its count is 15) and then showing the
   * five default records passes the source's tests for left, up and down
   * with the selection past the end of the list.
   */
  method SelectionPastDefaults() returns (v: ImageListView)
    ensures GuardAsWritten(ArrowLeft, v.imageData, v.rowTitles, v.currentIndex)
    ensures GuardAsWritten(ArrowUp, v.imageData, v.rowTitles, v.currentIndex)
    ensures GuardAsWritten(ArrowDown, v.imageData, v.rowTitles, v.currentIndex)
    ensures v.currentIndex == 10 && |v.imageData| == 5
  {
    v := new ImageListView(true, true, {});
    v.SetCurrentIndex(10);
    v.AddDefaultItems();
  }

  /**
   * A request is still pending for index `k` when new content of at most
   * `k` records replaces the list; its reply then fails, and the
   * placeholder is cached under `k`, past the new list. The corrected
   * second recycling pass skips such a key; as written it reads the
   * record of `k`.
   */
  method StaleReplyAfterReload(v: ImageListView, k: int, rows: seq<Row>)
    requires v.Valid() && k in v.pendingRequests
    requires ConvertRows(rows) != [] && |ConvertRows(rows)| <= k
    requires v.windowPresent && v.texturesAvailable
    modifies v
    ensures v.Valid()
    ensures k in v.nodes && k >= |v.imageData|
    ensures !v.KeysInRange()
    ensures k !in v.visibleIndices ==>
              !SecondPassReadsInRange(v.nodes, v.imageData, v.visibleIndices, RecycleFirstPass(v.nodes, v.imageData, v.visibleCategories))
  {
    var reply := v.pendingRequests[k];
    v.ProcessJsonData(MenuObject(MenuItemsObject(rows)));
    v.OnNetworkReplyFinished(reply, NetworkFailure);
    if k !in v.visibleIndices {
      StaleKeyReadPastList(v.nodes, v.imageData, v.visibleCategories, v.visibleIndices, k);
    }
  }
}
