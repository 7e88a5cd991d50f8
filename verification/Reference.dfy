/** What the index invariant means in textbook terms: definitions that follow
    child pointers from the root and `next` links from the first leaf, with no
    mention of levels or recorded minima, and the theorems that a valid index has
    all the textbook properties. */
module Reference {
  import opened Nodes
  import opened Ordered
  import opened Shape
  import opened Index

  // ---- the tree, read off the pages alone ----

  /** The pages at depth d below the pages `ids`, one listing per path. */
  ghost function Below(m: Pages, ids: seq<PageId>, d: nat): seq<PageId>
    decreases d
  {
    if d == 0 then ids else Below(m, Kids(m, ids), d - 1)
  }

  /** The entries of a subtree of height h in the order a traversal meets them. */
  ghost function InOrderEntries(m: Pages, id: PageId, h: nat): seq<Entry>
    decreases h, 0
  {
    if h == 0 then EntriesOf(PageAt(m, id)) else ForestEntries(m, ChildrenOf(PageAt(m, id)), h - 1)
  }

  ghost function ForestEntries(m: Pages, ids: seq<PageId>, h: nat): seq<Entry>
    decreases h, 1, |ids|
  {
    if ids == [] then [] else InOrderEntries(m, ids[0], h) + ForestEntries(m, ids[1..], h)
  }

  /** A B+-tree of height h: every leaf is non-empty and equally deep, and every
      separator is the smallest key of the subtree to its right. */
  ghost predicate IsBTree(m: Pages, id: PageId, h: nat)
    decreases h
  {
    if h == 0 then PageAt(m, id).Leaf? && PageAt(m, id).entries != []
    else
      && PageAt(m, id).Inner? && |PageAt(m, id).children| == |PageAt(m, id).keys| + 1
      && (forall c :: c in PageAt(m, id).children ==> IsBTree(m, c, h - 1))
      && (forall i :: 0 <= i < |PageAt(m, id).keys| ==>
            var es := InOrderEntries(m, PageAt(m, id).children[i + 1], h - 1);
            es != [] && PageAt(m, id).keys[i] == es[0].key)
  }

  /** Following `next` links for at most n leaves. */
  ghost function Walk(m: Pages, id: PageId, n: nat): seq<PageId>
    decreases n
  {
    if n == 0 || id == NO_PAGE then [] else [id] + Walk(m, NextOf(PageAt(m, id)), n - 1)
  }

  // ---- depth ----

  lemma {:induction false} BelowKids(m: Pages, ids: seq<PageId>, d: nat)
    ensures Below(m, ids, d + 1) == Kids(m, Below(m, ids, d))
    decreases d
  {
    if d > 0 {
      BelowKids(m, Kids(m, ids), d - 1);
    }
  }

  /** Depth d below the root is level height - d. */
  lemma {:induction false} DepthIsLevel(m: Pages, levels: Levels, info: Infos, d: nat)
    requires Shaped(m, levels, info, NO_PAGE) && d < |levels|
    ensures Below(m, levels[|levels| - 1], d) == levels[|levels| - 1 - d]
  {
    if d > 0 {
      DepthIsLevel(m, levels, info, d - 1);
      BelowKids(m, levels[|levels| - 1], d - 1);
      LevelKnown(m, levels, info, NO_PAGE, |levels|, |levels| - d);
    }
  }

  /** Following child pointers from the root reaches every page by one path only:
      no page is listed twice at one depth or at two depths. All pages above the
      last depth are inner nodes and all pages at it are leaves. */
  lemma NoPageTwice(idx: DiskBspIndex, d: nat, i: nat, d': nat, i': nat)
    requires idx.Valid() && idx.count > 0 && d < |idx.levels| && d' < |idx.levels|
    requires i < |Below(idx.pages, [idx.root], d)| && i' < |Below(idx.pages, [idx.root], d')|
    ensures Below(idx.pages, [idx.root], d)[i] == Below(idx.pages, [idx.root], d')[i'] ==> d == d' && i == i'
    ensures if d + 1 < |idx.levels| then PageAt(idx.pages, Below(idx.pages, [idx.root], d)[i]).Inner?
            else PageAt(idx.pages, Below(idx.pages, [idx.root], d)[i]).Leaf?
  {
    hide Kids, Chained, Entries, InOrder;
    var m, lv, info, top := idx.pages, idx.levels, idx.info, |idx.levels| - 1;
    DepthIsLevel(m, lv, info, d);
    DepthIsLevel(m, lv, info, d');
    LevelKnown(m, lv, info, NO_PAGE, |lv|, top - d);
    LevelKnown(m, lv, info, NO_PAGE, |lv|, top - d');
    assert lv[top - d][i] in lv[top - d] && lv[top - d'][i'] in lv[top - d'];
    LevelNode(m, lv, info, NO_PAGE, |lv|, top - d, lv[top - d][i]);
  }

  // ---- in-order traversal ----

  lemma {:induction false} ForestOfKids(m: Pages, ids: seq<PageId>, h: nat)
    ensures ForestEntries(m, Kids(m, ids), h) == ForestEntries(m, ids, h + 1)
  {
    if ids != [] {
      ForestOfKids(m, ids[1..], h);
      ForestAppend(m, ChildrenOf(PageAt(m, ids[0])), Kids(m, ids[1..]), h);
    }
  }

  lemma {:induction false} ForestAppend(m: Pages, a: seq<PageId>, b: seq<PageId>, h: nat)
    ensures ForestEntries(m, a + b, h) == ForestEntries(m, a, h) + ForestEntries(m, b, h)
  {
    if a == [] {
      assert a + b == b;
    } else {
      assert (a + b)[1..] == a[1..] + b;
      ForestAppend(m, a[1..], b, h);
    }
  }

  lemma {:induction false} ForestOfLeaves(m: Pages, ids: seq<PageId>)
    ensures ForestEntries(m, ids, 0) == Entries(m, ids)
  {
    if ids != [] {
      ForestOfLeaves(m, ids[1..]);
    }
  }

  lemma {:induction false} LevelEntries(m: Pages, levels: Levels, info: Infos, k: nat)
    requires Shaped(m, levels, info, NO_PAGE) && k < |levels|
    ensures ForestEntries(m, levels[k], k) == Flat(m, levels)
  {
    hide NodeOk, NoDup, Chained, Entries, Kids, ForestEntries, InOrderEntries;
    if k == 0 {
      ForestOfLeaves(m, levels[0]);
    } else {
      LevelKnown(m, levels, info, NO_PAGE, |levels|, k);
      LevelEntries(m, levels, info, k - 1);
      ForestOfKids(m, levels[k], k - 1);
    }
  }

  /** Traversing the tree from its root meets exactly the index's entries, in
      strictly increasing key order. */
  lemma TraversalIsItems(idx: DiskBspIndex)
    requires idx.Valid() && idx.count > 0
    ensures InOrderEntries(idx.pages, idx.root, |idx.levels| - 1) == idx.Items()
    ensures InOrder(idx.kind, idx.Items()) && |idx.Items()| == idx.count
  {
    var top := |idx.levels| - 1;
    LevelEntries(idx.pages, idx.levels, idx.info, top);
    assert idx.levels[top] == [idx.root];
    assert ForestEntries(idx.pages, [idx.root], top) == InOrderEntries(idx.pages, idx.root, top) + ForestEntries(idx.pages, [idx.root][1..], top);
  }

  // ---- separators ----

  /** Every page of the tree roots a B+-tree whose smallest key is the recorded
      minimum. */
  lemma {:induction false} PageIsBTree(m: Pages, levels: Levels, info: Infos, k: nat, id: PageId)
    requires Shaped(m, levels, info, NO_PAGE) && k < |levels| && id in levels[k]
    ensures IsBTree(m, id, k)
    ensures InOrderEntries(m, id, k) != [] && InOrderEntries(m, id, k)[0].key == MinOf(info, id)
    decreases k
  {
    hide Kids, Chained, Entries, NoDup, LevelOk;
    LevelNode(m, levels, info, NO_PAGE, |levels|, k, id);
    if k > 0 {
      var p := PageAt(m, id);
      forall c | c in p.children
        ensures IsBTree(m, c, k - 1)
        ensures InOrderEntries(m, c, k - 1) != [] && InOrderEntries(m, c, k - 1)[0].key == MinOf(info, c)
      {
        ChildLevel(m, levels, info, NO_PAGE, |levels|, k, id, c);
        PageIsBTree(m, levels, info, k - 1, c);
      }
      assert p.children[0] in p.children;
      forall i | 0 <= i < |p.keys|
        ensures var es := InOrderEntries(m, p.children[i + 1], k - 1); es != [] && p.keys[i] == es[0].key
      {
        assert p.children[i + 1] in p.children;
      }
      assert ForestEntries(m, p.children, k - 1)
          == InOrderEntries(m, p.children[0], k - 1) + ForestEntries(m, p.children[1..], k - 1);
    }
  }

  /** A valid, non-empty index is a B+-tree. */
  lemma ValidIsBTree(idx: DiskBspIndex)
    requires idx.Valid() && idx.count > 0
    ensures IsBTree(idx.pages, idx.root, |idx.levels| - 1)
  {
    hide LevelOk, LevelsOk, InOrder, Flat, DiskBspIndex.AllFit, IsBTree, InOrderEntries;
    var top := |idx.levels| - 1;
    assert idx.levels[top][0] == idx.root && idx.root in idx.levels[top];
    PageIsBTree(idx.pages, idx.levels, idx.info, top, idx.root);
  }

  // ---- the leaf chain ----

  lemma {:induction false} WalkChain(m: Pages, l: seq<PageId>, i: nat, n: nat)
    requires Chained(m, l, NO_PAGE) && (forall id :: id in l ==> id != NO_PAGE) && i <= |l| && n > |l| - i
    ensures Walk(m, if i < |l| then l[i] else NO_PAGE, n) == l[i..]
    decreases |l| - i
  {
    if i < |l| {
      assert l[i] in l;
      WalkChain(m, l, i + 1, n - 1);
      assert l[i..] == [l[i]] + l[i + 1..];
    }
  }

  /** Following `next` from the first leaf visits exactly the leaves the tree has,
      from left to right, and ends: however long one is prepared to walk, the walk
      is the list of leaves at the tree's last depth. Their entries are the
      index's entries. */
  lemma ChainIsLeaves(idx: DiskBspIndex, n: nat)
    requires idx.Valid() && idx.count > 0
    requires n > |Below(idx.pages, [idx.root], |idx.levels| - 1)|
    ensures Walk(idx.pages, idx.first, n) == Below(idx.pages, [idx.root], |idx.levels| - 1)
    ensures Entries(idx.pages, Walk(idx.pages, idx.first, n)) == idx.Items()
  {
    hide Kids, Entries, InOrder, Chained, LevelOk, Walk, Below, NoDup;
    var m, lv, info := idx.pages, idx.levels, idx.info;
    assert lv[|lv| - 1] == [idx.root];
    DepthIsLevel(m, lv, info, |lv| - 1);
    LeavesChained(m, lv, info);
    WalkChain(m, lv[0], 0, n);
    assert lv[0][0..] == lv[0];
  }

  lemma LeavesChained(m: Pages, levels: Levels, info: Infos)
    requires Shaped(m, levels, info, NO_PAGE)
    ensures Chained(m, levels[0], NO_PAGE) && forall id :: id in levels[0] ==> id != NO_PAGE
  {
    LevelKnown(m, levels, info, NO_PAGE, |levels|, 0);
  }
}
