/** The on-disk B*+-tree index (disk_bsp_index.h, disk_bsp_index.cpp).

    `pages` stands for the pager: page i of the file, already parsed. An
    operation that throws returns `Throw` and promises nothing about the pages
    it may have written; everything below is about operations that return. */
module Index {
  import opened Outcomes
  import opened Values
  import opened Nodes
  import opened Ordered
  import opened Shape
  import opened Replace
  import opened Surgery
  import opened Descent
  import opened Capacity

  class DiskBspIndex {
    var pages: seq<Page>
    var root: PageId
    var first: PageId
    var count: nat

    /** The type of the indexed column. */
    ghost const kind: DataType
    ghost var levels: Levels
    ghost var info: Infos

    ghost predicate AllFit()
      reads this`pages
    {
      pages != [] && forall i :: 0 <= i < |pages| ==> Fits(pages[i])
    }

    /** Every inner node on disk has two children or more. */
    ghost predicate Paired()
      reads this`pages
    {
      TwoChildrenEach(pages)
    }

    /** The tree as it would be with pages m, one page of which may exist only
        in memory so far. */
    ghost predicate Tree(m: Pages, hole: PageId)
      reads this`root, this`first, this`levels, this`info
    {
      && Shaped(m, levels, info, hole)
      && [root] == levels[|levels| - 1]
      && levels[0] != [] && first == levels[0][0]
      && InOrder(kind, Flat(m, levels))
    }

    /** The tree between operations. An empty index is a single empty leaf. */
    ghost predicate Valid()
      reads this
    {
      && Tree(pages, if count == 0 then root else NO_PAGE) && AllFit()
      && count == |Flat(pages, levels)|
      && (count == 0 ==> |levels| == 1 && levels[0] == [root] && NextOf(PageAt(pages, root)) == NO_PAGE)
      && 0 < |pages| && pages[0] == Super(root, first, count)
    }

    /** Every entry of the index, in key order. */
    ghost function Items(): seq<Entry>
      reads this
    {
      Flat(pages, levels)
    }

    // ---- creating and opening ----

    /** A closed index over a column of type t. */
    constructor (ghost t: DataType)
      ensures kind == t
    {
      pages, root, first, count := [], 0, 0, 0;
      kind := t;
      levels, info := [], map[];
    }

    /** `create_empty`: page 0 is reserved for the superblock and one empty leaf is
        the whole tree. */
    method CreateEmpty()
      modifies this
      ensures Valid() && Items() == [] && |levels| == 1 && (kind == IntType ==> Calm()) && Paired()
    {
      hide Valid, Easy, Tree;
      pages := [Raw];
      root := AllocatePage();
      first := root;
      count := 0;
      LeafFits(NO_PAGE);
      var w := WritePage(root, Leaf([], NO_PAGE));
      levels, info := [[root]], map[root := Info(0, Null)];
      WriteSuperblock();
      NowEmpty();
      LeafRootIsCalm(MIN_INTS);
    }

    lemma NowEmpty()
      requires pages == [Super(root, first, count), Leaf([], NO_PAGE)] && root == first == 1 && count == 0
      requires levels == [[root]] && info == map[root := Info(0, Null)]
      ensures Valid() && Items() == [] && Paired()
    {
      hide NodeOk, Entries;
      SingleLeaf(pages, root, [], root, Null);
      LeafFits(NO_PAGE);
    }

    /** `open`: the superblock gives back root, first leaf and count, so the file an
        index left behind opens as that index. Any other page 0 is refused. */
    method Open(disk: seq<Page>, ghost was: DiskBspIndex) returns (r: Result<()>)
      requires was.kind == kind
      modifies this
      ensures r.Ok? <==> disk != [] && disk[0].Super?
      ensures old(was.Valid()) && disk == old(was.pages) ==>
                && r.Ok? && Valid() && Items() == old(was.Items())
                && (old(was.Calm()) ==> Calm()) && (old(was.Paired()) ==> Paired())
    {
      hide Shaped, InOrder, Flat, Fits, Comfortable;
      if disk == [] || !disk[0].Super? {
        return Throw(BadFile);
      }
      pages := disk;
      root, first, count := disk[0].root, disk[0].first, disk[0].count;
      levels, info := was.levels, was.info;
      return Ok(());
    }

    // ---- pages ----

    /** `read_page`: anything that is not a node fails the magic check. */
    function ReadNode(id: PageId): (r: Result<Page>)
      reads this`pages
      ensures !r.Ok? ==> r.Throw? && r.fault.OfStorage()
      ensures r.Ok? <==> PageAt(pages, id).Leaf? || PageAt(pages, id).Inner?
      ensures r.Ok? ==> r.value == PageAt(pages, id)
    {
      if id < |pages| && (pages[id].Leaf? || pages[id].Inner?) then Ok(pages[id]) else Throw(CorruptPage)
    }

    function ReadInner(id: PageId): (r: Result<Page>)
      reads this`pages
      ensures !r.Ok? ==> r.Throw? && r.fault.OfStorage()
      ensures r.Ok? <==> PageAt(pages, id).Inner?
      ensures r.Ok? ==> r.value == PageAt(pages, id)
    {
      var p :- ReadNode(id);
      if p.Inner? then Ok(p) else Throw(Structure)
    }

    function ReadLeaf(id: PageId): (r: Result<Page>)
      reads this`pages
      ensures !r.Ok? ==> r.Throw? && r.fault.OfStorage()
      ensures r.Ok? <==> PageAt(pages, id).Leaf?
      ensures r.Ok? ==> r.value == PageAt(pages, id)
    {
      var p :- ReadNode(id);
      if p.Leaf? then Ok(p) else Throw(Structure)
    }

    /** `write_page`. Bytes are tested, the number of separators is not: a node with too
        many is stored without complaint and read back without them. */
    method WritePage(id: PageId, p: Page) returns (r: Result<()>)
      requires id < |pages|
      modifies this`pages
      ensures r.Ok? <==> Fits(p)
      ensures r.Throw? ==> r.fault == PageOverflow && !InBytes(p)
      ensures r.Cut? ==> p.Inner? && |p.keys| > MAX_SEPARATORS && !InnerOverflow(p.keys, p.children)
      ensures pages == if r.Throw? then old(pages) else old(pages)[id := if r.Ok? then p else Reread(p)]
      ensures forall x :: PageAt(pages, x)
                          == if r.Throw? || x != id then old(PageAt(pages, x)) else if r.Ok? then p else Reread(p)
      ensures old(AllFit()) ==> AllFit()
      ensures r.Ok? && old(Paired()) && (p.Inner? ==> |p.children| >= 2) ==> Paired()
    {
      if !InBytes(p) {
        return Throw(PageOverflow);
      }
      pages := pages[id := Reread(p)];
      return if Fits(p) then Ok(()) else Cut;
    }

    method AllocatePage() returns (id: PageId)
      requires 0 < |pages|
      modifies this`pages
      ensures id == old(|pages|) && pages == old(pages) + [Raw]
      ensures forall x :: PageAt(pages, x) == old(PageAt(pages, x))
      ensures old(AllFit()) ==> AllFit()
      ensures old(Paired()) ==> Paired()
    {
      id := |pages|;
      pages := pages + [Raw];
    }

    method WriteSuperblock()
      requires 0 < |pages|
      modifies this`pages
      ensures old(AllFit()) ==> AllFit()
      ensures old(Paired()) ==> Paired()
      ensures pages == old(pages)[0 := Super(root, first, count)]
    {
      pages := pages[0 := Super(root, first, count)];
      assert forall id: PageId :: id != 0 ==> PageAt(pages, id) == old(PageAt(pages, id));
    }

    // ---- minima and separators ----

    /** Going down by first children makes no difference between the pages on disk and
        m, the pages as they should be. */
    ghost predicate Alike(m: Pages)
      reads this`pages
    {
      forall id: PageId :: SameFirstChild(PageAt(pages, id), PageAt(m, id))
    }

    ghost predicate SameFirstChild(p: Page, q: Page) {
      p == q || (p.Inner? && q.Inner? && p.children != [] && q.children != [] && p.children[0] == q.children[0])
    }

    /** `subtree_min_entry`: follow first children down to a leaf. A node on the way may
        have been cut. */
    method SubtreeMin(id: PageId, ghost m: Pages, ghost lv: Levels, ghost inf: Infos, ghost k: nat)
      returns (r: Result<Value>)
      requires Alike(m) && k <= |lv| && LevelsOk(m, lv, inf, NO_PAGE, k)
      requires TrueMin(m, inf, id, TrueMinOf(m, inf, id))
      requires PageAt(m, id).Inner? ==> k > 0 && PageAt(m, id).children[0] in lv[k - 1]
      ensures r.Throw? ==> r.fault.OfStorage()
      ensures r == Ok(TrueMinOf(m, inf, id))
    {
      var p :- ReadNode(id);
      ghost var h := k;
      ghost var at := id;
      while !p.Leaf?
        invariant h <= k && SameFirstChild(p, PageAt(m, at))
        invariant TrueMin(m, inf, at, TrueMinOf(m, inf, id))
        invariant p.Inner? ==> h > 0 && PageAt(m, at).children[0] in lv[h - 1]
        decreases h
      {
        if p.children == [] {
          return Throw(Structure);
        }
        at := p.children[0];
        LevelKnown(m, lv, inf, NO_PAGE, k, h - 1);
        h := h - 1;
        if h > 0 {
          var c := ChildrenOf(PageAt(m, at))[0];
          ChildLevel(m, lv, inf, NO_PAGE, k, h, at, c);
        }
        assert SameFirstChild(PageAt(pages, at), PageAt(m, at));
        p :- ReadNode(p.children[0]);
      }
      if p.entries == [] {
        return Throw(Structure);
      }
      return Ok(p.entries[0].key);
    }

    lemma AlikeItself()
      ensures Alike(pages)
    {
    }

    /** `rebuild_internal_keys`: one separator per child but the first. */
    method RebuildKeys(children: seq<PageId>, ghost lv: Levels, ghost inf: Infos, ghost k: nat)
      returns (r: Result<seq<Value>>)
      requires k < |lv| && LevelsOk(pages, lv, inf, NO_PAGE, k + 1)
      requires forall c :: c in children ==> c in lv[k]
      ensures r.Throw? ==> r.fault.OfStorage()
      ensures r.Ok?
      ensures children != [] ==> r.value == KeysFor(inf, children)
    {
      if children == [] {
        return Ok([]);
      }
      AlikeItself();
      var keys := [];
      var i := 1;
      while i < |children|
        invariant 1 <= i <= |children| && |keys| == i - 1
        invariant forall j :: 0 <= j < |keys| ==> keys[j] == MinOf(inf, children[j + 1])
      {
        var c := children[i];
        assert c in children;
        NodeMin(pages, lv, inf, k, c);
        var v :- SubtreeMin(c, pages, lv, inf, k);
        keys := keys + [v];
        i := i + 1;
      }
      return Ok(keys);
    }

    // ---- searching ----

    /** The binary search `lower_bound_slot`. On keys of the index's type it
        finds the lower bound; on any other value all comparisons give zero and
        it answers 0. */
    static method LowerBoundSlot(es: seq<Entry>, key: Value, ghost t: DataType) returns (slot: nat)
      requires InOrder(t, es)
      ensures slot <= |es|
      ensures key.IsKey(t) ==> IsLowerBound(es, key, slot)
      ensures !key.IsKey(t) ==> slot == 0
    {
      var lo, hi := 0, |es|;
      while lo < hi
        invariant 0 <= lo <= hi <= |es|
        invariant key.IsKey(t) ==> forall i :: 0 <= i < lo ==> Less(es[i].key, key)
        invariant key.IsKey(t) ==> forall i :: hi <= i < |es| ==> !Less(es[i].key, key)
        invariant !key.IsKey(t) ==> lo == 0
      {
        var mid := (lo + hi) / 2;
        if key.IsKey(t) {
          if Compare(es[mid].key, key).sign <= 0 {
            BelowIsBelow(t, es, mid, key);
          }
          if Compare(es[mid].key, key).sign >= 0 {
            AboveIsAbove(t, es, mid, key);
          }
        }
        if Compare(es[mid].key, key).sign < 0 {
          lo := mid + 1;
        } else {
          hi := mid;
        }
      }
      return lo;
    }

    static method UpperBoundSlot(es: seq<Entry>, key: Value, ghost t: DataType) returns (slot: nat)
      requires InOrder(t, es)
      ensures slot <= |es|
      ensures key.IsKey(t) ==> IsUpperBound(es, key, slot)
      ensures !key.IsKey(t) ==> slot == |es|
    {
      var lo, hi := 0, |es|;
      while lo < hi
        invariant 0 <= lo <= hi <= |es|
        invariant key.IsKey(t) ==> forall i :: 0 <= i < lo ==> Compare(es[i].key, key).sign <= 0
        invariant key.IsKey(t) ==> forall i :: hi <= i < |es| ==> Compare(es[i].key, key).sign > 0
        invariant !key.IsKey(t) ==> hi == |es|
      {
        var mid := (lo + hi) / 2;
        if key.IsKey(t) {
          if Compare(es[mid].key, key).sign <= 0 {
            BelowIsBelow(t, es, mid, key);
          } else {
            AboveIsAbove(t, es, mid, key);
          }
        }
        if Compare(es[mid].key, key).sign <= 0 {
          lo := mid + 1;
        } else {
          hi := mid;
        }
      }
      return lo;
    }

    /** The child to descend into: the one after the last separator that is not
        above the key. */
    static method ChildSlot(keys: seq<Value>, key: Value) returns (child: nat)
      ensures child <= |keys| && child == ChildFor(keys, key)
      ensures child > 0 ==> Compare(keys[child - 1], key).sign <= 0
      ensures forall i :: child <= i < |keys| ==> Compare(keys[i], key).sign > 0
    {
      child := 0;
      for i := 0 to |keys|
        invariant child <= i && child == ChildFor(keys[..i], key)
        invariant child > 0 ==> Compare(keys[child - 1], key).sign <= 0
        invariant forall j :: child <= j < i ==> Compare(keys[j], key).sign > 0
      {
        assert keys[..i + 1][..i] == keys[..i];
        if Compare(keys[i], key).sign <= 0 {
          child := i + 1;
        }
      }
      assert keys[..|keys|] == keys;
    }

    /** The leaf to which the separators lead. */
    ghost function LeafOf(key: Value): PageId
      reads this`pages, this`root, this`levels
    {
      if |levels| == 0 then root else Last(Descend(pages, root, key, |levels| - 1))
    }

    /** `path` leads to the one leaf that can hold `key`: the leaves to its left
        end below it and those to its right start above it. */
    ghost predicate LeafFor(key: Value, path: seq<PageId>, left: seq<PageId>, right: seq<PageId>)
      reads this
    {
      && PathTo(pages, levels, path) && 1 <= |path| == |levels|
      && PageAt(pages, Last(path)).Leaf?
      && levels[0] == left + [Last(path)] + right
      && RightPage(info, levels[0], left, Last(path), right, key)
    }

    lemma BeginDescent(key: Value) returns (hole: PageId)
      requires Valid()
      ensures |levels| > 0 && PathTo(pages, levels, [root]) && Last([root]) == root
      ensures NodeOk(pages, info, hole, |levels| - 1, root) && (PageAt(pages, root).Leaf? || PageAt(pages, root).Inner?)
      ensures LevelsOk(pages, levels, info, hole, |levels|)
      ensures RightPage(info, levels[|levels| - 1], [], root, [], key)
      ensures |levels| > 1 ==> hole == NO_PAGE
    {
      hole := if count == 0 then root else NO_PAGE;
      StartAtRoot(pages, levels, info, hole, root, key);
    }

    /** `find_leaf`. A value that is no key of this index ends up in the last
        leaf. */
    method FindLeaf(key: Value) returns (path: seq<PageId>, ghost left: seq<PageId>, ghost right: seq<PageId>)
      requires Valid()
      ensures LeafFor(key, path, left, right)
      ensures path == Descend(pages, root, key, |levels| - 1) && Last(path) == LeafOf(key)
    {
      hide *;
      path, left, right := [root], [], [];
      NoDescent(pages, root, key);
      ghost var m, lv, inf := pages, levels, info;
      ghost var hole := BeginDescent(key);
      ghost var k: nat := |lv| - 1;
      var p := ReadNode(root).value;
      while !p.Leaf?
        invariant k < |lv| && |path| + k == |lv| && PathTo(m, lv, path)
        invariant p == PageAt(m, Last(path)) && NodeOk(m, inf, hole, k, Last(path))
        invariant RightPage(inf, lv[k], left, Last(path), right, key)
        invariant k > 0 ==> hole == NO_PAGE
        invariant path == Descend(m, root, key, |path| - 1)
        decreases k
      {
        InnerNode(m, inf, hole, k, Last(path));
        var child := ChildSlot(p.keys, key);
        StepDown(m, lv, inf, k, left, path, right, key, child);
        DescendFurther(m, root, key, |path|, child);
        left, right := Kids(m, left) + p.children[..child], p.children[child + 1..] + Kids(m, right);
        k := k - 1;
        path := path + [p.children[child]];
        p := ReadNode(p.children[child]).value;
      }
      Descended(key, hole, k, path, left, right);
      EndOfDescent(key, path);
    }

    lemma EndOfDescent(key: Value, path: seq<PageId>)
      requires 0 < |levels| == |path| && path == Descend(pages, root, key, |path| - 1)
      ensures Last(path) == LeafOf(key)
    {
    }

    lemma Descended(key: Value, hole: PageId, k: nat, path: seq<PageId>, left: seq<PageId>, right: seq<PageId>)
      requires k < |levels| && |path| + k == |levels| && PathTo(pages, levels, path)
      requires NodeOk(pages, info, hole, k, Last(path)) && PageAt(pages, Last(path)).Leaf?
      requires RightPage(info, levels[k], left, Last(path), right, key)
      ensures LeafFor(key, path, left, right)
    {
      LeafNode(pages, info, hole, k, levels[k], left, Last(path), right, key);
    }

    // ---- insertion: splitting upwards ----

    /** Node `id` exists in memory as `p`; with it in place the tree is sound, and
        `path` leads to it. */
    ghost predicate Pending(id: PageId, p: Page, hole: PageId, path: seq<PageId>)
      reads this
    {
      && id < |pages| && Tree(pages[id := p], hole)
      && PathTo(pages[id := p], levels, path) && Last(path) == id
      && (hole == NO_PAGE || hole == id)
    }

    lemma ParentOfPending(id: PageId, p: Page, hole: PageId, path: seq<PageId>)
      requires Pending(id, p, hole, path) && |path| > 1
      ensures |path| <= |levels|
      ensures var m, up := pages[id := p], path[..|path| - 1];
              var q := Last(up);
              && q < |pages| && q != id && PageAt(pages, q).Inner? && PageAt(m, q) == PageAt(pages, q)
              && id in PageAt(pages, q).children
              && PathTo(m, levels, up) && q in levels[HeightOf(levels, up)]
    {
      hide LevelOk, NoDup, Chained, Kids, Entries, InOrder, AllFit;
      var m, up := pages[id := p], path[..|path| - 1];
      PathPrefix(m, levels, path, |up|);
      ParentOnPath(m, levels, info, hole, path);
    }

    /** Neighbouring children a and b of a parent to which `path` leads, in a
        sound tree m. */
    ghost predicate PairAt(m: Pages, hole: PageId, a: PageId, b: PageId, parentId: PageId, i: nat, path: seq<PageId>)
      reads this`root, this`first, this`levels, this`info
    {
      && Tree(m, hole) && 0 < |m|
      && (hole == NO_PAGE || hole == a || hole == b)
      && PathTo(m, levels, path) && |path| < |levels| && Last(path) == parentId
      && i + 1 < |ChildrenOf(PageAt(m, parentId))|
      && ChildrenOf(PageAt(m, parentId))[i] == a && ChildrenOf(PageAt(m, parentId))[i + 1] == b
    }

    /** Of the pages of m, at most a and b differ from the pages on disk. */
    ghost predicate OnDisk(m: Pages, a: PageId, b: PageId)
      reads this`pages
    {
      |m| <= |pages| && forall id: PageId :: id < |m| && id != a && id != b ==> PageAt(pages, id) == PageAt(m, id)
    }

    lemma PairFacts(m: Pages, hole: PageId, a: PageId, b: PageId, parentId: PageId, i: nat, path: seq<PageId>)
      returns (k: nat, s: Site)
      requires PairAt(m, hole, a, b, parentId, i, path) && OnDisk(m, a, b)
      ensures |levels| == |path| + k + 1 && LevelsOk(m, levels, info, hole, |levels|) && Shaped(m, levels, info, hole)
      ensures a != b && a < |m| && b < |m| && parentId < |m| && a in levels[k] && b in levels[k]
      ensures NodeOk(m, info, hole, k, a) && NodeOk(m, info, hole, k, b)
      ensures PageAt(m, parentId).Inner? && PageAt(pages, parentId) == PageAt(m, parentId)
      ensures k == 0 ==> PageAt(m, a).Leaf? && PageAt(m, b).Leaf? && PageAt(m, a).next == b
      ensures k > 0 ==>
                PageAt(m, a).Inner? && PageAt(m, b).Inner? && PageAt(m, a).children != [] && PageAt(m, b).children != []
      ensures path != [] && Last(path) == parentId && a != NO_PAGE && b != NO_PAGE
      ensures At(m, levels, k, s) && s.parent == parentId && s.old' == [a, b]
      ensures i + 1 < |ChildrenOf(PageAt(m, parentId))|
      ensures ChildrenOf(PageAt(m, parentId))[i] == a && ChildrenOf(PageAt(m, parentId))[i + 1] == b
      ensures s.before == ChildrenOf(PageAt(m, parentId))[..i] && s.after == ChildrenOf(PageAt(m, parentId))[i + 2..]
      ensures LevelsOk(pages, levels, info, NO_PAGE, k) && 0 < |m| <= |pages| && forall id :: id in info ==> id < |m|
      ensures k > 0 ==> forall c :: c in ChildrenOf(PageAt(m, a)) + ChildrenOf(PageAt(m, b)) ==> c in levels[k - 1]
    {
      hide LevelOk, NoDup, Chained, Kids, Entries, InOrder, AllFit;
      k := |levels| - |path| - 1;
      Neighbours(m, levels, info, hole, k, parentId, i);
      LevelNode(m, levels, info, hole, |levels|, k + 1, parentId);
      s := PairSite(m, levels, info, hole, k, parentId, i);
      LowerOnDisk(m, levels, info, hole, k, a, b, pages);
      if k > 0 {
        PairChildren(m, levels, info, hole, k, a, b);
      }
    }

    /** The pages that now stand for the pair are on disk. */
    ghost predicate PairReplaced(m: Pages, a: PageId, b: PageId, new': seq<PageId>, path: seq<PageId>)
      reads this
    {
      && Takeover(info, a, b, new') && (forall id :: id in new' ==> id < |pages|)
      && if |path| + 1 == |levels| then SharedLeaves(m, a, b, pages, new') else SharedInners(m, info, a, b, pages, new')
    }

    /** A stretch of children of the parent `path` leads to has been replaced on
        disk by `new'`, and the parent is still to be rebuilt. */
    ghost predicate Replacing(m: Pages, hole: PageId, k: nat, s: Site, new': seq<PageId>, path: seq<PageId>)
      reads this
    {
      && Tree(m, hole) && At(m, levels, k, s) && (hole == NO_PAGE || hole in s.old')
      && PathTo(m, levels, path) && |path| + k + 1 == |levels| && Last(path) == s.parent && s.parent < |pages|
      && StandsFor(m, info, k, s.old', pages, Record(pages, info, k, new'), new')
      && InfoBounded(pages, Record(pages, info, k, new'))
      && SameBelow(m, pages, info, |levels|, Touched(s, new'))
    }

    /** Rebuild the separators of the parent. With the rebuilt parent in place the
        tree is sound again, except that the parent's own minimum may have
        changed. */
    method RebuildStretch(children: seq<PageId>, path: seq<PageId>,
                          ghost m: Pages, ghost hole: PageId, ghost k: nat, ghost s: Site, ghost new': seq<PageId>)
      returns (r: Result<seq<Value>>)
      requires Replacing(m, hole, k, s, new', path) && children == s.before + new' + s.after
      modifies this`levels, this`info
      ensures r.Throw? ==> r.fault.OfStorage()
      ensures r.Ok? && Pending(s.parent, Inner(r.value, children), s.parent, path)
      ensures old(FirstKept(info, Record(pages, info, k, new'), s, new')) ==>
                Pending(s.parent, Inner(r.value, children), NO_PAGE, path)
      ensures |levels| == old(|levels|)
      ensures LevelLists(old(levels), levels, k, new')
      ensures Flat(pages[s.parent := Inner(r.value, children)], levels) == old(Flat(m, levels))
    {
      hide LevelOk, LevelsOk, NodeOk, NoDup, Kids, Entries, StandsFor, SameBelow, PathTo, At, Shaped, Replacing,
           Record, InfoBounded, InOrder, AllFit, Flat, FirstKept, Spliced;
      ghost var lv, inf := ReplacedLevels(m, hole, k, s, new', path);
      var keys :- RebuildKeys(children, lv, inf, k);
      ReplacedTree(m, hole, k, s, new', path, keys);
      levels, info := lv, inf;
      return Ok(keys);
    }

    lemma ReplacedLevels(m: Pages, hole: PageId, k: nat, s: Site, new': seq<PageId>, path: seq<PageId>)
      returns (lv: Levels, inf: Infos)
      requires Replacing(m, hole, k, s, new', path)
      ensures k < |levels| && lv == Spliced(m, levels, k, s, new') && inf == Record(pages, info, k, new')
      ensures |lv| == |levels| && LevelsOk(pages, lv, inf, NO_PAGE, k + 1)
      ensures new' != [] && forall c :: c in s.before + new' + s.after ==> c in lv[k]
      ensures LevelLists(levels, lv, k, new')
      ensures path != [] && Last(path) == s.parent && s.parent < |pages|
    {
      hide LevelOk, NoDup, Kids, Entries, PathTo, InOrder, Record, NodeOk, Chained;
      lv, inf := Spliced(m, levels, k, s, new'), Record(pages, info, k, new');
      assert LevelsOk(m, levels, info, hole, k + 2);
      SameBelowLess(m, pages, info, |levels|, k, Touched(s, new'));
      ReplaceChildrenLow(m, levels, info, hole, k, s, new', pages, inf);
    }

    lemma ReplacedTree(m: Pages, hole: PageId, k: nat, s: Site, new': seq<PageId>, path: seq<PageId>, keys: seq<Value>)
      requires Replacing(m, hole, k, s, new', path)
      requires ExactKeys(Record(pages, info, k, new'), keys, s.before + new' + s.after)
      ensures var m' := pages[s.parent := Inner(keys, s.before + new' + s.after)];
              var lv, inf := Spliced(m, levels, k, s, new'), Record(pages, info, k, new');
              && Shaped(m', lv, inf, s.parent)
              && (FirstKept(info, inf, s, new') ==> Shaped(m', lv, inf, NO_PAGE))
              && Flat(m', lv) == Flat(m, levels)
              && PathTo(m', lv, path)
              && lv[|lv| - 1] == [root] && lv[0] != [] && lv[0][0] == first
              && InOrder(kind, Flat(m', lv))
    {
      hide LevelOk, NoDup, Kids, Entries, StandsFor, PathTo, InOrder, AllFit, At, SameBelow, NodeOk, Spliced,
           ParentRebuilt, FirstKept, Record, InfoBounded;
      var m' := pages[s.parent := Inner(keys, s.before + new' + s.after)];
      var inf := Record(pages, info, k, new');
      RebuiltOnDisk(m, levels, info, hole, k, s, new', pages, inf, m', keys);
      ReplaceOnPath(m, levels, info, hole, k, s, new', m', inf, path);
    }

    lemma ReplacedKind(m: Pages, a: PageId, b: PageId, new': seq<PageId>, path: seq<PageId>)
      requires PairReplaced(m, a, b, new', path)
      ensures if |path| + 1 == |levels| then PageAt(pages, a).Leaf? else PageAt(pages, a).Inner?
      ensures new' != [] && new'[0] == a
    {
      assert a in new';
    }

    lemma PairReplacing(m: Pages, hole: PageId, a: PageId, b: PageId, parentId: PageId, i: nat, path: seq<PageId>,
                        new': seq<PageId>) returns (k: nat, s: Site)
      requires PairAt(m, hole, a, b, parentId, i, path) && OnDisk(m, a, b) && PairReplaced(m, a, b, new', path)
      ensures Replacing(m, hole, k, s, new', path) && s.parent == parentId && s.old' == [a, b]
      ensures s.before + new' + s.after == WithPair(ChildrenOf(PageAt(m, parentId)), i, new')
      ensures i > 0 || (hole != a && SameStart(m, a, pages)) ==> FirstKept(info, Record(pages, info, k, new'), s, new')
    {
      hide LevelOk, NoDup, Kids, Entries, StandsFor, PathTo, InOrder, AllFit, SharedInners, SharedLeaves, At, SameBelow,
           NodeOk, Record, LevelsOk;
      k, s := PairFacts(m, hole, a, b, parentId, i, path);
      PairRewritten(m, levels, info, hole, k, s, a, b, pages, new');
      ReplacedKind(m, a, b, new', path);
      if i == 0 && hole != a && SameStart(m, a, pages) {
        NodeHoleless(m, info, hole, k, a);
        FirstMinKept(m, info, k, a, pages, new');
      }
    }

    /** The same for a pair of neighbours. */
    method RebuildParent(children: seq<PageId>, parentId: PageId, path: seq<PageId>, ghost m: Pages, ghost hole: PageId,
                         ghost a: PageId, ghost b: PageId, ghost i: nat, ghost new': seq<PageId>)
      returns (r: Result<seq<Value>>)
      requires PairAt(m, hole, a, b, parentId, i, path) && OnDisk(m, a, b) && PairReplaced(m, a, b, new', path)
      requires children == WithPair(ChildrenOf(PageAt(m, parentId)), i, new')
      modifies this`levels, this`info
      ensures r.Throw? ==> r.fault.OfStorage()
      ensures r.Ok? && Pending(parentId, Inner(r.value, children), parentId, path)
      ensures i > 0 || (hole != a && SameStart(m, a, pages)) ==> Pending(parentId, Inner(r.value, children), NO_PAGE, path)
      ensures |levels| == old(|levels|)
      ensures |path| < |levels| && LevelLists(old(levels), levels, |levels| - |path| - 1, new')
      ensures Flat(pages[parentId := Inner(r.value, children)], levels) == old(Flat(m, levels))
    {
      hide PairAt, OnDisk, PairReplaced, Replacing, Pending, FirstKept, Flat, WithPair, SameStart, Record, LevelLists;
      ghost var k, s := PairReplacing(m, hole, a, b, parentId, i, path, new');
      PairStretch(m, hole, k, s, new', path);
      r := RebuildStretch(children, path, m, hole, k, s, new');
    }

    /** The pairs a pending node forms with its neighbours. */
    lemma PairOfPending(id: PageId, p: Page, hole: PageId, path: seq<PageId>, i: nat)
      requires Pending(id, p, hole, path) && 1 < |path| <= |levels|
      requires var cs := ChildrenOf(PageAt(pages[id := p], path[|path| - 2]));
               i + 1 < |cs| && (cs[i] == id || cs[i + 1] == id)
      ensures var up := path[..|path| - 1];
              var cs := ChildrenOf(PageAt(pages[id := p], Last(up)));
              PairAt(pages[id := p], hole, cs[i], cs[i + 1], Last(up), i, up) && OnDisk(pages[id := p], cs[i], cs[i + 1])
              && cs[i] != cs[i + 1]
    {
      hide LevelOk, InOrder, AllFit, Flat;
      ParentOfPending(id, p, hole, path);
      Neighbours(pages[id := p], levels, info, hole, HeightOf(levels, path), path[|path| - 2], i);
    }

    /** Node `id` has been stored as p, with one separator too many. With p in its place
        the tree would be sound. */
    ghost predicate CutAt(m: Pages, id: PageId, p: Page)
      reads this`root, this`first, this`levels, this`info
    {
      && 0 < id < |m| && p.Inner? && |p.keys| == MAX_SEPARATORS + 1 && |p.children| == MAX_SEPARATORS + 2
      && PageAt(m, id) == Inner([], [p.children[0]])
      && Tree(m[id := p], NO_PAGE)
    }

    /** Nothing is missing from a tree with these entries but the separators and children
        of one node. */
    ghost predicate Healable(m: Pages, es: seq<Entry>)
      reads this`root, this`first, this`levels, this`info
    {
      exists id: PageId, p :: CutAt(m, id, p) && Flat(m[id := p], levels) == es
    }

    lemma SuperblockKeepsHealable(m: Pages, es: seq<Entry>)
      requires Healable(m, es) && 0 < |m| && pages == m[0 := Super(root, first, count)]
      ensures Healable(pages, es)
    {
      hide InOrder, LevelsOk;
      var id: PageId, p :| CutAt(m, id, p) && Flat(m[id := p], levels) == es;
      PageZeroIsFree(m[id := p], levels, info, NO_PAGE, Super(root, first, count));
      assert pages[id := p] == m[id := p][0 := Super(root, first, count)];
      assert CutAt(pages, id, p);
    }

    lemma PendingShape(id: PageId, keys: seq<Value>, children: seq<PageId>, hole: PageId, path: seq<PageId>)
      requires Pending(id, Inner(keys, children), hole, path) && |path| < |levels|
      ensures |children| == |keys| + 1
    {
      hide LevelOk, InOrder, Flat, NoDup, Kids, Chained;
      var m := pages[id := Inner(keys, children)];
      assert id in levels[|levels| - |path|];
      LevelNode(m, levels, info, hole, |levels|, |levels| - |path|, id);
    }

    lemma LongMinimum(m: Pages, hole: PageId, k: nat, id: PageId)
      requires Tree(m, hole) && AtLeastTen(Flat(m, levels)) && k < |levels| && id in levels[k]
               && HoleAbove(levels, hole, k)
      ensures EncodedSize(MinOf(info, id)) >= 10
    {
      hide InOrder, LevelsOk, HoleAbove, MinOf, EncodedSize, Flat;
      var i := MinimumIsKey(m, levels, info, hole, k, id);
    }

    /** Ten bytes and more per key leave no room for a separator too many. */
    lemma LongSeparators(id: PageId, keys: seq<Value>, children: seq<PageId>, hole: PageId, path: seq<PageId>)
      requires Pending(id, Inner(keys, children), hole, path) && |path| < |levels| && !InnerOverflow(keys, children)
      requires AtLeastTen(Flat(pages[id := Inner(keys, children)], levels))
      ensures Fits(Inner(keys, children))
    {
      hide InOrder, LevelOk, NoDup, Kids, Chained, AtLeastTen, InnerOverflow, EncodedSize;
      var m, k := pages[id := Inner(keys, children)], |levels| - |path|;
      assert id in levels[k];
      LevelNode(m, levels, info, hole, |levels|, k, id);
      forall j | 0 <= j < |keys|
        ensures EncodedSize(keys[j]) >= 10
      {
        assert children[j + 1] in children;
        ChildLevel(m, levels, info, hole, |levels|, k, id, children[j + 1]);
        LongMinimum(m, hole, k - 1, children[j + 1]);
      }
      TenByteSeparatorsAreCounted(keys, children);
    }

    lemma CutHeals(id: PageId, keys: seq<Value>, children: seq<PageId>, path: seq<PageId>, was: Pages)
      requires id < |was| && Tree(was[id := Inner(keys, children)], NO_PAGE)
      requires PathTo(was[id := Inner(keys, children)], levels, path) && Last(path) == id && |path| < |levels|
      requires MAX_SEPARATORS < |keys| && |children| <= MAX_SEPARATORS + 2
      requires pages == was[id := Reread(Inner(keys, children))]
      ensures Healable(pages, Flat(was[id := Inner(keys, children)], levels))
    {
      hide LevelOk, InOrder, Flat, NoDup, Kids, Chained;
      var p := Inner(keys, children);
      var m := was[id := p];
      assert id in levels[|levels| - |path|];
      LevelNode(m, levels, info, NO_PAGE, |levels|, |levels| - |path|, id);
      LevelKnown(m, levels, info, NO_PAGE, |levels|, |levels| - |path|);
      assert pages[id := p] == m;
      assert CutAt(pages, id, p);
    }

    /** Common end of every split: store the parent, or split it as well. */
    method StoreOrSplit(id: PageId, keys: seq<Value>, children: seq<PageId>, path: seq<PageId>) returns (r: Result<()>)
      requires Pending(id, Inner(keys, children), NO_PAGE, path) && |path| < |levels|
      requires AllFit() && |children| <= MAX_SEPARATORS + 2
      modifies this`pages, this`root, this`levels, this`info
      ensures r.Throw? ==> r.fault.OfStorage()
      ensures AllFit()
      ensures r.Ok? && old(Paired()) && |children| >= 2 ==> Paired()
      ensures r.Ok? ==> |levels| == old(|levels|)
      ensures r.Ok? ==> Tree(pages, NO_PAGE) && Items() == old(Flat(pages[id := Inner(keys, children)], levels))
      ensures AtLeastTen(old(Flat(pages[id := Inner(keys, children)], levels))) ==> !r.Cut?
      ensures r.Cut? ==> Healable(pages, old(Flat(pages[id := Inner(keys, children)], levels)))
      ensures Fits(Inner(keys, children)) ==> r.Ok? && pages == old(pages)[id := Inner(keys, children)] && root == old(root)
      ensures kind == IntType ==> !r.Throw?
      ensures !Fits(Inner(keys, children)) && !InnerOverflow(keys, children) ==>
                r.Cut? && pages == old(pages)[id := Reread(Inner(keys, children))] && root == old(root)
      ensures r.Ok? ==> |path| <= |old(levels)| && KeptBelow(old(pages), pages, old(levels), |old(levels)| - |path|, NO_PAGE)
      ensures r.Ok? && InnerOverflow(keys, children) ==>
                |path| > 1 && InnerRelieved(old(pages[id := Inner(keys, children)]), pages, id,
                                            old(ChildrenOf(PageAt(pages, path[|path| - 2]))))
      decreases |path|, 1
    {
      hide Paired, Shaped, InOrder, Flat, PathTo, KeptBelow, AboveLevels, SameContents, InnerRelieved;
      if kind == IntType {
        PendingInts(id, keys, children, NO_PAGE, path);
        IntInnerLimits(keys, children);
      }
      if !InnerOverflow(keys, children) {
        ghost var was := pages;
        if AtLeastTen(Flat(pages[id := Inner(keys, children)], levels)) {
          LongSeparators(id, keys, children, NO_PAGE, path);
        }
        PendingApart(id, keys, children, NO_PAGE, path);
        r := WritePage(id, Inner(keys, children));
        if r.Cut? {
          CutHeals(id, keys, children, path, was);
        }
        if r.Ok? {
          SameContentsItself(pages);
          KeptByOne(was, pages, levels, |levels| - |path|, id, Inner(keys, children));
        }
        return;
      }
      r := SplitInternal(id, keys, children, path);
    }

    method SplitInternal(id: PageId, keys: seq<Value>, children: seq<PageId>, path: seq<PageId>) returns (r: Result<()>)
      requires id < |pages| && Pending(id, Inner(keys, children), NO_PAGE, path) && |path| < |levels|
      requires InnerOverflow(keys, children) && |children| <= MAX_SEPARATORS + 2
      requires AllFit()
      modifies this`pages, this`root, this`levels, this`info
      ensures r.Throw? ==> r.fault.OfStorage()
      ensures AllFit()
      ensures r.Ok? && old(Paired()) ==> Paired()
      ensures r.Ok? ==> |levels| == old(|levels|)
      ensures r.Ok? ==> Tree(pages, NO_PAGE) && Items() == old(Flat(pages[id := Inner(keys, children)], levels))
      ensures AtLeastTen(old(Flat(pages[id := Inner(keys, children)], levels))) ==> !r.Cut?
      ensures r.Cut? ==> Healable(pages, old(Flat(pages[id := Inner(keys, children)], levels)))
      ensures |path| == 1 ==> r.Throw?
      ensures r.Ok? ==> |path| <= |old(levels)| && KeptBelow(old(pages), pages, old(levels), |old(levels)| - |path|, NO_PAGE)
      ensures r.Ok? ==> |path| > 1 && InnerRelieved(old(pages[id := Inner(keys, children)]), pages, id,
                                                    old(ChildrenOf(PageAt(pages, path[|path| - 2]))))
      decreases |path|, 0
    {
      hide KeptBelow, InnersThirded, Paired, AtLeastTen, Healable, Tree, Pending, PathTo, PairAt, InnerOverflow,
           Flat, Items;
      ghost var m := pages[id := Inner(keys, children)];
      if |path| > 1 {
        ParentOfPending(id, Inner(keys, children), NO_PAGE, path);
        PendingOverflow(id, keys, children, path);
        var up := path[..|path| - 1];
        var parentId := Last(up);
        var parent :- ReadInner(parentId);
        var i := IndexOf(parent.children, id);
        // Both try_redistribute_internal_with_* would only add a child to a
        // node that already overflows, and so answer false: GainingKeepsOverflow.
        if i + 1 < |parent.children| {
          PairOfPending(id, Inner(keys, children), NO_PAGE, path, i);
          var rightId := parent.children[i + 1];
          var right :- ReadInner(rightId);
          FewChildren(m, NO_PAGE, id, rightId, parentId, i, up, rightId);
          r := SplitInternalPair(id, children, rightId, right.children, parentId, parent, i, up, m);
          return;
        }
        if i > 0 {
          PairOfPending(id, Inner(keys, children), NO_PAGE, path, i - 1);
          var leftId := parent.children[i - 1];
          var left :- ReadInner(leftId);
          FewChildren(m, NO_PAGE, leftId, id, parentId, i - 1, up, leftId);
          r := SplitInternalPair(leftId, left.children, id, children, parentId, parent, i - 1, up, m);
          return;
        }
      }
      // The right half goes to a fresh page, but its separator is looked up on
      // that page before anything has been written there, so this branch throws.
      var rightId := AllocatePage();
      var unwritten := ReadNode(rightId);
      return Throw(unwritten.fault);
    }

    lemma PendingOverflow(id: PageId, keys: seq<Value>, children: seq<PageId>, path: seq<PageId>)
      requires Pending(id, Inner(keys, children), NO_PAGE, path) && |path| < |levels| && InnerOverflow(keys, children)
      ensures |children| >= 8
    {
      hide LevelOk, InOrder, AllFit, Flat;
      OverflowingInner(pages[id := Inner(keys, children)], levels, info, NO_PAGE, HeightOf(levels, path), id);
    }

    /** A node that has been read from disk has at most 256 children. */
    lemma FewChildren(m: Pages, hole: PageId, a: PageId, b: PageId, parentId: PageId, i: nat, path: seq<PageId>,
                      id: PageId)
      requires PairAt(m, hole, a, b, parentId, i, path) && OnDisk(m, a, b) && AllFit()
      requires id in [a, b, parentId] && PageAt(m, id) == PageAt(pages, id) && PageAt(m, id).Inner?
      ensures |PageAt(m, id).children| <= MAX_SEPARATORS + 1
    {
      hide LevelOk, LevelsOk, NoDup, InOrder, Kids, Chained;
      var k, s := PairFacts(m, hole, a, b, parentId, i, path);
      LevelNode(m, levels, info, hole, |levels|, k + 1, parentId);
      FittingKeys(id);
    }

    lemma FewInParent(m: Pages, hole: PageId, a: PageId, b: PageId, parentId: PageId, i: nat, path: seq<PageId>)
      requires PairAt(m, hole, a, b, parentId, i, path) && OnDisk(m, a, b) && AllFit()
      ensures |ChildrenOf(PageAt(m, parentId))| <= MAX_SEPARATORS + 1
    {
      hide PairAt, OnDisk, AllFit, PageAt;
      var k, s := PairFacts(m, hole, a, b, parentId, i, path);
      FewChildren(m, hole, a, b, parentId, i, path, parentId);
    }

    /** Share the children of two neighbours out over three nodes, the middle one
        on a fresh page. No share has more separators than a page can count. */
    method ShareInners(leftId: PageId, left: seq<PageId>, rightId: PageId, right: seq<PageId>,
                       ghost m: Pages, ghost parentId: PageId, ghost i: nat, ghost path: seq<PageId>)
      returns (r: Result<PageId>)
      requires PairAt(m, NO_PAGE, leftId, rightId, parentId, i, path) && OnDisk(m, leftId, rightId)
               && 2 <= |levels| - |path|
      requires left == ChildrenOf(PageAt(m, leftId)) && right == ChildrenOf(PageAt(m, rightId)) && |left| + |right| >= 6
      requires AllFit() && |left| <= MAX_SEPARATORS + 2 && |right| <= MAX_SEPARATORS + 2
      modifies this`pages
      ensures !r.Cut? && (r.Throw? ==> r.fault.OfStorage())
      ensures AllFit()
      ensures r.Ok? && old(Paired()) ==> Paired()
      ensures r.Ok? ==> PairReplaced(m, leftId, rightId, [leftId, r.value, rightId], path) && OnDisk(m, leftId, rightId)
      ensures r.Ok? ==> SameStart(m, leftId, pages)
      ensures r.Ok? ==>
                var (x, y, z), was := ThreeShares(left + right), old(pages);
                && leftId < |was| && rightId < |was| && r.value == |was|
                && SameContents((was + [Inner([], y)])[leftId := Inner([], x)][rightId := Inner([], z)], pages)
    {
      hide SameContents, Paired, LevelOk, NodeOk, LevelsOk, PathTo, InOrder, Kids, Entries, Flat, NoDup, Shaped,
           Takeover, SharedInners, Tree, InnerOverflow, Fits, Pending, PairAt, AllFit, ThreeShares, At, Items,
           PageAt, PairReplaced, SameStart, ExactKeys;
      ghost var k, s := PairFacts(m, NO_PAGE, leftId, rightId, parentId, i, path);
      var children := left + right;
      var (leftPart, middle, rightPart) := ThreeShares(children);
      SharesWithin(leftPart, middle, rightPart, levels[k - 1]);
      var leftKeys :- RebuildKeys(leftPart, levels, info, k - 1);
      var rightKeys :- RebuildKeys(rightPart, levels, info, k - 1);
      if InnerOverflow(leftKeys, leftPart) || InnerOverflow(rightKeys, rightPart) {
        return Throw(PageOverflow);
      }
      var middleKeys :- RebuildKeys(middle, levels, info, k - 1);
      var middleId := AllocatePage();
      ghost var fresh' := pages;
      var _ :- WritePage(leftId, Inner(leftKeys, leftPart));
      var _ :- WritePage(middleId, Inner(middleKeys, middle));
      var _ :- WritePage(rightId, Inner(rightKeys, rightPart));
      ThreeInnersWritten(m, fresh', leftId, leftPart, middleId, middle, rightId, rightPart, path);
      ThreeInnersFound(old(pages), leftId, leftKeys, leftPart, middleKeys, middle, rightId, rightKeys, rightPart);
      return Ok(middleId);
    }

    lemma ThreeInnersWritten(m: Pages, was: Pages, aId: PageId, a: seq<PageId>, middleId: PageId, middle: seq<PageId>,
                             bId: PageId, b: seq<PageId>, path: seq<PageId>)
      requires aId != bId && aId < |m| && bId < |m| <= middleId < |was| && |path| + 1 < |levels| && aId != NO_PAGE
      requires forall id :: id in info ==> id < |m|
      requires forall id: PageId :: id < |m| && id != aId && id != bId ==> PageAt(was, id) == PageAt(m, id)
      requires a != [] && middle != [] && b != [] && ChildrenOf(PageAt(m, aId)) != []
               && a[0] == ChildrenOf(PageAt(m, aId))[0]
      requires pages == was[aId := Inner(KeysFor(info, a), a)][middleId := Inner(KeysFor(info, middle), middle)]
                           [bId := Inner(KeysFor(info, b), b)]
      requires a + middle + b == ChildrenOf(PageAt(m, aId)) + ChildrenOf(PageAt(m, bId))
      ensures PairReplaced(m, aId, bId, [aId, middleId, bId], path) && OnDisk(m, aId, bId)
      ensures SameStart(m, aId, pages)
    {
      hide Entries, Kids, Takeover, SharedLeaves, SharedInners, ExactKeys;
      ThreeInners(m, info, aId, bId, middleId, pages);
    }

    method SplitInternalPair(leftId: PageId, left: seq<PageId>, rightId: PageId, right: seq<PageId>,
                             parentId: PageId, parent: Page, i: nat, path: seq<PageId>, ghost m: Pages)
      returns (r: Result<()>)
      requires PairAt(m, NO_PAGE, leftId, rightId, parentId, i, path) && OnDisk(m, leftId, rightId)
               && 2 <= |levels| - |path|
      requires parent == PageAt(m, parentId)
      requires left == ChildrenOf(PageAt(m, leftId)) && right == ChildrenOf(PageAt(m, rightId)) && |left| + |right| >= 6
      requires AllFit() && |left| <= MAX_SEPARATORS + 2 && |right| <= MAX_SEPARATORS + 2
      modifies this`pages, this`root, this`levels, this`info
      ensures r.Throw? ==> r.fault.OfStorage()
      ensures AllFit()
      ensures r.Ok? && old(Paired()) ==> Paired()
      ensures r.Ok? ==> |levels| == old(|levels|)
      ensures r.Ok? ==> Tree(pages, NO_PAGE) && Items() == old(Flat(m, levels))
      ensures AtLeastTen(old(Flat(m, levels))) ==> !r.Cut?
      ensures r.Cut? ==> Healable(pages, old(Flat(m, levels)))
      ensures r.Ok? ==>
                |path| < |old(levels)| && KeptBelow(old(pages), pages, old(levels), |old(levels)| - |path| - 1, NO_PAGE)
      ensures r.Ok? ==> InnersThirded(left + right, pages, leftId, |old(pages)|, rightId)
      decreases |path|, 2
    {
      hide KeptBelow, LevelLists, AboveLevels, ThreeShares, SameContents, InnerRelieved, Paired, AtLeastTen,
           Healable, LevelOk, NodeOk, LevelsOk, PathTo, NoDup, Shaped, Tree, Flat, Pending, PairAt, PairReplaced,
           OnDisk, AllFit, At, Items, PageAt, WithPair, SameStart;
      ghost var k, s := PairFacts(m, NO_PAGE, leftId, rightId, parentId, i, path);
      FewChildren(m, NO_PAGE, leftId, rightId, parentId, i, path, parentId);
      PairApart(m, NO_PAGE, leftId, rightId, parentId, i, path);
      FreshApart(m, NO_PAGE, leftId, rightId, parentId, i, path);
      ghost var lv := levels;
      var middleId :- ShareInners(leftId, left, rightId, right, m, parentId, i, path);
      ghost var thirds := pages;
      BetweenPair(parent.children, i, leftId, rightId, middleId);
      var children := parent.children[..i + 1] + [middleId] + parent.children[i + 1..];
      var keys :- RebuildParent(children, parentId, path, m, NO_PAGE, leftId, rightId, i, [leftId, middleId, rightId]);
      ghost var after := levels;
      r := StoreOrSplit(parentId, keys, children, path);
      if r.Ok? {
        var (x, y, z) := ThreeShares(left + right);
        KeptAfterThree(old(pages), thirds, pages, lv, after, k, leftId, x, y, rightId, z);
      }
    }

    /** A fresh page is on no level. */
    lemma FreshApart(m: Pages, hole: PageId, a: PageId, b: PageId, parentId: PageId, i: nat, path: seq<PageId>)
      requires PairAt(m, hole, a, b, parentId, i, path) && OnDisk(m, a, b)
      ensures AboveLevels(levels, |levels| - |path| - 1, |pages|) && |pages| != NO_PAGE && a < |pages| && b < |pages|
    {
      hide PairAt, OnDisk, LevelsOk, NodeOk, At, LevelOk;
      var k, s := PairFacts(m, hole, a, b, parentId, i, path);
      forall j: nat | j < k
        ensures |pages| !in levels[j]
      {
        LevelKnown(m, levels, info, hole, |levels|, j);
      }
    }

    // ---- insertion: leaves ----

    /** Move the last entry to the right neighbour, when both then fit. Its
        counterpart towards the left only adds to the overflowing leaf and so
        always answers false: GainingKeepsOverflow. */
    method TryGiveToRightLeaf(id: PageId, leaf: Page, parentId: PageId, parent: Page, i: nat, path: seq<PageId>,
                              ghost m: Pages)
      returns (r: Result<bool>)
      requires leaf.Leaf? && parent.Inner? && parent == PageAt(m, parentId) && leaf == PageAt(m, id)
      requires i == IndexOf(parent.children, id)
      requires i + 1 < |parent.children| ==>
                 var b := parent.children[i + 1];
                 PairAt(m, NO_PAGE, id, b, parentId, i, path) && OnDisk(m, id, b) && |levels| - |path| == 1
                 && PageAt(pages, b) == PageAt(m, b)
      requires AllFit()
      modifies this`pages, this`levels, this`info
      ensures r.Throw? ==> r.fault.OfStorage()
      ensures AllFit()
      ensures r.Ok? && old(Paired()) ==> Paired()
      ensures r.Ok? ==> |levels| == old(|levels|)
      ensures r == Ok(true) ==> Tree(pages, NO_PAGE) && Items() == old(Flat(m, levels))
      ensures !r.Cut?
      ensures r == Ok(false) ==> unchanged(this)
      ensures kind == IntType ==> r.Ok?
      ensures r.Ok? ==> (r.value <==> GivesRight(m, id, parent.children))
      ensures r == Ok(true) ==> LeafRelieved(m, pages, id, parent.children)
      ensures kind == IntType && |leaf.entries| == INTS_PER_LEAF + 1 && r.Ok? && i + 1 < |parent.children| ==>
                (r.value <==> |EntriesOf(PageAt(m, parent.children[i + 1]))| < INTS_PER_LEAF)
      ensures r == Ok(true) ==>
                && i + 1 < |parent.children| && leaf.entries != []
                && PairShared(pages, old(pages), id, |leaf.entries| - 1, parent.children[i + 1],
                              1 + |EntriesOf(PageAt(m, parent.children[i + 1]))|, parentId, parent.children)
    {
      hide Paired, LevelOk, NodeOk, LevelsOk, PathTo, NoDup, Shaped, Flat, PairAt, AllFit, At, LeafOverflow,
           InnerOverflow, WithPair, Takeover, SharedLeaves, PageAt, Entries, InOrder, PairShared, AllIntKeys,
           PairReplaced, SameStart, Tree, LeafRelieved, GivesRight, IndexOf, OnDisk, Fits, EncodedSize, AllInts,
           LeafBytes, Items;
      GivingDecides(m, id, parent.children, i);
      if i + 1 >= |parent.children| {
        return Ok(false);
      }
      var rightId := parent.children[i + 1];
      ghost var k, s := PairFacts(m, NO_PAGE, id, rightId, parentId, i, path);
      var right := ReadNode(rightId).value;
      var n := |leaf.entries|;
      if n == 0 {
        return Ok(false);
      }
      var kept, given := leaf.entries[..n - 1], [leaf.entries[n - 1]] + right.entries;
      LastMoves(leaf.entries, right.entries);
      if kind == IntType {
        PairInts(m, NO_PAGE, id, rightId, parentId, i, path);
        IntLeafLimits(kept);
        IntLeafLimits(given);
      }
      if kept == [] || LeafOverflow(given) || LeafOverflow(kept) {
        return Ok(false);
      }
      r := GiveRight(id, kept, rightId, given, right.next, parentId, parent, i, path, m);
    }

    method GiveRight(id: PageId, kept: seq<Entry>, rightId: PageId, given: seq<Entry>, last: PageId, parentId: PageId,
                     parent: Page, i: nat, path: seq<PageId>, ghost m: Pages)
      returns (r: Result<bool>)
      requires PairAt(m, NO_PAGE, id, rightId, parentId, i, path) && OnDisk(m, id, rightId) && |levels| - |path| == 1
      requires parent == PageAt(m, parentId) && parent.Inner? && kept != [] && given != []
      requires last == NextOf(PageAt(m, rightId)) && !LeafOverflow(kept) && !LeafOverflow(given) && AllFit()
      requires i == IndexOf(parent.children, id) && GivesRight(m, id, parent.children)
               && parent.children[i + 1] == rightId
      requires var x := EntriesOf(PageAt(m, id));
               kept == x[..|x| - 1] && given == [x[|x| - 1]] + EntriesOf(PageAt(m, rightId))
      modifies this`pages, this`levels, this`info
      ensures r.Throw? ==> r.fault.OfStorage()
      ensures AllFit()
      ensures r.Ok? && old(Paired()) ==> Paired()
      ensures r.Ok? ==> |levels| == old(|levels|)
      ensures r.Ok? ==> r.value && Tree(pages, NO_PAGE) && Items() == old(Flat(m, levels))
      ensures !r.Cut?
      ensures kind == IntType ==> r.Ok?
      ensures r.Ok? ==> LeafRelieved(m, pages, id, parent.children)
      ensures r.Ok? ==> PairShared(pages, old(pages), id, |kept|, rightId, |given|, parentId, parent.children)
    {
      hide Paired, LevelOk, NodeOk, LevelsOk, PathTo, NoDup, Shaped, Flat, PairAt, AllFit, At, LeafOverflow,
           InnerOverflow, WithPair, Takeover, SharedLeaves, PageAt, Entries, InOrder, PairShared, AllIntKeys,
           PairReplaced, SameStart, Tree, LeafRelieved, OnDisk, Fits, EncodedSize, AllInts, LeafBytes, Items;
      LastMoves(EntriesOf(PageAt(m, id)), EntriesOf(PageAt(m, rightId)));
      var _ :- RewritePair(id, kept, rightId, given, last, parentId, parent, i, path, m);
      RelievedByGiving(m, pages, id, parent.children, i);
      return Ok(true);
    }

    /** Store two leaves that fit and their parent with new separators. */
    method RewritePair(aId: PageId, a: seq<Entry>, bId: PageId, b: seq<Entry>, last: PageId, parentId: PageId,
                       parent: Page, i: nat, path: seq<PageId>, ghost m: Pages)
      returns (r: Result<()>)
      requires PairAt(m, NO_PAGE, aId, bId, parentId, i, path) && OnDisk(m, aId, bId) && |levels| - |path| == 1
      requires parent == PageAt(m, parentId) && parent.Inner? && a != [] && b != [] && last == NextOf(PageAt(m, bId))
      requires a + b == EntriesOf(PageAt(m, aId)) + EntriesOf(PageAt(m, bId))
      requires !LeafOverflow(a) && !LeafOverflow(b) && AllFit()
      modifies this`pages, this`levels, this`info
      ensures r.Throw? ==> r.fault.OfStorage()
      ensures AllFit()
      ensures r.Ok? && old(Paired()) ==> Paired()
      ensures r.Ok? ==> |levels| == old(|levels|)
      ensures r.Ok? ==> Tree(pages, NO_PAGE) && Items() == old(Flat(m, levels))
      ensures !r.Cut?
      ensures kind == IntType ==> r.Ok?
      ensures r.Ok? ==> PairShared(pages, old(pages), aId, |a|, bId, |b|, parentId, parent.children)
      ensures r.Ok? ==> EntriesOf(PageAt(pages, aId)) == a && EntriesOf(PageAt(pages, bId)) == b
    {
      hide Paired, LevelOk, NodeOk, LevelsOk, PathTo, NoDup, Shaped, Flat, PairAt, AllFit, At, LeafOverflow,
           InnerOverflow, WithPair, PageAt, Entries, InOrder, PairShared, AllIntKeys, PairReplaced, SameStart, Tree;
      ghost var k, s := PairFacts(m, NO_PAGE, aId, bId, parentId, i, path);
      PairInOrder(m, NO_PAGE, aId, bId, parentId, i, path);
      FewChildren(m, NO_PAGE, aId, bId, parentId, i, path, parentId);
      var _ :- WritePage(aId, Leaf(a, bId));
      var _ :- WritePage(bId, Leaf(b, last));
      TwoWritten(m, old(pages), aId, a, bId, b, last, path);
      SamePair(parent.children, i, aId, bId);
      var keys :- RebuildParent(parent.children, parentId, path, m, NO_PAGE, aId, bId, i, [aId, bId]);
      if kind == IntType {
        PendingInts(parentId, keys, parent.children, NO_PAGE, path);
        IntInnerLimits(keys, parent.children);
      }
      PendingShape(parentId, keys, parent.children, NO_PAGE, path);
      var _ :- WritePage(parentId, Inner(keys, parent.children));
      PairSharedFound(pages, old(pages), aId, a, bId, bId, b, last, parentId, parent.children, keys);
      return Ok(());
    }

    lemma TwoWritten(m: Pages, was: Pages, aId: PageId, a: seq<Entry>, bId: PageId, b: seq<Entry>, last: PageId,
                     path: seq<PageId>)
      requires aId != bId && aId < |m| && bId < |m| <= |was| && |path| + 1 == |levels| && aId != NO_PAGE
      requires forall id :: id in info ==> id < |m|
      requires forall id: PageId :: id < |m| && id != aId && id != bId ==> PageAt(was, id) == PageAt(m, id)
      requires pages == was[aId := Leaf(a, bId)][bId := Leaf(b, last)]
      requires a != [] && b != [] && last == NextOf(PageAt(m, bId))
      requires a + b == EntriesOf(PageAt(m, aId)) + EntriesOf(PageAt(m, bId))
      ensures PairReplaced(m, aId, bId, [aId, bId], path) && OnDisk(m, aId, bId)
      ensures EntriesOf(PageAt(m, aId)) != [] ==> SameStart(m, aId, pages)
    {
      hide Entries, Kids, Takeover, SharedLeaves, SharedInners;
      TwoLeaves(m, info, aId, bId, pages);
      if EntriesOf(PageAt(m, aId)) != [] {
        SameFirst(a, b, EntriesOf(PageAt(m, aId)), EntriesOf(PageAt(m, bId)));
      }
    }

    /** Two leaves into three. The entries of neighbours are in order already, so
        sorting them, as the code does, changes nothing. */
    method ShareLeaves(leftId: PageId, left: Page, rightId: PageId, right: Page,
                       ghost m: Pages, ghost parentId: PageId, ghost i: nat, ghost path: seq<PageId>)
      returns (r: Result<PageId>)
      requires PairAt(m, NO_PAGE, leftId, rightId, parentId, i, path) && OnDisk(m, leftId, rightId)
               && |levels| - |path| == 1
      requires left == PageAt(m, leftId) && right == PageAt(m, rightId) && left.Leaf? && right.Leaf?
      requires AllFit()
      modifies this`pages
      ensures !r.Cut? && (r.Throw? ==> r.fault.OfStorage())
      ensures AllFit()
      ensures r.Ok? && old(Paired()) ==> Paired()
      ensures r.Ok? ==> PairReplaced(m, leftId, rightId, [leftId, r.value, rightId], path) && OnDisk(m, leftId, rightId)
      ensures r.Ok? ==> SameStart(m, leftId, pages)
      ensures var (x, y, z) := ThreeShares(left.entries + right.entries);
              && (x != [] && y != [] && z != [] && !LeafOverflow(x) && !LeafOverflow(y) && !LeafOverflow(z) ==> r.Ok?)
              && (r.Ok? ==> ThreeOnDisk(pages, old(pages), leftId, x, r.value, y, rightId, z))
    {
      hide Paired, LevelOk, NodeOk, LevelsOk, PathTo, InOrder, Kids, Entries, Flat, NoDup, Shaped, Takeover,
           SharedLeaves, Tree, Fits, Pending, PairAt, AllFit, ThreeShares, At, Items, PageAt, ThreeOnDisk,
           LeafOverflow;
      ghost var k, s := PairFacts(m, NO_PAGE, leftId, rightId, parentId, i, path);
      PairInOrder(m, NO_PAGE, leftId, rightId, parentId, i, path);
      var items := SortByKey(left.entries + right.entries, kind);
      SortKeepsOrdered(kind, left.entries + right.entries, items);
      var (first, second, third) := ThreeShares(items);
      if first == [] || second == [] || third == [] {
        return Throw(Structure);
      }
      r := WriteThreeLeaves(leftId, first, second, rightId, third, right.next, m, NO_PAGE, parentId, i, path);
    }

    method WriteThreeLeaves(aId: PageId, a: seq<Entry>, middle: seq<Entry>, bId: PageId, b: seq<Entry>, last: PageId,
                            ghost m: Pages, ghost hole: PageId, ghost parentId: PageId, ghost i: nat, ghost path: seq<PageId>)
      returns (r: Result<PageId>)
      requires PairAt(m, hole, aId, bId, parentId, i, path) && OnDisk(m, aId, bId) && |levels| - |path| == 1
      requires a != [] && middle != [] && b != [] && last == NextOf(PageAt(m, bId))
      requires a + middle + b == EntriesOf(PageAt(m, aId)) + EntriesOf(PageAt(m, bId))
      requires AllFit()
      modifies this`pages
      ensures !r.Cut? && (r.Throw? ==> r.fault.OfStorage())
      ensures AllFit()
      ensures r.Ok? && old(Paired()) ==> Paired()
      ensures r.Ok? ==> PairReplaced(m, aId, bId, [aId, r.value, bId], path) && OnDisk(m, aId, bId)
      ensures r.Ok? && EntriesOf(PageAt(m, aId)) != [] ==> SameStart(m, aId, pages)
      ensures !LeafOverflow(a) && !LeafOverflow(middle) && !LeafOverflow(b) ==> r.Ok?
      ensures r.Ok? ==> ThreeOnDisk(pages, old(pages), aId, a, r.value, middle, bId, b)
    {
      hide Paired, LevelOk, NodeOk, LevelsOk, PathTo, InOrder, Kids, Entries, Flat, NoDup, Shaped, Takeover,
           SharedLeaves, Tree, LeafOverflow, Pending, PairAt, AllFit, At, Items, PageAt, PairReplaced, SameStart,
           ThreeOnDisk;
      ghost var k, s := PairFacts(m, hole, aId, bId, parentId, i, path);
      var middleId := AllocatePage();
      ghost var fresh' := pages;
      var _ :- WritePage(aId, Leaf(a, middleId));
      var _ :- WritePage(middleId, Leaf(middle, bId));
      var _ :- WritePage(bId, Leaf(b, last));
      ThreeWritten(m, fresh', aId, a, middleId, middle, bId, b, last, path);
      ThreeFound(pages, old(pages), aId, a, middleId, middle, bId, b, last);
      return Ok(middleId);
    }

    lemma ThreeWritten(m: Pages, was: Pages, aId: PageId, a: seq<Entry>, middleId: PageId, middle: seq<Entry>,
                       bId: PageId,
                       b: seq<Entry>, last: PageId, path: seq<PageId>)
      requires aId != bId && aId < |m| && bId < |m| <= middleId < |was| && |path| + 1 == |levels| && aId != NO_PAGE
      requires forall id :: id in info ==> id < |m|
      requires forall id: PageId :: id < |m| && id != aId && id != bId ==> PageAt(was, id) == PageAt(m, id)
      requires pages == was[aId := Leaf(a, middleId)][middleId := Leaf(middle, bId)][bId := Leaf(b, last)]
      requires a != [] && middle != [] && b != [] && last == NextOf(PageAt(m, bId))
      requires a + middle + b == EntriesOf(PageAt(m, aId)) + EntriesOf(PageAt(m, bId))
      ensures PairReplaced(m, aId, bId, [aId, middleId, bId], path) && OnDisk(m, aId, bId)
      ensures EntriesOf(PageAt(m, aId)) != [] ==> SameStart(m, aId, pages)
    {
      hide Entries, Kids, Takeover, SharedLeaves, SharedInners;
      ThreeLeaves(m, info, aId, bId, middleId, pages);
      if EntriesOf(PageAt(m, aId)) != [] {
        SameFirst(a, middle + b, EntriesOf(PageAt(m, aId)), EntriesOf(PageAt(m, bId)));
      }
    }

    lemma PairInOrder(m: Pages, hole: PageId, a: PageId, b: PageId, parentId: PageId, i: nat, path: seq<PageId>)
      requires PairAt(m, hole, a, b, parentId, i, path) && OnDisk(m, a, b) && |levels| - |path| == 1
      ensures InOrder(kind, EntriesOf(PageAt(m, a)) + EntriesOf(PageAt(m, b)))
      ensures hole != a ==> EntriesOf(PageAt(m, a)) != []
      ensures hole != b ==> EntriesOf(PageAt(m, b)) != []
      ensures SmallKeys(EntriesOf(PageAt(m, a))) && SmallKeys(EntriesOf(PageAt(m, b)))
      ensures forall e :: e in EntriesOf(PageAt(m, a)) + EntriesOf(PageAt(m, b)) ==> e.key.IsKey(kind)
    {
      hide LevelOk, LevelsOk, NoDup, InOrder;
      var k, s := PairFacts(m, hole, a, b, parentId, i, path);
      StretchInOrder(m, levels, info, hole, kind, s, a, b);
      KeysOfOrdered(kind, EntriesOf(PageAt(m, a)) + EntriesOf(PageAt(m, b)));
    }

    method SplitLeafPair(leftId: PageId, left: Page, rightId: PageId, right: Page,
                         parentId: PageId, parent: Page, i: nat, path: seq<PageId>, ghost m: Pages)
      returns (r: Result<()>)
      requires PairAt(m, NO_PAGE, leftId, rightId, parentId, i, path) && OnDisk(m, leftId, rightId)
               && |levels| - |path| == 1
      requires parent == PageAt(m, parentId)
      requires left == PageAt(m, leftId) && right == PageAt(m, rightId) && left.Leaf? && right.Leaf?
      requires AllFit()
      modifies this`pages, this`root, this`levels, this`info
      ensures r.Throw? ==> r.fault.OfStorage()
      ensures AllFit()
      ensures r.Ok? && old(Paired()) ==> Paired()
      ensures r.Ok? ==> |levels| == old(|levels|)
      ensures r.Ok? ==> Tree(pages, NO_PAGE) && Items() == old(Flat(m, levels))
      ensures AtLeastTen(old(Flat(m, levels))) ==> !r.Cut?
      ensures r.Cut? ==> Healable(pages, old(Flat(m, levels)))
      ensures kind == IntType && 3 <= |left.entries| + |right.entries| <= 2 * INTS_PER_LEAF + 1 && parent.Inner? ==>
                && (|parent.children| <= MAX_SEPARATORS ==> r.Ok? && root == old(root))
                && (|parent.children| <= MAX_SEPARATORS ==> PairSplit(pages, old(pages), leftId, rightId, parentId, parent.children, i,
                                                                      (|left.entries| + |right.entries|) / 3))
                && (|parent.children| == MAX_SEPARATORS + 1 ==>
                      r.Cut? && root == old(root) && PairCut(pages, old(pages), leftId, rightId, parentId, parent.children))
      ensures r.Ok? ==> LeavesThirded(left.entries + right.entries, pages, leftId, |old(pages)|, rightId)
    {
      hide LeavesThirded, KeptBelow, LevelLists, InnerRelieved, Paired, AtLeastTen, Healable, LevelOk, NodeOk,
           LevelsOk, PathTo, NoDup, Shaped, Tree, Flat, Pending, PairAt, PairReplaced, OnDisk, AllFit, At, Items,
           PageAt, WithPair, SameStart, ThreeOnDisk, LeafOverflow, ThreeShares, PairSplit, AllIntKeys, Fits,
           InnerOverflow;
      ghost var k, s := PairFacts(m, NO_PAGE, leftId, rightId, parentId, i, path);
      if kind == IntType && 3 <= |left.entries| + |right.entries| <= 2 * INTS_PER_LEAF + 1 {
        PairInts(m, NO_PAGE, leftId, rightId, parentId, i, path);
        IntSharesFit(left.entries + right.entries);
      }
      FewChildren(m, NO_PAGE, leftId, rightId, parentId, i, path, parentId);
      FreshApart(m, NO_PAGE, leftId, rightId, parentId, i, path);
      ghost var lv := levels;
      var middleId :- ShareLeaves(leftId, left, rightId, right, m, parentId, i, path);
      ghost var thirds := pages;
      BetweenPair(parent.children, i, leftId, rightId, middleId);
      var children := parent.children[..i + 1] + [middleId] + parent.children[i + 1..];
      var keys :- RebuildParent(children, parentId, path, m, NO_PAGE, leftId, rightId, i, [leftId, middleId, rightId]);
      if kind == IntType {
        PendingInts(parentId, keys, children, NO_PAGE, path);
        IntInnerLimits(keys, children);
      }
      ghost var after := levels;
      r := StoreOrSplit(parentId, keys, children, path);
      if r.Ok? {
        KeptThreeLeaves(old(pages), thirds, pages, lv, after, leftId, middleId, rightId, left.entries + right.entries);
      }
      if kind == IntType && 3 <= |left.entries| + |right.entries| <= 2 * INTS_PER_LEAF + 1 && |children| <= MAX_SEPARATORS + 1 {
        var (x, y, z) := ThreeShares(left.entries + right.entries);
        PairSplitFound(pages, old(pages), thirds, leftId, x, middleId, y, rightId, z, parentId, parent.children, i, keys,
                       (|left.entries| + |right.entries|) / 3);
      } else if kind == IntType && 3 <= |left.entries| + |right.entries| <= 2 * INTS_PER_LEAF + 1
                && |children| == MAX_SEPARATORS + 2 {
        var (x, y, z) := ThreeShares(left.entries + right.entries);
        PairCutFound(pages, old(pages), thirds, leftId, x, middleId, y, rightId, z, parentId, parent.children);
      }
    }

    lemma PairInts(m: Pages, hole: PageId, a: PageId, b: PageId, parentId: PageId, i: nat, path: seq<PageId>)
      requires PairAt(m, hole, a, b, parentId, i, path) && OnDisk(m, a, b) && |levels| - |path| == 1 && kind == IntType
      ensures AllInts(EntriesOf(PageAt(m, a)) + EntriesOf(PageAt(m, b)))
      ensures AllInts(EntriesOf(PageAt(m, a))) && AllInts(EntriesOf(PageAt(m, b)))
    {
      hide PairAt, OnDisk, InOrder;
      PairInOrder(m, hole, a, b, parentId, i, path);
      KeysOfOrdered(kind, EntriesOf(PageAt(m, a)) + EntriesOf(PageAt(m, b)));
      IntsOfBoth(EntriesOf(PageAt(m, a)), EntriesOf(PageAt(m, b)));
    }

    lemma IntsOfBoth(a: seq<Entry>, b: seq<Entry>)
      requires forall e :: e in a + b ==> e.key.IsKey(IntType)
      ensures AllInts(a + b) && AllInts(a) && AllInts(b)
    {
      var s := a + b;
      assert forall i :: 0 <= i < |s| ==> s[i] in s;
      assert forall i :: 0 <= i < |a| ==> a[i] == s[i];
      assert forall i :: 0 <= i < |b| ==> b[i] == s[|a| + i];
    }

    /** The separators of a pending node in an index of integers. */
    lemma PendingInts(id: PageId, keys: seq<Value>, children: seq<PageId>, hole: PageId, path: seq<PageId>)
      requires Pending(id, Inner(keys, children), hole, path) && |path| < |levels| && kind == IntType
      ensures AllIntKeys(keys) && |children| == |keys| + 1
    {
      hide LevelsOk, InOrder, Flat, AllIntKeys;
      var m := pages[id := Inner(keys, children)];
      assert id in levels[|levels| - |path|];
      IntSeparators(m, levels, info, hole, |levels| - |path|, id);
    }

    /** Leaf `leftId` of the sound tree m is divided: its two parts are in memory
        and the right one has a fresh page. */
    ghost predicate Divided(m: Pages, leftId: PageId, left: Page, rightId: PageId, right: Page, path: seq<PageId>)
      reads this
    {
      && Tree(m, NO_PAGE) && PathTo(m, levels, path) && 1 <= |path| == |levels| && Last(path) == leftId
      && leftId < |m| && rightId == |m| && |pages| == |m| + 1
      && (forall id: PageId :: id < |m| && id != leftId ==> PageAt(pages, id) == PageAt(m, id))
      && left.Leaf? && right.Leaf? && left.entries != [] && right.entries != []
      && PageAt(m, leftId).Leaf? && left.entries + right.entries == PageAt(m, leftId).entries
      && left.next == rightId && right.next == PageAt(m, leftId).next
    }

    /** The two parts are on disk. */
    ghost predicate DividedOnDisk(m: Pages, leftId: PageId, rightId: PageId, path: seq<PageId>)
      reads this
    {
      && rightId < |pages| && Divided(m, leftId, PageAt(pages, leftId), rightId, PageAt(pages, rightId), path)
    }

    lemma DividedStands(m: Pages, leftId: PageId, rightId: PageId, path: seq<PageId>)
      requires DividedOnDisk(m, leftId, rightId, path)
      ensures var inf := Record(pages, info, 0, [leftId, rightId]);
              && |levels| > 0 && Shaped(m, levels, info, NO_PAGE) && rightId != NO_PAGE && rightId !in info
              && StandsFor(m, info, 0, [leftId], pages, inf, [leftId, rightId])
              && InfoBounded(pages, inf)
              && MinOf(inf, leftId) == MinOf(info, leftId) && MinOf(inf, rightId) == PageAt(pages, rightId).entries[0].key
              && (forall id :: id in inf ==> id in info || id == rightId)
              && (forall changed :: leftId in changed ==> SameBelow(m, pages, info, |levels|, changed))
    {
      hide LevelOk, LevelsOk, InOrder;
      LeafDivided(m, levels, info, leftId, rightId, pages);
    }

    /** A root leaf that has been divided gets a root above it. */
    lemma RootDivided(m: Pages, leftId: PageId, rightId: PageId, path: seq<PageId>, top: PageId, m': Pages, sep: Value)
      returns (lv: Levels, inf: Infos)
      requires DividedOnDisk(m, leftId, rightId, path) && |path| == 1 && top == |pages|
      requires m' == pages + [Inner([sep], [leftId, rightId])] && sep == PageAt(pages, rightId).entries[0].key
      ensures Shaped(m', lv, inf, NO_PAGE) && Flat(m', lv) == Flat(m, levels)
      ensures |lv| == |levels| + 1 && lv[|lv| - 1] == [top] && lv[0] != [] && lv[0][0] == first
      ensures InOrder(kind, Flat(m', lv))
    {
      hide LevelOk, LevelsOk, InOrder, StandsFor, Record, SameBelow, Flat, Shaped;
      var inf0, new' := Record(pages, info, 0, [leftId, rightId]), [leftId, rightId];
      DividedStands(m, leftId, rightId, path);
      RootIsLeaf(m, leftId, path);
      assert SameBelow(m, pages, info, |levels|, [leftId] + new');
      lv := levels[0 := new'] + [[top]];
      inf := inf0[top := Info(|levels|, MinOf(inf0, leftId))];
      GrowRoot(m, levels, info, new', pages, inf0, top, m');
    }

    lemma RootIsLeaf(m: Pages, leftId: PageId, path: seq<PageId>)
      requires Tree(m, NO_PAGE) && PathTo(m, levels, path) && |path| == |levels| == 1 && Last(path) == leftId
      ensures levels[0] == [leftId]
    {
    }

    /** An only child that has been divided: the site of the change. */
    lemma LoneReplacing(m: Pages, leftId: PageId, rightId: PageId, path: seq<PageId>) returns (s: Site)
      requires DividedOnDisk(m, leftId, rightId, path) && |path| > 1
      requires ChildrenOf(PageAt(m, path[|path| - 2])) == [leftId]
      ensures var up := path[..|path| - 1];
              && Replacing(m, NO_PAGE, 0, s, [leftId, rightId], up) && s.parent == Last(up)
              && s.before + [leftId, rightId] + s.after == [leftId, rightId]
              && FirstKept(info, Record(pages, info, 0, [leftId, rightId]), s, [leftId, rightId])
              && ReadInner(s.parent) == Ok(PageAt(m, s.parent))
      ensures leftId != NO_PAGE && rightId != NO_PAGE
    {
      hide LevelOk, InOrder, StandsFor, Record, Flat, NoDup, SameBelow, LeafOk;
      DividedStands(m, leftId, rightId, path);
      LevelKnown(m, levels, info, NO_PAGE, |levels|, 0);
      ParentOnPath(m, levels, info, NO_PAGE, path);
      var up := path[..|path| - 1];
      PathPrefix(m, levels, path, |up|);
      s := LocateChildren(m, levels, 0, Last(up), 0, 1);
      assert s.old' == [leftId];
      assert leftId in Touched(s, [leftId, rightId]);
    }

    lemma Rooted(m: Pages)
      requires Shaped(m, levels, info, NO_PAGE) && levels[|levels| - 1] == [root]
      requires levels[0] != [] && levels[0][0] == first && InOrder(kind, Flat(m, levels))
      ensures Tree(m, NO_PAGE)
    {
      hide InOrder, LevelsOk;
    }

    /** `insert_into_parent`. */
    method InsertIntoParent(leftId: PageId, left: Page, separator: Value, rightId: PageId, right: Page, path: seq<PageId>,
                            ghost m: Pages)
      returns (r: Result<()>)
      requires Divided(m, leftId, left, rightId, right, path) && separator == right.entries[0].key
      requires |path| > 1 ==> ChildrenOf(PageAt(m, path[|path| - 2])) == [leftId]
      requires AllFit()
      modifies this`pages, this`root, this`levels, this`info
      ensures r.Throw? ==> r.fault.OfStorage()
      ensures AllFit()
      ensures r.Ok? && old(Paired()) ==> Paired()
      ensures r.Ok? ==> |levels| == if |path| == 1 then old(|levels|) + 1 else old(|levels|)
      ensures r.Ok? ==> Tree(pages, NO_PAGE) && Items() == old(Flat(m, levels))
      ensures AtLeastTen(old(Flat(m, levels))) ==> !r.Cut?
      ensures r.Cut? ==> Healable(pages, old(Flat(m, levels)))
      ensures kind == IntType && separator.Int? && !LeafOverflow(left.entries) && !LeafOverflow(right.entries) ==> r.Ok?
      ensures |path| == 1 || (|path| == 2 && old(|levels|) == 2 && kind == IntType) ==>
                !r.Cut? && (r.Ok? ==> DividedUnderRoot(leftId, left, rightId, right))
      ensures r.Ok? ==>
                EntriesOf(PageAt(pages, leftId)) == left.entries && EntriesOf(PageAt(pages, rightId)) == right.entries
    {
      hide KeptBelow, LevelLists, InnerRelieved, Paired, AtLeastTen, Healable, Tree, Pending, PathTo, Replacing,
           AllFit, Flat, Shaped, FirstKept, Record, PageAt, LeafOverflow, InnerOverflow, AllIntKeys;
      var _ :- WritePage(leftId, left);
      var _ :- WritePage(rightId, right);
      assert DividedOnDisk(m, leftId, rightId, path);
      if |path| == 1 {
        r := GrowNewRoot(leftId, separator, rightId, path, m);
        return;
      }
      ghost var s := LoneReplacing(m, leftId, rightId, path);
      ghost var lv := levels;
      var up := path[..|path| - 1];
      var parentId := Last(up);
      var parent :- ReadInner(parentId);
      var i := IndexOf(parent.children, leftId);
      var children := parent.children[..i + 1] + [rightId] + parent.children[i + 1..];
      assert children == [leftId, rightId];
      RootOfTree(m, path);
      var keys :- RebuildStretch(children, up, m, NO_PAGE, 0, s, [leftId, rightId]);
      if kind == IntType {
        PendingInts(parentId, keys, children, NO_PAGE, up);
        IntInnerLimits(keys, children);
      }
      ghost var was, after := pages, levels;
      r := StoreOrSplit(parentId, keys, children, up);
      if r.Ok? {
        KeptTwoLeaves(was, pages, lv, after, leftId, rightId);
      }
      if r.Ok? && parentId == root && pages == was[parentId := Inner(keys, children)] {
        StoredUnderRoot(was, keys, leftId, left, rightId, right);
      }
    }

    /** The part of `insert_into_parent` for a root: the two parts get a new root. */
    method GrowNewRoot(leftId: PageId, separator: Value, rightId: PageId, ghost path: seq<PageId>, ghost m: Pages)
      returns (r: Result<()>)
      requires DividedOnDisk(m, leftId, rightId, path) && |path| == 1 && AllFit()
      requires separator == PageAt(pages, rightId).entries[0].key
      modifies this`pages, this`root, this`levels, this`info
      ensures !r.Cut? && (r.Throw? ==> r.fault.OfStorage())
      ensures AllFit()
      ensures r.Ok? && old(Paired()) ==> Paired()
      ensures r.Ok? ==> |levels| == old(|levels|) + 1 && Tree(pages, NO_PAGE) && Items() == old(Flat(m, levels))
      ensures separator.Int? ==> r.Ok?
      ensures r.Ok? ==> DividedUnderRoot(leftId, old(PageAt(pages, leftId)), rightId, old(PageAt(pages, rightId)))
    {
      hide Paired, Tree, Flat, Shaped, InnerOverflow, AllFit;
      if separator.Int? {
        IntInnerLimits([separator], [leftId, rightId]);
      }
      ghost var grown := pages + [Inner([separator], [leftId, rightId])];
      ghost var lv, inf := RootDivided(m, leftId, rightId, path, |pages|, grown, separator);
      PagesLeft();
      var topId := AllocatePage();
      var _ :- WritePage(topId, Inner([separator], [leftId, rightId]));
      assert pages == grown;
      root, levels, info := topId, lv, inf;
      assert Tree(pages, NO_PAGE) by {
        Rooted(pages);
      }
      return Ok(());
    }

    lemma StoredUnderRoot(was: Pages, keys: seq<Value>, leftId: PageId, left: Page, rightId: PageId, right: Page)
      requires root < |was| && root != leftId && root != rightId && PageAt(was, leftId) == left
               && PageAt(was, rightId) == right
      requires pages == was[root := Inner(keys, [leftId, rightId])]
      ensures DividedUnderRoot(leftId, left, rightId, right)
    {
    }

    ghost predicate DividedUnderRoot(leftId: PageId, left: Page, rightId: PageId, right: Page)
      reads this`pages, this`root
    {
      && PageAt(pages, root).Inner? && PageAt(pages, root).children == [leftId, rightId]
      && PageAt(pages, leftId) == left && PageAt(pages, rightId) == right
    }

    /** Only the root can stand in the way of a split: integers and at most two
        levels. */
    ghost predicate Easy(m: Pages, least: nat)
      reads this`root
    {
      kind == IntType && Comfortable(m, root, least)
    }

    lemma EasyPath(id: PageId, leaf: Page, path: seq<PageId>, least: nat)
      requires leaf.Leaf? && Pending(id, leaf, NO_PAGE, path) && 1 <= |path| == |levels| && Easy(pages[id := leaf], least)
      ensures |path| <= 2 && AllInts(leaf.entries) && Comfortable(pages[id := leaf], root, least) && kind == IntType
      ensures |path| == 2 ==>
                && |levels[0]| <= MAX_SEPARATORS + 1 && NoDup(levels[0]) && path[0] == root && root != id
                && PageAt(pages, root).Inner? && PageAt(pages[id := leaf], root) == PageAt(pages, root)
                && levels[0] == PageAt(pages, root).children
                && forall c :: c in levels[0] ==> c < |pages|
      ensures forall x: PageId :: x != id ==> PageAt(pages[id := leaf], x) == PageAt(pages, x)
    {
      hide LevelOk, InOrder, Flat, NoDup, Kids;
      var m := pages[id := leaf];
      TwoLevels(m, levels, info, NO_PAGE, root, [], least);
      LeafInts(m, levels, id);
      LevelKnown(m, levels, info, NO_PAGE, |levels|, 0);
      if |path| == 2 {
        RootOfPath(m, path);
        assert PageAt(m, root).Inner?;
      }
    }

    lemma EasySibling(m: Pages, c: PageId, least: nat)
      requires Easy(m, least) && PageAt(m, root).Inner? && c in PageAt(m, root).children
      ensures PageAt(m, c).Leaf? && |EntriesOf(PageAt(m, c))| >= least
    {
    }

    lemma EasySize(id: PageId, leaf: Page, c: PageId)
      requires leaf.Leaf? && id < |pages| && Tree(pages[id := leaf], NO_PAGE) && kind == IntType && AllFit()
      requires c in levels[0] && c != id && PageAt(pages, c).Leaf?
      ensures |EntriesOf(PageAt(pages, c))| <= INTS_PER_LEAF && PageAt(pages[id := leaf], c) == PageAt(pages, c)
    {
      hide LevelOk, InOrder, Flat, NoDup, Kids;
      FullLeaf(pages[id := leaf], levels, c);
    }

    /** `split_leaf`: pass an entry to the right neighbour, or make three leaves of
        two, or divide a leaf that has no neighbour. */
    method SplitLeaf(id: PageId, leaf: Page, path: seq<PageId>, ghost least: nat) returns (r: Result<()>)
      requires id < |pages| && leaf.Leaf? && Pending(id, leaf, NO_PAGE, path) && 1 <= |path| == |levels|
      requires LeafOverflow(leaf.entries) && AllFit() && least <= MIN_INTS
      modifies this`pages, this`root, this`levels, this`info
      ensures r.Throw? ==> r.fault.OfStorage()
      ensures AllFit()
      ensures r.Ok? && old(Paired()) ==> Paired()
      ensures r.Ok? ==> |levels| == old(|levels|) || (old(|levels|) == 1 && |levels| == 2)
      ensures r.Ok? ==> Tree(pages, NO_PAGE) && Items() == old(Flat(pages[id := leaf], levels))
      ensures AtLeastTen(old(Flat(pages[id := leaf], levels))) ==> !r.Cut?
      ensures r.Cut? ==> Healable(pages, old(Flat(pages[id := leaf], levels)))
      ensures |path| == 1 && r.Ok? ==>
                var n := |leaf.entries| / 2;
                DividedUnderRoot(id, Leaf(leaf.entries[..n], |old(pages)|), |old(pages)|, Leaf(leaf.entries[n..], leaf.next))
      ensures kind == IntType && |leaf.entries| == INTS_PER_LEAF + 1 ==>
                !r.Throw? && (r.Cut? <==> |path| > 1 && old(NoRoomBeside(pages[id := leaf], path[|path| - 2], id)))
      ensures old(Easy(pages[id := leaf], least)) && |leaf.entries| == INTS_PER_LEAF + 1 ==>
                && (r.Ok? ==> Comfortable(pages, root, least))
                && (r.Cut? ==> root == old(root) && RootCut(pages, root, old(FirstChild(PageAt(pages, root)))))
      ensures |path| > 1 && r.Ok? ==>
                LeafRelieved(old(pages[id := leaf]), pages, id,
                             old(ChildrenOf(PageAt(pages[id := leaf], path[|path| - 2]))))
    {
      hide LeafRelieved, Paired, AtLeastTen, Healable, Tree, PathTo, PairAt, LeafOverflow, Flat, Items, AllFit, OnDisk,
           ComfortableBut, PageAt, Easy, Pending, RootCut;
      ghost var m := pages[id := leaf];
      ghost var easy, was := Easy(m, least) && |leaf.entries| == INTS_PER_LEAF + 1, pages;
      OneInMemory(id, leaf, path);
      PendingLeafOverflow(id, leaf, path);
      if |path| > 1 {
        var done :- SplitBesideNeighbour(id, leaf, path, least);
        if done {
          return Ok(());
        }
      }
      if easy {
        EasyPath(id, leaf, path, least);
      }
      if kind == IntType {
        PendingLeafInts(id, leaf, NO_PAGE, path);
      }
      var rightId := AllocatePage();
      var n := |leaf.entries| / 2;
      var left, right := Leaf(leaf.entries[..n], rightId), Leaf(leaf.entries[n..], leaf.next);
      if right.entries == [] {
        return Throw(Structure);
      }
      NowDivided(m, was, id, left, rightId, right, path);
      if kind == IntType {
        IntLeafLimits(left.entries);
        IntLeafLimits(right.entries);
      }
      r := InsertIntoParent(id, left, right.entries[0].key, rightId, right, path, m);
      if |path| > 1 && r.Ok? {
        RelievedByHalves(m, pages, id, ChildrenOf(PageAt(m, path[|path| - 2])));
      }
      if easy {
        HalvesAreComfortable(pages, root, id, left, rightId, right, least);
      }
    }

    lemma RoomDecides(m: Pages, parentId: PageId, id: PageId)
      requires PageAt(m, parentId).Inner?
      ensures var cs := PageAt(m, parentId).children;
              var i := IndexOf(cs, id);
              NoRoomBeside(m, parentId, id) <==>
                |cs| > MAX_SEPARATORS && (i + 1 < |cs| ==> |EntriesOf(PageAt(m, cs[i + 1]))| >= INTS_PER_LEAF)
    {
    }

    lemma EasyNeighbour(id: PageId, leaf: Page, path: seq<PageId>, c: PageId, least: nat)
      requires id < |pages| && leaf.Leaf? && Pending(id, leaf, NO_PAGE, path) && |path| == |levels| == 2
      requires Easy(pages[id := leaf], least)
      requires |leaf.entries| == INTS_PER_LEAF + 1 && AllFit()
      requires c != id && PageAt(pages, root).Inner? && c in PageAt(pages, root).children
      ensures EasyPair(pages[id := leaf], id, leaf, c, root, least)
      ensures |EntriesOf(PageAt(pages[id := leaf], c))| >= least
    {
      hide Tree, PathTo, AllFit, ComfortableBut, Pending, Easy, PageAt;
      OneInMemory(id, leaf, path);
      EasyPath(id, leaf, path, least);
      EasyFacts(pages[id := leaf], least);
      EasySibling(pages[id := leaf], c, least);
      EasySize(id, leaf, c);
    }

    /** The part of `split_leaf` for a leaf with a parent; false when it is an only
        child. */
    method SplitBesideNeighbour(id: PageId, leaf: Page, path: seq<PageId>, ghost least: nat) returns (r: Result<bool>)
      requires id < |pages| && leaf.Leaf? && Pending(id, leaf, NO_PAGE, path) && 1 < |path| == |levels|
      requires LeafOverflow(leaf.entries) && AllFit() && least <= MIN_INTS
      modifies this`pages, this`root, this`levels, this`info
      ensures r.Throw? ==> r.fault.OfStorage()
      ensures AllFit()
      ensures r.Ok? && old(Paired()) ==> Paired()
      ensures r.Ok? ==> |levels| == old(|levels|)
      ensures r == Ok(true) ==> Tree(pages, NO_PAGE) && Items() == old(Flat(pages[id := leaf], levels))
      ensures AtLeastTen(old(Flat(pages[id := leaf], levels))) ==> !r.Cut?
      ensures r.Cut? ==> Healable(pages, old(Flat(pages[id := leaf], levels)))
      ensures r == Ok(false) ==> unchanged(this) && ChildrenOf(PageAt(pages[id := leaf], path[|path| - 2])) == [id]
      ensures kind == IntType && |leaf.entries| == INTS_PER_LEAF + 1 ==>
                !r.Throw? && (r.Cut? <==> old(NoRoomBeside(pages[id := leaf], path[|path| - 2], id)))
      ensures old(Easy(pages[id := leaf], least)) && |leaf.entries| == INTS_PER_LEAF + 1 ==>
                && (r == Ok(true) ==> Comfortable(pages, root, least))
                && (r.Cut? ==> root == old(root) && RootCut(pages, root, old(FirstChild(PageAt(pages, root)))))
      ensures r == Ok(true) ==>
                LeafRelieved(old(pages[id := leaf]), pages, id,
                             old(ChildrenOf(PageAt(pages[id := leaf], path[|path| - 2]))))
    {
      hide LeafRelieved, GivesRight, Paired, AtLeastTen, Healable, RootCut, Tree, PathTo, PairAt, LeafOverflow, Flat,
           Items, AllFit, OnDisk, ComfortableBut, PairSplit, PairShared, PageAt, Easy, EasyPair, Pending, AllInts,
           EncodedSize, Fits, NoRoomBeside, NoDup, InOrder, LevelsOk, FirstChild, IndexOf, EntriesOf;
      ghost var m := pages[id := leaf];
      OneInMemory(id, leaf, path);
      ghost var easy, was := Easy(m, least) && |leaf.entries| == INTS_PER_LEAF + 1, pages;
      if easy {
        EasyPath(id, leaf, path, least);
      }
      ParentOfPending(id, leaf, NO_PAGE, path);
      var up := path[..|path| - 1];
      var parentId := Last(up);
      RoomDecides(m, parentId, id);
      var parent :- ReadInner(parentId);
      var i := IndexOf(parent.children, id);
      if i + 1 < |parent.children| {
        PairOfPending(id, leaf, NO_PAGE, path, i);
        if easy {
          EasyNeighbour(id, leaf, path, parent.children[i + 1], least);
        }
      }
      var given :- TryGiveToRightLeaf(id, leaf, parentId, parent, i, up, m);
      if given {
        if easy {
          SharingStaysComfortable(pages, was, m, root, [], id, |leaf.entries| - 1, parent.children[i + 1],
                                  1 + |EntriesOf(PageAt(m, parent.children[i + 1]))|, least);
        }
        return Ok(true);
      }
      r := SplitPairAround(id, leaf, path, least);
    }

    /** The pair to split is the leaf with its right neighbour, or with its left one
        when it is the last child. */
    method SplitPairAround(id: PageId, leaf: Page, path: seq<PageId>, ghost least: nat) returns (r: Result<bool>)
      requires id < |pages| && leaf.Leaf? && Pending(id, leaf, NO_PAGE, path) && 1 < |path| == |levels| && AllFit()
      requires least <= MIN_INTS
      modifies this`pages, this`root, this`levels, this`info
      ensures r.Throw? ==> r.fault.OfStorage()
      ensures AllFit()
      ensures r.Ok? && old(Paired()) ==> Paired()
      ensures r.Ok? ==> |levels| == old(|levels|)
      ensures r == Ok(true) ==> Tree(pages, NO_PAGE) && Items() == old(Flat(pages[id := leaf], levels))
      ensures AtLeastTen(old(Flat(pages[id := leaf], levels))) ==> !r.Cut?
      ensures r.Cut? ==> Healable(pages, old(Flat(pages[id := leaf], levels)))
      ensures r == Ok(false) ==> unchanged(this) && ChildrenOf(PageAt(pages[id := leaf], path[|path| - 2])) == [id]
      ensures kind == IntType && |leaf.entries| == INTS_PER_LEAF + 1 ==>
                !r.Throw? && (r.Cut? <==> |ChildrenOf(PageAt(old(pages), path[|path| - 2]))| > MAX_SEPARATORS)
      ensures old(Easy(pages[id := leaf], least)) && |leaf.entries| == INTS_PER_LEAF + 1 ==>
                && (r == Ok(true) ==> Comfortable(pages, root, least))
                && (r.Cut? ==> root == old(root) && RootCut(pages, root, old(FirstChild(PageAt(pages, root)))))
      ensures r == Ok(true)
              && !old(GivesRight(pages[id := leaf], id, ChildrenOf(PageAt(pages[id := leaf], path[|path| - 2])))) ==>
                LeafRelieved(old(pages[id := leaf]), pages, id,
                             old(ChildrenOf(PageAt(pages[id := leaf], path[|path| - 2]))))
    {
      hide LeavesThirded, GivesRight, Paired, AtLeastTen, Healable, RootCut, Tree, PathTo, PairAt, LeafOverflow,
           Flat, Items, AllFit, OnDisk, ComfortableBut, PageAt, Easy, EasyPair, Pending, AllInts, EncodedSize, Fits,
           EntriesOf, NoDup, InOrder;
      ghost var m := pages[id := leaf];
      OneInMemory(id, leaf, path);
      ghost var easy := Easy(m, least) && |leaf.entries| == INTS_PER_LEAF + 1;
      if easy {
        EasyPath(id, leaf, path, least);
      }
      ParentOfPending(id, leaf, NO_PAGE, path);
      var up := path[..|path| - 1];
      var parentId := Last(up);
      var parent :- ReadInner(parentId);
      var i := IndexOf(parent.children, id);
      if i + 1 < |parent.children| {
        PairOfPending(id, leaf, NO_PAGE, path, i);
        if easy {
          EasyNeighbour(id, leaf, path, parent.children[i + 1], least);
        }
        var _ :- SplitWith(id, parent.children[i + 1], id, leaf, parentId, parent, i, up, m, least);
        return Ok(true);
      }
      if i > 0 {
        PairOfPending(id, leaf, NO_PAGE, path, i - 1);
        if easy {
          EasyNeighbour(id, leaf, path, parent.children[i - 1], least);
        }
        var _ :- SplitWith(parent.children[i - 1], id, id, leaf, parentId, parent, i - 1, up, m, least);
        return Ok(true);
      }
      assert parent.children == [id];
      return Ok(false);
    }

    /** Read the neighbour of a leaf in memory and make three leaves of the pair. */
    method SplitWith(leftId: PageId, rightId: PageId, id: PageId, leaf: Page, parentId: PageId, parent: Page, i: nat,
                     path: seq<PageId>, ghost m: Pages, ghost least: nat)
      returns (r: Result<()>)
      requires id < |pages| && m == pages[id := leaf] && leaf.Leaf? && (leftId == id || rightId == id)
               && leftId != rightId
      requires PairAt(m, NO_PAGE, leftId, rightId, parentId, i, path) && OnDisk(m, leftId, rightId)
               && |levels| - |path| == 1
      requires parent == PageAt(m, parentId) && parent.Inner? && AllFit() && least <= MIN_INTS
      modifies this`pages, this`root, this`levels, this`info
      ensures r.Throw? ==> r.fault.OfStorage()
      ensures AllFit()
      ensures r.Ok? && old(Paired()) ==> Paired()
      ensures r.Ok? ==> |levels| == old(|levels|)
      ensures r.Ok? ==> Tree(pages, NO_PAGE) && Items() == old(Flat(m, levels))
      ensures AtLeastTen(old(Flat(m, levels))) ==> !r.Cut?
      ensures r.Cut? ==> Healable(pages, old(Flat(m, levels)))
      ensures kind == IntType && |leaf.entries| == INTS_PER_LEAF + 1 ==>
                !r.Throw? && (r.Cut? <==> |parent.children| > MAX_SEPARATORS)
      ensures old(EasyPair(m, id, leaf, if leftId == id then rightId else leftId, parentId, least)) ==>
                && (r.Ok? ==> Comfortable(pages, root, least))
                && (r.Cut? ==> root == old(root) && RootCut(pages, root, FirstChild(parent)))
      ensures r.Ok? ==>
                LeavesThirded(EntriesOf(PageAt(m, leftId)) + EntriesOf(PageAt(m, rightId)), pages, leftId, |m|, rightId)
    {
      hide LeavesThirded, Paired, AtLeastTen, Healable, Tree, PathTo, PairAt, LeafOverflow, Flat, Items, AllFit, OnDisk,
           ComfortableBut, PairSplit, PageAt, Easy, PairCut, RootCut;
      ghost var was := pages;
      OnePageAway(id, leaf);
      ghost var k, s := PairFacts(m, NO_PAGE, leftId, rightId, parentId, i, path);
      var left, right := leaf, leaf;
      if leftId == id {
        right :- ReadLeaf(rightId);
      } else {
        left :- ReadLeaf(leftId);
      }
      FewChildren(m, NO_PAGE, leftId, rightId, parentId, i, path, parentId);
      if kind == IntType {
        PairInts(m, NO_PAGE, leftId, rightId, parentId, i, path);
        PairInOrder(m, NO_PAGE, leftId, rightId, parentId, i, path);
        StoredLeaf(leftId);
        StoredLeaf(rightId);
        IntLeafLimits(left.entries);
        IntLeafLimits(right.entries);
      }
      ghost var easy := EasyPair(m, id, leaf, if leftId == id then rightId else leftId, parentId, least);
      if easy {
        EasyFacts(m, least);
      }
      r := SplitLeafPair(leftId, left, rightId, right, parentId, parent, i, path, m);
      if easy && r.Ok? {
        SplitStaysComfortable(pages, was, m, root, [], leftId, rightId, i, (|left.entries| + |right.entries|) / 3, least);
      }
      if easy && r.Cut? {
        SplitCuts(pages, was, m, root, [], leftId, rightId, least);
      }
    }

    lemma StoredLeaf(id: PageId)
      requires AllFit()
      ensures PageAt(pages, id).Leaf? ==> !LeafOverflow(PageAt(pages, id).entries)
    {
    }

    /** A full leaf and a neighbour under an easy root. */
    ghost predicate EasyPair(m: Pages, id: PageId, leaf: Page, other: PageId, parentId: PageId, least: nat)
      reads this`root
    {
      && Easy(m, least) && parentId == root && PageAt(m, root).Inner? && leaf.Leaf? && |leaf.entries| == INTS_PER_LEAF + 1
      && PageAt(m, other).Leaf? && least <= |PageAt(m, other).entries| <= INTS_PER_LEAF
      && forall c :: c in PageAt(m, root).children ==> c < |m|
    }

    lemma EasyFacts(m: Pages, least: nat)
      requires Easy(m, least)
      ensures kind == IntType && Comfortable(m, root, least) && |ChildrenOf(PageAt(m, root))| <= MAX_SEPARATORS + 1
    {
    }

    lemma OnePageAway(id: PageId, leaf: Page)
      requires id < |pages|
      ensures PageAt(pages[id := leaf], id) == leaf
      ensures forall x: PageId :: x != id ==> PageAt(pages[id := leaf], x) == PageAt(pages, x)
    {
    }

    lemma OneInMemory(id: PageId, leaf: Page, path: seq<PageId>)
      requires id < |pages| && Pending(id, leaf, NO_PAGE, path)
      ensures PageAt(pages[id := leaf], id) == leaf && Tree(pages[id := leaf], NO_PAGE) && Last(path) == id
      ensures PathTo(pages[id := leaf], levels, path)
      ensures forall x: PageId :: x != id ==> PageAt(pages[id := leaf], x) == PageAt(pages, x)
    {
    }

    lemma NowDivided(m: Pages, was: Pages, id: PageId, left: Page, rightId: PageId, right: Page, path: seq<PageId>)
      requires Tree(m, NO_PAGE) && PathTo(m, levels, path) && 1 <= |path| == |levels| && Last(path) == id
      requires id < |m| == rightId && pages == was + [Raw] && |was| == |m|
      requires forall x: PageId :: x != id ==> PageAt(was, x) == PageAt(m, x)
      requires left.Leaf? && right.Leaf? && left.entries != [] && right.entries != []
      requires PageAt(m, id).Leaf? && left.entries + right.entries == PageAt(m, id).entries
      requires left.next == rightId && right.next == PageAt(m, id).next
      ensures Divided(m, id, left, rightId, right, path)
    {
      hide Tree, PathTo;
    }

    lemma PendingLeafInts(id: PageId, leaf: Page, hole: PageId, path: seq<PageId>)
      requires leaf.Leaf? && Pending(id, leaf, hole, path) && 1 <= |path| == |levels| && kind == IntType
      ensures AllInts(leaf.entries) && (LeafOverflow(leaf.entries) <==> |leaf.entries| > INTS_PER_LEAF)
    {
      hide LevelsOk, InOrder, Flat, LeafOverflow;
      LeafInts(pages[id := leaf], levels, id);
      IntLeafLimits(leaf.entries);
    }

    lemma PendingLeafOverflow(id: PageId, leaf: Page, path: seq<PageId>)
      requires leaf.Leaf? && Pending(id, leaf, NO_PAGE, path) && 1 <= |path| == |levels| && LeafOverflow(leaf.entries)
      ensures |leaf.entries| >= 8
    {
      hide LevelOk, LevelsOk, InOrder, LeafOverflow;
      LevelNode(pages[id := leaf], levels, info, NO_PAGE, |levels|, 0, id);
      LeafCountFromBytes(leaf.entries);
    }

    /** A leaf with the new entry in its place: the tree is sound but for the
        size of the leaf, and holds one entry more. */
    lemma InsertedLeaf(key: Value, rid: nat, path: seq<PageId>, left: seq<PageId>, right: seq<PageId>, slot: nat)
      returns (inf: Infos)
      requires Valid() && count > 0 && LeafFor(key, path, left, right)
      requires key.IsKey(kind) && EncodedSize(key) <= MAX_KEY_BYTES
      requires var es := PageAt(pages, Last(path)).entries;
               IsLowerBound(es, key, slot) && (slot < |es| ==> Compare(es[slot].key, key).sign != 0)
      ensures var leaf := PageAt(pages, Last(path));
              var m := pages[Last(path) := Leaf(leaf.entries[..slot] + [Entry(key, rid)] + leaf.entries[slot..], leaf.next)];
              && Last(path) < |pages| && Shaped(m, levels, inf, NO_PAGE) && InOrder(kind, Flat(m, levels))
              && PathTo(m, levels, path) && key !in Contents(Items()) && Contents(Flat(m, levels)) == Contents(Items())[key := rid]
              && |Flat(m, levels)| == |Items()| + 1
    {
      hide LevelOk, LevelsOk, NoDup, Contents, Chained, Kids, Entries, PathTo, InOrder, Compare, NodeOk;
      var id := Last(path);
      var leaf := PageAt(pages, id);
      var es := leaf.entries[..slot] + [Entry(key, rid)] + leaf.entries[slot..];
      var m := pages[id := Leaf(es, leaf.next)];
      assert id in levels[0];
      InsertedLeafEntries(key, rid, path, left, right, slot);
      EditLeaf(pages, levels, info, NO_PAGE, id, es, left, right);
      PathOverPage(pages, levels, info, NO_PAGE, path, m);
      if slot == 0 && leaf.entries != [] {
        assert levels[0][0] == id;
        inf := CloseLeftSpine(m, levels, info, 0);
      } else {
        inf := info;
      }
    }

    lemma InsertedLeafEntries(key: Value, rid: nat, path: seq<PageId>, left: seq<PageId>, right: seq<PageId>, slot: nat)
      requires Valid() && count > 0 && LeafFor(key, path, left, right)
      requires key.IsKey(kind) && EncodedSize(key) <= MAX_KEY_BYTES
      requires var es := PageAt(pages, Last(path)).entries;
               IsLowerBound(es, key, slot) && (slot < |es| ==> Compare(es[slot].key, key).sign != 0)
      ensures var id := Last(path);
              var leaf := PageAt(pages, id);
              var es := leaf.entries[..slot] + [Entry(key, rid)] + leaf.entries[slot..];
              var new' := Entries(pages, left) + es + Entries(pages, right);
              && id < |pages| && SmallKeys(es) && InOrder(kind, new')
              && key !in Contents(Items()) && Contents(new') == Contents(Items())[key := rid] && |new'| == |Items()| + 1
              && leaf.entries != [] && (slot == 0 ==> left == []) && (slot > 0 ==> MinOf(info, id) == es[0].key)
    {
      hide LevelOk, LevelsOk, NoDup, Contents, Chained, Kids, Entries, PathTo, InOrder, Compare;
      var id := Last(path);
      var leaf := PageAt(pages, id);
      var e := Entry(key, rid);
      assert id in levels[0];
      LevelNode(pages, levels, info, NO_PAGE, |levels|, 0, id);
      EntriesAround(pages, left, id, right);
      FirstLevelOk(pages, levels, info, NO_PAGE);
      RightLeafSeparates(pages, levels, info, kind, left, id, right, key);
      InsertedInOrder(kind, Entries(pages, left), leaf.entries, Entries(pages, right), slot, e);
      assert leaf.entries == leaf.entries[..slot] + leaf.entries[slot..];
      InsertedSmall(leaf.entries[..slot], e, leaf.entries[slot..]);
      if slot == 0 {
        LeafKeys(left, right, id);
        SlotZeroIsFirstLeaf(pages, levels, info, kind, left, id, key);
      }
    }

    /** With the superblock written, the tree is complete again. */
    lemma Completed(m: Pages)
      requires 0 < |m| && Tree(m, NO_PAGE) && pages == m[0 := Super(root, first, count)] && AllFit()
      requires 0 < count == |Flat(m, levels)|
      ensures Valid() && Items() == Flat(m, levels)
    {
      hide InOrder, AllFit, LevelsOk;
      PageZeroIsFree(m, levels, info, NO_PAGE, Super(root, first, count));
    }

    lemma EmptyIndex()
      requires Valid() && count == 0
      ensures root != NO_PAGE && root < |pages| && levels == [[root]] && first == root
      ensures Items() == [] && PageAt(pages, root) == Leaf([], NO_PAGE)
    {
      RootKnown(pages, levels, info, root, root);
      EntriesOfOne(pages, root);
    }

    lemma SingleEntry(m: Pages, e: Entry)
      requires root != NO_PAGE && root < |m| && m[root] == Leaf([e], NO_PAGE) && e.key.IsKey(kind)
      requires EncodedSize(e.key) <= MAX_KEY_BYTES && first == root
      requires levels == [[root]] && info == map[root := Info(0, e.key)]
      ensures Tree(m, NO_PAGE) && Flat(m, levels) == [e]
    {
      SingleLeaf(m, root, [e], NO_PAGE, e.key);
    }

    /** Insert a key. NULL, a key of more than 512 encoded bytes and a key that is present
        are refused, each time leaving everything as it was. A key of another type looks
        as if it were present, unless the index is empty: then it is stored, on its own.
        In an index of integers of at most two levels any other key is taken without
        complaint; what then happens depends on `Stuck`: either the index is as it should
        be, or its root has lost all children but the first. */
    method Insert(key: Value, rid: nat) returns (r: Result<()>)
      requires Valid()
      modifies this
      ensures AllFit()
      ensures r.Ok? && old(Paired()) ==> Paired()
      ensures r.Ok? ==> |levels| == old(|levels|) || (old(|levels|) == 1 && |levels| == 2)
      ensures r.Throw? ==> r.fault == BadKey || r.fault.OfStorage()
      ensures r == Throw(BadKey) <==>
                || key.Null? || EncodedSize(key) > MAX_KEY_BYTES
                || (if key.Matches(kind) then key in old(Contents(Items())) else old(count) > 0)
      ensures r == Throw(BadKey) ==> unchanged(this)
      ensures r.Ok? && key.Matches(kind) ==>
                Valid() && key !in old(Contents(Items())) && Contents(Items()) == old(Contents(Items()))[key := rid]
      ensures !key.Matches(kind) && r != Throw(BadKey) ==>
                r.Ok? && count == 1 && PageAt(pages, root) == Leaf([Entry(key, rid)], NO_PAGE)
      ensures old(RoomInEveryLeaf(key)) && r != Throw(BadKey) ==> r.Ok?
      ensures r.Cut? ==> count == old(count) + 1 && pages[0] == Super(root, first, count)
      ensures AtLeastTen(old(Items())) && EncodedSize(key) >= 10 ==> !r.Cut?
      ensures r.Cut? ==> exists es :: Healable(pages, es) && Contents(es) == old(Contents(Items()))[key := rid]
      ensures kind == IntType && r != Throw(BadKey) ==> !r.Throw? && (r.Cut? <==> old(Stuck(key)))
      ensures old(Low()) && r.Cut? ==>
                !Valid() && old(PageAt(pages, root)).Inner? && RootIsCut(old(FirstChild(PageAt(pages, root))))
      ensures old(Calm()) && r.Ok? ==> Calm()
      ensures old(Calm() && count <= MAX_INTS) && r != Throw(BadKey) ==> r.Ok? && Calm()
    {
      hide Paired, AtLeastTen, Healable, LevelOk, LevelsOk, Shaped, InOrder, PathTo, Contents, AllFit, Compare,
           LeafOverflow, Flat, IsLowerBound, Fits, RightPage, Comfortable, Easy, RoomInEveryLeaf, Stuck, RootIsCut,
           LeafOf, Descend, Entries, SmallKeys, FirstChild;
      ghost var least := if Calm() then MIN_INTS else 0;
      if Calm() {
        EasyFacts(pages, MIN_INTS);
      }
      if key.Null? || EncodedSize(key) > MAX_KEY_BYTES {
        return Throw(BadKey);
      }
      if count == 0 {
        EmptyIndex();
        EmptyIsNotStuck(key);
        SingleContents(Entry(key, rid));
        InsertFirst(key, rid);
        return Ok(());
      }
      ghost var left, right;
      var path;
      path, left, right := FindLeaf(key);
      var id := Last(path);
      var leaf := ReadNode(id).value;
      LeafKeys(left, right, id);
      if !key.IsKey(kind) {
        NoKeyMeansLast(key, path, left, right);
      }
      var slot := LowerBoundSlot(leaf.entries, key, kind);
      if slot < |leaf.entries| && Compare(leaf.entries[slot].key, key).sign == 0 {
        if key.IsKey(kind) {
          FoundKey(key, left, right, id, slot);
        }
        return Throw(BadKey);
      }
      if Calm() {
        CalmIsLow();
        if count <= MAX_INTS {
          SmallIsNotStuck(key);
        }
      }
      if Low() {
        LowIsEasy();
      }
      r := InsertSlot(key, rid, path, leaf, slot, left, right, least);
    }

    /** The first entry goes into the empty leaf. */
    method InsertFirst(key: Value, rid: nat)
      requires Valid() && count == 0 && !key.Null? && EncodedSize(key) <= MAX_KEY_BYTES
      modifies this
      ensures old(Paired()) ==> Paired()
      ensures AllFit() && |levels| == 1 && (kind == IntType ==> Easy(pages, MIN_INTS))
      ensures count == 1 && PageAt(pages, root) == Leaf([Entry(key, rid)], NO_PAGE)
      ensures key.IsKey(kind) ==> Valid() && Items() == [Entry(key, rid)]
    {
      hide Shaped, InOrder, Flat, Fits, Comfortable, Easy;
      EmptyIndex();
      OneEntryFits(Entry(key, rid));
      var _ := WritePage(root, Leaf([Entry(key, rid)], NO_PAGE));
      levels, info := [[root]], map[root := Info(0, key)];
      count := 1;
      ghost var m := pages;
      WriteSuperblock();
      if key.IsKey(kind) {
        SingleEntry(m, Entry(key, rid));
        Completed(m);
      }
      LeafRootIsCalm(MIN_INTS);
    }

    lemma EmptyIsNotStuck(key: Value)
      requires PageAt(pages, root).Leaf? && |levels| == 1
      ensures !Stuck(key)
    {
    }

    lemma CalmIsLow()
      requires Valid() && count > 0 && Calm()
      ensures Low()
    {
      hide LevelOk, InOrder, Flat;
      TwoLevels(pages, levels, info, NO_PAGE, root, [], MIN_INTS);
    }

    lemma LowIsEasy()
      requires Valid() && count > 0 && Low()
      ensures Easy(pages, 0)
    {
      hide LevelOk, InOrder, Flat, NoDup, Kids, Chained;
      RootKnown(pages, levels, info, NO_PAGE, root);
      if PageAt(pages, root).Inner? {
        assert levels[|levels| - 1][0] == root && root in levels[|levels| - 1];
        LevelNode(pages, levels, info, NO_PAGE, |levels|, |levels| - 1, root);
        OverOneRoot(pages, levels, info, NO_PAGE, root);
        FittingKeys(root);
        forall c | c in PageAt(pages, root).children
          ensures PageAt(pages, c).Leaf?
        {
          LevelNode(pages, levels, info, NO_PAGE, |levels|, 0, c);
        }
      }
    }

    /** The root is cut down to the child c. */
    ghost predicate RootIsCut(c: PageId)
      reads this
    {
      kind == IntType && RootCut(pages, root, c) && count > INTS_PER_LEAF && AllFit()
    }

    /** An index that is cut is broken: one leaf cannot hold what the index claims to. */
    lemma CutIsNotValid(c: PageId)
      requires RootIsCut(c)
      ensures !Valid()
    {
      hide LevelOk, InOrder, NoDup, Kids, Chained;
      if Valid() {
        TwoLevels(pages, levels, info, NO_PAGE, root, [], 0);
        FullLeaf(pages, levels, c);
        EntriesOfOne(pages, c);
      }
    }

    /** Page 0 is neither the root nor one of its children. */
    lemma RootPages()
      requires Valid()
      ensures root != 0
      ensures PageAt(pages, root).Inner? ==> 0 !in PageAt(pages, root).children
    {
      hide LevelOk, InOrder, Flat, Kids, NoDup, Chained;
      var hole := if count == 0 then root else NO_PAGE;
      RootKnown(pages, levels, info, hole, root);
      LevelKnown(pages, levels, info, hole, |levels|, |levels| - 1);
      if |levels| > 1 {
        OverOneRoot(pages, levels, info, hole, root);
        LevelKnown(pages, levels, info, hole, |levels|, |levels| - 2);
      }
    }

    /** 256 leaves hold more than one can. */
    lemma StuckIsLarge()
      requires Valid() && count > 0 && Low() && |ChildrenOf(PageAt(pages, root))| > MAX_SEPARATORS
      ensures count > INTS_PER_LEAF + 1
    {
      hide LevelOk, InOrder, NoDup, Kids, Chained;
      LowIsEasy();
      TwoLevels(pages, levels, info, NO_PAGE, root, [], 0);
      LevelKnown(pages, levels, info, NO_PAGE, |levels|, 0);
      forall c | c in levels[0]
        ensures |EntriesOf(PageAt(pages, c))| >= 1
      {
        LevelNode(pages, levels, info, NO_PAGE, |levels|, 0, c);
      }
      ManyEntries(pages, levels[0], 1);
    }

    /** The second half of `insert`: the entry goes into slot `slot` of the leaf at
        the end of the path. */
    method InsertSlot(key: Value, rid: nat, path: seq<PageId>, leaf: Page, slot: nat, ghost left: seq<PageId>,
                      ghost right: seq<PageId>, ghost least: nat)
      returns (r: Result<()>)
      requires Valid() && count > 0 && LeafFor(key, path, left, right) && least <= MIN_INTS
      requires key.IsKey(kind) && EncodedSize(key) <= MAX_KEY_BYTES
      requires leaf == PageAt(pages, Last(path)) && leaf.Leaf? && IsLowerBound(leaf.entries, key, slot)
      requires slot < |leaf.entries| ==> Compare(leaf.entries[slot].key, key).sign != 0
      requires path == Descend(pages, root, key, |levels| - 1) && (Low() ==> Easy(pages, least))
      modifies this
      ensures r.Throw? ==> r.fault.OfStorage()
      ensures AllFit()
      ensures r.Ok? && old(Paired()) ==> Paired()
      ensures r.Ok? ==> |levels| == old(|levels|) || (old(|levels|) == 1 && |levels| == 2)
      ensures key !in old(Contents(Items()))
      ensures r.Ok? ==> Valid() && Contents(Items()) == old(Contents(Items()))[key := rid]
      ensures old(RoomInEveryLeaf(key)) ==> r.Ok?
      ensures r.Cut? ==> count == old(count) + 1 && pages[0] == Super(root, first, count)
      ensures AtLeastTen(old(Items())) && EncodedSize(key) >= 10 ==> !r.Cut?
      ensures r.Cut? ==> exists es :: Healable(pages, es) && Contents(es) == old(Contents(Items()))[key := rid]
      ensures kind == IntType ==> !r.Throw? && (r.Cut? <==> old(Stuck(key)))
      ensures old(Low()) && r.Ok? ==> Easy(pages, least)
      ensures old(Low()) && r.Cut? ==>
                !Valid() && old(PageAt(pages, root)).Inner? && RootIsCut(old(FirstChild(PageAt(pages, root))))
    {
      hide Paired, AtLeastTen, Healable, LevelOk, LevelsOk, Shaped, InOrder, PathTo, Contents, AllFit, Compare,
           LeafOverflow, Flat, Fits, RightPage, Low, Easy, RoomInEveryLeaf, PageAt, Entries, NodeOk, NoRoomBeside,
           LeafOf, ParentOf, Stuck, Descend, RootCut, RootIsCut, ComfortableBut, LeafRelieved, DividedUnderRoot, NoDup;
      var id := Last(path);
      ghost var inf := InsertedLeaf(key, rid, path, left, right, slot);
      var grown := Leaf(leaf.entries[..slot] + [Entry(key, rid)] + leaf.entries[slot..], leaf.next);
      ghost var low := Low();
      ghost var c := FirstChild(PageAt(pages, root));
      StuckMeans(key, path);
      GrownLeaf(id, leaf, slot, Entry(key, rid), left, right, least);
      if |path| > 1 {
        SameRoom(id, grown, path);
      }
      LongAfter(Items(), Flat(pages[id := grown], levels), key);
      if low && |path| > 1 && NoRoomBeside(pages, path[|path| - 2], id) {
        LowParent(key, path);
        NoRoomIsLarge(id);
      }
      info := inf;
      r := StoreGrown(id, grown, path, least);
      if r.Throw? {
        return;
      }
      count := count + 1;
      PagesLeft();
      ghost var m := pages;
      WriteSuperblock();
      if r.Ok? {
        Completed(m);
        if low {
          SuperblockKeepsCalm(m, least);
        }
      } else {
        SuperblockKeepsHealable(m, old(Flat(pages[id := grown], levels)));
        if low {
          SuperblockKeepsCut(m, c);
          CutIsNotValid(c);
        }
      }
    }

    lemma LowParent(key: Value, path: seq<PageId>)
      requires Low() && 1 < |path| == |levels| && path == Descend(pages, root, key, |levels| - 1)
      ensures path[|path| - 2] == root
    {
      PathStarts(pages, root, key, |levels| - 1);
    }

    /** Store a leaf that has got one entry more, or split it when it overflows. */
    method StoreGrown(id: PageId, grown: Page, path: seq<PageId>, ghost least: nat) returns (r: Result<()>)
      requires id < |pages| && grown.Leaf? && Pending(id, grown, NO_PAGE, path) && 1 <= |path| == |levels|
      requires AllFit() && least <= MIN_INTS
      modifies this`pages, this`root, this`levels, this`info
      ensures r.Throw? ==> r.fault.OfStorage()
      ensures AllFit()
      ensures r.Ok? && old(Paired()) ==> Paired()
      ensures r.Ok? ==> |levels| == old(|levels|) || (old(|levels|) == 1 && |levels| == 2)
      ensures r.Ok? ==> Tree(pages, NO_PAGE) && Items() == old(Flat(pages[id := grown], levels))
      ensures AtLeastTen(old(Flat(pages[id := grown], levels))) ==> !r.Cut?
      ensures r.Cut? ==> Healable(pages, old(Flat(pages[id := grown], levels)))
      ensures !LeafOverflow(grown.entries) ==> r.Ok? && pages == old(pages)[id := grown]
      ensures LeafOverflow(grown.entries) && |path| == 1 && r.Ok? ==>
                var n := |grown.entries| / 2;
                DividedUnderRoot(id, Leaf(grown.entries[..n], |old(pages)|), |old(pages)|, Leaf(grown.entries[n..], grown.next))
      ensures LeafOverflow(grown.entries) && |path| > 1 && r.Ok? ==>
                LeafRelieved(old(pages[id := grown]), pages, id,
                             old(ChildrenOf(PageAt(pages[id := grown], path[|path| - 2]))))
      ensures kind == IntType && LeafOverflow(grown.entries) && |grown.entries| == INTS_PER_LEAF + 1 ==>
                !r.Throw? && (r.Cut? <==> |path| > 1 && old(NoRoomBeside(pages[id := grown], path[|path| - 2], id)))
      ensures old(Easy(pages[id := grown], least)) && (LeafOverflow(grown.entries) ==> |grown.entries| == INTS_PER_LEAF + 1) ==>
                && (r.Ok? ==> Comfortable(pages, root, least))
                && (r.Cut? ==> root == old(root) && RootCut(pages, root, old(FirstChild(PageAt(pages, root)))))
    {
      hide LeafRelieved, DividedUnderRoot, Paired, AtLeastTen, Healable, Tree, PathTo, LeafOverflow, Flat, AllFit,
           PageAt, RootCut, NoRoomBeside, ComfortableBut;
      OneInMemory(id, grown, path);
      if LeafOverflow(grown.entries) {
        r := SplitLeaf(id, grown, path, least);
      } else {
        r := WritePage(id, grown);
      }
    }

    /** No key has become shorter. */
    lemma LongAfter(before: seq<Entry>, after: seq<Entry>, key: Value)
      requires forall k :: k in Contents(after) ==> k in Contents(before) || k == key
      ensures AtLeastTen(before) && (EncodedSize(key) >= 10 || key !in Contents(after)) ==> AtLeastTen(after)
    {
      hide Contents, EncodedSize;
      forall i | 0 <= i < |after| && AtLeastTen(before) && (EncodedSize(key) >= 10 || key !in Contents(after))
        ensures EncodedSize(after[i].key) >= 10
      {
        ContentsHas(after, i);
        if after[i].key != key {
          var j := ContentsHasOnly(before, after[i].key);
        }
      }
    }

    lemma PagesLeft()
      requires AllFit()
      ensures 0 < |pages|
    {
    }

    /** No room beside a leaf means many leaves. */
    lemma NoRoomIsLarge(id: PageId)
      requires Valid() && count > 0 && Low() && NoRoomBeside(pages, root, id)
      ensures PageAt(pages, root).Inner? && count > INTS_PER_LEAF
      ensures root != 0 && FirstChild(PageAt(pages, root)) != 0
    {
      hide Valid, Low;
      StuckIsLarge();
      RootPages();
      assert FirstChild(PageAt(pages, root)) in PageAt(pages, root).children;
    }

    lemma SuperblockKeepsCut(m: Pages, c: PageId)
      requires kind == IntType && RootCut(m, root, c) && root != 0 && c != 0 && count > INTS_PER_LEAF && AllFit()
      requires 0 < |m| && pages == m[0 := Super(root, first, count)]
      ensures RootIsCut(c)
    {
      hide AllFit;
    }

    /** Every leaf could take the key. */
    ghost predicate RoomInEveryLeaf(key: Value)
      reads this
    {
      |levels| > 0 && forall id :: id in levels[0] ==> LeafBytes(EntriesOf(PageAt(pages, id))) + 10 + EncodedSize(key) <= PAGE_SIZE
    }

    /** An index of integers of at most two levels. One that has only been grown by
        insertions is never higher. */
    ghost predicate Low()
      reads this
    {
      kind == IntType && |levels| <= 2
    }

    /** An index of integers in the state in which insertions and erasures do no harm
        as long as it has no more than 18175 entries. */
    ghost predicate Calm()
      reads this
    {
      Easy(pages, MIN_INTS)
    }

    /** The node above that leaf. */
    ghost function ParentOf(key: Value): PageId
      reads this`pages, this`root, this`levels
    {
      if |levels| < 2 then root else Last(Descend(pages, root, key, |levels| - 2))
    }

    /** The one state in which an index of integers cannot take a new key: its leaf is
        full and there is no room beside it. */
    ghost predicate Stuck(key: Value)
      reads this`pages, this`root, this`levels
    {
      |EntriesOf(PageAt(pages, LeafOf(key)))| == INTS_PER_LEAF && NoRoomBeside(pages, ParentOf(key), LeafOf(key))
    }

    lemma StuckMeans(key: Value, path: seq<PageId>)
      requires Valid() && path == Descend(pages, root, key, |levels| - 1) && PathTo(pages, levels, path)
      ensures |path| == |levels| > 0 && Last(path) == LeafOf(key)
      ensures Stuck(key) <==>
                && |path| > 1 && |EntriesOf(PageAt(pages, Last(path)))| == INTS_PER_LEAF
                && NoRoomBeside(pages, path[|path| - 2], Last(path))
    {
      hide InOrder, Flat, LevelOk, PathTo;
      if |levels| == 1 {
        NoDescent(pages, root, key);
        RootIsNode();
      }
    }

    lemma RootIsNode()
      requires Valid() && |levels| == 1
      ensures PageAt(pages, root).Leaf?
    {
      hide InOrder, Flat;
      var hole := if count == 0 then root else NO_PAGE;
      RootKnown(pages, levels, info, hole, root);
    }

    /** Up to 18175 entries that state cannot arise. */
    lemma SmallIsNotStuck(key: Value)
      requires Valid() && count > 0 && Calm() && count <= MAX_INTS
      ensures !Stuck(key)
    {
      hide LevelOk, InOrder, Flat, LeafOf;
      RoomInRoot(pages, levels, info, root);
      TwoLevels(pages, levels, info, NO_PAGE, root, [], MIN_INTS);
      NoDescent(pages, root, key);
    }

    /** The one state in which a low index cannot do without a key it holds: repairing
        the leaf takes one leaf more. */
    ghost predicate Jammed(key: Value)
      reads this`pages, this`root, this`levels
    {
      var n := |EntriesOf(PageAt(pages, LeafOf(key)))|;
      n > 0 && NoRepair(pages, root, LeafOf(key), n - 1)
    }

    lemma SmallIsNotJammed(key: Value)
      requires Valid() && count > 0 && Calm() && count <= MAX_INTS
      ensures !Jammed(key)
    {
      hide LevelOk, InOrder, Flat, LeafOf;
      RoomInRoot(pages, levels, info, root);
    }

    lemma LeafRootIsCalm(least: nat)
      requires PageAt(pages, root).Leaf?
      ensures Comfortable(pages, root, least) && (kind == IntType ==> Easy(pages, least))
    {
    }

    lemma SuperblockKeepsCalm(m: Pages, least: nat)
      requires Valid() && kind == IntType && Comfortable(m, root, least) && 0 < |m|
               && pages == m[0 := Super(root, first, count)]
      ensures Easy(pages, least)
    {
      hide Valid;
      RootPages();
    }

    /** What an entry more means for a leaf. */
    lemma GrownLeaf(id: PageId, leaf: Page, slot: nat, e: Entry, left: seq<PageId>, right: seq<PageId>, least: nat)
      requires Valid() && count > 0 && levels[0] == left + [id] + right && leaf == PageAt(pages, id) && leaf.Leaf?
      requires slot <= |leaf.entries| && e.key.IsKey(kind) && id < |pages|
      ensures var grown := Leaf(leaf.entries[..slot] + [e] + leaf.entries[slot..], leaf.next);
              && (RoomInEveryLeaf(e.key) ==> !LeafOverflow(grown.entries))
              && (!LeafOverflow(grown.entries) ==> Fits(grown))
              && (kind == IntType ==> (LeafOverflow(grown.entries) <==> |leaf.entries| == INTS_PER_LEAF))
              && (kind == IntType && LeafOverflow(grown.entries) ==> |grown.entries| == INTS_PER_LEAF + 1)
              && (Easy(pages, least) ==>
                    Comfortable(pages[id := grown], root, least) && Easy(pages[id := grown], least) && kind == IntType)
    {
      hide LevelOk, InOrder, NoDup, Chained, Kids, LeafBytes;
      var es := leaf.entries[..slot] + [e] + leaf.entries[slot..];
      var grown := Leaf(es, leaf.next);
      assert id in levels[0];
      OneMoreSize(leaf.entries, slot, e);
      if kind == IntType {
        FullLeaf(pages, levels, id);
        LeafInts(pages, levels, id);
        IntLeafLimits(es);
      }
      if Easy(pages, least) {
        BigEnough(id, least);
        LeafReplaced(pages, root, [], id, grown, [], least);
      }
    }

    /** Whether there is room beside a leaf does not depend on its own page. */
    lemma SameRoom(id: PageId, grown: Page, path: seq<PageId>)
      requires Valid() && count > 0 && PathTo(pages, levels, path) && 1 < |path| == |levels| && Last(path) == id
               && id < |pages|
      ensures NoRoomBeside(pages[id := grown], path[|path| - 2], id) == NoRoomBeside(pages, path[|path| - 2], id)
    {
      hide LevelOk, InOrder, Flat, PathTo;
      assert pages[id := PageAt(pages, id)] == pages;
      ParentOfPending(id, PageAt(pages, id), NO_PAGE, path);
      var cs := PageAt(pages, path[|path| - 2]).children;
      var i := IndexOf(cs, id);
      if i + 1 < |cs| {
        PairOfPending(id, PageAt(pages, id), NO_PAGE, path, i);
      }
    }

    lemma BigEnough(id: PageId, least: nat)
      requires Valid() && count > 0 && Easy(pages, least) && id in levels[0]
      ensures PageAt(pages, root).Inner? ==> |EntriesOf(PageAt(pages, id))| >= least
    {
      hide LevelOk, InOrder, Flat;
      TwoLevels(pages, levels, info, NO_PAGE, root, [], least);
    }

    lemma LeafKeys(left: seq<PageId>, right: seq<PageId>, id: PageId)
      requires Valid() && levels[0] == left + [id] + right && PageAt(pages, id).Leaf?
      ensures InOrder(kind, PageAt(pages, id).entries)
      ensures forall e :: e in PageAt(pages, id).entries ==> e.key.IsKey(kind)
    {
      hide LevelOk, LevelsOk, InOrder;
      EntriesAround(pages, left, id, right);
      var a, es, b := Entries(pages, left), PageAt(pages, id).entries, Entries(pages, right);
      OrderedParts(kind, a + es, b);
      OrderedParts(kind, a, es);
      KeysOfOrdered(kind, es);
    }

    // ---- erasure: telling the ancestors about a new minimum ----

    lemma HoleFacts(m: Pages, path: seq<PageId>, n: nat)
      requires 1 <= n <= |path| <= |levels| && Tree(m, path[n - 1]) && PathTo(m, levels, path)
      requires n == |levels| ==> EntriesOf(PageAt(m, path[n - 1])) != []
      ensures var x, k := path[n - 1], |levels| - n;
              && LevelsOk(m, levels, info, NO_PAGE, k)
              && TrueMin(m, info, x, TrueMinOf(m, info, x))
              && EncodedSize(TrueMinOf(m, info, x)) <= MAX_KEY_BYTES
              && (PageAt(m, x).Inner? ==> k > 0 && PageAt(m, x).children[0] in levels[k - 1])
    {
      hide LevelOk, InOrder, NoDup, Kids, Entries, TrueMin, TrueMinOf;
      var x, k := path[n - 1], |levels| - n;
      LevelKnown(m, levels, info, x, |levels|, k);
      LevelNode(m, levels, info, x, |levels|, k, x);
      LowerLevels(m, levels, info, x, k, m);
      TrueMinIsSmall(m, levels, info, x, |levels|, k, x);
      if k > 0 {
        ChildLevel(m, levels, info, x, |levels|, k, x, ChildrenOf(PageAt(m, x))[0]);
      }
    }

    lemma ParentOfHole(m: Pages, path: seq<PageId>, n: nat)
      requires 2 <= n <= |path| <= |levels| && Tree(m, path[n - 1]) && PathTo(m, levels, path)
      ensures var x, q, k := path[n - 1], path[n - 2], |levels| - n;
              && q < |m| && PageAt(m, q).Inner? && x in PageAt(m, q).children
              && |PageAt(m, q).keys| + 1 == |PageAt(m, q).children|
              && x in levels[k] && q in levels[k + 1] && k + 1 < |levels|
    {
      hide LevelOk, InOrder, NoDup, Kids, Entries;
      PathPrefix(m, levels, path, n);
      ParentOnPath(m, levels, info, path[n - 1], path[..n]);
    }

    /** At the root there is nobody to tell: recording its minimum is enough. */
    lemma RootClosed(m: Pages, path: seq<PageId>) returns (inf: Infos)
      requires path != [] && PathTo(m, levels, path) && Tree(m, path[0])
      requires 1 == |levels| ==> EntriesOf(PageAt(m, path[0])) != []
      ensures Shaped(m, levels, inf, NO_PAGE)
    {
      hide LevelOk, LevelsOk, InOrder, TrueMin, TrueMinOf, Flat;
      var up := path[..1];
      PathPrefix(m, levels, path, 1);
      HoleFacts(m, up, 1);
      RootOfPath(m, path);
      var min := TrueMinOf(m, info, path[0]);
      RecordRootMin(m, levels, info, path[0], min);
      inf := info[path[0] := Info(|levels| - 1, min)];
    }

    /** The end of the climb: separator `at` of the parent is corrected. */
    method CorrectSeparator(x: PageId, ghost k: nat, parentId: PageId, parent: Page, at: nat, min: Value, ghost m: Pages)
      returns (r: Result<()>)
      requires Tree(m, x) && AllFit() && k + 1 < |levels| && x in levels[k] && parentId in levels[k + 1]
      requires parentId < |m| == |pages| && parent == PageAt(pages, parentId) == PageAt(m, parentId) && parent.Inner?
      requires 0 < at < |parent.children| == |parent.keys| + 1 && parent.children[at] == x
      requires TrueMin(m, info, x, min) && EncodedSize(min) <= MAX_KEY_BYTES
      modifies this`pages, this`info
      ensures !r.Cut? && (r.Throw? ==> r.fault.OfStorage())
      ensures AllFit()
      ensures r.Ok? && old(Paired()) ==> Paired()
      ensures r.Ok? ==>
                && pages == old(pages)[parentId := PageAt(pages, parentId)]
                && Tree(m[parentId := PageAt(pages, parentId)], NO_PAGE)
                && Flat(m[parentId := PageAt(pages, parentId)], levels) == Flat(m, levels)
      ensures SameContents(old(pages), pages)
      ensures kind == IntType ==> r.Ok?
    {
      hide LevelOk, LevelsOk, Shaped, InOrder, AllFit, Flat, TrueMin, InnerOverflow, SameContents, EncodedSize;
      SameContentsItself(pages);
      var keys := parent.keys[at - 1 := min];
      ghost var fixed := m[parentId := Inner(keys, parent.children)];
      RecordMin(m, levels, info, x, k, parentId, at, min, fixed);
      KeysReplaced(pages, parentId, keys);
      FittingKeys(parentId);
      if kind == IntType {
        CorrectedFits(fixed, levels, info[x := Info(k, min)], k + 1, parentId, keys, parent.children);
      }
      var _ :- WritePage(parentId, Inner(keys, parent.children));
      info := info[x := Info(k, min)];
      return Ok(());
    }

    /** `propagate_subtree_min_change`: climb to the first ancestor of which the
        page is not the leftmost descendant, and correct its separator. The page may
        have been cut; m has it as it should be, and so has `whole` afterwards, in which
        at most the ancestor `a` is new. */
    method PropagateMin(path: seq<PageId>, ghost m: Pages) returns (r: Result<()>, ghost whole: Pages, ghost a: PageId)
      requires path != [] && PathTo(m, levels, path) && |path| <= |levels| && Tree(m, Last(path))
      requires |path| == |levels| ==> EntriesOf(PageAt(m, Last(path))) != []
      requires AllFit() && Alike(m) && |m| == |pages|
      requires forall i :: 0 <= i < |path| - 1 ==> PageAt(pages, path[i]) == PageAt(m, path[i])
      modifies this`pages, this`info
      ensures !r.Cut? && (r.Throw? ==> r.fault.OfStorage())
      ensures AllFit()
      ensures r.Ok? && old(Paired()) ==> Paired()
      ensures r.Ok? ==> Tree(whole, NO_PAGE) && Flat(whole, levels) == Flat(m, levels)
      ensures r.Ok? ==>
                || (pages == old(pages) && whole == m)
                || (a < |m| && a != Last(path) && pages == old(pages)[a := PageAt(pages, a)] && whole == m[a := PageAt(pages, a)])
      ensures m == old(pages) && r.Ok? ==> whole == pages && Items() == old(Items())
      ensures SameContents(old(pages), pages) && (|path| == 1 ==> pages == old(pages))
      ensures kind == IntType ==> r.Ok?
    {
      hide LevelOk, LevelsOk, Shaped, InOrder, PathTo, AllFit, Flat, TrueMin, TrueMinOf, InnerOverflow, SameContents,
           EncodedSize, NodeOk, MinOf, Alike, Paired;
      SameContentsItself(pages);
      whole, a := m, 0;
      if |path| < 2 {
        info := RootClosed(m, path);
        return Ok(()), m, 0;
      }
      var i := |path| - 1;
      HoleFacts(m, path, i + 1);
      var min :- SubtreeMin(path[i], m, levels, info, |levels| - |path|);
      while i > 0
        invariant i < |path| && pages == old(pages) && PathTo(m, levels, path)
        invariant Tree(m, path[i]) && AllFit() && Alike(m)
        invariant min == TrueMinOf(m, info, path[i]) && TrueMin(m, info, path[i], min) && EncodedSize(min) <= MAX_KEY_BYTES
      {
        ParentOfHole(m, path, i + 1);
        var parentId := path[i - 1];
        var parent :- ReadInner(parentId);
        var at := IndexOf(parent.children, path[i]);
        ghost var k: nat := |levels| - i - 1;
        if at > 0 {
          AncestorIsAbove(m, path[i], path, i - 1);
          r := CorrectSeparator(path[i], k, parentId, parent, at, min, m);
          whole, a := m[parentId := PageAt(pages, parentId)], parentId;
          return;
        }
        RecordMin(m, levels, info, path[i], k, parentId, 0, min, m);
        info := info[path[i] := Info(k, min)];
        i := i - 1;
        HoleFacts(m, path, i + 1);
        min :- SubtreeMin(path[i], m, levels, info, |levels| - i - 1);
      }
      info := RootClosed(m, path);
      return Ok(()), m, 0;
    }

    /** A path visits no page twice. */
    lemma AncestorIsAbove(m: Pages, hole: PageId, path: seq<PageId>, i: nat)
      requires PathTo(m, levels, path) && i + 1 < |path| && Tree(m, hole)
      ensures path[i] != Last(path)
    {
      hide InOrder, LevelOk, NoDup, Kids, Chained;
      LevelKnown(m, levels, info, hole, |levels|, |levels| - 1 - i);
      LevelKnown(m, levels, info, hole, |levels|, |levels| - |path|);
    }

    lemma FittingKeys(id: PageId)
      requires AllFit() && PageAt(pages, id).Inner?
      ensures |PageAt(pages, id).keys| <= MAX_SEPARATORS
    {
    }

    lemma RootOfPath(m: Pages, path: seq<PageId>)
      requires PathTo(m, levels, path) && path != []
      ensures levels[|levels| - 1] == [path[0]]
    {
    }

    lemma RootOfTree(m: Pages, path: seq<PageId>)
      requires Tree(m, NO_PAGE) && PathTo(m, levels, path) && path != []
      ensures path[0] == root
    {
    }

    // ---- erasure: repairing nodes that have become too small ----

    /** Common end of every borrow and redistribution: rebuild and store the
        parent, then pass its minimum on, whether or not the parent has been cut. */
    method StoreParent(children: seq<PageId>, parentId: PageId, path: seq<PageId>, ghost m: Pages, ghost hole: PageId,
                       ghost a: PageId, ghost b: PageId, ghost i: nat, ghost new': seq<PageId>)
      returns (r: Result<()>)
      requires PairAt(m, hole, a, b, parentId, i, path) && OnDisk(m, a, b) && PairReplaced(m, a, b, new', path)
      requires children == WithPair(ChildrenOf(PageAt(m, parentId)), i, new')
      requires AllFit() && |children| <= MAX_SEPARATORS + 2
      modifies this`pages, this`levels, this`info
      ensures r.Throw? ==> r.fault.OfStorage()
      ensures AllFit()
      ensures r.Ok? && old(Paired()) && |children| >= 2 ==> Paired()
      ensures kind == IntType ==> !r.Throw? && (r.Cut? <==> |children| == MAX_SEPARATORS + 2)
      ensures r.Ok? ==> |levels| == old(|levels|)
      ensures r.Ok? ==> Tree(pages, NO_PAGE) && Items() == old(Flat(m, levels))
      ensures AtLeastTen(old(Flat(m, levels))) ==> !r.Cut?
      ensures r.Cut? ==> Healable(pages, old(Flat(m, levels))) && |children| == MAX_SEPARATORS + 2
      ensures r.Ok? ==> parentId < |old(pages)| && SameContents(old(pages)[parentId := Inner([], children)], pages)
      ensures kind == IntType && |path| == 1 && old(|levels|) == 2 ==>
                && (|children| <= MAX_SEPARATORS + 1 ==> r.Ok?)
                && (|children| == MAX_SEPARATORS + 2 ==>
                      r.Cut? && parentId < |pages| && pages == old(pages)[parentId := Inner([], [children[0]])])
      ensures r.Ok? && |path| == 1 ==>
                && parentId < |pages| && PageAt(pages, parentId).Inner? && PageAt(pages, parentId).children == children
                && pages == old(pages)[parentId := PageAt(pages, parentId)]
    {
      hide Paired, AtLeastTen, PairAt, OnDisk, PairReplaced, Flat, WithPair, SameStart, Tree, PathTo, AllFit,
           InnerOverflow, AllIntKeys, SameContents, PageAt;
      PairPath(m, hole, a, b, parentId, i, path);
      var keys :- RebuildParent(children, parentId, path, m, hole, a, b, i, new');
      if kind == IntType {
        PendingInts(parentId, keys, children, parentId, path);
        IntInnerLimits(keys, children);
      }
      ghost var was := pages;
      if AtLeastTen(Flat(pages[parentId := Inner(keys, children)], levels)) && !InnerOverflow(keys, children) {
        LongSeparators(parentId, keys, children, parentId, path);
      }
      PendingTree(parentId, Inner(keys, children), path);
      var w := WritePage(parentId, Inner(keys, children));
      if w.Throw? {
        return w;
      }
      ghost var mid := pages;
      StoredAlike(was, parentId, keys, children, path);
      ParentIsNode(was[parentId := Inner(keys, children)], parentId, path);
      ghost var whole, told;
      r, whole, told := PropagateMin(path, was[parentId := Inner(keys, children)]);
      if r.Ok? && w.Cut? {
        CutStays(was, mid, parentId, keys, children, whole, told);
        return Cut;
      }
      if r.Ok? {
        AnySeparators(was, parentId, keys, children);
        SameContentsTwice(was[parentId := Inner([], children)], mid, pages);
      }
    }

    lemma ParentIsNode(m: Pages, id: PageId, path: seq<PageId>)
      requires Tree(m, id) && PathTo(m, levels, path) && Last(path) == id
      ensures id != NO_PAGE
    {
      hide InOrder, LevelOk, NoDup, Kids, Chained;
      OnLevel(m, levels, path);
      LevelKnown(m, levels, info, id, |levels|, |levels| - |path|);
    }

    lemma PendingTree(id: PageId, p: Page, path: seq<PageId>)
      requires Pending(id, p, id, path)
      ensures id < |pages| && Tree(pages[id := p], id) && PathTo(pages[id := p], levels, path) && path != []
              && Last(path) == id
    {
      hide Tree;
    }

    /** A parent that has been stored, perhaps cut, is like the one in memory. */
    lemma StoredAlike(was: Pages, id: PageId, keys: seq<Value>, children: seq<PageId>, path: seq<PageId>)
      requires id < |was| && Tree(was[id := Inner(keys, children)], id) && |children| <= MAX_SEPARATORS + 2
      requires PathTo(was[id := Inner(keys, children)], levels, path) && |path| < |levels| && Last(path) == id
      requires var p := Inner(keys, children); InBytes(p) && pages == was[id := if Fits(p) then p else Reread(p)]
      ensures Alike(was[id := Inner(keys, children)]) && |children| == |keys| + 1
      ensures forall i :: 0 <= i < |path| - 1 ==> PageAt(pages, path[i]) == PageAt(was[id := Inner(keys, children)], path[i])
    {
      hide LevelOk, InOrder, NoDup, Kids, Chained, Flat, PathTo;
      var m := was[id := Inner(keys, children)];
      OnLevel(m, levels, path);
      LevelNode(m, levels, info, id, |levels|, |levels| - |path|, id);
      forall i | 0 <= i < |path| - 1
        ensures path[i] != id
      {
        AncestorIsAbove(m, id, path, i);
      }
    }

    /** The ancestors have been told; the node that was cut is all that is missing. */
    lemma CutStays(was: Pages, mid: Pages, id: PageId, keys: seq<Value>, children: seq<PageId>, whole: Pages,
                   told: PageId)
      requires var p := Inner(keys, children);
               && id < |was| && id != NO_PAGE && |keys| == MAX_SEPARATORS + 1 && |children| == MAX_SEPARATORS + 2
               && mid == was[id := Reread(p)] && |pages| == |was|
               && ((pages == mid && whole == was[id := p])
                   || (told != id && told < |pages| && pages == mid[told := PageAt(pages, told)]
                       && whole == was[id := p][told := PageAt(pages, told)]))
      requires Tree(whole, NO_PAGE)
      ensures Healable(pages, Flat(whole, levels))
    {
      hide Tree, Flat;
      var p := Inner(keys, children);
      if pages != mid {
        TwoPlaces(was, id, Reread(p), p, told, PageAt(pages, told));
      } else {
        assert pages[id := p] == whole;
      }
      assert CutAt(pages, id, p);
    }

    lemma TwoPlaces(was: Pages, id: PageId, x: Page, p: Page, told: PageId, y: Page)
      requires id < |was| && told < |was| && id != told
      ensures was[id := x][told := y][id := p] == was[id := p][told := y]
      ensures PageAt(was[id := x][told := y], id) == x
    {
    }

    lemma PairPath(m: Pages, hole: PageId, a: PageId, b: PageId, parentId: PageId, i: nat, path: seq<PageId>)
      requires PairAt(m, hole, a, b, parentId, i, path)
      ensures 1 <= |path| < |levels| && Last(path) == parentId
    {
    }

    /** The ghost half of a replacement: the tree as it will be once the parent
        has been rebuilt. */
    lemma PairAdopted(m: Pages, hole: PageId, a: PageId, b: PageId, parentId: PageId, i: nat, path: seq<PageId>,
                      new': seq<PageId>, children: seq<PageId>) returns (lv: Levels, inf: Infos)
      requires PairAt(m, hole, a, b, parentId, i, path) && OnDisk(m, a, b) && PairReplaced(m, a, b, new', path)
      requires children == WithPair(ChildrenOf(PageAt(m, parentId)), i, new')
      ensures children != [] && parentId < |pages| && |lv| == |levels| && 1 <= |path| < |levels| && Last(path) == parentId
      ensures forall j :: 0 <= j < |levels| - |path| - 1 ==> lv[j] == levels[j]
      ensures b !in new' && a in new' ==> LosesOnly(levels[|levels| - |path| - 1], lv[|levels| - |path| - 1], a, b)
      ensures var m' := pages[parentId := Inner(KeysFor(inf, children), children)];
              && Shaped(m', lv, inf, parentId) && Flat(m', lv) == Flat(m, levels) && PathTo(m', lv, path)
              && lv[|lv| - 1] == [root] && lv[0] != [] && lv[0][0] == first && InOrder(kind, Flat(m', lv))
    {
      hide PairAt, OnDisk, PairReplaced, Replacing, FirstKept, Flat, WithPair, SameStart, Record, Shaped, InOrder,
           PathTo;
      PairPath(m, hole, a, b, parentId, i, path);
      var k, s := PairReplacing(m, hole, a, b, parentId, i, path, new');
      lv, inf := ReplacedLevels(m, hole, k, s, new', path);
      ReplacedTree(m, hole, k, s, new', path, KeysFor(inf, children));
      PairStretch(m, hole, k, s, new', path);
    }

    /** The same when only the first of the two is left. */
    lemma SecondDropped(m: Pages, hole: PageId, a: PageId, b: PageId, parentId: PageId, i: nat, path: seq<PageId>,
                        children: seq<PageId>) returns (lv: Levels, inf: Infos)
      requires PairAt(m, hole, a, b, parentId, i, path) && OnDisk(m, a, b) && PairReplaced(m, a, b, [a], path)
      requires children == WithPair(ChildrenOf(PageAt(m, parentId)), i, [a])
      ensures children != [] && parentId < |pages| && |lv| == |levels| && 1 <= |path| < |levels| && Last(path) == parentId
      ensures var n := |levels| - |path|;
              && (forall j :: 0 <= j < n - 1 ==> lv[j] == levels[j])
              && LosesOnly(levels[n - 1], lv[n - 1], a, b)
      ensures var m' := pages[parentId := Inner(KeysFor(inf, children), children)];
              && Shaped(m', lv, inf, parentId) && Flat(m', lv) == Flat(m, levels) && PathTo(m', lv, path)
              && lv[|lv| - 1] == [root] && lv[0] != [] && lv[0][0] == first && InOrder(kind, Flat(m', lv))
    {
      hide PairAt, OnDisk, PairReplaced, Flat, WithPair, Shaped, InOrder, PathTo, LevelsOk, NodeOk, At;
      var k, s := PairFacts(m, hole, a, b, parentId, i, path);
      lv, inf := PairAdopted(m, hole, a, b, parentId, i, path, [a], children);
      assert a in [a];
    }

    /** The level of a pair, around it. */
    lemma PairStretch(m: Pages, hole: PageId, k: nat, s: Site, new': seq<PageId>, path: seq<PageId>)
      requires Replacing(m, hole, k, s, new', path)
      ensures |levels| == |path| + k + 1 && levels[k] == LevelBefore(m, s) + s.old' + LevelAfter(m, s)
    {
      hide InOrder, Flat, NoDup, Chained, PathTo, NodeOk, StandsFor, SameBelow, InfoBounded, Record;
      LevelKnown(m, levels, info, hole, |levels|, k + 1);
      SiteInLevel(m, levels, k, s);
    }

    /** `handle_internal_after_child_removed`: the node has its children already,
        but neither its separators nor its page. */
    method HandleChildRemoved(id: PageId, children: seq<PageId>, path: seq<PageId>) returns (r: Result<()>)
      requires children != [] && id < |pages| && Pending(id, Inner(KeysFor(info, children), children), id, path)
      requires |path| < |levels| && AllFit() && |children| <= MAX_SEPARATORS
      modifies this`pages, this`root, this`first, this`levels, this`info
      ensures r.Throw? ==> r.fault.OfStorage()
      ensures AllFit()
      ensures r.Ok? && old(Paired()) ==> Paired()
      ensures kind == IntType && old(Paired()) ==> !r.Throw?
      ensures r.Ok? ==> |levels| <= old(|levels|)
      ensures r.Ok? ==>
                Tree(pages, NO_PAGE) && Items() == old(Flat(pages[id := Inner(KeysFor(info, children), children)], levels))
      ensures AtLeastTen(old(Flat(pages[id := Inner(KeysFor(info, children), children)], levels))) ==> !r.Cut?
      ensures r.Ok? ==> |path| <= |old(levels)| && KeptBelow(old(pages), pages, old(levels), |old(levels)| - |path|, NO_PAGE)
      ensures r.Ok? && |path| > 1 && !old(InnerUnderflow(KeysFor(info, children), children)) ==>
                SameContents(old(pages)[id := Inner([], children)], pages)
      ensures r.Ok? && |path| > 1 && old(InnerUnderflow(KeysFor(info, children), children)) ==>
                InnerRepaired(old(pages[id := Inner(KeysFor(info, children), children)]), old(info), pages, id,
                              old(ChildrenOf(PageAt(pages, path[|path| - 2]))))
      ensures |path| == 1 && |children| == 1 ==> r.Ok? && pages == old(pages) && root == children[0]
      ensures kind == IntType && |path| == 1 && old(|levels|) == 2 && 1 < |children| ==>
                r.Ok? && root == old(root) && ParentOnly(pages, old(pages), id, children)
      ensures |path| == 1 ==> !r.Cut?
      decreases |path|, 1
    {
      hide InnerRepaired, KeptBelow, AboveLevels, SameContents, Paired, AtLeastTen, Tree, PathTo, Flat, AllFit,
           InnerOverflow, Shaped, InnerUnderflow, KeysFor, AllIntKeys;
      ghost var exact := KeysFor(info, children);
      PendingChildren(id, exact, children, path);
      var keys :- RebuildKeys(children, levels, info, |levels| - |path| - 1);
      if kind == IntType {
        PendingInts(id, keys, children, id, path);
        IntInnerLimits(keys, children);
      }
      NotTooSmall(keys, children);
      if |path| == 1 {
        r := SettleRoot(id, keys, children, path);
        return;
      }
      if InnerUnderflow(keys, children) {
        r := FixInternalUnderflow(id, keys, children, path);
        return;
      }
      PendingApart(id, keys, children, id, path);
      var _ :- WritePage(id, Inner(keys, children));
      ghost var mid := pages;
      AlikeItself();
      ghost var whole, a;
      r, whole, a := PropagateMin(path, pages);
      if r.Ok? {
        KeptByOne(old(pages), pages, levels, |levels| - |path|, id, Inner(keys, children));
        AnySeparators(old(pages), id, keys, children);
        SameContentsTwice(old(pages)[id := Inner([], children)], mid, pages);
      }
    }

    lemma NotTooSmall(keys: seq<Value>, children: seq<PageId>)
      ensures !InnerUnderflow(keys, children) ==> |children| >= 2
    {
    }

    lemma PendingChildren(id: PageId, keys: seq<Value>, children: seq<PageId>, path: seq<PageId>)
      requires Pending(id, Inner(keys, children), id, path) && |path| < |levels|
      ensures 1 <= |path| && LevelsOk(pages, levels, info, NO_PAGE, |levels| - |path|)
      ensures forall c :: c in children ==> c in levels[|levels| - |path| - 1]
      ensures ExactKeys(info, keys, children)
      ensures (id == root) == (|path| == 1)
    {
      hide LevelOk, InOrder, NoDup, Kids, Entries;
      var m, k := pages[id := Inner(keys, children)], |levels| - |path|;
      LevelKnown(m, levels, info, id, |levels|, k);
      LevelNode(m, levels, info, id, |levels|, k, id);
      LowerLevels(m, levels, info, id, k, pages);
      forall c | c in children
        ensures c in levels[k - 1]
      {
        ChildLevel(m, levels, info, id, |levels|, k, id, c);
      }
      LevelKnown(m, levels, info, id, |levels|, |levels| - 1);
      assert root in levels[|levels| - 1];
    }

    /** The root after it has lost a child: drop it when a single child is left,
        store it otherwise. */
    method SettleRoot(id: PageId, keys: seq<Value>, children: seq<PageId>, path: seq<PageId>) returns (r: Result<()>)
      requires id < |pages| && Pending(id, Inner(keys, children), id, path) && |path| == 1 < |levels| && AllFit()
      requires |keys| <= MAX_SEPARATORS
      modifies this`pages, this`root, this`first, this`levels, this`info
      ensures !r.Cut? && (r.Throw? ==> r.fault.OfStorage())
      ensures AllFit()
      ensures r.Ok? && old(Paired()) ==> Paired()
      ensures kind == IntType ==> r.Ok?
      ensures r.Ok? ==> |levels| <= old(|levels|)
      ensures r.Ok? ==> Tree(pages, NO_PAGE) && Items() == old(Flat(pages[id := Inner(keys, children)], levels))
      ensures r.Ok? ==> KeptBelow(old(pages), pages, old(levels), |old(levels)| - 1, NO_PAGE)
      ensures |children| == 1 ==> r.Ok? && pages == old(pages) && root == children[0]
      ensures |children| != 1 && Fits(Inner(keys, children)) ==>
                r.Ok? && pages == old(pages)[id := Inner(keys, children)] && root == old(root)
    {
      hide KeptBelow, AboveLevels, SameContents, Paired, LevelOk, LevelsOk, Shaped, InOrder, Flat, AllFit,
           InnerOverflow, PathTo, KeysFor;
      PendingChildren(id, keys, children, path);
      if kind == IntType {
        PendingInts(id, keys, children, id, path);
        IntInnerLimits(keys, children);
      }
      if |children| == 1 {
        ghost var m := pages[id := Inner(keys, children)];
        RootOfPath(m, path);
        DropRoot(m, levels, info, id, pages);
        OnlyChild(id, keys, children, path);
        var child :- ReadNode(children[0]);
        root := children[0];
        first :- LeftmostLeaf(children[0], |levels| - 2);
        KeptItself(pages, levels, |levels| - 1);
        levels := levels[..|levels| - 1];
        return Ok(());
      }
      PendingApart(id, keys, children, id, path);
      var _ :- WritePage(id, Inner(keys, children));
      SameContentsItself(pages);
      KeptByOne(old(pages), pages, levels, |levels| - 1, id, Inner(keys, children));
      info := RootClosed(pages, path);
      return Ok(());
    }

    /** A pending inner node is on no lower level. */
    lemma PendingApart(id: PageId, keys: seq<Value>, children: seq<PageId>, hole: PageId, path: seq<PageId>)
      requires Pending(id, Inner(keys, children), hole, path) && |path| <= |levels|
      ensures AboveLevels(levels, |levels| - |path|, id)
    {
      hide InOrder, Flat, LevelsOk;
      LevelsApart(pages[id := Inner(keys, children)], levels, info, hole, |levels| - |path|, id);
    }

    lemma OnlyChild(id: PageId, keys: seq<Value>, children: seq<PageId>, path: seq<PageId>)
      requires id < |pages| && Pending(id, Inner(keys, children), id, path) && |path| == 1 < |levels| && |children| == 1
      ensures levels[|levels| - 2] == children && LevelsOk(pages, levels, info, NO_PAGE, |levels| - 1)
      ensures PageAt(pages, children[0]).Leaf? || PageAt(pages, children[0]).Inner?
    {
      hide LevelOk, InOrder, NoDup, Entries;
      var m, k := pages[id := Inner(keys, children)], |levels| - 1;
      PendingChildren(id, keys, children, path);
      LevelKnown(m, levels, info, id, |levels|, k);
      RootOfPath(m, path);
      KidsOfOne(m, id);
      assert children[0] in levels[k - 1];
      LevelNode(pages, levels, info, NO_PAGE, k, k - 1, children[0]);
    }

    /** `leftmost_leaf`: follow first children. */
    method LeftmostLeaf(id: PageId, ghost k: nat) returns (r: Result<PageId>)
      requires k < |levels| && LevelsOk(pages, levels, info, NO_PAGE, k + 1) && levels[k] == [id]
      ensures r.Throw? ==> r.fault.OfStorage()
      ensures levels[0] != [] && r == Ok(levels[0][0])
    {
      hide LevelOk, LevelsOk;
      var at := id;
      ghost var h := k;
      LevelNode(pages, levels, info, NO_PAGE, k + 1, h, at);
      var p :- ReadNode(at);
      while !p.Leaf?
        invariant 0 <= h <= k && levels[h] != [] && at == levels[h][0] && p == PageAt(pages, at)
        invariant NodeOk(pages, info, NO_PAGE, h, at)
        decreases h
      {
        if p.children == [] {
          return Throw(Structure);
        }
        at := p.children[0];
        FirstChildOfLevel(pages, levels, info, k + 1, h);
        h := h - 1;
        LevelNode(pages, levels, info, NO_PAGE, k + 1, h, at);
        p :- ReadNode(at);
      }
      return Ok(at);
    }

    /** `fix_internal_underflow`: borrow a child from a neighbour that can spare
        one, else merge with a neighbour or share the children out evenly. */
    method FixInternalUnderflow(id: PageId, keys: seq<Value>, children: seq<PageId>, path: seq<PageId>)
      returns (r: Result<()>)
      requires id < |pages| && Pending(id, Inner(keys, children), id, path) && |path| < |levels| && AllFit()
      requires |children| <= MAX_SEPARATORS
      modifies this`pages, this`root, this`first, this`levels, this`info
      ensures r.Throw? ==> r.fault.OfStorage()
      ensures AllFit()
      ensures r.Ok? && old(Paired()) ==> Paired()
      ensures kind == IntType && old(Paired()) ==> !r.Throw?
      ensures r.Ok? ==> |levels| <= old(|levels|)
      ensures r.Ok? ==> Tree(pages, NO_PAGE) && Items() == old(Flat(pages[id := Inner(keys, children)], levels))
      ensures AtLeastTen(old(Flat(pages[id := Inner(keys, children)], levels))) ==> !r.Cut?
      ensures r.Ok? ==> |path| <= |old(levels)| && KeptBelow(old(pages), pages, old(levels), |old(levels)| - |path|, NO_PAGE)
      ensures r.Ok? && |path| > 1 ==>
                InnerRepaired(old(pages[id := Inner(keys, children)]), old(info), pages, id,
                              old(ChildrenOf(PageAt(pages, path[|path| - 2]))))
      decreases |path|, 0
    {
      hide InnerRepaired, InnersJoined, SparesChild, KeptBelow, AboveLevels, SameContents, Paired, AtLeastTen, Tree,
           Pending, PathTo, PairAt, InnerUnderflow, Flat, Items, AllFit, OnDisk, LevelsOk, NoDup;
      ghost var m, was, lv, inf := pages[id := Inner(keys, children)], pages, levels, info;
      PendingChildren(id, keys, children, path);
      PendingShape(id, keys, children, id, path);
      if |path| == 1 {
        r := SettleRoot(id, keys, children, path);
        return;
      }
      ParentOfPending(id, Inner(keys, children), id, path);
      var up := path[..|path| - 1];
      var parentId := Last(up);
      var parent :- ReadInner(parentId);
      var i := IndexOf(parent.children, id);
      if i > 0 {
        PairOfPending(id, Inner(keys, children), id, path, i - 1);
        var leftId := parent.children[i - 1];
        InnerNeighbour(m, id, leftId, id, parentId, i - 1, up, leftId);
        PairApart(m, id, leftId, id, parentId, i - 1, up);
        var left :- ReadInner(leftId);
        if SparesChild(left) {
          r := BorrowChildFromLeft(leftId, left.children, id, children, parentId, parent, i - 1, up, m);
          if r.Ok? {
            var x, y := left.children[..|left.children| - 1], [left.children[|left.children| - 1]] + children;
            KeptByTwo(was, pages, lv, |lv| - |path|, leftId, Inner([], x), id, Inner([], y));
            RepairedFromLeft(m, inf, was, pages, id, parent.children, i, left.children, children);
          }
          return;
        }
      }
      if i + 1 < |parent.children| {
        PairOfPending(id, Inner(keys, children), id, path, i);
        var rightId := parent.children[i + 1];
        InnerNeighbour(m, id, id, rightId, parentId, i, up, rightId);
        PairApart(m, id, id, rightId, parentId, i, up);
        var right :- ReadInner(rightId);
        if SparesChild(right) {
          r := BorrowChildFromRight(id, children, rightId, right.children, parentId, parent, i, up, m);
          if r.Ok? {
            var x, y := children + [right.children[0]], right.children[1..];
            KeptByTwo(was, pages, lv, |lv| - |path|, id, Inner([], x), rightId, Inner([], y));
            RepairedFromRight(m, inf, was, pages, id, parent.children, i, right.children, children);
          }
          return;
        }
      }
      if i > 0 {
        var leftId := parent.children[i - 1];
        var left :- ReadInner(leftId);
        r := MergeInners(leftId, left.children, id, children, parentId, parent, i - 1, up, m, id);
        if r.Ok? {
          RepairedByJoining(m, inf, pages, id, parent.children, i);
        }
        return;
      }
      HasBrother(parentId);
      if i + 1 >= |parent.children| {
        return Throw(Structure);
      }
      var rightId := parent.children[i + 1];
      var right :- ReadInner(rightId);
      r := MergeInners(id, children, rightId, right.children, parentId, parent, i, up, m, id);
      if r.Ok? {
        RepairedByJoining(m, inf, pages, id, parent.children, i);
      }
    }

    lemma HasBrother(parentId: PageId)
      ensures Paired() && PageAt(pages, parentId).Inner? ==> |PageAt(pages, parentId).children| >= 2
    {
    }

    /** A neighbour of an inner node, as it is on disk. */
    lemma InnerNeighbour(m: Pages, hole: PageId, a: PageId, b: PageId, parentId: PageId, i: nat, path: seq<PageId>,
                         c: PageId)
      requires PairAt(m, hole, a, b, parentId, i, path) && OnDisk(m, a, b) && 2 <= |levels| - |path| && AllFit()
      requires c in [a, b] && PageAt(m, c) == PageAt(pages, c)
      ensures PageAt(pages, c).Inner? && PageAt(pages, c).children != []
              && |PageAt(pages, c).children| <= MAX_SEPARATORS + 1
      ensures SparesChild(PageAt(pages, c)) ==> |PageAt(pages, c).children| >= 7
    {
      hide PairAt, OnDisk, Flat, LevelsOk, LevelOk, NodeOk, At, PathTo, InnerUnderflow, InnerOverflow;
      var k, s := PairFacts(m, hole, a, b, parentId, i, path);
      FewChildren(m, hole, a, b, parentId, i, path, c);
      OverflowingInner(m, levels, info, hole, k, c);
    }

    method BorrowChildFromLeft(leftId: PageId, left: seq<PageId>, id: PageId, children: seq<PageId>, parentId: PageId,
                               parent: Page, i: nat, path: seq<PageId>, ghost m: Pages) returns (r: Result<()>)
      requires PairAt(m, id, leftId, id, parentId, i, path) && OnDisk(m, leftId, id) && 2 <= |levels| - |path|
      requires parent == PageAt(m, parentId) && left == ChildrenOf(PageAt(m, leftId))
               && children == ChildrenOf(PageAt(m, id))
      requires |left| > 2 && children != [] && AllFit() && |children| <= MAX_SEPARATORS && |left| <= MAX_SEPARATORS + 1
      modifies this`pages, this`levels, this`info
      ensures !r.Cut? && (r.Throw? ==> r.fault.OfStorage())
      ensures AllFit()
      ensures r.Ok? && old(Paired()) ==> Paired()
      ensures kind == IntType ==> r.Ok?
      ensures r.Ok? ==> |levels| == old(|levels|)
      ensures r.Ok? ==> Tree(pages, NO_PAGE) && Items() == old(Flat(m, levels))
      ensures r.Ok? ==>
                && leftId < |old(pages)| && id < |old(pages)|
                && SameContents(old(pages)[leftId := Inner([], left[..|left| - 1])][id := Inner([], [left[|left| - 1]] + children)], pages)
    {
      hide SameContents, Paired, Tree, PathTo, PairAt, Flat, AllFit, OnDisk;
      var n := |left| - 1;
      r := RewriteInners(leftId, left[..n], id, [left[n]] + children, parentId, parent, i, path, m, id);
    }

    method BorrowChildFromRight(id: PageId, children: seq<PageId>, rightId: PageId, right: seq<PageId>, parentId: PageId,
                                parent: Page, i: nat, path: seq<PageId>, ghost m: Pages) returns (r: Result<()>)
      requires PairAt(m, id, id, rightId, parentId, i, path) && OnDisk(m, id, rightId) && 2 <= |levels| - |path|
      requires parent == PageAt(m, parentId) && right == ChildrenOf(PageAt(m, rightId))
               && children == ChildrenOf(PageAt(m, id))
      requires |right| > 2 && children != [] && AllFit() && |children| <= MAX_SEPARATORS && |right| <= MAX_SEPARATORS + 1
      modifies this`pages, this`levels, this`info
      ensures !r.Cut? && (r.Throw? ==> r.fault.OfStorage())
      ensures AllFit()
      ensures r.Ok? && old(Paired()) ==> Paired()
      ensures kind == IntType ==> r.Ok?
      ensures r.Ok? ==> |levels| == old(|levels|)
      ensures r.Ok? ==> Tree(pages, NO_PAGE) && Items() == old(Flat(m, levels))
      ensures r.Ok? ==>
                && id < |old(pages)| && rightId < |old(pages)|
                && SameContents(old(pages)[id := Inner([], children + [right[0]])][rightId := Inner([], right[1..])], pages)
    {
      hide SameContents, Paired, Tree, PathTo, PairAt, Flat, AllFit, OnDisk;
      r := RewriteInners(id, children + [right[0]], rightId, right[1..], parentId, parent, i, path, m, id);
    }

    method WriteTwoInners(aId: PageId, a: seq<PageId>, bId: PageId, b: seq<PageId>,
                          ghost parentId: PageId, ghost i: nat, ghost path: seq<PageId>, ghost m: Pages, ghost hole: PageId)
      returns (r: Result<()>)
      requires PairAt(m, hole, aId, bId, parentId, i, path) && OnDisk(m, aId, bId) && 2 <= |levels| - |path|
      requires a != [] && b != [] && a + b == ChildrenOf(PageAt(m, aId)) + ChildrenOf(PageAt(m, bId))
      requires AllFit() && |a| <= MAX_SEPARATORS + 1 && |b| <= MAX_SEPARATORS + 1
      modifies this`pages
      ensures !r.Cut? && (r.Throw? ==> r.fault.OfStorage())
      ensures AllFit()
      ensures r.Ok? && old(Paired()) && |a| >= 2 && |b| >= 2 ==> Paired()
      ensures kind == IntType ==> r.Ok?
      ensures r.Ok? ==>
                && aId < |old(pages)| && bId < |old(pages)|
                && SameContents(old(pages)[aId := Inner([], a)][bId := Inner([], b)], pages)
      ensures r.Ok? ==> PairReplaced(m, aId, bId, [aId, bId], path) && OnDisk(m, aId, bId)
    {
      hide SameContents, Paired, LevelOk, NodeOk, LevelsOk, PathTo, InOrder, Kids, Entries, Flat, NoDup, Shaped,
           Takeover, SharedInners, Tree, Fits, PairAt, AllFit, At, Items, PageAt, WithPair, KeysFor;
      ghost var k, s := PairFacts(m, hole, aId, bId, parentId, i, path);
      SharesWithin(a, [], b, levels[k - 1]) by {
        assert a + [] + b == a + b;
      }
      var aKeys :- RebuildKeys(a, levels, info, k - 1);
      var bKeys :- RebuildKeys(b, levels, info, k - 1);
      if kind == IntType {
        IntShares(m, hole, aId, bId, parentId, i, path, a);
        IntShares(m, hole, aId, bId, parentId, i, path, b);
        IntInnerLimits(aKeys, a);
        IntInnerLimits(bKeys, b);
      }
      var _ :- WritePage(aId, Inner(aKeys, a));
      var _ :- WritePage(bId, Inner(bKeys, b));
      TwoInners(m, info, aId, bId, pages);
      TwoInnersFound(old(pages), aId, aKeys, a, bId, bKeys, b);
      return Ok(());
    }

    /** Give two neighbours new shares of their children. */
    method RewriteInners(aId: PageId, a: seq<PageId>, bId: PageId, b: seq<PageId>,
                         parentId: PageId, parent: Page, i: nat, path: seq<PageId>, ghost m: Pages, ghost hole: PageId)
      returns (r: Result<()>)
      requires PairAt(m, hole, aId, bId, parentId, i, path) && OnDisk(m, aId, bId) && 2 <= |levels| - |path|
      requires parent == PageAt(m, parentId) && a != [] && b != []
      requires a + b == ChildrenOf(PageAt(m, aId)) + ChildrenOf(PageAt(m, bId))
      requires AllFit() && |a| <= MAX_SEPARATORS + 1 && |b| <= MAX_SEPARATORS + 1
      modifies this`pages, this`levels, this`info
      ensures !r.Cut? && (r.Throw? ==> r.fault.OfStorage())
      ensures AllFit()
      ensures r.Ok? && old(Paired()) && |a| >= 2 && |b| >= 2 ==> Paired()
      ensures kind == IntType ==> r.Ok?
      ensures r.Ok? ==> |levels| == old(|levels|)
      ensures r.Ok? ==> Tree(pages, NO_PAGE) && Items() == old(Flat(m, levels))
      ensures r.Ok? ==>
                && aId < |old(pages)| && bId < |old(pages)|
                && SameContents(old(pages)[aId := Inner([], a)][bId := Inner([], b)], pages)
    {
      hide SameContents, Paired, LevelOk, NodeOk, LevelsOk, PathTo, InOrder, Flat, Shaped, Tree, PairAt, AllFit, At,
           Items, PageAt, WithPair, OnDisk, PairReplaced;
      ghost var k, s := PairFacts(m, hole, aId, bId, parentId, i, path);
      FewChildren(m, hole, aId, bId, parentId, i, path, parentId);
      var _ :- WriteTwoInners(aId, a, bId, b, parentId, i, path, m, hole);
      SamePair(parent.children, i, aId, bId);
      k, s := PairFacts(m, hole, aId, bId, parentId, i, path);
      ghost var mid := pages;
      r := StoreParent(parent.children, parentId, path, m, hole, aId, bId, i, [aId, bId]);
      if r.Ok? {
        SameChildren(mid, parentId, parent.children);
        SameContentsTwice(mid, mid[parentId := Inner([], parent.children)], pages);
        SameContentsTwice(old(pages)[aId := Inner([], a)][bId := Inner([], b)], mid, pages);
      }
    }

    /** The separators above any share of the children of two neighbours are integers. */
    lemma IntShares(m: Pages, hole: PageId, a: PageId, b: PageId, parentId: PageId, i: nat, path: seq<PageId>,
                    share: seq<PageId>)
      requires PairAt(m, hole, a, b, parentId, i, path) && OnDisk(m, a, b) && 2 <= |levels| - |path| && kind == IntType
      requires share != [] && forall c :: c in share ==> c in ChildrenOf(PageAt(m, a)) + ChildrenOf(PageAt(m, b))
      ensures AllIntKeys(KeysFor(info, share))
    {
      hide OnDisk, Flat, PathTo, PageAt, LevelsOk, NodeOk, At, ChildrenOf, EntriesOf, MinOf, InOrder, HoleAbove;
      var k, s := PairFacts(m, hole, a, b, parentId, i, path);
      PairHole(m, hole, a, b, parentId, i, path, k);
      forall c | c in share
        ensures MinOf(info, c).Int?
      {
        IntMinimum(m, levels, info, hole, k - 1, c);
      }
    }

    lemma PairHole(m: Pages, hole: PageId, a: PageId, b: PageId, parentId: PageId, i: nat, path: seq<PageId>, k: nat)
      requires PairAt(m, hole, a, b, parentId, i, path) && 0 < k < |levels| && a in levels[k] && b in levels[k]
      ensures HoleAbove(levels, hole, k - 1)
    {
    }

    method MergeInners(aId: PageId, a: seq<PageId>, bId: PageId, b: seq<PageId>,
                       parentId: PageId, parent: Page, i: nat, path: seq<PageId>, ghost m: Pages, ghost hole: PageId)
      returns (r: Result<()>)
      requires PairAt(m, hole, aId, bId, parentId, i, path) && OnDisk(m, aId, bId) && 2 <= |levels| - |path|
      requires parent == PageAt(m, parentId) && a == ChildrenOf(PageAt(m, aId)) && b == ChildrenOf(PageAt(m, bId))
      requires AllFit() && |a| + |b| <= 2 * MAX_SEPARATORS + 1
      modifies this`pages, this`root, this`first, this`levels, this`info
      ensures r.Throw? ==> r.fault.OfStorage()
      ensures AllFit()
      ensures r.Ok? && old(Paired()) ==> Paired()
      ensures kind == IntType && old(Paired()) ==> !r.Throw?
      ensures r.Ok? ==> |levels| <= old(|levels|)
      ensures r.Ok? ==> Tree(pages, NO_PAGE) && Items() == old(Flat(m, levels))
      ensures AtLeastTen(old(Flat(m, levels))) ==> !r.Cut?
      ensures r.Ok? ==>
                |path| < |old(levels)| && KeptBelow(old(pages), pages, old(levels), |old(levels)| - |path| - 1, NO_PAGE)
      ensures r.Ok? ==> InnersJoined(m, old(info), pages, aId, bId)
      decreases |path|, 4
    {
      hide InnersJoined, KeptBelow, AboveLevels, SameContents, Paired, AtLeastTen, LevelOk, NodeOk, LevelsOk, PathTo,
           InOrder, Kids, Entries, Flat, NoDup, Shaped, Takeover, SharedInners, Fits, PairAt, AllFit, At, Items,
           PageAt, WithPair, InnerOverflow, KeysFor;
      ghost var k, s := PairFacts(m, hole, aId, bId, parentId, i, path);
      var merged := a + b;
      var keys :- RebuildKeys(merged, levels, info, k - 1);
      MergedLarge(m, hole, aId, bId, parentId, i, path, keys, merged);
      PairApart(m, hole, aId, bId, parentId, i, path);
      ghost var lv := levels;
      if InnerOverflow(keys, merged) {
        var n := (|merged| + 1) / 2;
        r := RewriteInners(aId, merged[..n], bId, merged[n..], parentId, parent, i, path, m, hole);
        if r.Ok? {
          KeptByTwo(old(pages), pages, lv, k, aId, Inner([], merged[..n]), bId, Inner([], merged[n..]));
          JoinedInHalves(m, old(info), old(pages), pages, aId, bId, merged);
        }
        return;
      }
      r := JoinInners(aId, bId, keys, merged, parentId, parent, i, path, m, hole);
      if r.Ok? {
        JoinedInOne(m, old(info), pages, aId, bId, merged);
      }
    }

    /** The first of two neighbours takes all their children. */
    method JoinInners(aId: PageId, bId: PageId, keys: seq<Value>, merged: seq<PageId>,
                      parentId: PageId, parent: Page, i: nat, path: seq<PageId>, ghost m: Pages, ghost hole: PageId)
      returns (r: Result<()>)
      requires PairAt(m, hole, aId, bId, parentId, i, path) && OnDisk(m, aId, bId) && 2 <= |levels| - |path|
      requires parent == PageAt(m, parentId) && merged == ChildrenOf(PageAt(m, aId)) + ChildrenOf(PageAt(m, bId))
      requires merged != [] && keys == KeysFor(info, merged) && |merged| >= 2 && !InnerOverflow(keys, merged) && AllFit()
      modifies this`pages, this`root, this`first, this`levels, this`info
      ensures r.Throw? ==> r.fault.OfStorage()
      ensures AllFit()
      ensures r.Ok? && old(Paired()) ==> Paired()
      ensures kind == IntType && old(Paired()) ==> !r.Throw?
      ensures r.Ok? ==> |levels| <= old(|levels|)
      ensures r.Ok? ==> Tree(pages, NO_PAGE) && Items() == old(Flat(m, levels))
      ensures AtLeastTen(old(Flat(m, levels))) ==> !r.Cut?
      ensures r.Ok? ==>
                |path| < |old(levels)| && KeptBelow(old(pages), pages, old(levels), |old(levels)| - |path| - 1, NO_PAGE)
      ensures r.Ok? ==> ChildrenOf(PageAt(pages, aId)) == merged
      decreases |path|, 3
    {
      hide KeptBelow, AboveLevels, Paired, AtLeastTen, LevelOk, NodeOk, LevelsOk, PathTo, InOrder, Kids, Entries,
           Flat, NoDup, Shaped, Takeover, SharedInners, Fits, PairAt, AllFit, At, Items, PageAt, WithPair,
           InnerOverflow, KeysFor, PairReplaced;
      ghost var k, s := PairFacts(m, hole, aId, bId, parentId, i, path);
      PairApart(m, hole, aId, bId, parentId, i, path);
      if AtLeastTen(Flat(m, levels)) {
        LongMerged(m, hole, aId, bId, parentId, i, path, keys, merged);
      }
      var _ :- WritePage(aId, Inner(keys, merged));
      JoinedOnDisk(m, hole, aId, bId, parentId, i, path, old(pages), keys, merged);
      ghost var mid, lv := pages, levels;
      r := DropSecond(aId, bId, parentId, parent, i, path, m, hole);
      if r.Ok? {
        KeptAfterOne(old(pages), mid, pages, lv, k, aId, bId, Inner(keys, merged));
        KeptOne(mid, pages, lv, k, aId, bId);
      }
    }

    lemma JoinedOnDisk(m: Pages, hole: PageId, a: PageId, b: PageId, parentId: PageId, i: nat, path: seq<PageId>,
                       was: Pages,
                       keys: seq<Value>, merged: seq<PageId>)
      requires PairAt(m, hole, a, b, parentId, i, path) && 2 <= |levels| - |path| && a < |was| && |m| <= |was|
      requires forall id: PageId :: id < |m| && id != a && id != b ==> PageAt(was, id) == PageAt(m, id)
      requires merged == ChildrenOf(PageAt(m, a)) + ChildrenOf(PageAt(m, b)) && merged != []
               && keys == KeysFor(info, merged)
      requires pages == was[a := Inner(keys, merged)]
      ensures PairReplaced(m, a, b, [a], path) && OnDisk(m, a, b)
    {
      hide LevelOk, NodeOk, LevelsOk, PathTo, InOrder, Kids, Entries, Flat, NoDup, Takeover, SharedInners, PairAt, At;
      assert OnDisk(m, a, b);
      var k, s := PairFacts(m, hole, a, b, parentId, i, path);
      OneInner(m, info, a, b, pages);
    }

    /** Two neighbours are on no lower level. */
    lemma PairApart(m: Pages, hole: PageId, a: PageId, b: PageId, parentId: PageId, i: nat, path: seq<PageId>)
      requires PairAt(m, hole, a, b, parentId, i, path) && OnDisk(m, a, b)
      ensures AboveLevels(levels, |levels| - |path| - 1, a) && AboveLevels(levels, |levels| - |path| - 1, b)
    {
      hide PairAt, OnDisk, LevelsOk, NodeOk, At, AboveLevels;
      var k, s := PairFacts(m, hole, a, b, parentId, i, path);
      LevelsApart(m, levels, info, hole, k, a);
      LevelsApart(m, levels, info, hole, k, b);
    }

    lemma MergedLarge(m: Pages, hole: PageId, a: PageId, b: PageId, parentId: PageId, i: nat, path: seq<PageId>,
                      keys: seq<Value>, merged: seq<PageId>)
      requires PairAt(m, hole, a, b, parentId, i, path) && OnDisk(m, a, b) && 2 <= |levels| - |path|
      requires merged == ChildrenOf(PageAt(m, a)) + ChildrenOf(PageAt(m, b)) && merged != []
               && keys == KeysFor(info, merged)
      ensures InnerOverflow(keys, merged) ==> |merged| >= 8
      ensures |merged| >= 2
    {
      hide InnerOverflow, PairAt, OnDisk, Flat, LevelsOk, LevelOk, NodeOk, Shaped, At, PathTo;
      var k, s := PairFacts(m, hole, a, b, parentId, i, path);
      LevelKnown(m, levels, info, hole, |levels|, k - 1);
      forall j | 0 <= j < |keys|
        ensures EncodedSize(keys[j]) <= MAX_KEY_BYTES
      {
        assert merged[j + 1] in merged && Known(info, merged[j + 1], k - 1);
      }
      InnerCountFromBytes(keys, merged);
    }

    lemma LongMerged(m: Pages, hole: PageId, a: PageId, b: PageId, parentId: PageId, i: nat, path: seq<PageId>,
                     keys: seq<Value>, merged: seq<PageId>)
      requires PairAt(m, hole, a, b, parentId, i, path) && OnDisk(m, a, b) && 2 <= |levels| - |path|
      requires merged == ChildrenOf(PageAt(m, a)) + ChildrenOf(PageAt(m, b)) && merged != []
               && keys == KeysFor(info, merged)
      requires AtLeastTen(Flat(m, levels)) && !InnerOverflow(keys, merged)
      ensures Fits(Inner(keys, merged))
    {
      hide AtLeastTen, InnerOverflow, EncodedSize, PairAt, OnDisk, Flat;
      forall j | 0 <= j < |keys|
        ensures EncodedSize(keys[j]) >= 10
      {
        assert merged[j + 1] in merged;
        LongBelowPair(m, hole, a, b, parentId, i, path, merged[j + 1]);
      }
      TenByteSeparatorsAreCounted(keys, merged);
    }

    lemma LongBelowPair(m: Pages, hole: PageId, a: PageId, b: PageId, parentId: PageId, i: nat, path: seq<PageId>,
                        c: PageId)
      requires PairAt(m, hole, a, b, parentId, i, path) && OnDisk(m, a, b) && 2 <= |levels| - |path|
      requires c in ChildrenOf(PageAt(m, a)) + ChildrenOf(PageAt(m, b)) && AtLeastTen(Flat(m, levels))
      ensures EncodedSize(MinOf(info, c)) >= 10
    {
      hide AtLeastTen, EncodedSize, OnDisk, Flat, Tree, PathTo, PageAt, Shaped, LevelsOk, NodeOk, At, ChildrenOf,
           EntriesOf, MinOf;
      var k, s := PairFacts(m, hole, a, b, parentId, i, path);
      assert c in levels[k - 1];
      assert hole == NO_PAGE || hole in levels[k];
      LongMinimum(m, hole, k - 1, c);
    }

    /** The first of two neighbours has taken everything over: take the second
        out of the parent and repair the parent. */
    method DropSecond(aId: PageId, bId: PageId, parentId: PageId, parent: Page, i: nat, path: seq<PageId>,
                      ghost m: Pages, ghost hole: PageId)
      returns (r: Result<()>)
      requires PairAt(m, hole, aId, bId, parentId, i, path) && OnDisk(m, aId, bId)
               && PairReplaced(m, aId, bId, [aId], path)
      requires parent == PageAt(m, parentId) && parent.Inner? && AllFit()
      modifies this`pages, this`root, this`first, this`levels, this`info
      ensures r.Throw? ==> r.fault.OfStorage()
      ensures AllFit()
      ensures r.Ok? && old(Paired()) ==> Paired()
      ensures kind == IntType && old(Paired()) ==> !r.Throw?
      ensures r.Ok? ==> |levels| <= old(|levels|)
      ensures r.Ok? ==> Tree(pages, NO_PAGE) && Items() == old(Flat(m, levels))
      ensures AtLeastTen(old(Flat(m, levels))) ==> !r.Cut?
      ensures r.Ok? ==> |path| <= |old(levels)| && KeptBelow(old(pages), pages, old(levels), |old(levels)| - |path|, bId)
      ensures |path| == 1 && |parent.children| == 2 ==> r.Ok? && pages == old(pages) && root == aId
      ensures IntsUnderRoot(parent, path) && old(|levels|) == 2 && |parent.children| > 2 ==>
                && r.Ok? && root == old(root) && i + 1 < |parent.children|
                && ParentOnly(pages, old(pages), parentId, parent.children[..i + 1] + parent.children[i + 2..])
      ensures |path| == 1 ==> !r.Cut?
      decreases |path|, 2
    {
      hide KeptBelow, Paired, AtLeastTen, PathTo, InOrder, Flat, Shaped, AllFit, Items, PageAt, WithPair, KeysFor,
           PairReplaced, OnDisk, ParentOnly, InnerRepaired, InnerUnderflow, SameContents, LosesOnly;
      var children := parent.children[..i + 1] + parent.children[i + 2..];
      WithoutSecond(parent.children, i, aId, bId);
      FewInParent(m, hole, aId, bId, parentId, i, path);
      ghost var lv, inf := SecondDropped(m, hole, aId, bId, parentId, i, path, children);
      levels, info := lv, inf;
      r := HandleChildRemoved(parentId, children, path);
      if r.Ok? {
        KeptAcross(old(pages), pages, old(levels), lv, |lv| - |path|, aId, bId);
      }
    }

    /** `fix_leaf_underflow`: borrow an entry from a neighbour that can spare one,
        else merge with a neighbour or share the entries out over three leaves. */
    method FixLeafUnderflow(id: PageId, leaf: Page, path: seq<PageId>, ghost least: nat) returns (r: Result<()>)
      requires id < |pages| && leaf.Leaf? && Pending(id, leaf, id, path) && 1 <= |path| == |levels| && AllFit()
      requires (|path| == 1 ==> leaf.entries != []) && least <= MIN_INTS
      modifies this`pages, this`root, this`first, this`levels, this`info
      ensures r.Throw? ==> r.fault.OfStorage()
      ensures AllFit()
      ensures r.Ok? && old(Paired()) ==> Paired()
      ensures kind == IntType && |leaf.entries| < INTS_PER_LEAF && old(Paired()) ==> !r.Throw?
      ensures r.Ok? ==> |levels| <= old(|levels|)
      ensures r.Ok? ==> Tree(pages, NO_PAGE) && Items() == old(Flat(pages[id := leaf], levels))
      ensures r.Ok? && |path| > 1 ==>
                LeafRepaired(old(pages[id := leaf]), pages, id, old(ChildrenOf(PageAt(pages, path[|path| - 2]))))
      ensures AtLeastTen(old(Flat(pages[id := leaf], levels))) ==> !r.Cut?
      ensures r.Cut? && |path| <= 2 ==> Healable(pages, old(Flat(pages[id := leaf], levels)))
      ensures old(Brotherless(id, path)) ==> r == Throw(Structure)
      ensures old(EasyShort(id, leaf, least) && !Brotherless(id, path)) ==>
                && !r.Throw? && (r.Cut? <==> old(NoRepair(pages, root, id, |leaf.entries|)))
                && (r.Ok? ==> Comfortable(pages, root, least))
                && (r.Cut? ==> root == old(root) && RootCut(pages, root, old(FirstChild(PageAt(pages, root)))))
    {
      hide LeafRepaired, LeftSpare, RightSpare, Paired, AtLeastTen, Healable, Tree, Pending, PathTo, LeafUnderflow,
           LeafOverflow, Flat, AllFit, PageAt, EasyShort, ComfortableBut, NoRepair, NoneToSpare, Brotherless,
           RootCut;
      ghost var easy := EasyShort(id, leaf, least);
      ShortInMemory(id, leaf, path);
      if easy {
        EasyShortFacts(id, leaf, path, least);
        RepairDecides(id, |leaf.entries|);
      }
      AloneBelow(id, path);
      if kind == IntType {
        PendingLeafInts(id, leaf, id, path);
      }
      if |path| == 1 {
        var _ :- WritePage(id, leaf);
        AlikeItself();
        ghost var whole, a;
        r, whole, a := PropagateMin(path, pages);
        if easy {
          LeafRootStays(id, leaf, path, least);
        }
        return;
      }
      var done :- BorrowEntry(id, leaf, path, least);
      if done {
        return Ok(());
      }
      r := MergeShortLeaf(id, leaf, path, least);
    }

    /** The first half of `fix_leaf_underflow`: whether a neighbour, the left one
        first, could spare an entry. */
    method BorrowEntry(id: PageId, leaf: Page, path: seq<PageId>, ghost least: nat) returns (r: Result<bool>)
      requires id < |pages| && leaf.Leaf? && Pending(id, leaf, id, path) && 1 < |path| == |levels| && AllFit()
      requires least <= MIN_INTS
      modifies this`pages, this`root, this`first, this`levels, this`info
      ensures !r.Cut? && (r.Throw? ==> r.fault.OfStorage())
      ensures AllFit()
      ensures kind == IntType && |leaf.entries| < INTS_PER_LEAF ==> r.Ok?
      ensures r.Ok? && old(Paired()) ==> Paired()
      ensures r.Ok? ==> |levels| == old(|levels|)
      ensures r == Ok(true) ==> Tree(pages, NO_PAGE) && Items() == old(Flat(pages[id := leaf], levels))
      ensures r == Ok(false) ==> unchanged(this)
      ensures r.Ok? ==>
                (r.value <==> LeftSpare(old(pages[id := leaf]), id, old(ChildrenOf(PageAt(pages, path[|path| - 2]))))
                              || RightSpare(old(pages[id := leaf]), id, old(ChildrenOf(PageAt(pages, path[|path| - 2])))))
      ensures r == Ok(true) ==>
                LeafRepaired(old(pages[id := leaf]), pages, id, old(ChildrenOf(PageAt(pages, path[|path| - 2]))))
      ensures old(Brotherless(id, path)) ==> r == Ok(false)
      ensures old(EasyShort(id, leaf, least)) ==>
                r.Ok? && (r.value <==> !old(NoneToSpare(id))) && (r.value ==> Comfortable(pages, root, least))
    {
      hide LeafRepaired, LeftSpare, RightSpare, Paired, Tree, Pending, PathTo, Flat, AllFit, PageAt, EasyShort,
           Comfortable, Brotherless, LeftSpares, RightSpares, Items;
      if EasyShort(id, leaf, least) {
        EasyShortFacts(id, leaf, path, least);
        NoneSpares(id, leaf, path);
      }
      var done :- BorrowOnLeft(id, leaf, path, least);
      if done {
        return Ok(true);
      }
      r := BorrowOnRight(id, leaf, path, least);
    }

    method BorrowOnLeft(id: PageId, leaf: Page, path: seq<PageId>, ghost least: nat) returns (r: Result<bool>)
      requires id < |pages| && leaf.Leaf? && Pending(id, leaf, id, path) && 1 < |path| == |levels| && AllFit()
      requires least <= MIN_INTS
      modifies this`pages, this`root, this`first, this`levels, this`info
      ensures !r.Cut? && (r.Throw? ==> r.fault.OfStorage())
      ensures AllFit()
      ensures kind == IntType && |leaf.entries| < INTS_PER_LEAF ==> r.Ok?
      ensures r.Ok? && old(Paired()) ==> Paired()
      ensures r.Ok? ==> |levels| == old(|levels|)
      ensures r == Ok(true) ==> Tree(pages, NO_PAGE) && Items() == old(Flat(pages[id := leaf], levels))
      ensures r == Ok(false) ==> unchanged(this)
      ensures r.Ok? ==>
                (r.value <==> LeftSpare(old(pages[id := leaf]), id, old(ChildrenOf(PageAt(pages, path[|path| - 2])))))
      ensures r == Ok(true) ==>
                LeafRepaired(old(pages[id := leaf]), pages, id, old(ChildrenOf(PageAt(pages, path[|path| - 2]))))
      ensures old(Brotherless(id, path)) ==> r == Ok(false)
      ensures old(EasyShort(id, leaf, least)) ==>
                r.Ok? && (r.value <==> old(LeftSpares(id))) && (r.value ==> Comfortable(pages, root, least))
    {
      hide LeafRepaired, LeftSpare, SameContents, Paired, Tree, Pending, PathTo, PairAt, LeafUnderflow, LeafOverflow,
           Flat, AllFit, OnDisk, LevelsOk, PageAt, EasyShort, ComfortableBut, PairShared, Brotherless, LeftSpares,
           Items, Fits, AllInts, EncodedSize, IntsUnderRoot;
      ghost var m, was, easy := pages[id := leaf], pages, EasyShort(id, leaf, least);
      ShortInMemory(id, leaf, path);
      ParentOfPending(id, leaf, id, path);
      var up := path[..|path| - 1];
      var parentId := Last(up);
      var parent :- ReadInner(parentId);
      var i := IndexOf(parent.children, id);
      OneBrother(id, path, parent.children);
      NoSpare(m, id, parent.children, i);
      if easy {
        EasyParent(id, leaf, path, least);
        SpareDecides(id);
      }
      if i > 0 {
        var leftId := parent.children[i - 1];
        PairBefore(id, leaf, path, parent, i, leftId);
        if easy {
          EasyBrother(id, leaf, path, leftId, least);
        }
        LeafNeighbour(m, id, leftId, id, parentId, i - 1, up, leftId);
        var left :- ReadLeaf(leftId);
        if !LeafUnderflow(left.entries) {
          var _ :- BorrowFromLeft(leftId, left, id, leaf, parentId, parent, i - 1, up, m);
          LeafFromLeft(m, was, pages, id, parent.children, i, left, leaf);
          if easy {
            SharingStaysComfortable(pages, was, m, root, [id], leftId, |left.entries| - 1, id, |leaf.entries| + 1, least);
          }
          return Ok(true);
        }
      }
      return Ok(false);
    }

    /** A neighbour of a leaf, as it is on disk. */
    lemma LeafNeighbour(m: Pages, hole: PageId, a: PageId, b: PageId, parentId: PageId, i: nat, path: seq<PageId>,
                        c: PageId)
      requires PairAt(m, hole, a, b, parentId, i, path) && OnDisk(m, a, b) && |levels| - |path| == 1 && AllFit()
      requires c in [a, b] && PageAt(m, c) == PageAt(pages, c)
      ensures PageAt(pages, c).Leaf? && (kind == IntType ==> |PageAt(pages, c).entries| <= INTS_PER_LEAF)
    {
      hide PairAt, OnDisk, Flat, LevelsOk, LevelOk, NodeOk, At, PathTo, LeafOverflow;
      var k, s := PairFacts(m, hole, a, b, parentId, i, path);
      if kind == IntType {
        PairInts(m, hole, a, b, parentId, i, path);
        StoredLeaf(c);
        IntLeafLimits(EntriesOf(PageAt(pages, c)));
      }
    }

    lemma PairBehind(id: PageId, leaf: Page, path: seq<PageId>, parent: Page, i: nat, rightId: PageId)
      requires Pending(id, leaf, id, path) && 1 < |path| <= |levels|
      requires parent == PageAt(pages, path[|path| - 2]) && parent.Inner? && i + 1 < |parent.children|
      requires parent.children[i] == id && parent.children[i + 1] == rightId
      ensures var up, m := path[..|path| - 1], pages[id := leaf];
              && PairAt(m, id, id, rightId, Last(up), i, up) && OnDisk(m, id, rightId) && rightId != id
              && rightId in parent.children && PageAt(m, Last(up)) == parent
    {
      hide Tree, Pending, PathTo, PairAt, OnDisk, PageAt;
      ParentOfPending(id, leaf, id, path);
      PairOfPending(id, leaf, id, path, i);
    }

    lemma PairBefore(id: PageId, leaf: Page, path: seq<PageId>, parent: Page, i: nat, leftId: PageId)
      requires Pending(id, leaf, id, path) && 1 < |path| <= |levels|
      requires parent == PageAt(pages, path[|path| - 2]) && parent.Inner? && 0 < i < |parent.children|
      requires parent.children[i] == id && parent.children[i - 1] == leftId
      ensures var up, m := path[..|path| - 1], pages[id := leaf];
              && PairAt(m, id, leftId, id, Last(up), i - 1, up) && OnDisk(m, leftId, id) && leftId != id
              && leftId in parent.children && PageAt(m, Last(up)) == parent
    {
      hide Tree, Pending, PathTo, PairAt, OnDisk, PageAt;
      ParentOfPending(id, leaf, id, path);
      PairOfPending(id, leaf, id, path, i - 1);
    }

    method BorrowOnRight(id: PageId, leaf: Page, path: seq<PageId>, ghost least: nat) returns (r: Result<bool>)
      requires id < |pages| && leaf.Leaf? && Pending(id, leaf, id, path) && 1 < |path| == |levels| && AllFit()
      requires least <= MIN_INTS
      modifies this`pages, this`root, this`first, this`levels, this`info
      ensures !r.Cut? && (r.Throw? ==> r.fault.OfStorage())
      ensures AllFit()
      ensures kind == IntType && |leaf.entries| < INTS_PER_LEAF ==> r.Ok?
      ensures r.Ok? && old(Paired()) ==> Paired()
      ensures r.Ok? ==> |levels| == old(|levels|)
      ensures r == Ok(true) ==> Tree(pages, NO_PAGE) && Items() == old(Flat(pages[id := leaf], levels))
      ensures r == Ok(false) ==> unchanged(this)
      ensures r.Ok? ==>
                (r.value <==> RightSpare(old(pages[id := leaf]), id, old(ChildrenOf(PageAt(pages, path[|path| - 2])))))
      ensures r == Ok(true)
              && !LeftSpare(old(pages[id := leaf]), id, old(ChildrenOf(PageAt(pages, path[|path| - 2])))) ==>
                LeafRepaired(old(pages[id := leaf]), pages, id, old(ChildrenOf(PageAt(pages, path[|path| - 2]))))
      ensures old(Brotherless(id, path)) ==> r == Ok(false)
      ensures old(EasyShort(id, leaf, least)) ==>
                r.Ok? && (r.value <==> old(RightSpares(id))) && (r.value ==> Comfortable(pages, root, least))
    {
      hide LeafRepaired, LeftSpare, RightSpare, SameContents, Paired, Tree, Pending, PathTo, PairAt, LeafUnderflow,
           LeafOverflow, Flat, AllFit, OnDisk, LevelsOk, PageAt, EasyShort, ComfortableBut, PairShared, Brotherless,
           RightSpares, Items, Fits, AllInts, EncodedSize, IntsUnderRoot;
      ghost var m, was, easy := pages[id := leaf], pages, EasyShort(id, leaf, least);
      ShortInMemory(id, leaf, path);
      ParentOfPending(id, leaf, id, path);
      var up := path[..|path| - 1];
      var parentId := Last(up);
      var parent :- ReadInner(parentId);
      var i := IndexOf(parent.children, id);
      OneBrother(id, path, parent.children);
      NoSpare(m, id, parent.children, i);
      if easy {
        EasyParent(id, leaf, path, least);
        SpareDecides(id);
      }
      if i + 1 < |parent.children| {
        var rightId := parent.children[i + 1];
        PairBehind(id, leaf, path, parent, i, rightId);
        if easy {
          EasyBrother(id, leaf, path, rightId, least);
        }
        LeafNeighbour(m, id, id, rightId, parentId, i, up, rightId);
        var right :- ReadLeaf(rightId);
        if !LeafUnderflow(right.entries) {
          var _ :- BorrowFromRight(id, leaf, rightId, right, parentId, parent, i, up, m);
          LeafFromRight(m, was, pages, id, parent.children, i, right, leaf);
          if easy {
            SharingStaysComfortable(pages, was, m, root, [id], id, |leaf.entries| + 1, rightId, |right.entries| - 1, least);
          }
          return Ok(true);
        }
      }
      return Ok(false);
    }

    /** In an index of integers the parent of a short leaf is the root. */
    lemma EasyParent(id: PageId, leaf: Page, path: seq<PageId>, least: nat)
      requires id < |pages| && leaf.Leaf? && Pending(id, leaf, id, path) && 1 < |path| == |levels|
               && EasyShort(id, leaf, least)
      ensures |path| == 2 && path[0] == root && PageAt(pages, root).Inner?
      ensures IntsUnderRoot(PageAt(pages, root), path[..|path| - 1])
      ensures PageAt(pages[id := leaf], root) == PageAt(pages, root)
              && ComfortableBut(pages[id := leaf], root, [id], least)
      ensures least <= |leaf.entries| + 1 <= INTS_AT_MIN_FILL
    {
      hide Tree, PathTo, Pending, EasyShort, ComfortableBut;
      EasyShortFacts(id, leaf, path, least);
    }

    lemma EasyBrother(id: PageId, leaf: Page, path: seq<PageId>, c: PageId, least: nat)
      requires id < |pages| && leaf.Leaf? && Pending(id, leaf, id, path) && 1 < |path| == |levels|
               && EasyShort(id, leaf, least)
      requires c != id && c in ChildrenOf(PageAt(pages, path[|path| - 2]))
      ensures PageAt(pages, c).Leaf? && |EntriesOf(PageAt(pages, c))| <= INTS_PER_LEAF
      ensures LeafUnderflow(EntriesOf(PageAt(pages, c))) <==> |EntriesOf(PageAt(pages, c))| < INTS_AT_MIN_FILL
    {
      hide Tree, PathTo, Pending, EasyShort, LeafUnderflow, PageAt;
      EasyShortFacts(id, leaf, path, least);
      ShortInMemory(id, leaf, path);
      TreeOrder(pages[id := leaf], id);
      ShortSibling(id, leaf, c, least);
    }

    /** The second half: the leaf is merged with a neighbour, the left one if there is
        one, or the two share their entries with a third. */
    method MergeShortLeaf(id: PageId, leaf: Page, path: seq<PageId>, ghost least: nat) returns (r: Result<()>)
      requires id < |pages| && leaf.Leaf? && Pending(id, leaf, id, path) && 1 < |path| == |levels| && AllFit()
      requires least <= MIN_INTS
      modifies this`pages, this`root, this`first, this`levels, this`info
      ensures r.Throw? ==> r.fault.OfStorage()
      ensures AllFit()
      ensures r.Ok? && old(Paired()) ==> Paired()
      ensures kind == IntType && |leaf.entries| < INTS_PER_LEAF && old(Paired()) ==> !r.Throw?
      ensures r.Ok? ==> |levels| <= old(|levels|)
      ensures r.Ok? ==> Tree(pages, NO_PAGE) && Items() == old(Flat(pages[id := leaf], levels))
      ensures r.Ok? && !LeftSpare(old(pages[id := leaf]), id, old(ChildrenOf(PageAt(pages, path[|path| - 2]))))
              && !RightSpare(old(pages[id := leaf]), id, old(ChildrenOf(PageAt(pages, path[|path| - 2])))) ==>
                LeafRepaired(old(pages[id := leaf]), pages, id, old(ChildrenOf(PageAt(pages, path[|path| - 2]))))
      ensures AtLeastTen(old(Flat(pages[id := leaf], levels))) ==> !r.Cut?
      ensures r.Cut? && |path| == 2 ==> Healable(pages, old(Flat(pages[id := leaf], levels)))
      ensures old(Brotherless(id, path)) ==> r == Throw(Structure)
      ensures old(EasyShort(id, leaf, least) && NoneToSpare(id) && !Brotherless(id, path)) ==>
                && !r.Throw? && (r.Cut? <==> old(NoRepair(pages, root, id, |leaf.entries|)))
                && (r.Ok? ==> Comfortable(pages, root, least))
                && (r.Cut? ==> root == old(root) && RootCut(pages, root, old(FirstChild(PageAt(pages, root)))))
    {
      hide LeafRepaired, LeftSpare, RightSpare, LeavesJoined, Paired, AtLeastTen, Healable, Tree, Pending, PathTo,
           PairAt, LeafUnderflow, LeafOverflow, Flat, AllFit, OnDisk, LevelsOk, PageAt, EasyShort, ComfortableBut,
           NoRepair, NoneToSpare, EasyMerge, Comfortable, IntsUnderRoot, EncodedSize, AllInts, RootCut, NoDup, InOrder;
      ghost var m := pages[id := leaf];
      ghost var easy := EasyShort(id, leaf, least) && NoneToSpare(id) && !Brotherless(id, path);
      ShortInMemory(id, leaf, path);
      ParentOfPending(id, leaf, id, path);
      var up := path[..|path| - 1];
      var parentId := Last(up);
      var parent :- ReadInner(parentId);
      var i := IndexOf(parent.children, id);
      if i > 0 {
        var leftId := parent.children[i - 1];
        PairBefore(id, leaf, path, parent, i, leftId);
        if easy {
          MergeDecides(id, leaf, path, i, leftId, least);
        }
        LeafNeighbour(m, id, leftId, id, parentId, i - 1, up, leftId);
        var left :- ReadLeaf(leftId);
        r := MergeLeaves(leftId, left.entries, id, leaf.entries, leaf.next, parentId, parent, i - 1, up, m, id, least);
        if r.Ok? {
          LeafByJoining(m, pages, id, parent.children, i);
        }
        return;
      }
      HasBrother(parentId);
      if i + 1 >= |parent.children| {
        assert parent.children == [id];
        return Throw(Structure);
      }
      var rightId := parent.children[i + 1];
      PairBehind(id, leaf, path, parent, i, rightId);
      if easy {
        MergeDecides(id, leaf, path, i, rightId, least);
      }
      LeafNeighbour(m, id, id, rightId, parentId, i, up, rightId);
      var right :- ReadLeaf(rightId);
      r := MergeLeaves(id, leaf.entries, rightId, right.entries, right.next, parentId, parent, i, up, m, id, least);
      if r.Ok? {
        LeafByJoining(m, pages, id, parent.children, i);
      }
    }

    /** The leaf a path leads to has no brothers. */
    ghost predicate Brotherless(id: PageId, path: seq<PageId>)
      reads this`pages
    {
      |path| > 1 && ChildrenOf(PageAt(pages, path[|path| - 2])) == [id]
    }

    lemma OneBrother(id: PageId, path: seq<PageId>, children: seq<PageId>)
      requires |path| > 1 && children == ChildrenOf(PageAt(pages, path[|path| - 2])) && id in children
      ensures Brotherless(id, path) ==> |children| == 1 && IndexOf(children, id) == 0
    {
    }

    lemma AloneBelow(id: PageId, path: seq<PageId>)
      ensures Brotherless(id, path) ==> |path| > 1
    {
    }

    /** Merging a short leaf with the neighbour c: what it takes. */
    lemma MergeDecides(id: PageId, leaf: Page, path: seq<PageId>, i: nat, c: PageId, least: nat)
      requires id < |pages| && leaf.Leaf? && Pending(id, leaf, id, path) && 1 < |path| == |levels|
      requires EasyShort(id, leaf, least) && NoneToSpare(id)
      requires var cs := ChildrenOf(PageAt(pages, path[|path| - 2]));
               i == IndexOf(cs, id) < |cs| && (if i > 0 then c == cs[i - 1] else i + 1 < |cs| && c == cs[i + 1]) && c != id
      ensures var up, m := path[..|path| - 1], pages[id := leaf];
              && PageAt(pages, root).Inner? && Last(up) == root
              && EasyMerge(m, id, c, root, PageAt(pages, root), up, least)
              && EasyMerge(m, c, id, root, PageAt(pages, root), up, least)
              && PageAt(pages, c).Leaf? && PageAt(m, c) == PageAt(pages, c) && PageAt(m, root) == PageAt(pages, root)
      ensures var n := |leaf.entries| + |EntriesOf(PageAt(pages, c))|;
              && least <= n <= 2 * INTS_PER_LEAF
              && (NoRepair(pages, root, id, |leaf.entries|) <==>
                    |PageAt(pages, root).children| > MAX_SEPARATORS && n > INTS_PER_LEAF)
    {
      hide Tree, PathTo, Pending, EasyShort, NoRepair, NoneToSpare, EasyMerge;
      EasyShortFacts(id, leaf, path, least);
      RepairDecides(id, |leaf.entries|);
      ShortInMemory(id, leaf, path);
      TreeOrder(pages[id := leaf], id);
      ShortSibling(id, leaf, c, least);
      ShortMerge(id, leaf, c, id, c, root, PageAt(pages, root), path[..|path| - 1], least);
      ShortMerge(id, leaf, c, c, id, root, PageAt(pages, root), path[..|path| - 1], least);
    }

    lemma TreeOrder(m: Pages, hole: PageId)
      requires Tree(m, hole)
      ensures |levels| > 0 && InOrder(kind, Flat(m, levels))
    {
    }

    /** The left neighbour of a leaf below the root can spare an entry. */
    ghost predicate LeftSpares(id: PageId)
      reads this`pages, this`root
    {
      && PageAt(pages, root).Inner?
      && var cs := PageAt(pages, root).children;
         var i := IndexOf(cs, id);
      && 0 < i < |cs| && |EntriesOf(PageAt(pages, cs[i - 1]))| >= INTS_AT_MIN_FILL
    }

    ghost predicate RightSpares(id: PageId)
      reads this`pages, this`root
    {
      && PageAt(pages, root).Inner?
      && var cs := PageAt(pages, root).children;
         var i := IndexOf(cs, id);
      && i + 1 < |cs| && |EntriesOf(PageAt(pages, cs[i + 1]))| >= INTS_AT_MIN_FILL
    }

    /** Neither neighbour of a leaf below the root can spare an entry. */
    ghost predicate NoneToSpare(id: PageId)
      reads this`pages, this`root
    {
      && PageAt(pages, root).Inner? && id in PageAt(pages, root).children
      && !LeftSpares(id) && !RightSpares(id)
    }

    lemma NoneSpares(id: PageId, leaf: Page, path: seq<PageId>)
      requires id < |pages| && Pending(id, leaf, id, path) && |path| == 2 && path[0] == root
      ensures NoneToSpare(id) <==> !LeftSpares(id) && !RightSpares(id)
    {
      hide Tree, PathTo, LeftSpares, RightSpares;
      ParentOfPending(id, leaf, id, path);
    }

    lemma SpareDecides(id: PageId)
      requires PageAt(pages, root).Inner? && id in PageAt(pages, root).children
      ensures var cs := PageAt(pages, root).children;
              var i := IndexOf(cs, id);
              && (LeftSpares(id) <==> i > 0 && |EntriesOf(PageAt(pages, cs[i - 1]))| >= INTS_AT_MIN_FILL)
              && (RightSpares(id) <==> i + 1 < |cs| && |EntriesOf(PageAt(pages, cs[i + 1]))| >= INTS_AT_MIN_FILL)
    {
    }

    /** When a leaf left with n entries cannot be repaired. */
    lemma RepairDecides(id: PageId, n: nat)
      ensures PageAt(pages, root).Leaf? || n >= INTS_AT_MIN_FILL || !NoneToSpare(id) ==> !NoRepair(pages, root, id, n)
      ensures NoneToSpare(id) && n < INTS_AT_MIN_FILL ==>
                var cs := PageAt(pages, root).children;
                var i := IndexOf(cs, id);
                NoRepair(pages, root, id, n) <==>
                  && |cs| > MAX_SEPARATORS
                  && n + |EntriesOf(PageAt(pages, if i > 0 then cs[i - 1] else cs[i + 1]))| > INTS_PER_LEAF
    {
    }

    lemma ShortInMemory(id: PageId, leaf: Page, path: seq<PageId>)
      requires id < |pages| && Pending(id, leaf, id, path)
      ensures PageAt(pages[id := leaf], id) == leaf && Tree(pages[id := leaf], id) && Last(path) == id
      ensures PathTo(pages[id := leaf], levels, path)
      ensures forall x: PageId :: x != id ==> PageAt(pages[id := leaf], x) == PageAt(pages, x)
    {
    }

    /** A leaf of integers that has become too small, in an otherwise comfortable
        index. */
    ghost predicate EasyShort(id: PageId, leaf: Page, least: nat)
      reads this`pages, this`root
    {
      && id < |pages| && leaf.Leaf? && PageAt(pages, id).Leaf? && kind == IntType && AllFit()
      && ComfortableBut(pages[id := leaf], root, [id], least)
      && |leaf.entries| < INTS_AT_MIN_FILL
    }

    lemma EasyShortFacts(id: PageId, leaf: Page, path: seq<PageId>, least: nat)
      requires id < |pages| && leaf.Leaf? && Pending(id, leaf, id, path) && 1 <= |path| == |levels|
               && EasyShort(id, leaf, least)
      ensures kind == IntType && |levels| <= 2 && AllInts(leaf.entries) && |leaf.entries| < INTS_AT_MIN_FILL
      ensures ComfortableBut(pages[id := leaf], root, [id], least) && |path| == |levels|
      ensures !LeafOverflow(leaf.entries)
      ensures |path| == 1 ==> root == id && PageAt(pages, root).Leaf?
      ensures |path| == 2 ==>
                && path[0] == root && root != id && PageAt(pages, root).Inner? && levels[0] == PageAt(pages, root).children
                && PageAt(pages[id := leaf], root) == PageAt(pages, root)
                && |PageAt(pages, root).children| <= MAX_SEPARATORS + 1 && |leaf.entries| + 1 >= least
    {
      hide LevelOk, InOrder, Flat, NoDup, Kids, LeafOverflow;
      var m := pages[id := leaf];
      TwoLevels(m, levels, info, id, root, [id], least);
      LeafInts(m, levels, id);
      IntLeafLimits(leaf.entries);
      LevelKnown(m, levels, info, id, |levels|, 0);
      RootOfPath(m, path);
    }

    lemma LeafRootStays(id: PageId, leaf: Page, path: seq<PageId>, least: nat)
      requires root == id && PageAt(pages, id) == leaf && leaf.Leaf?
      ensures Comfortable(pages, root, least)
    {
    }

    lemma ShortSibling(id: PageId, leaf: Page, c: PageId, least: nat)
      requires EasyShort(id, leaf, least) && c != id && root != id && PageAt(pages, root).Inner?
      requires c in PageAt(pages, root).children
      requires |levels| > 0 && c in levels[0] && InOrder(IntType, Flat(pages[id := leaf], levels))
      ensures PageAt(pages, c).Leaf? && least <= |EntriesOf(PageAt(pages, c))| <= INTS_PER_LEAF
      ensures LeafUnderflow(EntriesOf(PageAt(pages, c))) <==> |EntriesOf(PageAt(pages, c))| < INTS_AT_MIN_FILL
    {
      hide InOrder, Flat, LeafUnderflow, LeafOverflow;
      var m := pages[id := leaf];
      assert PageAt(m, c) == PageAt(pages, c) && PageAt(m, root) == PageAt(pages, root);
      FullLeaf(m, levels, c);
      LeafInts(m, levels, c);
      IntLeafLimits(EntriesOf(PageAt(m, c)));
    }

    lemma ShortMerge(id: PageId, leaf: Page, c: PageId, aId: PageId, bId: PageId, parentId: PageId, parent: Page,
                     path: seq<PageId>, least: nat)
      requires EasyShort(id, leaf, least) && parentId == root && parent == PageAt(pages, root) && parent.Inner?
               && |path| == 1
      requires (aId == id && bId == c) || (aId == c && bId == id)
      ensures EasyMerge(pages[id := leaf], aId, bId, parentId, parent, path, least)
    {
    }

    /** Leaves of integers below a root that can be stored. */
    ghost predicate IntsUnderRoot(parent: Page, path: seq<PageId>) {
      kind == IntType && |path| == 1 && parent.Inner? && |parent.children| <= MAX_SEPARATORS + 1
    }

    method BorrowFromLeft(leftId: PageId, left: Page, id: PageId, leaf: Page, parentId: PageId, parent: Page, i: nat,
                          path: seq<PageId>, ghost m: Pages) returns (r: Result<()>)
      requires PairAt(m, id, leftId, id, parentId, i, path) && OnDisk(m, leftId, id) && |levels| - |path| == 1
      requires parent == PageAt(m, parentId) && left == PageAt(m, leftId) && leaf == PageAt(m, id)
      requires left.Leaf? && leaf.Leaf? && !LeafUnderflow(left.entries) && AllFit()
      modifies this`pages, this`levels, this`info
      ensures !r.Cut? && (r.Throw? ==> r.fault.OfStorage())
      ensures AllFit()
      ensures kind == IntType && |left.entries| <= INTS_PER_LEAF && |leaf.entries| < INTS_PER_LEAF ==> r.Ok?
      ensures r.Ok? && old(Paired()) ==> Paired()
      ensures r.Ok? ==> |levels| == old(|levels|)
      ensures r.Ok? ==> Tree(pages, NO_PAGE) && Items() == old(Flat(m, levels))
      ensures r.Ok? ==>
                && left.entries != [] && leftId < |old(pages)| && id < |old(pages)|
                && SameContents(old(pages)[leftId := Leaf(left.entries[..|left.entries| - 1], id)]
                                          [id := Leaf([left.entries[|left.entries| - 1]] + leaf.entries, leaf.next)], pages)
      ensures IntsUnderRoot(parent, path) && |left.entries| <= INTS_PER_LEAF && |leaf.entries| < INTS_PER_LEAF ==>
                && r.Ok?
                && PairShared(pages, old(pages), leftId, |left.entries| - 1, id, |leaf.entries| + 1, parentId, parent.children)
    {
      hide SameContents, Paired, Tree, PathTo, PairAt, Flat, AllFit, OnDisk, LeafUnderflow, Items, InOrder,
           SmallKeys, PageAt, LeafOverflow, AllInts, PairShared;
      PairInOrder(m, id, leftId, id, parentId, i, path);
      LeafCountFromBytes(left.entries);
      var n := |left.entries| - 1;
      if kind == IntType {
        PairInts(m, id, leftId, id, parentId, i, path);
        IntsMoved(left.entries, leaf.entries, n);
      }
      LastMoved(left.entries, leaf.entries);
      r := RewriteLeaves(leftId, left.entries[..n], id, [left.entries[n]] + leaf.entries, leaf.next, parentId, parent, i,
                         path, m, id);
    }

    lemma IntsMoved(a: seq<Entry>, b: seq<Entry>, n: nat)
      requires AllInts(a) && AllInts(b) && n + 1 == |a|
      ensures LeafOverflow(a[..n]) <==> n > INTS_PER_LEAF
      ensures LeafOverflow([a[n]] + b) <==> |b| + 1 > INTS_PER_LEAF
    {
      IntLeafLimits(a[..n]);
      IntLeafLimits([a[n]] + b);
    }

    method BorrowFromRight(id: PageId, leaf: Page, rightId: PageId, right: Page, parentId: PageId, parent: Page, i: nat,
                           path: seq<PageId>, ghost m: Pages) returns (r: Result<()>)
      requires PairAt(m, id, id, rightId, parentId, i, path) && OnDisk(m, id, rightId) && |levels| - |path| == 1
      requires parent == PageAt(m, parentId) && right == PageAt(m, rightId) && leaf == PageAt(m, id)
      requires right.Leaf? && leaf.Leaf? && !LeafUnderflow(right.entries) && AllFit()
      modifies this`pages, this`levels, this`info
      ensures !r.Cut? && (r.Throw? ==> r.fault.OfStorage())
      ensures AllFit()
      ensures kind == IntType && |right.entries| <= INTS_PER_LEAF && |leaf.entries| < INTS_PER_LEAF ==> r.Ok?
      ensures r.Ok? && old(Paired()) ==> Paired()
      ensures r.Ok? ==> |levels| == old(|levels|)
      ensures r.Ok? ==> Tree(pages, NO_PAGE) && Items() == old(Flat(m, levels))
      ensures r.Ok? ==>
                && right.entries != [] && id < |old(pages)| && rightId < |old(pages)|
                && SameContents(old(pages)[id := Leaf(leaf.entries + [right.entries[0]], rightId)]
                                          [rightId := Leaf(right.entries[1..], right.next)], pages)
      ensures IntsUnderRoot(parent, path) && |right.entries| <= INTS_PER_LEAF && |leaf.entries| < INTS_PER_LEAF ==>
                && r.Ok?
                && PairShared(pages, old(pages), id, |leaf.entries| + 1, rightId, |right.entries| - 1, parentId, parent.children)
    {
      hide SameContents, Paired, Tree, PathTo, PairAt, Flat, AllFit, OnDisk, LeafUnderflow, Items, InOrder,
           SmallKeys, PageAt, LeafOverflow, PairShared;
      PairInOrder(m, id, id, rightId, parentId, i, path);
      LeafCountFromBytes(right.entries);
      if kind == IntType {
        PairInts(m, id, id, rightId, parentId, i, path);
        IntLeafLimits(leaf.entries + [right.entries[0]]);
        IntLeafLimits(right.entries[1..]);
      }
      HeadMoved(leaf.entries, right.entries);
      r := RewriteLeaves(id, leaf.entries + [right.entries[0]], rightId, right.entries[1..], right.next, parentId, parent,
                         i, path, m, id);
    }

    /** Give two neighbouring leaves new shares of their entries. */
    method RewriteLeaves(aId: PageId, a: seq<Entry>, bId: PageId, b: seq<Entry>, last: PageId,
                         parentId: PageId, parent: Page, i: nat, path: seq<PageId>, ghost m: Pages, ghost hole: PageId)
      returns (r: Result<()>)
      requires PairAt(m, hole, aId, bId, parentId, i, path) && OnDisk(m, aId, bId) && |levels| - |path| == 1
      requires parent == PageAt(m, parentId) && a != [] && b != [] && last == NextOf(PageAt(m, bId))
      requires a + b == EntriesOf(PageAt(m, aId)) + EntriesOf(PageAt(m, bId))
      requires AllFit()
      modifies this`pages, this`levels, this`info
      ensures !r.Cut? && (r.Throw? ==> r.fault.OfStorage())
      ensures AllFit()
      ensures r.Ok? && old(Paired()) ==> Paired()
      ensures r.Ok? ==> |levels| == old(|levels|)
      ensures r.Ok? ==> Tree(pages, NO_PAGE) && Items() == old(Flat(m, levels))
      ensures kind == IntType && !LeafOverflow(a) && !LeafOverflow(b) ==> r.Ok?
      ensures r.Ok? ==>
                && aId < |old(pages)| && bId < |old(pages)|
                && SameContents(old(pages)[aId := Leaf(a, bId)][bId := Leaf(b, last)], pages)
      ensures r.Ok? && |path| == 1 && parent.Inner? ==>
                PairShared(pages, old(pages), aId, |a|, bId, |b|, parentId, parent.children)
    {
      hide SameContents, Paired, LevelOk, NodeOk, LevelsOk, PathTo, InOrder, Kids, Entries, Flat, NoDup, Shaped,
           Takeover, SharedLeaves, Tree, LeafOverflow, PairAt, AllFit, At, Items, PageAt, WithPair, PairReplaced,
           PairShared, SameStart;
      ghost var k, s := PairFacts(m, hole, aId, bId, parentId, i, path);
      FewChildren(m, hole, aId, bId, parentId, i, path, parentId);
      var _ :- WritePage(aId, Leaf(a, bId));
      var _ :- WritePage(bId, Leaf(b, last));
      TwoWritten(m, old(pages), aId, a, bId, b, last, path);
      SamePair(parent.children, i, aId, bId);
      ghost var k', s' := PairFacts(m, hole, aId, bId, parentId, i, path);
      ghost var mid := pages;
      r := StoreParent(parent.children, parentId, path, m, hole, aId, bId, i, [aId, bId]);
      if r.Ok? {
        SameChildren(mid, parentId, parent.children);
        SameContentsTwice(mid, mid[parentId := Inner([], parent.children)], pages);
      }
      if r.Ok? && |path| == 1 {
        ParentStored(pages, old(pages), aId, a, bId, bId, b, last, parentId, parent.children);
      }
    }

    method MergeLeaves(aId: PageId, a: seq<Entry>, bId: PageId, b: seq<Entry>, last: PageId,
                       parentId: PageId, parent: Page, i: nat, path: seq<PageId>, ghost m: Pages, ghost hole: PageId,
                       ghost least: nat)
      returns (r: Result<()>)
      requires PairAt(m, hole, aId, bId, parentId, i, path) && OnDisk(m, aId, bId) && |levels| - |path| == 1
      requires parent == PageAt(m, parentId) && last == NextOf(PageAt(m, bId))
      requires a == EntriesOf(PageAt(m, aId)) && b == EntriesOf(PageAt(m, bId))
      requires AllFit() && least <= MIN_INTS
      modifies this`pages, this`root, this`first, this`levels, this`info
      ensures r.Throw? ==> r.fault.OfStorage()
      ensures AllFit()
      ensures r.Ok? && old(Paired()) ==> Paired()
      ensures kind == IntType && |a| + |b| <= 2 * INTS_PER_LEAF && old(Paired()) ==> !r.Throw?
      ensures r.Ok? ==> |levels| <= old(|levels|)
      ensures r.Ok? ==> Tree(pages, NO_PAGE) && Items() == old(Flat(m, levels))
      ensures AtLeastTen(old(Flat(m, levels))) ==> !r.Cut?
      ensures r.Ok? && |m| == |old(pages)| ==> LeavesJoined(m, pages, aId, bId)
      ensures r.Cut? && |path| == 1 ==> Healable(pages, old(Flat(m, levels)))
      ensures old(EasyMerge(m, aId, bId, parentId, parent, path, least)) && least <= |a| + |b| <= 2 * INTS_PER_LEAF ==>
                && !r.Throw? && (r.Cut? <==> |a| + |b| > INTS_PER_LEAF && |parent.children| > MAX_SEPARATORS)
                && (r.Ok? ==> Comfortable(pages, root, least))
                && (r.Cut? ==> root == old(root) && RootCut(pages, root, FirstChild(parent)))
    {
      hide LeavesJoined, LeavesShared, KeptBelow, Paired, AtLeastTen, Healable, LevelOk, NodeOk, LevelsOk, PathTo,
           InOrder, Kids, Entries, Flat, NoDup, Shaped, Takeover, SharedLeaves, Tree, InnerOverflow, PairAt, AllFit,
           At, Items, PageAt, LeafOverflow, EasyMerge, IntsUnderRoot, PairSplit, ParentOnly, ComfortableBut,
           PairReplaced, PairCut, RootCut;
      ghost var k, s := PairFacts(m, hole, aId, bId, parentId, i, path);
      PairInOrder(m, hole, aId, bId, parentId, i, path);
      ghost var easy := EasyMerge(m, aId, bId, parentId, parent, path, least)
                        && least <= |a| + |b| <= 2 * INTS_PER_LEAF;
      ghost var was := pages;
      var merged := a + b;
      if easy {
        EasyMergeFacts(m, hole, aId, bId, parentId, parent, i, path, least);
        PairInts(m, hole, aId, bId, parentId, i, path);
        IntLeafLimits(merged);
      }
      if LeafOverflow(merged) {
        r := RedistributeLeaves(aId, bId, merged, last, parentId, parent, i, path, m, hole);
        if r.Ok? && |m| == |was| {
          JoinedInThree(m, was, pages, aId, bId, merged, parentId, parent.children, i);
        }
        if easy && r.Ok? {
          SplitStaysComfortable(pages, was, m, root, [aId, bId], aId, bId, i, |merged| / 3, least);
        }
        if easy && r.Cut? {
          SplitCuts(pages, was, m, root, [aId, bId], aId, bId, least);
        }
        return;
      }
      // The first leaf of the index is never the second of two neighbours, so
      // `first` stays: SecondIsNotFirst.
      var _ :- WritePage(aId, Leaf(merged, last));
      MergedWritten(m, was, aId, merged, bId, last, path);
      ghost var together := pages;
      ghost var lv := levels;
      r := DropSecond(aId, bId, parentId, parent, i, path, m, hole);
      if r.Ok? {
        KeptOne(together, pages, lv, 0, aId, bId);
        JoinedInOneLeaf(m, pages, aId, bId, merged);
      }
      if easy {
        if |parent.children| > 2 {
          MergeStaysComfortable(pages, together, was, m, root, aId, bId, merged, last, i, least);
        } else {
          LeafIsComfortable(pages, root, least);
        }
      }
    }

    lemma MergedWritten(m: Pages, was: Pages, aId: PageId, merged: seq<Entry>, bId: PageId, last: PageId,
                        path: seq<PageId>)
      requires aId != bId && aId < |m| && bId < |m| <= |was| && |path| + 1 == |levels| && aId != NO_PAGE
      requires forall id: PageId :: id < |m| && id != aId && id != bId ==> PageAt(was, id) == PageAt(m, id)
      requires pages == was[aId := Leaf(merged, last)] && merged != [] && last == NextOf(PageAt(m, bId))
      requires merged == EntriesOf(PageAt(m, aId)) + EntriesOf(PageAt(m, bId))
      ensures PairReplaced(m, aId, bId, [aId], path) && OnDisk(m, aId, bId) && PageAt(pages, aId).Leaf?
    {
      hide Entries, Kids, Takeover, SharedLeaves, SharedInners;
      OneLeaf(m, info, aId, bId, pages);
    }

    /** Two leaves of integers, perhaps one entry short each, under the root. */
    ghost predicate EasyMerge(m: Pages, aId: PageId, bId: PageId, parentId: PageId, parent: Page, path: seq<PageId>,
                              least: nat)
      reads this`root, this`pages
    {
      && IntsUnderRoot(parent, path) && parentId == root && |m| == |pages|
      && ComfortableBut(m, root, [aId, bId], least)
    }

    lemma EasyMergeFacts(m: Pages, hole: PageId, aId: PageId, bId: PageId, parentId: PageId, parent: Page, i: nat,
                         path: seq<PageId>, least: nat)
      requires EasyMerge(m, aId, bId, parentId, parent, path, least) && parent == PageAt(m, parentId)
      requires PairAt(m, hole, aId, bId, parentId, i, path) && OnDisk(m, aId, bId) && |levels| - |path| == 1
      ensures IntsUnderRoot(parent, path) && parentId == root && |levels| == 2
      ensures ComfortableBut(m, root, [aId, bId], least) && root != aId && kind == IntType && |parent.children| >= 2
      ensures i + 1 < |parent.children| && parent.children[i + 1] == bId
      ensures forall j :: 0 <= j < |parent.children| && j != i + 1 ==> parent.children[j] != bId
      ensures forall c :: c in parent.children ==> c < |pages|
      ensures forall id: PageId :: id !in [aId, bId] ==> PageAt(pages, id) == PageAt(m, id)
    {
      hide LevelOk, InOrder, Flat, Kids, Chained;
      ghost var k, s := PairFacts(m, hole, aId, bId, parentId, i, path);
      OverOneRoot(m, levels, info, hole, root);
      LevelKnown(m, levels, info, hole, |levels|, 0);
      LevelNoDup(m, levels, info, hole, 0);
    }

    lemma LeafIsComfortable(m: Pages, root: PageId, least: nat)
      requires PageAt(m, root).Leaf?
      ensures Comfortable(m, root, least)
    {
    }

    lemma SecondIsNotFirst(m: Pages, hole: PageId, a: PageId, b: PageId, parentId: PageId, i: nat, path: seq<PageId>)
      requires PairAt(m, hole, a, b, parentId, i, path) && OnDisk(m, a, b) && |levels| - |path| == 1
      ensures first != b
    {
      hide NodeOk, InOrder, Kids, NoDup, Chained, Entries;
      var k, s := PairFacts(m, hole, a, b, parentId, i, path);
      LevelKnown(m, levels, info, hole, |levels|, 0);
      LevelKnown(m, levels, info, hole, |levels|, 1);
      SiteInLevel(m, levels, 0, s);
      SecondIsNotHead(LevelBefore(m, s), a, b, LevelAfter(m, s));
    }

    /** `redistribute_leaf_pair`: two leaves into three. */
    method RedistributeLeaves(aId: PageId, bId: PageId, merged: seq<Entry>, last: PageId,
                              parentId: PageId, parent: Page, i: nat, path: seq<PageId>, ghost m: Pages, ghost hole: PageId)
      returns (r: Result<()>)
      requires PairAt(m, hole, aId, bId, parentId, i, path) && OnDisk(m, aId, bId) && |levels| - |path| == 1
      requires parent == PageAt(m, parentId) && last == NextOf(PageAt(m, bId))
      requires merged == EntriesOf(PageAt(m, aId)) + EntriesOf(PageAt(m, bId)) && LeafOverflow(merged)
      requires AllFit()
      modifies this`pages, this`levels, this`info
      ensures r.Throw? ==> r.fault.OfStorage()
      ensures AllFit()
      ensures r.Ok? && old(Paired()) ==> Paired()
      ensures kind == IntType && |merged| <= 2 * INTS_PER_LEAF + 1 ==>
                !r.Throw? && (r.Cut? <==> |parent.children| > MAX_SEPARATORS)
      ensures r.Ok? ==> |levels| == old(|levels|)
      ensures r.Ok? ==> Tree(pages, NO_PAGE) && Items() == old(Flat(m, levels))
      ensures AtLeastTen(old(Flat(m, levels))) ==> !r.Cut?
      ensures r.Cut? ==> Healable(pages, old(Flat(m, levels)))
      ensures r.Ok? ==>
                var (x, y, z) := ThreeShares(merged);
                parent.Inner? && LeavesShared(pages, old(pages), aId, x, y, bId, z, parentId, parent.children, i)
      ensures IntsUnderRoot(parent, path) && |merged| <= 2 * INTS_PER_LEAF + 1 ==>
                && i + 1 < |parent.children|
                && (r.Cut? ==> root == old(root) && PairCut(pages, old(pages), aId, bId, parentId, parent.children))
                && (r.Ok? ==> PairSplit(pages, old(pages), aId, bId, parentId, parent.children, i, |merged| / 3))
    {
      hide SameContents, LeavesShared, Paired, AtLeastTen, Healable, LevelOk, NodeOk, LevelsOk, PathTo, InOrder,
           Kids, Entries, Flat, NoDup, Shaped, Takeover, SharedLeaves, Tree, Fits, PairAt, AllFit, At, Items, PageAt,
           LeafOverflow, ThreeShares, WithPair, OnDisk, PairReplaced, ThreeOnDisk, PairSplit, PairCut;
      ghost var k, s := PairFacts(m, hole, aId, bId, parentId, i, path);
      PairInOrder(m, hole, aId, bId, parentId, i, path);
      ghost var easy := IntsUnderRoot(parent, path) && |merged| <= 2 * INTS_PER_LEAF + 1;
      if kind == IntType && |merged| <= 2 * INTS_PER_LEAF + 1 {
        PairInts(m, hole, aId, bId, parentId, i, path);
        IntLeafLimits(merged);
        IntSharesFit(merged);
      }
      FewChildren(m, hole, aId, bId, parentId, i, path, parentId);
      JoinedSmall(EntriesOf(PageAt(m, aId)), EntriesOf(PageAt(m, bId)));
      LeafCountFromBytes(merged);
      var (a, middle, b) := ThreeShares(merged);
      if LeafOverflow(a) || LeafOverflow(b) {
        return Throw(PageOverflow);
      }
      var middleId :- WriteThreeLeaves(aId, a, middle, bId, b, last, m, hole, parentId, i, path);
      ghost var thirds := pages;
      var children := parent.children[..i + 1] + [middleId] + parent.children[i + 1..];
      BetweenPair(parent.children, i, aId, bId, middleId);
      r := StoreParent(children, parentId, path, m, hole, aId, bId, i, [aId, middleId, bId]);
      if r.Ok? {
        LeavesSharedFound(pages, thirds, old(pages), aId, a, middleId, middle, bId, b, parentId, parent.children, i);
      }
      if easy && r.Ok? {
        SplitStored(pages, old(pages), thirds, aId, a, middleId, middle, bId, b, parentId, parent.children, i, |merged| / 3);
      }
      if easy && r.Cut? {
        PairCutFound(pages, old(pages), thirds, aId, a, middleId, middle, bId, b, parentId, parent.children);
      }
    }

    lemma RightLeaf(key: Value, path: seq<PageId>, left: seq<PageId>, right: seq<PageId>)
      requires Valid() && count > 0 && LeafFor(key, path, left, right) && key.IsKey(kind)
      ensures var id := Last(path);
              && id != NO_PAGE && id < |pages| && NodeOk(pages, info, NO_PAGE, 0, id) && id in levels[0]
              && Items() == Entries(pages, left) + PageAt(pages, id).entries + Entries(pages, right)
              && (forall i :: 0 <= i < |Entries(pages, left)| ==> Less(Entries(pages, left)[i].key, key))
              && (forall i :: 0 <= i < |Entries(pages, right)| ==> Compare(Entries(pages, right)[i].key, key).sign > 0)
    {
      hide LevelOk, LevelsOk, NoDup, Contents, Chained, Kids, Entries, PathTo, InOrder, Compare;
      var id := Last(path);
      assert id in levels[0];
      LevelNode(pages, levels, info, NO_PAGE, |levels|, 0, id);
      EntriesAround(pages, left, id, right);
      FirstLevelOk(pages, levels, info, NO_PAGE);
      RightLeafSeparates(pages, levels, info, kind, left, id, right, key);
    }

    /** The leaf without the entry: the tree is sound but for the size of the leaf
        and, when its first entry went, for the minima above it. */
    lemma RemovedLeaf(key: Value, path: seq<PageId>, left: seq<PageId>, right: seq<PageId>, slot: nat)
      requires Valid() && count > 0 && LeafFor(key, path, left, right) && key.IsKey(kind)
      requires var es := PageAt(pages, Last(path)).entries; slot < |es| && es[slot].key == key
      ensures var leaf := PageAt(pages, Last(path));
              var m := pages[Last(path) := Leaf(leaf.entries[..slot] + leaf.entries[slot + 1..], leaf.next)];
              && Last(path) < |pages| && Shaped(m, levels, info, Last(path)) && (slot > 0 ==> Shaped(m, levels, info, NO_PAGE))
              && InOrder(kind, Flat(m, levels)) && PathTo(m, levels, path)
              && key in Contents(Items()) && Contents(Flat(m, levels)) == Contents(Items()) - {key}
              && |Flat(m, levels)| == |Items()| - 1
    {
      hide LevelOk, LevelsOk, NoDup, Contents, Chained, Kids, Entries, PathTo, InOrder, Compare, RightPage,
           SmallKeys, AllFit, EncodedSize, CompareText;
      var id := Last(path);
      var leaf := PageAt(pages, id);
      var es := leaf.entries[..slot] + leaf.entries[slot + 1..];
      RightLeaf(key, path, left, right);
      RemovedSmall(leaf.entries, slot);
      RemovedInOrder(kind, Entries(pages, left), leaf.entries, Entries(pages, right), slot);
      EditLeaf(pages, levels, info, NO_PAGE, id, es, left, right);
      PathOverPage(pages, levels, info, NO_PAGE, path, pages[id := Leaf(es, leaf.next)]);
    }

    lemma KeyIsAbsent(key: Value, path: seq<PageId>, left: seq<PageId>, right: seq<PageId>, slot: nat)
      requires Valid() && count > 0 && LeafFor(key, path, left, right) && key.IsKey(kind)
      requires var es := PageAt(pages, Last(path)).entries;
               IsLowerBound(es, key, slot) && (slot < |es| ==> Compare(es[slot].key, key).sign != 0)
      ensures key !in Contents(Items())
    {
      hide LevelOk, LevelsOk, NoDup, Contents, Kids, Entries, PathTo, InOrder, Compare;
      RightLeaf(key, path, left, right);
      AbsentKey(kind, Entries(pages, left), PageAt(pages, Last(path)).entries, Entries(pages, right), slot, key);
    }

    lemma FoundKey(key: Value, left: seq<PageId>, right: seq<PageId>, id: PageId, slot: nat)
      requires Valid() && levels[0] == left + [id] + right && PageAt(pages, id).Leaf? && key.IsKey(kind)
      requires slot < |PageAt(pages, id).entries| && Compare(PageAt(pages, id).entries[slot].key, key).sign == 0
      ensures PageAt(pages, id).entries[slot].key == key && key in Contents(Items())
    {
      hide Tree, Contents, Entries, InOrder;
      LeafKeys(left, right, id);
      assert PageAt(pages, id).entries[slot] in PageAt(pages, id).entries;
      CompareIsTotalOrder(PageAt(pages, id).entries[slot].key, key, kind);
      EntriesAround(pages, left, id, right);
      var n := |Entries(pages, left)| + slot;
      assert Items()[n] == PageAt(pages, id).entries[slot];
      ContentsHas(Items(), n);
    }

    lemma OversizedIsAbsent(key: Value)
      requires Valid() && EncodedSize(key) > MAX_KEY_BYTES && count > 0
      ensures key !in Contents(Items())
    {
      hide LevelOk, InOrder, Contents, Kids, Chained;
      if key in Contents(Items()) {
        var i := ContentsHasOnly(Items(), key);
        SmallItems(pages, levels, info, i);
      }
    }

    /** The key `erase` removes. A value that is no key of this index compares equal to
        everything, and the first key of the last leaf goes. */
    ghost function Target(key: Value): Value
      reads this`pages, this`levels, this`count
    {
      if key.IsKey(kind) || count == 0 || |levels| == 0 || levels[0] == [] then key
      else
        var es := EntriesOf(PageAt(pages, Last(levels[0])));
        if es == [] then key else es[0].key
    }

    lemma OwnTarget(key: Value)
      ensures key.IsKey(kind) || count == 0 ==> Target(key) == key
    {
    }

    /** The leaf for the key has no brothers and gets too small without it. */
    ghost predicate Marooned(key: Value)
      reads this
    {
      && count > 1 && |levels| > 1
      && Brotherless(LeafOf(key), Descend(pages, root, key, |levels| - 1))
      && var es := EntriesOf(PageAt(pages, LeafOf(key)));
         |es| == 1 || LeafBytes(es) - 10 - EncodedSize(Target(key)) < MIN_FILL
    }

    /** A value that is no key leads to the last leaf and to its first entry. */
    lemma NoKeyMeansLast(key: Value, path: seq<PageId>, left: seq<PageId>, right: seq<PageId>)
      requires Valid() && count > 0 && LeafFor(key, path, left, right) && !key.IsKey(kind)
      ensures EntriesOf(PageAt(pages, Last(path))) != []
      ensures var k := PageAt(pages, Last(path)).entries[0].key;
              && Target(key) == k && k.IsKey(kind) && LeafFor(k, path, left, right) && right == []
              && Compare(k, key).sign == 0
    {
      hide LevelOk, NoDup, InOrder, Chained, Kids, PathTo, SmallKeys, Entries, Compare;
      var id := Last(path);
      FirstOfLeaf(left, id, right, key);
      if right != [] {
        assert levels[0] == (left + [id]) + [right[0]] + right[1..];
        FirstOfLeaf(left + [id], right[0], right[1..], key);
      }
      assert levels[0] == left + [id];
    }

    lemma FirstOfLeaf(left: seq<PageId>, x: PageId, right: seq<PageId>, key: Value)
      requires Valid() && count > 0 && levels[0] == left + [x] + right && !key.IsKey(kind)
      ensures EntriesOf(PageAt(pages, x)) != []
      ensures var k := PageAt(pages, x).entries[0].key;
              k.IsKey(kind) && MinOf(info, x) == k && Compare(k, key).sign == 0 && Compare(k, k).sign == 0
    {
      hide LevelOk, NoDup, InOrder, Chained, Kids, SmallKeys, Entries, Compare;
      assert x in levels[0];
      LevelNode(pages, levels, info, NO_PAGE, |levels|, 0, x);
      LeafKeys(left, right, x);
      var k := PageAt(pages, x).entries[0].key;
      assert PageAt(pages, x).entries[0] in PageAt(pages, x).entries;
      MixedComparisonsAreUnknown(k, key);
      CompareIsTotalOrder(k, k, kind);
    }

    /** `erase`. A key that is absent leaves everything as it was. In an index of integers
        of at most two levels, any other key goes without complaint unless its leaf is
        `Marooned`; what then happens depends on `Jammed`: either the index is as it
        should be, or its root has lost all children but the first. */
    method Erase(key: Value) returns (r: Result<bool>)
      requires Valid()
      modifies this
      ensures AllFit()
      ensures r.Ok? && old(Paired()) ==> Paired()
      ensures kind == IntType && old(Paired()) && r != Throw(BadKey) ==> !r.Throw?
      ensures r.Ok? ==> |levels| <= old(|levels|)
      ensures r.Ok? ==>
                && Valid() && r.value == (old(Target(key)) in old(Contents(Items())))
                && Contents(Items()) == old(Contents(Items())) - {old(Target(key))}
      ensures key.IsKey(kind) ==> old(Target(key)) == key
      ensures old(Target(key)) !in old(Contents(Items())) ==> unchanged(this)
      ensures old(Target(key)) !in old(Contents(Items())) && EncodedSize(key) <= MAX_KEY_BYTES ==> r == Ok(false)
      ensures r.Throw? ==> r.fault == BadKey || r.fault.OfStorage()
      ensures r == Throw(BadKey) ==> EncodedSize(key) > MAX_KEY_BYTES && unchanged(this)
      ensures r == Throw(BadKey) && key.IsKey(kind) ==> key !in old(Contents(Items()))
      ensures old(Target(key)) in old(Contents(Items())) && EncodedSize(key) <= MAX_KEY_BYTES && old(Marooned(key)) ==>
                r == Throw(Structure)
      ensures old(Low()) && r != Throw(BadKey) ==>
                && (r.Throw? <==> old(Target(key)) in old(Contents(Items())) && old(Marooned(key)))
                && (r.Cut? <==> old(Target(key)) in old(Contents(Items())) && !old(Marooned(key)) && old(Jammed(key)))
      ensures old(Low()) && r.Cut? ==>
                && !Valid() && old(PageAt(pages, root)).Inner? && RootIsCut(old(FirstChild(PageAt(pages, root))))
      ensures AtLeastTen(old(Items())) ==> !r.Cut?
      ensures r.Cut? ==> count == old(count) - 1 && pages[0] == Super(root, first, count)
      ensures r.Cut? && old(|levels|) <= 2 ==>
                exists es :: Healable(pages, es) && Contents(es) == old(Contents(Items())) - {old(Target(key))}
      ensures old(Calm()) && r.Ok? ==> Calm()
      ensures old(Calm() && count <= MAX_INTS) && r != Throw(BadKey) ==> r.Ok? && Calm()
    {
      hide Paired, AtLeastTen, Healable, LevelOk, LevelsOk, Shaped, InOrder, PathTo, Contents, AllFit, Compare,
           LeafUnderflow, Flat, IsLowerBound, Fits, RightPage, Comfortable, Jammed, Marooned, Easy, RootIsCut,
           LeafOf, NoRepair, LeftAlone, Descend, Entries, SmallKeys, FirstChild, Target;
      ghost var least := if Calm() then MIN_INTS else 0;
      OwnTarget(key);
      if count == 0 {
        EmptyIndex();
        SingleContents(Entry(key, 0));
        return Ok(false);
      }
      ghost var left, right;
      var path;
      path, left, right := FindLeaf(key);
      var id := Last(path);
      var leaf := ReadNode(id).value;
      LeafKeys(left, right, id);
      if !key.IsKey(kind) {
        NoKeyMeansLast(key, path, left, right);
      }
      var slot := LowerBoundSlot(leaf.entries, key, kind);
      if slot >= |leaf.entries| {
        KeyIsAbsent(key, path, left, right, slot);
        return Ok(false);
      }
      if EncodedSize(key) > MAX_KEY_BYTES {
        if key.IsKey(kind) {
          OversizedIsAbsent(key);
        }
        return Throw(BadKey);
      }
      if Compare(leaf.entries[slot].key, key).sign != 0 {
        KeyIsAbsent(key, path, left, right, slot);
        return Ok(false);
      }
      SlotOfTarget(key, left, right, id, slot);
      HowCalm(key);
      WhatComes(key, path, slot);
      r := EraseSlot(leaf.entries[slot].key, path, leaf, slot, left, right, least);
    }

    /** The slot at which the search stops holds what is to go. */
    lemma SlotOfTarget(key: Value, left: seq<PageId>, right: seq<PageId>, id: PageId, slot: nat)
      requires Valid() && count > 0 && levels[0] == left + [id] + right && PageAt(pages, id).Leaf?
      requires slot < |PageAt(pages, id).entries| && Compare(PageAt(pages, id).entries[slot].key, key).sign == 0
      requires !key.IsKey(kind) ==> slot == 0 && Target(key) == PageAt(pages, id).entries[0].key && Target(key).IsKey(kind)
      ensures PageAt(pages, id).entries[slot].key == Target(key) && Target(key) in Contents(Items())
      ensures EncodedSize(Target(key)) <= MAX_KEY_BYTES
    {
      hide LevelOk, NoDup, InOrder, Chained, Kids, Contents;
      if key.IsKey(kind) {
        FoundKey(key, left, right, id, slot);
      } else {
        CompareIsTotalOrder(Target(key), Target(key), kind);
        FoundKey(Target(key), left, right, id, slot);
      }
      assert id in levels[0];
      LevelNode(pages, levels, info, NO_PAGE, |levels|, 0, id);
    }

    lemma HowCalm(key: Value)
      requires Valid() && count > 0
      ensures Low() ==> Easy(pages, 0)
      ensures Calm() ==> Low() && Easy(pages, MIN_INTS) && !Marooned(key) && (count <= MAX_INTS ==> !Jammed(key))
    {
      hide Valid, Low, Easy, Marooned, Jammed;
      if Low() {
        LowIsEasy();
      }
      if Calm() {
        CalmIsLow();
        CalmIsNotMarooned(key);
        if count <= MAX_INTS {
          SmallIsNotJammed(key);
        }
      }
    }

    /** Removing the entry at which the search stops leaves the leaf in the state that
        `Marooned` and `Jammed` speak of. */
    lemma WhatComes(key: Value, path: seq<PageId>, slot: nat)
      requires |levels| == |path| > 0 && path == Descend(pages, root, key, |levels| - 1) && Last(path) == LeafOf(key)
      requires var es := EntriesOf(PageAt(pages, LeafOf(key))); slot < |es| && es[slot].key == Target(key)
      ensures Marooned(key) <==> LeftAlone(path, slot)
      ensures Jammed(key) <==> NoRepair(pages, root, Last(path), |EntriesOf(PageAt(pages, Last(path)))| - 1)
    {
      hide LeafOf, Descend, LeafBytes, NoRepair;
      OneLessSize(EntriesOf(PageAt(pages, LeafOf(key))), slot);
    }

    lemma CalmIsNotMarooned(key: Value)
      requires Valid() && count > 0 && Calm()
      ensures !Marooned(key)
    {
      hide LevelOk, InOrder, Flat, LeafOf;
      TwoLevels(pages, levels, info, NO_PAGE, root, [], MIN_INTS);
      if |levels| == 2 {
        NoDescent(pages, root, key);
        assert Descend(pages, root, key, 1)[0] == root;
      }
    }

    /** The second half of `erase`: entry `slot` of the leaf at the end of the path
        goes. */
    method EraseSlot(key: Value, path: seq<PageId>, leaf: Page, slot: nat, ghost left: seq<PageId>,
                     ghost right: seq<PageId>,
                     ghost least: nat)
      returns (r: Result<bool>)
      requires Valid() && count > 0 && LeafFor(key, path, left, right) && key.IsKey(kind)
      requires EncodedSize(key) <= MAX_KEY_BYTES && leaf == PageAt(pages, Last(path)) && least <= MIN_INTS
      requires slot < |EntriesOf(leaf)| && EntriesOf(leaf)[slot].key == key
      requires Low() ==> Easy(pages, least)
      modifies this
      ensures r.Throw? ==> r.fault.OfStorage()
      ensures AllFit()
      ensures r.Ok? && old(Paired()) ==> Paired()
      ensures kind == IntType && old(Paired()) ==> !r.Throw?
      ensures r.Ok? ==> |levels| <= old(|levels|)
      ensures r.Ok? ==> Valid() && r.value && Contents(Items()) == old(Contents(Items())) - {key}
      ensures key in old(Contents(Items()))
      ensures AtLeastTen(old(Items())) ==> !r.Cut?
      ensures r.Cut? ==> count == old(count) - 1 && pages[0] == Super(root, first, count)
      ensures r.Cut? && old(|levels|) <= 2 ==>
                exists es :: Healable(pages, es) && Contents(es) == old(Contents(Items())) - {key}
      ensures old(LeftAlone(path, slot)) ==> r == Throw(Structure)
      ensures old(Low() && !LeftAlone(path, slot)) ==>
                && !r.Throw? && (r.Cut? <==> old(NoRepair(pages, root, Last(path), |leaf.entries| - 1)))
                && (r.Ok? ==> Easy(pages, least))
      ensures old(Low()) && r.Cut? ==>
                && !Valid() && old(PageAt(pages, root)).Inner? && RootIsCut(old(FirstChild(PageAt(pages, root))))
    {
      hide Paired, AtLeastTen, Healable, Valid, PathTo, RightPage, LeftAlone, Easy, NoRepair, RootIsCut, PageAt,
           Contents, Items, EncodedSize;
      AloneIsOneOfMany(path, slot);
      if count == 1 {
        if Low() && NoRepair(pages, root, Last(path), |leaf.entries| - 1) {
          NoRepairIsLarge(Last(path), |leaf.entries| - 1);
        }
        EraseOnly(key, path, leaf, slot, left, right, least);
        return Ok(true);
      }
      r := EraseOneOfMany(key, path, leaf, slot, left, right, least);
    }

    lemma AloneIsOneOfMany(path: seq<PageId>, slot: nat)
      requires path != []
      ensures LeftAlone(path, slot) ==> count > 1
    {
    }

    /** The only entry goes. */
    method EraseOnly(key: Value, path: seq<PageId>, leaf: Page, slot: nat, ghost left: seq<PageId>,
                     ghost right: seq<PageId>,
                     ghost least: nat)
      requires Valid() && count == 1 && LeafFor(key, path, left, right) && key.IsKey(kind)
      requires EncodedSize(key) <= MAX_KEY_BYTES && leaf == PageAt(pages, Last(path))
      requires slot < |EntriesOf(leaf)| && EntriesOf(leaf)[slot].key == key
      modifies this
      ensures AllFit() && |levels| <= old(|levels|) && (old(Paired()) ==> Paired())
      ensures Valid() && key in old(Contents(Items())) && Contents(Items()) == old(Contents(Items())) - {key}
      ensures kind == IntType ==> Easy(pages, least)
    {
      hide LevelOk, LevelsOk, NodeOk, Shaped, InOrder, PathTo, Contents, AllFit, Compare, Flat, RightPage, Entries,
           PageAt, EncodedSize, Easy;
      var id := Last(path);
      RemovedLeaf(key, path, left, right, slot);
      RightLeaf(key, path, left, right);
      OnlyLeaf(pages, levels, info, left, id, right);
      count := count - 1;
      var r := EraseLast(id, leaf.next, path, left, right, key);
      SingleContents(Entry(key, 0));
      LeafRootIsCalm(least);
    }

    method EraseOneOfMany(key: Value, path: seq<PageId>, leaf: Page, slot: nat, ghost left: seq<PageId>,
                          ghost right: seq<PageId>, ghost least: nat)
      returns (r: Result<bool>)
      requires Valid() && count > 1 && LeafFor(key, path, left, right) && key.IsKey(kind)
      requires EncodedSize(key) <= MAX_KEY_BYTES && leaf == PageAt(pages, Last(path)) && least <= MIN_INTS
      requires slot < |EntriesOf(leaf)| && EntriesOf(leaf)[slot].key == key
      requires Low() ==> Easy(pages, least)
      modifies this
      ensures r.Throw? ==> r.fault.OfStorage()
      ensures AllFit()
      ensures r.Ok? && old(Paired()) ==> Paired()
      ensures kind == IntType && old(Paired()) ==> !r.Throw?
      ensures r.Ok? ==> |levels| <= old(|levels|)
      ensures r.Ok? ==> Valid() && r.value && Contents(Items()) == old(Contents(Items())) - {key}
      ensures key in old(Contents(Items()))
      ensures AtLeastTen(old(Items())) ==> !r.Cut?
      ensures r.Cut? ==> count == old(count) - 1 && pages[0] == Super(root, first, count)
      ensures r.Cut? && old(|levels|) <= 2 ==>
                exists es :: Healable(pages, es) && Contents(es) == old(Contents(Items())) - {key}
      ensures old(LeftAlone(path, slot)) ==> r == Throw(Structure)
      ensures old(Low() && !LeftAlone(path, slot)) ==>
                && !r.Throw? && (r.Cut? <==> old(NoRepair(pages, root, Last(path), |leaf.entries| - 1)))
                && (r.Ok? ==> Easy(pages, least))
      ensures old(Low()) && r.Cut? ==>
                && !Valid() && old(PageAt(pages, root)).Inner? && RootIsCut(old(FirstChild(PageAt(pages, root))))
    {
      hide Paired, AtLeastTen, Healable, LevelOk, LevelsOk, NodeOk, Shaped, InOrder, PathTo, Contents, AllFit, Compare,
           LeafUnderflow, LeafOverflow, Flat, RightPage, Entries, PageAt, ComfortableBut, CalmShrunk, NoRepair,
           LeafOf, EncodedSize, Easy, RootIsCut, RootCut, Brotherless, LeafRepaired, NoDup;
      var id := Last(path);
      ghost var low, c := Low(), FirstChild(PageAt(pages, root));
      ShrunkLeaf(id, leaf, slot, left, right, least);
      RemovedLeaf(key, path, left, right, slot);
      RightLeaf(key, path, left, right);
      var rest := Leaf(leaf.entries[..slot] + leaf.entries[slot + 1..], leaf.next);
      ghost var es := Flat(pages[id := rest], levels);
      LongAfter(Items(), es, key);
      if low && NoRepair(pages, root, id, |leaf.entries| - 1) {
        NoRepairIsLarge(id, |leaf.entries| - 1);
      }
      if id == root {
        RootLeafRest(key, path, left, right);
      }
      count := count - 1;
      var done := StoreShrunk(id, rest, slot == 0, path, least);
      if done.Throw? {
        return Throw(done.fault);
      }
      PagesLeft();
      ghost var m := pages;
      WriteSuperblock();
      if done.Cut? {
        if old(|levels|) <= 2 {
          SuperblockKeepsHealable(m, es);
        }
        if low {
          SuperblockKeepsCut(m, c);
          CutIsNotValid(c);
        }
        return Cut;
      }
      Completed(m);
      if low {
        SuperblockKeepsCalm(m, least);
      }
      return Ok(true);
    }

    /** Without its entry `slot` the leaf is too small, and it has no brothers. */
    ghost predicate LeftAlone(path: seq<PageId>, slot: nat)
      requires path != []
      reads this`pages, this`count
    {
      && count > 1 && Brotherless(Last(path), path)
      && var es := EntriesOf(PageAt(pages, Last(path)));
         slot < |es| && LeafUnderflow(es[..slot] + es[slot + 1..])
    }

    lemma NoRepairIsLarge(id: PageId, n: nat)
      requires Valid() && count > 0 && Low() && NoRepair(pages, root, id, n)
      ensures PageAt(pages, root).Inner? && count > INTS_PER_LEAF + 1
      ensures root != 0 && FirstChild(PageAt(pages, root)) != 0
    {
      hide Valid, Low;
      StuckIsLarge();
      RootPages();
      assert FirstChild(PageAt(pages, root)) in PageAt(pages, root).children;
    }

    /** Store a leaf that has lost an entry, or repair it when it is too small. */
    method StoreShrunk(id: PageId, rest: Page, atStart: bool, path: seq<PageId>, ghost least: nat) returns (r: Result<()>)
      requires id < |pages| && rest.Leaf? && Pending(id, rest, id, path) && 1 <= |path| == |levels| && AllFit()
      requires !atStart ==> Tree(pages[id := rest], NO_PAGE)
      requires (id == root ==> rest.entries != []) && least <= MIN_INTS
      modifies this`pages, this`root, this`first, this`levels, this`info
      ensures r.Throw? ==> r.fault.OfStorage()
      ensures AllFit()
      ensures r.Ok? && old(Paired()) ==> Paired()
      ensures kind == IntType && |rest.entries| < INTS_PER_LEAF && old(Paired()) ==> !r.Throw?
      ensures r.Ok? ==> |levels| <= old(|levels|)
      ensures r.Ok? ==> Tree(pages, NO_PAGE) && Items() == old(Flat(pages[id := rest], levels))
      ensures r.Ok? && (id == old(root) || !LeafUnderflow(rest.entries)) ==> SameContents(old(pages)[id := rest], pages)
      ensures r.Ok? && id != old(root) && LeafUnderflow(rest.entries) ==>
                |path| > 1 && LeafRepaired(old(pages[id := rest]), pages, id, old(ChildrenOf(PageAt(pages, path[|path| - 2]))))
      ensures AtLeastTen(old(Flat(pages[id := rest], levels))) ==> !r.Cut?
      ensures r.Cut? && |path| <= 2 ==> Healable(pages, old(Flat(pages[id := rest], levels)))
      ensures old(Brotherless(id, path)) && LeafUnderflow(rest.entries) ==> r == Throw(Structure)
      ensures old(CalmShrunk(id, rest, least) && !(Brotherless(id, path) && LeafUnderflow(rest.entries))) ==>
                && !r.Throw? && (r.Cut? <==> old(NoRepair(pages, root, id, |rest.entries|)))
                && (r.Ok? ==> Comfortable(pages, root, least))
                && (r.Cut? ==> root == old(root) && RootCut(pages, root, old(FirstChild(PageAt(pages, root)))))
    {
      hide LeafRepaired, Paired, AtLeastTen, Healable, Tree, PathTo, AllFit, LeafUnderflow, LeafOverflow, Flat,
           PageAt, Comfortable, EasyShort, SameContents, Pending, NoRepair, Brotherless, RootCut;
      ghost var calm := CalmShrunk(id, rest, least);
      if calm {
        ShrunkSize(id, rest, path, least);
      }
      ShortInMemory(id, rest, path);
      RootPathIsLeaf(id, rest, path);
      if kind == IntType {
        PendingLeafInts(id, rest, id, path);
      }
      if id == root || !LeafUnderflow(rest.entries) {
        NotUnderfull(rest.entries);
        var _ :- WritePage(id, rest);
        ghost var shrunk := pages;
        SameContentsItself(shrunk);
        if atStart && rest.entries != [] {
          AlikeItself();
          var _, _, _ :- PropagateMin(path, pages);
          if calm {
            ContentsKeepComfort(shrunk, pages, root, least);
          }
        }
        return Ok(());
      }
      r := FixLeafUnderflow(id, rest, path, least);
    }

    lemma ShrunkSize(id: PageId, rest: Page, path: seq<PageId>, least: nat)
      requires id < |pages| && rest.Leaf? && Pending(id, rest, id, path) && 1 <= |path| == |levels|
               && CalmShrunk(id, rest, least)
      ensures id == root || !LeafUnderflow(rest.entries) ==> !NoRepair(pages, root, id, |rest.entries|)
    {
      hide LevelOk, InOrder, Flat, NoDup, Kids, LeafUnderflow;
      var m := pages[id := rest];
      LevelNode(m, levels, info, id, |levels|, 0, id);
      LeafInts(m, levels, id);
      IntLeafLimits(rest.entries);
      RepairDecides(id, |rest.entries|);
    }

    lemma RootPathIsLeaf(id: PageId, rest: Page, path: seq<PageId>)
      requires id < |pages| && Pending(id, rest, id, path)
      ensures |path| == 1 ==> id == root
      ensures Brotherless(id, path) ==> id != root
    {
      hide InOrder, Flat, LevelOk, NoDup, Kids, Chained;
      RootOfPath(pages[id := rest], path);
      if |path| > 1 {
        LevelKnown(pages[id := rest], levels, info, id, |levels|, |levels| - 1);
        LevelKnown(pages[id := rest], levels, info, id, |levels|, |levels| - |path|);
      }
    }

    ghost predicate CalmShrunk(id: PageId, rest: Page, least: nat)
      reads this`pages, this`root, this`levels
    {
      && kind == IntType && |levels| <= 2 && Fits(rest) && rest.Leaf? && id < |pages| && PageAt(pages, id).Leaf?
      && (id == root || !LeafUnderflow(rest.entries) ==> Comfortable(pages[id := rest], root, least))
      && (id != root && LeafUnderflow(rest.entries) ==> EasyShort(id, rest, least))
    }

    /** What an entry less means for a leaf. */
    lemma ShrunkLeaf(id: PageId, leaf: Page, slot: nat, left: seq<PageId>, right: seq<PageId>, least: nat)
      requires Valid() && count > 0 && levels[0] == left + [id] + right && leaf == PageAt(pages, id) && leaf.Leaf?
      requires slot < |leaf.entries| && least <= MIN_INTS
      ensures id < |pages| && (kind == IntType ==> |leaf.entries| <= INTS_PER_LEAF)
      ensures var rest := Leaf(leaf.entries[..slot] + leaf.entries[slot + 1..], leaf.next);
              Easy(pages, least) ==> CalmShrunk(id, rest, least)
    {
      hide LevelOk, InOrder, NoDup, Chained, Kids, LeafBytes, Flat;
      var es := leaf.entries[..slot] + leaf.entries[slot + 1..];
      var rest := Leaf(es, leaf.next);
      assert id in levels[0];
      if kind == IntType {
        FullLeaf(pages, levels, id);
      }
      if Easy(pages, least) {
        LeafInts(pages, levels, id);
        IntLeafLimits(es);
        BigEnough(id, least);
        TwoLevels(pages, levels, info, NO_PAGE, root, [], least);
        if id == root {
          LeafIsComfortable(pages[id := rest], root, least);
        } else {
          LeafReplaced(pages, root, [], id, rest, if LeafUnderflow(es) then [id] else [], least);
        }
      }
    }

    lemma RootLeafRest(key: Value, path: seq<PageId>, left: seq<PageId>, right: seq<PageId>)
      requires Valid() && count > 1 && LeafFor(key, path, left, right) && Last(path) == root
      ensures |PageAt(pages, root).entries| > 1 && |levels| == 1
    {
      hide LevelOk, NoDup, InOrder, Chained, Kids;
      LevelKnown(pages, levels, info, NO_PAGE, |levels|, 0);
      LevelKnown(pages, levels, info, NO_PAGE, |levels|, |levels| - 1);
      assert root in levels[|levels| - 1] && root in levels[0];
      EntriesOfOne(pages, root);
    }

    /** Erasing the last entry: the leaf, now empty, becomes the root. */
    method EraseLast(id: PageId, next: PageId, ghost path: seq<PageId>, ghost left: seq<PageId>, ghost right: seq<PageId>,
                     ghost key: Value)
      returns (r: Result<bool>)
      requires 0 < |pages| && id != NO_PAGE && id < |pages| && next == NO_PAGE && count == 0
      requires AllFit() && EncodedSize(key) <= MAX_KEY_BYTES
      modifies this
      ensures old(Paired()) ==> Paired()
      ensures r == Ok(true) && Valid() && Items() == [] && PageAt(pages, root).Leaf?
    {
      LeafFits(next);
      var _ :- WritePage(id, Leaf([], next));
      root := id;
      first := id;
      levels, info := [[id]], map[id := Info(0, key)];
      SingleLeaf(pages, id, [], id, key);
      PageZeroIsFree(pages, levels, info, id, Super(root, first, count));
      WriteSuperblock();
      return Ok(true);
    }
  }
}
