/** How large an index of integers can get, and what happens beyond. */
module Limits {
  import opened Outcomes
  import opened Values
  import opened Nodes
  import opened Ordered
  import opened Shape
  import opened Descent
  import opened Index
  import opened Capacity
  import BulkBuild
  import Lookup

  function FirstInts(n: nat): (es: seq<Entry>)
    requires n <= MOST_INTS
    ensures |es| == n && forall i :: 0 <= i < n ==> es[i] == Entry(Int(i), i)
  {
    seq(n, i requires 0 <= i < n => Entry(Int(i), i))
  }

  lemma {:induction false} AtMostSum(m: Pages, l: seq<PageId>)
    requires forall id :: id in l ==> |EntriesOf(PageAt(m, id))| <= INTS_PER_LEAF
    ensures |Entries(m, l)| <= INTS_PER_LEAF * |l|
    ensures |Entries(m, l)| == INTS_PER_LEAF * |l| ==> forall id :: id in l ==> |EntriesOf(PageAt(m, id))| == INTS_PER_LEAF
  {
    hide EntriesOf, PageAt;
    if l != [] {
      assert l == [l[0]] + l[1..];
      AtMostSum(m, l[1..]);
    }
  }

  /** When the leaves could not hold more, each of them is full. */
  lemma AllFull(idx: DiskBspIndex)
    requires idx.Valid() && idx.kind == IntType && |idx.levels| == 2 && idx.count == INTS_PER_LEAF * |idx.levels[0]|
    ensures PageAt(idx.pages, idx.root).Inner? && idx.levels[0] == PageAt(idx.pages, idx.root).children
    ensures forall id :: id in idx.levels[0] ==>
              PageAt(idx.pages, id).Leaf? && |EntriesOf(PageAt(idx.pages, id))| == INTS_PER_LEAF
  {
    hide InOrder, Kids, Chained, NoDup, EntriesOf, LevelOk;
    var m, lv, info := idx.pages, idx.levels, idx.info;
    OverOneRoot(m, lv, info, NO_PAGE, idx.root);
    assert lv[1][0] == idx.root && idx.root in lv[1];
    LevelNode(m, lv, info, NO_PAGE, 2, 1, idx.root);
    forall id | id in lv[0]
      ensures PageAt(m, id).Leaf? && |EntriesOf(PageAt(m, id))| <= INTS_PER_LEAF
    {
      LevelNode(m, lv, info, NO_PAGE, 2, 0, id);
      FullLeaf(m, lv, id);
    }
    AtMostSum(m, lv[0]);
  }

  /** With 256 full leaves the index is calm and stuck, whatever the key. */
  lemma FullIsStuck(idx: DiskBspIndex, key: Value)
    requires idx.Valid() && idx.kind == IntType && |idx.levels| == 2
    requires |idx.levels[0]| == MAX_SEPARATORS + 1 && idx.count == MOST_INTS
    ensures idx.Low() && idx.Stuck(key)
  {
    hide DiskBspIndex.Valid, ChildFor;
    AllFull(idx);
    RootChildren(idx);
    var cs := PageAt(idx.pages, idx.root).children;
    NoDescent(idx.pages, idx.root, key);
    assert idx.LeafOf(key) == ChildOn(PageAt(idx.pages, idx.root), key);
    var i := IndexOf(cs, idx.LeafOf(key));
    assert idx.LeafOf(key) in cs;
    if i + 1 < |cs| {
      assert cs[i + 1] in cs;
    }
  }

  lemma RootChildren(idx: DiskBspIndex)
    requires idx.Valid() && idx.count > 0 && |idx.levels| == 2
    ensures PageAt(idx.pages, idx.root).Inner?
    ensures |PageAt(idx.pages, idx.root).children| == |PageAt(idx.pages, idx.root).keys| + 1
  {
    hide InOrder, Kids, Chained, NoDup, LevelOk;
    assert idx.levels[1][0] == idx.root && idx.root in idx.levels[1];
    LevelNode(idx.pages, idx.levels, idx.info, NO_PAGE, 2, 1, idx.root);
  }

  /** The bound on integer keys is real: an index of the integers 0 to 54783 can be
      built, and inserting any other integer then returns without complaint and leaves
      an index in which at most one page of those keys is found again. */
  method FullIndexLosesKeys(x: int64, rid: nat) returns (idx: DiskBspIndex, built: Result<()>, inserted: Result<()>)
    requires !(0 <= x < MOST_INTS)
    ensures built.Ok? && inserted.Cut? && !idx.Valid() && idx.count == MOST_INTS + 1
    ensures |set k | k in Contents(FirstInts(MOST_INTS)) && Lookup.FoundBy(idx.pages, idx.root, 1, k)| <= Lookup.MOST_PER_PAGE
  {
    hide DiskBspIndex.Valid, Contents, DiskBspIndex.Calm, DiskBspIndex.Stuck, DiskBspIndex.RootIsCut, Lookup.FoundBy;
    var es := FirstInts(MOST_INTS);
    idx := new DiskBspIndex(IntType);
    FirstIntsInOrder(MOST_INTS);
    built := BulkBuild.BulkBuild(idx, es);
    CountOf(idx);
    FullIsStuck(idx, Int(x));
    NotAmongFirst(MOST_INTS, x);
    ghost var c := FirstChild(PageAt(idx.pages, idx.root));
    inserted := idx.Insert(Int(x), rid);
    Lookup.CutFindsFew(idx, c, set k | k in Contents(es) && Lookup.FoundBy(idx.pages, idx.root, 1, k));
  }

  lemma CountOf(idx: DiskBspIndex)
    requires idx.Valid()
    ensures idx.count == |idx.Items()|
    ensures |idx.levels| == 1 ==> |idx.levels[0]| == 1
  {
  }

  lemma FirstIntsInOrder(n: nat)
    requires n <= MOST_INTS
    ensures InOrder(IntType, FirstInts(n)) && AllInts(FirstInts(n))
    ensures forall e :: e in FirstInts(n) ==> e.key.Matches(IntType)
  {
  }

  lemma NotAmongFirst(n: nat, x: int64)
    requires n <= MOST_INTS && !(0 <= x < n)
    ensures Int(x) !in Contents(FirstInts(n))
  {
    hide Contents;
    if Int(x) in Contents(FirstInts(n)) {
      var i := ContentsHasOnly(FirstInts(n), Int(x));
    }
  }
}
