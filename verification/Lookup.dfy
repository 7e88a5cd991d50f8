/** Reading an index: iterators, point and bound searches and range scans
    (disk_bsp_index.cpp, and `index_collect_range` of table.cpp), all measured
    against `Items()`, the flat list of entries in key order. */
module Lookup {
  import opened Outcomes
  import opened Values
  import opened Nodes
  import opened Ordered
  import opened Shape
  import opened Surgery
  import opened Descent
  import opened Index

  /** `page` is a leaf with the leaves `left` before it and `right` after it. */
  ghost predicate OnLeaf(idx: DiskBspIndex, left: seq<PageId>, page: PageId, right: seq<PageId>)
    reads idx
  {
    |idx.levels| > 0 && idx.levels[0] == left + [page] + right
  }

  ghost predicate LeafView(idx: DiskBspIndex, left: seq<PageId>, page: PageId, right: seq<PageId>)
    reads idx
  {
    && PageAt(idx.pages, page).Leaf?
    && idx.Items() == Entries(idx.pages, left) + EntriesOf(PageAt(idx.pages, page)) + Entries(idx.pages, right)
    && (idx.count > 0 ==> EntriesOf(PageAt(idx.pages, page)) != [])
    && NextOf(PageAt(idx.pages, page)) == (if right == [] then NO_PAGE else right[0])
  }

  /** What an iterator can see from one leaf: its entries are a stretch of
      `Items()`, and its link leads to the leaf holding the entries after them. */
  lemma LeafStretch(idx: DiskBspIndex, left: seq<PageId>, page: PageId, right: seq<PageId>)
    requires idx.Valid() && OnLeaf(idx, left, page, right)
    ensures LeafView(idx, left, page, right)
    ensures right == [] ==> Entries(idx.pages, right) == []
    ensures right != [] ==> idx.count > 0 && right[0] != NO_PAGE
  {
    hide NoDup, Chained, Entries, Kids, InOrder;
    var m := idx.pages;
    var hole := if idx.count == 0 then idx.root else NO_PAGE;
    var l := idx.levels[0];
    assert l[|left|] == page && page in l;
    LevelKnown(m, idx.levels, idx.info, hole, |idx.levels|, 0);
    EntriesAround(m, left, page, right);
    assert LeafOk(m, idx.info, hole, page);
    LeafLink(m, left, page, right);
    if right != [] {
      assert right[0] == l[|left| + 1] && right[0] in l;
    }
  }

  lemma LeafLink(m: Pages, left: seq<PageId>, page: PageId, right: seq<PageId>)
    requires Chained(m, left + [page] + right, NO_PAGE)
    ensures NextOf(PageAt(m, page)) == if right == [] then NO_PAGE else right[0]
    ensures right == [] ==> Entries(m, right) == []
  {
    var l := left + [page] + right;
    assert l[|left|] == page;
    if right != [] {
      assert l[|left| + 1] == right[0];
    }
  }

  /** Stepping over the link keeps the place. */
  lemma NextLeaf(idx: DiskBspIndex, left: seq<PageId>, page: PageId, right: seq<PageId>)
    requires idx.Valid() && OnLeaf(idx, left, page, right) && right != []
    ensures OnLeaf(idx, left + [page], right[0], right[1..])
    ensures Entries(idx.pages, left + [page]) == Entries(idx.pages, left) + EntriesOf(PageAt(idx.pages, page))
  {
    hide *;
    hide OnLeaf;
    EntriesAppend(idx.pages, left, [page]);
    EntriesOfOne(idx.pages, page);
    SameLeaves(idx, left, page, right);
  }

  lemma SameLeaves(idx: DiskBspIndex, left: seq<PageId>, page: PageId, right: seq<PageId>)
    requires OnLeaf(idx, left, page, right) && right != []
    ensures OnLeaf(idx, left + [page], right[0], right[1..])
  {
    assert left + [page] + right == (left + [page]) + [right[0]] + right[1..];
  }

  /** The same for one slot, and how it goes on behind the last one. */
  lemma LeafSlots(idx: DiskBspIndex, left: seq<PageId>, page: PageId, right: seq<PageId>, s: nat)
    requires idx.Valid() && OnLeaf(idx, left, page, right)
    ensures PageAt(idx.pages, page).Leaf?
    ensures var es, n := PageAt(idx.pages, page).entries, |Entries(idx.pages, left)|;
            && (s < |es| ==> n + s < |idx.Items()| && idx.Items()[n + s] == es[s])
            && (right == [] ==> |idx.Items()| == n + |es| && PageAt(idx.pages, page).next == NO_PAGE)
            && (right != [] ==>
                  && PageAt(idx.pages, page).next == right[0] && right[0] != NO_PAGE
                  && OnLeaf(idx, left + [page], right[0], right[1..]) && |Entries(idx.pages, left + [page])| == n + |es|
                  && EntriesOf(PageAt(idx.pages, right[0])) != [] && n + |es| < |idx.Items()|)
  {
    hide Entries, DiskBspIndex.Valid, OnLeaf, DiskBspIndex.Items;
    LeafStretch(idx, left, page, right);
    if right != [] {
      NextLeaf(idx, left, page, right);
      LeafStretch(idx, left + [page], right[0], right[1..]);
    }
  }

  lemma FirstLeaf(idx: DiskBspIndex)
    requires idx.Valid()
    ensures |idx.levels| > 0 && idx.levels[0] != [] && OnLeaf(idx, [], idx.first, idx.levels[0][1..])
    ensures Entries(idx.pages, []) == []
  {
    hide NoDup, Chained, Entries, Kids, InOrder, LevelOk;
    assert idx.levels[0] == [] + [idx.first] + idx.levels[0][1..];
    EntriesOfNone(idx.pages);
  }

  lemma EntriesOfNone(m: Pages)
    ensures Entries(m, []) == []
  {
  }

  /** A position in an index, as `const_iterator` keeps it. `place` is the number
      of entries before it. */
  class Cursor {
    const owner: DiskBspIndex
    var page: PageId
    var slot: nat
    var key: Value
    var rid: nat
    var atEnd: bool
    ghost var place: nat
    ghost var left: seq<PageId>
    ghost var right: seq<PageId>

    ghost predicate Valid()
      reads this, owner
    {
      && owner.Valid() && place <= |owner.Items()|
      && (atEnd <==> place == |owner.Items()|)
      && (!atEnd ==> OnLeaf(owner, left, page, right) && slot < |EntriesOf(PageAt(owner.pages, page))|
                     && place == |Entries(owner.pages, left)| + slot && owner.Items()[place] == Entry(key, rid))
    }

    /** The iterator constructor: a slot past the end of its leaf is the end. */
    constructor At(idx: DiskBspIndex, page: PageId, slot: nat, ghost left: seq<PageId>, ghost right: seq<PageId>)
      requires idx.Valid() && OnLeaf(idx, left, page, right)
      ensures Valid() && owner == idx
      ensures var n := |EntriesOf(PageAt(idx.pages, page))|;
              place == if slot < n then |Entries(idx.pages, left)| + slot else |idx.Items()|
    {
      hide Entries, InOrder, DiskBspIndex.Tree, DiskBspIndex.AllFit, DiskBspIndex.Valid, OnLeaf, DiskBspIndex.Items;
      LeafStretch(idx, left, page, right);
      var es := idx.ReadNode(page).value.entries;
      owner := idx;
      this.page, this.slot, this.left, this.right := page, slot, left, right;
      if slot < |es| {
        key, rid, atEnd := es[slot].key, es[slot].rid, false;
        place := |Entries(idx.pages, left)| + slot;
      } else {
        key, rid, atEnd := Null, 0, true;
        place := |idx.Items()|;
      }
    }

    constructor End(idx: DiskBspIndex)
      requires idx.Valid()
      ensures Valid() && owner == idx && atEnd
    {
      owner := idx;
      page, slot, key, rid, atEnd, left, right := 0, 0, Null, 0, true, [], [];
      place := |idx.Items()|;
    }

    /** `operator++` moves to the next entry in key order, crossing to the next
        leaf when its own is exhausted, and stays put at the end. */
    method Advance()
      requires Valid()
      modifies this
      ensures Valid() && place == old(if atEnd then place else place + 1)
    {
      hide Entries, DiskBspIndex.Valid, OnLeaf, DiskBspIndex.Items, PageAt;
      if atEnd {
        return;
      }
      LeafSlots(owner, left, page, right, slot + 1);
      var p := owner.ReadNode(page).value;
      if slot + 1 < |p.entries| {
        slot := slot + 1;
        Land(p);
        return;
      }
      if p.next == NO_PAGE {
        slot, place, atEnd := slot + 1, place + 1, true;
        return;
      }
      left, right := left + [page], right[1..];
      page, slot := p.next, 0;
      LeafSlots(owner, left, page, right, 0);
      var q := owner.ReadNode(page).value;
      Land(q);
    }

    /** Takes key and record id from the slot of the page just read. */
    method Land(p: Page)
      requires owner.Valid() && OnLeaf(owner, left, page, right) && !atEnd
      requires p == PageAt(owner.pages, page) && slot < |EntriesOf(p)|
      modifies this`key, this`rid, this`place
      ensures Valid() && place == |Entries(owner.pages, left)| + slot
    {
      hide Entries, DiskBspIndex.Valid, OnLeaf, DiskBspIndex.Items, PageAt;
      LeafSlots(owner, left, page, right, slot);
      key, rid := p.entries[slot].key, p.entries[slot].rid;
      place := |Entries(owner.pages, left)| + slot;
    }
  }

  /** `begin`: the leaf recorded as first is the leftmost one. */
  method Begin(idx: DiskBspIndex) returns (c: Cursor)
    requires idx.Valid()
    ensures fresh(c) && c.Valid() && c.owner == idx && c.place == 0
  {
    hide Entries, InOrder, DiskBspIndex.Tree, DiskBspIndex.AllFit, OnLeaf;
    if idx.count == 0 {
      c := new Cursor.End(idx);
      return;
    }
    FirstLeaf(idx);
    LeafStretch(idx, [], idx.first, idx.levels[0][1..]);
    c := new Cursor.At(idx, idx.first, 0, [], idx.levels[0][1..]);
  }

  // ---- searching ----

  /** One leaf decides the search: what is left of it is below the key and what
      is right of it is above, so bounds within the leaf are bounds in the whole
      index. */
  lemma LeafDecides(idx: DiskBspIndex, key: Value, path: seq<PageId>, left: seq<PageId>, right: seq<PageId>)
    requires idx.Valid() && idx.LeafFor(key, path, left, right) && key.IsKey(idx.kind)
    ensures PageAt(idx.pages, Last(path)).Leaf?
    ensures var es, a := PageAt(idx.pages, Last(path)).entries, Entries(idx.pages, left);
            && InOrder(idx.kind, es)
            && (forall n :: IsLowerBound(es, key, n) ==> IsLowerBound(idx.Items(), key, |a| + n))
            && (forall n :: IsUpperBound(es, key, n) ==> IsUpperBound(idx.Items(), key, |a| + n))
    ensures forall e :: e in Entries(idx.pages, right) ==> Compare(e.key, key).sign > 0
  {
    hide NoDup, Chained, Entries, Kids, InOrder, LevelOk, IsLowerBound, IsUpperBound, Less, Compare, PathTo;
    var m, x := idx.pages, Last(path);
    LeafStretch(idx, left, x, right);
    var es, a, b := PageAt(m, x).entries, Entries(m, left), Entries(m, right);
    if idx.count > 0 {
      RightLeafSeparates(m, idx.levels, idx.info, idx.kind, left, x, right, key);
    }
    MiddleOrdered(idx.kind, a, es, b);
    forall n | IsLowerBound(es, key, n)
      ensures IsLowerBound(idx.Items(), key, |a| + n)
    {
      MiddleLowerBound(a, es, b, key, n);
    }
    forall n | IsUpperBound(es, key, n)
      ensures IsUpperBound(idx.Items(), key, |a| + n)
    {
      MiddleUpperBound(a, es, b, key, n);
    }
  }

  lemma MiddleOrdered(t: DataType, a: seq<Entry>, es: seq<Entry>, b: seq<Entry>)
    requires InOrder(t, a + es + b)
    ensures InOrder(t, es)
  {
    OrderedParts(t, a + es, b);
    OrderedParts(t, a, es);
  }

  lemma MiddleLowerBound(a: seq<Entry>, es: seq<Entry>, b: seq<Entry>, key: Value, n: nat)
    requires IsLowerBound(es, key, n)
    requires forall i :: 0 <= i < |a| ==> Less(a[i].key, key)
    requires forall i :: 0 <= i < |b| ==> Compare(b[i].key, key).sign > 0
    ensures IsLowerBound(a + es + b, key, |a| + n)
  {
  }

  lemma MiddleUpperBound(a: seq<Entry>, es: seq<Entry>, b: seq<Entry>, key: Value, n: nat)
    requires IsUpperBound(es, key, n)
    requires forall i :: 0 <= i < |a| ==> Less(a[i].key, key)
    requires forall i :: 0 <= i < |b| ==> Compare(b[i].key, key).sign > 0
    ensures IsUpperBound(a + es + b, key, |a| + n)
  {
  }

  lemma MiddleAt(a: seq<Entry>, es: seq<Entry>, b: seq<Entry>, n: nat)
    requires n <= |es|
    ensures n < |es| ==> (a + es + b)[|a| + n] == es[n]
    ensures n == |es| && |a| + n < |a + es + b| ==> (a + es + b)[|a| + n] in b
  {
    if n == |es| && |a| + n < |a + es + b| {
      assert (a + es + b)[|a| + n] == b[0];
    }
  }

  /** A cursor on a slot of a leaf, on the next leaf when the slot is past the
      last entry, or at the end (`leaf_lower`, and the tail of `upper_bound`). */
  method CursorAt(idx: DiskBspIndex, page: PageId, slot: nat, ghost left: seq<PageId>, ghost right: seq<PageId>)
    returns (c: Cursor)
    requires idx.Valid() && OnLeaf(idx, left, page, right) && slot <= |EntriesOf(PageAt(idx.pages, page))|
    ensures fresh(c) && c.Valid() && c.owner == idx && c.place == |Entries(idx.pages, left)| + slot
  {
    hide Entries, InOrder, DiskBspIndex.Tree, DiskBspIndex.AllFit, DiskBspIndex.Valid, OnLeaf, DiskBspIndex.Items;
    LeafStretch(idx, left, page, right);
    var p := idx.ReadNode(page).value;
    if slot < |p.entries| {
      c := new Cursor.At(idx, page, slot, left, right);
    } else if p.next != NO_PAGE {
      NextLeaf(idx, left, page, right);
      LeafStretch(idx, left + [page], right[0], right[1..]);
      c := new Cursor.At(idx, p.next, 0, left + [page], right[1..]);
    } else {
      c := new Cursor.End(idx);
    }
  }

  ghost function LastLeafSize(idx: DiskBspIndex): nat
    reads idx
  {
    if |idx.levels| == 0 || idx.levels[0] == [] then 0 else |EntriesOf(PageAt(idx.pages, Last(idx.levels[0])))|
  }

  lemma LastStretch(idx: DiskBspIndex, key: Value, path: seq<PageId>, left: seq<PageId>, right: seq<PageId>)
    requires idx.Valid() && idx.LeafFor(key, path, left, right) && !key.IsKey(idx.kind)
    ensures |idx.Items()| == |Entries(idx.pages, left)| + |EntriesOf(PageAt(idx.pages, Last(path)))|
    ensures LastLeafSize(idx) == |EntriesOf(PageAt(idx.pages, Last(path)))| && (idx.count > 0 ==> LastLeafSize(idx) > 0)
  {
    hide NoDup, Chained, Entries, Kids, InOrder, LevelOk, RightPage, PathTo;
    LeafStretch(idx, left, Last(path), right);
    if idx.count > 0 {
      idx.NoKeyMeansLast(key, path, left, right);
    }
    assert right == [];
    assert idx.levels[0] == left + [Last(path)];
    EntriesOfNone(idx.pages);
  }

  /** `lower_bound`: the first entry not below the key, wherever its leaf is. A
      value that is no key of this index compares equal to everything and gives
      the start of the last leaf. */
  method LowerBound(idx: DiskBspIndex, key: Value) returns (c: Cursor)
    requires idx.Valid()
    ensures fresh(c) && c.Valid() && c.owner == idx
    ensures key.IsKey(idx.kind) ==> IsLowerBound(idx.Items(), key, c.place)
    ensures !key.IsKey(idx.kind) ==> c.place == |idx.Items()| - LastLeafSize(idx)
  {
    hide DiskBspIndex.Valid, DiskBspIndex.Items, Entries, InOrder, IsLowerBound, IsUpperBound, RightPage, PathTo;
    var path, left, right := idx.FindLeaf(key);
    LeafStretch(idx, left, Last(path), right);
    LeafOrdered(idx, left, Last(path), right);
    var p := idx.ReadNode(Last(path)).value;
    var slot := DiskBspIndex.LowerBoundSlot(p.entries, key, idx.kind);
    c := CursorAt(idx, Last(path), slot, left, right);
    if key.IsKey(idx.kind) {
      LeafDecides(idx, key, path, left, right);
    } else {
      LastStretch(idx, key, path, left, right);
    }
  }

  lemma LeafOrdered(idx: DiskBspIndex, left: seq<PageId>, page: PageId, right: seq<PageId>)
    requires idx.Valid() && OnLeaf(idx, left, page, right)
    ensures InOrder(idx.kind, EntriesOf(PageAt(idx.pages, page)))
  {
    hide NoDup, Chained, Entries, Kids, InOrder, LevelOk;
    LeafStretch(idx, left, page, right);
    MiddleOrdered(idx.kind, Entries(idx.pages, left), EntriesOf(PageAt(idx.pages, page)), Entries(idx.pages, right));
  }

  /** `upper_bound`: the first entry above the key; the end for a value that is no key. */
  method UpperBound(idx: DiskBspIndex, key: Value) returns (c: Cursor)
    requires idx.Valid()
    ensures fresh(c) && c.Valid() && c.owner == idx
    ensures key.IsKey(idx.kind) ==> IsUpperBound(idx.Items(), key, c.place)
    ensures !key.IsKey(idx.kind) ==> c.atEnd
  {
    hide DiskBspIndex.Valid, DiskBspIndex.Items, Entries, InOrder, IsLowerBound, IsUpperBound, RightPage, PathTo;
    var path, left, right := idx.FindLeaf(key);
    LeafStretch(idx, left, Last(path), right);
    LeafOrdered(idx, left, Last(path), right);
    var p := idx.ReadNode(Last(path)).value;
    var slot := DiskBspIndex.UpperBoundSlot(p.entries, key, idx.kind);
    c := CursorAt(idx, Last(path), slot, left, right);
    if key.IsKey(idx.kind) {
      LeafDecides(idx, key, path, left, right);
    } else {
      LastStretch(idx, key, path, left, right);
    }
  }

  /** The lower bound in the right leaf tells whether the key is present, and where. */
  lemma SlotDecides(idx: DiskBspIndex, key: Value, path: seq<PageId>, left: seq<PageId>, right: seq<PageId>, slot: nat)
    requires idx.Valid() && idx.LeafFor(key, path, left, right) && key.IsKey(idx.kind)
    requires var es := EntriesOf(PageAt(idx.pages, Last(path))); slot <= |es| && IsLowerBound(es, key, slot)
    ensures var es := EntriesOf(PageAt(idx.pages, Last(path)));
            && (key in Contents(idx.Items()) <==> slot < |es| && Compare(es[slot].key, key).sign == 0)
            && (key in Contents(idx.Items()) ==> es[slot].key == key && es[slot].rid == Contents(idx.Items())[key])
  {
    hide DiskBspIndex.Valid, DiskBspIndex.Items, Entries, InOrder, IsLowerBound, IsUpperBound, RightPage, PathTo,
         Contents, Compare;
    LeafStretch(idx, left, Last(path), right);
    LeafDecides(idx, key, path, left, right);
    var es := PageAt(idx.pages, Last(path)).entries;
    ItemsOrdered(idx);
    LowerBoundFinds(idx.kind, idx.Items(), key, |Entries(idx.pages, left)| + slot);
    MiddleAt(Entries(idx.pages, left), es, Entries(idx.pages, right), slot);
    LowerBoundFinds(idx.kind, es, key, slot);
  }

  /** `find`: on a key of the index's type, the entry with exactly that key or
      the end; on any other value the first entry of the last leaf. */
  method Find(idx: DiskBspIndex, key: Value) returns (c: Cursor)
    requires idx.Valid()
    ensures fresh(c) && c.Valid() && c.owner == idx
    ensures !c.atEnd ==> c.key in Contents(idx.Items()) && Contents(idx.Items())[c.key] == c.rid
    ensures key.IsKey(idx.kind) ==>
              if key in Contents(idx.Items())
              then !c.atEnd && c.key == key && c.rid == Contents(idx.Items())[key]
              else c.atEnd
    ensures !key.IsKey(idx.kind) && idx.count > 0 ==> !c.atEnd && c.place == |idx.Items()| - LastLeafSize(idx)
  {
    hide LastLeafSize, DiskBspIndex.Valid, DiskBspIndex.Items, Entries, InOrder, IsLowerBound, IsUpperBound,
         RightPage, PathTo, Contents;
    var path, left, right := idx.FindLeaf(key);
    LeafStretch(idx, left, Last(path), right);
    LeafOrdered(idx, left, Last(path), right);
    var p := idx.ReadNode(Last(path)).value;
    var slot := DiskBspIndex.LowerBoundSlot(p.entries, key, idx.kind);
    if key.IsKey(idx.kind) {
      SlotDecides(idx, key, path, left, right, slot);
    } else {
      LastStretch(idx, key, path, left, right);
      if idx.count > 0 {
        idx.NoKeyMeansLast(key, path, left, right);
      }
    }
    if slot < |p.entries| && Compare(p.entries[slot].key, key).sign == 0 {
      c := new Cursor.At(idx, Last(path), slot, left, right);
      EntryAt(idx, c.place);
    } else {
      c := new Cursor.End(idx);
    }
  }

  // ---- searching without the invariant ----

  /** Going down n levels by the separators leads to a page that holds the key. */
  ghost predicate FoundBy(m: Pages, root: PageId, n: nat, key: Value) {
    exists i :: 0 <= i < |EntriesOf(PageAt(m, Last(Descend(m, root, key, n))))|
                && EntriesOf(PageAt(m, Last(Descend(m, root, key, n))))[i].key == key
  }

  /** The separators lead to the leaf for the key. */
  lemma SearchEnds(idx: DiskBspIndex, key: Value) returns (left: seq<PageId>, right: seq<PageId>)
    requires idx.Valid() && idx.count > 0
    ensures |idx.levels| > 0 && idx.LeafFor(key, Descend(idx.pages, idx.root, key, |idx.levels| - 1), left, right)
  {
    hide NoDup, Chained, Entries, Kids, InOrder, LevelOk, RightPage, PathTo, Compare, Descend;
    var m, lv, n: nat := idx.pages, idx.levels, |idx.levels| - 1;
    left, right := DescentIsRight(m, lv, idx.info, idx.root, key, n);
    var path := Descend(m, idx.root, key, n);
    OnLevel(m, lv, path);
    LevelNode(m, lv, idx.info, NO_PAGE, |lv|, 0, Last(path));
    LeafNode(m, idx.info, NO_PAGE, 0, lv[0], left, Last(path), right, key);
  }

  /** In an index the separators lead to a key exactly when it is present. */
  lemma SearchFinds(idx: DiskBspIndex, key: Value)
    requires idx.Valid() && idx.count > 0 && key.IsKey(idx.kind)
    ensures |idx.levels| > 0
    ensures FoundBy(idx.pages, idx.root, |idx.levels| - 1, key) <==> key in Contents(idx.Items())
  {
    hide DiskBspIndex.Valid, RightPage, PathTo, DiskBspIndex.Items, Entries, Contents, Compare, Descend, NodeOk;
    var left, right := SearchEnds(idx, key);
    var path := Descend(idx.pages, idx.root, key, |idx.levels| - 1);
    idx.RightLeaf(key, path, left, right);
    var a, es, b := Entries(idx.pages, left), EntriesOf(PageAt(idx.pages, Last(path))), Entries(idx.pages, right);
    if key in Contents(idx.Items()) {
      var i := ContentsHasOnly(idx.Items(), key);
      CompareIsTotalOrder(key, key, idx.kind);
      InMiddle(a, es, b, i, key);
      assert es[i - |a|].key == key;
    }
    if i :| 0 <= i < |es| && es[i].key == key {
      assert idx.Items()[|a| + i] == es[i];
      ContentsHas(idx.Items(), |a| + i);
    }
  }

  lemma InMiddle(a: seq<Entry>, es: seq<Entry>, b: seq<Entry>, i: nat, key: Value)
    requires i < |a + es + b| && (a + es + b)[i].key == key && Compare(key, key).sign == 0
    requires forall j :: 0 <= j < |a| ==> Less(a[j].key, key)
    requires forall j :: 0 <= j < |b| ==> Compare(b[j].key, key).sign > 0
    ensures |a| <= i < |a| + |es| && es[i - |a|].key == key
  {
    hide Compare;
    ThreeParts(a, es, b, i);
  }

  lemma ThreeParts(a: seq<Entry>, b: seq<Entry>, c: seq<Entry>, i: nat)
    requires i < |a + b + c|
    ensures (a + b + c)[i] == if i < |a| then a[i] else if i < |a| + |b| then b[i - |a|] else c[i - |a| - |b|]
  {
  }

  /** In an index that has been cut every search ends in the one leaf that is left. */
  lemma CutFinds(idx: DiskBspIndex, c: PageId, key: Value)
    requires idx.RootIsCut(c)
    ensures Last(Descend(idx.pages, idx.root, key, 1)) == c
  {
    assert Descend(idx.pages, idx.root, key, 0) == [idx.root];
  }

  const MOST_PER_PAGE := 371

  lemma {:induction false} AtLeastEleven(es: seq<Entry>)
    ensures EntriesSize(es) >= 11 * |es|
  {
    if es != [] {
      AtLeastEleven(es[1..]);
    }
  }

  /** Of all keys an index that has been cut finds those on one page. */
  lemma CutFindsFew(idx: DiskBspIndex, c: PageId, keys: set<Value>)
    requires idx.RootIsCut(c) && forall k :: k in keys ==> FoundBy(idx.pages, idx.root, 1, k)
    ensures |keys| <= MOST_PER_PAGE
  {
    hide EntriesSize;
    var es := EntriesOf(PageAt(idx.pages, c));
    assert c < |idx.pages| && Fits(idx.pages[c]);
    AtLeastEleven(es);
    forall k | k in keys
      ensures exists i :: 0 <= i < |es| && es[i].key == k
    {
      CutFinds(idx, c, k);
    }
    KeysOfFew(es, keys);
  }

  lemma {:induction false} KeysOfFew(es: seq<Entry>, keys: set<Value>)
    requires forall k :: k in keys ==> exists i :: 0 <= i < |es| && es[i].key == k
    ensures |keys| <= |es|
  {
    if es == [] {
      assert keys == {};
    } else {
      var n := |es| - 1;
      var rest := keys - {es[n].key};
      forall k | k in rest
        ensures exists i :: 0 <= i < n && es[..n][i].key == k
      {
        var i :| 0 <= i < |es| && es[i].key == k;
        assert es[..n][i].key == k;
      }
      KeysOfFew(es[..n], rest);
      assert keys <= rest + {es[n].key};
      assert |keys| <= |rest + {es[n].key}| by {
        SubsetSize(keys, rest + {es[n].key});
      }
    }
  }

  lemma {:induction false} SubsetSize(a: set<Value>, b: set<Value>)
    requires a <= b
    ensures |a| <= |b|
  {
    assert b == a + (b - a);
    assert |b| == |a| + |b - a|;
  }

  lemma EntryAt(idx: DiskBspIndex, n: nat)
    requires idx.Valid()
    ensures n < |idx.Items()| ==>
              idx.Items()[n].key in Contents(idx.Items()) && Contents(idx.Items())[idx.Items()[n].key] == idx.Items()[n].rid
  {
    hide Contents, InOrder;
    ContentsAt(idx.kind, idx.Items());
  }

  lemma ItemsOrdered(idx: DiskBspIndex)
    requires idx.Valid()
    ensures InOrder(idx.kind, idx.Items())
    ensures |idx.Items()| == idx.count
  {
  }

  lemma CountIsSize(idx: DiskBspIndex)
    requires idx.Valid()
    ensures idx.count == |Contents(idx.Items())|
  {
    hide Contents, InOrder;
    ItemsOrdered(idx);
    ContentsAt(idx.kind, idx.Items());
  }

  /** A key is present exactly when its lower bound is an entry with that key. */
  lemma LowerBoundFinds(t: DataType, es: seq<Entry>, key: Value, n: nat)
    requires InOrder(t, es) && key.IsKey(t) && IsLowerBound(es, key, n)
    ensures key in Contents(es) <==> n < |es| && Compare(es[n].key, key).sign == 0
    ensures key in Contents(es) ==> es[n].key == key && es[n].rid == Contents(es)[key]
  {
    hide Contents, Compare;
    ContentsAt(t, es);
    if n < |es| {
      CompareIsTotalOrder(es[n].key, key, t);
    }
    if key in Contents(es) {
      var i := ContentsHasOnly(es, key);
      CompareIsTotalOrder(es[i].key, key, t);
    }
  }

  // ---- range scans ----

  predicate AboveLow(key: Value, lo: Option<Value>, inclusive: bool) {
    lo.Some? ==> if inclusive then Compare(key, lo.value).sign >= 0 else Compare(key, lo.value).sign > 0
  }

  predicate BelowHigh(key: Value, hi: Option<Value>, inclusive: bool) {
    hi.Some? ==> if inclusive then Compare(key, hi.value).sign <= 0 else Compare(key, hi.value).sign < 0
  }

  /** The record ids of the entries within both bounds, in the order of `es`: a
      plain linear scan. */
  function Within(es: seq<Entry>, lo: Option<Value>, loInc: bool, hi: Option<Value>, hiInc: bool): seq<nat> {
    if es == [] then []
    else (if AboveLow(es[0].key, lo, loInc) && BelowHigh(es[0].key, hi, hiInc) then [es[0].rid] else [])
         + Within(es[1..], lo, loInc, hi, hiInc)
  }

  function Rids(es: seq<Entry>): (ids: seq<nat>)
    ensures |ids| == |es|
    ensures forall i :: 0 <= i < |es| ==> ids[i] == es[i].rid
  {
    seq(|es|, i requires 0 <= i < |es| => es[i].rid)
  }

  ghost predicate Typed(b: Option<Value>, t: DataType) {
    b.Some? ==> b.value.IsKey(t)
  }

  lemma RidsOfMore(e: Entry, es: seq<Entry>)
    ensures Rids([e] + es) == [e.rid] + Rids(es)
  {
  }

  lemma {:induction false} WithinIsSlice(es: seq<Entry>, lo: Option<Value>, loInc: bool, hi: Option<Value>, hiInc: bool,
                                         i: nat, j: nat)
    requires i <= j <= |es|
    requires forall k :: 0 <= k < i ==> !AboveLow(es[k].key, lo, loInc)
    requires forall k :: i <= k < j ==> AboveLow(es[k].key, lo, loInc) && BelowHigh(es[k].key, hi, hiInc)
    requires forall k :: j <= k < |es| ==> !BelowHigh(es[k].key, hi, hiInc)
    ensures Within(es, lo, loInc, hi, hiInc) == Rids(es[i..j])
  {
    hide AboveLow, BelowHigh, Rids;
    if es == [] {
      assert Rids([]) == [];
    } else {
      var tail := es[1..];
      assert forall k :: 0 <= k < |tail| ==> tail[k] == es[k + 1];
      if i > 0 {
        WithinIsSlice(tail, lo, loInc, hi, hiInc, i - 1, j - 1);
        assert tail[i - 1..j - 1] == es[i..j];
      } else if j > 0 {
        WithinIsSlice(tail, lo, loInc, hi, hiInc, 0, j - 1);
        assert es[0..j] == [es[0]] + tail[0..j - 1];
        RidsOfMore(es[0], tail[0..j - 1]);
      } else {
        WithinIsSlice(tail, lo, loInc, hi, hiInc, 0, 0);
      }
    }
  }

  lemma {:induction false} WithinMembers(es: seq<Entry>, lo: Option<Value>, loInc: bool, hi: Option<Value>, hiInc: bool,
                                         id: nat)
    ensures id in Within(es, lo, loInc, hi, hiInc) <==>
              exists k :: 0 <= k < |es| && es[k].rid == id && AboveLow(es[k].key, lo, loInc) && BelowHigh(es[k].key, hi, hiInc)
  {
    hide AboveLow, BelowHigh;
    if es != [] {
      var tail := es[1..];
      WithinMembers(tail, lo, loInc, hi, hiInc, id);
      assert forall k :: 0 <= k < |tail| ==> tail[k] == es[k + 1];
    }
  }

  /** Where a scan for keys above `lo` starts. */
  ghost predicate StartsAt(es: seq<Entry>, lo: Option<Value>, loInc: bool, n: nat) {
    match lo
    case None => n == 0
    case Some(v) => if loInc then IsLowerBound(es, v, n) else IsUpperBound(es, v, n)
  }

  lemma StartSplits(es: seq<Entry>, lo: Option<Value>, loInc: bool, n: nat)
    requires StartsAt(es, lo, loInc, n)
    ensures n <= |es|
    ensures forall k :: 0 <= k < n ==> !AboveLow(es[k].key, lo, loInc)
    ensures forall k :: n <= k < |es| ==> AboveLow(es[k].key, lo, loInc)
  {
  }

  lemma BeyondIsBeyond(t: DataType, es: seq<Entry>, hi: Option<Value>, hiInc: bool, n: nat)
    requires InOrder(t, es) && Typed(hi, t) && n < |es| && !BelowHigh(es[n].key, hi, hiInc)
    ensures forall k :: n <= k < |es| ==> !BelowHigh(es[k].key, hi, hiInc)
  {
    AboveIsAbove(t, es, n, hi.value);
  }

  /** A typed scan that starts right and stops right collects what a linear scan
      of all entries would. */
  lemma SliceIsWithin(t: DataType, es: seq<Entry>, lo: Option<Value>, loInc: bool, hi: Option<Value>, hiInc: bool,
                      i: nat, j: nat)
    requires InOrder(t, es) && Typed(hi, t) && StartsAt(es, lo, loInc, i) && i <= j <= |es|
    requires forall k :: i <= k < j ==> BelowHigh(es[k].key, hi, hiInc)
    requires j < |es| ==> !BelowHigh(es[j].key, hi, hiInc)
    ensures Within(es, lo, loInc, hi, hiInc) == Rids(es[i..j])
  {
    StartSplits(es, lo, loInc, i);
    if j < |es| {
      BeyondIsBeyond(t, es, hi, hiInc, j);
    }
    WithinIsSlice(es, lo, loInc, hi, hiInc, i, j);
  }

  /** Where `index_collect_range` starts. */
  method RangeStart(idx: DiskBspIndex, lo: Option<Value>, loInc: bool) returns (c: Cursor)
    requires idx.Valid()
    ensures fresh(c) && c.Valid() && c.owner == idx
    ensures Typed(lo, idx.kind) ==> StartsAt(idx.Items(), lo, loInc, c.place)
  {
    hide DiskBspIndex.Valid, DiskBspIndex.Items, IsLowerBound, IsUpperBound;
    match lo
    case None => c := Begin(idx);
    case Some(v) =>
      if loInc {
        c := LowerBound(idx, v);
      } else {
        c := UpperBound(idx, v);
      }
  }

  /** `index_collect_range`. Whatever the bounds are, the answer is a stretch of
      the entries; for bounds of the column's type it is exactly the ids of the
      entries within them, in key order. A bound of another type stops the scan at
      once. */
  method CollectRange(idx: DiskBspIndex, lo: Option<Value>, loInc: bool, hi: Option<Value>, hiInc: bool)
    returns (ids: seq<nat>, ghost i: nat, ghost j: nat)
    requires idx.Valid()
    ensures i <= j <= |idx.Items()| && ids == Rids(idx.Items()[i..j])
    ensures Typed(lo, idx.kind) && Typed(hi, idx.kind) ==> ids == Within(idx.Items(), lo, loInc, hi, hiInc)
    ensures hi.Some? && !Typed(hi, idx.kind) ==> ids == []
  {
    hide DiskBspIndex.Valid, DiskBspIndex.Items, Within, StartsAt, InOrder, Compare, OnLeaf, Entries, PageAt;
    ghost var es := idx.Items();
    ItemsOrdered(idx);
    ids := [];
    var c := RangeStart(idx, lo, loInc);
    i := c.place;
    while !c.atEnd
      invariant c.Valid() && c.owner == idx && fresh(c)
      invariant i <= c.place <= |es| && ids == Rids(es[i..c.place])
      invariant forall k :: i <= k < c.place ==> BelowHigh(es[k].key, hi, hiInc)
      invariant hi.Some? && !Typed(hi, idx.kind) ==> ids == []
      decreases |es| - c.place
    {
      if hi.Some? {
        CompareWithBound(idx.kind, es, c.place, hi.value);
        var order := Compare(c.key, hi.value);
        if !order.valid {
          break;
        }
        if (if hiInc then order.sign > 0 else order.sign >= 0) {
          break;
        }
      }
      ids := ids + [c.rid];
      NextRid(es, i, c.place);
      c.Advance();
    }
    j := c.place;
    if Typed(lo, idx.kind) && Typed(hi, idx.kind) {
      SliceIsWithin(idx.kind, es, lo, loInc, hi, hiInc, i, j);
    }
  }

  lemma CompareWithBound(t: DataType, es: seq<Entry>, n: nat, v: Value)
    requires InOrder(t, es) && n < |es|
    ensures Compare(es[n].key, v).valid <==> v.IsKey(t)
  {
    MixedComparisonsAreUnknown(es[n].key, v);
    if v.IsKey(t) {
      CompareIsTotalOrder(es[n].key, v, t);
    }
  }

  lemma NextRid(es: seq<Entry>, i: nat, n: nat)
    requires i <= n < |es|
    ensures Rids(es[i..n + 1]) == Rids(es[i..n]) + [es[n].rid]
  {
    assert es[i..n + 1] == es[i..n] + [es[n]];
  }
}
