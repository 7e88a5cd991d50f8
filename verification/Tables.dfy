/** Tables: records in memory, their order of insertion, and one on-disk index per
    indexed column (table.h, table.cpp). */
module Tables {
  import opened Outcomes
  import opened Values
  import opened Nodes
  import opened Ordered
  import opened Index
  import opened Capacity
  import Fanout
  import Lookup
  import BulkBuild

  datatype Column = Column(name: Text, kind: DataType, notNull: bool, indexed: bool, hasDefault: bool, default: Value)

  type RecordId = nat
  type Record = seq<Value>
  type Records = map<RecordId, Record>

  /** Only integer columns are indexed. */
  predicate OnlyIntIndexes(cols: seq<Column>) {
    forall c :: 0 <= c < |cols| && cols[c].indexed ==> cols[c].kind == IntType
  }

  // ---- what a record must look like ----

  predicate ValueOk(col: Column, v: Value) {
    if v.Null? then !col.notNull && !col.indexed else v.Matches(col.kind)
  }

  predicate Conforms(cols: seq<Column>, r: Record) {
    |r| == |cols| && forall c :: 0 <= c < |cols| ==> ValueOk(cols[c], r[c])
  }

  /** No record other than `self` has the value of r in an indexed column. */
  ghost predicate Unique(cols: seq<Column>, records: Records, r: Record, self: Option<RecordId>)
    requires |r| == |cols|
  {
    forall c, id :: 0 <= c < |cols| && cols[c].indexed && id in records && |records[id]| == |cols| ==>
      records[id][c] == r[c] ==> Some(id) == self
  }

  ghost predicate Acceptable(cols: seq<Column>, records: Records, r: Record, self: Option<RecordId>) {
    Conforms(cols, r) && Unique(cols, records, r, self)
  }

  function With(m: map<Value, nat>, v: Value, id: RecordId): map<Value, nat> {
    m[v := id]
  }

  /** m is exactly the map from the values of column c to the records that have
      them; it can only exist when the values are unique. */
  ghost predicate Exact(records: Records, c: nat, m: map<Value, nat>) {
    && (forall id :: id in records ==> c < |records[id]| && records[id][c] in m && m[records[id][c]] == id)
    && (forall v :: v in m ==> m[v] in records && c < |records[m[v]]| && records[m[v]][c] == v)
  }

  ghost predicate NoRepeats(order: seq<RecordId>) {
    forall i, j :: 0 <= i < j < |order| ==> order[i] != order[j]
  }

  /** The order without one id. */
  function Dropped(order: seq<RecordId>, id: RecordId): seq<RecordId> {
    if order == [] then [] else if order[0] == id then order[1..] else [order[0]] + Dropped(order[1..], id)
  }

  lemma {:induction false} DroppedMembers(order: seq<RecordId>, id: RecordId)
    requires NoRepeats(order)
    ensures NoRepeats(Dropped(order, id))
    ensures forall x :: x in Dropped(order, id) <==> x in order && x != id
  {
    if order != [] {
      assert order == [order[0]] + order[1..];
      if order[0] != id {
        DroppedMembers(order[1..], id);
        var rest := Dropped(order[1..], id);
        assert forall i :: 0 <= i < |rest| ==> rest[i] in order[1..];
      }
    }
  }

  lemma ExactInsert(records: Records, c: nat, m: map<Value, nat>, id: RecordId, r: Record)
    requires Exact(records, c, m) && id !in records && c < |r| && r[c] !in m
    ensures Exact(records[id := r], c, With(m, r[c], id))
  {
  }

  lemma ExactRemove(records: Records, c: nat, m: map<Value, nat>, id: RecordId)
    requires Exact(records, c, m) && id in records
    ensures Exact(records - {id}, c, m - {records[id][c]})
  {
  }

  /** Values are unique in an indexed column exactly when the index says so. */
  lemma ExactFinds(records: Records, c: nat, m: map<Value, nat>, v: Value)
    requires Exact(records, c, m)
    ensures v in m <==> exists id :: id in records && records[id][c] == v
    ensures forall id :: id in records && records[id][c] == v ==> v in m && m[v] == id
  {
    if v in m {
      assert records[m[v]][c] == v;
    }
  }

  lemma DroppedStep(order: seq<RecordId>, i: nat, id: RecordId)
    requires i < |order|
    ensures Dropped(order[i..], id)
            == if order[i] == id then order[i + 1..] else [order[i]] + Dropped(order[i + 1..], id)
    ensures order[..i] + [order[i]] == order[..i + 1]
  {
    assert order[i..][1..] == order[i + 1..];
  }

  /** The loop of `erase` over the order. */
  method EraseFromOrder(order: seq<RecordId>, id: RecordId) returns (rest: seq<RecordId>)
    ensures rest == Dropped(order, id)
  {
    hide Dropped;
    var i := 0;
    assert order[0..] == order;
    while i < |order| && order[i] != id
      invariant i <= |order|
      invariant Dropped(order, id) == order[..i] + Dropped(order[i..], id)
    {
      DroppedStep(order, i, id);
      i := i + 1;
    }
    if i < |order| {
      DroppedStep(order, i, id);
      return order[..i] + order[i + 1..];
    }
    NothingToDrop(id);
    assert order[i..] == [] && order[..i] == order;
    return order;
  }

  lemma NothingToDrop(id: RecordId)
    ensures Dropped([], id) == []
  {
  }

  /** There is only one such map. */
  lemma ExactUnique(records: Records, c: nat, m: map<Value, nat>, n: map<Value, nat>)
    requires Exact(records, c, m) && Exact(records, c, n)
    ensures m == n
  {
    forall v
      ensures v in m <==> v in n
      ensures v in m ==> m[v] == n[v]
    {
      if v in m {
        assert records[m[v]][c] == v;
      }
      if v in n {
        assert records[n[v]][c] == v;
      }
    }
  }

  // ---- rebuilding an index ----

  /** The entries of column c, in the order of the rows. */
  ghost function EntriesFor(records: Records, order: seq<RecordId>, c: nat): (es: seq<Entry>)
    requires forall id :: id in order ==> id in records && c < |records[id]|
    ensures |es| == |order|
  {
    seq(|order|, i requires 0 <= i < |order| => Entry(records[order[i]][c], order[i]))
  }

  lemma RebuiltExact(records: Records, order: seq<RecordId>, c: nat, t: DataType, sorted: seq<Entry>)
    requires forall id :: id in order <==> id in records
    requires forall id :: id in records ==> c < |records[id]|
    requires InOrder(t, sorted) && multiset(sorted) == multiset(EntriesFor(records, order, c))
    ensures Exact(records, c, Contents(sorted))
  {
    hide InOrder;
    var es, m := EntriesFor(records, order, c), Contents(sorted);
    ContentsAt(t, sorted);
    forall id | id in records
      ensures records[id][c] in m && m[records[id][c]] == id
    {
      var i :| 0 <= i < |order| && order[i] == id;
      assert es[i] in multiset(es);
      assert es[i] in sorted;
    }
    forall v | v in m
      ensures m[v] in records && records[m[v]][c] == v
    {
      var i := ContentsHasOnly(sorted, v);
      assert sorted[i] in multiset(sorted);
      assert sorted[i] in es;
    }
  }

  /** Sorted entries of a column without repeated values are strictly increasing. */
  lemma SortedIsOrdered(t: DataType, es: seq<Entry>, sorted: seq<Entry>)
    requires forall i :: 0 <= i < |es| ==> es[i].key.IsKey(t)
    requires forall i, j :: 0 <= i < j < |es| ==> es[i].key != es[j].key
    requires multiset(sorted) == multiset(es) && NonDecreasing(sorted)
    ensures InOrder(t, sorted)
  {
    forall i | 0 <= i < |sorted|
      ensures sorted[i].key.IsKey(t)
    {
      assert sorted[i] in multiset(sorted);
      assert sorted[i] in es;
    }
    forall i, j | 0 <= i < j < |sorted|
      ensures Less(sorted[i].key, sorted[j].key)
    {
      CompareIsTotalOrder(sorted[i].key, sorted[j].key, t);
      StillDistinct(es, sorted, i, j);
    }
  }

  lemma StillDistinct(es: seq<Entry>, sorted: seq<Entry>, i: nat, j: nat)
    requires forall i, j :: 0 <= i < j < |es| ==> es[i].key != es[j].key
    requires multiset(sorted) == multiset(es) && i < j < |sorted|
    ensures sorted[i].key != sorted[j].key
  {
    assert sorted[i] in multiset(sorted) && sorted[j] in multiset(sorted);
    var a :| 0 <= a < |es| && es[a] == sorted[i];
    var b :| 0 <= b < |es| && es[b] == sorted[j];
    OccursOnce(es, a);
    if sorted[i] == sorted[j] {
      TwiceInSequence(sorted, i, j);
    }
  }

  lemma OccursOnce(es: seq<Entry>, a: nat)
    requires a < |es| && forall i, j :: 0 <= i < j < |es| ==> es[i].key != es[j].key
    ensures multiset(es)[es[a]] == 1
  {
    var x, l, r := es[a], es[..a], es[a + 1..];
    assert es == l + [x] + r;
    assert x !in l && x !in r;
  }

  // ---- ranges of a column ----

  /** Between the bounds, at a bound only if it is included. */
  ghost predicate InBounds(v: Value, lo: Option<Value>, loInc: bool, hi: Option<Value>, hiInc: bool) {
    && (lo.Some? ==> Less(lo.value, v) || (loInc && v == lo.value))
    && (hi.Some? ==> Less(v, hi.value) || (hiInc && v == hi.value))
  }

  /** The rows are in strictly ascending order of column c. */
  ghost predicate Ascending(records: Records, c: nat, ids: seq<RecordId>) {
    && (forall a :: 0 <= a < |ids| ==> ids[a] in records && c < |records[ids[a]]|)
    && (forall a, b :: 0 <= a < b < |ids| ==> Less(records[ids[a]][c], records[ids[b]][c]))
  }

  lemma InBoundsIsWithin(v: Value, lo: Option<Value>, loInc: bool, hi: Option<Value>, hiInc: bool, t: DataType)
    requires v.IsKey(t) && Lookup.Typed(lo, t) && Lookup.Typed(hi, t)
    ensures InBounds(v, lo, loInc, hi, hiInc) <==> Lookup.AboveLow(v, lo, loInc) && Lookup.BelowHigh(v, hi, hiInc)
  {
    hide Compare;
    if lo.Some? {
      CompareIsTotalOrder(v, lo.value, t);
    }
    if hi.Some? {
      CompareIsTotalOrder(v, hi.value, t);
    }
  }

  lemma AscendingDiffer(records: Records, c: nat, ids: seq<RecordId>)
    requires Ascending(records, c, ids)
    ensures NoRepeats(ids)
  {
    hide CompareText;
  }

  datatype Assignment = Assignment(column: nat, value: Value)

  /** The record after assignments, in order: the last one to a column wins. */
  function Assigned(r: Record, assignments: seq<Assignment>): (u: Record)
    ensures |u| == |r|
  {
    if assignments == [] then r
    else
      var n := |assignments| - 1;
      var a, u := assignments[n], Assigned(r, assignments[..n]);
      if a.column < |u| then u[a.column := a.value] else u
  }

  /** The k-th assignment is the last one to column c. */
  ghost predicate LastTo(assignments: seq<Assignment>, c: nat, k: nat) {
    k < |assignments| && assignments[k].column == c
    && forall j :: k < j < |assignments| ==> assignments[j].column != c
  }

  /** In every column `u` has the value last assigned to it, or else that of `r`. */
  ghost predicate TakesAssignments(r: Record, assignments: seq<Assignment>, u: Record) {
    && |u| == |r|
    && (forall c: nat, k: nat :: c < |r| && LastTo(assignments, c, k) ==> u[c] == assignments[k].value)
    && (forall c :: 0 <= c < |r| && (forall k :: 0 <= k < |assignments| ==> assignments[k].column != c) ==> u[c] == r[c])
  }

  lemma {:induction false} AssignedTakesThem(r: Record, assignments: seq<Assignment>)
    ensures TakesAssignments(r, assignments, Assigned(r, assignments))
  {
    if assignments != [] {
      var n := |assignments| - 1;
      var before := assignments[..n];
      AssignedTakesThem(r, before);
      forall c: nat, k: nat | c < |r| && LastTo(assignments, c, k)
        ensures Assigned(r, assignments)[c] == assignments[k].value
      {
        assert k < n ==> assignments[n].column != c && LastTo(before, c, k);
      }
    }
  }

  /** The loop of `update` over the assignments. */
  method AssignAll(r: Record, assignments: seq<Assignment>) returns (u: Record)
    requires forall a :: a in assignments ==> a.column < |r|
    ensures u == Assigned(r, assignments)
  {
    u := r;
    for n := 0 to |assignments|
      invariant u == Assigned(r, assignments[..n])
    {
      assert assignments[..n + 1][..n] == assignments[..n] && assignments[n] in assignments;
      u := u[assignments[n].column := assignments[n].value];
    }
    assert assignments[..|assignments|] == assignments;
  }

  lemma {:induction false} ExactSize(records: Records, c: nat, m: map<Value, nat>)
    requires Exact(records, c, m)
    ensures |m| == |records|
    decreases |records|
  {
    if records.Keys != {} {
      var id :| id in records;
      var v := records[id][c];
      ExactRemove(records, c, m, id);
      assert (records - {id}).Keys == records.Keys - {id} && (m - {v}).Keys == m.Keys - {v};
      ExactSize(records - {id}, c, m - {v});
      assert |m - {v}| == |m| - 1 && |records - {id}| == |records| - 1;
    } else {
      assert forall v :: v in m ==> m[v] in records;
      assert m.Keys == {};
    }
  }

  class Table {
    const columns: seq<Column>
    var records: Records
    var order: seq<RecordId>
    var nextId: RecordId
    var indexes: map<nat, DiskBspIndex>

    constructor (columns: seq<Column>)
      ensures this.columns == columns && records == map[] && order == [] && nextId == 1 && indexes == map[]
    {
      this.columns := columns;
      records, order, nextId, indexes := map[], [], 1, map[];
    }

    /** The rows: the order lists the keys of the records once each, ids are below
        the next one, and every row conforms to the schema. */
    ghost predicate RowsListed(records: Records, order: seq<RecordId>, nextId: RecordId) {
      && NoRepeats(order) && (forall id :: id in order <==> id in records)
      && (forall id :: id in records ==> id < nextId && Conforms(columns, records[id]))
    }

    ghost predicate RowsOk()
      reads this
    {
      RowsListed(records, order, nextId)
    }

    /** One open index per indexed column, holding the maps m. */
    ghost predicate Holding(m: map<nat, map<Value, nat>>)
      reads this`indexes, indexes.Values
    {
      HoldingUpTo(|columns|, m)
    }

    /** The same for the first n columns only. */
    ghost predicate HoldingUpTo(n: nat, m: map<nat, map<Value, nat>>)
      reads this`indexes, indexes.Values
    {
      && (forall c: nat :: c in indexes <==> c < n && c < |columns| && columns[c].indexed)
      && m.Keys == indexes.Keys
      && (forall c, d :: c in indexes && d in indexes && c != d ==> indexes[c] != indexes[d])
      && (forall c :: c in indexes ==>
            && indexes[c].kind == columns[c].kind && indexes[c].Valid()
            && Contents(indexes[c].Items()) == m[c])
    }

    ghost function Held(): map<nat, map<Value, nat>>
      reads this`indexes, indexes.Values
    {
      map c | c in indexes :: Contents(indexes[c].Items())
    }

    /** Rows and indexes agree. */
    ghost predicate Valid()
      reads this, indexes.Values
    {
      RowsOk() && Holding(Held()) && forall c :: c in indexes ==> Exact(records, c, Held()[c])
    }

    /** No index of this table can fail as long as there are not too many rows: all
        are indexes of integers that were only grown by insertions. */
    ghost predicate CalmIndexes()
      reads this`indexes, indexes.Values
    {
      forall c :: c in indexes ==> indexes[c].Calm()
    }

    // ---- one index ----

    method IndexInsert(c: nat, v: Value, id: RecordId, ghost m: map<nat, map<Value, nat>>) returns (r: Result<()>)
      requires Holding(m) && c in indexes && v.IsKey(columns[c].kind)
      modifies indexes[c]
      ensures r.Throw? ==> r.fault == BadKey || r.fault.OfStorage()
      ensures r.Ok? ==> v !in m[c] && Holding(m[c := With(m[c], v, id)])
      ensures old(CalmIndexes()) && |m[c]| <= MAX_INTS && v !in m[c] ==> r.Ok? && CalmIndexes()
    {
      hide DiskBspIndex.Valid, DiskBspIndex.Items, DiskBspIndex.Low, DiskBspIndex.Stuck,
           DiskBspIndex.Jammed, DiskBspIndex.Marooned, DiskBspIndex.Target, DiskBspIndex.Healable,
           DiskBspIndex.RootIsCut, AtLeastTen, Contents;
      Lookup.CountIsSize(indexes[c]);
      r := indexes[c].Insert(v, id);
    }

    method IndexErase(c: nat, v: Value, ghost m: map<nat, map<Value, nat>>) returns (r: Result<()>)
      requires Holding(m) && c in indexes && v.IsKey(columns[c].kind)
      modifies indexes[c]
      ensures r.Throw? ==> r.fault == BadKey || r.fault.OfStorage()
      ensures r.Ok? ==> Holding(m[c := m[c] - {v}])
      ensures old(CalmIndexes()) && |m[c]| <= MAX_INTS ==> r.Ok? && CalmIndexes()
    {
      hide DiskBspIndex.Valid, DiskBspIndex.Items, DiskBspIndex.Low, DiskBspIndex.Stuck,
           DiskBspIndex.Jammed, DiskBspIndex.Marooned, DiskBspIndex.Target, DiskBspIndex.Healable,
           DiskBspIndex.RootIsCut, AtLeastTen, Contents;
      Lookup.CountIsSize(indexes[c]);
      var done := indexes[c].Erase(v);
      return if done.Ok? then Ok(()) else done.PropagateFailure();
    }

    /** `index_find`. */
    method IndexFind(c: nat, v: Value, ghost m: map<nat, map<Value, nat>>) returns (found: Option<RecordId>)
      requires Holding(m)
      ensures c !in indexes ==> found == None
      ensures c in indexes && found.Some? ==> exists w :: w in m[c] && m[c][w] == found.value
      ensures c in indexes && v.IsKey(columns[c].kind) ==>
                found == if v in m[c] then Some(m[c][v]) else None
    {
      hide DiskBspIndex.Valid, DiskBspIndex.Items, Contents;
      if c !in indexes {
        return None;
      }
      var it := Lookup.Find(indexes[c], v);
      return if it.atEnd then None else Some(it.rid);
    }

    // ---- all indexes ----

    /** m with the values of r added, or taken away, in the first n columns. */
    ghost function Installed(m: map<nat, map<Value, nat>>, r: Record, id: RecordId, n: nat): map<nat, map<Value, nat>> {
      map c | c in m :: if c < n && c < |r| then With(m[c], r[c], id) else m[c]
    }

    ghost function Removed(m: map<nat, map<Value, nat>>, r: Record, n: nat): map<nat, map<Value, nat>> {
      map c | c in m :: if c < n && c < |r| then m[c] - {r[c]} else m[c]
    }

    lemma NextInstalled(m: map<nat, map<Value, nat>>, r: Record, id: RecordId, n: nat)
      requires n < |r|
      ensures Installed(m, r, id, 0) == m
      ensures n !in m ==> Installed(m, r, id, n + 1) == Installed(m, r, id, n)
      ensures n in m ==> n in Installed(m, r, id, n) && Installed(m, r, id, n)[n] == m[n]
      ensures n in m ==> Installed(m, r, id, n + 1) == Installed(m, r, id, n)[n := With(m[n], r[n], id)]
    {
    }

    lemma NextRemoved(m: map<nat, map<Value, nat>>, r: Record, n: nat)
      requires n < |r|
      ensures Removed(m, r, 0) == m
      ensures n !in m ==> Removed(m, r, n + 1) == Removed(m, r, n)
      ensures n in m ==> n in Removed(m, r, n) && Removed(m, r, n)[n] == m[n]
      ensures n in m ==> Removed(m, r, n + 1) == Removed(m, r, n)[n := m[n] - {r[n]}]
    {
    }

    lemma HeldKeys(m: map<nat, map<Value, nat>>)
      requires Holding(m)
      ensures m.Keys == indexes.Keys
      ensures forall c: nat :: c in indexes <==> c < |columns| && columns[c].indexed
    {
    }

    lemma IndexedValue(rec: Record, c: nat)
      requires Conforms(columns, rec) && c < |columns|
      ensures |rec| == |columns|
      ensures columns[c].indexed ==> rec[c].IsKey(columns[c].kind)
    {
      assert ValueOk(columns[c], rec[c]);
    }

    /** None of the record's values is in its map yet, and no map is larger than n. */
    ghost predicate Absent(m: map<nat, map<Value, nat>>, rec: Record, n: nat) {
      forall c :: c in m && c < |rec| ==> rec[c] !in m[c] && |m[c]| <= n
    }

    /** `install_into_indexes`. */
    method InstallIntoIndexes(id: RecordId, rec: Record, ghost m: map<nat, map<Value, nat>>) returns (r: Result<()>)
      requires Holding(m) && Conforms(columns, rec)
      modifies indexes.Values
      ensures r.Throw? ==> r.fault == BadKey || r.fault.OfStorage()
      ensures r.Ok? ==> Holding(Installed(m, rec, id, |columns|))
      ensures r.Ok? ==> forall c :: c in indexes && c < |rec| ==> rec[c] !in m[c]
      ensures old(CalmIndexes()) && Absent(m, rec, MAX_INTS) ==> r.Ok? && CalmIndexes()
    {
      hide Holding, Conforms, Installed, DiskBspIndex.Valid, DiskBspIndex.Items, Contents, CalmIndexes;
      ghost var calm := CalmIndexes() && Absent(m, rec, MAX_INTS);
      HeldKeys(m);
      NothingInstalled(m, rec, id);
      for c := 0 to |columns|
        invariant Holding(Installed(m, rec, id, c)) && (calm ==> CalmIndexes())
        invariant forall d :: d in indexes && d < c && d < |rec| ==> rec[d] !in m[d]
      {
        IndexedValue(rec, c);
        NextInstalled(m, rec, id, c);
        if columns[c].indexed && !rec[c].Null? {
          var _ :- IndexInsert(c, rec[c], id, Installed(m, rec, id, c));
        }
      }
      ConformingLength(rec);
      return Ok(());
    }

    lemma NothingInstalled(m: map<nat, map<Value, nat>>, r: Record, id: RecordId)
      ensures Installed(m, r, id, 0) == m && Removed(m, r, 0) == m
    {
    }

    lemma ConformingLength(rec: Record)
      requires Conforms(columns, rec)
      ensures |rec| == |columns|
    {
    }

    /** `remove_from_indexes`. */
    method RemoveFromIndexes(rec: Record, ghost m: map<nat, map<Value, nat>>) returns (r: Result<()>)
      requires Holding(m) && Conforms(columns, rec)
      modifies indexes.Values
      ensures r.Throw? ==> r.fault == BadKey || r.fault.OfStorage()
      ensures r.Ok? ==> Holding(Removed(m, rec, |columns|))
      ensures old(CalmIndexes()) && (forall c :: c in m ==> |m[c]| <= MAX_INTS) ==> r.Ok? && CalmIndexes()
    {
      hide Holding, Conforms, Removed, DiskBspIndex.Valid, DiskBspIndex.Items, Contents, CalmIndexes;
      ghost var calm := CalmIndexes() && forall c :: c in m ==> |m[c]| <= MAX_INTS;
      HeldKeys(m);
      NothingInstalled(m, rec, 0);
      for c := 0 to |columns|
        invariant Holding(Removed(m, rec, c)) && (calm ==> CalmIndexes())
      {
        IndexedValue(rec, c);
        NextRemoved(m, rec, c);
        if columns[c].indexed && !rec[c].Null? {
          var _ :- IndexErase(c, rec[c], Removed(m, rec, c));
        }
      }
      return Ok(());
    }

    // ---- constraints ----

    lemma IndexAgrees(c: nat, v: Value)
      requires Valid() && c in indexes
      ensures c in Held() && c < |columns|
      ensures forall id :: id in records ==> |records[id]| == |columns|
      ensures forall id :: id in records && records[id][c] == v ==> v in Held()[c] && Held()[c][v] == id
      ensures v in Held()[c] ==> Held()[c][v] in records && records[Held()[c][v]][c] == v
    {
      assert Exact(records, c, Held()[c]);
      ExactFinds(records, c, Held()[c], v);
    }

    /** What a row must be to be accepted, column by column. */
    lemma AcceptableMeans(rec: Record, self: Option<RecordId>)
      requires Valid()
      ensures Acceptable(columns, records, rec, self) <==>
                && |rec| == |columns|
                && (forall c :: 0 <= c < |columns| ==>
                      match rec[c]
                      case Null => !columns[c].notNull && !columns[c].indexed
                      case Int(_) => columns[c].kind == IntType
                      case Str(_) => columns[c].kind == StrType)
                && forall c, id :: 0 <= c < |columns| && columns[c].indexed && id in records && Some(id) != self ==>
                     |records[id]| == |columns| && records[id][c] != rec[c]
    {
      hide Holding, Held, Exact, Contents;
      assert forall id :: id in records ==> |records[id]| == |columns|;
      if |rec| == |columns| {
        assert forall c :: 0 <= c < |columns| ==>
            (ValueOk(columns[c], rec[c]) <==>
               match rec[c]
               case Null => !columns[c].notNull && !columns[c].indexed
               case Int(_) => columns[c].kind == IntType
               case Str(_) => columns[c].kind == StrType);
      }
    }

    /** `enforce_constraints`: arity, NULLs, types, and uniqueness by a search in
        each index. */
    method EnforceConstraints(rec: Record, self: Option<RecordId>) returns (r: Result<()>)
      requires Valid()
      ensures r == if Acceptable(columns, records, rec, self) then Ok(()) else Throw(Constraint)
      ensures r.Ok? <==>
                && |rec| == |columns|
                && (forall c :: 0 <= c < |columns| ==>
                      match rec[c]
                      case Null => !columns[c].notNull && !columns[c].indexed
                      case Int(_) => columns[c].kind == IntType
                      case Str(_) => columns[c].kind == StrType)
                && forall c, id :: 0 <= c < |columns| && columns[c].indexed && id in records && Some(id) != self ==>
                     |records[id]| == |columns| && records[id][c] != rec[c]
    {
      hide Valid, Unique;
      AcceptableMeans(rec, self);
      if |rec| != |columns| {
        return Throw(Constraint);
      }
      for c := 0 to |columns|
        invariant forall d :: 0 <= d < c ==> ValueOk(columns[d], rec[d])
      {
        if rec[c].Null? {
          if columns[c].notNull || columns[c].indexed {
            return Throw(Constraint);
          }
        } else if !rec[c].Matches(columns[c].kind) {
          return Throw(Constraint);
        }
      }
      r := CheckUnique(rec, self);
    }

    /** No record but `self` has this value in column c. */
    ghost predicate FreeAt(c: nat, v: Value, self: Option<RecordId>)
      requires c < |columns|
      reads this`records
    {
      forall id :: id in records && |records[id]| == |columns| ==> records[id][c] == v ==> Some(id) == self
    }

    lemma FreeEverywhere(rec: Record, self: Option<RecordId>)
      requires |rec| == |columns|
      ensures Unique(columns, records, rec, self) <==>
                forall c :: 0 <= c < |columns| && columns[c].indexed ==> FreeAt(c, rec[c], self)
    {
      if forall c :: 0 <= c < |columns| && columns[c].indexed ==> FreeAt(c, rec[c], self) {
        forall c, id | 0 <= c < |columns| && columns[c].indexed && id in records && |records[id]| == |columns|
          ensures records[id][c] == rec[c] ==> Some(id) == self
        {
          assert FreeAt(c, rec[c], self);
        }
      }
    }

    /** Whether a value is free is what a search in the index of the column says. */
    lemma FoundDecides(c: nat, v: Value, self: Option<RecordId>)
      requires Valid() && c < |columns| && columns[c].indexed
      ensures c in indexes && c in Held()
      ensures FreeAt(c, v, self) <==> (v in Held()[c] ==> self == Some(Held()[c][v]))
    {
      hide DiskBspIndex.Valid, DiskBspIndex.Items, Contents, Exact, Held, RowsListed;
      IndexAgrees(c, v);
    }

    /** The half of `enforce_constraints` about indexed columns. */
    method CheckUnique(rec: Record, self: Option<RecordId>) returns (r: Result<()>)
      requires Valid() && Conforms(columns, rec)
      ensures r == if Unique(columns, records, rec, self) then Ok(()) else Throw(Constraint)
    {
      hide Valid, Holding, Held, Unique, FreeAt;
      Agreed();
      FreeEverywhere(rec, self);
      for c := 0 to |columns|
        invariant forall d :: 0 <= d < c && columns[d].indexed ==> FreeAt(d, rec[d], self)
      {
        if columns[c].indexed && !rec[c].Null? {
          FoundDecides(c, rec[c], self);
          var found := IndexFind(c, rec[c], Held());
          if found.Some? && (self.None? || found.value != self.value) {
            return Throw(Constraint);
          }
        }
      }
      return Ok(());
    }

    // ---- changing rows ----

    lemma AcceptableConforms(rec: Record, self: Option<RecordId>)
      requires Acceptable(columns, records, rec, self)
      ensures Conforms(columns, rec)
    {
    }

    lemma RowsAfterInsert(rec: Record)
      requires RowsOk() && Conforms(columns, rec)
      ensures NoRepeats(order + [nextId]) && nextId !in records
      ensures RowsListed(records[nextId := rec], order + [nextId], nextId + 1)
    {
      hide Conforms;
      assert forall i :: 0 <= i < |order| ==> order[i] in order;
    }

    lemma MakesValid(m: map<nat, map<Value, nat>>)
      requires Holding(m) && RowsOk() && forall c :: c in m ==> Exact(records, c, m[c])
      ensures Valid() && Held() == m
    {
      hide Exact, Contents, RowsOk, DiskBspIndex.Valid, DiskBspIndex.Items;
      assert Held() == m;
    }

    lemma Agreed()
      requires Valid()
      ensures RowsOk() && Holding(Held())
      ensures forall c :: c in Held() ==> Exact(records, c, Held()[c])
      ensures forall id :: id in records ==> Conforms(columns, records[id])
    {
    }

    /** Every index has as many entries as there are rows. */
    lemma HeldSizes()
      requires Valid()
      ensures forall c :: c in Held() ==> |Held()[c]| == |records|
    {
      hide Exact, Contents, Holding;
      forall c | c in Held()
        ensures |Held()[c]| == |records|
      {
        ExactSize(records, c, Held()[c]);
      }
    }

    /** Only the record's own row can have its value in an indexed column. */
    lemma NoClash(c: nat, rec: Record, self: Option<RecordId>)
      requires Valid() && Acceptable(columns, records, rec, self) && c in Held()
      ensures c < |columns| == |rec|
      ensures rec[c] in Held()[c] ==> self == Some(Held()[c][rec[c]])
      ensures forall id :: id in records && Some(id) == self && rec[c] in Held()[c] ==>
                c < |records[id]| && records[id][c] == rec[c]
    {
      hide Contents, Exact, Held, Conforms, Holding, RowsListed;
      Agreed();
      HeldKeys(Held());
      ConformingLength(rec);
      IndexAgrees(c, rec[c]);
    }

    lemma NothingClashes(rec: Record, self: Option<RecordId>)
      requires Valid() && Acceptable(columns, records, rec, self) && self.None? && |records| <= MAX_INTS
      ensures Absent(Held(), rec, MAX_INTS)
    {
      hide Valid, Held, Acceptable;
      HeldSizes();
      forall c | c in Held() && c < |rec|
        ensures rec[c] !in Held()[c]
      {
        NoClash(c, rec, self);
      }
    }

    lemma NothingClashesWithout(rec: Record, id: RecordId)
      requires Valid() && id in records && Acceptable(columns, records, rec, Some(id)) && |records| <= MAX_INTS
      ensures |records[id]| == |columns|
      ensures forall c :: c in Held() ==> |Held()[c]| <= MAX_INTS
      ensures Absent(Removed(Held(), records[id], |columns|), rec, MAX_INTS)
    {
      hide Valid, Held, Acceptable;
      RowHasColumns(id);
      HeldSizes();
      forall c | c in Held() && c < |rec|
        ensures c < |columns| && rec[c] !in Held()[c] - {records[id][c]}
        ensures |Held()[c] - {records[id][c]}| <= MAX_INTS
      {
        NoClash(c, rec, Some(id));
        FewerKeys(Held()[c], records[id][c]);
      }
    }

    lemma RowHasColumns(id: RecordId)
      requires Valid() && id in records
      ensures |records[id]| == |columns|
    {
    }

    lemma FewerKeys(m: map<Value, nat>, v: Value)
      ensures |m - {v}| <= |m|
    {
      assert (m - {v}).Keys == m.Keys - {v};
      assert |m - {v}| == |(m - {v}).Keys| && |m| == |m.Keys|;
    }

    lemma InsertedExact(rec: Record, m: map<nat, map<Value, nat>>, was: Records, id: RecordId)
      requires forall c :: c in m ==> Exact(was, c, m[c]) && c < |rec| == |columns| && rec[c] !in m[c]
      requires id !in was
      ensures var m' := Installed(m, rec, id, |columns|); forall c :: c in m' ==> Exact(was[id := rec], c, m'[c])
    {
      hide Exact;
      forall c | c in m
        ensures Exact(was[id := rec], c, With(m[c], rec[c], id))
      {
        ExactInsert(was, c, m[c], id, rec);
      }
    }

    /** `insert`. A rejected row changes nothing. An accepted row is in the table
        even when an index then fails; when none does, rows and indexes agree. */
    method Insert(rec: Record) returns (r: Result<RecordId>)
      requires Valid()
      modifies this`records, this`order, this`nextId, indexes.Values
      ensures r.Throw? ==> r.fault == Constraint || r.fault == BadKey || r.fault.OfStorage()
      ensures r == Throw(Constraint) <==> !old(Acceptable(columns, records, rec, None))
      ensures r == Throw(Constraint) ==> Valid() && Held() == old(Held())
                                         && records == old(records) && order == old(order) && nextId == old(nextId)
                                         && (old(CalmIndexes()) ==> CalmIndexes())
      ensures old(Acceptable(columns, records, rec, None)) ==>
                && records == old(records)[old(nextId) := rec]
                && order == old(order) + [old(nextId)] && nextId == old(nextId) + 1
                && (r.Ok? ==> r.value == old(nextId) && Valid())
      ensures old(CalmIndexes() && |records| <= MAX_INTS && Acceptable(columns, records, rec, None)) ==>
                r.Ok? && CalmIndexes()
    {
      hide Acceptable, Conforms, Valid, Held, CalmIndexes, Absent;
      if Acceptable(columns, records, rec, None) && |records| <= MAX_INTS {
        NothingClashes(rec, None);
      }
      var _ :- EnforceConstraints(rec, None);
      AcceptableConforms(rec, None);
      r := StoreRow(rec);
    }

    /** The part of `insert` after the constraints. */
    method StoreRow(rec: Record) returns (r: Result<RecordId>)
      requires Valid() && Conforms(columns, rec)
      modifies this`records, this`order, this`nextId, indexes.Values
      ensures r.Throw? ==> r.fault == BadKey || r.fault.OfStorage()
      ensures records == old(records)[old(nextId) := rec]
      ensures order == old(order) + [old(nextId)] && nextId == old(nextId) + 1
      ensures r.Ok? ==> r.value == old(nextId) && Valid()
      ensures old(CalmIndexes() && Absent(Held(), rec, MAX_INTS)) ==> r.Ok? && CalmIndexes()
    {
      hide Holding, Exact, Installed, Conforms, Valid, Held, RowsListed, CalmIndexes, Absent;
      Agreed();
      ghost var m, was := Held(), records;
      RowsAfterInsert(rec);
      ConformingLength(rec);
      HeldKeys(m);
      var id := nextId;
      nextId := nextId + 1;
      records := records[id := rec];
      order := order + [id];
      var _ :- InstallIntoIndexes(id, rec, m);
      InsertedExact(rec, m, was, id);
      MakesValid(Installed(m, rec, id, |columns|));
      return Ok(id);
    }

    lemma RemovedExact(m: map<nat, map<Value, nat>>, was: Records, id: RecordId)
      requires id in was && |was[id]| == |columns|
      requires forall c :: c in m ==> Exact(was, c, m[c]) && c < |columns|
      ensures var m' := Removed(m, was[id], |columns|); forall c :: c in m' ==> Exact(was - {id}, c, m'[c])
    {
      hide Exact;
      forall c | c in m
        ensures Exact(was - {id}, c, m[c] - {was[id][c]})
      {
        ExactRemove(was, c, m[c], id);
      }
    }

    lemma RowsAfterUpdate(id: RecordId, rec: Record)
      requires RowsOk() && id in records && Conforms(columns, rec)
      ensures RowsListed(records[id := rec], order, nextId)
    {
    }

    /** `update`. A rejected change changes nothing; otherwise the row is replaced in
        place, keeping its id and its position. */
    method Update(id: RecordId, assignments: seq<Assignment>) returns (r: Result<()>)
      requires Valid() && forall a :: a in assignments ==> a.column < |columns|
      modifies this`records, indexes.Values
      ensures r.Throw? ==> r.fault == MissingRow || r.fault == Constraint || r.fault == BadKey || r.fault.OfStorage()
      ensures r == Throw(MissingRow) <==> id !in old(records)
      ensures r == Throw(Constraint) <==>
                id in old(records) && !old(Acceptable(columns, records, Assigned(records[id], assignments), Some(id)))
      ensures r == Throw(MissingRow) || r == Throw(Constraint) ==>
                && Valid() && records == old(records) && Held() == old(Held())
                && (old(CalmIndexes()) ==> CalmIndexes())
      ensures r.Ok? ==>
                id in old(records) && Valid() && records == old(records)[id := Assigned(old(records)[id], assignments)]
      ensures r.Ok? ==>
                && records.Keys == old(records.Keys) && TakesAssignments(old(records)[id], assignments, records[id])
                && forall other :: other in records && other != id ==> records[other] == old(records)[other]
      ensures old(CalmIndexes() && |records| <= MAX_INTS) && r != Throw(MissingRow) && r != Throw(Constraint) ==>
                r.Ok? && CalmIndexes()
    {
      hide Acceptable, Conforms, Assigned, TakesAssignments, Valid, Held, CalmIndexes, Absent;
      if id !in records {
        return Throw(MissingRow);
      }
      RowHasColumns(id);
      AssignedTakesThem(records[id], assignments);
      var rec := AssignAll(records[id], assignments);
      var _ :- EnforceConstraints(rec, Some(id));
      AcceptableConforms(rec, Some(id));
      if |records| <= MAX_INTS {
        NothingClashesWithout(rec, id);
      }
      r := ReplaceRow(id, rec);
    }

    /** The part of `update` after the constraints. */
    method ReplaceRow(id: RecordId, rec: Record) returns (r: Result<()>)
      requires Valid() && id in records && |records[id]| == |columns| && Conforms(columns, rec)
      modifies this`records, indexes.Values
      ensures r.Throw? ==> r.fault == BadKey || r.fault.OfStorage()
      ensures r.Ok? ==> Valid() && records == old(records)[id := rec]
      ensures old(CalmIndexes() && (forall c :: c in Held() ==> |Held()[c]| <= MAX_INTS)
                  && Absent(Removed(Held(), records[id], |columns|), rec, MAX_INTS)) ==>
                r.Ok? && CalmIndexes()
    {
      hide Holding, Exact, Installed, Removed, Conforms, Valid, Held, RowsListed, CalmIndexes, Absent;
      Agreed();
      ghost var m, was := Held(), records;
      RowsAfterUpdate(id, rec);
      ConformingLength(rec);
      HeldKeys(m);
      var _ :- RemoveFromIndexes(records[id], m);
      ghost var m1 := Removed(m, records[id], |columns|);
      RemovedExact(m, was, id);
      records := records[id := rec];
      HeldKeys(m1);
      var _ :- InstallIntoIndexes(id, rec, m1);
      InsertedExact(rec, m1, was - {id}, id);
      assert (was - {id})[id := rec] == records;
      MakesValid(Installed(m1, rec, id, |columns|));
      return Ok(());
    }

    lemma RowsAfterErase(id: RecordId)
      requires RowsOk() && id in records
      ensures RowsListed(records - {id}, Dropped(order, id), nextId)
    {
      hide Conforms, NoRepeats;
      DroppedMembers(order, id);
    }

    /** `erase`. A missing row is no error. */
    method Erase(id: RecordId) returns (r: Result<()>)
      requires Valid()
      modifies this`records, this`order, indexes.Values
      ensures r.Throw? ==> r.fault == BadKey || r.fault.OfStorage()
      ensures id !in old(records) ==> r.Ok? && order == old(order) && Held() == old(Held())
      ensures r.Ok? ==> Valid() && records == old(records) - {id}
      ensures r.Ok? && id in old(records) ==> order == Dropped(old(order), id)
      ensures old(CalmIndexes() && |records| <= MAX_INTS) ==> r.Ok? && CalmIndexes()
    {
      hide Holding, Exact, Removed, Conforms, Valid, Held, RowsListed, CalmIndexes;
      Agreed();
      HeldSizes();
      if id !in records {
        assert records - {id} == records;
        return Ok(());
      }
      ghost var m, was := Held(), records;
      ConformingLength(records[id]);
      HeldKeys(m);
      RowsAfterErase(id);
      assert forall c :: c in m ==> Exact(was, c, m[c]);
      var _ :- RemoveFromIndexes(records[id], m);
      RemovedExact(m, was, id);
      records := records - {id};
      order := EraseFromOrder(order, id);
      MakesValid(Removed(m, was[id], |columns|));
      return Ok(());
    }

    // ---- opening and rebuilding indexes ----

    /** For each indexed column with a file, the file was left behind by an index that
        agreed with the rows; without a file there are no rows yet. */
    ghost predicate FilesFit(files: map<nat, seq<Page>>, left: map<nat, DiskBspIndex>)
      reads this, left.Values
    {
      forall c :: 0 <= c < |columns| && columns[c].indexed ==> FileFits(c, files, left)
    }

    ghost predicate FileFits(c: nat, files: map<nat, seq<Page>>, left: map<nat, DiskBspIndex>)
      requires c < |columns|
      reads this, left.Values
    {
      if c in files then
        && c in left && left[c].Valid() && left[c].kind == columns[c].kind && files[c] == left[c].pages
        && Exact(records, c, Contents(left[c].Items()))
      else records == map[]
    }

    /** `open_indexes` on a table that has none open yet: every indexed column gets the
        index its file holds, or an empty one. */
    method OpenIndexes(files: map<nat, seq<Page>>, ghost left: map<nat, DiskBspIndex>)
      requires indexes == map[] && RowsOk() && FilesFit(files, left)
      modifies this`indexes
      ensures Valid() && fresh(indexes.Values)
      ensures forall c :: c in Held() && c in files ==> c in left && Held()[c] == old(Contents(left[c].Items()))
      ensures OnlyIntIndexes(columns) && (forall c :: c in left ==> old(left[c].Calm())) ==> CalmIndexes()
    {
      hide Contents, DiskBspIndex.Valid, DiskBspIndex.Items, HoldingUpTo, DiskBspIndex.Calm, Exact, RowsListed;
      ghost var m: map<nat, map<Value, nat>> := map[];
      NoneAttached();
      for c := 0 to |columns|
        invariant forall d :: d in indexes ==> fresh(indexes[d])
        invariant HoldingUpTo(c, m) && forall d :: d in m ==> Exact(records, d, m[d])
        invariant forall d :: d in m && d in files ==> d in left && m[d] == old(Contents(left[d].Items()))
        invariant OnlyIntIndexes(columns) && (forall d :: d in left ==> old(left[d].Calm())) ==> CalmIndexes()
      {
        if columns[c].indexed {
          assert FileFits(c, files, left);
          var disk := OpenIndex(c, files, left);
          ghost var was := m;
          m := m[c := Contents(disk.Items())];
          Attach(c, disk, was);
        } else {
          NothingToAttach(c, m);
        }
      }
      MakesValid(m);
    }

    /** One index, from its file or empty. */
    method OpenIndex(c: nat, files: map<nat, seq<Page>>, ghost left: map<nat, DiskBspIndex>) returns (disk: DiskBspIndex)
      requires c < |columns| && FileFits(c, files, left)
      ensures fresh(disk) && disk.kind == columns[c].kind && disk.Valid() && Exact(records, c, Contents(disk.Items()))
      ensures c in files ==> Contents(disk.Items()) == Contents(left[c].Items())
      ensures columns[c].kind == IntType && (forall d :: d in left ==> left[d].Calm()) ==> disk.Calm()
    {
      hide Contents, DiskBspIndex.Valid, DiskBspIndex.Items, DiskBspIndex.Calm, Exact;
      disk := new DiskBspIndex(columns[c].kind);
      if c in files {
        var done := disk.Open(files[c], left[c]);
      } else {
        disk.CreateEmpty();
        NoRowsExact(records, c);
      }
    }

    lemma NoRowsExact(records: Records, c: nat)
      requires records == map[]
      ensures Contents([]) == map[] && Exact(records, c, map[])
    {
    }

    lemma NoneAttached()
      requires indexes == map[]
      ensures HoldingUpTo(0, map[])
    {
    }

    lemma NothingToAttach(c: nat, m: map<nat, map<Value, nat>>)
      requires HoldingUpTo(c, m) && c < |columns| && !columns[c].indexed
      ensures HoldingUpTo(c + 1, m)
    {
    }

    /** One more column gets its index. */
    method Attach(c: nat, disk: DiskBspIndex, ghost m: map<nat, map<Value, nat>>)
      requires HoldingUpTo(c, m) && c < |columns| && columns[c].indexed
      requires disk.Valid() && disk.kind == columns[c].kind && forall d :: d in indexes ==> indexes[d] != disk
      modifies this`indexes
      ensures HoldingUpTo(c + 1, m[c := Contents(disk.Items())]) && indexes == old(indexes)[c := disk] && c !in m
    {
      hide Contents, DiskBspIndex.Valid, DiskBspIndex.Items;
      indexes := indexes[c := disk];
    }

    /** `assert_indexed_column_not_null` and the gathering loop. */
    method GatherEntries(c: nat) returns (es: seq<Entry>)
      requires RowsOk() && c < |columns| && columns[c].indexed
      ensures RowsHaveColumn(c) && es == EntriesFor(records, order, c)
      ensures forall e :: e in es ==> e.key.IsKey(columns[c].kind)
    {
      hide NoRepeats;
      es := [];
      for i := 0 to |order|
        invariant |es| == i
        invariant forall k :: 0 <= k < i ==>
                    && order[k] in records && c < |records[order[k]]|
                    && es[k] == Entry(records[order[k]][c], order[k]) && es[k].key.IsKey(columns[c].kind)
      {
        assert order[i] in order;
        assert ValueOk(columns[c], records[order[i]][c]);
        es := es + [Entry(records[order[i]][c], order[i])];
      }
      assert forall id :: id in records ==> id in order;
    }

    ghost predicate RowsHaveColumn(c: nat)
      reads this
    {
      && (forall id :: id in order <==> id in records)
      && (forall id :: id in records ==> c < |records[id]|)
    }

    /** No value occurs twice in the column, and none is oversized. */
    ghost predicate Indexable(c: nat)
      reads this`records, this`order
    {
      && (forall i, j :: 0 <= i < j < |order| && HasColumn(order[i], c) && HasColumn(order[j], c) ==>
            records[order[i]][c] != records[order[j]][c])
      && (forall id :: HasColumn(id, c) ==> EncodedSize(records[id][c]) <= MAX_KEY_BYTES)
    }

    predicate HasColumn(id: RecordId, c: nat)
      reads this`records
    {
      id in records && c < |records[id]|
    }

    /** Rebuilding one index. */
    method RebuildIndex(c: nat) returns (r: Result<DiskBspIndex>)
      requires RowsOk() && c < |columns| && columns[c].indexed
      ensures r.Ok? ==> fresh(r.value) && r.value.kind == columns[c].kind && r.value.Valid()
                        && Exact(records, c, Contents(r.value.Items()))
      ensures Indexable(c) ==> !r.Throw? && (columns[c].kind == IntType && |order| <= MOST_INTS ==> r.Ok?)
    {
      hide RowsListed, Contents, InOrder, Exact, NonDecreasing, AllInts, SmallKeys, Indexable, DiskBspIndex.Valid,
           DiskBspIndex.Items, DiskBspIndex.RootIsCut, AtLeastTen, Fanout.NoneCut, Fanout.LeafHeads;
      var es := GatherEntries(c);
      var sorted := SortByKey(es, columns[c].kind);
      if Indexable(c) {
        IndexableEntries(c, es);
        SortedIsOrdered(columns[c].kind, es, sorted);
        SortedIsSmall(es, sorted);
      }
      KeysOfPermutation(es, sorted, columns[c].kind);
      if columns[c].kind == IntType {
        IntsOfKeys(es, sorted);
      }
      var disk := new DiskBspIndex(columns[c].kind);
      var _ :- BulkBuild.BulkBuild(disk, sorted);
      RebuiltExact(records, order, c, columns[c].kind, sorted);
      return Ok(disk);
    }

    lemma IndexableEntries(c: nat, es: seq<Entry>)
      requires Indexable(c) && RowsHaveColumn(c) && es == EntriesFor(records, order, c)
      ensures SmallKeys(es) && forall i, j :: 0 <= i < j < |es| ==> es[i].key != es[j].key
    {
      assert forall i :: 0 <= i < |order| ==> order[i] in order && HasColumn(order[i], c);
    }

    lemma IntsOfKeys(es: seq<Entry>, sorted: seq<Entry>)
      requires multiset(es) == multiset(sorted) && forall e :: e in sorted ==> e.key.IsKey(IntType)
      ensures AllInts(sorted) && |sorted| == |es|
    {
      assert |es| == |multiset(es)|;
    }

    lemma SortedIsSmall(es: seq<Entry>, sorted: seq<Entry>)
      requires multiset(es) == multiset(sorted) && SmallKeys(es)
      ensures SmallKeys(sorted)
    {
      forall i | 0 <= i < |sorted|
        ensures EncodedSize(sorted[i].key) <= MAX_KEY_BYTES
      {
        assert sorted[i] in multiset(sorted);
        assert sorted[i] in es;
      }
    }

    /** `rebuild_indexes_on_disk`: whatever indexes there were, they are replaced by
        indexes that agree with the rows. A repeated or oversized value is the only
        reason to call a key bad. */
    method RebuildIndexes() returns (r: Result<()>)
      requires RowsOk()
      modifies this`indexes
      ensures r.Ok? ==> Valid() && fresh(indexes.Values)
      ensures old(forall c :: 0 <= c < |columns| && columns[c].indexed ==> Indexable(c)) ==>
                !r.Throw? && (OnlyIntIndexes(columns) && |order| <= MOST_INTS ==> r.Ok?)
    {
      hide RowsListed, Contents, Exact, Indexable, DiskBspIndex.Valid, DiskBspIndex.Items, HoldingUpTo;
      indexes := map[];
      ghost var m: map<nat, map<Value, nat>> := map[];
      NoneAttached();
      for c := 0 to |columns|
        invariant forall d :: d in indexes ==> fresh(indexes[d])
        invariant HoldingUpTo(c, m) && forall d :: d in m ==> Exact(records, d, m[d])
      {
        if columns[c].indexed {
          var disk :- RebuildIndex(c);
          ghost var was := m;
          m := m[c := Contents(disk.Items())];
          Attach(c, disk, was);
        } else {
          NothingToAttach(c, m);
        }
      }
      MakesValid(m);
      return Ok(());
    }

    // ---- ranges ----

    lemma IndexIsSound(c: nat)
      requires Valid()
      ensures c in indexes <==> c < |columns| && columns[c].indexed
      ensures c in indexes ==> indexes[c].kind == columns[c].kind && indexes[c].Valid() && c in Held()
    {
      hide DiskBspIndex.Valid, DiskBspIndex.Items, Contents, Exact, RowsListed;
    }

    /** The entries of an exact index and the rows. */
    lemma EntryOfRow(c: nat, id: RecordId) returns (k: nat)
      requires Valid() && c in indexes && id in records
      ensures c < |columns| == |records[id]| && records[id][c].IsKey(columns[c].kind)
      ensures k < |indexes[c].Items()| && indexes[c].Items()[k] == Entry(records[id][c], id)
    {
      hide Contents, Conforms, DiskBspIndex.Valid, DiskBspIndex.Items;
      assert Exact(records, c, Held()[c]);
      ConformingLength(records[id]);
      IndexedValue(records[id], c);
      k := ContentsHasOnly(indexes[c].Items(), records[id][c]);
    }

    lemma RowOfEntry(c: nat, k: nat)
      requires Valid() && c in indexes && k < |indexes[c].Items()|
      ensures var e := indexes[c].Items()[k]; e.rid in records && c < |records[e.rid]| && records[e.rid][c] == e.key
    {
      hide Contents, Conforms, DiskBspIndex.Valid, DiskBspIndex.Items, RowsListed;
      assert Exact(records, c, Held()[c]);
      Lookup.EntryAt(indexes[c], k);
    }

    /** A stretch of an exact index lists rows in the order of the column. */
    lemma StretchAscends(c: nat, i: nat, j: nat)
      requires Valid() && c in indexes && i <= j <= |indexes[c].Items()|
      ensures Ascending(records, c, Lookup.Rids(indexes[c].Items()[i..j]))
    {
      hide Valid, DiskBspIndex.Items, Lookup.Rids, Less;
      var es := indexes[c].Items();
      var ids := Lookup.Rids(es[i..j]);
      forall a | 0 <= a < |ids|
        ensures ids[a] in records && c < |records[ids[a]]| && records[ids[a]][c] == es[i + a].key
      {
        RowOfEntry(c, i + a);
      }
      EntriesAscend(c);
    }

    lemma EntriesAscend(c: nat)
      requires Valid() && c in indexes
      ensures var es := indexes[c].Items(); forall a, b :: 0 <= a < b < |es| ==> Less(es[a].key, es[b].key)
    {
      hide Contents, Conforms, DiskBspIndex.Valid, DiskBspIndex.Items, RowsListed, Less;
      Lookup.ItemsOrdered(indexes[c]);
    }

    /** A scan within typed bounds finds the rows within them. */
    lemma WithinFindsRows(c: nat, lo: Option<Value>, loInc: bool, hi: Option<Value>, hiInc: bool, id: RecordId)
      requires Valid() && c in indexes && c < |columns|
      requires Lookup.Typed(lo, columns[c].kind) && Lookup.Typed(hi, columns[c].kind)
      ensures id in Lookup.Within(indexes[c].Items(), lo, loInc, hi, hiInc) <==>
                id in records && c < |records[id]| && InBounds(records[id][c], lo, loInc, hi, hiInc)
    {
      hide Valid, DiskBspIndex.Items, Lookup.Within, InBounds, Lookup.AboveLow, Lookup.BelowHigh, Lookup.Typed;
      var es := indexes[c].Items();
      Lookup.WithinMembers(es, lo, loInc, hi, hiInc, id);
      if id in records {
        var k := EntryOfRow(c, id);
        InBoundsIsWithin(records[id][c], lo, loInc, hi, hiInc, columns[c].kind);
      }
      forall k | 0 <= k < |es| && es[k].rid == id
        ensures id in records && c < |records[id]| && records[id][c] == es[k].key
      {
        RowOfEntry(c, k);
      }
    }

    /** `index_collect_range`: the ids of the rows whose value lies within the
        bounds, in ascending order of the value. */
    method IndexCollectRange(c: nat, lo: Option<Value>, loInc: bool, hi: Option<Value>, hiInc: bool)
      returns (ids: seq<RecordId>, ghost i: nat, ghost j: nat)
      requires Valid()
      ensures c !in indexes ==> ids == []
      ensures c in indexes ==>
                && i <= j <= |indexes[c].Items()| && ids == Lookup.Rids(indexes[c].Items()[i..j])
                && c < |columns| && Ascending(records, c, ids)
                && (Lookup.Typed(lo, columns[c].kind) && Lookup.Typed(hi, columns[c].kind) ==>
                      forall id :: id in ids <==>
                        id in records && c < |records[id]| && InBounds(records[id][c], lo, loInc, hi, hiInc))
                && (hi.Some? && !Lookup.Typed(hi, columns[c].kind) ==> ids == [])
    {
      hide Valid, Ascending, InBounds, Lookup.Within, Lookup.Rids, Lookup.Typed, DiskBspIndex.Valid, DiskBspIndex.Items;
      i, j := 0, 0;
      if c !in indexes {
        return [], 0, 0;
      }
      IndexIsSound(c);
      ids, i, j := Lookup.CollectRange(indexes[c], lo, loInc, hi, hiInc);
      StretchAscends(c, i, j);
      if Lookup.Typed(lo, columns[c].kind) && Lookup.Typed(hi, columns[c].kind) {
        forall id
          ensures id in ids <==> id in records && c < |records[id]| && InBounds(records[id][c], lo, loInc, hi, hiInc)
        {
          WithinFindsRows(c, lo, loInc, hi, hiInc, id);
        }
      }
    }
  }
}
