/** Whole runs of a table: any sequence of changes keeps rows, order and indexes in
    agreement and acts as on plain maps and lists. */
module TableRuns {
  import opened Outcomes
  import opened Values
  import opened Nodes
  import opened Ordered
  import opened Tables
  import opened Capacity
  import opened Index
  import opened Updates

  datatype Change =
    | Add(record: Record)
    | Set(id: RecordId, assignments: seq<Assignment>)
    | Remove(id: RecordId)

  datatype Rows = Rows(records: Records, order: seq<RecordId>, nextId: RecordId)

  /** What one call does; a rejected change and a change of a missing row do
      nothing. */
  ghost function Changed(cols: seq<Column>, s: Rows, change: Change): Rows {
    match change
    case Add(r) =>
      if Acceptable(cols, s.records, r, None)
      then Rows(s.records[s.nextId := r], s.order + [s.nextId], s.nextId + 1)
      else s
    case Set(id, assignments) =>
      if id in s.records && Acceptable(cols, s.records, Assigned(s.records[id], assignments), Some(id))
      then s.(records := s.records[id := Assigned(s.records[id], assignments)])
      else s
    case Remove(id) =>
      if id in s.records then s.(records := s.records - {id}, order := Dropped(s.order, id)) else s
  }

  ghost function After(cols: seq<Column>, s: Rows, changes: seq<Change>): Rows {
    if changes == [] then s else Changed(cols, After(cols, s, changes[..|changes| - 1]), changes[|changes| - 1])
  }

  ghost function RowsOf(t: Table): Rows
    reads t
  {
    Rows(t.records, t.order, t.nextId)
  }

  method Apply(t: Table, change: Change) returns (r: Result<()>)
    requires t.Valid() && (change.Set? ==> forall a :: a in change.assignments ==> a.column < |t.columns|)
    modifies t`records, t`order, t`nextId, t.indexes.Values
    ensures r.Ok? ==> t.Valid() && RowsOf(t) == Changed(t.columns, old(RowsOf(t)), change)
    ensures r.Throw? ==> r.fault == BadKey || r.fault.OfStorage()
    ensures old(t.CalmIndexes() && |t.records| <= MAX_INTS) ==> r.Ok? && t.CalmIndexes()
  {
    hide Table.Valid, Table.Held, Acceptable, Table.CalmIndexes;
    match change {
      case Add(rec) =>
        var done := t.Insert(rec);
        if !done.Ok? && done != Throw(Constraint) {
          return done.PropagateFailure();
        }
      case Set(id, assignments) =>
        var done := t.Update(id, assignments);
        if !done.Ok? && done != Throw(Constraint) && done != Throw(MissingRow) {
          return done.PropagateFailure();
        }
      case Remove(id) =>
        var done := t.Erase(id);
        if !done.Ok? {
          return done.PropagateFailure();
        }
        if id !in old(t.records) {
          assert old(t.records) - {id} == old(t.records);
        }
    }
    return Ok(());
  }

  /** There are never more than 18175 rows. */
  ghost predicate NeverFull(cols: seq<Column>, s: Rows, changes: seq<Change>) {
    forall n :: 0 <= n <= |changes| ==> |After(cols, s, changes[..n]).records| <= MAX_INTS
  }

  /** After any run in which no index fails, `order` lists the records once each,
      ids stay below the next one, each index is exactly the map from the column's
      value to the record id, and the rows are what the run describes. */
  method Replay(t: Table, changes: seq<Change>) returns (r: Result<()>)
    requires t.Valid()
    requires forall ch :: ch in changes && ch.Set? ==> forall a :: a in ch.assignments ==> a.column < |t.columns|
    modifies t`records, t`order, t`nextId, t.indexes.Values
    ensures r.Ok? ==> t.Valid() && RowsOf(t) == After(t.columns, old(RowsOf(t)), changes)
    ensures old(t.CalmIndexes() && NeverFull(t.columns, RowsOf(t), changes)) ==> r.Ok? && t.CalmIndexes()
  {
    hide Table.Valid, Table.CalmIndexes, Changed;
    ghost var calm := t.CalmIndexes() && NeverFull(t.columns, RowsOf(t), changes);
    for n := 0 to |changes|
      invariant t.Valid() && RowsOf(t) == After(t.columns, old(RowsOf(t)), changes[..n])
      invariant calm ==> t.CalmIndexes()
    {
      assert changes[..n + 1][..n] == changes[..n];
      var _ :- Apply(t, changes[n]);
    }
    assert changes[..|changes|] == changes;
    return Ok(());
  }

  /** A new table, its indexes created, put through any run. */
  method Life(columns: seq<Column>, changes: seq<Change>) returns (r: Result<Table>)
    requires forall ch :: ch in changes && ch.Set? ==> forall a :: a in ch.assignments ==> a.column < |columns|
    ensures r.Ok? ==>
              && r.value.Valid() && r.value.columns == columns
              && RowsOf(r.value) == After(columns, Rows(map[], [], 1), changes)
    ensures OnlyIntIndexes(columns) && NeverFull(columns, Rows(map[], [], 1), changes) ==> r.Ok?
  {
    hide Table.Valid, Table.CalmIndexes, After, Changed;
    var t := new Table(columns);
    t.OpenIndexes(map[], map[]);
    var _ :- Replay(t, changes);
    return Ok(t);
  }

  /** Whatever run led here, rebuilding the indexes in bulk gives the same maps. It
      cannot be refused, and with integer indexes of at most 54784 rows no node is cut. */
  method RebuildAgrees(t: Table) returns (r: Result<()>)
    requires t.Valid()
    modifies t`indexes
    ensures r.Ok? ==> t.Valid() && t.Held() == old(t.Held())
    ensures !r.Throw? && (OnlyIntIndexes(t.columns) && |t.records| <= MOST_INTS ==> r.Ok?)
  {
    hide Table.Valid, Table.Held, Exact, Table.RowsOk, Table.Indexable;
    ghost var before := t.Held();
    HeldExact(t);
    OrderSize(t);
    forall c | 0 <= c < |t.columns| && t.columns[c].indexed
      ensures t.Indexable(c)
    {
      HeldIsIndexable(t, c);
    }
    var _ :- t.RebuildIndexes();
    HeldExact(t);
    HeldUnique(t, before);
    return Ok(());
  }

  lemma HeldExact(t: Table)
    requires t.Valid()
    ensures t.RowsOk() && forall c: nat :: c in t.Held() <==> c < |t.columns| && t.columns[c].indexed
    ensures forall c :: c in t.Held() ==> Exact(t.records, c, t.Held()[c])
  {
    hide Exact, Contents, Table.RowsListed;
  }

  lemma OrderSize(t: Table)
    requires t.Valid()
    ensures |t.order| == |t.records|
  {
    DistinctCount(t.order);
    assert Members(t.order) == t.records.Keys;
    assert |t.records.Keys| == |t.records|;
  }

  /** What an index holds can be indexed. */
  lemma HeldIsIndexable(t: Table, c: nat)
    requires t.Valid() && c < |t.columns| && t.columns[c].indexed
    ensures t.Indexable(c)
  {
    hide Contents, DiskBspIndex.Valid, DiskBspIndex.Items;
    assert c in t.indexes && Exact(t.records, c, t.Held()[c]);
    forall id | t.HasColumn(id, c)
      ensures EncodedSize(t.records[id][c]) <= MAX_KEY_BYTES
    {
      PresentIsSmall(t.indexes[c], t.records[id][c]);
    }
  }

  lemma PresentIsSmall(idx: DiskBspIndex, v: Value)
    requires idx.Valid() && v in Contents(idx.Items())
    ensures EncodedSize(v) <= MAX_KEY_BYTES
  {
    hide DiskBspIndex.Tree, Contents;
    if idx.count == 0 {
      idx.EmptyIndex();
      SingleContents(Entry(v, 0));
    } else if EncodedSize(v) > MAX_KEY_BYTES {
      idx.OversizedIsAbsent(v);
    }
  }

  lemma HeldUnique(t: Table, m: map<nat, map<Value, nat>>)
    requires t.Held().Keys == m.Keys
    requires forall c :: c in m ==> Exact(t.records, c, t.Held()[c]) && Exact(t.records, c, m[c])
    ensures t.Held() == m
  {
    hide Exact, Table.Held;
    forall c | c in m
      ensures t.Held()[c] == m[c]
    {
      ExactUnique(t.records, c, t.Held()[c], m[c]);
    }
  }
}
