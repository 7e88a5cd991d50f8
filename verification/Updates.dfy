/** What UPDATE does to the rows of a table (`exec_update` of executor.cpp): the
    assignments SET makes, the rows they leave behind, and when the order in which
    the rows are taken matters. */
module Updates {
  import opened Outcomes
  import opened Values
  import opened Tables
  import opened Where

  // ---- lists of ids as sets ----

  ghost function Members(l: seq<RecordId>): (s: set<RecordId>)
    ensures forall x :: x in s <==> x in l
  {
    set id | id in l
  }

  lemma OneMember(l: seq<RecordId>, n: nat)
    requires n <= |l|
    ensures Members(l[..0]) == {} && Members(l[..|l|]) == Members(l)
    ensures n < |l| ==> Members(l[..n + 1]) == Members(l[..n]) + {l[n]}
  {
    assert l[..|l|] == l;
    if n < |l| {
      assert l[..n + 1] == l[..n] + [l[n]];
    }
  }

  lemma {:induction false} DistinctCount(l: seq<RecordId>)
    requires NoRepeats(l)
    ensures |Members(l)| == |l|
  {
    if l != [] {
      var n := |l| - 1;
      OneMember(l, n);
      assert l[..n + 1] == l;
      FirstTime(l, n);
      DistinctCount(l[..n]);
    }
  }

  lemma FirstTime(l: seq<RecordId>, n: nat)
    requires NoRepeats(l) && n < |l|
    ensures l[n] !in l[..n]
  {
  }

  // ---- the SET clauses ----

  datatype SetClause = SetClause(column: Text, value: Expr)

  /** The positions of the columns SET names. */
  function Targets(sets: seq<SetClause>, cols: seq<Column>): (r: Result<seq<nat>>)
    ensures r.Ok? ==>
              |r.value| == |sets| && forall k :: 0 <= k < |sets| ==> IndexOfName(cols, sets[k].column) == Some(r.value[k])
    ensures !r.Ok? <==> exists k :: 0 <= k < |sets| && IndexOfName(cols, sets[k].column).None?
    ensures !r.Ok? ==> r == Throw(BadExpression)
  {
    if sets == [] then Ok([])
    else
      var n := |sets| - 1;
      assert sets == sets[..n] + [sets[n]];
      var before :- Targets(sets[..n], cols);
      var c :- RequireColumn(cols, sets[n].column);
      Ok(before + [c])
  }

  method ResolveColumns(sets: seq<SetClause>, cols: seq<Column>) returns (r: Result<seq<nat>>)
    ensures r == Targets(sets, cols)
  {
    hide IndexOfName;
    var columns := [];
    for k := 0 to |sets|
      invariant Targets(sets[..k], cols) == Ok(columns)
    {
      assert sets[..k + 1][..k] == sets[..k];
      var c := RequireColumn(cols, sets[k].column);
      if !c.Ok? {
        assert IndexOfName(cols, sets[k].column).None?;
        return Throw(BadExpression);
      }
      columns := columns + [c.value];
    }
    assert sets[..|sets|] == sets;
    return Ok(columns);
  }

  /** The assignments SET makes to one row, every right-hand side taken from the row
      as it was. */
  function Evaluated(sets: seq<SetClause>, columns: seq<nat>, cols: seq<Column>,
                     row: Record): (r: Result<seq<Assignment>>)
    requires |columns| == |sets| && |row| == |cols|
    ensures r.Ok? ==>
              && |r.value| == |sets|
              && forall k :: 0 <= k < |sets| ==>
                   r.value[k].column == columns[k] && EvalAtom(sets[k].value, cols, row) == Ok(r.value[k].value)
    ensures !r.Ok? <==> exists k :: 0 <= k < |sets| && !EvalAtom(sets[k].value, cols, row).Ok?
  {
    if sets == [] then Ok([])
    else
      var n := |sets| - 1;
      var before :- Evaluated(sets[..n], columns[..n], cols, row);
      var v :- EvalAtom(sets[n].value, cols, row);
      Ok(before + [Assignment(columns[n], v)])
  }

  /** The loop over the SET clauses. */
  method EvaluateSets(sets: seq<SetClause>, columns: seq<nat>, cols: seq<Column>, row: Record)
    returns (r: Result<seq<Assignment>>)
    requires |columns| == |sets| && |row| == |cols|
    ensures r.Ok? <==> Evaluated(sets, columns, cols, row).Ok?
    ensures r.Ok? ==> r == Evaluated(sets, columns, cols, row)
  {
    var assigns := [];
    for k := 0 to |sets|
      invariant Evaluated(sets[..k], columns[..k], cols, row) == Ok(assigns)
    {
      assert sets[..k + 1][..k] == sets[..k] && columns[..k + 1][..k] == columns[..k];
      var v := EvalAtom(sets[k].value, cols, row);
      if !v.Ok? {
        EvaluatedPrefixFails(sets, columns, cols, row, k + 1);
        return v.PropagateFailure();
      }
      assigns := assigns + [Assignment(columns[k], v.value)];
    }
    assert sets[..|sets|] == sets && columns[..|columns|] == columns;
    return Ok(assigns);
  }

  lemma {:induction false} EvaluatedPrefixFails(sets: seq<SetClause>, columns: seq<nat>, cols: seq<Column>,
                                                row: Record, k: nat)
    requires |columns| == |sets| && |row| == |cols| && k <= |sets|
    requires !Evaluated(sets[..k], columns[..k], cols, row).Ok?
    ensures !Evaluated(sets, columns, cols, row).Ok?
    decreases |sets| - k
  {
    if k == |sets| {
      assert sets[..k] == sets && columns[..k] == columns;
    } else {
      assert sets[..k + 1][..k] == sets[..k] && columns[..k + 1][..k] == columns[..k];
      EvaluatedPrefixFails(sets, columns, cols, row, k + 1);
    }
  }

  /** One row after the update. */
  ghost function NewRow(sets: seq<SetClause>, columns: seq<nat>, cols: seq<Column>, row: Record): Record {
    if |columns| == |sets| && |row| == |cols| && Evaluated(sets, columns, cols, row).Ok?
    then Assigned(row, Evaluated(sets, columns, cols, row).value)
    else row
  }

  /** In every column the new row has what the last SET clause for it stands for in the
      old row, or the old value when there is no such clause. */
  ghost predicate TakesSets(sets: seq<SetClause>, columns: seq<nat>, cols: seq<Column>, row: Record, updated: Record) {
    && |columns| == |sets| && |updated| == |row| == |cols|
    && (forall c: nat, k: nat :: c < |row| && LastFor(columns, c, k) ==>
          SqlOperand(sets[k].value, cols, row) == Ok(updated[c]))
    && (forall c: nat :: c < |row| && c !in columns ==> updated[c] == row[c])
  }

  ghost predicate LastFor(columns: seq<nat>, c: nat, k: nat) {
    k < |columns| && columns[k] == c && forall j :: k < j < |columns| ==> columns[j] != c
  }

  lemma NewRowTakesSets(sets: seq<SetClause>, columns: seq<nat>, cols: seq<Column>, row: Record)
    requires |columns| == |sets| && |row| == |cols| && Evaluated(sets, columns, cols, row).Ok?
    ensures TakesSets(sets, columns, cols, row, NewRow(sets, columns, cols, row))
  {
    hide EvalAtom, SqlOperand, Assigned;
    var a := Evaluated(sets, columns, cols, row).value;
    AssignedTakesThem(row, a);
    forall c: nat, k: nat | c < |row| && LastFor(columns, c, k)
      ensures SqlOperand(sets[k].value, cols, row) == Ok(Assigned(row, a)[c])
    {
      assert LastTo(a, c, k);
      EvalAtomReads(sets[k].value, cols, row);
    }
    forall c: nat | c < |row| && c !in columns
      ensures Assigned(row, a)[c] == row[c]
    {
      assert forall k :: 0 <= k < |a| ==> a[k].column in columns;
    }
  }

  ghost function UpdatedRows(records: Records, ids: set<RecordId>, sets: seq<SetClause>, columns: seq<nat>,
                             cols: seq<Column>): Records {
    map id | id in records :: if id in ids then NewRow(sets, columns, cols, records[id]) else records[id]
  }

  lemma UpdateOne(records: Records, ids: set<RecordId>, sets: seq<SetClause>, columns: seq<nat>, cols: seq<Column>,
                  id: RecordId)
    requires id in records
    ensures UpdatedRows(records, {}, sets, columns, cols) == records
    ensures id !in ids ==>
              && id in UpdatedRows(records, ids, sets, columns, cols)
              && UpdatedRows(records, ids, sets, columns, cols)[id] == records[id]
              && UpdatedRows(records, ids, sets, columns, cols)[id := NewRow(sets, columns, cols, records[id])]
                 == UpdatedRows(records, ids + {id}, sets, columns, cols)
  {
  }

  lemma NothingUpdated(records: Records, sets: seq<SetClause>, columns: seq<nat>, cols: seq<Column>)
    ensures UpdatedRows(records, {}, sets, columns, cols) == records
  {
  }

  // ---- one row after the other ----

  /** Updating the rows in the order of the list, until one is refused. */
  ghost function Stepped(cols: seq<Column>, records: Records, order: seq<RecordId>, sets: seq<SetClause>,
                         columns: seq<nat>)
    : Option<Records>
  {
    if order == [] then Some(records)
    else
      var n := |order| - 1;
      var id := order[n];
      match Stepped(cols, records, order[..n], sets, columns)
      case None => None
      case Some(now) => if Steps(cols, now, id, sets, columns) then Some(now[id := NewRow(sets, columns, cols, now[id])]) else None
  }

  /** The row can be updated, as things stand. */
  ghost predicate Steps(cols: seq<Column>, now: Records, id: RecordId, sets: seq<SetClause>, columns: seq<nat>) {
    && id in now && |columns| == |sets| && |now[id]| == |cols| && Evaluated(sets, columns, cols, now[id]).Ok?
    && Acceptable(cols, now, NewRow(sets, columns, cols, now[id]), Some(id))
  }

  ghost predicate RowsFit(cols: seq<Column>, records: Records) {
    forall id :: id in records ==> |records[id]| == |cols|
  }

  /** Every updated row is a proper row, and in indexed columns its new values differ
      from all values the other rows have, before or after. */
  ghost predicate NoClash(cols: seq<Column>, records: Records, ids: set<RecordId>, sets: seq<SetClause>,
                          columns: seq<nat>)
    requires RowsFit(cols, records)
  {
    forall id :: id in ids ==> ClashFree(cols, records, ids, sets, columns, id)
  }

  ghost predicate ClashFree(cols: seq<Column>, records: Records, ids: set<RecordId>, sets: seq<SetClause>,
                            columns: seq<nat>,
                            id: RecordId)
    requires RowsFit(cols, records)
  {
    && id in records && |columns| == |sets| && Evaluated(sets, columns, cols, records[id]).Ok?
    && Conforms(cols, NewRow(sets, columns, cols, records[id]))
    && forall other :: other in records && other != id ==> Apart(cols, records, ids, sets, columns, id, other)
  }

  ghost predicate Apart(cols: seq<Column>, records: Records, ids: set<RecordId>, sets: seq<SetClause>, columns: seq<nat>,
                        id: RecordId, other: RecordId)
    requires RowsFit(cols, records) && id in records && other in records
  {
    forall c :: 0 <= c < |cols| && cols[c].indexed ==>
      var v := NewRow(sets, columns, cols, records[id])[c];
      v != records[other][c] && (other in ids ==> v != NewRow(sets, columns, cols, records[other])[c])
  }

  lemma NewRowFits(sets: seq<SetClause>, columns: seq<nat>, cols: seq<Column>, row: Record)
    ensures |NewRow(sets, columns, cols, row)| == |row|
  {
  }

  /** Without clashes every order succeeds. */
  lemma {:induction false} ClashFreeSteps(cols: seq<Column>, records: Records, ids: set<RecordId>, order: seq<RecordId>,
                                          sets: seq<SetClause>, columns: seq<nat>)
    requires RowsFit(cols, records) && NoClash(cols, records, ids, sets, columns)
    requires NoRepeats(order) && forall id :: id in order ==> id in ids
    ensures Stepped(cols, records, order, sets, columns) == Some(UpdatedRows(records, Members(order), sets, columns, cols))
  {
    hide Evaluated, NewRow, Acceptable, UpdatedRows, ClashFree, Steps;
    OneMember(order, 0);
    if order == [] {
      assert order[..0] == order;
      NothingUpdated(records, sets, columns, cols);
    } else {
      var n := |order| - 1;
      var id := order[n];
      assert order[..n + 1] == order;
      ClashFreeSteps(cols, records, ids, order[..n], sets, columns);
      OneMember(order, n);
      FirstTime(order, n);
      ClashFreeStep(cols, records, ids, Members(order[..n]), id, sets, columns);
    }
  }

  lemma ClashFreeStep(cols: seq<Column>, records: Records, ids: set<RecordId>, done: set<RecordId>, id: RecordId,
                      sets: seq<SetClause>, columns: seq<nat>)
    requires RowsFit(cols, records) && done <= ids && id !in done && ClashFree(cols, records, ids, sets, columns, id)
    ensures var now := UpdatedRows(records, done, sets, columns, cols);
            && Steps(cols, now, id, sets, columns)
            && now[id := NewRow(sets, columns, cols, now[id])] == UpdatedRows(records, done + {id}, sets, columns, cols)
  {
    hide Evaluated, NewRow, Conforms;
    var now := UpdatedRows(records, done, sets, columns, cols);
    UpdateOne(records, done, sets, columns, cols, id);
    var r := NewRow(sets, columns, cols, records[id]);
    NewRowFits(sets, columns, cols, records[id]);
    forall c, other | 0 <= c < |cols| && cols[c].indexed && other in now && |now[other]| == |cols| && other != id
      ensures now[other][c] != r[c]
    {
      assert Apart(cols, records, ids, sets, columns, id, other);
    }
  }

  /** A list of ids that goes wrong goes wrong however it goes on. */
  lemma {:induction false} StaysRefused(cols: seq<Column>, records: Records, a: seq<RecordId>, b: seq<RecordId>,
                                        sets: seq<SetClause>, columns: seq<nat>)
    requires Stepped(cols, records, a, sets, columns).None?
    ensures Stepped(cols, records, a + b, sets, columns).None?
    decreases |b|
  {
    hide Steps, NewRow;
    if b == [] {
      assert a + b == a;
    } else {
      var n := |b| - 1;
      assert (a + b)[..|a| + n] == a + b[..n];
      StaysRefused(cols, records, a, b[..n], sets, columns);
    }
  }

  lemma OneMoreId(l: seq<RecordId>, x: RecordId)
    requires NoRepeats(l) && x !in l
    ensures NoRepeats(l + [x]) && Members(l + [x]) == Members(l) + {x}
  {
  }

  /** Some order of a set of ids, beginning with those of `start`. */
  lemma {:induction false} OrderFrom(start: seq<RecordId>, ids: set<RecordId>) returns (order: seq<RecordId>)
    requires NoRepeats(start) && Members(start) <= ids
    ensures NoRepeats(order) && Members(order) == ids && start <= order
    decreases ids - Members(start)
  {
    hide NoRepeats, Members;
    order := start;
    if Members(start) != ids {
      var id :| id in ids && id !in Members(start);
      OneMoreId(start, id);
      order := OrderFrom(start + [id], ids);
    }
  }

  lemma NoSteps(cols: seq<Column>, records: Records, order: seq<RecordId>, sets: seq<SetClause>, columns: seq<nat>)
    ensures Stepped(cols, records, order[..0], sets, columns) == Some(records)
  {
  }

  /** One row more, and the rest of the list if it is refused. */
  lemma NextStep(cols: seq<Column>, records: Records, order: seq<RecordId>, n: nat, now: Records, sets: seq<SetClause>,
                 columns: seq<nat>)
    requires n < |order| && Stepped(cols, records, order[..n], sets, columns) == Some(now)
    ensures Steps(cols, now, order[n], sets, columns) ==>
              && order[n] in now
              && Stepped(cols, records, order[..n + 1], sets, columns)
                 == Some(now[order[n] := NewRow(sets, columns, cols, now[order[n]])])
    ensures !Steps(cols, now, order[n], sets, columns) ==> Stepped(cols, records, order, sets, columns).None?
  {
    hide Acceptable, Evaluated, NewRow;
    assert order[..n + 1][..n] == order[..n];
    if !Steps(cols, now, order[n], sets, columns) {
      StaysRefused(cols, records, order[..n + 1], order[n + 1..], sets, columns);
      assert order == order[..n + 1] + order[n + 1..];
    }
  }

  /** Where all rows have been updated, the right-hand sides of each could be evaluated
      on the row as it was. */
  lemma {:induction false} StepEvaluates(records: Records, ids: seq<RecordId>, sets: seq<SetClause>, columns: seq<nat>,
                                         cols: seq<Column>, id: RecordId)
    requires NoRepeats(ids) && id in ids && Stepped(cols, records, ids, sets, columns).Some?
    ensures id in records && |columns| == |sets| && |records[id]| == |cols|
            && Evaluated(sets, columns, cols, records[id]).Ok?
  {
    hide Evaluated, NewRow, Acceptable;
    var n := |ids| - 1;
    assert ids == ids[..n] + [ids[n]];
    if id == ids[n] {
      StepsLeaveOthers(records, ids[..n], sets, columns, cols, id);
    } else {
      StepEvaluates(records, ids[..n], sets, columns, cols, id);
    }
  }

  lemma {:induction false} StepsLeaveOthers(records: Records, ids: seq<RecordId>, sets: seq<SetClause>, columns: seq<nat>,
                                            cols: seq<Column>, id: RecordId)
    requires id !in ids && Stepped(cols, records, ids, sets, columns).Some?
    ensures var now := Stepped(cols, records, ids, sets, columns).value;
            id in now <==> id in records
    ensures var now := Stepped(cols, records, ids, sets, columns).value;
            id in records ==> now[id] == records[id]
  {
    hide Steps, NewRow;
    if ids != [] {
      StepsLeaveOthers(records, ids[..|ids| - 1], sets, columns, cols, id);
    }
  }

  /** A row whose update is refused right at the start. */
  lemma RefusedFirst(cols: seq<Column>, records: Records, id: RecordId, sets: seq<SetClause>, columns: seq<nat>)
    requires !Steps(cols, records, id, sets, columns)
    ensures Stepped(cols, records, [id], sets, columns).None?
  {
    hide Steps, NewRow;
    assert [id][..0] == [];
  }

  lemma TwoSteps(cols: seq<Column>, records: Records, a: RecordId, b: RecordId, sets: seq<SetClause>, columns: seq<nat>)
    ensures Stepped(cols, records, [a, b], sets, columns).Some? <==>
              && Steps(cols, records, a, sets, columns)
              && Steps(cols, records[a := NewRow(sets, columns, cols, records[a])], b, sets, columns)
  {
    hide Acceptable, Evaluated, NewRow;
    assert [a, b][..1] == [a] && [a][..0] == [];
    assert Stepped(cols, records, [], sets, columns) == Some(records);
    assert Stepped(cols, records, [a], sets, columns)
        == if Steps(cols, records, a, sets, columns) then Some(records[a := NewRow(sets, columns, cols, records[a])]) else None;
  }

  /** A row that clashes spoils some order. */
  lemma ClashRefused(cols: seq<Column>, records: Records, ids: set<RecordId>, sets: seq<SetClause>, columns: seq<nat>,
                     id: RecordId)
    requires RowsFit(cols, records) && id in ids && !ClashFree(cols, records, ids, sets, columns, id)
    ensures exists order :: NoRepeats(order) && Members(order) == ids && Stepped(cols, records, order, sets, columns).None?
  {
    hide Evaluated, NewRow, Conforms, Stepped, NoRepeats, Members;
    var start := [id];
    if Steps(cols, records, id, sets, columns) {
      var other := ClashingRow(cols, records, ids, sets, columns, id);
      start := [other, id];
      TwoSteps(cols, records, other, id, sets, columns);
    } else {
      RefusedFirst(cols, records, id, sets, columns);
    }
    ShortOrders(start);
    var order := OrderFrom(start, ids);
    StaysRefused(cols, records, start, order[|start|..], sets, columns);
    assert order == start + order[|start|..];
    assert NoRepeats(order) && Members(order) == ids && Stepped(cols, records, order, sets, columns).None?;
  }

  lemma ShortOrders(l: seq<RecordId>)
    ensures |l| <= 1 || (|l| == 2 && l[0] != l[1]) ==> NoRepeats(l)
  {
  }

  /** A row that can be updated first but clashes does so with another updated row. */
  lemma ClashingRow(cols: seq<Column>, records: Records, ids: set<RecordId>, sets: seq<SetClause>, columns: seq<nat>,
                    id: RecordId) returns (other: RecordId)
    requires RowsFit(cols, records) && !ClashFree(cols, records, ids, sets, columns, id)
    requires Steps(cols, records, id, sets, columns)
    ensures other in ids && other in records && other != id
    ensures !Steps(cols, records[other := NewRow(sets, columns, cols, records[other])], id, sets, columns)
  {
    hide Evaluated, NewRow, Conforms;
    other :| other in records && other != id && !Apart(cols, records, ids, sets, columns, id, other);
    var new', r := NewRow(sets, columns, cols, records[other]), NewRow(sets, columns, cols, records[id]);
    NewRowFits(sets, columns, cols, records[other]);
    NewRowFits(sets, columns, cols, records[id]);
    var c :| 0 <= c < |cols| && cols[c].indexed
             && (r[c] == records[other][c] || (other in ids && r[c] == new'[c]));
    var now := records[other := new'];
    assert now[id] == records[id] && now[other][c] == r[c];
  }

  /** An UPDATE of a set of rows succeeds in whatever order they are taken exactly
      when nothing clashes. */
  lemma UpdateInAnyOrder(cols: seq<Column>, records: Records, ids: set<RecordId>, sets: seq<SetClause>, columns: seq<nat>)
    requires RowsFit(cols, records)
    ensures NoClash(cols, records, ids, sets, columns) <==>
              forall order :: NoRepeats(order) && Members(order) == ids ==> Stepped(cols, records, order, sets, columns).Some?
  {
    hide Stepped, ClashFree, NoRepeats;
    if NoClash(cols, records, ids, sets, columns) {
      forall order | NoRepeats(order) && Members(order) == ids
        ensures Stepped(cols, records, order, sets, columns).Some?
      {
        ClashFreeSteps(cols, records, ids, order, sets, columns);
      }
    } else {
      var id :| id in ids && !ClashFree(cols, records, ids, sets, columns, id);
      ClashRefused(cols, records, ids, sets, columns, id);
    }
  }

  // ---- an example ----

  /** A unique column k and a column n. */
  const ChainColumns: seq<Column> :=
    [Column([107], IntType, false, true, false, Null), Column([110], IntType, false, false, false, Null)]

  const ChainRows: Records := map[1 := [Int(1), Int(2)], 2 := [Int(2), Int(3)]]

  /** SET k = n. */
  const ChainSets: seq<SetClause> := [SetClause([107], ColumnRef([110]))]

  lemma ChainRow(a: int64, b: int64)
    ensures var row := [Int(a), Int(b)];
            && Evaluated(ChainSets, [0], ChainColumns, row).Ok?
            && NewRow(ChainSets, [0], ChainColumns, row) == [Int(b), Int(b)]
  {
    var row := [Int(a), Int(b)];
    ChainNames();
    assert ChainSets[..0] == [] && [0][..0] == [];
    assert EvalAtom(ChainSets[0].value, ChainColumns, row) == Ok(Int(b));
    assert Evaluated(ChainSets, [0], ChainColumns, row) == Ok([] + [Assignment(0, Int(b))]);
    SetFirst(row, Int(b));
  }

  lemma SetFirst(row: Record, v: Value)
    requires |row| == 2
    ensures Assigned(row, [] + [Assignment(0, v)]) == [v, row[1]]
  {
    assert [] + [Assignment(0, v)] == [Assignment(0, v)];
  }

  lemma ChainNames()
    ensures IndexOfName(ChainColumns, [107]) == Some(0) && IndexOfName(ChainColumns, [110]) == Some(1)
    ensures Targets(ChainSets, ChainColumns) == Ok([0])
  {
    var k: Text, n: Text := [107], [110];
    assert k[0] != n[0];
    assert ChainColumns[1..][0] == ChainColumns[1];
    assert IndexOfName(ChainColumns[1..], n) == Some(0);
    assert ChainSets[..0] == [] && Targets([], ChainColumns) == Ok([]);
    var none: seq<nat>, zero: nat := [], 0;
    assert none + [zero] == [zero];
    assert Targets(ChainSets, ChainColumns) == Ok(none + [zero]);
  }

  /** Whether an UPDATE succeeds can depend on the order the plan lists the rows in:
      moving a unique value along a chain of rows is accepted from the far end and
      refused from the near end. */
  lemma UpdateOrderMatters()
    ensures RowsFit(ChainColumns, ChainRows) && Targets(ChainSets, ChainColumns) == Ok([0])
    ensures Stepped(ChainColumns, ChainRows, [1, 2], ChainSets, [0]).None?
    ensures Stepped(ChainColumns, ChainRows, [2, 1], ChainSets, [0]).Some?
  {
    hide Stepped, NewRow, Evaluated, Targets, IndexOfName;
    ChainNames();
    ChainRow(1, 2);
    ChainRow(2, 3);
    TwoSteps(ChainColumns, ChainRows, 1, 2, ChainSets, [0]);
    TwoSteps(ChainColumns, ChainRows, 2, 1, ChainSets, [0]);
    assert ChainRows[2][0] == [Int(2), Int(2)][0];
    assert !Unique(ChainColumns, ChainRows, [Int(2), Int(2)], Some(1));
  }
}
