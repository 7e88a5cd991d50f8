/** Choosing rows through an index (`derive_index_hint` and `select_candidates` of
    executor.cpp): never a different answer from looking at every row. */
module Planner {
  import opened Outcomes
  import opened Values
  import opened Nodes
  import opened Ordered
  import opened Index
  import opened Tables
  import opened Where
  import Lookup

  datatype Hint = Hint(has: bool, column: nat, eq: bool, eqValue: Value,
                       hasLo: bool, lo: Value, loInc: bool, hasHi: bool, hi: Value, hiInc: bool)

  const NO_HINT := Hint(false, 0, false, Null, false, Null, false, false, Null, false)

  // ---- the clauses of a conjunction ----

  /** The clauses under the top-level ANDs, from left to right. */
  function Clauses(e: Expr): seq<Expr> {
    match e
    case And(left, right) => Clauses(left) + Clauses(right)
    case _ => [e]
  }

  /** `walk`, which adds the clauses to a list while it descends. */
  method Walk(e: Expr, clauses: seq<Expr>) returns (r: seq<Expr>)
    ensures r == clauses + Clauses(e)
  {
    if e.And? {
      var left := Walk(e.left, clauses);
      r := Walk(e.right, left);
    } else {
      r := clauses + [e];
    }
  }

  /** A row is selected by a condition exactly when each of the clauses selects it, and
      no clause is itself a conjunction. */
  lemma {:induction false} ClausesSelect(e: Expr, cols: seq<Column>, row: Record, like: Matcher)
    requires |row| == |cols|
    ensures Selects(e, cols, row, like) <==> forall c :: c in Clauses(e) ==> Selects(c, cols, row, like)
    ensures forall c :: c in Clauses(e) ==> !c.And?
  {
    hide Selects;
    match e
    case And(left, right) =>
      AndSelects(left, right, cols, row, like);
      ClausesSelect(left, cols, row, like);
      ClausesSelect(right, cols, row, like);
    case _ =>
  }

  ghost predicate AllSelect(clauses: seq<Expr>, cols: seq<Column>, row: Record, like: Matcher) {
    |row| == |cols| && forall c :: c in clauses ==> Selects(c, cols, row, like)
  }

  // ---- hints ----

  predicate Within(sign: int, valid: bool, op: CompareOp) {
    valid && Holds(sign, op)
  }

  /** The value meets every bound of the hint, in earnest: no comparison unknown. */
  predicate Admits(h: Hint, v: Value) {
    && (h.eq ==> Within(Compare(v, h.eqValue).sign, Compare(v, h.eqValue).valid, Eq))
    && (h.hasLo ==> Within(Compare(v, h.lo).sign, Compare(v, h.lo).valid, if h.loInc then GtEq else Gt))
    && (h.hasHi ==> Within(Compare(v, h.hi).sign, Compare(v, h.hi).valid, if h.hiInc then LtEq else Lt))
  }

  /** Rows that satisfy all the clauses meet the hint. */
  ghost predicate Sound(h: Hint, cols: seq<Column>, clauses: seq<Expr>, like: Matcher) {
    && h.column < |cols|
    && forall row :: AllSelect(clauses, cols, row, like) ==> Admits(h, row[h.column])
  }

  predicate IsColumnNamed(e: Expr, name: Text) {
    e.ColumnRef? && e.name == name
  }

  function Swapped(op: CompareOp): CompareOp {
    match op
    case Lt => Gt
    case Gt => Lt
    case LtEq => GtEq
    case GtEq => LtEq
    case _ => op
  }

  /** A comparison and its mirror image agree. */
  lemma SwappedHolds(op: CompareOp, a: Value, b: Value)
    ensures Compare(a, b).valid == Compare(b, a).valid
    ensures Compare(a, b).valid ==> Holds(Compare(a, b).sign, op) == Holds(Compare(b, a).sign, Swapped(op))
  {
    if a.Str? && b.Str? {
      TextAntisymmetric(a.s, b.s);
    }
  }

  /** What one comparison adds to a candidate hint. */
  function Narrowed(h: Hint, op: CompareOp, v: Value): (n: Hint)
    ensures n.column == h.column && n.has == h.has
  {
    match op
    case Eq => h.(eq := true, eqValue := v)
    case Lt => h.(hasHi := true, hi := v, hiInc := false)
    case LtEq => h.(hasHi := true, hi := v, hiInc := true)
    case Gt => h.(hasLo := true, lo := v, loInc := false)
    case GtEq => h.(hasLo := true, lo := v, loInc := true)
    case NotEq => h
  }

  lemma NarrowedAdmits(h: Hint, op: CompareOp, lit: Value, v: Value)
    requires Admits(h, v) && Compare(v, lit).valid && Holds(Compare(v, lit).sign, op)
    ensures Admits(Narrowed(h, op, lit), v)
  {
  }

  /** The effect of one clause on the candidate for column `col`. */
  function Refined(h: Hint, clause: Expr, col: Column): Hint {
    match clause
    case Comparing(op, lhs, rhs) =>
      if IsColumnNamed(lhs, col.name) && rhs.Literal? then
        if rhs.v.Matches(col.kind) then Narrowed(h, op, rhs.v) else h
      else if IsColumnNamed(rhs, col.name) && lhs.Literal? then
        if lhs.v.Matches(col.kind) then Narrowed(h, Swapped(op), lhs.v) else h
      else h
    case Between(value, lo, hi) =>
      if IsColumnNamed(value, col.name) && lo.Literal? && hi.Literal?
      then h.(hasLo := true, lo := lo.v, loInc := true, hasHi := true, hi := hi.v, hiInc := true)
      else h
    case _ => h
  }

  lemma RefinedColumn(h: Hint, clause: Expr, col: Column)
    ensures Refined(h, clause, col).column == h.column && Refined(h, clause, col).has == h.has
  {
    hide Narrowed, Swapped, IsColumnNamed;
  }

  /** What it means for a comparison with a literal to select a row. */
  lemma ComparingSelects(op: CompareOp, lhs: Expr, rhs: Expr, cols: seq<Column>, row: Record, like: Matcher, c: nat)
    requires |row| == |cols| && c < |cols| && Selects(Comparing(op, lhs, rhs), cols, row, like)
    ensures lhs.ColumnRef? && IndexOfName(cols, lhs.name) == Some(c) && rhs.Literal? ==>
              Compare(row[c], rhs.v).valid && Holds(Compare(row[c], rhs.v).sign, op)
    ensures rhs.ColumnRef? && IndexOfName(cols, rhs.name) == Some(c) && lhs.Literal? ==>
              Compare(row[c], lhs.v).valid && Holds(Compare(row[c], lhs.v).sign, Swapped(op))
  {
    hide CompareText, IndexOfName;
    if rhs.ColumnRef? && IndexOfName(cols, rhs.name) == Some(c) && lhs.Literal? {
      SwappedHolds(op, lhs.v, row[c]);
    }
  }

  lemma BetweenSelects(value: Expr, lo: Expr, hi: Expr, cols: seq<Column>, row: Record, like: Matcher, c: nat)
    requires |row| == |cols| && c < |cols| && Selects(Between(value, lo, hi), cols, row, like)
    requires value.ColumnRef? && IndexOfName(cols, value.name) == Some(c) && lo.Literal? && hi.Literal?
    ensures Compare(row[c], lo.v).valid && Compare(row[c], lo.v).sign >= 0
    ensures Compare(row[c], hi.v).valid && Compare(row[c], hi.v).sign <= 0
  {
    hide CompareText, IndexOfName, Compare;
  }

  /** A row selected by the clause meets the refined hint if it met the hint. */
  lemma RefinedAdmits(h: Hint, clause: Expr, cols: seq<Column>, col: Column, row: Record, like: Matcher)
    requires |row| == |cols| && IndexOfName(cols, col.name) == Some(h.column)
    requires Admits(h, row[h.column]) && Selects(clause, cols, row, like)
    ensures Admits(Refined(h, clause, col), row[h.column])
  {
    hide IndexOfName, Compare, Selects;
    var v := row[h.column];
    match clause
    case Comparing(op, lhs, rhs) =>
      ComparingSelects(op, lhs, rhs, cols, row, like, h.column);
      if IsColumnNamed(lhs, col.name) && rhs.Literal? {
        NarrowedAdmits(h, op, rhs.v, v);
      } else if IsColumnNamed(rhs, col.name) && lhs.Literal? {
        NarrowedAdmits(h, Swapped(op), lhs.v, v);
      }
    case Between(value, lo, hi) =>
      if IsColumnNamed(value, col.name) && lo.Literal? && hi.Literal? {
        BetweenSelects(value, lo, hi, cols, row, like, h.column);
      }
    case _ =>
  }

  /** Conversely, what meets the hint a bounding clause has refined is selected by
      that clause: the bounds are no wider than the clauses they come from. */
  lemma RefinedIsTight(h: Hint, clause: Expr, cols: seq<Column>, col: Column, row: Record, like: Matcher)
    requires |row| == |cols| && IndexOfName(cols, col.name) == Some(h.column)
    requires Bounds(clause, col) && Admits(Refined(h, clause, col), row[h.column])
    ensures Selects(clause, cols, row, like)
  {
    hide IndexOfName, Compare, Selects, Admits;
    var v := row[h.column];
    match clause
    case Comparing(op, lhs, rhs) =>
      if ColumnWithLiteral(lhs, rhs, col) {
        AdmitsNarrowed(h, op, rhs.v, v);
        ComparingSelected(op, lhs, rhs, cols, row, like, h.column);
      } else {
        AdmitsNarrowed(h, Swapped(op), lhs.v, v);
        SwappedHolds(Swapped(op), v, lhs.v);
        ComparingSelected(op, lhs, rhs, cols, row, like, h.column);
      }
    case Between(value, lo, hi) =>
      BetweenSelected(h, value, lo, hi, cols, col, row, like);
  }

  lemma AdmitsNarrowed(h: Hint, op: CompareOp, lit: Value, v: Value)
    requires op != NotEq && Admits(Narrowed(h, op, lit), v)
    ensures Compare(v, lit).valid && Holds(Compare(v, lit).sign, op)
  {
    hide Compare;
  }

  lemma ComparingSelected(op: CompareOp, lhs: Expr, rhs: Expr, cols: seq<Column>, row: Record, like: Matcher, c: nat)
    requires |row| == |cols| && c < |cols|
    ensures lhs.ColumnRef? && IndexOfName(cols, lhs.name) == Some(c) && rhs.Literal?
            && Compare(row[c], rhs.v).valid && Holds(Compare(row[c], rhs.v).sign, op) ==>
              Selects(Comparing(op, lhs, rhs), cols, row, like)
    ensures rhs.ColumnRef? && IndexOfName(cols, rhs.name) == Some(c) && lhs.Literal?
            && Compare(lhs.v, row[c]).valid && Holds(Compare(lhs.v, row[c]).sign, op) ==>
              Selects(Comparing(op, lhs, rhs), cols, row, like)
  {
    hide IndexOfName, Compare, Holds;
  }

  lemma BetweenSelected(h: Hint, value: Expr, lo: Expr, hi: Expr, cols: seq<Column>, col: Column, row: Record,
                        like: Matcher)
    requires |row| == |cols| && IndexOfName(cols, col.name) == Some(h.column)
    requires Bounds(Between(value, lo, hi), col) && Admits(Refined(h, Between(value, lo, hi), col), row[h.column])
    ensures Selects(Between(value, lo, hi), cols, row, like)
  {
    hide IndexOfName, Compare;
  }

  // ---- which hint ----

  /** The operands are the column and a literal it can be compared with. */
  predicate ColumnWithLiteral(a: Expr, b: Expr, col: Column) {
    IsColumnNamed(a, col.name) && b.Literal? && b.v.Matches(col.kind)
  }

  /** The clause bounds the column: a comparison with a literal other than <>, or
      BETWEEN two literals. */
  predicate Bounds(clause: Expr, col: Column) {
    match clause
    case Comparing(op, lhs, rhs) => op != NotEq && (ColumnWithLiteral(lhs, rhs, col) || ColumnWithLiteral(rhs, lhs, col))
    case Between(value, lo, hi) => IsColumnNamed(value, col.name) && lo.Literal? && hi.Literal?
    case _ => false
  }

  predicate Equates(clause: Expr, col: Column) {
    Bounds(clause, col) && clause.Comparing? && clause.op == Eq
  }

  predicate Bounded(h: Hint) {
    h.eq || h.hasLo || h.hasHi
  }

  /** The candidate hint for one column: what all clauses add, from left to right. */
  function Collected(clauses: seq<Expr>, col: Column, column: nat): Hint {
    if clauses == [] then NO_HINT.(column := column)
    else
      var n := |clauses| - 1;
      Refined(Collected(clauses[..n], col, column), clauses[n], col)
  }

  lemma RefinedBounds(h: Hint, clause: Expr, col: Column)
    ensures Bounded(Refined(h, clause, col)) <==> Bounded(h) || Bounds(clause, col)
    ensures Refined(h, clause, col).eq <==> h.eq || Equates(clause, col)
  {
    hide Narrowed, Swapped, Value.Matches;
    match clause
    case Comparing(op, lhs, rhs) =>
      NarrowedBounds(h, op, if rhs.Literal? then rhs.v else Null);
      NarrowedBounds(h, Swapped(op), if lhs.Literal? then lhs.v else Null);
      SwappedKinds(op);
    case _ =>
  }

  lemma NarrowedBounds(h: Hint, op: CompareOp, v: Value)
    ensures Bounded(Narrowed(h, op, v)) <==> Bounded(h) || op != NotEq
    ensures Narrowed(h, op, v).eq <==> h.eq || op == Eq
  {
  }

  lemma SwappedKinds(op: CompareOp)
    ensures Swapped(op) == Eq <==> op == Eq
    ensures Swapped(op) == NotEq <==> op == NotEq
  {
  }

  /** The candidate has a bound exactly when some clause bounds the column, and asks
      for one value exactly when some clause is an equality. */
  lemma {:induction false} CollectedBounds(clauses: seq<Expr>, col: Column, column: nat)
    ensures var h := Collected(clauses, col, column);
            && (Bounded(h) <==> exists k :: 0 <= k < |clauses| && Bounds(clauses[k], col))
            && (h.eq <==> exists k :: 0 <= k < |clauses| && Equates(clauses[k], col))
  {
    hide Refined, Bounds, Equates;
    if clauses != [] {
      var n := |clauses| - 1;
      CollectedBounds(clauses[..n], col, column);
      RefinedBounds(Collected(clauses[..n], col, column), clauses[n], col);
      assert forall k :: 0 <= k < n ==> clauses[..n][k] == clauses[k];
      if exists k :: 0 <= k < |clauses| && Bounds(clauses[k], col) {
        var k :| 0 <= k < |clauses| && Bounds(clauses[k], col);
        assert k < n ==> Bounds(clauses[..n][k], col);
      }
      if exists k :: 0 <= k < |clauses| && Equates(clauses[k], col) {
        var k :| 0 <= k < |clauses| && Equates(clauses[k], col);
        assert k < n ==> Equates(clauses[..n][k], col);
      }
    }
  }

  /** Some clause bounds the i-th column, whose name means column c, and that one is
      indexed. */
  ghost predicate Usable(e: Expr, cols: seq<Column>, i: nat, c: nat) {
    && i < |cols| && Names(cols, cols[i].name, c) && cols[c].indexed
    && exists k :: 0 <= k < |Clauses(e)| && Bounds(Clauses(e)[k], cols[i])
  }

  /** The hint for a condition: that of the first usable column, if there is one. */
  ghost predicate IsHintFor(h: Hint, where: Option<Expr>, cols: seq<Column>) {
    if h.has then
      && where.Some? && exists i: nat ::
           && Usable(where.value, cols, i, h.column) && (forall j: nat, d: nat :: j < i ==> !Usable(where.value, cols, j, d))
           && h == Collected(Clauses(where.value), cols[i], h.column).(has := true)
    else where.Some? ==> forall i: nat, c: nat :: !Usable(where.value, cols, i, c)
  }

  /** The loop over the clauses for one indexed column. */
  method CandidateFor(clauses: seq<Expr>, cols: seq<Column>, col: Column, column: nat,
                      ghost like: Matcher) returns (h: Hint)
    requires IndexOfName(cols, col.name) == Some(column)
    ensures Sound(h, cols, clauses, like) && h.column == column && !h.has
    ensures h == Collected(clauses, col, column)
  {
    hide Refined;
    h := NO_HINT.(column := column);
    for k := 0 to |clauses|
      invariant h.column == column && !h.has && h == Collected(clauses[..k], col, column)
      invariant Sound(h, cols, clauses[..k], like)
    {
      assert clauses[..k + 1] == clauses[..k] + [clauses[k]] && clauses[..k + 1][..k] == clauses[..k];
      RefinedIsSound(h, cols, clauses[..k], clauses[k], col, like);
      h := Refined(h, clauses[k], col);
    }
    assert clauses[..|clauses|] == clauses;
  }

  lemma RefinedIsSound(h: Hint, cols: seq<Column>, clauses: seq<Expr>, clause: Expr, col: Column, like: Matcher)
    requires Sound(h, cols, clauses, like) && IndexOfName(cols, col.name) == Some(h.column)
    ensures Sound(Refined(h, clause, col), cols, clauses + [clause], like)
    ensures Refined(h, clause, col).column == h.column && Refined(h, clause, col).has == h.has
  {
    hide Admits, Refined, Selects, IndexOfName;
    RefinedColumn(h, clause, col);
    forall row | AllSelect(clauses + [clause], cols, row, like)
      ensures Admits(Refined(h, clause, col), row[h.column])
    {
      assert clause in clauses + [clause];
      assert forall c :: c in clauses ==> c in clauses + [clause];
      assert AllSelect(clauses, cols, row, like);
      RefinedAdmits(h, clause, cols, col, row, like);
    }
  }

  /** `derive_index_hint`: the first indexed column with a usable bound. */
  method DeriveIndexHint(where: Option<Expr>, cols: seq<Column>, ghost like: Matcher) returns (h: Hint)
    ensures IsHintFor(h, where, cols)
    ensures h.has ==>
              && where.Some? && h.column < |cols| && cols[h.column].indexed && Bounded(h)
              && forall row :: Selects(where.value, cols, row, like) ==> Admits(h, row[h.column])
  {
    hide Admits, Selects, IndexOfName, Bounds, Bounded, Collected, Clauses;
    if where.None? {
      return NO_HINT;
    }
    var clauses := Walk(where.value, []);
    assert clauses == Clauses(where.value);
    for i := 0 to |cols|
      invariant forall j: nat, d: nat :: j < i ==> !Usable(where.value, cols, j, d)
    {
      var column := IndexOfName(cols, cols[i].name);
      NameIsUnique(cols, cols[i].name);
      if column.Some? && cols[column.value].indexed {
        var cand := CandidateFor(clauses, cols, cols[i], column.value, like);
        CollectedBounds(clauses, cols[i], column.value);
        if Bounded(cand) {
          WholeConditionAdmits(where.value, cols, cand, like);
          BoundedStays(cand);
          return cand.(has := true);
        }
      }
    }
    return NO_HINT;
  }

  lemma BoundedStays(h: Hint)
    ensures Bounded(h.(has := true)) == Bounded(h)
  {
  }

  lemma NameIsUnique(cols: seq<Column>, name: Text)
    ensures forall c: nat :: Names(cols, name, c) <==> IndexOfName(cols, name) == Some(c)
  {
  }

  lemma WholeConditionAdmits(where: Expr, cols: seq<Column>, h: Hint, like: Matcher)
    requires Sound(h, cols, Clauses(where), like)
    ensures forall row :: Selects(where, cols, row, like) ==> Admits(h.(has := true), row[h.column])
  {
    forall row | Selects(where, cols, row, like)
      ensures Admits(h.(has := true), row[h.column])
    {
      ClausesSelect(where, cols, row, like);
      assert AllSelect(Clauses(where), cols, row, like);
    }
  }

  // ---- candidates ----

  /** With no WHERE every row counts. */
  predicate Accepts(where: Option<Expr>, cols: seq<Column>, row: Record, like: Matcher) {
    where.Some? ==> Selects(where.value, cols, row, like)
  }

  /** Ids of rows of the table, each once, among them all rows the condition
      accepts. */
  ghost predicate Candidates(t: Table, where: Option<Expr>, like: Matcher, ids: seq<RecordId>)
    reads t
  {
    && NoRepeats(ids) && (forall id :: id in ids ==> id in t.records)
    && (forall id :: id in t.records && Accepts(where, t.columns, t.records[id], like) ==> id in ids)
  }

  /** Without a hint the rows come in the order of the table, with an equality there is
      one at most, and otherwise they ascend in the hinted column. */
  ghost predicate InHintOrder(h: Hint, records: Records, order: seq<RecordId>, ids: seq<RecordId>) {
    if !h.has then ids == order
    else if h.eq then |ids| <= 1
    else Ascending(records, h.column, ids)
  }

  function LowOf(h: Hint): Option<Value> {
    if h.hasLo then Some(h.lo) else None
  }

  function HighOf(h: Hint): Option<Value> {
    if h.hasHi then Some(h.hi) else None
  }

  /** An admitted value makes the hint's bounds typed and lies within them. */
  lemma AdmittedIsWithin(h: Hint, v: Value, t: DataType)
    requires Admits(h, v) && v.IsKey(t)
    ensures h.eq ==> h.eqValue == v
    ensures Lookup.Typed(LowOf(h), t) && Lookup.Typed(HighOf(h), t)
    ensures InBounds(v, LowOf(h), h.loInc, HighOf(h), h.hiInc)
  {
    hide CompareText;
    if h.eq {
      MixedComparisonsAreUnknown(v, h.eqValue);
      CompareIsTotalOrder(v, h.eqValue, t);
    }
    if h.hasLo {
      MixedComparisonsAreUnknown(v, h.lo);
      CompareIsTotalOrder(v, h.lo, t);
    }
    if h.hasHi {
      MixedComparisonsAreUnknown(v, h.hi);
      CompareIsTotalOrder(v, h.hi, t);
    }
  }

  lemma RowValue(t: Table, c: nat, id: RecordId)
    requires t.Valid() && c < |t.columns| && t.columns[c].indexed && id in t.records
    ensures |t.records[id]| == |t.columns| && t.records[id][c].IsKey(t.columns[c].kind)
  {
    hide Contents, Exact, Conforms, DiskBspIndex.Valid, DiskBspIndex.Items, Table.Holding, Table.Held;
    t.IndexedValue(t.records[id], c);
  }

  /** Everything the hint admits is found by equality, or lies within the bounds. */
  lemma HintedRow(t: Table, h: Hint, id: RecordId)
    requires t.Valid() && h.column in t.indexes && id in t.records
    requires h.column < |t.records[id]| && Admits(h, t.records[id][h.column])
    ensures h.column in t.Held() && h.column < |t.columns|
    ensures h.eq ==> h.eqValue.IsKey(t.columns[h.column].kind)
                     && h.eqValue in t.Held()[h.column] && t.Held()[h.column][h.eqValue] == id
    ensures Lookup.Typed(LowOf(h), t.columns[h.column].kind) && Lookup.Typed(HighOf(h), t.columns[h.column].kind)
    ensures InBounds(t.records[id][h.column], LowOf(h), h.loInc, HighOf(h), h.hiInc)
  {
    hide Table.Valid, Admits, Table.Held, InBounds;
    t.IndexIsSound(h.column);
    RowValue(t, h.column, id);
    var v := t.records[id][h.column];
    AdmittedIsWithin(h, v, t.columns[h.column].kind);
    t.IndexAgrees(h.column, v);
  }

  /** Accepted rows meet the hint. */
  ghost predicate HintCovers(t: Table, h: Hint, where: Option<Expr>, like: Matcher)
    reads t
  {
    && h.column < |t.columns|
    && forall id :: id in t.records && h.column < |t.records[id]| && Accepts(where, t.columns, t.records[id], like) ==>
         Admits(h, t.records[id][h.column])
  }

  lemma FoundIsCandidates(t: Table, h: Hint, where: Option<Expr>, like: Matcher, found: Option<RecordId>)
    requires t.Valid() && h.column in t.indexes && h.eq && HintCovers(t, h, where, like) && h.column in t.Held()
    requires found.Some? ==> exists w :: w in t.Held()[h.column] && t.Held()[h.column][w] == found.value
    requires h.eqValue.IsKey(t.columns[h.column].kind) ==>
               found == if h.eqValue in t.Held()[h.column] then Some(t.Held()[h.column][h.eqValue]) else None
    ensures Candidates(t, where, like, if found.Some? then [found.value] else [])
    ensures found.Some? && h.eqValue.IsKey(t.columns[h.column].kind) ==>
              && found.value in t.records && h.column < |t.records[found.value]|
              && t.records[found.value][h.column] == h.eqValue
  {
    hide Table.Valid, Table.Held, Accepts, Admits, NoRepeats;
    var ids := if found.Some? then [found.value] else [];
    FoundIsRow(t, h.column);
    OneOrNone(ids);
    t.IndexAgrees(h.column, h.eqValue);
    forall id | id in t.records && Accepts(where, t.columns, t.records[id], like)
      ensures id in ids
    {
      RowLength(t, id);
      HintedRow(t, h, id);
    }
  }

  /** The ids of exactly the rows within the bounds of the hint. */
  ghost predicate HasRowsWithin(t: Table, h: Hint, ids: seq<RecordId>)
    reads t
  {
    forall id :: id in ids <==>
      && id in t.records && h.column < |t.records[id]|
      && (h.hasLo ==> Less(h.lo, t.records[id][h.column]) || (h.loInc && t.records[id][h.column] == h.lo))
      && (h.hasHi ==> Less(t.records[id][h.column], h.hi) || (h.hiInc && t.records[id][h.column] == h.hi))
  }

  lemma StretchIsCandidates(t: Table, h: Hint, where: Option<Expr>, like: Matcher, ids: seq<RecordId>)
    requires t.Valid() && h.column in t.indexes && HintCovers(t, h, where, like)
    requires Ascending(t.records, h.column, ids)
    requires var kind := t.columns[h.column].kind;
             Lookup.Typed(LowOf(h), kind) && Lookup.Typed(HighOf(h), kind) ==> HasRowsWithin(t, h, ids)
    ensures Candidates(t, where, like, ids)
  {
    hide Table.Valid, Table.Held, Accepts, Admits, NoRepeats, Lookup.Typed, Less;
    AscendingDiffer(t.records, h.column, ids);
    assert forall id :: id in ids ==> exists a :: 0 <= a < |ids| && ids[a] == id;
    forall id | id in t.records && Accepts(where, t.columns, t.records[id], like)
      ensures id in ids
    {
      RowLength(t, id);
      HintedRow(t, h, id);
    }
  }

  /** `select_candidates`, and the hint it goes by. With bounds of the column's type
      the rows are exactly those within them, or the one with that value. */
  method SelectCandidates(t: Table, where: Option<Expr>, ghost like: Matcher) returns (ids: seq<RecordId>, ghost h: Hint)
    requires t.Valid()
    ensures Candidates(t, where, like, ids)
    ensures IsHintFor(h, where, t.columns) && InHintOrder(h, t.records, t.order, ids)
    ensures where.None? ==> ids == t.order
    ensures h.has ==> h.column < |t.columns|
    ensures h.has && h.eq && h.eqValue.IsKey(t.columns[h.column].kind) ==>
              forall id :: id in ids ==> h.column < |t.records[id]| && t.records[id][h.column] == h.eqValue
    ensures h.has && !h.eq ==>
              var kind := t.columns[h.column].kind;
              Lookup.Typed(LowOf(h), kind) && Lookup.Typed(HighOf(h), kind) ==> HasRowsWithin(t, h, ids)
  {
    hide Table.Valid, Table.Held, Table.Holding, Selects, Admits, NoRepeats, Ascending, InBounds, Lookup.Typed,
         IsHintFor, HasRowsWithin, Bounded;
    OrderNamesRows(t);
    var hint := DeriveIndexHint(where, t.columns, like);
    h := hint;
    HintForAll(h, where, t.columns);
    t.IndexIsSound(h.column);
    if !hint.has || hint.column !in t.indexes {
      return t.order, h;
    }
    if hint.eq {
      HeldHolds(t);
      var found := t.IndexFind(hint.column, hint.eqValue, t.Held());
      FoundIsCandidates(t, h, where, like, found);
      return if found.Some? then [found.value] else [], h;
    }
    ghost var i, j;
    ids, i, j := t.IndexCollectRange(hint.column, LowOf(hint), hint.loInc, HighOf(hint), hint.hiInc);
    if Lookup.Typed(LowOf(h), t.columns[h.column].kind) && Lookup.Typed(HighOf(h), t.columns[h.column].kind) {
      RowsWithin(t, h, ids);
    }
    StretchIsCandidates(t, h, where, like, ids);
  }

  lemma HintForAll(h: Hint, where: Option<Expr>, cols: seq<Column>)
    requires IsHintFor(h, where, cols)
    ensures where.None? ==> !h.has
  {
  }

  lemma RowsWithin(t: Table, h: Hint, ids: seq<RecordId>)
    requires forall id :: id in ids <==>
               && id in t.records && h.column < |t.records[id]|
               && InBounds(t.records[id][h.column], LowOf(h), h.loInc, HighOf(h), h.hiInc)
    ensures HasRowsWithin(t, h, ids)
  {
  }

  lemma OneOrNone(ids: seq<RecordId>)
    ensures |ids| <= 1 ==> NoRepeats(ids)
  {
  }

  lemma OrderNamesRows(t: Table)
    requires t.Valid()
    ensures NoRepeats(t.order) && forall id :: id in t.order <==> id in t.records
  {
  }

  lemma HeldHolds(t: Table)
    requires t.Valid()
    ensures t.Holding(t.Held())
  {
  }

  lemma FoundIsRow(t: Table, c: nat)
    requires t.Valid() && c in t.indexes
    ensures c in t.Held() && forall w :: w in t.Held()[c] ==> t.Held()[c][w] in t.records
  {
    hide Contents;
    assert Exact(t.records, c, t.Held()[c]);
  }

  lemma RowLength(t: Table, id: RecordId)
    requires t.Valid() && id in t.records
    ensures |t.records[id]| == |t.columns|
  {
  }
}
