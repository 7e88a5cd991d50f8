/** WHERE expressions and their three-valued evaluation (ast.h and the first part of
    executor.cpp), against the truth tables of SQL. */
module Where {
  import opened Outcomes
  import opened Values
  import opened Tables

  datatype CompareOp = Eq | NotEq | Lt | Gt | LtEq | GtEq

  datatype Expr =
    | ColumnRef(name: Text)
    | Literal(v: Value)
    | Comparing(op: CompareOp, lhs: Expr, rhs: Expr)
    | Between(value: Expr, lo: Expr, hi: Expr)
    | Like(value: Expr, pattern: Expr)
    | And(left: Expr, right: Expr)
    | Or(left: Expr, right: Expr)

  /** Matching a text against a pattern; a malformed pattern is an error. */
  type Matcher = (Text, Text) -> Result<bool>

  /** What `eval_where` returns. */
  datatype TriBool = TriBool(value: bool, unknown: bool)

  /** `index_of`: the first column of that name. */
  function IndexOfName(cols: seq<Column>, name: Text): (r: Option<nat>)
    ensures r.Some? ==> r.value < |cols| && cols[r.value].name == name
    ensures r.Some? ==> forall c :: 0 <= c < r.value ==> cols[c].name != name
    ensures r.None? ==> forall c :: 0 <= c < |cols| ==> cols[c].name != name
  {
    if cols == [] then None
    else if cols[0].name == name then Some(0)
    else
      match IndexOfName(cols[1..], name)
      case None => None
      case Some(i) => Some(i + 1)
  }

  function RequireColumn(cols: seq<Column>, name: Text): (r: Result<nat>)
    ensures r.Ok? ==> r.value < |cols|
  {
    match IndexOfName(cols, name)
    case None => Throw(BadExpression)
    case Some(i) => Ok(i)
  }

  function EvalAtom(e: Expr, cols: seq<Column>, row: Record): Result<Value>
    requires |row| == |cols|
  {
    match e
    case Literal(v) => Ok(v)
    case ColumnRef(name) =>
      var c :- RequireColumn(cols, name);
      Ok(row[c])
    case _ => Throw(BadExpression)
  }

  predicate Holds(sign: int, op: CompareOp) {
    match op
    case Eq => sign == 0
    case NotEq => sign != 0
    case Lt => sign < 0
    case Gt => sign > 0
    case LtEq => sign <= 0
    case GtEq => sign >= 0
  }

  function TriOr(a: TriBool, b: TriBool): TriBool {
    if a.value || b.value then TriBool(true, false)
    else if a.unknown || b.unknown then TriBool(false, true)
    else TriBool(false, false)
  }

  function TriAnd(a: TriBool, b: TriBool): TriBool {
    if a.unknown && !b.value then TriBool(false, !b.value)
    else if b.unknown && !a.value then TriBool(false, true)
    else if !a.value || !b.value then
      if a.value && b.unknown then TriBool(false, true)
      else if b.value && a.unknown then TriBool(false, true)
      else TriBool(false, false)
    else TriBool(true, false)
  }

  function EvalWhere(e: Expr, cols: seq<Column>, row: Record, like: Matcher): Result<TriBool>
    requires |row| == |cols|
  {
    match e
    case Comparing(op, lhs, rhs) =>
      var l :- EvalAtom(lhs, cols, row);
      var r :- EvalAtom(rhs, cols, row);
      var c := Compare(l, r);
      if !c.valid then Ok(TriBool(false, true)) else Ok(TriBool(Holds(c.sign, op), false))
    case Between(value, lo, hi) =>
      var v :- EvalAtom(value, cols, row);
      var l :- EvalAtom(lo, cols, row);
      var h :- EvalAtom(hi, cols, row);
      var c1, c2 := Compare(v, l), Compare(v, h);
      if !c1.valid || !c2.valid then Ok(TriBool(false, true)) else Ok(TriBool(c1.sign >= 0 && c2.sign <= 0, false))
    case Like(value, pattern) =>
      var v :- EvalAtom(value, cols, row);
      var p :- EvalAtom(pattern, cols, row);
      if v.Null? || p.Null? then Ok(TriBool(false, true))
      else if !v.Str? || !p.Str? then Throw(BadExpression)
      else
        var b :- like(v.s, p.s);
        Ok(TriBool(b, false))
    case And(left, right) =>
      var a :- EvalWhere(left, cols, row, like);
      var b :- EvalWhere(right, cols, row, like);
      Ok(TriAnd(a, b))
    case Or(left, right) =>
      var a :- EvalWhere(left, cols, row, like);
      var b :- EvalWhere(right, cols, row, like);
      Ok(TriOr(a, b))
    case _ => Throw(BadExpression)
  }

  // ---- SQL ----

  datatype Truth = True | False | Unknown

  /** Section 8.12 of ISO/IEC 9075:1992. */
  function SqlAnd(a: Truth, b: Truth): Truth {
    if a == False || b == False then False
    else if a == Unknown || b == Unknown then Unknown
    else True
  }

  function SqlOr(a: Truth, b: Truth): Truth {
    if a == True || b == True then True
    else if a == Unknown || b == Unknown then Unknown
    else False
  }

  function Certain(b: bool): Truth {
    if b then True else False
  }

  /** A comparison of two operands, texts as in a dictionary: unknown when either is
      NULL or they are of different types. */
  ghost function SqlCompare(op: CompareOp, a: Value, b: Value): Truth {
    match (a, b)
    case (Int(x), Int(y)) =>
      Certain(match op
              case Eq => x == y
              case NotEq => x != y
              case Lt => x < y
              case Gt => x > y
              case LtEq => x <= y
              case GtEq => x >= y)
    case (Str(x), Str(y)) =>
      Certain(match op
              case Eq => x == y
              case NotEq => x != y
              case Lt => TextBelow(x, y)
              case Gt => TextBelow(y, x)
              case LtEq => x == y || TextBelow(x, y)
              case GtEq => x == y || TextBelow(y, x))
    case _ => Unknown
  }

  /** Column c is the one the name means: the first of that name. */
  ghost predicate Names(cols: seq<Column>, name: Text, c: nat) {
    c < |cols| && cols[c].name == name && forall d :: 0 <= d < c ==> cols[d].name != name
  }

  /** What an operand stands for: a literal for itself, and a name for the value the
      row has in the column of that name, if there is one. */
  ghost function SqlOperand(e: Expr, cols: seq<Column>, row: Record): Result<Value>
    requires |row| == |cols|
  {
    match e
    case Literal(v) => Ok(v)
    case ColumnRef(name) =>
      if c: nat :| Names(cols, name, c) then Ok(row[c]) else Throw(BadExpression)
    case _ => Throw(BadExpression)
  }

  /** The truth value SQL gives a search condition. BETWEEN is the conjunction of two
      comparisons. */
  ghost function SqlTruth(e: Expr, cols: seq<Column>, row: Record, like: Matcher): Result<Truth>
    requires |row| == |cols|
  {
    match e
    case Comparing(op, lhs, rhs) =>
      var l :- SqlOperand(lhs, cols, row);
      var r :- SqlOperand(rhs, cols, row);
      Ok(SqlCompare(op, l, r))
    case Between(value, lo, hi) =>
      var v :- SqlOperand(value, cols, row);
      var l :- SqlOperand(lo, cols, row);
      var h :- SqlOperand(hi, cols, row);
      Ok(SqlAnd(SqlCompare(GtEq, v, l), SqlCompare(LtEq, v, h)))
    case Like(value, pattern) =>
      var v :- SqlOperand(value, cols, row);
      var p :- SqlOperand(pattern, cols, row);
      if v.Null? || p.Null? then Ok(Unknown)
      else if !v.Str? || !p.Str? then Throw(BadExpression)
      else
        var b :- like(v.s, p.s);
        Ok(Certain(b))
    case And(left, right) =>
      var a :- SqlTruth(left, cols, row, like);
      var b :- SqlTruth(right, cols, row, like);
      Ok(SqlAnd(a, b))
    case Or(left, right) =>
      var a :- SqlTruth(left, cols, row, like);
      var b :- SqlTruth(right, cols, row, like);
      Ok(SqlOr(a, b))
    case _ => Throw(BadExpression)
  }

  function Meaning(t: TriBool): Truth {
    if t.value then True else if t.unknown then Unknown else False
  }

  predicate Proper(t: TriBool) {
    !(t.value && t.unknown)
  }

  /** `tri_or` is SQL's OR. `tri_and` is SQL's AND except on one unknown and one
      false operand, where SQL says false and `tri_and` unknown. */
  lemma TriTables(a: TriBool, b: TriBool)
    requires Proper(a) && Proper(b)
    ensures Proper(TriOr(a, b)) && Proper(TriAnd(a, b))
    ensures Meaning(TriOr(a, b)) == SqlOr(Meaning(a), Meaning(b))
    ensures Meaning(TriAnd(a, b)) == SqlAnd(Meaning(a), Meaning(b)) <==> !UnknownAndFalse(Meaning(a), Meaning(b))
    ensures UnknownAndFalse(Meaning(a), Meaning(b)) ==> Meaning(TriAnd(a, b)) == Unknown
  {
  }

  predicate UnknownAndFalse(a: Truth, b: Truth) {
    (a == Unknown && b == False) || (a == False && b == Unknown)
  }

  /** The only way the two may differ: SQL false, reported as unknown. */
  predicate AtMostFalseAsUnknown(t: TriBool, s: Truth) {
    Proper(t) && (Meaning(t) == s || (Meaning(t) == Unknown && s == False))
  }

  lemma TriKeepsAgreement(a: TriBool, sa: Truth, b: TriBool, sb: Truth)
    requires AtMostFalseAsUnknown(a, sa) && AtMostFalseAsUnknown(b, sb)
    ensures AtMostFalseAsUnknown(TriAnd(a, b), SqlAnd(sa, sb)) && AtMostFalseAsUnknown(TriOr(a, b), SqlOr(sa, sb))
  {
  }

  lemma CompareMeaning(op: CompareOp, a: Value, b: Value)
    ensures var c := Compare(a, b);
            SqlCompare(op, a, b) == if c.valid then Certain(Holds(c.sign, op)) else Unknown
  {
    if a.Str? && b.Str? {
      TextZeroIsEqual(a.s, b.s);
      TextAntisymmetric(a.s, b.s);
      CompareTextIsLexicographic(a.s, b.s);
      CompareTextIsLexicographic(b.s, a.s);
    }
  }

  /** `eval_atom` gives a literal as it is and a column reference the value of the
      row in the first column of that name; it fails exactly when no column has it, and
      on everything that is neither. */
  lemma EvalAtomReads(e: Expr, cols: seq<Column>, row: Record)
    requires |row| == |cols|
    ensures e.Literal? ==> EvalAtom(e, cols, row) == Ok(e.v)
    ensures e.ColumnRef? ==> forall c: nat :: Names(cols, e.name, c) ==> EvalAtom(e, cols, row) == Ok(row[c])
    ensures e.ColumnRef? ==>
              (EvalAtom(e, cols, row).Ok? <==> exists c :: 0 <= c < |cols| && cols[c].name == e.name)
    ensures EvalAtom(e, cols, row).Ok? ==> e.Literal? || e.ColumnRef?
    ensures EvalAtom(e, cols, row) == SqlOperand(e, cols, row)
  {
    if e.ColumnRef? {
      var c := IndexOfName(cols, e.name);
      if c.Some? {
        assert Names(cols, e.name, c.value);
      }
    }
  }

  /** `eval_where` fails exactly when the SQL evaluation does, and otherwise gives its
      truth value, except that false may come out as unknown. */
  lemma {:induction false} EvalIsSql(e: Expr, cols: seq<Column>, row: Record, like: Matcher)
    requires |row| == |cols|
    ensures EvalWhere(e, cols, row, like).Ok? <==> SqlTruth(e, cols, row, like).Ok?
    ensures EvalWhere(e, cols, row, like).Ok? ==>
              AtMostFalseAsUnknown(EvalWhere(e, cols, row, like).value, SqlTruth(e, cols, row, like).value)
  {
    match e
    case Comparing(op, lhs, rhs) =>
      var l, r := EvalAtom(lhs, cols, row), EvalAtom(rhs, cols, row);
      EvalAtomReads(lhs, cols, row);
      EvalAtomReads(rhs, cols, row);
      if l.Ok? && r.Ok? {
        CompareMeaning(op, l.value, r.value);
      }
    case Between(value, lo, hi) =>
      var v, l, h := EvalAtom(value, cols, row), EvalAtom(lo, cols, row), EvalAtom(hi, cols, row);
      EvalAtomReads(value, cols, row);
      EvalAtomReads(lo, cols, row);
      EvalAtomReads(hi, cols, row);
      if v.Ok? && l.Ok? && h.Ok? {
        CompareMeaning(GtEq, v.value, l.value);
        CompareMeaning(LtEq, v.value, h.value);
      }
    case Like(value, pattern) =>
      EvalAtomReads(value, cols, row);
      EvalAtomReads(pattern, cols, row);
    case And(left, right) =>
      EvalIsSql(left, cols, row, like);
      EvalIsSql(right, cols, row, like);
      var a, b := EvalWhere(left, cols, row, like), EvalWhere(right, cols, row, like);
      if a.Ok? && b.Ok? {
        TriKeepsAgreement(a.value, SqlTruth(left, cols, row, like).value, b.value, SqlTruth(right, cols, row, like).value);
      }
    case Or(left, right) =>
      EvalIsSql(left, cols, row, like);
      EvalIsSql(right, cols, row, like);
      var a, b := EvalWhere(left, cols, row, like), EvalWhere(right, cols, row, like);
      if a.Ok? && b.Ok? {
        TriKeepsAgreement(a.value, SqlTruth(left, cols, row, like).value, b.value, SqlTruth(right, cols, row, like).value);
      }
    case _ =>
  }

  /** A row is selected when the condition is true, not false and not unknown. */
  predicate Selects(e: Expr, cols: seq<Column>, row: Record, like: Matcher) {
    |row| == |cols| && EvalWhere(e, cols, row, like).Ok?
    && EvalWhere(e, cols, row, like).value.value && !EvalWhere(e, cols, row, like).value.unknown
  }

  /** The rows selected are those SQL selects. */
  lemma SelectsWhatSqlSelects(e: Expr, cols: seq<Column>, row: Record, like: Matcher)
    requires |row| == |cols|
    ensures Selects(e, cols, row, like) <==> SqlTruth(e, cols, row, like) == Ok(True)
  {
    EvalIsSql(e, cols, row, like);
  }

  /** A conjunction selects exactly the rows both sides select. */
  lemma AndSelects(left: Expr, right: Expr, cols: seq<Column>, row: Record, like: Matcher)
    requires |row| == |cols|
    ensures Selects(And(left, right), cols, row, like)
            <==> Selects(left, cols, row, like) && Selects(right, cols, row, like)
  {
    EvalIsSql(left, cols, row, like);
    EvalIsSql(right, cols, row, like);
  }
}
