/** The table file, version 3 (`Table::save` and `Table::load` of table.cpp). */
module TableFile {
  import opened Outcomes
  import opened Values
  import opened Nodes
  import opened KeyCodec
  import opened Tables
  import opened Index
  import opened Ordered

  const FILE_MAGIC := 0x42535444
  const FILE_VERSION := 3

  datatype Row = Row(id: RecordId, record: Record)

  /** What a table file holds. */
  datatype Snapshot = Snapshot(name: Text, columns: seq<Column>, nextId: RecordId, rows: seq<Row>)

  // ---- writing ----

  function TextImage(s: Text): seq<byte> {
    LittleEndian(|s|, 4) + s
  }

  function Flags(c: Column): byte {
    (if c.notNull then 1 else 0) + (if c.indexed then 2 else 0) + (if c.hasDefault then 4 else 0)
  }

  function KindImage(t: DataType): byte {
    match t
    case IntType => 1
    case StrType => 2
  }

  function ColumnImage(c: Column): seq<byte> {
    TextImage(c.name) + [KindImage(c.kind), Flags(c)] + (if c.hasDefault then Encoding(c.default) else [])
  }

  function ColumnsImage(cs: seq<Column>): seq<byte> {
    if cs == [] then [] else ColumnImage(cs[0]) + ColumnsImage(cs[1..])
  }

  function RecordImage(r: Record): seq<byte> {
    if r == [] then [] else Encoding(r[0]) + RecordImage(r[1..])
  }

  function RowImage(row: Row): seq<byte> {
    LittleEndian(row.id, 8) + RecordImage(row.record)
  }

  function RowsImage(rows: seq<Row>): seq<byte> {
    if rows == [] then [] else RowImage(rows[0]) + RowsImage(rows[1..])
  }

  function FileImage(s: Snapshot): seq<byte> {
    LittleEndian(FILE_MAGIC, 4) + (LittleEndian(FILE_VERSION, 4) + (TextImage(s.name)
    + (LittleEndian(|s.columns|, 4) + (ColumnsImage(s.columns)
    + (LittleEndian(s.nextId, 8) + (LittleEndian(|s.rows|, 8) + RowsImage(s.rows)))))))
  }

  // ---- reading ----

  /** A value read from the front of a stream, and the stream after it. */
  datatype Read<+T> = Read(value: T, rest: seq<byte>)

  function ReadNumber(data: seq<byte>, w: nat): (r: Result<Read<nat>>)
    ensures r.Ok? ==> |r.value.rest| + w == |data|
  {
    if |data| < w then Throw(BadFile) else Ok(Read(Number(data[..w]), data[w..]))
  }

  function ReadText(data: seq<byte>): (r: Result<Read<Text>>)
    ensures r.Ok? ==> |r.value.rest| + 4 <= |data|
  {
    var n :- ReadNumber(data, 4);
    if |n.rest| < n.value then Throw(BadFile) else Ok(Read(n.rest[..n.value], n.rest[n.value..]))
  }

  function ReadValue(data: seq<byte>): (r: Result<Read<Value>>)
    ensures r.Ok? ==> |r.value.rest| <= |data|
  {
    var d :- DecodeValue(data);
    Ok(Read(d.value, data[d.consumed..]))
  }

  function ReadColumn(data: seq<byte>): (r: Result<Read<Column>>) {
    var name :- ReadText(data);
    if |name.rest| < 2 then Throw(BadFile)
    else
      var t, f, rest := name.rest[0], name.rest[1], name.rest[2..];
      if t != 1 && t != 2 then Throw(BadFile)
      else
        var kind := if t == 1 then IntType else StrType;
        if f / 4 % 2 == 1 then
          var v :- ReadValue(rest);
          Ok(Read(Column(name.value, kind, f % 2 == 1, f / 2 % 2 == 1, true, v.value), v.rest))
        else Ok(Read(Column(name.value, kind, f % 2 == 1, f / 2 % 2 == 1, false, Null), rest))
  }

  function ReadColumns(data: seq<byte>, n: nat): (r: Result<Read<seq<Column>>>)
    decreases n
  {
    if n == 0 then Ok(Read([], data))
    else
      var c :- ReadColumn(data);
      var cs :- ReadColumns(c.rest, n - 1);
      Ok(Read([c.value] + cs.value, cs.rest))
  }

  function ReadRecord(data: seq<byte>, n: nat): (r: Result<Read<Record>>)
    decreases n
  {
    if n == 0 then Ok(Read([], data))
    else
      var v :- ReadValue(data);
      var vs :- ReadRecord(v.rest, n - 1);
      Ok(Read([v.value] + vs.value, vs.rest))
  }

  function ReadRows(data: seq<byte>, cols: nat, n: nat): (r: Result<Read<seq<Row>>>)
    decreases n
  {
    if n == 0 then Ok(Read([], data))
    else
      var id :- ReadNumber(data, 8);
      var rec :- ReadRecord(id.rest, cols);
      var rows :- ReadRows(rec.rest, cols, n - 1);
      Ok(Read([Row(id.value, rec.value)] + rows.value, rows.rest))
  }

  function ReadSnapshot(data: seq<byte>): Result<Read<Snapshot>> {
    var magic :- ReadNumber(data, 4);
    if magic.value != FILE_MAGIC then Throw(BadFile)
    else
      var version :- ReadNumber(magic.rest, 4);
      if version.value != FILE_VERSION then Throw(BadFile)
      else
        var name :- ReadText(version.rest);
        var n :- ReadNumber(name.rest, 4);
        var cols :- ReadColumns(n.rest, n.value);
        var next :- ReadNumber(cols.rest, 8);
        var count :- ReadNumber(next.rest, 8);
        var rows :- ReadRows(count.rest, n.value, count.value);
        Ok(Read(Snapshot(name.value, cols.value, next.value, rows.value), rows.rest))
  }

  /** `load`, up to the point where the indexes are opened. Bytes after the last row are
      not looked at. */
  function ReadFile(data: seq<byte>): Result<Snapshot> {
    var s :- ReadSnapshot(data);
    Ok(s.value)
  }

  // ---- round trip ----

  predicate ShortText(s: Text) {
    |s| < 0x1_0000_0000
  }

  predicate ShortValue(v: Value) {
    v.Str? ==> ShortText(v.s)
  }

  predicate StorableColumn(c: Column) {
    ShortText(c.name) && ShortValue(c.default) && (!c.hasDefault ==> c.default == Null)
  }

  predicate StorableRow(row: Row, cols: nat) {
    && row.id < 0x1_0000_0000_0000_0000 && |row.record| == cols
    && forall c :: 0 <= c < cols ==> ShortValue(row.record[c])
  }

  /** Counts and lengths fit the fields that store them. */
  predicate Storable(s: Snapshot) {
    && ShortText(s.name) && |s.columns| < 0x1_0000_0000
    && (forall c :: 0 <= c < |s.columns| ==> StorableColumn(s.columns[c]))
    && s.nextId < 0x1_0000_0000_0000_0000 && |s.rows| < 0x1_0000_0000_0000_0000
    && (forall i :: 0 <= i < |s.rows| ==> StorableRow(s.rows[i], |s.columns|))
  }

  lemma NumberBack(n: nat, w: nat, rest: seq<byte>)
    requires n < Power(w)
    ensures ReadNumber(LittleEndian(n, w) + rest, w) == Ok(Read(n, rest))
  {
    hide Number, LittleEndian, Power;
    NumberOfLittleEndian(n, w);
    assert (LittleEndian(n, w) + rest)[..w] == LittleEndian(n, w);
    assert (LittleEndian(n, w) + rest)[w..] == rest;
  }

  lemma TextBack(s: Text, rest: seq<byte>)
    requires ShortText(s)
    ensures ReadText(TextImage(s) + rest) == Ok(Read(s, rest))
  {
    hide Number, LittleEndian, Power, ReadNumber;
    Powers();
    NumberBack(|s|, 4, s + rest);
    assert TextImage(s) + rest == LittleEndian(|s|, 4) + (s + rest);
    assert (s + rest)[..|s|] == s && (s + rest)[|s|..] == rest;
  }

  lemma ValueBack(v: Value, rest: seq<byte>)
    requires ShortValue(v)
    ensures ReadValue(Encoding(v) + rest) == Ok(Read(v, rest))
  {
    hide Encoding, DecodeValue, EncodedSize;
    DecodeEncoding(v, rest);
    assert (Encoding(v) + rest)[EncodedSize(v)..] == rest;
  }

  lemma FlagsBack(c: Column)
    ensures (Flags(c) % 2 == 1) == c.notNull && (Flags(c) / 2 % 2 == 1) == c.indexed
    ensures (Flags(c) / 4 % 2 == 1) == c.hasDefault
  {
  }

  lemma ColumnBack(c: Column, rest: seq<byte>)
    requires StorableColumn(c)
    ensures ReadColumn(ColumnImage(c) + rest) == Ok(Read(c, rest))
  {
    hide Encoding, TextImage, ReadText, ReadValue, Flags;
    var default := (if c.hasDefault then Encoding(c.default) else []) + rest;
    var tail := [KindImage(c.kind), Flags(c)] + default;
    assert ColumnImage(c) + rest == TextImage(c.name) + tail;
    TextBack(c.name, tail);
    FlagsBack(c);
    assert tail[2..] == default;
    if c.hasDefault {
      ValueBack(c.default, rest);
    } else {
      assert default == rest;
    }
  }

  lemma {:induction false} ColumnsBack(cs: seq<Column>, rest: seq<byte>)
    requires forall c :: 0 <= c < |cs| ==> StorableColumn(cs[c])
    ensures ReadColumns(ColumnsImage(cs) + rest, |cs|) == Ok(Read(cs, rest))
  {
    hide ColumnImage, ReadColumn, StorableColumn;
    if cs == [] {
      assert [] + rest == rest;
    } else {
      var tail := ColumnsImage(cs[1..]) + rest;
      assert ColumnsImage(cs) + rest == ColumnImage(cs[0]) + tail;
      ColumnBack(cs[0], tail);
      ColumnsBack(cs[1..], rest);
      assert [cs[0]] + cs[1..] == cs;
    }
  }

  lemma {:induction false} RecordBack(r: Record, rest: seq<byte>)
    requires forall c :: 0 <= c < |r| ==> ShortValue(r[c])
    ensures ReadRecord(RecordImage(r) + rest, |r|) == Ok(Read(r, rest))
  {
    hide Encoding, ReadValue, ShortValue;
    if r == [] {
      assert [] + rest == rest;
    } else {
      var tail := RecordImage(r[1..]) + rest;
      assert RecordImage(r) + rest == Encoding(r[0]) + tail;
      ValueBack(r[0], tail);
      RecordBack(r[1..], rest);
      assert [r[0]] + r[1..] == r;
    }
  }

  lemma {:induction false} RowsBack(rows: seq<Row>, cols: nat, rest: seq<byte>)
    requires forall i :: 0 <= i < |rows| ==> StorableRow(rows[i], cols)
    ensures ReadRows(RowsImage(rows) + rest, cols, |rows|) == Ok(Read(rows, rest))
  {
    hide LittleEndian, Power, ReadNumber, RecordImage, ReadRecord;
    if rows == [] {
      assert [] + rest == rest;
    } else {
      var row := rows[0];
      var tail := RowsImage(rows[1..]) + rest;
      assert RowsImage(rows) + rest == LittleEndian(row.id, 8) + (RecordImage(row.record) + tail);
      assert StorableRow(row, cols);
      Powers();
      NumberBack(row.id, 8, RecordImage(row.record) + tail);
      RecordBack(row.record, tail);
      RowsBack(rows[1..], cols, rest);
      assert [row] + rows[1..] == rows;
    }
  }

  lemma SnapshotBack(s: Snapshot, rest: seq<byte>)
    requires Storable(s)
    ensures ReadSnapshot(FileImage(s) + rest) == Ok(Read(s, rest))
  {
    hide LittleEndian, Power, ReadNumber, TextImage, ReadText, ColumnsImage, ReadColumns, RowsImage, ReadRows,
         StorableColumn, StorableRow;
    Powers();
    var rows := RowsImage(s.rows) + rest;
    var f := LittleEndian(|s.rows|, 8) + rows;
    var e := LittleEndian(s.nextId, 8) + f;
    var d := ColumnsImage(s.columns) + e;
    var c := LittleEndian(|s.columns|, 4) + d;
    var b := TextImage(s.name) + c;
    var a := LittleEndian(FILE_VERSION, 4) + b;
    NumberBack(FILE_MAGIC, 4, a);
    NumberBack(FILE_VERSION, 4, b);
    TextBack(s.name, c);
    NumberBack(|s.columns|, 4, d);
    ColumnsBack(s.columns, e);
    NumberBack(s.nextId, 8, f);
    NumberBack(|s.rows|, 8, rows);
    RowsBack(s.rows, |s.columns|, rest);
    assert FileImage(s) + rest == LittleEndian(FILE_MAGIC, 4) + a;
  }

  /** Reading what was written restores name, schema with flags and defaults, the
      next id, the order of the rows and every cell, whatever follows. */
  lemma FileRoundTrip(s: Snapshot, rest: seq<byte>)
    requires Storable(s)
    ensures ReadFile(FileImage(s)) == Ok(s) && ReadFile(FileImage(s) + rest) == Ok(s)
  {
    hide FileImage, ReadSnapshot;
    SnapshotBack(s, rest);
    SnapshotBack(s, []);
    assert FileImage(s) + [] == FileImage(s);
  }

  /** A table file begins with 44 54 53 42 and version 3, the length of the name and the
      name. */
  lemma FirstBytes(s: Snapshot)
    ensures var f := FileImage(s);
            && |f| >= 12 + |s.name| && f[..8] == [0x44, 0x54, 0x53, 0x42, 3, 0, 0, 0]
            && HasNumber(f, 8, 4, |s.name|) && f[12..12 + |s.name|] == s.name
  {
    hide HasNumber, LittleEndian, ColumnsImage, RowsImage;
    FileMagicBytes();
    var a, b, n := LittleEndian(FILE_MAGIC, 4), LittleEndian(FILE_VERSION, 4), LittleEndian(|s.name|, 4);
    var rest := LittleEndian(|s.columns|, 4) + (ColumnsImage(s.columns)
                + (LittleEndian(s.nextId, 8) + (LittleEndian(|s.rows|, 8) + RowsImage(s.rows))));
    NumberIsThere(a + b, |s.name|, 4, s.name + rest);
    FrontFields(a, b, n, s.name, rest);
  }

  lemma FrontFields(a: seq<byte>, b: seq<byte>, n: seq<byte>, name: seq<byte>, rest: seq<byte>)
    ensures var f := a + (b + ((n + name) + rest));
            && f == (a + b) + n + (name + rest) && f[..|a| + |b|] == a + b
            && f[|a| + |b| + |n|..|a| + |b| + |n| + |name|] == name
  {
  }

  lemma FileMagicBytes()
    ensures LittleEndian(FILE_MAGIC, 4) == [0x44, 0x54, 0x53, 0x42] && LittleEndian(FILE_VERSION, 4) == [3, 0, 0, 0]
  {
    assert LittleEndian(0x42, 1) == [0x42] && LittleEndian(0, 1) == [0];
    assert LittleEndian(0x4253, 2) == [0x53, 0x42] && LittleEndian(0, 2) == [0, 0];
    assert LittleEndian(0x425354, 3) == [0x54, 0x53, 0x42] && LittleEndian(0, 3) == [0, 0, 0];
  }

  // ---- saving and loading a table ----

  ghost function RowsOfOrder(records: Records, order: seq<RecordId>): (rows: seq<Row>)
    requires forall id :: id in order ==> id in records
    ensures |rows| == |order|
    ensures forall i :: 0 <= i < |order| ==> rows[i] == Row(order[i], records[order[i]])
  {
    seq(|order|, i requires 0 <= i < |order| => Row(order[i], records[order[i]]))
  }

  ghost function SnapshotOf(t: Table, name: Text): Snapshot
    requires t.RowsOk()
    reads t
  {
    Snapshot(name, t.columns, t.nextId, RowsOfOrder(t.records, t.order))
  }

  lemma {:induction false} ColumnsImageAppend(a: seq<Column>, b: seq<Column>)
    ensures ColumnsImage(a + b) == ColumnsImage(a) + ColumnsImage(b)
  {
    hide ColumnImage;
    if a == [] {
      assert a + b == b;
    } else {
      assert (a + b)[1..] == a[1..] + b;
      ColumnsImageAppend(a[1..], b);
    }
  }

  lemma {:induction false} RecordImageAppend(a: Record, b: Record)
    ensures RecordImage(a + b) == RecordImage(a) + RecordImage(b)
  {
    hide Encoding;
    if a == [] {
      assert a + b == b;
    } else {
      assert (a + b)[1..] == a[1..] + b;
      RecordImageAppend(a[1..], b);
    }
  }

  lemma {:induction false} RowsImageAppend(a: seq<Row>, b: seq<Row>)
    ensures RowsImage(a + b) == RowsImage(a) + RowsImage(b)
  {
    hide RowImage;
    if a == [] {
      assert a + b == b;
    } else {
      assert (a + b)[1..] == a[1..] + b;
      RowsImageAppend(a[1..], b);
    }
  }

  lemma NoImages()
    ensures ColumnsImage([]) == [] && RecordImage([]) == [] && RowsImage([]) == []
  {
  }

  lemma OneColumn(c: Column)
    ensures ColumnsImage([c]) == ColumnImage(c)
  {
    hide ColumnImage;
  }

  lemma OneValue(v: Value)
    ensures RecordImage([v]) == Encoding(v)
  {
    hide Encoding;
  }

  lemma OneRow(row: Row)
    ensures RowsImage([row]) == RowImage(row)
  {
    hide RowImage;
  }

  method WriteColumns(cs: seq<Column>) returns (o: seq<byte>)
    ensures o == ColumnsImage(cs)
  {
    hide ColumnsImage, Encoding, LittleEndian;
    o := [];
    NoImages();
    for i := 0 to |cs|
      invariant o == ColumnsImage(cs[..i])
    {
      OneColumn(cs[i]);
      assert cs[..i + 1] == cs[..i] + [cs[i]];
      ColumnsImageAppend(cs[..i], [cs[i]]);
      var c := o + TextImage(cs[i].name);
      c := c + [KindImage(cs[i].kind)];
      c := c + [Flags(cs[i])];
      if cs[i].hasDefault {
        c := c + Encoding(cs[i].default);
      }
      assert c == o + ColumnImage(cs[i]);
      o := c;
    }
    assert cs[..|cs|] == cs;
  }

  method WriteRecord(r: Record) returns (o: seq<byte>)
    ensures o == RecordImage(r)
  {
    hide RecordImage, Encoding;
    NoImages();
    o := [];
    for i := 0 to |r|
      invariant o == RecordImage(r[..i])
    {
      OneValue(r[i]);
      assert r[..i + 1] == r[..i] + [r[i]];
      RecordImageAppend(r[..i], [r[i]]);
      o := o + Encoding(r[i]);
    }
    assert r[..|r|] == r;
  }

  method WriteRows(records: Records, order: seq<RecordId>) returns (o: seq<byte>)
    requires forall id :: id in order ==> id in records
    ensures o == RowsImage(RowsOfOrder(records, order))
  {
    hide RowsImage, RecordImage, LittleEndian;
    ghost var rows := RowsOfOrder(records, order);
    NoImages();
    o := [];
    for i := 0 to |order|
      invariant o == RowsImage(rows[..i])
    {
      OneRow(rows[i]);
      assert rows[..i + 1] == rows[..i] + [rows[i]];
      RowsImageAppend(rows[..i], [rows[i]]);
      assert order[i] in order;
      var cells := WriteRecord(records[order[i]]);
      o := o + (LittleEndian(order[i], 8) + cells);
    }
    assert rows[..|order|] == rows;
  }

  /** `save`, the bytes of the file. */
  method Save(t: Table, name: Text) returns (o: seq<byte>)
    requires t.RowsOk()
    ensures o == FileImage(SnapshotOf(t, name))
  {
    hide LittleEndian, TextImage, ColumnsImage, RowsImage, Conforms, NoRepeats;
    o := LittleEndian(FILE_MAGIC, 4);
    o := o + LittleEndian(FILE_VERSION, 4);
    o := o + TextImage(name);
    o := o + LittleEndian(|t.columns|, 4);
    var columns := WriteColumns(t.columns);
    o := o + columns;
    o := o + LittleEndian(t.nextId, 8);
    o := o + LittleEndian(|t.order|, 8);
    var rows := WriteRows(t.records, t.order);
    o := o + rows;
    assert o == FileImage(SnapshotOf(t, name));
  }

  /** Filling the record map: `emplace` keeps the first of two rows with one id. */
  function Collected(rows: seq<Row>): Records {
    if rows == [] then map[]
    else
      var n := |rows| - 1;
      var m := Collected(rows[..n]);
      if rows[n].id in m then m else m[rows[n].id := rows[n].record]
  }

  /** An id has a record exactly when some row has that id. */
  lemma {:induction false} CollectedIds(rows: seq<Row>)
    ensures forall id :: id in Collected(rows) <==> exists i :: 0 <= i < |rows| && rows[i].id == id
  {
    if rows != [] {
      var n := |rows| - 1;
      CollectedIds(rows[..n]);
      assert forall i :: 0 <= i < n ==> rows[..n][i] == rows[i];
      forall id | id in Collected(rows)
        ensures exists i :: 0 <= i < |rows| && rows[i].id == id
      {
        if id in Collected(rows[..n]) {
          var i :| 0 <= i < n && rows[..n][i].id == id;
          assert rows[i].id == id;
        } else {
          assert rows[n].id == id;
        }
      }
      forall i | 0 <= i < |rows|
        ensures rows[i].id in Collected(rows)
      {
        if i < n {
          assert rows[..n][i].id in Collected(rows[..n]);
        }
      }
    }
  }

  /** And it is that of the first such row. */
  lemma {:induction false} CollectedFirst(rows: seq<Row>, i: nat)
    requires i < |rows| && forall j :: 0 <= j < i ==> rows[j].id != rows[i].id
    ensures rows[i].id in Collected(rows) && Collected(rows)[rows[i].id] == rows[i].record
  {
    var n := |rows| - 1;
    if i < n {
      CollectedFirst(rows[..n], i);
    } else {
      CollectedIds(rows[..n]);
    }
  }

  /** `load`: a table without indexes, which are opened next. */
  method Load(data: seq<byte>) returns (r: Result<Table>, name: Text)
    ensures r.Ok? <==> ReadFile(data).Ok?
    ensures r.Ok? ==>
              var s := ReadFile(data).value;
              && fresh(r.value) && name == s.name && r.value.columns == s.columns && r.value.nextId == s.nextId
              && r.value.records == Collected(s.rows) && |r.value.order| == |s.rows|
              && (forall i :: 0 <= i < |s.rows| ==> r.value.order[i] == s.rows[i].id)
              && (forall i :: 0 <= i < |s.rows| && (forall j :: 0 <= j < i ==> s.rows[j].id != s.rows[i].id) ==>
                    s.rows[i].id in r.value.records && r.value.records[s.rows[i].id] == s.rows[i].record)
              && r.value.indexes == map[]
  {
    hide ReadFile;
    name := [];
    var file := ReadFile(data);
    if !file.Ok? {
      return file.PropagateFailure(), [];
    }
    var s := file.value;
    var t := new Table(s.columns);
    t.nextId := s.nextId;
    for i := 0 to |s.rows|
      invariant fresh(t) && t.nextId == s.nextId && t.indexes == map[]
      invariant t.records == Collected(s.rows[..i]) && |t.order| == i
      invariant forall k :: 0 <= k < i ==> t.order[k] == s.rows[k].id
    {
      assert s.rows[..i + 1][..i] == s.rows[..i];
      var row := s.rows[i];
      if row.id !in t.records {
        t.records := t.records[row.id := row.record];
      }
      t.order := t.order + [row.id];
    }
    assert s.rows[..|s.rows|] == s.rows;
    forall i | 0 <= i < |s.rows| && forall j :: 0 <= j < i ==> s.rows[j].id != s.rows[i].id
      ensures s.rows[i].id in t.records && t.records[s.rows[i].id] == s.rows[i].record
    {
      CollectedFirst(s.rows, i);
    }
    return Ok(t), s.name;
  }

  lemma {:induction false} CollectedBack(records: Records, order: seq<RecordId>, n: nat)
    requires NoRepeats(order) && (forall id :: id in order ==> id in records) && n <= |order|
    ensures Collected(RowsOfOrder(records, order)[..n]) == map id | id in order[..n] :: records[id]
  {
    var rows := RowsOfOrder(records, order);
    if n > 0 {
      CollectedBack(records, order, n - 1);
      assert rows[..n][..n - 1] == rows[..n - 1];
      assert order[..n] == order[..n - 1] + [order[n - 1]];
      assert order[n - 1] !in order[..n - 1];
    }
  }

  /** Loading what `save` wrote gives the same table back: columns, next id, rows
      and their order. */
  method SaveAndLoad(t: Table, name: Text) returns (u: Table)
    requires t.RowsOk() && Storable(SnapshotOf(t, name))
    ensures fresh(u) && u.columns == t.columns && u.nextId == t.nextId && u.order == t.order && u.records == t.records
    ensures u.indexes == map[]
  {
    hide Storable, FileImage, ReadFile, Conforms;
    var data := Save(t, name);
    FileRoundTrip(SnapshotOf(t, name), []);
    var r, _ := Load(data);
    ghost var rows := RowsOfOrder(t.records, t.order);
    CollectedBack(t.records, t.order, |t.order|);
    assert rows[..|t.order|] == rows && t.order[..|t.order|] == t.order;
    assert forall i :: 0 <= i < |t.order| ==> rows[i].id == t.order[i];
    assert r.value.order == t.order;
    return r.value;
  }

  /** The whole way round: `save`, then `load`, which opens the index files the table
      has left behind. The table is as it was, rows and indexes. */
  method SaveAndReopen(t: Table, name: Text) returns (u: Table)
    requires t.Valid() && Storable(SnapshotOf(t, name))
    ensures fresh(u) && u.columns == t.columns && u.nextId == t.nextId && u.order == t.order && u.records == t.records
    ensures u.Valid() && fresh(u.indexes.Values) && u.Held() == t.Held()
    ensures OnlyIntIndexes(t.columns) && t.CalmIndexes() ==> u.CalmIndexes()
  {
    hide Storable, SnapshotOf, Table.Valid, Table.RowsOk, Table.Held, Table.FilesFit, DiskBspIndex.Valid,
         DiskBspIndex.Items, DiskBspIndex.Calm, Contents;
    RowsAreOk(t);
    u := SaveAndLoad(t, name);
    var files := map c | c in t.indexes :: t.indexes[c].pages;
    SameRows(t, u);
    FilesOfTable(t, u, files);
    u.OpenIndexes(files, t.indexes);
    SameHeld(t, u);
  }

  lemma RowsAreOk(t: Table)
    requires t.Valid()
    ensures t.RowsOk()
  {
  }

  lemma SameRows(t: Table, u: Table)
    requires t.RowsOk() && u.columns == t.columns && u.nextId == t.nextId && u.order == t.order && u.records == t.records
    ensures u.RowsOk()
  {
  }

  lemma FilesOfTable(t: Table, u: Table, files: map<nat, seq<Page>>)
    requires t.Valid() && u.columns == t.columns && u.records == t.records
    requires files == map c | c in t.indexes :: t.indexes[c].pages
    ensures u.FilesFit(files, t.indexes)
  {
    hide DiskBspIndex.Valid, DiskBspIndex.Items, Contents, Exact, NoRepeats, Conforms;
    forall c | 0 <= c < |u.columns| && u.columns[c].indexed
      ensures u.FileFits(c, files, t.indexes)
    {
      assert c in t.indexes && Exact(t.records, c, t.Held()[c]);
    }
  }

  lemma SameHeld(t: Table, u: Table)
    requires t.Valid() && u.Valid() && u.columns == t.columns
    requires forall c :: c in u.Held() && c in t.indexes ==> u.Held()[c] == Contents(t.indexes[c].Items())
    ensures u.Held() == t.Held()
  {
    hide DiskBspIndex.Valid, DiskBspIndex.Items, Contents, Exact, NoRepeats, Conforms;
    forall c: nat
      ensures c in u.Held() <==> c in t.Held()
    {
      assert c in u.indexes <==> c in t.indexes;
    }
  }
}
