/** The persistent typed table (src/cache.cpp:203-337) on top of a relational database: it behaves as a map
    from keys to values. */
module Cache {
  import opened Database
  import opened Reflection

  /** A struct declared with CLOGS_STRUCT, which cannot be empty, nor can its nested structs. */
  predicate Declared(shape: Shape) {
    shape.Struct? ==> shape.fields != [] && forall i | 0 <= i < |shape.fields| :: Declared(shape.fields[i].shape)
  }

  predicate Declarable(shape: Shape) {
    shape.Struct? && Declared(shape)
  }

  lemma {:induction false} HasLeaf(shape: Shape)
    requires Declared(shape)
    ensures LeafShapes(shape) != []
    decreases shape
  {
    if shape.Struct? {
      HasLeaf(shape.fields[0].shape);
      assert LeafShapesFrom(shape, 0) == LeafShapes(shape.fields[0].shape) + LeafShapesFrom(shape, 1);
    }
  }

  function ColumnsOf(shape: Shape): (columns: seq<Column>)
    ensures |columns| == |LeafShapes(shape)|
  {
    seq(|LeafShapes(shape)|, i requires 0 <= i < |LeafShapes(shape)| =>
      Column(Names(shape, "")[i], TypeName(LeafShapes(shape)[i])))
  }

  lemma ColumnsOfNames(keyShape: Shape, valueShape: Shape)
    ensures ColumnNames(ColumnsOf(keyShape) + ColumnsOf(valueShape)) == Names(keyShape, "") + Names(valueShape, "")
  {
  }

  /** The stored row of an entry. */
  function RowFor(keyShape: Shape, valueShape: Shape, key: Value, value: Value): Row
    requires Conforms(keyShape, key) && Conforms(valueShape, value)
  {
    RowOf(Names(keyShape, "") + Names(valueShape, ""), Flatten(keyShape, key) + Flatten(valueShape, value))
  }

  ghost predicate Typed(keyShape: Shape, valueShape: Shape, entries: map<Value, Value>) {
    forall k | k in entries :: Conforms(keyShape, k) && Conforms(valueShape, entries[k])
  }

  ghost function Rows(keyShape: Shape, valueShape: Shape, entries: map<Value, Value>): set<Row>
    requires Typed(keyShape, valueShape, entries)
  {
    set k | k in entries :: RowFor(keyShape, valueShape, k, entries[k])
  }

  /** The relation has the columns and the key that createTable gives it, and its rows are the entries. */
  ghost predicate Stored(relation: Relation, keyShape: Shape, valueShape: Shape, entries: map<Value, Value>) {
    && relation.columns == ColumnsOf(keyShape) + ColumnsOf(valueShape)
    && relation.key == Names(keyShape, "")
    && Distinct(Names(keyShape, "") + Names(valueShape, ""))
    && Typed(keyShape, valueShape, entries)
    && relation.rows == Rows(keyShape, valueShape, entries)
  }

  lemma RowForCells(keyShape: Shape, valueShape: Shape, key: Value, value: Value)
    requires Conforms(keyShape, key) && Conforms(valueShape, value)
    requires Distinct(Names(keyShape, "") + Names(valueShape, ""))
    ensures var row := RowFor(keyShape, valueShape, key, value);
            && HasColumns(row, Names(keyShape, "") + Names(valueShape, ""))
            && Shows(Flatten(keyShape, key), row, Names(keyShape, ""))
            && Shows(Flatten(valueShape, value), row, Names(valueShape, ""))
  {
    RowOfParts(Names(keyShape, ""), Names(valueShape, ""), Flatten(keyShape, key), Flatten(valueShape, value));
  }

  lemma StoredIsRegular(relation: Relation, keyShape: Shape, valueShape: Shape, entries: map<Value, Value>)
    requires Stored(relation, keyShape, valueShape, entries)
    ensures Regular(relation) && relation.columns == ColumnsOf(keyShape) + ColumnsOf(valueShape)
  {
    ColumnsOfNames(keyShape, valueShape);
    forall r | r in relation.rows ensures HasColumns(r, ColumnNames(relation.columns)) {
      var k :| k in entries && r == RowFor(keyShape, valueShape, k, entries[k]);
      RowForCells(keyShape, valueShape, k, entries[k]);
    }
  }

  lemma FlattenNotNull(shape: Shape, value: Value)
    requires Conforms(shape, value)
    ensures NoNull(Flatten(shape, value))
  {
  }

  /** The database finds the row of an entry by key cells, or takes two rows for one key, exactly when the
      keys are equal. */
  lemma SameKeyExactly(keyShape: Shape, valueShape: Shape, k: Value, v: Value, k': Value, v': Value)
    requires Conforms(keyShape, k) && Conforms(valueShape, v) && Conforms(keyShape, k') && Conforms(valueShape, v')
    requires Distinct(Names(keyShape, "") + Names(valueShape, ""))
    ensures var row := RowFor(keyShape, valueShape, k, v);
            && (SameKey(row, RowFor(keyShape, valueShape, k', v'), Names(keyShape, "")) <==> k == k')
            && (Matches(row, Names(keyShape, ""), Flatten(keyShape, k')) <==> k == k')
  {
    hide Flatten, RowFor, Names, Conforms, Distinct, HasColumns;
    RowForCells(keyShape, valueShape, k, v);
    RowForCells(keyShape, valueShape, k', v');
    FlattenNotNull(keyShape, k');
    ShownMatches(Names(keyShape, ""), RowFor(keyShape, valueShape, k, v), Flatten(keyShape, k),
                 RowFor(keyShape, valueShape, k', v'), Flatten(keyShape, k'));
    if Flatten(keyShape, k) == Flatten(keyShape, k') {
      FlattenInjective(keyShape, k, k');
    }
  }

  /** Replacing on the primary key is updating the map. */
  lemma ReplaceUpdates(relation: Relation, keyShape: Shape, valueShape: Shape, entries: map<Value, Value>,
                       key: Value, value: Value)
    requires Stored(relation, keyShape, valueShape, entries)
    requires Conforms(keyShape, key) && Conforms(valueShape, value)
    ensures Stored(Replace(relation, RowFor(keyShape, valueShape, key, value)), keyShape, valueShape,
                   entries[key := value])
  {
    hide RowFor, SameKey, Distinct;
    var row := RowFor(keyShape, valueShape, key, value);
    var entries' := entries[key := value];
    assert Rows(keyShape, valueShape, entries') == Replace(relation, row).rows by {
      forall r ensures r in Rows(keyShape, valueShape, entries') <==> r in Replace(relation, row).rows {
        RowAfter(relation, keyShape, valueShape, entries, key, value, r);
      }
    }
  }

  lemma RowAfter(relation: Relation, keyShape: Shape, valueShape: Shape, entries: map<Value, Value>,
                 key: Value, value: Value, r: Row)
    requires Stored(relation, keyShape, valueShape, entries)
    requires Conforms(keyShape, key) && Conforms(valueShape, value)
    ensures r in Rows(keyShape, valueShape, entries[key := value])
            <==> r in Replace(relation, RowFor(keyShape, valueShape, key, value)).rows
  {
    hide RowFor, SameKey, Conforms, Names, Flatten, Distinct, ColumnsOf;
    var row := RowFor(keyShape, valueShape, key, value);
    var entries' := entries[key := value];
    if r in Rows(keyShape, valueShape, entries') && r != row {
      var k :| k in entries' && r == RowFor(keyShape, valueShape, k, entries'[k]);
      SameKeyExactly(keyShape, valueShape, k, entries[k], key, value);
    } else if r in relation.rows && !SameKey(r, row, relation.key) {
      var k :| k in entries && r == RowFor(keyShape, valueShape, k, entries[k]);
      SameKeyExactly(keyShape, valueShape, k, entries[k], key, value);
      assert k in entries';
    } else if r == row {
      assert key in entries';
    }
  }

  /** The entries after a sequence of adds. */
  function Added(entries: map<Value, Value>, adds: seq<(Value, Value)>): map<Value, Value> {
    if adds == [] then entries
    else Added(entries, adds[..|adds| - 1])[adds[|adds| - 1].0 := adds[|adds| - 1].1]
  }

  /** Key k was added, and i was the last time. */
  predicate LastAdd(adds: seq<(Value, Value)>, k: Value, i: nat) {
    && i < |adds| && adds[i].0 == k
    && forall j | i < j < |adds| :: adds[j].0 != k
  }

  /** After any sequence of adds a key maps to the value last added with it. */
  lemma {:induction false} LastAddWins(entries: map<Value, Value>, adds: seq<(Value, Value)>, k: Value, i: nat)
    requires LastAdd(adds, k, i)
    ensures k in Added(entries, adds) && Added(entries, adds)[k] == adds[i].1
    decreases |adds|
  {
    var last := |adds| - 1;
    if i < last {
      assert adds[last].0 != k;
      LastAddWins(entries, adds[..last], k, i);
    }
  }

  /** A key never added maps to what was stored before, if anything. */
  lemma {:induction false} NeverAdded(entries: map<Value, Value>, adds: seq<(Value, Value)>, k: Value)
    requires forall i | 0 <= i < |adds| :: adds[i].0 != k
    ensures k in Added(entries, adds) <==> k in entries
    ensures k in entries ==> Added(entries, adds)[k] == entries[k]
    decreases |adds|
  {
    if adds != [] {
      NeverAdded(entries, adds[..|adds| - 1], k);
    }
  }

  /** The statement that stores an entry. */
  function AddSql(name: string, keyShape: Shape, valueShape: Shape): Sql {
    Insert(name, Names(keyShape, "") + Names(valueShape, ""), |LeafShapes(keyShape)| + |LeafShapes(valueShape)|)
  }

  /** The statement that finds the value of a key. */
  function QuerySql(name: string, keyShape: Shape, valueShape: Shape): Sql {
    Select(name, Names(valueShape, ""), Names(keyShape, ""))
  }

  lemma StatementsCompile(name: string, keyShape: Shape, valueShape: Shape, tables: map<string, Relation>)
    requires Declarable(keyShape) && Declarable(valueShape) && name in tables
    requires tables[name].columns == ColumnsOf(keyShape) + ColumnsOf(valueShape)
    ensures Compiles(AddSql(name, keyShape, valueShape), tables)
    ensures Compiles(QuerySql(name, keyShape, valueShape), tables)
    ensures Parameters(AddSql(name, keyShape, valueShape)) == |LeafShapes(keyShape)| + |LeafShapes(valueShape)|
    ensures Parameters(QuerySql(name, keyShape, valueShape)) == |LeafShapes(keyShape)|
  {
    HasLeaf(keyShape);
    HasLeaf(valueShape);
    ColumnsOfNames(keyShape, valueShape);
    var names, names' := Names(keyShape, ""), Names(valueShape, "");
    AllInSum(names, names');
  }

  /** Both statements of the table can be prepared. */
  predicate Prepared(name: string, keyShape: Shape, valueShape: Shape, tables: map<string, Relation>) {
    Compiles(AddSql(name, keyShape, valueShape), tables) && Compiles(QuerySql(name, keyShape, valueShape), tables)
  }

  /** What createTable creates. */
  function NewTable(keyShape: Shape, valueShape: Shape): Relation {
    Relation(ColumnsOf(keyShape) + ColumnsOf(valueShape), Names(keyShape, ""), {})
  }

  lemma NewTableColumns(keyShape: Shape, valueShape: Shape)
    requires Declarable(keyShape)
    ensures var columns := ColumnsOf(keyShape) + ColumnsOf(valueShape);
            && columns != [] && Names(keyShape, "") != []
            && ColumnNames(columns) == Names(keyShape, "") + Names(valueShape, "")
            && AllIn(Names(keyShape, ""), ColumnNames(columns))
  {
    hide Names;
    HasLeaf(keyShape);
    ColumnsOfNames(keyShape, valueShape);
    AllInSum(Names(keyShape, ""), Names(valueShape, ""));
  }

  lemma NewTableFits(name: string, keyShape: Shape, valueShape: Shape, tables: map<string, Relation>)
    requires Declarable(keyShape) && Declarable(valueShape)
    ensures Prepared(name, keyShape, valueShape, tables[name := NewTable(keyShape, valueShape)])
  {
    hide Compiles;
    StatementsCompile(name, keyShape, valueShape, tables[name := NewTable(keyShape, valueShape)]);
  }

  lemma NewTableStores(keyShape: Shape, valueShape: Shape)
    requires Distinct(Names(keyShape, "") + Names(valueShape, ""))
    ensures Stored(NewTable(keyShape, valueShape), keyShape, valueShape, map[])
  {
  }

  datatype LookupResult = Found(value: Value) | Missing | CacheError

  class Table {
    const con: Connection
    const name: string
    const keyShape: Shape
    const valueShape: Shape
    var addStmt: Statement?
    var queryStmt: Statement?
    /** False if the constructor threw. */
    var ready: bool
    ghost var entries: map<Value, Value>

    ghost predicate Valid()
      reads this, con, addStmt, queryStmt
    {
      && Declarable(keyShape) && Declarable(valueShape)
      && ready && name in con.tables && Stored(con.tables[name], keyShape, valueShape, entries)
      && addStmt != null && queryStmt != null && addStmt != queryStmt
      && addStmt.con == con && queryStmt.con == con && addStmt.Valid() && queryStmt.Valid()
      && addStmt.sql == AddSql(name, keyShape, valueShape) && queryStmt.sql == QuerySql(name, keyShape, valueShape)
    }

    /** Opens the table, creating it if necessary. A table of that name from an earlier session is kept as it
        is; if it was made for the same two structs, it holds what that session stored. */
    constructor (con: Connection, name: string, keyShape: Shape, valueShape: Shape, ghost stored: map<Value, Value>)
      requires Declarable(keyShape) && Declarable(valueShape)
      modifies con
      ensures this.con == con && this.name == name && this.keyShape == keyShape && this.valueShape == valueShape
      ensures ready <==> if name in old(con.tables) then Prepared(name, keyShape, valueShape, old(con.tables))
                         else Distinct(Names(keyShape, "") + Names(valueShape, ""))
      ensures ready && (name in old(con.tables) ==> Stored(old(con.tables)[name], keyShape, valueShape, stored)) ==>
                Valid() && fresh(addStmt) && fresh(queryStmt)
                && entries == if name in old(con.tables) then stored else map[]
      ensures con.tables == if ready && name !in old(con.tables)
                            then old(con.tables)[name := NewTable(keyShape, valueShape)]
                            else old(con.tables)
    {
      this.con := con;
      this.name := name;
      this.keyShape := keyShape;
      this.valueShape := valueShape;
      addStmt := null;
      queryStmt := null;
      ready := false;
      entries := if name in con.tables then stored else map[];
      new;
      hide Names, Distinct, Declared, Compiles;
      NewTableFits(name, keyShape, valueShape, con.tables);
      if Distinct(Names(keyShape, "") + Names(valueShape, "")) {
        NewTableStores(keyShape, valueShape);
      }
      var ok := CreateTable();
      if ok {
        ok := PrepareAdd();
        if ok {
          ok := PrepareQuery();
          ready := ok;
        }
      }
    }

    /** Appends the column definitions of a struct. */
    static method WriteFieldDefinitions(shape: Shape, columns: seq<Column>) returns (r: seq<Column>)
      ensures r == columns + ColumnsOf(shape)
    {
      var names := FieldNames(shape, "", []);
      var types := FieldTypes(shape, []);
      assert |names| == |types|;
      r := columns;
      for i := 0 to |names|
        invariant r == columns + ColumnsOf(shape)[..i]
      {
        r := r + [Column(names[i], types[i])];
      }
    }

    method CreateTable() returns (ok: bool)
      requires Declarable(keyShape) && Declarable(valueShape)
      modifies con
      ensures ok <==> name in old(con.tables) || Distinct(Names(keyShape, "") + Names(valueShape, ""))
      ensures con.tables == if ok && name !in old(con.tables)
                            then old(con.tables)[name := NewTable(keyShape, valueShape)]
                            else old(con.tables)
    {
      hide Names, LeafShapes, ColumnsOf, ColumnNames, Distinct, AllIn, Declared;
      var columns := WriteFieldDefinitions(keyShape, []);
      columns := WriteFieldDefinitions(valueShape, columns);
      var key := FieldNames(keyShape, "", []);
      assert key == Names(keyShape, "") && columns == ColumnsOf(keyShape) + ColumnsOf(valueShape);
      NewTableColumns(keyShape, valueShape);
      ok := con.CreateTable(name, columns, key);
    }

    method PrepareAdd() returns (ok: bool)
      modifies this`addStmt
      ensures ok <==> Compiles(AddSql(name, keyShape, valueShape), con.tables)
      ensures ok ==> addStmt != null && fresh(addStmt) && addStmt.con == con && addStmt.Valid()
      ensures ok ==> addStmt.sql == AddSql(name, keyShape, valueShape)
    {
      hide Compiles, Names, LeafShapes;
      var columns := FieldNames(keyShape, "", []);
      columns := FieldNames(valueShape, "", columns);
      var names := FieldNames(keyShape, "", []);
      names := FieldNames(valueShape, "", names);
      assert [] + Names(keyShape, "") == Names(keyShape, "");
      addStmt := con.Prepare(Insert(name, columns, |names|));
      ok := addStmt != null;
    }

    method PrepareQuery() returns (ok: bool)
      modifies this`queryStmt
      ensures ok <==> Compiles(QuerySql(name, keyShape, valueShape), con.tables)
      ensures ok ==> queryStmt != null && fresh(queryStmt) && queryStmt.con == con && queryStmt.Valid()
      ensures ok ==> queryStmt.sql == QuerySql(name, keyShape, valueShape)
    {
      hide Compiles, Names, LeafShapes;
      var columns := FieldNames(valueShape, "", []);
      var where := FieldNames(keyShape, "", []);
      assert [] + Names(keyShape, "") == Names(keyShape, "") && [] + Names(valueShape, "") == Names(valueShape, "");
      queryStmt := con.Prepare(Select(name, columns, where));
      ok := queryStmt != null;
    }

    /** Stores an entry, replacing any with the same key; fails only if the storage does, and then changes
        nothing. Other tables are not touched. */
    method Add(key: Value, value: Value, fault: bool) returns (ok: bool)
      requires Valid() && Conforms(keyShape, key) && Conforms(valueShape, value)
      modifies addStmt, con, this`entries
      ensures Valid()
      ensures ok <==> !fault
      ensures entries == if ok then old(entries)[key := value] else old(entries)
      ensures con.tables == old(con.tables)[name := con.tables[name]]
    {
      hide Names, LeafShapes, Flatten, Filled, Conforms, Declared, Stored, Compiles, Regular;
      StoredIsRegular(con.tables[name], keyShape, valueShape, entries);
      StatementsCompile(name, keyShape, valueShape, con.tables);
      ReplaceUpdates(con.tables[name], keyShape, valueShape, entries, key, value);
      addStmt.Reset();
      var bound := BindFields(addStmt, 1, keyShape, key);
      if bound.BindError? {
        return false;
      }
      bound := BindFields(addStmt, bound.next, valueShape, value);
      if bound.BindError? {
        return false;
      }
      BoundAll(old(addStmt.bindings), Flatten(keyShape, key), Flatten(valueShape, value));
      StoredRow(con.tables[name], keyShape, valueShape, entries, key, value);
      var status := addStmt.Step(fault);
      ok := status.Done?;
      if ok {
        entries := entries[key := value];
      }
    }

    /** Finds the entry of a key, and changes nothing. */
    method Lookup(key: Value, fault: bool) returns (result: LookupResult)
      requires Valid() && Conforms(keyShape, key)
      modifies queryStmt, con
      ensures Valid() && con.tables == old(con.tables)
      ensures result == if fault then CacheError else if key in entries then Found(entries[key]) else Missing
    {
      hide Names, LeafShapes, Flatten, Filled, Conforms, Declared, Stored, Compiles, Regular, Matches, Shows;
      hide RowHas, Decoded, Leaves;
      StoredIsRegular(con.tables[name], keyShape, valueShape, entries);
      StatementsCompile(name, keyShape, valueShape, con.tables);
      queryStmt.Reset();
      var bound := BindFields(queryStmt, 1, keyShape, key);
      if bound.BindError? {
        return CacheError;
      }
      BoundAll(old(queryStmt.bindings), Flatten(keyShape, key), []);
      var status := queryStmt.Step(fault);
      FindsEntry(con.tables[name], keyShape, valueShape, entries, key, queryStmt.row);
      if status.Done? {
        return Missing;
      } else if status.Failed? {
        return CacheError;
      }
      ShownValue(valueShape, entries[key], queryStmt.row);
      var _, value := ReadFields(queryStmt, 0, valueShape);
      return Found(value);
    }
  }

  /** The insert makes the row of the entry. */
  lemma StoredRow(relation: Relation, keyShape: Shape, valueShape: Shape, entries: map<Value, Value>,
                  key: Value, value: Value)
    requires Stored(relation, keyShape, valueShape, entries)
    requires Conforms(keyShape, key) && Conforms(valueShape, value)
    ensures NewRow(relation, Names(keyShape, "") + Names(valueShape, ""),
                   Flatten(keyShape, key) + Flatten(valueShape, value))
            == RowFor(keyShape, valueShape, key, value)
  {
    hide Names, Flatten, Conforms, Distinct, RowOf, NewRow;
    ColumnsOfNames(keyShape, valueShape);
    NewRowComplete(relation, Names(keyShape, "") + Names(valueShape, ""),
                   Flatten(keyShape, key) + Flatten(valueShape, value));
  }

  lemma BoundAll(bindings: seq<Cell>, first: seq<Cell>, second: seq<Cell>)
    requires |bindings| == |first| + |second|
    ensures Filled(false, Filled(false, bindings, 1, first), 1 + |first|, second) == first + second
    ensures second == [] ==> Filled(false, bindings, 1, first) == first
  {
  }

  /** The rows a query can find for a key: the one of its entry, or none. */
  lemma FindsEntry(relation: Relation, keyShape: Shape, valueShape: Shape, entries: map<Value, Value>, key: Value,
                   shown: seq<Cell>)
    requires Stored(relation, keyShape, valueShape, entries) && Conforms(keyShape, key)
    ensures (exists r | r in relation.rows && Matches(r, Names(keyShape, ""), Flatten(keyShape, key)) ::
              Shows(shown, r, Names(valueShape, "")))
            ==> key in entries && Conforms(valueShape, entries[key]) && shown == Flatten(valueShape, entries[key])
    ensures (forall r | r in relation.rows :: !Matches(r, Names(keyShape, ""), Flatten(keyShape, key)))
            ==> key !in entries
  {
    hide RowFor, Conforms, Flatten, Names, Matches, Distinct, HasColumns;
    if r :| r in relation.rows && Matches(r, Names(keyShape, ""), Flatten(keyShape, key))
            && Shows(shown, r, Names(valueShape, "")) {
      var k :| k in entries && r == RowFor(keyShape, valueShape, k, entries[k]);
      SameKeyExactly(keyShape, valueShape, k, entries[k], key, entries[k]);
      RowForCells(keyShape, valueShape, k, entries[k]);
      assert shown == Flatten(valueShape, entries[key]);
    }
    if key in entries {
      SameKeyExactly(keyShape, valueShape, key, entries[key], key, entries[key]);
      assert RowFor(keyShape, valueShape, key, entries[key]) in relation.rows;
    }
  }

  lemma ShownValue(shape: Shape, value: Value, row: seq<Cell>)
    requires Conforms(shape, value) && row == Flatten(shape, value)
    ensures RowHas(LeafShapes(shape), row, 0)
    ensures forall back | Conforms(shape, back) && Leaves(shape, back) == Decoded(LeafShapes(shape), row, 0) ::
              back == value
  {
    assert row[0..0 + |LeafShapes(shape)|] == row;
    RoundTrip(shape, value, row, 0);
  }

  // ---- a client: any sequence of adds, some of which may fail, and a lookup

  datatype Attempt = Attempt(key: Value, value: Value, fault: bool)

  /** The adds that went through. */
  function Successes(attempts: seq<Attempt>): seq<(Value, Value)> {
    if attempts == [] then []
    else
      var last := attempts[|attempts| - 1];
      Successes(attempts[..|attempts| - 1]) + if last.fault then [] else [(last.key, last.value)]
  }

  /** Attempt i is the last that went through with this key. */
  ghost predicate LastSuccess(attempts: seq<Attempt>, key: Value, i: nat) {
    && i < |attempts| && attempts[i].key == key && !attempts[i].fault
    && forall j | i < j < |attempts| :: attempts[j].fault || attempts[j].key != key
  }

  lemma {:induction false} LastSuccessAdds(attempts: seq<Attempt>, key: Value, i: nat) returns (k: nat)
    requires LastSuccess(attempts, key, i)
    ensures LastAdd(Successes(attempts), key, k) && Successes(attempts)[k].1 == attempts[i].value
    decreases |attempts|
  {
    var last := |attempts| - 1;
    var before := Successes(attempts[..last]);
    if i == last {
      k := |before|;
    } else {
      assert attempts[last].fault || attempts[last].key != key;
      k := LastSuccessAdds(attempts[..last], key, i);
    }
  }

  lemma {:induction false} NoSuccess(attempts: seq<Attempt>, key: Value)
    requires forall i | 0 <= i < |attempts| :: attempts[i].fault || attempts[i].key != key
    ensures forall i | 0 <= i < |Successes(attempts)| :: Successes(attempts)[i].0 != key
  {
    if attempts != [] {
      NoSuccess(attempts[..|attempts| - 1], key);
    }
  }

  lemma SuccessesStep(entries: map<Value, Value>, attempts: seq<Attempt>, i: nat)
    requires i < |attempts|
    ensures Added(entries, Successes(attempts[..i + 1])) ==
            var before := Added(entries, Successes(attempts[..i]));
            if attempts[i].fault then before else before[attempts[i].key := attempts[i].value]
  {
    var now := attempts[..i + 1];
    assert now[..|now| - 1] == attempts[..i] && now[|now| - 1] == attempts[i];
    var done := Successes(attempts[..i]);
    if attempts[i].fault {
      assert done + [] == done;
    } else {
      var more := done + [(attempts[i].key, attempts[i].value)];
      assert more[..|more| - 1] == done;
    }
  }

  method AddAll(table: Table, attempts: seq<Attempt>)
    requires table.Valid()
    requires forall i | 0 <= i < |attempts| ::
               Conforms(table.keyShape, attempts[i].key) && Conforms(table.valueShape, attempts[i].value)
    modifies table.addStmt, table.con, table`entries
    ensures table.Valid()
    ensures table.entries == Added(old(table.entries), Successes(attempts))
  {
    hide Conforms, Stored, Declared, Added, Successes;
    NoAttempts(table.entries);
    for i := 0 to |attempts|
      invariant table.Valid()
      invariant table.entries == Added(old(table.entries), Successes(attempts[..i]))
    {
      SuccessesStep(old(table.entries), attempts, i);
      var ok := table.Add(attempts[i].key, attempts[i].value, attempts[i].fault);
    }
    assert attempts[..|attempts|] == attempts;
  }

  lemma NoAttempts(entries: map<Value, Value>)
    ensures Added(entries, Successes([])) == entries
  {
  }

  /** After any sequence of adds, looking a key up gives the value of the last successful add with that key,
      or what was stored before, or nothing. */
  method AddAllThenLookup(table: Table, attempts: seq<Attempt>, key: Value) returns (result: LookupResult)
    requires table.Valid() && Conforms(table.keyShape, key)
    requires forall i | 0 <= i < |attempts| ::
               Conforms(table.keyShape, attempts[i].key) && Conforms(table.valueShape, attempts[i].value)
    modifies table.addStmt, table.queryStmt, table.con, table`entries
    ensures table.Valid()
    ensures forall i: nat | LastSuccess(attempts, key, i) :: result == Found(attempts[i].value)
    ensures (forall i | 0 <= i < |attempts| :: attempts[i].fault || attempts[i].key != key) ==>
              result == if key in old(table.entries) then Found(old(table.entries)[key]) else Missing
  {
    hide Conforms, Stored, Declared, Added, Successes;
    AddAll(table, attempts);
    result := table.Lookup(key, false);
    ghost var adds := Successes(attempts);
    forall i: nat | LastSuccess(attempts, key, i) ensures result == Found(attempts[i].value) {
      var k := LastSuccessAdds(attempts, key, i);
      LastAddWins(old(table.entries), adds, key, k);
    }
    if forall i | 0 <= i < |attempts| :: attempts[i].fault || attempts[i].key != key {
      NoSuccess(attempts, key);
      NeverAdded(old(table.entries), adds, key);
    }
  }
}
