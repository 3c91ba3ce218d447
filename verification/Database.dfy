/** A small relational model standing in for the embedded SQL database: named columns, a primary key,
    prepared statements with numbered parameters. Rows are a set, since nothing orders them. */
module Database {

  newtype byte = x: int | 0 <= x < 256

  /** What one column of one row holds, or one parameter of a statement. */
  datatype Cell =
    | Null
    | IntCell(n: int)
    | TextCell(text: seq<byte>)
    | BlobCell(blob: seq<byte>)

  datatype Column = Column(name: string, typeName: string)

  type Row = map<string, Cell>

  datatype Relation = Relation(columns: seq<Column>, key: seq<string>, rows: set<Row>)

  /** The two forms of prepared statement the cache uses; every parameter is a question mark. */
  datatype Sql =
    | Insert(table: string, columns: seq<string>, placeholders: nat)
    | Select(table: string, columns: seq<string>, where: seq<string>)

  datatype Status = Done | HasRow | Failed

  predicate Distinct(names: seq<string>) {
    forall i, j | 0 <= i < j < |names| :: names[i] != names[j]
  }

  function ColumnNames(columns: seq<Column>): (names: seq<string>)
    ensures |names| == |columns|
  {
    seq(|columns|, i requires 0 <= i < |columns| => columns[i].name)
  }

  predicate AllIn(names: seq<string>, known: seq<string>) {
    forall i | 0 <= i < |names| :: names[i] in known
  }

  lemma AllInSum(names: seq<string>, names': seq<string>)
    ensures AllIn(names, names + names') && AllIn(names', names + names')
  {
    assert forall i | 0 <= i < |names| :: names[i] == (names + names')[i];
    assert forall i | 0 <= i < |names'| :: names'[i] == (names + names')[|names| + i];
  }

  /** The row with the given cells in the given columns. */
  function RowOf(names: seq<string>, cells: seq<Cell>): (row: Row)
    requires |names| == |cells|
    ensures forall n :: n in row <==> n in names
  {
    if names == [] then map[]
    else
      var last := |names| - 1;
      assert names == names[..last] + [names[last]];
      RowOf(names[..last], cells[..last])[names[last] := cells[last]]
  }

  lemma {:induction false} RowOfAt(names: seq<string>, cells: seq<Cell>, i: nat)
    requires |names| == |cells| && Distinct(names) && i < |names|
    ensures RowOf(names, cells)[names[i]] == cells[i]
  {
    var last := |names| - 1;
    assert names == names[..last] + [names[last]];
    if i < last {
      assert names[..last][i] == names[i] != names[last];
      RowOfAt(names[..last], cells[..last], i);
    }
  }

  /** Comparison of columns with parameters; a null equals nothing. */
  predicate Matches(row: Row, names: seq<string>, cells: seq<Cell>)
    requires |names| == |cells|
  {
    forall i | 0 <= i < |names| :: names[i] in row && row[names[i]] == cells[i] && !cells[i].Null?
  }

  /** The rows have the same primary key. */
  predicate SameKey(r: Row, s: Row, key: seq<string>) {
    forall i | 0 <= i < |key| :: key[i] in r && key[i] in s && r[key[i]] == s[key[i]] && !r[key[i]].Null?
  }

  /** The row an insert makes: columns that it does not name are null. */
  function NewRow(relation: Relation, names: seq<string>, cells: seq<Cell>): (row: Row)
    requires |names| == |cells|
  {
    var given := RowOf(names, cells);
    map n | n in ColumnNames(relation.columns) :: if n in given then given[n] else Null
  }

  /** If it names exactly the columns of the table, it is the row of the given cells. */
  lemma NewRowComplete(relation: Relation, names: seq<string>, cells: seq<Cell>)
    requires |names| == |cells| && ColumnNames(relation.columns) == names
    ensures NewRow(relation, names, cells) == RowOf(names, cells)
  {
  }

  function Replace(relation: Relation, row: Row): Relation {
    relation.(rows := (set r | r in relation.rows && !SameKey(r, row, relation.key)) + {row})
  }

  function Project(row: Row, names: seq<string>): seq<Cell>
    requires forall i | 0 <= i < |names| :: names[i] in row
  {
    seq(|names|, i requires 0 <= i < |names| => row[names[i]])
  }

  /** The cells a query shows of a row. */
  ghost predicate Shows(cells: seq<Cell>, row: Row, names: seq<string>) {
    && |cells| == |names|
    && forall i | 0 <= i < |names| :: names[i] in row && row[names[i]] == cells[i]
  }

  /** A row made of two lists of cells shows each under its own columns. */
  lemma RowOfParts(names: seq<string>, names': seq<string>, cells: seq<Cell>, cells': seq<Cell>)
    requires |names| == |cells| && |names'| == |cells'| && Distinct(names + names')
    ensures var row := RowOf(names + names', cells + cells');
            HasColumns(row, names + names') && Shows(cells, row, names) && Shows(cells', row, names')
  {
    hide RowOf, Distinct, Shows;
    RowOfShows(names + names', cells + cells');
    ShowsFirst(names, names', cells, cells', RowOf(names + names', cells + cells'));
    ShowsSecond(names, names', cells, cells', RowOf(names + names', cells + cells'));
  }

  lemma RowOfShows(names: seq<string>, cells: seq<Cell>)
    requires |names| == |cells| && Distinct(names)
    ensures Shows(cells, RowOf(names, cells), names)
  {
    hide RowOf, Distinct;
    forall i | 0 <= i < |names| ensures RowOf(names, cells)[names[i]] == cells[i] {
      RowOfAt(names, cells, i);
    }
  }

  lemma ShowsFirst(names: seq<string>, names': seq<string>, cells: seq<Cell>, cells': seq<Cell>, row: Row)
    requires |names| == |cells| && Shows(cells + cells', row, names + names')
    ensures Shows(cells, row, names)
  {
    forall i | 0 <= i < |names| ensures names[i] in row && row[names[i]] == cells[i] {
      assert names[i] == (names + names')[i];
    }
  }

  lemma ShowsSecond(names: seq<string>, names': seq<string>, cells: seq<Cell>, cells': seq<Cell>, row: Row)
    requires |names| == |cells| && |names'| == |cells'| && Shows(cells + cells', row, names + names')
    ensures Shows(cells', row, names')
  {
    forall i | 0 <= i < |names'| ensures names'[i] in row && row[names'[i]] == cells'[i] {
      assert names'[i] == (names + names')[|names| + i];
    }
  }

  predicate NoNull(cells: seq<Cell>) {
    forall i | 0 <= i < |cells| :: !cells[i].Null?
  }

  /** Looking a row up by some of its cells, or comparing two rows on them. */
  lemma ShownMatches(names: seq<string>, row: Row, cells: seq<Cell>, row': Row, cells': seq<Cell>)
    requires Shows(cells, row, names) && Shows(cells', row', names) && NoNull(cells')
    ensures Matches(row, names, cells') <==> cells == cells'
    ensures SameKey(row, row', names) <==> cells == cells'
  {
  }

  function Parameters(sql: Sql): nat {
    match sql
    case Insert(_, _, placeholders) => placeholders
    case Select(_, _, where) => |where|
  }

  /** Preparing a statement fails unless its table and columns exist and its lists are filled in. */
  predicate Compiles(sql: Sql, tables: map<string, Relation>) {
    && sql.table in tables
    && sql.columns != [] && AllIn(sql.columns, ColumnNames(tables[sql.table].columns))
    && match sql
       case Insert(_, columns, placeholders) =>
         placeholders == |columns|
       case Select(_, _, where) =>
         where != [] && AllIn(where, ColumnNames(tables[sql.table].columns))
  }

  ghost predicate HasColumns(row: Row, names: seq<string>) {
    forall n :: n in row <==> n in names
  }

  /** Every row has exactly the columns of the table. */
  ghost predicate Regular(relation: Relation) {
    forall r | r in relation.rows :: HasColumns(r, ColumnNames(relation.columns))
  }

  class Connection {
    var tables: map<string, Relation>

    /** CREATE TABLE IF NOT EXISTS: an existing table is kept whatever its columns are. */
    method CreateTable(name: string, columns: seq<Column>, key: seq<string>) returns (ok: bool)
      modifies this
      ensures ok <==> name in old(tables) || (columns != [] && key != [] && Distinct(ColumnNames(columns))
                                              && AllIn(key, ColumnNames(columns)))
      ensures tables == if ok && name !in old(tables) then old(tables)[name := Relation(columns, key, {})]
                        else old(tables)
    {
      if name in tables {
        return true;
      }
      ok := columns != [] && key != [] && Distinct(ColumnNames(columns)) && AllIn(key, ColumnNames(columns));
      if ok {
        tables := tables[name := Relation(columns, key, {})];
      }
    }

    method Prepare(sql: Sql) returns (stmt: Statement?)
      ensures stmt != null <==> Compiles(sql, tables)
      ensures stmt != null ==> fresh(stmt) && stmt.con == this && stmt.sql == sql && stmt.Valid()
    {
      stmt := null;
      if Compiles(sql, tables) {
        stmt := new Statement(this, sql);
      }
    }
  }

  class Statement {
    const con: Connection
    const sql: Sql
    var busy: bool // stepped since the last reset
    var bindings: seq<Cell>
    var row: seq<Cell>

    predicate Valid()
      reads this
    {
      |bindings| == Parameters(sql)
    }

    constructor (con: Connection, sql: Sql)
      ensures this.con == con && this.sql == sql && Valid()
    {
      this.con := con;
      this.sql := sql;
      busy := false;
      bindings := seq(Parameters(sql), _ => Null);
      row := [];
    }

    /** Makes the statement ready to be bound and stepped again. The bindings stay. */
    method Reset()
      modifies this`busy
      ensures !busy
    {
      busy := false;
    }

    /** Parameters are numbered from one and can be set only between a reset and the next step. */
    method Bind(pos: nat, cell: Cell) returns (ok: bool)
      requires Valid()
      modifies this`bindings
      ensures Valid()
      ensures ok <==> !busy && 1 <= pos <= |bindings|
      ensures bindings == if ok then old(bindings)[pos - 1 := cell] else old(bindings)
    {
      ok := !busy && 1 <= pos <= |bindings|;
      if ok {
        bindings := bindings[pos - 1 := cell];
      }
    }

    /** Runs the statement. A fault is any failure of the storage underneath. */
    method Step(fault: bool) returns (status: Status)
      requires Valid() && !busy && Compiles(sql, con.tables) && Regular(con.tables[sql.table])
      modifies this`busy, this`row, con
      ensures busy && Valid()
      ensures status.Failed? <==> fault
      ensures fault || sql.Select? ==> con.tables == old(con.tables)
      ensures sql.Insert? && !fault ==>
                status.Done?
                && con.tables == old(con.tables)[sql.table :=
                                   Replace(old(con.tables)[sql.table],
                                           NewRow(old(con.tables)[sql.table], sql.columns, bindings))]
      ensures sql.Select? && status.HasRow? ==>
                exists r | r in con.tables[sql.table].rows && Matches(r, sql.where, bindings) :: Shows(row, r, sql.columns)
      ensures sql.Select? && status.Done? ==>
                forall r | r in con.tables[sql.table].rows :: !Matches(r, sql.where, bindings)
      ensures sql.Insert? ==> !status.HasRow?
    {
      busy := true;
      if fault {
        return Failed;
      }
      match sql {
        case Insert(table, columns, _) =>
          con.tables := con.tables[table := Replace(con.tables[table], NewRow(con.tables[table], columns, bindings))];
          status := Done;
        case Select(table, columns, where) =>
          var found := set r | r in con.tables[table].rows && Matches(r, where, bindings);
          if found == {} {
            assert forall r | r in con.tables[table].rows && Matches(r, where, bindings) :: r in found;
            status := Done;
          } else {
            var r :| r in found;
            assert HasColumns(r, ColumnNames(con.tables[table].columns));
            row := Project(r, columns);
            status := HasRow;
          }
      }
    }
  }
}
