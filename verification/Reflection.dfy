/** Flattening of nested structs into database columns (src/parameters.h, src/parameters.cpp). A struct
    declared with CLOGS_STRUCT is a list of named members, each an integer, a string, a byte vector or
    another such struct; the macros recurse over the members in order. */
module Reflection {
  import opened Blocks
  import opened Database
  import opened Lexicographic

  /** Integer widths that fit the database's 64-bit integers. */
  type Width = w: nat | 1 <= w <= 64 witness 64

  /** A C++ type that can be bound and read. */
  datatype Shape =
    | Integral(bits: Width, signed: bool)
    | Text
    | Blob
    | Struct(fields: seq<Field>)

  datatype Field = Field(name: string, shape: Shape)

  datatype Value =
    | Number(n: int)
    | Bytes(bytes: seq<byte>)
    | Record(members: seq<Value>)

  // ---- integer conversions

  /** The values of an integer type. */
  predicate InRange(bits: Width, signed: bool, x: int) {
    if signed then -(Pow2(bits - 1) as int) <= x < Pow2(bits - 1) else 0 <= x < Pow2(bits)
  }

  /** Conversion of an integer to a type of the given width: the value of that type that is congruent. */
  function Narrow(bits: Width, signed: bool, x: int): (r: int)
    ensures InRange(bits, signed, r)
  {
    var low := x % Pow2(bits);
    if signed && low >= Pow2(bits - 1) then low - Pow2(bits) else low
  }

  lemma NarrowCongruent(bits: Width, signed: bool, x: int) returns (q: int)
    ensures x == Narrow(bits, signed, x) + q * Pow2(bits)
  {
    q := x / Pow2(bits);
    assert x == x % Pow2(bits) + q * Pow2(bits);
    if Narrow(bits, signed, x) != x % Pow2(bits) {
      q := q + 1;
    }
  }

  lemma OneOrMore(q: int, m: nat)
    ensures q >= 1 ==> q * m >= m
    ensures q <= -1 ==> q * m + m <= 0
  {
    if q >= 1 {
      MultiplesApart(1, q, m);
    } else if q <= -1 {
      MultiplesApart(1, -q, m);
      assert -q * m == -(q * m);
    }
  }

  /** Two values of a type that are congruent modulo its width are equal. */
  lemma NarrowUnique(bits: Width, signed: bool, x: int, y: int, q: int)
    requires InRange(bits, signed, x) && InRange(bits, signed, y)
    requires x == y + q * Pow2(bits)
    ensures x == y
  {
    OneOrMore(q, Pow2(bits));
  }

  lemma Regroup(p: int, a: nat, q: int, m: nat)
    ensures p * (a * m) + q * m == (p * a + q) * m
  {
  }

  /** Every supported integer type survives the trip through the database's signed 64-bit integers,
      including size_t values of 2^63 and more, which are stored as negative numbers. */
  lemma IntegerRoundTrip(bits: Width, signed: bool, x: int)
    requires InRange(bits, signed, x)
    ensures Narrow(bits, signed, Narrow(64, true, x)) == x
  {
    hide Narrow, InRange, Pow2;
    var p := NarrowCongruent(64, true, x);
    var q := NarrowCongruent(bits, signed, Narrow(64, true, x));
    Pow2Add(64 - bits, bits);
    Regroup(p, Pow2(64 - bits), q, Pow2(bits));
    NarrowUnique(bits, signed, x, Narrow(bits, signed, Narrow(64, true, x)), p * Pow2(64 - bits) + q);
  }

  /** The stored number is the number itself exactly when it is below 2^63. */
  lemma StoredExactly(bits: Width, signed: bool, x: int)
    requires InRange(bits, signed, x)
    ensures Narrow(64, true, x) == x <==> x < Pow2(63)
  {
    hide Narrow, Pow2;
    if x < Pow2(63) {
      Pow2Mono(bits - 1, 63);
      var q := NarrowCongruent(64, true, x);
      NarrowUnique(64, true, x, Narrow(64, true, x), q);
    }
  }

  // ---- flattening

  predicate Conforms(shape: Shape, value: Value) {
    match shape
    case Integral(bits, signed) => value.Number? && InRange(bits, signed, value.n)
    case Text => value.Bytes?
    case Blob => value.Bytes?
    case Struct(fields) =>
      && value.Record? && |value.members| == |fields|
      && forall i | 0 <= i < |fields| :: Conforms(fields[i].shape, value.members[i])
  }

  function FieldCount(shape: Shape): nat {
    if shape.Struct? then |shape.fields| else 0
  }

  /** The scalar types inside a type, in declaration order. */
  function LeafShapes(shape: Shape): (r: seq<Shape>)
    ensures forall i | 0 <= i < |r| :: !r[i].Struct?
    decreases shape, FieldCount(shape) + 1
  {
    if shape.Struct? then LeafShapesFrom(shape, 0) else [shape]
  }

  function LeafShapesFrom(shape: Shape, k: nat): (r: seq<Shape>)
    requires shape.Struct? && k <= |shape.fields|
    ensures forall i | 0 <= i < |r| :: !r[i].Struct?
    decreases shape, |shape.fields| - k
  {
    if k == |shape.fields| then [] else LeafShapes(shape.fields[k].shape) + LeafShapesFrom(shape, k + 1)
  }

  /** The scalars inside a value, in declaration order. */
  function Leaves(shape: Shape, value: Value): (r: seq<Value>)
    requires Conforms(shape, value)
    ensures |r| == |LeafShapes(shape)|
    ensures forall i | 0 <= i < |r| :: Conforms(LeafShapes(shape)[i], r[i])
    decreases shape, FieldCount(shape) + 1
  {
    if shape.Struct? then LeavesFrom(shape, value, 0) else [value]
  }

  function LeavesFrom(shape: Shape, value: Value, k: nat): (r: seq<Value>)
    requires Conforms(shape, value) && shape.Struct? && k <= |shape.fields|
    ensures |r| == |LeafShapesFrom(shape, k)|
    ensures forall i | 0 <= i < |r| :: Conforms(LeafShapesFrom(shape, k)[i], r[i])
    decreases shape, |shape.fields| - k
  {
    if k == |shape.fields| then []
    else Leaves(shape.fields[k].shape, value.members[k]) + LeavesFrom(shape, value, k + 1)
  }

  /** The column names: the name of the innermost member only. */
  function Names(shape: Shape, root: string): (r: seq<string>)
    ensures |r| == |LeafShapes(shape)|
    decreases shape, FieldCount(shape) + 1
  {
    if shape.Struct? then NamesFrom(shape, 0) else [root]
  }

  function NamesFrom(shape: Shape, k: nat): (r: seq<string>)
    requires shape.Struct? && k <= |shape.fields|
    ensures |r| == |LeafShapesFrom(shape, k)|
    decreases shape, |shape.fields| - k
  {
    if k == |shape.fields| then []
    else Names(shape.fields[k].shape, shape.fields[k].name) + NamesFrom(shape, k + 1)
  }

  function TypeName(leaf: Shape): string
    requires !leaf.Struct?
  {
    match leaf
    case Integral(_, _) => "INT"
    case Text => "TEXT"
    case Blob => "BLOB"
  }

  function Types(leaves: seq<Shape>): seq<string>
    requires forall i | 0 <= i < |leaves| :: !leaves[i].Struct?
  {
    seq(|leaves|, i requires 0 <= i < |leaves| => TypeName(leaves[i]))
  }

  /** What binding a scalar stores. */
  function Encode(leaf: Shape, value: Value): Cell
    requires !leaf.Struct? && Conforms(leaf, value)
  {
    match leaf
    case Integral(_, _) => IntCell(Narrow(64, true, value.n))
    case Text => TextCell(value.bytes)
    case Blob => BlobCell(value.bytes)
  }

  function Cells(leaves: seq<Shape>, values: seq<Value>): seq<Cell>
    requires |values| == |leaves|
    requires forall i | 0 <= i < |leaves| :: !leaves[i].Struct? && Conforms(leaves[i], values[i])
  {
    seq(|leaves|, i requires 0 <= i < |leaves| => Encode(leaves[i], values[i]))
  }

  /** The cells of a whole value. */
  function Flatten(shape: Shape, value: Value): (r: seq<Cell>)
    requires Conforms(shape, value)
    ensures |r| == |LeafShapes(shape)|
  {
    Cells(LeafShapes(shape), Leaves(shape, value))
  }

  /** The type checks of readFields. */
  predicate CellHas(leaf: Shape, cell: Cell)
    requires !leaf.Struct?
  {
    match leaf
    case Integral(_, _) => cell.IntCell?
    case Text => cell.TextCell?
    case Blob => cell.BlobCell?
  }

  /** What reading a column into a scalar yields. */
  function Decode(leaf: Shape, cell: Cell): (value: Value)
    requires !leaf.Struct? && CellHas(leaf, cell)
    ensures Conforms(leaf, value)
  {
    match leaf
    case Integral(bits, signed) => Number(Narrow(bits, signed, cell.n))
    case Text => Bytes(cell.text)
    case Blob => Bytes(cell.blob)
  }

  /** The row holds cells of the right types for these scalars from this column on. */
  predicate RowHas(leaves: seq<Shape>, row: seq<Cell>, pos: nat)
    requires forall i | 0 <= i < |leaves| :: !leaves[i].Struct?
  {
    && pos + |leaves| <= |row|
    && forall i | 0 <= i < |leaves| :: CellHas(leaves[i], row[pos + i])
  }

  function Decoded(leaves: seq<Shape>, row: seq<Cell>, pos: nat): seq<Value>
    requires forall i | 0 <= i < |leaves| :: !leaves[i].Struct?
    requires RowHas(leaves, row, pos)
  {
    seq(|leaves|, i requires 0 <= i < |leaves| => Decode(leaves[i], row[pos + i]))
  }

  // ---- binding

  /** Cells with a stretch replaced; what does not fit at the end is dropped. */
  function Overwritten(cells: seq<Cell>, at: nat, part: seq<Cell>): (r: seq<Cell>)
    ensures |r| == |cells|
  {
    seq(|cells|, i requires 0 <= i < |cells| => if at <= i < at + |part| then part[i - at] else cells[i])
  }

  lemma OverwrittenTwice(cells: seq<Cell>, at: nat, part: seq<Cell>, more: seq<Cell>)
    ensures Overwritten(Overwritten(cells, at, part), at + |part|, more) == Overwritten(cells, at, part + more)
    ensures at + |part| >= |cells| ==> Overwritten(cells, at, part) == Overwritten(cells, at, part + more)
  {
  }

  lemma CellsAppend(leaves: seq<Shape>, leaves': seq<Shape>, values: seq<Value>, values': seq<Value>)
    requires |values| == |leaves| && |values'| == |leaves'|
    requires forall i | 0 <= i < |leaves| :: !leaves[i].Struct? && Conforms(leaves[i], values[i])
    requires forall i | 0 <= i < |leaves'| :: !leaves'[i].Struct? && Conforms(leaves'[i], values'[i])
    ensures var all, values := leaves + leaves', values + values';
            && (forall i | 0 <= i < |all| :: !all[i].Struct? && Conforms(all[i], values[i]))
    ensures Cells(leaves + leaves', values + values') == Cells(leaves, values) + Cells(leaves', values')
  {
  }

  function FlattenFrom(shape: Shape, value: Value, k: nat): (r: seq<Cell>)
    requires Conforms(shape, value) && shape.Struct? && k <= |shape.fields|
    ensures |r| == |LeafShapesFrom(shape, k)|
  {
    Cells(LeafShapesFrom(shape, k), LeavesFrom(shape, value, k))
  }

  lemma FlattenField(shape: Shape, value: Value, k: nat)
    requires Conforms(shape, value) && shape.Struct? && k < |shape.fields|
    ensures FlattenFrom(shape, value, k) ==
            Flatten(shape.fields[k].shape, value.members[k]) + FlattenFrom(shape, value, k + 1)
  {
    CellsAppend(LeafShapes(shape.fields[k].shape), LeafShapesFrom(shape, k + 1),
                Leaves(shape.fields[k].shape, value.members[k]), LeavesFrom(shape, value, k + 1));
  }

  datatype BindResult = Bound(next: nat) | BindError

  /** Binding n cells fails only for lack of parameters, or when the statement has not been reset. */
  function Fits(busy: bool, parameters: nat, pos: nat, n: nat): BindResult
    requires pos >= 1
  {
    if n == 0 || (!busy && pos - 1 + n <= parameters) then Bound(pos + n) else BindError
  }

  /** The parameters afterwards; those that exist are set even when it fails for lack of more. */
  function Filled(busy: bool, bindings: seq<Cell>, pos: nat, cells: seq<Cell>): (r: seq<Cell>)
    requires pos >= 1
    ensures |r| == |bindings|
  {
    if busy then bindings else Overwritten(bindings, pos - 1, cells)
  }

  /** Binding fails exactly if there is something to bind and not enough parameters, or the statement is in use; otherwise
      the cells are in consecutive parameters, numbered from one, and the others are as they were. */
  lemma BindMeaning(busy: bool, bindings: seq<Cell>, pos: nat, cells: seq<Cell>)
    requires pos >= 1
    ensures var result := Fits(busy, |bindings|, pos, |cells|);
            && (result.BindError? <==> |cells| > 0 && (busy || pos + |cells| > |bindings| + 1))
            && (result.Bound? ==> result.next == pos + |cells|)
    ensures busy ==> Filled(busy, bindings, pos, cells) == bindings
    ensures !busy ==> forall i | 0 <= i < |bindings| ::
              Filled(busy, bindings, pos, cells)[i] == if pos <= i + 1 < pos + |cells| then cells[i + 1 - pos] else bindings[i]
  {
  }

  lemma FilledTwice(busy: bool, bindings: seq<Cell>, pos: nat, part: seq<Cell>, more: seq<Cell>)
    requires pos >= 1
    ensures Filled(busy, Filled(busy, bindings, pos, part), pos + |part|, more) == Filled(busy, bindings, pos, part + more)
    ensures Fits(busy, |bindings|, pos, |part|).BindError? ==>
              Filled(busy, bindings, pos, part + more) == Filled(busy, bindings, pos, part)
              && Fits(busy, |bindings|, pos, |part + more|).BindError?
  {
    OverwrittenTwice(bindings, pos - 1, part, more);
  }

  /** Binds the leaves of a value to consecutive parameters; returns one past the last. */
  method BindFields(stmt: Statement, pos: nat, shape: Shape, value: Value) returns (result: BindResult)
    requires stmt.Valid() && pos >= 1 && Conforms(shape, value)
    modifies stmt`bindings
    ensures stmt.Valid()
    ensures result == Fits(stmt.busy, |stmt.bindings|, pos, |LeafShapes(shape)|)
    ensures stmt.bindings == Filled(stmt.busy, old(stmt.bindings), pos, Flatten(shape, value))
    decreases shape, 1
  {
    if shape.Struct? {
      result := BindMembers(stmt, pos, shape, value);
    } else {
      var ok := stmt.Bind(pos, Encode(shape, value));
      result := if ok then Bound(pos + 1) else BindError;
      assert Flatten(shape, value) == [Encode(shape, value)];
    }
  }

  method BindMembers(stmt: Statement, pos: nat, shape: Shape, value: Value) returns (result: BindResult)
    requires stmt.Valid() && pos >= 1 && Conforms(shape, value) && shape.Struct?
    modifies stmt`bindings
    ensures stmt.Valid()
    ensures result == Fits(stmt.busy, |stmt.bindings|, pos, |FlattenFrom(shape, value, 0)|)
    ensures stmt.bindings == Filled(stmt.busy, old(stmt.bindings), pos, FlattenFrom(shape, value, 0))
    decreases shape, 0
  {
    hide Filled, Flatten, FlattenFrom, LeafShapes, LeafShapesFrom, Leaves, LeavesFrom;
    ghost var before := stmt.bindings;
    ghost var done: seq<Cell> := [];
    result := Bound(pos);
    FilledNothing(stmt.busy, before, pos);
    for k := 0 to |shape.fields|
      invariant stmt.Valid() && |before| == |stmt.bindings|
      invariant done + FlattenFrom(shape, value, k) == FlattenFrom(shape, value, 0)
      invariant result == Bound(pos + |done|) == Fits(stmt.busy, |before|, pos, |done|)
      invariant stmt.bindings == Filled(stmt.busy, before, pos, done)
    {
      FlattenField(shape, value, k);
      ghost var part := Flatten(shape.fields[k].shape, value.members[k]);
      ghost var rest := FlattenFrom(shape, value, k + 1);
      FilledTwice(stmt.busy, before, pos, done, part);
      FilledTwice(stmt.busy, before, pos, done + part, rest);
      assert done + FlattenFrom(shape, value, k) == (done + part) + rest;
      result := BindFields(stmt, result.next, shape.fields[k].shape, value.members[k]);
      done := done + part;
      if result.BindError? {
        return;
      }
    }
    FlattenNothing(shape, value);
    assert done + [] == done;
  }

  lemma FilledNothing(busy: bool, bindings: seq<Cell>, pos: nat)
    requires pos >= 1
    ensures Filled(busy, bindings, pos, []) == bindings
  {
  }

  lemma FlattenNothing(shape: Shape, value: Value)
    requires Conforms(shape, value) && shape.Struct?
    ensures FlattenFrom(shape, value, |shape.fields|) == []
  {
  }

  // ---- reading

  lemma RowHasAppend(leaves: seq<Shape>, leaves': seq<Shape>, row: seq<Cell>, pos: nat)
    requires forall i | 0 <= i < |leaves| :: !leaves[i].Struct?
    requires forall i | 0 <= i < |leaves'| :: !leaves'[i].Struct?
    ensures forall i | 0 <= i < |leaves + leaves'| :: !(leaves + leaves')[i].Struct?
    ensures RowHas(leaves + leaves', row, pos) <==> RowHas(leaves, row, pos) && RowHas(leaves', row, pos + |leaves|)
    ensures RowHas(leaves + leaves', row, pos) ==>
              Decoded(leaves + leaves', row, pos) == Decoded(leaves, row, pos) + Decoded(leaves', row, pos + |leaves|)
  {
    var all := leaves + leaves';
    if RowHas(all, row, pos) {
      forall i | 0 <= i < |leaves'| ensures CellHas(leaves'[i], row[pos + |leaves| + i]) {
        assert all[|leaves| + i] == leaves'[i];
      }
      assert forall i | 0 <= i < |leaves| :: all[i] == leaves[i];
    }
  }

  /** Reads consecutive columns of the current row into a value; returns one past the last column. */
  method ReadFields(stmt: Statement, pos: nat, shape: Shape) returns (next: nat, value: Value)
    requires RowHas(LeafShapes(shape), stmt.row, pos)
    ensures next == pos + |LeafShapes(shape)|
    ensures Conforms(shape, value) && Leaves(shape, value) == Decoded(LeafShapes(shape), stmt.row, pos)
    decreases shape
  {
    if !shape.Struct? {
      assert CellHas(LeafShapes(shape)[0], stmt.row[pos + 0]);
      return pos + 1, Decode(shape, stmt.row[pos]);
    }
    next := pos;
    var members: seq<Value> := [];
    ghost var starts := [pos];
    for k := 0 to |shape.fields|
      invariant |members| == k && |starts| == k + 1 && starts[k] == next && starts[0] == pos
      invariant next + |LeafShapesFrom(shape, k)| == pos + |LeafShapes(shape)|
      invariant RowHas(LeafShapesFrom(shape, k), stmt.row, next)
      invariant forall j | 0 <= j < k :: ReadAt(shape.fields[j].shape, members[j], stmt.row, starts[j], starts[j + 1])
    {
      RowHasAppend(LeafShapes(shape.fields[k].shape), LeafShapesFrom(shape, k + 1), stmt.row, next);
      var member;
      next, member := ReadFields(stmt, next, shape.fields[k].shape);
      members := members + [member];
      starts := starts + [next];
    }
    value := Record(members);
    Assemble(shape, members, stmt.row, starts, 0);
  }

  /** A value whose leaves are decoded from the given stretch of a row. */
  ghost predicate ReadAt(shape: Shape, value: Value, row: seq<Cell>, start: nat, end: nat) {
    && Conforms(shape, value) && end == start + |LeafShapes(shape)|
    && RowHas(LeafShapes(shape), row, start)
    && Leaves(shape, value) == Decoded(LeafShapes(shape), row, start)
  }

  lemma {:induction false} Assemble(shape: Shape, members: seq<Value>, row: seq<Cell>, starts: seq<nat>, k: nat)
    requires shape.Struct? && |members| == |shape.fields| && |starts| == |members| + 1 && k <= |members|
    requires forall j | 0 <= j < |members| :: ReadAt(shape.fields[j].shape, members[j], row, starts[j], starts[j + 1])
    requires starts[|members|] <= |row|
    ensures Conforms(shape, Record(members))
    ensures RowHas(LeafShapesFrom(shape, k), row, starts[k])
    ensures LeavesFrom(shape, Record(members), k) == Decoded(LeafShapesFrom(shape, k), row, starts[k])
    decreases |members| - k
  {
    forall j | 0 <= j < |members| ensures Conforms(shape.fields[j].shape, members[j]) {
      assert ReadAt(shape.fields[j].shape, members[j], row, starts[j], starts[j + 1]);
    }
    if k < |members| {
      Assemble(shape, members, row, starts, k + 1);
      assert ReadAt(shape.fields[k].shape, members[k], row, starts[k], starts[k + 1]);
      RowHasAppend(LeafShapes(shape.fields[k].shape), LeafShapesFrom(shape, k + 1), row, starts[k]);
    }
  }

  /** A value is determined by its leaves. */
  lemma {:induction false} LeavesInjective(shape: Shape, v: Value, w: Value)
    requires Conforms(shape, v) && Conforms(shape, w) && Leaves(shape, v) == Leaves(shape, w)
    ensures v == w
    decreases shape, FieldCount(shape) + 1
  {
    if shape.Struct? {
      LeavesFromInjective(shape, v, w, 0);
      assert v.members == w.members;
    }
  }

  lemma {:induction false} LeavesFromInjective(shape: Shape, v: Value, w: Value, k: nat)
    requires Conforms(shape, v) && Conforms(shape, w) && shape.Struct? && k <= |shape.fields|
    requires LeavesFrom(shape, v, k) == LeavesFrom(shape, w, k)
    ensures forall i | k <= i < |shape.fields| :: v.members[i] == w.members[i]
    decreases shape, |shape.fields| - k
  {
    if k < |shape.fields| {
      var field := shape.fields[k].shape;
      var n := |LeafShapes(field)|;
      assert Leaves(field, v.members[k]) == LeavesFrom(shape, v, k)[..n] == LeavesFrom(shape, w, k)[..n];
      assert LeavesFrom(shape, v, k + 1) == LeavesFrom(shape, v, k)[n..] == LeavesFrom(shape, w, k)[n..];
      LeavesInjective(field, v.members[k], w.members[k]);
      LeavesFromInjective(shape, v, w, k + 1);
    }
  }

  lemma DecodeEncode(leaf: Shape, value: Value)
    requires !leaf.Struct? && Conforms(leaf, value)
    ensures CellHas(leaf, Encode(leaf, value)) && Decode(leaf, Encode(leaf, value)) == value
  {
    if leaf.Integral? {
      IntegerRoundTrip(leaf.bits, leaf.signed, value.n);
    }
  }

  /** Bind, then read: a row that holds the cells of a value from some column on reads back as that value,
      whatever the nesting. */
  lemma RoundTrip(shape: Shape, value: Value, row: seq<Cell>, pos: nat)
    requires Conforms(shape, value) && pos + |LeafShapes(shape)| <= |row|
    requires row[pos..pos + |LeafShapes(shape)|] == Flatten(shape, value)
    ensures RowHas(LeafShapes(shape), row, pos)
    ensures Decoded(LeafShapes(shape), row, pos) == Leaves(shape, value)
    ensures forall back | Conforms(shape, back) && Leaves(shape, back) == Decoded(LeafShapes(shape), row, pos) ::
              back == value
  {
    hide Encode, Decode, LeafShapes, Leaves, Conforms;
    var leaves, values := LeafShapes(shape), Leaves(shape, value);
    forall i | 0 <= i < |leaves|
      ensures CellHas(leaves[i], row[pos + i]) && Decode(leaves[i], row[pos + i]) == values[i]
    {
      assert row[pos + i] == Flatten(shape, value)[i] == Encode(leaves[i], values[i]);
      DecodeEncode(leaves[i], values[i]);
    }
    assert Decoded(leaves, row, pos) == values;
    forall back | Conforms(shape, back) && Leaves(shape, back) == Decoded(leaves, row, pos) ensures back == value {
      LeavesInjective(shape, back, value);
    }
  }

  /** Equal cells come from equal values, so the database tells keys apart as the program does. */
  lemma FlattenInjective(shape: Shape, v: Value, w: Value)
    requires Conforms(shape, v) && Conforms(shape, w) && Flatten(shape, v) == Flatten(shape, w)
    ensures v == w
  {
    var row := Flatten(shape, v);
    assert row[0..0 + |LeafShapes(shape)|] == row;
    RoundTrip(shape, v, row, 0);
    RoundTrip(shape, w, row, 0);
    LeavesInjective(shape, v, w);
  }

  // ---- names and types

  /** Appends the column names. */
  method FieldNames(shape: Shape, root: string, out: seq<string>) returns (names: seq<string>)
    ensures names == out + Names(shape, root)
    decreases shape
  {
    if !shape.Struct? {
      return out + [root];
    }
    names := out;
    for k := 0 to |shape.fields|
      invariant names + NamesFrom(shape, k) == out + NamesFrom(shape, 0)
    {
      ghost var before := names;
      names := FieldNames(shape.fields[k].shape, shape.fields[k].name, names);
      assert names + NamesFrom(shape, k + 1) == before + NamesFrom(shape, k);
    }
  }

  /** Appends the column types. */
  method FieldTypes(shape: Shape, out: seq<string>) returns (types: seq<string>)
    ensures types == out + Types(LeafShapes(shape))
    decreases shape
  {
    hide LeafShapesFrom, Types;
    SingleType(shape);
    if !shape.Struct? {
      return out + [TypeName(shape)];
    }
    types := out;
    for k := 0 to |shape.fields|
      invariant types + Types(LeafShapesFrom(shape, k)) == out + Types(LeafShapesFrom(shape, 0))
    {
      ghost var before := types;
      types := FieldTypes(shape.fields[k].shape, types);
      NextTypes(shape, k);
      assert types + Types(LeafShapesFrom(shape, k + 1)) == before + Types(LeafShapesFrom(shape, k));
    }
    NoMoreTypes(shape);
  }

  lemma SingleType(shape: Shape)
    ensures !shape.Struct? ==> Types(LeafShapes(shape)) == [TypeName(shape)]
  {
  }

  lemma NextTypes(shape: Shape, k: nat)
    requires shape.Struct? && k < |shape.fields|
    ensures Types(LeafShapesFrom(shape, k))
         == Types(LeafShapes(shape.fields[k].shape)) + Types(LeafShapesFrom(shape, k + 1))
  {
  }

  lemma NoMoreTypes(shape: Shape)
    requires shape.Struct?
    ensures Types(LeafShapesFrom(shape, |shape.fields|)) == []
    ensures Types(LeafShapes(shape)) == Types(LeafShapesFrom(shape, 0))
  {
  }

  // ---- what the columns are: the scalar members, found by following member positions from the outside in

  type Path = seq<nat>

  /** The member a path leads to. */
  ghost predicate LeadsTo(from: Field, path: Path, to: Field)
    decreases path
  {
    if path == [] then from == to
    else from.shape.Struct? && path[0] < |from.shape.fields| && LeadsTo(from.shape.fields[path[0]], path[1..], to)
  }

  /** The value found there. */
  ghost function ValueAt(from: Field, value: Value, path: Path, to: Field): Value
    requires Conforms(from.shape, value) && LeadsTo(from, path, to)
    decreases path
  {
    if path == [] then value else ValueAt(from.shape.fields[path[0]], value.members[path[0]], path[1..], to)
  }

  ghost function Paths(shape: Shape): (r: seq<Path>)
    ensures |r| == |LeafShapes(shape)|
    decreases shape, FieldCount(shape) + 1
  {
    if shape.Struct? then PathsFrom(shape, 0) else [[]]
  }

  ghost function PathsFrom(shape: Shape, k: nat): (r: seq<Path>)
    requires shape.Struct? && k <= |shape.fields|
    ensures |r| == |LeafShapesFrom(shape, k)|
    ensures forall i | 0 <= i < |r| :: |r[i]| > 0 && k <= r[i][0] < |shape.fields|
    decreases shape, |shape.fields| - k
  {
    if k == |shape.fields| then []
    else
      var inner := Paths(shape.fields[k].shape);
      seq(|inner|, i requires 0 <= i < |inner| => [k] + inner[i]) + PathsFrom(shape, k + 1)
  }

  /** Column i, its name, its type and the value stored in it all belong to the same scalar member. */
  lemma {:induction false} ColumnsAgree(from: Field, value: Value, i: nat)
    requires Conforms(from.shape, value) && i < |LeafShapes(from.shape)|
    ensures var to := Field(Names(from.shape, from.name)[i], LeafShapes(from.shape)[i]);
            LeadsTo(from, Paths(from.shape)[i], to)
            && ValueAt(from, value, Paths(from.shape)[i], to) == Leaves(from.shape, value)[i]
    decreases from.shape, FieldCount(from.shape) + 1
  {
    if from.shape.Struct? {
      ColumnsAgreeFrom(from, value, 0, i);
    }
  }

  lemma {:induction false} ColumnsAgreeFrom(from: Field, value: Value, k: nat, i: nat)
    requires Conforms(from.shape, value) && from.shape.Struct? && k <= |from.shape.fields|
    requires i < |LeafShapesFrom(from.shape, k)|
    ensures var to := Field(NamesFrom(from.shape, k)[i], LeafShapesFrom(from.shape, k)[i]);
            LeadsTo(from, PathsFrom(from.shape, k)[i], to)
            && ValueAt(from, value, PathsFrom(from.shape, k)[i], to) == LeavesFrom(from.shape, value, k)[i]
    decreases from.shape, |from.shape.fields| - k
  {
    var field := from.shape.fields[k];
    var n := |LeafShapes(field.shape)|;
    if i < n {
      ColumnsAgree(field, value.members[k], i);
      HeadColumn(from, value, k, i);
    } else {
      ColumnsAgreeFrom(from, value, k + 1, i - n);
    }
  }

  /** The first columns are those of the first member, one step further in. */
  lemma HeadColumn(from: Field, value: Value, k: nat, i: nat)
    requires Conforms(from.shape, value) && from.shape.Struct? && k < |from.shape.fields|
    requires i < |LeafShapes(from.shape.fields[k].shape)| && i < |LeafShapesFrom(from.shape, k)|
    ensures var field := from.shape.fields[k];
            var to := Field(NamesFrom(from.shape, k)[i], LeafShapesFrom(from.shape, k)[i]);
            && to == Field(Names(field.shape, field.name)[i], LeafShapes(field.shape)[i])
            && LeavesFrom(from.shape, value, k)[i] == Leaves(field.shape, value.members[k])[i]
            && (LeadsTo(field, Paths(field.shape)[i], to) ==>
                  LeadsTo(from, PathsFrom(from.shape, k)[i], to)
                  && ValueAt(from, value, PathsFrom(from.shape, k)[i], to)
                  == ValueAt(field, value.members[k], Paths(field.shape)[i], to))
  {
    var path := PathsFrom(from.shape, k)[i];
    assert path == [k] + Paths(from.shape.fields[k].shape)[i];
    assert path[1..] == Paths(from.shape.fields[k].shape)[i];
  }

  /** Column i of a table belongs to the scalar member its path leads to: it has that member's name, the SQL type of
      the member's type, and for each value it holds the number, text or bytes found there, numbers modulo 2^64. */
  lemma ColumnMeaning(from: Field, value: Value, i: nat)
    requires Conforms(from.shape, value) && i < |LeafShapes(from.shape)|
    ensures var to := Field(Names(from.shape, from.name)[i], LeafShapes(from.shape)[i]);
            && LeadsTo(from, Paths(from.shape)[i], to)
            && var member, cell, typeName := ValueAt(from, value, Paths(from.shape)[i], to),
                                             Flatten(from.shape, value)[i], Types(LeafShapes(from.shape))[i];
               match to.shape
               case Integral(_, _) =>
                 && typeName == "INT" && member.Number? && cell.IntCell?
                 && -0x8000_0000_0000_0000 <= cell.n < 0x8000_0000_0000_0000
                 && exists q: int :: member.n == cell.n + q * 0x1_0000_0000_0000_0000
               case Text => typeName == "TEXT" && member.Bytes? && cell == TextCell(member.bytes)
               case Blob => typeName == "BLOB" && member.Bytes? && cell == BlobCell(member.bytes)
               case Struct(_) => false
  {
    ColumnsAgree(from, value, i);
    hide LeadsTo, ValueAt, Paths, Narrow;
    var leaf, member := LeafShapes(from.shape)[i], Leaves(from.shape, value)[i];
    assert Flatten(from.shape, value)[i] == Encode(leaf, member);
    if leaf.Integral? {
      StoredNumber(member.n);
    }
  }

  lemma StoredNumber(x: int)
    ensures -0x8000_0000_0000_0000 <= Narrow(64, true, x) < 0x8000_0000_0000_0000
    ensures exists q: int :: x == Narrow(64, true, x) + q * 0x1_0000_0000_0000_0000
  {
    SixtyFourBits();
    var q := NarrowCongruent(64, true, x);
  }

  lemma SixtyFourBits()
    ensures Pow2(63) == 0x8000_0000_0000_0000 && Pow2(64) == 0x1_0000_0000_0000_0000
  {
    SmallPowers();
    hide Pow2;
    Squared(4, 8, 16);
    Squared(8, 16, 0x100);
    Squared(16, 32, 0x1_0000);
    Squared(32, 64, 0x1_0000_0000);
    Pow2Add(1, 63);
  }

  lemma SmallPowers()
    ensures Pow2(1) == 2 && Pow2(4) == 16
  {
  }

  lemma Squared(n: nat, m: nat, x: nat)
    requires m == n + n && Pow2(n) == x
    ensures Pow2(m) == x * x
  {
    hide Pow2;
    Pow2Add(n, n);
  }

  /** Every scalar member has a column. */
  lemma {:induction false} ColumnsComplete(from: Field, path: Path, to: Field)
    requires LeadsTo(from, path, to) && !to.shape.Struct?
    ensures path in Paths(from.shape)
    decreases path, 0
  {
    if path != [] {
      ColumnsComplete(from.shape.fields[path[0]], path[1..], to);
      ColumnsCompleteFrom(from.shape, 0, path);
    }
  }

  lemma {:induction false} ColumnsCompleteFrom(shape: Shape, k: nat, path: Path)
    requires shape.Struct? && path != [] && k <= path[0] < |shape.fields|
    requires path[1..] in Paths(shape.fields[path[0]].shape)
    ensures path in PathsFrom(shape, k)
    decreases path[0] - k
  {
    hide LeadsTo;
    var inner := Paths(shape.fields[k].shape);
    var here := seq(|inner|, i requires 0 <= i < |inner| => [k] + inner[i]);
    assert PathsFrom(shape, k) == here + PathsFrom(shape, k + 1);
    if k == path[0] {
      var i: nat :| i < |inner| && inner[i] == path[1..];
      assert here[i] == [k] + inner[i] == path;
    } else {
      ColumnsCompleteFrom(shape, k + 1, path);
    }
  }

  function Before(): (nat, nat) -> bool {
    (x: nat, y: nat) => x < y
  }

  /** Columns come in declaration order, the members of a nested struct in its place. */
  lemma {:induction false} ColumnsInOrder(shape: Shape, i: nat, j: nat)
    requires i < j < |Paths(shape)|
    ensures LexLess(Before(), Paths(shape)[i], Paths(shape)[j])
    decreases shape, FieldCount(shape) + 1
  {
    if shape.Struct? {
      ColumnsInOrderFrom(shape, 0, i, j);
    }
  }

  lemma {:induction false} ColumnsInOrderFrom(shape: Shape, k: nat, i: nat, j: nat)
    requires shape.Struct? && k <= |shape.fields| && i < j < |PathsFrom(shape, k)|
    ensures LexLess(Before(), PathsFrom(shape, k)[i], PathsFrom(shape, k)[j])
    decreases shape, |shape.fields| - k
  {
    hide *;
    PathsNonEmpty(shape, k);
    PathAt(shape, k, i);
    PathAt(shape, k, j);
    var inner := Paths(shape.fields[k].shape);
    var n := |inner|;
    if j < n {
      ColumnsInOrder(shape.fields[k].shape, i, j);
      SameMember(k, inner[i], inner[j]);
    } else if i < n {
      EarlierMember(k, inner[i], PathsFrom(shape, k + 1)[j - n]);
    } else {
      ColumnsInOrderFrom(shape, k + 1, i - n, j - n);
    }
  }

  lemma PathsNonEmpty(shape: Shape, k: nat)
    requires shape.Struct? && k <= |shape.fields| && |PathsFrom(shape, k)| > 0
    ensures k < |shape.fields|
  {
  }

  /** The paths from member k on are those through it and those from the next member on. */
  lemma PathAt(shape: Shape, k: nat, i: nat)
    requires shape.Struct? && k < |shape.fields| && i < |PathsFrom(shape, k)|
    ensures var inner := Paths(shape.fields[k].shape);
            && |PathsFrom(shape, k)| == |inner| + |PathsFrom(shape, k + 1)|
            && PathsFrom(shape, k)[i] == if i < |inner| then [k] + inner[i] else PathsFrom(shape, k + 1)[i - |inner|]
  {
  }

  lemma SameMember(k: nat, a: Path, b: Path)
    requires LexLess(Before(), a, b)
    ensures LexLess(Before(), [k] + a, [k] + b)
  {
    LexConcat(Before(), [k], a, [k], b);
  }

  lemma EarlierMember(k: nat, inside: Path, other: Path)
    requires other != [] && k < other[0]
    ensures LexLess(Before(), [k] + inside, other)
  {
    assert DecidedAt(Before(), [k] + inside, other, 0);
  }

  // ---- comparison

  function ByteLess(): (byte, byte) -> bool {
    (x: byte, y: byte) => x < y
  }

  /** The comparison generated by the macro: member by member, the first difference decides. */
  ghost predicate Less(shape: Shape, a: Value, b: Value)
    requires Conforms(shape, a) && Conforms(shape, b)
    decreases shape, FieldCount(shape) + 1
  {
    match shape
    case Integral(_, _) => a.n < b.n
    case Text => LexLess(ByteLess(), a.bytes, b.bytes)
    case Blob => LexLess(ByteLess(), a.bytes, b.bytes)
    case Struct(_) => LessFrom(shape, a, b, 0)
  }

  ghost predicate LessFrom(shape: Shape, a: Value, b: Value, k: nat)
    requires Conforms(shape, a) && Conforms(shape, b) && shape.Struct? && k <= |shape.fields|
    decreases shape, |shape.fields| - k
  {
    if k == |shape.fields| then false
    else if Less(shape.fields[k].shape, a.members[k], b.members[k]) then true
    else if Less(shape.fields[k].shape, b.members[k], a.members[k]) then false
    else LessFrom(shape, a, b, k + 1)
  }

  /** Comparison of two scalars of the same type. */
  ghost predicate ScalarLess(a: Value, b: Value) {
    match (a, b)
    case (Number(x), Number(y)) => x < y
    case (Bytes(s), Bytes(t)) => LexLess(ByteLess(), s, t)
    case _ => false
  }

  ghost function LeafLess(): (Value, Value) -> bool {
    (a: Value, b: Value) => ScalarLess(a, b)
  }

  lemma ScalarOrder(a: Value, b: Value, c: Value)
    ensures !ScalarLess(a, a)
    ensures ScalarLess(a, b) && ScalarLess(b, c) ==> ScalarLess(a, c)
    ensures (a.Number? && b.Number?) || (a.Bytes? && b.Bytes?) ==> a == b || ScalarLess(a, b) || ScalarLess(b, a)
  {
    if a.Bytes? {
      LexIrreflexive(ByteLess(), a.bytes);
      if b.Bytes? {
        LexTotal(ByteLess(), a.bytes, b.bytes);
        if ScalarLess(a, b) && ScalarLess(b, c) {
          LexTransitive(ByteLess(), a.bytes, b.bytes, c.bytes);
        }
      }
    }
  }

  /** Leaves of two values of one type: one of them is less, or they are the same. */
  lemma LeavesComparable(leaves: seq<Shape>, a: seq<Value>, b: seq<Value>)
    requires |a| == |leaves| && |b| == |leaves|
    requires forall i | 0 <= i < |leaves| :: !leaves[i].Struct? && Conforms(leaves[i], a[i]) && Conforms(leaves[i], b[i])
    ensures a == b || LexLess(LeafLess(), a, b) || LexLess(LeafLess(), b, a)
  {
    forall i | 0 <= i < |leaves| ensures a[i] == b[i] || ScalarLess(a[i], b[i]) || ScalarLess(b[i], a[i]) {
      ScalarOrder(a[i], b[i], b[i]);
    }
    LexTotal(LeafLess(), a, b);
  }

  lemma LeavesIrreflexive(a: seq<Value>)
    ensures !LexLess(LeafLess(), a, a)
  {
    forall i | 0 <= i < |a| ensures !ScalarLess(a[i], a[i]) {
      ScalarOrder(a[i], a[i], a[i]);
    }
    LexIrreflexive(LeafLess(), a);
  }

  lemma LeavesTransitive(a: seq<Value>, b: seq<Value>, c: seq<Value>)
    requires LexLess(LeafLess(), a, b) && LexLess(LeafLess(), b, c)
    ensures LexLess(LeafLess(), a, c)
  {
    forall i | 0 <= i < |a| && i < |b| && i < |c|
      ensures ScalarLess(a[i], b[i]) && ScalarLess(b[i], c[i]) ==> ScalarLess(a[i], c[i])
    {
      ScalarOrder(a[i], b[i], c[i]);
    }
    LexTransitive(LeafLess(), a, b, c);
  }

  /** The generated comparison is the lexicographic order of the flattened scalars, whatever the nesting. */
  lemma {:induction false} LessIsLexicographic(shape: Shape, a: Value, b: Value)
    requires Conforms(shape, a) && Conforms(shape, b)
    ensures Less(shape, a, b) <==> LexLess(LeafLess(), Leaves(shape, a), Leaves(shape, b))
    decreases shape, FieldCount(shape) + 1
  {
    if shape.Struct? {
      LessFromIsLexicographic(shape, a, b, 0);
    } else {
      assert Less(shape, a, b) <==> ScalarLess(a, b);
      if Less(shape, a, b) {
        assert DecidedAt(LeafLess(), [a], [b], 0);
      }
    }
  }

  lemma {:induction false} LessFromIsLexicographic(shape: Shape, a: Value, b: Value, k: nat)
    requires Conforms(shape, a) && Conforms(shape, b) && shape.Struct? && k <= |shape.fields|
    ensures LessFrom(shape, a, b, k) <==> LexLess(LeafLess(), LeavesFrom(shape, a, k), LeavesFrom(shape, b, k))
    decreases shape, |shape.fields| - k
  {
    if k < |shape.fields| {
      var field := shape.fields[k].shape;
      var x, y := Leaves(field, a.members[k]), Leaves(field, b.members[k]);
      LessIsLexicographic(field, a.members[k], b.members[k]);
      LessIsLexicographic(field, b.members[k], a.members[k]);
      LessFromIsLexicographic(shape, a, b, k + 1);
      LexConcat(LeafLess(), x, LeavesFrom(shape, a, k + 1), y, LeavesFrom(shape, b, k + 1));
      LeavesComparable(LeafShapes(field), x, y);
      LeavesIrreflexive(x);
      if LexLess(LeafLess(), x, y) && LexLess(LeafLess(), y, x) {
        LeavesTransitive(x, y, x);
      }
    }
  }

  /** One sequence of bytes comes before another: at the first difference its byte is smaller, or it ends there. */
  ghost predicate BytesBefore(a: seq<byte>, b: seq<byte>) {
    exists k: nat | k <= |a| && k < |b| :: a[..k] == b[..k] && (k == |a| || a[k] < b[k])
  }

  /** Leaf i is the first in which two values differ, and there the first has the smaller number or the earlier bytes. */
  ghost predicate FirstDiffers(shape: Shape, a: Value, b: Value, i: nat)
    requires Conforms(shape, a) && Conforms(shape, b) && i < |LeafShapes(shape)|
  {
    var x, y := Leaves(shape, a), Leaves(shape, b);
    && (forall j | 0 <= j < i :: x[j] == y[j])
    && if LeafShapes(shape)[i].Integral? then x[i].n < y[i].n else BytesBefore(x[i].bytes, y[i].bytes)
  }

  lemma BytesBeforeIs(a: seq<byte>, b: seq<byte>)
    ensures LexLess(ByteLess(), a, b) <==> BytesBefore(a, b)
  {
    if k: nat :| DecidedAt(ByteLess(), a, b, k) {
      assert k <= |a| && k < |b| && a[..k] == b[..k] && (k == |a| || a[k] < b[k]);
    }
    if k: nat :| k <= |a| && k < |b| && a[..k] == b[..k] && (k == |a| || a[k] < b[k]) {
      assert DecidedAt(ByteLess(), a, b, k);
    }
  }

  /** The comparison in full: the first leaf that differs decides. */
  lemma LessExactly(shape: Shape, a: Value, b: Value)
    requires Conforms(shape, a) && Conforms(shape, b)
    ensures Less(shape, a, b) <==> exists i: nat | i < |LeafShapes(shape)| :: FirstDiffers(shape, a, b, i)
  {
    hide LeafShapes, Leaves, Conforms, Less, LexLess, DecidedAt;
    LessIsLexicographic(shape, a, b);
    var x, y := Leaves(shape, a), Leaves(shape, b);
    if LexLess(LeafLess(), x, y) {
      var k := LexDecides(LeafLess(), x, y);
      LeafDecides(shape, a, b, k);
    }
    if i: nat :| i < |LeafShapes(shape)| && FirstDiffers(shape, a, b, i) {
      LeafDecides(shape, a, b, i);
      LexDecided(LeafLess(), x, y, i);
    }
  }

  lemma LexDecides<T(!new)>(less: (T, T) -> bool, a: seq<T>, b: seq<T>) returns (k: nat)
    requires LexLess(less, a, b)
    ensures DecidedAt(less, a, b, k) && k <= |a| && k < |b|
  {
    k :| DecidedAt(less, a, b, k);
  }

  lemma LexDecided<T(!new)>(less: (T, T) -> bool, a: seq<T>, b: seq<T>, k: nat)
    requires DecidedAt(less, a, b, k)
    ensures LexLess(less, a, b)
  {
  }

  lemma LeafDecides(shape: Shape, a: Value, b: Value, i: nat)
    requires Conforms(shape, a) && Conforms(shape, b) && i < |LeafShapes(shape)|
    ensures FirstDiffers(shape, a, b, i) <==> DecidedAt(LeafLess(), Leaves(shape, a), Leaves(shape, b), i)
  {
    hide LeafShapes, Leaves, BytesBefore, LexLess;
    var x, y := Leaves(shape, a), Leaves(shape, b);
    assert Conforms(LeafShapes(shape)[i], x[i]) && Conforms(LeafShapes(shape)[i], y[i]);
    if x[i].Bytes? && y[i].Bytes? {
      BytesBeforeIs(x[i].bytes, y[i].bytes);
    }
    assert x[..i] == y[..i] <==> forall j | 0 <= j < i :: x[j] == y[j] by {
      if x[..i] == y[..i] {
        forall j | 0 <= j < i ensures x[j] == y[j] {
          assert x[..i][j] == y[..i][j];
        }
      }
    }
  }

  /** It is a strict total order, so values can be kept in ordered containers. */
  lemma LessIsStrictTotalOrder(shape: Shape, a: Value, b: Value, c: Value)
    requires Conforms(shape, a) && Conforms(shape, b) && Conforms(shape, c)
    ensures !Less(shape, a, a)
    ensures Less(shape, a, b) && Less(shape, b, c) ==> Less(shape, a, c)
    ensures Less(shape, a, b) || Less(shape, b, a) || a == b
    ensures !(Less(shape, a, b) && Less(shape, b, a))
  {
    var x, y, z := Leaves(shape, a), Leaves(shape, b), Leaves(shape, c);
    LessIsLexicographic(shape, a, a);
    LessIsLexicographic(shape, a, b);
    LessIsLexicographic(shape, b, a);
    LessIsLexicographic(shape, b, c);
    LessIsLexicographic(shape, a, c);
    LeavesIrreflexive(x);
    LeavesComparable(LeafShapes(shape), x, y);
    if x == y {
      LeavesInjective(shape, a, b);
    }
    if Less(shape, a, b) && Less(shape, b, c) {
      LeavesTransitive(x, y, z);
    }
    if Less(shape, a, b) && Less(shape, b, a) {
      LeavesTransitive(x, y, x);
    }
  }
}
