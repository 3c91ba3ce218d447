/** The four key and value structs that the library stores (src/cache_types.h:46-143,
    src/cache_types.cpp:47-103). */
module CacheTypes {
  import opened Database
  import opened Reflection
  import opened Cache

  const SIZE := Integral(64, false)
  const UINT := Integral(32, false)

  function DeviceKey(): Shape {
    Struct([Field("platformName", Text), Field("deviceName", Text),
            Field("deviceVendorId", UINT), Field("driverVersion", Text)])
  }

  function KernelKey(): Shape {
    Struct([Field("device", DeviceKey()), Field("header", Text), Field("checksum", Text)])
  }

  function KernelValue(): Shape {
    Struct([Field("binary", Blob)])
  }

  /** Scan and reduction have the same form of key. */
  function ElementKey(): Shape {
    Struct([Field("device", DeviceKey()), Field("elementType", Text)])
  }

  function ScanValue(): Shape {
    Struct([Field("warpSizeMem", SIZE), Field("warpSizeSchedule", SIZE), Field("reduceWorkGroupSize", SIZE),
            Field("scanWorkGroupSize", SIZE), Field("scanWorkScale", SIZE), Field("scanBlocks", SIZE)])
  }

  function ReduceValue(): Shape {
    Struct([Field("reduceWorkGroupSize", SIZE), Field("reduceBlocks", SIZE)])
  }

  function RadixsortKey(): Shape {
    Struct([Field("device", DeviceKey()), Field("keyType", Text), Field("valueSize", SIZE)])
  }

  function RadixsortValue(): Shape {
    Struct([Field("warpSizeMem", SIZE), Field("warpSizeSchedule", SIZE), Field("reduceWorkGroupSize", SIZE),
            Field("scanWorkGroupSize", SIZE), Field("scatterWorkGroupSize", SIZE), Field("scatterWorkScale", SIZE),
            Field("scanBlocks", SIZE), Field("radixBits", UINT)])
  }

  /** A struct of scalars only. */
  predicate Flat(shape: Shape) {
    shape.Struct? && forall i | 0 <= i < |shape.fields| :: !shape.fields[i].shape.Struct?
  }

  function FieldNamesFrom(shape: Shape, k: nat): seq<string>
    requires shape.Struct? && k <= |shape.fields|
  {
    seq(|shape.fields| - k, i requires 0 <= i < |shape.fields| - k => shape.fields[k + i].name)
  }

  lemma {:induction false} FlatNames(shape: Shape, k: nat)
    requires Flat(shape) && k <= |shape.fields|
    ensures NamesFrom(shape, k) == FieldNamesFrom(shape, k)
    decreases |shape.fields| - k
  {
    hide Names, NamesFrom, FieldNamesFrom, LeafShapes, LeafShapesFrom;
    if k < |shape.fields| {
      FlatNames(shape, k + 1);
      ScalarMember(shape, k);
    } else {
      NoMembers(shape);
    }
  }

  /** A scalar member has one column. */
  lemma ScalarMember(shape: Shape, k: nat)
    requires shape.Struct? && k < |shape.fields| && !shape.fields[k].shape.Struct?
    ensures NamesFrom(shape, k) == [shape.fields[k].name] + NamesFrom(shape, k + 1)
    ensures FieldNamesFrom(shape, k) == [shape.fields[k].name] + FieldNamesFrom(shape, k + 1)
  {
  }

  lemma NoMembers(shape: Shape)
    requires shape.Struct?
    ensures NamesFrom(shape, |shape.fields|) == FieldNamesFrom(shape, |shape.fields|)
  {
  }

  /** A struct whose first member is flat and whose other members are scalars. */
  lemma HeadNames(shape: Shape)
    requires shape.Struct? && shape.fields != [] && Flat(shape.fields[0].shape) && Flat(Struct(shape.fields[1..]))
    ensures Names(shape, "") == FieldNamesFrom(shape.fields[0].shape, 0) + FieldNamesFrom(shape, 1)
  {
    FlatNames(shape.fields[0].shape, 0);
    TailNames(shape, 1);
    assert Names(shape, "") == Names(shape.fields[0].shape, shape.fields[0].name) + NamesFrom(shape, 1);
  }

  lemma {:induction false} TailNames(shape: Shape, k: nat)
    requires shape.Struct? && 1 <= k <= |shape.fields| && Flat(Struct(shape.fields[1..]))
    ensures NamesFrom(shape, k) == FieldNamesFrom(shape, k)
    decreases |shape.fields| - k
  {
    hide Names, NamesFrom, FieldNamesFrom, LeafShapes, LeafShapesFrom;
    if k < |shape.fields| {
      assert shape.fields[k] == shape.fields[1..][k - 1];
      TailNames(shape, k + 1);
      ScalarMember(shape, k);
    } else {
      NoMembers(shape);
    }
  }

  function KernelColumns(): seq<string> {
    ["platformName", "deviceName", "deviceVendorId", "driverVersion", "header", "checksum", "binary"]
  }

  lemma KernelNames()
    ensures Names(KernelKey(), "") + Names(KernelValue(), "") == KernelColumns()
  {
    HeadNames(KernelKey());
    FlatNames(KernelValue(), 0);
  }

  lemma KernelDistinct()
    ensures Distinct(KernelColumns())
  {
    var names := KernelColumns();
    assert |names[0]| == 12 && |names[1]| == 10 && |names[2]| == 14 && |names[3]| == 13;
    assert |names[4]| == 6 && |names[5]| == 8 && |names[6]| == 6;
    assert names[4][0] == 'h' && names[6][0] == 'b';
  }

  function ScanColumns(): seq<string> {
    ["platformName", "deviceName", "deviceVendorId", "driverVersion", "elementType", "warpSizeMem",
     "warpSizeSchedule", "reduceWorkGroupSize", "scanWorkGroupSize", "scanWorkScale", "scanBlocks"]
  }

  lemma ScanNames()
    ensures Names(ElementKey(), "") + Names(ScanValue(), "") == ScanColumns()
  {
    HeadNames(ElementKey());
    FlatNames(ScanValue(), 0);
  }

  lemma ScanDistinct()
    ensures Distinct(ScanColumns())
  {
    var names := ScanColumns();
    assert |names[0]| == 12 && |names[1]| == 10 && |names[2]| == 14 && |names[3]| == 13;
    assert |names[4]| == 11 && |names[5]| == 11 && |names[6]| == 16 && |names[7]| == 19;
    assert |names[8]| == 17 && |names[9]| == 13 && |names[10]| == 10;
    assert names[4][0] == 'e' && names[5][0] == 'w';
    assert names[1][0] == 'd' && names[10][0] == 's';
    assert names[3][0] == 'd' && names[9][0] == 's';
  }

  function ReduceColumns(): seq<string> {
    ["platformName", "deviceName", "deviceVendorId", "driverVersion", "elementType",
     "reduceWorkGroupSize", "reduceBlocks"]
  }

  lemma ReduceNames()
    ensures Names(ElementKey(), "") + Names(ReduceValue(), "") == ReduceColumns()
  {
    HeadNames(ElementKey());
    FlatNames(ReduceValue(), 0);
  }

  lemma ReduceDistinct()
    ensures Distinct(ReduceColumns())
  {
    var names := ReduceColumns();
    assert |names[0]| == 12 && |names[1]| == 10 && |names[2]| == 14 && |names[3]| == 13;
    assert |names[4]| == 11 && |names[5]| == 19 && |names[6]| == 12;
    assert names[0][0] == 'p' && names[6][0] == 'r';
  }

  function RadixsortColumns(): seq<string> {
    ["platformName", "deviceName", "deviceVendorId", "driverVersion", "keyType", "valueSize",
     "warpSizeMem", "warpSizeSchedule", "reduceWorkGroupSize", "scanWorkGroupSize",
     "scatterWorkGroupSize", "scatterWorkScale", "scanBlocks", "radixBits"]
  }

  lemma RadixsortKeyNames()
    ensures Names(RadixsortKey(), "") == RadixsortColumns()[..6]
  {
    HeadNames(RadixsortKey());
  }

  lemma RadixsortValueNames()
    ensures Names(RadixsortValue(), "") == RadixsortColumns()[6..]
  {
    FlatNames(RadixsortValue(), 0);
  }

  lemma RadixsortNames()
    ensures Names(RadixsortKey(), "") + Names(RadixsortValue(), "") == RadixsortColumns()
  {
    hide Names;
    RadixsortKeyNames();
    RadixsortValueNames();
  }

  lemma RadixsortDistinct()
    ensures Distinct(RadixsortColumns())
  {
    var names := RadixsortColumns();
    assert |names[0]| == 12 && |names[1]| == 10 && |names[2]| == 14 && |names[3]| == 13;
    assert |names[4]| == 7 && |names[5]| == 9 && |names[6]| == 11 && |names[7]| == 16;
    assert |names[8]| == 19 && |names[9]| == 17 && |names[10]| == 20 && |names[11]| == 16;
    assert |names[12]| == 10 && |names[13]| == 9;
    assert names[1][0] == 'd' && names[12][0] == 's';
    assert names[5][0] == 'v' && names[13][0] == 'r';
    assert names[7][0] == 'w' && names[11][0] == 's';
  }

  /** What the table constructor needs to succeed. */
  predicate Opens(keyShape: Shape, valueShape: Shape) {
    && Declarable(keyShape) && Declarable(valueShape)
    && Distinct(Names(keyShape, "") + Names(valueShape, ""))
  }

  lemma AllDeclared()
    ensures Declarable(KernelKey()) && Declarable(KernelValue()) && Declarable(ElementKey())
    ensures Declarable(ScanValue()) && Declarable(ReduceValue()) && Declarable(RadixsortKey())
    ensures Declarable(RadixsortValue())
  {
    FlatDeclared(DeviceKey());
    FlatDeclared(KernelValue());
    FlatDeclared(ScanValue());
    FlatDeclared(ReduceValue());
    FlatDeclared(RadixsortValue());
  }

  lemma FlatDeclared(shape: Shape)
    requires Flat(shape) && shape.fields != []
    ensures Declared(shape)
  {
  }

  /** All four tables of the library can be created, although nested names lose their prefix. */
  lemma ShippedTablesOpen()
    ensures Opens(KernelKey(), KernelValue()) && Opens(ElementKey(), ScanValue())
    ensures Opens(ElementKey(), ReduceValue()) && Opens(RadixsortKey(), RadixsortValue())
  {
    hide Names, Distinct, Declared;
    AllDeclared();
    KernelNames();
    KernelDistinct();
    ScanNames();
    ScanDistinct();
    ReduceNames();
    ReduceDistinct();
    RadixsortNames();
    RadixsortDistinct();
  }

  lemma {:induction false} NameInside(shape: Shape, j: nat, k: nat, name: string)
    requires shape.Struct? && j <= k < |shape.fields|
    requires name in Names(shape.fields[k].shape, shape.fields[k].name)
    ensures name in NamesFrom(shape, j)
    decreases k - j
  {
    hide *;
    if j < k {
      NameInside(shape, j + 1, k, name);
    }
    InsideStep(shape, j, name);
  }

  lemma InsideStep(shape: Shape, j: nat, name: string)
    requires shape.Struct? && j < |shape.fields|
    requires name in Names(shape.fields[j].shape, shape.fields[j].name) || name in NamesFrom(shape, j + 1)
    ensures name in NamesFrom(shape, j)
  {
    assert NamesFrom(shape, j) == Names(shape.fields[j].shape, shape.fields[j].name) + NamesFrom(shape, j + 1);
  }

  lemma {:induction false} ClashBelow(shape: Shape, i: nat, k: nat)
    requires shape.Struct? && i <= k <= |shape.fields| && !Distinct(NamesFrom(shape, k))
    ensures !Distinct(NamesFrom(shape, i))
    decreases k - i
  {
    if i < k {
      ClashBelow(shape, i + 1, k);
      ClashAppended(Names(shape.fields[i].shape, shape.fields[i].name), NamesFrom(shape, i + 1));
    }
  }

  lemma ClashAppended(front: seq<string>, names: seq<string>)
    requires !Distinct(names)
    ensures !Distinct(front + names)
  {
    var i: nat, j: nat :| i < j < |names| && names[i] == names[j];
    var all := front + names;
    assert all[|front| + i] == names[i] && all[|front| + j] == names[j];
  }

  /** A struct that nests two members of the same struct type cannot be stored: their columns would have the
      same names. */
  lemma SameStructTwice(shape: Shape, i: nat, j: nat)
    requires Declarable(shape) && i < j < |shape.fields|
    requires shape.fields[i].shape == shape.fields[j].shape && shape.fields[i].shape.Struct?
    ensures !Distinct(Names(shape, ""))
  {
    var inner := shape.fields[i].shape;
    HasLeaf(inner);
    var name := Names(inner, "")[0];
    assert Names(inner, shape.fields[i].name) == Names(inner, "") == Names(inner, shape.fields[j].name);
    NameInside(shape, i + 1, j, name);
    var m: nat :| m < |NamesFrom(shape, i + 1)| && NamesFrom(shape, i + 1)[m] == name;
    assert NamesFrom(shape, i) == Names(inner, "") + NamesFrom(shape, i + 1);
    assert NamesFrom(shape, i)[0] == NamesFrom(shape, i)[|Names(inner, "")| + m];
    ClashBelow(shape, 0, i);
  }
}
