/** The catalog records of Main.java: attributes, tables and index descriptors. */
module Catalog {

  /** Type codes: -1 is int, 0 is float, a positive n is char(n). */
  const INT_TYPE: int := -1
  const FLOAT_TYPE: int := 0

  datatype Attribute = Attribute(
    name: string,
    attrType: int,
    length: int,
    isPrimaryKey: bool,
    isUnique: bool,
    index: string)     // the name of the index on this column, "" for none

  datatype Table = Table(
    name: string,
    blockNum: int,
    attrNum: int,
    totalLength: int,
    nextInsertBlock: int,
    attributes: seq<Attribute>)

  datatype Index = Index(
    indexName: string,
    tableName: string,
    columnIndex: int,
    columnLength: int,
    blockNum: int,
    rootBlockOffset: int)

  /** The `Attribute(n, t, isPr, isUn, idx)` constructor: numeric columns take four bytes,
      any other type code is taken as its own length. */
  function NewAttribute(n: string, t: int, isPr: bool, isUn: bool, idx: string): (a: Attribute)
    ensures a.name == n && a.attrType == t && a.index == idx
    ensures a.isPrimaryKey == isPr && a.isUnique == isUn
    ensures (t == INT_TYPE || t == FLOAT_TYPE) ==> a.length == 4
    ensures t > 0 ==> a.length == t
    ensures t < INT_TYPE ==> a.length == t
  {
    var len := match t { case -1 => 4 case 0 => 4 case _ => t };
    Attribute(n, t, len, isPr, isUn, idx)
  }

  /** The per-column width the Table constructor adds up. */
  function ColumnWidth(t: int): int { if t <= 0 then 4 else t }

  function SumWidths(attrs: seq<Attribute>): int
  {
    if |attrs| == 0 then 0 else SumWidths(attrs[..|attrs| - 1]) + ColumnWidth(attrs[|attrs| - 1].attrType)
  }

  function SumLengths(attrs: seq<Attribute>): int
  {
    if |attrs| == 0 then 0 else SumLengths(attrs[..|attrs| - 1]) + attrs[|attrs| - 1].length
  }

  /** Every attribute was built by the constructor and has a type code of at least -1. */
  predicate WellTyped(attrs: seq<Attribute>)
  {
    forall i :: 0 <= i < |attrs| ==>
      attrs[i].attrType >= INT_TYPE &&
      attrs[i] == NewAttribute(attrs[i].name, attrs[i].attrType, attrs[i].isPrimaryKey,
                               attrs[i].isUnique, attrs[i].index)
  }

  /** `Table(name, attributes)`. */
  function NewTable(name: string, attrs: seq<Attribute>): (t: Table)
    ensures t.name == name && t.attributes == attrs
    ensures t.attrNum == |attrs|
    ensures t.blockNum == 0 && t.nextInsertBlock == 0
    ensures t.totalLength == SumWidths(attrs)
  {
    Table(name, 0, |attrs|, SumWidths(attrs), 0, attrs)
  }

  /** For constructor-built attributes of type at least -1, the table's record length is the
      sum of the attributes' lengths, so records and column offsets agree. */
  lemma {:induction false} TotalLengthIsSumOfLengths(attrs: seq<Attribute>)
    requires WellTyped(attrs)
    ensures NewTable("", attrs).totalLength == SumLengths(attrs)
  {
    SumWidthsIsSumLengths(attrs);
  }

  lemma {:induction false} SumWidthsIsSumLengths(attrs: seq<Attribute>)
    requires WellTyped(attrs)
    ensures SumWidths(attrs) == SumLengths(attrs)
  {
    if |attrs| > 0 {
      var init := attrs[..|attrs| - 1];
      assert WellTyped(init) by {
        forall i | 0 <= i < |init| ensures init[i] == attrs[i] { }
      }
      SumWidthsIsSumLengths(init);
      assert attrs[|attrs| - 1].attrType >= INT_TYPE;
    }
  }

  /** `Index(indexName, tableName)`. */
  function NewIndex(indexName: string, tableName: string): (x: Index)
    ensures x.indexName == indexName && x.tableName == tableName
    ensures x.columnIndex == 0 && x.columnLength == 0
    ensures x.blockNum == 0 && x.rootBlockOffset == 0
  {
    Index(indexName, tableName, 0, 0, 0, 0)
  }
}
