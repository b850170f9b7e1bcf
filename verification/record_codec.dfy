/** Turning a row of literals into record bytes: RecordManager.getColumnBytes and
    getInsertBytes. `Float.parseFloat` is not part of this model; it is passed in as
    `parseFloatBits`, which yields the IEEE-754 bit pattern of a float literal or `None`. */
module RecordCodec {
  import opened Wrappers
  import opened Bytes
  import opened JavaText
  import opened Catalog
  import IndexColumn

  type FloatParser = string -> Option<int>

  const QUOTE: char := 39 as char

  /** `String.getBytes` on the characters the model admits: one byte per character. */
  function CharBytes(s: string): (r: seq<uint8>)
    ensures |r| == |s|
    ensures forall i :: 0 <= i < |s| ==> r[i] == (s[i] as int) % 256
  {
    seq(|s|, i requires 0 <= i < |s| => (s[i] as int) % 256)
  }

  /** `column.replaceAll("'", "")`: every quote removed, not only the outer two. */
  function StripQuotes(s: string): (r: string)
    ensures QUOTE !in r
    ensures |r| <= |s|
  {
    if |s| == 0 then ""
    else if s[0] == QUOTE then StripQuotes(s[1..])
    else [s[0]] + StripQuotes(s[1..])
  }

  /** A char literal must start and end with a quote ("'" alone does both). */
  predicate Quoted(s: string) { |s| > 0 && s[0] == QUOTE && s[|s| - 1] == QUOTE }

  /** getColumnBytes. */
  function ColumnBytes(column: string, attr: Attribute, parseFloatBits: FloatParser): (r: Result<seq<uint8>>)
    ensures r.Failure? ==> r.error == AttributeFormat
    ensures attr.attrType == INT_TYPE ==>
      (r.Success? <==> ParseInt(column).Some?) &&
      (r.Success? ==> |r.value| == 4 && DecodeInt32(r.value) == ParseInt(column).value)
    ensures attr.attrType == FLOAT_TYPE ==>
      (r.Success? <==> parseFloatBits(column).Some?) && (r.Success? ==> |r.value| == 4)
    ensures attr.attrType != INT_TYPE && attr.attrType != FLOAT_TYPE ==>
      (r.Success? <==> Quoted(column)) &&
      (r.Success? ==> r.value == CharBytes(StripQuotes(column)))
  {
    if attr.attrType == INT_TYPE then
      match ParseInt(column)
      case None => Failure(AttributeFormat)
      case Some(v) => Int32RoundTrip(v); Success(EncodeInt32(v))
    else if attr.attrType == FLOAT_TYPE then
      match parseFloatBits(column)
      case None => Failure(AttributeFormat)
      case Some(bits) => Success(EncodeInt32(bits))
    else if !Quoted(column) then Failure(AttributeFormat)
    else Success(CharBytes(StripQuotes(column)))
  }

  /** The copy loop of getInsertBytes AS WRITTEN: each column's bytes are copied at the
      running `index`, which then advances by the length of those bytes, not by the
      column's declared length. */
  function FillAsWritten(buf: seq<uint8>, index: int, row: seq<string>, attrs: seq<Attribute>,
                         i: nat, parseFloatBits: FloatParser): (r: Result<seq<uint8>>)
    requires |row| == |attrs| && i <= |attrs|
    ensures r.Success? ==> |r.value| == |buf|
    decreases |attrs| - i
  {
    if i == |attrs| then Success(buf)
    else
      var cb :- ColumnBytes(row[i], attrs[i], parseFloatBits);
      match CopyInto(buf, index, cb)
      case None => Failure(IndexOutOfBounds)
      case Some(buf') => FillAsWritten(buf', index + |cb|, row, attrs, i + 1, parseFloatBits)
  }

  /** getInsertBytes AS WRITTEN. */
  function InsertBytesAsWritten(table: Table, row: seq<string>, parseFloatBits: FloatParser): (r: Result<seq<uint8>>)
    requires table.totalLength >= 0
    ensures |row| != |table.attributes| ==> r == Failure(AttributeNumber)
    ensures r.Success? ==> |r.value| == table.totalLength
  {
    if |row| != |table.attributes| then Failure(AttributeNumber)
    else FillAsWritten(Zeros(table.totalLength), 0, row, table.attributes, 0, parseFloatBits)
  }

  /** A literal that encodes and whose bytes fit the column's declared length. */
  predicate ColumnFits(column: string, attr: Attribute, parseFloatBits: FloatParser)
  {
    && ColumnBytes(column, attr, parseFloatBits).Success?
    && |ColumnBytes(column, attr, parseFloatBits).value| <= attr.length
  }

  /** With no negative lengths, column i lies inside a record of the summed length. */
  lemma ColumnWithinRecord(attrs: seq<Attribute>, i: nat)
    requires i < |attrs|
    ensures NonNegativeLengths(attrs) ==>
      0 <= IndexColumn.ColumnStart(attrs, i) &&
      IndexColumn.ColumnStart(attrs, i) + attrs[i].length <= SumLengths(attrs)
  {
    if NonNegativeLengths(attrs) {
      assert attrs[..|attrs|] == attrs;
      ColumnStartMonotone(attrs, i, |attrs|);
      if i > 0 {
        ColumnStartMonotone(attrs, 0, i);
      }
    }
  }

  /** The corrected copy loop: column i is written at its own offset, the sum of the
      declared lengths before it, and a char value longer than its column is refused, as
      it would spill into the next column. The loop succeeds exactly when every remaining
      literal encodes and fits, given a record long enough for all the columns. */
  function Fill(buf: seq<uint8>, row: seq<string>, attrs: seq<Attribute>, i: nat,
                parseFloatBits: FloatParser): (r: Result<seq<uint8>>)
    requires |row| == |attrs| && i <= |attrs|
    ensures r.Success? ==> |r.value| == |buf|
    ensures r.Success? ==> forall k :: i <= k < |attrs| ==> ColumnFits(row[k], attrs[k], parseFloatBits)
    ensures (&& NonNegativeLengths(attrs) && SumLengths(attrs) <= |buf|
             && forall k :: i <= k < |attrs| ==> ColumnFits(row[k], attrs[k], parseFloatBits))
            ==> r.Success?
    decreases |attrs| - i
  {
    if i == |attrs| then Success(buf)
    else
      var cb :- ColumnBytes(row[i], attrs[i], parseFloatBits);
      if |cb| > attrs[i].length then Failure(AttributeFormat)
      else
        ColumnWithinRecord(attrs, i);
        match CopyInto(buf, IndexColumn.ColumnStart(attrs, i), cb)
        case None => Failure(IndexOutOfBounds)
        case Some(buf') => Fill(buf', row, attrs, i + 1, parseFloatBits)
  }

  /** getInsertBytes, corrected: every column lands where the column readers look for it,
      and a value longer than its column is refused. */
  function InsertBytes(table: Table, row: seq<string>, parseFloatBits: FloatParser): (r: Result<seq<uint8>>)
    requires table.totalLength >= 0
    ensures |row| != |table.attributes| ==> r == Failure(AttributeNumber)
    ensures r.Success? ==> |r.value| == table.totalLength
    ensures r.Success? ==> forall k :: 0 <= k < |table.attributes| ==>
      ColumnFits(row[k], table.attributes[k], parseFloatBits)
    ensures (&& |row| == |table.attributes| && NonNegativeLengths(table.attributes)
             && SumLengths(table.attributes) <= table.totalLength
             && forall k :: 0 <= k < |table.attributes| ==> ColumnFits(row[k], table.attributes[k], parseFloatBits))
            ==> r.Success?
  {
    if |row| != |table.attributes| then Failure(AttributeNumber)
    else Fill(Zeros(table.totalLength), row, table.attributes, 0, parseFloatBits)
  }

  predicate NonNegativeLengths(attrs: seq<Attribute>)
  {
    forall i :: 0 <= i < |attrs| ==> attrs[i].length >= 0
  }

  lemma {:induction false} ColumnStartMonotone(attrs: seq<Attribute>, i: nat, j: nat)
    requires NonNegativeLengths(attrs)
    requires i < j <= |attrs|
    ensures IndexColumn.ColumnStart(attrs, i) + attrs[i].length <= IndexColumn.ColumnStart(attrs, j)
    decreases j - i
  {
    assert attrs[..j][..j - 1] == attrs[..j - 1];
    if j - 1 > i {
      ColumnStartMonotone(attrs, i, j - 1);
    } else {
      assert attrs[..i + 1][..i] == attrs[..i];
    }
  }

  /** Once column k is in place, filling the later columns leaves it alone. */
  lemma {:induction false} FillKeepsEarlier(buf: seq<uint8>, row: seq<string>, attrs: seq<Attribute>, i: nat,
                                            parseFloatBits: FloatParser, lo: int, hi: int)
    requires |row| == |attrs| && i <= |attrs|
    requires NonNegativeLengths(attrs)
    requires 0 <= lo <= hi <= |buf|
    requires i < |attrs| ==> hi <= IndexColumn.ColumnStart(attrs, i)
    requires Fill(buf, row, attrs, i, parseFloatBits).Success?
    ensures Fill(buf, row, attrs, i, parseFloatBits).value[lo..hi] == buf[lo..hi]
    decreases |attrs| - i
  {
    if i < |attrs| {
      var cb := ColumnBytes(row[i], attrs[i], parseFloatBits).value;
      var start := IndexColumn.ColumnStart(attrs, i);
      var buf' := CopyInto(buf, start, cb).value;
      if i + 1 < |attrs| {
        ColumnStartMonotone(attrs, i, i + 1);
      }
      CopyIntoKeepsBelow(buf, start, cb, lo, hi);
      FillKeepsEarlier(buf', row, attrs, i + 1, parseFloatBits, lo, hi);
    }
  }

  /** Every column reached by the corrected fill ends up holding exactly its bytes. */
  lemma {:induction false} FillPlacesColumn(buf: seq<uint8>, row: seq<string>, attrs: seq<Attribute>, i: nat,
                                            parseFloatBits: FloatParser, k: nat)
    requires |row| == |attrs| && i <= k < |attrs|
    requires NonNegativeLengths(attrs)
    requires Fill(buf, row, attrs, i, parseFloatBits).Success?
    ensures ColumnBytes(row[k], attrs[k], parseFloatBits).Success?
    ensures var cb := ColumnBytes(row[k], attrs[k], parseFloatBits).value;
      var start := IndexColumn.ColumnStart(attrs, k);
      0 <= start && start + |cb| <= |buf| &&
      Fill(buf, row, attrs, i, parseFloatBits).value[start..start + |cb|] == cb
    decreases k - i
  {
    var cb := ColumnBytes(row[i], attrs[i], parseFloatBits).value;
    var start := IndexColumn.ColumnStart(attrs, i);
    var buf' := CopyInto(buf, start, cb).value;
    if i == k {
      if k + 1 < |attrs| {
        ColumnStartMonotone(attrs, k, k + 1);
      }
      FillKeepsEarlier(buf', row, attrs, i + 1, parseFloatBits, start, start + |cb|);
    } else {
      FillPlacesColumn(buf', row, attrs, i + 1, parseFloatBits, k);
    }
  }

  /** The round trip the record readers rely on: after the corrected encoding, the four
      bytes at an int column's offset decode to the literal's value, and a char column
      starts with the literal's bytes. */
  lemma InsertBytesRoundTrip(table: Table, row: seq<string>, parseFloatBits: FloatParser, k: nat)
    requires table.totalLength >= 0
    requires NonNegativeLengths(table.attributes)
    requires k < |table.attributes|
    requires InsertBytes(table, row, parseFloatBits).Success?
    ensures var bytes := InsertBytes(table, row, parseFloatBits).value;
      var attr := table.attributes[k];
      var start := IndexColumn.ColumnStart(table.attributes, k);
      && (attr.attrType == INT_TYPE ==>
            ParseInt(row[k]).Some? && 0 <= start && start + 4 <= |bytes| &&
            DecodeInt32(bytes[start..start + 4]) == ParseInt(row[k]).value)
      && (attr.attrType != INT_TYPE && attr.attrType != FLOAT_TYPE ==>
            var text := CharBytes(StripQuotes(row[k]));
            0 <= start && start + |text| <= |bytes| && bytes[start..start + |text|] == text)
  {
    FillPlacesColumn(Zeros(table.totalLength), row, table.attributes, 0, parseFloatBits, k);
  }

  /** The example row: a `char(5)` name 'ab' followed by the int 7. */
  function ExampleAttrs(): seq<Attribute>
  {
    [NewAttribute("name", 5, false, false, ""), NewAttribute("id", -1, false, false, "")]
  }

  lemma ExampleRowParses()
    ensures NewTable("person", ExampleAttrs()).totalLength == 9
    ensures IndexColumn.ColumnStart(ExampleAttrs(), 0) == 0
    ensures IndexColumn.ColumnStart(ExampleAttrs(), 1) == 5
    ensures StripQuotes("'ab'") == "ab" && CharBytes("ab") == [97, 98]
    ensures ParseInt("7") == Some(7) && EncodeInt32(7) == [0, 0, 0, 7]
  {
    var attrs := ExampleAttrs();
    assert attrs[..1][..0] == [];
    assert attrs[..0] == [];
    assert attrs[..|attrs| - 1] == attrs[..1];
    assert SumWidths(attrs[..1]) == 5;
    assert "'ab'"[1..] == "ab'";
    assert "ab'"[1..] == "b'";
    assert "b'"[1..] == "'";
    assert "'"[1..] == "";
    assert AllDigits("7");
    assert "7"[..0] == "";
  }

  /** The example's two literals encode to 'a' 'b' and the four bytes of 7. */
  lemma ExampleColumns(parseFloatBits: FloatParser)
    ensures ColumnBytes("'ab'", ExampleAttrs()[0], parseFloatBits) == Success([97, 98])
    ensures ColumnBytes("7", ExampleAttrs()[1], parseFloatBits) == Success([0, 0, 0, 7])
  {
    ExampleRowParses();
  }

  /** 7's bytes read one place off: 7 * 2^24. */
  lemma ShiftedSevenReads()
    ensures DecodeInt32([7, 0, 0, 0]) == 117440512 && DecodeInt32([0, 0, 0, 7]) == 7
  {
    assert Unsigned32([7, 0, 0, 0]) == 117440512;
  }

  /** The copies the two encoders make for the example row. */
  lemma ExampleCopies()
    ensures CopyInto(Zeros(9), 0, [97, 98]).Some?
    ensures CopyInto(Zeros(9), 0, [97, 98]).value == [97, 98, 0, 0, 0, 0, 0, 0, 0]
    ensures CopyInto([97, 98, 0, 0, 0, 0, 0, 0, 0], 2, [0, 0, 0, 7]).Some?
    ensures CopyInto([97, 98, 0, 0, 0, 0, 0, 0, 0], 2, [0, 0, 0, 7]).value == [97, 98, 0, 0, 0, 7, 0, 0, 0]
    ensures CopyInto([97, 98, 0, 0, 0, 0, 0, 0, 0], 5, [0, 0, 0, 7]).Some?
    ensures CopyInto([97, 98, 0, 0, 0, 0, 0, 0, 0], 5, [0, 0, 0, 7]).value == [97, 98, 0, 0, 0, 0, 0, 0, 7]
  {
    var z := Zeros(9);
    assert z == [0, 0, 0, 0, 0, 0, 0, 0, 0];
    assert z[..0] + [97, 98] + z[2..] == [97, 98, 0, 0, 0, 0, 0, 0, 0];
    var b1: seq<uint8> := [97, 98, 0, 0, 0, 0, 0, 0, 0];
    assert b1[..2] + [0, 0, 0, 7] + b1[6..] == [97, 98, 0, 0, 0, 7, 0, 0, 0];
    assert b1[..5] + [0, 0, 0, 7] + b1[9..] == [97, 98, 0, 0, 0, 0, 0, 0, 7];
  }

  /** The as-written encoder misplaces every column after a char value shorter than its
      column: the example row puts 7's bytes at offset 2, and the int column at offset 5
      then reads 117440512. */
  lemma InsertBytesAsWrittenMisplacesColumns(parseFloatBits: FloatParser)
    ensures var bytes := InsertBytesAsWritten(NewTable("person", ExampleAttrs()), ["'ab'", "7"], parseFloatBits);
      && IndexColumn.ColumnStart(ExampleAttrs(), 1) == 5
      && bytes.Success? && DecodeInt32(bytes.value[5..9]) == 117440512
  {
    ExampleRowParses();
    ExampleColumns(parseFloatBits);
    ExampleCopies();
    ShiftedSevenReads();
    var attrs, row := ExampleAttrs(), ["'ab'", "7"];
    var b1: seq<uint8> := [97, 98, 0, 0, 0, 0, 0, 0, 0];
    var b2: seq<uint8> := [97, 98, 0, 0, 0, 7, 0, 0, 0];
    assert FillAsWritten(b2, 6, row, attrs, 2, parseFloatBits) == Success(b2);
    assert FillAsWritten(b1, 2, row, attrs, 1, parseFloatBits) == Success(b2);
    assert FillAsWritten(Zeros(9), 0, row, attrs, 0, parseFloatBits) == Success(b2);
    assert b2[5..9] == [7, 0, 0, 0];
  }

  /** The corrected encoder puts the example's int at its column start, where it reads 7. */
  lemma InsertBytesPlacesExample(parseFloatBits: FloatParser)
    ensures var bytes := InsertBytes(NewTable("person", ExampleAttrs()), ["'ab'", "7"], parseFloatBits);
      bytes.Success? && DecodeInt32(bytes.value[5..9]) == 7
  {
    ExampleRowParses();
    ExampleColumns(parseFloatBits);
    ExampleCopies();
    ShiftedSevenReads();
    var attrs, row := ExampleAttrs(), ["'ab'", "7"];
    var c1: seq<uint8> := [97, 98, 0, 0, 0, 0, 0, 0, 0];
    var c2: seq<uint8> := [97, 98, 0, 0, 0, 0, 0, 0, 7];
    assert Fill(c2, row, attrs, 2, parseFloatBits) == Success(c2);
    assert Fill(c1, row, attrs, 1, parseFloatBits) == Success(c2);
    assert Fill(Zeros(9), row, attrs, 0, parseFloatBits) == Success(c2);
    assert c2[5..9] == [0, 0, 0, 7];
  }
}
