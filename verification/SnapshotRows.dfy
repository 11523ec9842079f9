/** The row section: six symbols a row, in a width that holds them. */
module SnapshotRows {
  import opened Vocabulary
  import opened Domain
  import opened IdentityIndex
  import opened StoredRows
  import opened SnapshotBytes

  /** A row's symbols as stored: from one, zero for no relation. */
  function FieldsOf(row: Row): seq<nat> {
    [row.resourceType + 1, row.resourceId + 1, row.relation + 1, row.subjectType + 1, row.subjectId + 1,
     if row.subjectRelation.Some? then row.subjectRelation.value + 1 else 0]
  }

  function FieldBytes(fields: seq<nat>, width: nat): seq<byte> {
    if fields == [] then [] else EncodeLE(fields[0], width) + FieldBytes(fields[1..], width)
  }

  function RowsBytes(rows: seq<Row>, width: nat): seq<byte> {
    if rows == [] then [] else FieldBytes(FieldsOf(rows[0]), width) + RowsBytes(rows[1..], width)
  }

  lemma {:induction false} FieldBytesAppend(fields: seq<nat>, last: nat, width: nat)
    ensures FieldBytes(fields + [last], width) == FieldBytes(fields, width) + EncodeLE(last, width)
  {
    if fields == [] {
      assert fields + [last] == [last];
      assert FieldBytes([last], width) == EncodeLE(last, width) + FieldBytes([], width);
    } else {
      FieldBytesAppend(fields[1..], last, width);
      assert (fields + [last])[1..] == fields[1..] + [last];
    }
  }

  lemma {:induction false} FieldBytesLength(fields: seq<nat>, width: nat)
    ensures |FieldBytes(fields, width)| == |fields| * width
  {
    if fields != [] {
      EncodedLength(fields[0], width);
      FieldBytesLength(fields[1..], width);
      assert |fields| * width == width + (|fields| - 1) * width;
    }
  }

  lemma {:induction false} FieldBytesInjective(left: seq<nat>, right: seq<nat>, width: nat)
    requires |left| == |right| && FieldBytes(left, width) == FieldBytes(right, width)
    requires forall i :: 0 <= i < |left| ==> left[i] < Pow256(width) && right[i] < Pow256(width)
    ensures left == right
  {
    if left != [] {
      EncodedLength(left[0], width);
      EncodedLength(right[0], width);
      var first, second := EncodeLE(left[0], width), EncodeLE(right[0], width);
      var all := FieldBytes(left, width);
      assert all[..width] == first == second;
      assert all[width..] == FieldBytes(left[1..], width) == FieldBytes(right[1..], width);
      LittleEndianRoundTrip(left[0], width);
      LittleEndianRoundTrip(right[0], width);
      FieldBytesInjective(left[1..], right[1..], width);
    }
  }

  lemma {:induction false} RowsBytesAppend(rows: seq<Row>, last: Row, width: nat)
    ensures RowsBytes(rows + [last], width) == RowsBytes(rows, width) + FieldBytes(FieldsOf(last), width)
  {
    hide FieldBytes, FieldsOf;
    if rows == [] {
      assert rows + [last] == [last];
      assert RowsBytes([last], width) == FieldBytes(FieldsOf(last), width) + RowsBytes([], width);
    } else {
      RowsBytesAppend(rows[1..], last, width);
      assert (rows + [last])[1..] == rows[1..] + [last];
    }
  }

  lemma {:induction false} RowsBytesLength(rows: seq<Row>, width: nat)
    ensures |RowsBytes(rows, width)| == |rows| * (6 * width)
  {
    hide FieldBytes;
    if rows != [] {
      FieldBytesLength(FieldsOf(rows[0]), width);
      RowsBytesLength(rows[1..], width);
      assert |rows| * (6 * width) == 6 * width + (|rows| - 1) * (6 * width);
    }
  }

  method EncodeRows(rows: seq<Row>, width: nat) returns (bytes: seq<byte>)
    ensures bytes == RowsBytes(rows, width)
  {
    hide FieldBytes, FieldsOf;
    bytes := [];
    for i := 0 to |rows|
      invariant bytes == RowsBytes(rows[..i], width)
    {
      assert rows[..i + 1] == rows[..i] + [rows[i]];
      RowsBytesAppend(rows[..i], rows[i], width);
      bytes := bytes + FieldBytes(FieldsOf(rows[i]), width);
    }
    assert rows[..|rows|] == rows;
  }

  ghost predicate FieldsFit(row: Row, width: nat) {
    forall i :: 0 <= i < |FieldsOf(row)| ==> FieldsOf(row)[i] < Pow256(width)
  }

  ghost predicate RowsFit(rows: seq<Row>, width: nat) {
    forall i :: 0 <= i < |rows| ==> FieldsFit(rows[i], width)
  }

  /** The bytes store these rows, every symbol in the width. */
  ghost predicate StoresRows(bytes: seq<byte>, width: nat, rows: seq<Row>) {
    RowsFit(rows, width) && RowsBytes(rows, width) == bytes
  }

  /** A width that holds every symbol holds every row. */
  lemma WideRowsFit(rows: seq<Row>, symbolCount: nat, width: nat)
    requires AllResolve(rows, symbolCount) && symbolCount < Pow256(width)
    ensures RowsFit(rows, width)
  {
    hide Pow256;
    forall i | 0 <= i < |rows| ensures FieldsFit(rows[i], width) {
      assert Resolves(rows[i], symbolCount);
    }
  }

  lemma FieldsDetermineRow(left: Row, right: Row)
    requires FieldsOf(left) == FieldsOf(right)
    ensures left == right
  {
    assert FieldsOf(left)[0] == FieldsOf(right)[0] && FieldsOf(left)[1] == FieldsOf(right)[1] && FieldsOf(left)[2] == FieldsOf(right)[2];
    assert FieldsOf(left)[3] == FieldsOf(right)[3] && FieldsOf(left)[4] == FieldsOf(right)[4] && FieldsOf(left)[5] == FieldsOf(right)[5];
  }

  /** A row section determines its rows. */
  lemma {:induction false} RowsBytesInjective(left: seq<Row>, right: seq<Row>, width: nat)
    requires |left| == |right| && RowsFit(left, width) && RowsFit(right, width)
    requires RowsBytes(left, width) == RowsBytes(right, width)
    ensures left == right
  {
    hide FieldBytes, FieldsOf, Pow256;
    if left != [] {
      FieldBytesLength(FieldsOf(left[0]), width);
      FieldBytesLength(FieldsOf(right[0]), width);
      assert FieldsFit(left[0], width) && FieldsFit(right[0], width);
      SixFields(left[0]);
      SixFields(right[0]);
      var all, end := RowsBytes(left, width), 6 * width;
      assert all[..end] == FieldBytes(FieldsOf(left[0]), width) == FieldBytes(FieldsOf(right[0]), width);
      assert all[end..] == RowsBytes(left[1..], width) == RowsBytes(right[1..], width);
      FieldBytesInjective(FieldsOf(left[0]), FieldsOf(right[0]), width);
      FieldsDetermineRow(left[0], right[0]);
      RowsBytesInjective(left[1..], right[1..], width);
    }
  }

  lemma SixFields(row: Row)
    ensures |FieldsOf(row)| == 6
  {
  }

  /** Rows a fully validated load accepts: they resolve, stand for valid relationships, and differ. */
  ghost predicate Acceptable(rows: seq<Row>, names: seq<string>) {
    && AllResolve(rows, |names|)
    && (forall i :: 0 <= i < |rows| ==> ValidRelationship(ToRelationship(names, rows[i])))
    && RowsDiffer(rows)
  }

  ghost predicate RowsDiffer(rows: seq<Row>) {
    forall i, j :: 0 <= i < j < |rows| ==> rows[i] != rows[j]
  }

  function RowFromFields(fields: seq<nat>, symbolCount: nat): Result<Row, FormatError>
    requires |fields| == 6
  {
    var resourceType :- SymbolFromRaw(fields[0], symbolCount);
    var resourceId :- SymbolFromRaw(fields[1], symbolCount);
    var relation :- SymbolFromRaw(fields[2], symbolCount);
    var subjectType :- SymbolFromRaw(fields[3], symbolCount);
    var subjectId :- SymbolFromRaw(fields[4], symbolCount);
    if fields[5] == 0 then Ok(Row(resourceType, resourceId, relation, subjectType, subjectId, None))
    else
      var subjectRelation :- SymbolFromRaw(fields[5], symbolCount);
      Ok(Row(resourceType, resourceId, relation, subjectType, subjectId, Some(subjectRelation)))
  }

  /** Reading a row's fields is the inverse of writing them. */
  lemma RowFromFieldsIsInverse(fields: seq<nat>, symbolCount: nat)
    requires |fields| == 6
    ensures RowFromFields(fields, symbolCount).Ok? ==>
              Resolves(RowFromFields(fields, symbolCount).value, symbolCount) && FieldsOf(RowFromFields(fields, symbolCount).value) == fields
    ensures forall row: Row :: Resolves(row, symbolCount) && FieldsOf(row) == fields ==> RowFromFields(fields, symbolCount) == Ok(row)
  {
    forall row: Row | Resolves(row, symbolCount) && FieldsOf(row) == fields ensures RowFromFields(fields, symbolCount) == Ok(row) {
      assert fields[0] == row.resourceType + 1 && fields[1] == row.resourceId + 1 && fields[2] == row.relation + 1;
      assert fields[3] == row.subjectType + 1 && fields[4] == row.subjectId + 1;
    }
  }

  lemma SomeOfSix(count: nat, width: nat)
    requires count < 6
    ensures count * width + width <= 6 * width
  {
    assert count * width + width == (count + 1) * width <= 6 * width;
  }

  method DecodeFields(cursor: BinaryCursor, width: nat) returns (r: Result<seq<nat>, FormatError>)
    requires cursor.Valid()
    modifies cursor
    ensures cursor.Valid() && (r.Ok? <==> old(cursor.offset) + 6 * width <= |cursor.bytes|)
    ensures r.Ok? ==> |r.value| == 6 && cursor.offset == old(cursor.offset) + 6 * width
    ensures r.Ok? ==> FieldBytes(r.value, width) == cursor.bytes[old(cursor.offset)..cursor.offset]
    ensures r.Ok? ==> forall i :: 0 <= i < 6 ==> r.value[i] < Pow256(width)
  {
    hide EncodeLE, Pow256, FieldBytes;
    ghost var start := cursor.offset;
    var fields: seq<nat> := [];
    FieldBytesLength(fields, width);
    for i := 0 to 6
      invariant cursor.Valid() && |fields| == i && start <= cursor.offset
      invariant FieldBytes(fields, width) == cursor.bytes[start..cursor.offset]
      invariant forall k :: 0 <= k < i ==> fields[k] < Pow256(width)
    {
      FieldBytesLength(fields, width);
      SomeOfSix(i, width);
      ghost var at := cursor.offset;
      var field :- cursor.ReadValue(width);
      FieldBytesAppend(fields, field, width);
      assert cursor.bytes[start..cursor.offset] == cursor.bytes[start..at] + cursor.bytes[at..cursor.offset];
      fields := fields + [field];
    }
    FieldBytesLength(fields, width);
    r := Ok(fields);
  }

  /** Reads a row section in full validation: it accepts exactly the bytes of acceptable rows, and reads them as
      those. */
  method DecodeRows(bytes: seq<byte>, width: nat, count: nat, names: seq<string>, rowHash: Row -> nat) returns (r: Result<seq<Row>, FormatError>)
    ensures forall rows :: |rows| == count && StoresRows(bytes, width, rows) && Acceptable(rows, names) <==> r == Ok(rows)
  {
    hide FieldBytes, FieldsOf, Pow256, ToRelationship, ValidRelationship, TablesValid, Filed, RowFromFields, FieldsFit;
    if |bytes| != count * (6 * width) {
      forall rows | |rows| == count ensures RowsBytes(rows, width) != bytes { RowsBytesLength(rows, width); }
      return Err(CountMismatch);
    }
    var cursor := new BinaryCursor(bytes);
    var detector := new RelationshipIdentityIndex(rowHash);
    var rows: seq<Row> := [];
    NoTablesValid(rowHash, []);
    for i := 0 to count
      invariant fresh(cursor) && fresh(detector) && cursor.Valid() && cursor.bytes == bytes && |rows| == i
      invariant StoresRows(bytes[..cursor.offset], width, rows) && Acceptable(rows, names)
      invariant detector.Valid(rows) && forall id: RowId :: detector.Holds(rows, id) <==> id < i
    {
      ghost var start := cursor.offset;
      var fields := DecodeFields(cursor, width);
      if fields.Err? {
        NoRowHere(rows, bytes, start, width, count);
        return Err(fields.error);
      }
      var row := RowFromFields(fields.value, |names|);
      RowFromFieldsIsInverse(fields.value, |names|);
      if row.Err? {
        NextRowMust(rows, bytes, start, cursor.offset, width, count, names, fields.value);
        return Err(row.error);
      }
      if !ValidRelationship(ToRelationship(names, row.value)) {
        NextRowMust(rows, bytes, start, cursor.offset, width, count, names, fields.value);
        return Err(SymbolOutOfBounds);
      }
      var duplicate := detector.Find(rows, row.value);
      if duplicate.Some? {
        NextRowMust(rows, bytes, start, cursor.offset, width, count, names, fields.value);
        return Err(DuplicateKey);
      }
      detector.Insert(rows, i, row.value, rows + [row.value]);
      ReadFieldsFit(row.value, fields.value, width);
      RowsBytesAppend(rows, row.value, width);
      assert bytes[..cursor.offset] == bytes[..start] + bytes[start..cursor.offset];
      rows := rows + [row.value];
    }
    RowsBytesLength(rows, width);
    assert bytes[..cursor.offset] == bytes;
    forall others | |others| == count && StoresRows(bytes, width, others) ensures others == rows {
      RowsBytesInjective(others, rows, width);
    }
    r := Ok(rows);
  }

  lemma ReadFieldsFit(row: Row, fields: seq<nat>, width: nat)
    requires FieldsOf(row) == fields && forall i :: 0 <= i < |fields| ==> fields[i] < Pow256(width)
    ensures FieldsFit(row, width)
  {
  }

  /** The bytes of a longer row list begin with those of a prefix. */
  lemma {:induction false} PrefixBytes(rows: seq<Row>, n: nat, width: nat)
    requires n <= |rows|
    ensures |RowsBytes(rows[..n], width)| == n * (6 * width) <= |RowsBytes(rows, width)|
    ensures RowsBytes(rows[..n], width) == RowsBytes(rows, width)[..n * (6 * width)]
    ensures n < |rows| ==> (n + 1) * (6 * width) <= |RowsBytes(rows, width)|
                           && RowsBytes(rows, width)[n * (6 * width)..(n + 1) * (6 * width)] == FieldBytes(FieldsOf(rows[n]), width)
  {
    hide FieldBytes, FieldsOf;
    RowsBytesLength(rows[..n], width);
    SplitBytes(rows[..n], rows[n..], width);
    assert rows[..n] + rows[n..] == rows;
    if n < |rows| {
      FieldBytesLength(FieldsOf(rows[n]), width);
      SixFields(rows[n]);
      assert rows[n..][0] == rows[n];
      assert (n + 1) * (6 * width) == n * (6 * width) + 6 * width;
    }
  }

  lemma AssociateBytes(first: seq<byte>, second: seq<byte>, third: seq<byte>)
    ensures first + (second + third) == first + second + third
  {
  }

  lemma {:induction false} SplitBytes(left: seq<Row>, right: seq<Row>, width: nat)
    ensures RowsBytes(left + right, width) == RowsBytes(left, width) + RowsBytes(right, width)
  {
    hide FieldBytes, FieldsOf;
    if left == [] {
      assert left + right == right;
    } else {
      SplitBytes(left[1..], right, width);
      assert (left + right)[1..] == left[1..] + right;
      AssociateBytes(FieldBytes(FieldsOf(left[0]), width), RowsBytes(left[1..], width), RowsBytes(right, width));
    }
  }

  /** Any reading of the section goes on with the rows read so far. */
  lemma ReadingAgrees(rows: seq<Row>, bytes: seq<byte>, start: nat, width: nat, others: seq<Row>)
    requires start <= |bytes| && StoresRows(bytes[..start], width, rows)
    requires |rows| < |others| && StoresRows(bytes, width, others)
    ensures start == |rows| * (6 * width) && others[..|rows|] == rows && start + 6 * width <= |bytes|
    ensures bytes[start..start + 6 * width] == FieldBytes(FieldsOf(others[|rows|]), width)
  {
    hide FieldBytes, FieldsOf, Pow256, RowsBytes, FieldsFit;
    var stride := 6 * width;
    RowsBytesLength(rows, width);
    PrefixBytes(others, |rows|, width);
    Stride(|rows|, stride);
    assert start == |rows| * stride;
    RowsBytesInjective(others[..|rows|], rows, width);
  }

  lemma Stride(count: nat, stride: nat)
    ensures (count + 1) * stride == count * stride + stride
  {
  }

  lemma NoRowHere(rows: seq<Row>, bytes: seq<byte>, start: nat, width: nat, count: nat)
    requires start <= |bytes| < start + 6 * width && |rows| < count && StoresRows(bytes[..start], width, rows)
    ensures forall others :: |others| == count ==> !StoresRows(bytes, width, others)
  {
    hide StoresRows;
    forall others | |others| == count ensures !StoresRows(bytes, width, others) {
      if StoresRows(bytes, width, others) {
        ReadingAgrees(rows, bytes, start, width, others);
      }
    }
  }

  /** The next row of any acceptable reading is the one whose fields were read. */
  lemma NextRowMust(rows: seq<Row>, bytes: seq<byte>, start: nat, end: nat, width: nat, count: nat, names: seq<string>, fields: seq<nat>)
    requires start <= end <= |bytes| && end == start + 6 * width && |rows| < count && |fields| == 6 && StoresRows(bytes[..start], width, rows)
    requires FieldBytes(fields, width) == bytes[start..end] && forall i :: 0 <= i < 6 ==> fields[i] < Pow256(width)
    requires RowFromFields(fields, |names|).Err?
             || !ValidRelationship(ToRelationship(names, RowFromFields(fields, |names|).value))
             || RowFromFields(fields, |names|).value in rows
    ensures forall others :: |others| == count && Acceptable(others, names) ==> !StoresRows(bytes, width, others)
  {
    hide FieldBytes, FieldsOf, Pow256, ToRelationship, ValidRelationship, RowFromFields, StoresRows;
    forall others | |others| == count && Acceptable(others, names) ensures !StoresRows(bytes, width, others) {
      if StoresRows(bytes, width, others) {
        NextRowIs(rows, bytes, start, width, names, fields, others);
      }
    }
  }

  lemma NextRowIs(rows: seq<Row>, bytes: seq<byte>, start: nat, width: nat, names: seq<string>, fields: seq<nat>, others: seq<Row>)
    requires start + 6 * width <= |bytes| && |rows| < |others| && |fields| == 6 && StoresRows(bytes[..start], width, rows)
    requires FieldBytes(fields, width) == bytes[start..start + 6 * width] && forall i :: 0 <= i < 6 ==> fields[i] < Pow256(width)
    requires StoresRows(bytes, width, others) && Acceptable(others, names)
    ensures RowFromFields(fields, |names|) == Ok(others[|rows|])
    ensures ValidRelationship(ToRelationship(names, others[|rows|])) && others[|rows|] !in rows
  {
    hide FieldBytes, FieldsOf, Pow256, ToRelationship, ValidRelationship, RowFromFields;
    RowFromFieldsIsInverse(fields, |names|);
    ReadingAgrees(rows, bytes, start, width, others);
    var next := others[|rows|];
    assert FieldsFit(next, width);
    SixFields(next);
    FieldBytesInjective(FieldsOf(next), fields, width);
    forall k | 0 <= k < |rows| ensures rows[k] != next {
      assert rows[k] == others[k];
    }
  }
}
