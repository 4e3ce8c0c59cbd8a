/**
  Splitting a table of typed columns into Parquet row groups, and turning column chunks back into
  JSON rows.  Reading the row groups one after the other gives what the unsplit columns give.
*/
module RowGroups {
  import opened Common

  datatype ArrowType = Boolean | Int64 | Float64 | Utf8 | Unsupported(name: string)

  /** A float that is not finite has no JSON number. */
  datatype Scalar = BoolValue(b: bool) | IntValue(i: int) | FloatValue(f: real) | NonFinite | TextValue(s: string)

  datatype Json = Null | Bool(b: bool) | Int(i: int) | Float(f: real) | Text(s: string)

  datatype Field = Field(name: string, dataType: ArrowType)

  /** A column: its type and its cells, None being null. */
  datatype Column = Column(dataType: ArrowType, cells: seq<Option<Scalar>>)

  type Chunk = seq<Column>
  type Row = map<string, Json>

  predicate Rectangular(c: Chunk, n: nat) {
    forall i :: 0 <= i < |c| ==> |c[i].cells| == n
  }

  /** A chunk knows its length only from its first column. */
  function Length(c: Chunk): nat {
    if c == [] then 0 else |c[0].cells|
  }

  function CellJson(cell: Option<Scalar>): Json {
    match cell
    case None => Null
    case Some(BoolValue(b)) => Bool(b)
    case Some(IntValue(i)) => Int(i)
    case Some(FloatValue(f)) => Float(f)
    case Some(NonFinite) => Null
    case Some(TextValue(s)) => Text(s)
  }

  /** Row `r` restricted to its first `n` columns; a repeated name keeps the last column. */
  function RowOf(fields: seq<Field>, c: Chunk, r: nat, n: nat): Row
    requires n <= |fields| && n <= |c| && Rectangular(c, Length(c)) && r < Length(c)
  {
    if n == 0 then map[] else RowOf(fields, c, r, n - 1)[fields[n - 1].name := CellJson(c[n - 1].cells[r])]
  }

  predicate Readable(fields: seq<Field>, c: Chunk) {
    && |fields| == |c|
    && forall i :: 0 <= i < |c| ==> !fields[i].dataType.Unsupported? && c[i].dataType == fields[i].dataType
  }

  function RowsOf(fields: seq<Field>, c: Chunk): seq<Row>
    requires |fields| == |c| && Rectangular(c, Length(c))
  {
    seq(Length(c), r requires 0 <= r < Length(c) => RowOf(fields, c, r, |c|))
  }

  // ----- what a row holds -----

  /** The scalar a JSON value stands for, and none for null. */
  function ScalarOf(j: Json): Option<Scalar> {
    match j
    case Null => None
    case Bool(b) => Some(BoolValue(b))
    case Int(i) => Some(IntValue(i))
    case Float(f) => Some(FloatValue(f))
    case Text(s) => Some(TextValue(s))
  }

  /** Every cell reads back from its JSON value, except that a number that is not finite becomes null. */
  lemma CellReadsBack(cell: Option<Scalar>)
    ensures CellJson(cell) == Null <==> cell == None || cell == Some(NonFinite)
    ensures ScalarOf(CellJson(cell)) == if cell == Some(NonFinite) then None else cell
  {
  }

  /** Field `i` is the last of the first `n` fields that has its name. */
  predicate LastOfName(fields: seq<Field>, i: nat, n: nat)
    requires i < n <= |fields|
  {
    forall j :: i < j < n ==> fields[j].name != fields[i].name
  }

  predicate Names(fields: seq<Field>, n: nat, k: string)
    requires n <= |fields|
  {
    exists i :: 0 <= i < n && fields[i].name == k
  }

  lemma {:induction false} RowOfKeys(fields: seq<Field>, c: Chunk, r: nat, n: nat, k: string)
    requires n <= |fields| && n <= |c| && Rectangular(c, Length(c)) && r < Length(c)
    ensures k in RowOf(fields, c, r, n) <==> Names(fields, n, k)
  {
    if n > 0 {
      RowOfKeys(fields, c, r, n - 1, k);
    }
  }

  lemma {:induction false} RowOfCell(fields: seq<Field>, c: Chunk, r: nat, n: nat, i: nat)
    requires n <= |fields| && n <= |c| && Rectangular(c, Length(c)) && r < Length(c)
    requires i < n && LastOfName(fields, i, n)
    ensures fields[i].name in RowOf(fields, c, r, n)
    ensures RowOf(fields, c, r, n)[fields[i].name] == CellJson(c[i].cells[r])
  {
    if i < n - 1 {
      RowOfCell(fields, c, r, n - 1, i);
    }
  }

  /**
    The transposition, cell by cell: row `r` has exactly the field names as keys, and under the name of
    field `i` the cell of row `r` in column `i`, unless a later field repeats the name.
  */
  lemma RowsMeaning(fields: seq<Field>, c: Chunk, r: nat, i: nat, k: string)
    requires |fields| == |c| && Rectangular(c, Length(c)) && r < Length(c) && i < |c|
    ensures |RowsOf(fields, c)| == Length(c)
    ensures k in RowsOf(fields, c)[r] <==> Names(fields, |c|, k)
    ensures LastOfName(fields, i, |c|) ==>
              fields[i].name in RowsOf(fields, c)[r] &&
              RowsOf(fields, c)[r][fields[i].name] == CellJson(c[i].cells[r])
  {
    RowOfKeys(fields, c, r, |c|, k);
    if LastOfName(fields, i, |c|) {
      RowOfCell(fields, c, r, |c|, i);
    }
  }

  /** A chunk cannot be read exactly when the number of columns, the type of one, or its support is wrong. */
  lemma UnreadableIff(fields: seq<Field>, c: Chunk)
    ensures !Readable(fields, c) <==>
              || |c| != |fields|
              || exists i :: 0 <= i < |c| && (fields[i].dataType.Unsupported? || fields[i].dataType != c[i].dataType)
  {
  }

  // ----- splitting -----

  function Sliced(c: Chunk, offset: nat, length: nat): Chunk
    requires Rectangular(c, Length(c)) && (c == [] || offset + length <= Length(c))
  {
    seq(|c|, i requires 0 <= i < |c| => c[i].(cells := c[i].cells[offset..offset + length]))
  }

  function Min(a: nat, b: nat): nat {
    if a <= b then a else b
  }

  /** The row groups from `offset` on. */
  function Groups(c: Chunk, rowCount: nat, size: nat, offset: nat): seq<Chunk>
    requires size >= 1 && Rectangular(c, rowCount) && offset <= rowCount
    decreases rowCount - offset
  {
    if offset == rowCount then []
    else
      var length := Min(size, rowCount - offset);
      [Sliced(c, offset, length)] + Groups(c, rowCount, size, offset + length)
  }

  lemma {:induction false} RowOfSliced(fields: seq<Field>, c: Chunk, offset: nat, length: nat, r: nat, n: nat)
    requires n <= |fields| && n <= |c| && c != []
    requires Rectangular(c, Length(c)) && offset + length <= Length(c) && r < length
    ensures RowOf(fields, Sliced(c, offset, length), r, n) == RowOf(fields, c, offset + r, n)
  {
    if n > 0 {
      RowOfSliced(fields, c, offset, length, r, n - 1);
    }
  }

  lemma RowsOfSliced(fields: seq<Field>, c: Chunk, offset: nat, length: nat)
    requires |fields| == |c| && c != []
    requires Rectangular(c, Length(c)) && offset + length <= Length(c)
    ensures Length(Sliced(c, offset, length)) == length
    ensures RowsOf(fields, Sliced(c, offset, length)) == RowsOf(fields, c)[offset..offset + length]
  {
    var s := Sliced(c, offset, length);
    forall r | 0 <= r < length ensures RowsOf(fields, s)[r] == RowsOf(fields, c)[offset + r] {
      RowOfSliced(fields, c, offset, length, r, |c|);
    }
  }

  predicate AllReadable(fields: seq<Field>, chunks: seq<Chunk>) {
    forall i :: 0 <= i < |chunks| ==> Readable(fields, chunks[i])
  }

  predicate AllRectangular(chunks: seq<Chunk>) {
    forall i :: 0 <= i < |chunks| ==> Rectangular(chunks[i], Length(chunks[i]))
  }

  /** The rows of the chunks one after the other. */
  function AllRows(fields: seq<Field>, chunks: seq<Chunk>): seq<Row>
    requires AllReadable(fields, chunks) && AllRectangular(chunks)
  {
    if chunks == [] then [] else RowsOf(fields, chunks[0]) + AllRows(fields, chunks[1..])
  }

  lemma {:induction false} GroupsReadable(fields: seq<Field>, c: Chunk, rowCount: nat, size: nat, offset: nat)
    requires size >= 1 && Rectangular(c, rowCount) && offset <= rowCount
    ensures AllRectangular(Groups(c, rowCount, size, offset))
    ensures Readable(fields, c) ==> AllReadable(fields, Groups(c, rowCount, size, offset))
    ensures offset < rowCount && !Readable(fields, c) ==>
              Groups(c, rowCount, size, offset) != [] && !Readable(fields, Groups(c, rowCount, size, offset)[0])
    decreases rowCount - offset
  {
    if offset < rowCount {
      var length := Min(size, rowCount - offset);
      GroupsReadable(fields, c, rowCount, size, offset + length);
      SlicedReadable(fields, c, offset, length);
    }
  }

  lemma SlicedReadable(fields: seq<Field>, c: Chunk, offset: nat, length: nat)
    requires Rectangular(c, Length(c)) && (c == [] || offset + length <= Length(c))
    ensures Readable(fields, Sliced(c, offset, length)) <==> Readable(fields, c)
    ensures Rectangular(Sliced(c, offset, length), Length(Sliced(c, offset, length)))
  {
    var s := Sliced(c, offset, length);
    assert forall i :: 0 <= i < |c| ==> s[i].dataType == c[i].dataType;
  }

  /** The rows of a table from `offset` on; a table without columns has no rows. */
  function RowsFrom(fields: seq<Field>, c: Chunk, rowCount: nat, offset: nat): seq<Row>
    requires |fields| == |c| && Rectangular(c, rowCount) && offset <= rowCount
  {
    if c == [] then [] else RowsOf(fields, c)[offset..]
  }

  lemma RowsFromSplit(fields: seq<Field>, c: Chunk, rowCount: nat, offset: nat, length: nat)
    requires |fields| == |c| && Rectangular(c, rowCount) && offset + length <= rowCount
    ensures |Sliced(c, offset, length)| == |c| &&
            Rectangular(Sliced(c, offset, length), Length(Sliced(c, offset, length)))
    ensures RowsFrom(fields, c, rowCount, offset) ==
              RowsOf(fields, Sliced(c, offset, length)) + RowsFrom(fields, c, rowCount, offset + length)
  {
    if c != [] {
      RowsOfSliced(fields, c, offset, length);
      var all := RowsOf(fields, c);
      assert all[offset..] == all[offset..offset + length] + all[offset + length..];
    }
  }

  /** The chunks can be read, and reading them one after the other gives `rows`. */
  ghost predicate Hold(fields: seq<Field>, chunks: seq<Chunk>, rows: seq<Row>) {
    AllReadable(fields, chunks) && AllRectangular(chunks) && AllRows(fields, chunks) == rows
  }

  /** The groups hold every row from `offset` on, once and in order. */
  lemma {:induction false} GroupsHoldTheRows(fields: seq<Field>, c: Chunk, rowCount: nat, size: nat, offset: nat)
    requires size >= 1 && Rectangular(c, rowCount) && offset <= rowCount && Readable(fields, c)
    ensures Hold(fields, Groups(c, rowCount, size, offset), RowsFrom(fields, c, rowCount, offset))
    decreases rowCount - offset
  {
    if offset < rowCount {
      var length := Min(size, rowCount - offset);
      var rest := Groups(c, rowCount, size, offset + length);
      assert Groups(c, rowCount, size, offset) == [Sliced(c, offset, length)] + rest;
      GroupsHoldTheRows(fields, c, rowCount, size, offset + length);
      FirstGroupHoldsItsRows(fields, c, rowCount, offset, length, rest);
    } else {
      NoGroupsHoldNoRows(fields, c, rowCount);
    }
  }

  lemma NoGroupsHoldNoRows(fields: seq<Field>, c: Chunk, rowCount: nat)
    requires Rectangular(c, rowCount) && Readable(fields, c)
    ensures Hold(fields, [], RowsFrom(fields, c, rowCount, rowCount))
  {
  }

  lemma FirstGroupHoldsItsRows(fields: seq<Field>, c: Chunk, rowCount: nat, offset: nat, length: nat, rest: seq<Chunk>)
    requires Rectangular(c, rowCount) && offset + length <= rowCount && Readable(fields, c)
    requires Hold(fields, rest, RowsFrom(fields, c, rowCount, offset + length))
    ensures Hold(fields, [Sliced(c, offset, length)] + rest, RowsFrom(fields, c, rowCount, offset))
  {
    SlicedReadable(fields, c, offset, length);
    assert ([Sliced(c, offset, length)] + rest)[1..] == rest;
    RowsFromSplit(fields, c, rowCount, offset, length);
  }

  /** Every group but the last is full, and the last is not empty. */
  lemma {:induction false} GroupsAreFull(c: Chunk, rowCount: nat, size: nat, offset: nat)
    requires size >= 1 && Rectangular(c, rowCount) && offset < rowCount && c != []
    ensures var g := Groups(c, rowCount, size, offset);
            && |g| >= 1
            && (forall i :: 0 <= i < |g| - 1 ==> Length(g[i]) == size)
            && 1 <= Length(g[|g| - 1]) <= size
    decreases rowCount - offset
  {
    var length := Min(size, rowCount - offset);
    if offset + length < rowCount {
      GroupsAreFull(c, rowCount, size, offset + length);
    }
  }

  // ----- the loops -----

  method BuildRowGroupChunks(c: Chunk, rowCount: nat, size: nat) returns (chunks: seq<Chunk>)
    requires size >= 1 && Rectangular(c, rowCount)
    ensures |chunks| >= 1
    ensures chunks == if rowCount == 0 then [Sliced(c, 0, 0)] else Groups(c, rowCount, size, 0)
  {
    if rowCount == 0 {
      return [Sliced(c, 0, 0)];
    }
    chunks := [];
    var offset := 0;
    while offset < rowCount
      invariant offset <= rowCount
      invariant chunks + Groups(c, rowCount, size, offset) == Groups(c, rowCount, size, 0)
    {
      var length := Min(size, rowCount - offset);
      chunks := chunks + [Sliced(c, offset, length)];
      offset := offset + length;
    }
  }

  /** Transposes a chunk into rows, filling the row maps in place, one column after the other. */
  method ChunkToRows(fields: seq<Field>, c: Chunk) returns (r: Result<seq<Row>>)
    requires Rectangular(c, Length(c))
    ensures r.Ok? <==> Readable(fields, c)
    ensures r.Ok? ==> r.value == RowsOf(fields, c)
  {
    if |fields| != |c| {
      return Err("Parquet schema/column mismatch");
    }
    var rowCount := Length(c);
    var rows := new Row[rowCount](_ => map[]);
    for i := 0 to |c|
      invariant forall j :: 0 <= j < i ==> !fields[j].dataType.Unsupported? && c[j].dataType == fields[j].dataType
      invariant forall k :: 0 <= k < rowCount ==> rows[k] == RowOf(fields, c, k, i)
    {
      if fields[i].dataType.Unsupported? {
        return Err("Arrow type not supported");
      }
      if c[i].dataType != fields[i].dataType {
        return Err("unexpected array type");
      }
      for k := 0 to rowCount
        invariant forall m :: 0 <= m < k ==> rows[m] == RowOf(fields, c, m, i + 1)
        invariant forall m :: k <= m < rowCount ==> rows[m] == RowOf(fields, c, m, i)
      {
        rows[k] := rows[k][fields[i].name := CellJson(c[i].cells[k])];
      }
    }
    return Ok(rows[..]);
  }

  lemma AllRowsFrom(fields: seq<Field>, chunks: seq<Chunk>, i: nat)
    requires AllReadable(fields, chunks) && AllRectangular(chunks) && i < |chunks|
    ensures AllRows(fields, chunks[i..]) == RowsOf(fields, chunks[i]) + AllRows(fields, chunks[i + 1..])
  {
    assert chunks[i..][1..] == chunks[i + 1..];
  }

  /** Reads chunk after chunk, extending the rows; the first unreadable chunk fails the read. */
  method ReadChunks(fields: seq<Field>, chunks: seq<Chunk>) returns (r: Result<seq<Row>>)
    requires AllRectangular(chunks)
    ensures r.Ok? <==> AllReadable(fields, chunks)
    ensures r.Ok? ==> r.value == AllRows(fields, chunks)
  {
    var rows: seq<Row> := [];
    for i := 0 to |chunks|
      invariant forall j :: 0 <= j < i ==> Readable(fields, chunks[j])
      invariant AllReadable(fields, chunks) ==> Hold(fields, chunks, rows + AllRows(fields, chunks[i..]))
    {
      var more := ChunkToRows(fields, chunks[i]);
      if more.Err? {
        return Err(more.message);
      }
      if AllReadable(fields, chunks) {
        AllRowsFrom(fields, chunks, i);
        assert rows + (more.value + AllRows(fields, chunks[i + 1..])) == rows + more.value + AllRows(fields, chunks[i + 1..]);
      }
      rows := rows + more.value;
    }
    return Ok(rows);
  }

  /** Writing in row groups and reading back is transposing the unsplit columns, failures included. */
  method WriteThenRead(fields: seq<Field>, c: Chunk, rowCount: nat, size: nat) returns (r: Result<seq<Row>>)
    requires size >= 1 && Rectangular(c, rowCount)
    ensures r.Ok? <==> Readable(fields, c)
    ensures r.Ok? ==> r.value == RowsOf(fields, c)
  {
    var chunks := BuildRowGroupChunks(c, rowCount, size);
    if rowCount == 0 {
      SlicedReadable(fields, c, 0, 0);
      assert [Sliced(c, 0, 0)][1..] == [];
    } else {
      GroupsReadable(fields, c, rowCount, size, 0);
      if Readable(fields, c) {
        GroupsHoldTheRows(fields, c, rowCount, size, 0);
      }
    }
    r := ReadChunks(fields, chunks);
  }
}
