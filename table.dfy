/**
 * The chunked, column-oriented table: a list of fixed-capacity chunks, a
 * schema held as two parallel lists (names and type tags) and the chunk
 * capacity. The first part states, on plain values, what the table's
 * operations do to its chunk list and proves the row-group invariant and
 * the row-count formula; the class `Table` then implements those
 * operations over its fields.
 */
module Tables {
  import opened Results
  import opened Chunks

  // ---------------------------------------------------------------------
  // Layout of a chunk list
  // ---------------------------------------------------------------------

  /** Every chunk is aligned and carries one segment per schema type, in order. */
  ghost predicate Shaped(chunks: seq<Chunk>, types: seq<TypeTag>) {
    forall k :: 0 <= k < |chunks| ==> chunks[k].Aligned() && chunks[k].Types() == types
  }

  /**
   * The row-group invariant: at least one chunk; every chunk but the last
   * is exactly full; the last one is at most full, and holds a row
   * whenever it is not the only chunk.
   */
  ghost predicate RowGroups(chunks: seq<Chunk>, cs: nat) {
    |chunks| >= 1 &&
    (forall k :: 0 <= k < |chunks| - 1 ==> chunks[k].Size() == cs) &&
    chunks[|chunks| - 1].Size() <= cs &&
    (|chunks| > 1 ==> chunks[|chunks| - 1].Size() > 0)
  }

  /** The table invariant on its chunk list, schema types and positive capacity. */
  ghost predicate WellFormed(chunks: seq<Chunk>, types: seq<TypeTag>, cs: nat) {
    cs > 0 && Shaped(chunks, types) && RowGroups(chunks, cs)
  }

  /** All rows of the table, chunk after chunk. */
  ghost function AllRows(chunks: seq<Chunk>): seq<seq<Value>>
    requires forall k :: 0 <= k < |chunks| ==> chunks[k].Aligned()
  {
    if chunks == [] then [] else AllRows(chunks[..|chunks| - 1]) + chunks[|chunks| - 1].Rows()
  }

  /** The closed-form row count used by the table. */
  function FormulaRowCount(chunks: seq<Chunk>, cs: nat): nat
    requires |chunks| > 0
  {
    (|chunks| - 1) * cs + chunks[|chunks| - 1].Size()
  }

  /**
   * `n` is max(1, ceil(rows / cs)): one chunk when there are no rows, and
   * otherwise the fewest chunks of capacity `cs` that hold `rows` rows.
   */
  ghost predicate CeilingChunkCount(n: nat, rows: nat, cs: nat) {
    if rows == 0 then n == 1 else (n - 1) * cs < rows <= n * cs
  }

  /** max(1, ceil(rows / cs)) computed by integer division. */
  function ExpectedChunkCount(rows: nat, cs: nat): nat
    requires cs > 0
  {
    if rows == 0 then 1 else (rows + cs - 1) / cs
  }

  /** A chunk with one empty segment per type, as the table opens one. */
  function EmptyChunk(types: seq<TypeTag>): (c: Chunk)
    ensures c.Aligned() && c.Size() == 0 && c.Types() == types && c.Rows() == []
  {
    var c := Chunk(seq(|types|, i requires 0 <= i < |types| => Segment(types[i], [])));
    assert c.Types() == types by {
      forall i | 0 <= i < |types| ensures c.Types()[i] == types[i] { }
    }
    c
  }

  /** The chunk list after adding a column of type `t`. */
  function WithColumn(chunks: seq<Chunk>, t: TypeTag): (r: seq<Chunk>)
    ensures |r| == |chunks|
    ensures forall k :: 0 <= k < |r| ==> r[k].ColumnCount() == chunks[k].ColumnCount() + 1
  {
    seq(|chunks|, k requires 0 <= k < |chunks| => chunks[k].AddSegment(Segment(t, [])))
  }

  /**
   * The chunk list after appending the row `values`: a new empty chunk is
   * opened first when the last one is full, then the row goes to the last chunk.
   */
  function Routed(chunks: seq<Chunk>, types: seq<TypeTag>, cs: nat, values: seq<Value>): (r: seq<Chunk>)
    requires |chunks| > 0 && chunks[|chunks| - 1].ColumnCount() == |types| == |values|
    ensures |r| > 0 && r[|r| - 1].ColumnCount() == |types|
  {
    var base := if chunks[|chunks| - 1].Size() >= cs then chunks + [EmptyChunk(types)] else chunks;
    base[|base| - 1 := base[|base| - 1].Append(values)]
  }

  /** The chunk list after appending `rows` one after the other. */
  function AppendAll(chunks: seq<Chunk>, types: seq<TypeTag>, cs: nat, rows: seq<seq<Value>>): (r: seq<Chunk>)
    requires |chunks| > 0 && chunks[|chunks| - 1].ColumnCount() == |types|
    requires forall j :: 0 <= j < |rows| ==> |rows[j]| == |types|
    ensures |r| > 0 && r[|r| - 1].ColumnCount() == |types|
    decreases |rows|
  {
    if rows == [] then chunks
    else AppendAll(Routed(chunks, types, cs, rows[0]), types, cs, rows[1..])
  }

  // ---------------------------------------------------------------------
  // Lemmas
  // ---------------------------------------------------------------------

  /** A list of full chunks holds exactly |chunks| * cs rows. */
  lemma {:induction false} FullChunksRows(chunks: seq<Chunk>, cs: nat)
    requires forall k :: 0 <= k < |chunks| ==> chunks[k].Aligned() && chunks[k].Size() == cs
    ensures |AllRows(chunks)| == |chunks| * cs
  {
    if chunks != [] {
      var n := |chunks|;
      var prefix := chunks[..n - 1];
      FullChunksRows(prefix, cs);
      assert |AllRows(chunks)| == |AllRows(prefix)| + cs;
      OneMoreRound(n - 1, cs);
    }
  }

  /** Under the row-group invariant the closed-form row count is exact. */
  lemma RowCountFormulaExact(chunks: seq<Chunk>, cs: nat)
    requires forall k :: 0 <= k < |chunks| ==> chunks[k].Aligned()
    requires RowGroups(chunks, cs)
    ensures FormulaRowCount(chunks, cs) == |AllRows(chunks)|
  {
    var n := |chunks|;
    FullChunksRows(chunks[..n - 1], cs);
  }

  /** k + 1 rounds of cs are k rounds and one more. */
  lemma OneMoreRound(k: nat, cs: nat)
    ensures (k + 1) * cs == k * cs + cs
  {
  }

  /** Multiplying by a positive capacity preserves strict order. */
  lemma MulOrder(a: nat, b: nat, cs: nat)
    requires cs > 0
    ensures a * cs < b * cs <==> a < b
  {
    if a < b {
      assert b * cs == a * cs + (b - a) * cs;
    } else {
      assert a * cs == b * cs + (a - b) * cs;
    }
  }

  /** x / d is q when x lies in [q * d, q * d + d). */
  lemma DivisionByBounds(x: nat, d: nat, q: nat)
    requires d > 0 && q * d <= x < q * d + d
    ensures x / d == q
  {
    var p := x / d;
    assert x == p * d + x % d && 0 <= x % d < d;
    OneMoreRound(q, d);
    OneMoreRound(p, d);
    MulOrder(p, q + 1, d);
    MulOrder(q, p + 1, d);
  }

  /** The bounds characterisation of the chunk count agrees with ceiling division. */
  lemma CeilingIsDivision(n: nat, rows: nat, cs: nat)
    requires cs > 0 && CeilingChunkCount(n, rows, cs)
    ensures n == ExpectedChunkCount(rows, cs)
  {
    if rows > 0 {
      OneMoreRound(n - 1, cs);
      DivisionByBounds(rows + cs - 1, cs, n);
    }
  }

  /** Under the row-group invariant the chunk count is max(1, ceil(rows / cs)). */
  lemma ChunkCountIsCeiling(chunks: seq<Chunk>, cs: nat)
    requires cs > 0 && RowGroups(chunks, cs)
    ensures CeilingChunkCount(|chunks|, FormulaRowCount(chunks, cs), cs)
    ensures |chunks| == ExpectedChunkCount(FormulaRowCount(chunks, cs), cs)
  {
    var n := |chunks|;
    var s := chunks[n - 1].Size();
    assert n > 1 ==> s > 0;
    OneMoreRound(n - 1, cs);
    CeilingIsDivision(n, FormulaRowCount(chunks, cs), cs);
  }

  /** Adding a column to a table without rows keeps it well formed and empty. */
  lemma WithColumnStep(chunks: seq<Chunk>, types: seq<TypeTag>, cs: nat, t: TypeTag)
    requires WellFormed(chunks, types, cs) && FormulaRowCount(chunks, cs) == 0
    ensures WellFormed(WithColumn(chunks, t), types + [t], cs)
    ensures AllRows(WithColumn(chunks, t)) == [] == AllRows(chunks)
  {
    var n := |chunks|;
    assert n == 1;
    var c := chunks[0];
    var c' := c.AddSegment(Segment(t, []));
    assert c.Size() == 0;
    assert c'.Aligned() by {
      forall i | 0 <= i < |c'.segments| ensures |c'.segments[i].values| == c'.Size() {
        if i < |c.segments| { assert c'.segments[i] == c.segments[i]; }
      }
    }
    assert WithColumn(chunks, t) == [c'];
    assert AllRows([c']) == AllRows([]) + c'.Rows();
    assert AllRows(chunks) == AllRows([]) + c.Rows();
  }

  /**
   * Where an appended row goes: when the last chunk is full exactly one chunk,
   * an empty chunk holding just the new row, is added after the kept ones;
   * otherwise only the last chunk changes, by appending the row to it.
   */
  lemma RoutedShape(chunks: seq<Chunk>, types: seq<TypeTag>, cs: nat, values: seq<Value>)
    requires |chunks| > 0 && chunks[|chunks| - 1].ColumnCount() == |types| == |values|
    ensures var r := Routed(chunks, types, cs, values);
      (chunks[|chunks| - 1].Size() >= cs ==>
         |r| == |chunks| + 1 && r[..|chunks|] == chunks &&
         r[|chunks|] == EmptyChunk(types).Append(values)) &&
      (chunks[|chunks| - 1].Size() < cs ==>
         |r| == |chunks| && r[..|chunks| - 1] == chunks[..|chunks| - 1] &&
         r[|chunks| - 1] == chunks[|chunks| - 1].Append(values))
  {
    var n := |chunks|;
    var r := Routed(chunks, types, cs, values);
    if chunks[n - 1].Size() >= cs {
      assert r[..n] == chunks;
    } else {
      assert r[..n - 1] == chunks[..n - 1];
    }
  }

  /**
   * Appending one row keeps the table well formed and adds exactly that row
   * at the end of the last chunk (nothing, without columns).
   */
  lemma RoutedStep(chunks: seq<Chunk>, types: seq<TypeTag>, cs: nat, values: seq<Value>)
    requires WellFormed(chunks, types, cs) && |values| == |types|
    ensures WellFormed(Routed(chunks, types, cs, values), types, cs)
    ensures AllRows(Routed(chunks, types, cs, values)) ==
      AllRows(chunks) + (if |types| == 0 then [] else [values])
    ensures var last := Routed(chunks, types, cs, values)[|Routed(chunks, types, cs, values)| - 1];
      |types| > 0 ==> last.Size() > 0 && last.Rows()[last.Size() - 1] == values
  {
    var n := |chunks|;
    var last := chunks[n - 1];
    var r := Routed(chunks, types, cs, values);
    RoutedShape(chunks, types, cs, values);
    if last.Size() >= cs {
      var e := EmptyChunk(types);
      AppendAddsRow(e, values);
      assert last.ColumnCount() > 0;
      assert r == chunks + [e.Append(values)];
      assert AllRows(r) == AllRows(chunks) + e.Append(values).Rows();
    } else {
      AppendAddsRow(last, values);
      assert AllRows(r) == AllRows(chunks[..n - 1]) + last.Append(values).Rows();
    }
  }

  /** Appending rows to a table with columns adds exactly those rows. */
  lemma {:induction false} AppendAllRows(chunks: seq<Chunk>, types: seq<TypeTag>, cs: nat, rows: seq<seq<Value>>)
    requires WellFormed(chunks, types, cs) && |types| > 0
    requires forall j :: 0 <= j < |rows| ==> |rows[j]| == |types|
    ensures WellFormed(AppendAll(chunks, types, cs, rows), types, cs)
    ensures AllRows(AppendAll(chunks, types, cs, rows)) == AllRows(chunks) + rows
    decreases |rows|
  {
    if rows != [] {
      var rest := rows[1..];
      var next := Routed(chunks, types, cs, rows[0]);
      RoutedStep(chunks, types, cs, rows[0]);
      AppendAllRows(next, types, cs, rest);
      assert AppendAll(chunks, types, cs, rows) == AppendAll(next, types, cs, rest);
      assert rows == [rows[0]] + rest;
    }
  }

  /**
   * Starting from a new table with columns, after N appends the table holds
   * exactly the N rows, the row count is N and the chunk count is
   * max(1, ceil(N / cs)).
   */
  lemma AppendsFromEmptyTable(types: seq<TypeTag>, cs: nat, rows: seq<seq<Value>>)
    requires cs > 0 && |types| > 0
    requires forall j :: 0 <= j < |rows| ==> |rows[j]| == |types|
    ensures var t := AppendAll([EmptyChunk(types)], types, cs, rows);
      WellFormed(t, types, cs) && AllRows(t) == rows &&
      FormulaRowCount(t, cs) == |rows| && CeilingChunkCount(|t|, |rows|, cs) &&
      |t| == ExpectedChunkCount(|rows|, cs)
  {
    var start := [EmptyChunk(types)];
    assert AllRows(start) == AllRows([]) + EmptyChunk(types).Rows();
    AppendAllRows(start, types, cs, rows);
    var t := AppendAll(start, types, cs, rows);
    forall k | 0 <= k < |t| ensures t[k].Aligned() { }
    RowCountFormulaExact(t, cs);
    ChunkCountIsCeiling(t, cs);
  }

  /**
   * Exactly `cs` appends fill the first chunk without opening a second;
   * one more append opens a second chunk holding one row.
   */
  lemma CapacityBoundary(types: seq<TypeTag>, cs: nat, rows: seq<seq<Value>>)
    requires cs > 0 && |types| > 0 && |rows| == cs + 1
    requires forall j :: 0 <= j < |rows| ==> |rows[j]| == |types|
    ensures |AppendAll([EmptyChunk(types)], types, cs, rows[..cs])| == 1
    ensures var t := AppendAll([EmptyChunk(types)], types, cs, rows);
      |t| == 2 && t[0].Size() == cs && t[1].Size() == 1
  {
    AppendsFromEmptyTable(types, cs, rows[..cs]);
    var n := |AppendAll([EmptyChunk(types)], types, cs, rows[..cs])|;
    MulOrder(n - 1, 1, cs);
    AppendsFromEmptyTable(types, cs, rows);
    var m := |AppendAll([EmptyChunk(types)], types, cs, rows)|;
    MulOrder(1, m, cs);
    MulOrder(m - 1, 2, cs);
  }

  // ---------------------------------------------------------------------
  // Name lookup
  // ---------------------------------------------------------------------

  /** All names are distinct. */
  ghost predicate Unique(names: seq<string>) {
    forall i, j :: 0 <= i < j < |names| ==> names[i] != names[j]
  }

  /** The first index holding `name`, or None when no entry does. */
  function IndexOf(names: seq<string>, name: string): (r: Option<nat>)
    ensures r.Some? ==> r.value < |names| && names[r.value] == name
    ensures r.Some? ==> forall j :: 0 <= j < r.value ==> names[j] != name
    ensures r.None? <==> name !in names
  {
    if names == [] then None
    else if names[0] == name then Some(0)
    else match IndexOf(names[1..], name)
      case None => None
      case Some(i) => Some(i + 1)
  }

  /** With distinct names, looking up the name at `i` gives back `i`. */
  lemma IndexOfNameAt(names: seq<string>, i: nat)
    requires Unique(names) && i < |names|
    ensures IndexOf(names, names[i]) == Some(i)
  {
  }

  // ---------------------------------------------------------------------
  // The table
  // ---------------------------------------------------------------------

  class Table {
    var chunks: seq<Chunk>
    var columnNames: seq<string>
    var types: seq<TypeTag>
    const chunkSize: nat

    /** The table invariant: well-formed chunks and an index-aligned schema. */
    ghost predicate Valid()
      reads this
    {
      WellFormed(chunks, types, chunkSize) && |columnNames| == |types|
    }

    /** The rows stored in the table, in order. */
    ghost function Rows(): seq<seq<Value>>
      reads this
      requires Valid()
    {
      AllRows(chunks)
    }

    /** A new table has one empty chunk and no columns. */
    constructor (chunkSize: nat)
      requires chunkSize > 0
      ensures Valid()
      ensures this.chunkSize == chunkSize && chunks == [Chunk([])]
      ensures columnNames == [] && types == []
      ensures ChunkCount() == 1 && ColumnCount() == 0 && RowCount() == 0 && Rows() == []
    {
      this.chunkSize := chunkSize;
      chunks := [Chunk([])];
      columnNames := [];
      types := [];
      new;
      assert AllRows(chunks) == AllRows([]) + chunks[0].Rows();
    }

    /** Append a column to the schema and an empty segment of its type to every chunk. */
    method AddColumn(name: string, typ: TypeTag)
      requires Valid() && RowCount() == 0
      modifies this
      ensures Valid()
      ensures columnNames == old(columnNames) + [name] && types == old(types) + [typ]
      ensures chunks == WithColumn(old(chunks), typ)
      ensures ChunkCount() == old(ChunkCount())
      ensures ColumnCount() == old(ColumnCount()) + 1
      ensures RowCount() == 0 && Rows() == []
    {
      ghost var before := chunks;
      RowCountFormulaExact(chunks, chunkSize);
      WithColumnStep(chunks, types, chunkSize, typ);
      columnNames := columnNames + [name];
      types := types + [typ];
      var i := 0;
      while i < |chunks|
        invariant 0 <= i <= |chunks| == |before|
        invariant columnNames == old(columnNames) + [name] && types == old(types) + [typ]
        invariant forall k :: 0 <= k < i ==> chunks[k] == before[k].AddSegment(Segment(typ, []))
        invariant forall k :: i <= k < |chunks| ==> chunks[k] == before[k]
      {
        chunks := chunks[i := chunks[i].AddSegment(Segment(typ, []))];
        i := i + 1;
      }
      assert chunks == WithColumn(before, typ);
      RowCountFormulaExact(chunks, chunkSize);
    }

    /**
     * Append one row. If the last chunk is full a new chunk with an empty
     * segment per column is opened first; the row lands in the last chunk.
     */
    method Append(values: seq<Value>)
      requires Valid() && |values| == ColumnCount()
      modifies this
      ensures Valid()
      ensures columnNames == old(columnNames) && types == old(types)
      ensures chunks == Routed(old(chunks), types, chunkSize, values)
      ensures old(chunks[|chunks| - 1].Size()) >= chunkSize ==>
        ChunkCount() == old(ChunkCount()) + 1 && chunks[..old(|chunks|)] == old(chunks) &&
        chunks[|chunks| - 1] == EmptyChunk(types).Append(values)
      ensures old(chunks[|chunks| - 1].Size()) < chunkSize ==>
        ChunkCount() == old(ChunkCount()) && chunks[..|chunks| - 1] == old(chunks[..|chunks| - 1]) &&
        chunks[|chunks| - 1] == old(chunks[|chunks| - 1]).Append(values)
      ensures Rows() == old(Rows()) + (if ColumnCount() == 0 then [] else [values])
      ensures RowCount() == old(RowCount()) + (if ColumnCount() == 0 then 0 else 1)
      ensures ColumnCount() > 0 ==>
        chunks[|chunks| - 1].Size() > 0 && chunks[|chunks| - 1].Rows()[chunks[|chunks| - 1].Size() - 1] == values
    {
      ghost var before := chunks;
      if chunks[|chunks| - 1].Size() >= chunkSize {
        var c := NewChunk();
        chunks := chunks + [c];
      }
      assert chunks == if before[|before| - 1].Size() >= chunkSize then before + [EmptyChunk(types)] else before;
      chunks := chunks[|chunks| - 1 := chunks[|chunks| - 1].Append(values)];
      assert chunks == Routed(before, types, chunkSize, values);
      RoutedStep(before, types, chunkSize, values);
      RoutedShape(before, types, chunkSize, values);
    }

    /** A new chunk with one freshly created, empty segment per column type. */
    method NewChunk() returns (c: Chunk)
      requires |columnNames| == |types|
      ensures c == EmptyChunk(types)
    {
      c := Chunk([]);
      var i := 0;
      while i < |columnNames|
        invariant 0 <= i <= |types|
        invariant c == EmptyChunk(types[..i])
      {
        EmptyChunkGrows(types, i);
        c := c.AddSegment(Segment(types[i], []));
        i := i + 1;
      }
      assert types[..i] == types;
    }

    /** Number of columns, read from the first chunk. */
    function ColumnCount(): (n: nat)
      reads this
      requires Valid()
      ensures n == |columnNames| == |types|
    {
      chunks[0].ColumnCount()
    }

    /** (chunk count - 1) * capacity + rows in the last chunk: the number of stored rows. */
    function RowCount(): (n: nat)
      reads this
      requires Valid()
      ensures n == |Rows()|
    {
      RowCountFormulaExact(chunks, chunkSize);
      FormulaRowCount(chunks, chunkSize)
    }

    /** Number of chunks: never zero, and max(1, ceil(rows / capacity)). */
    function ChunkCount(): (n: nat)
      reads this
      requires Valid()
      ensures n >= 1
      ensures CeilingChunkCount(n, RowCount(), chunkSize)
      ensures n == ExpectedChunkCount(RowCount(), chunkSize)
    {
      ChunkCountIsCeiling(chunks, chunkSize);
      |chunks|
    }

    /** The first column id carrying `name`; NotFound when there is none. */
    method ColumnIdByName(name: string) returns (r: Result<nat>)
      requires Valid()
      ensures r.Ok? ==> r.value < |columnNames| && columnNames[r.value] == name
      ensures r.Ok? ==> forall j :: 0 <= j < r.value ==> columnNames[j] != name
      ensures r.Err? <==> name !in columnNames
      ensures r.Err? ==> r.error == NotFound
      ensures r == match IndexOf(columnNames, name) case Some(i) => Ok(i) case None => Err(NotFound)
    {
      var i := 0;
      while i < ColumnCount()
        invariant 0 <= i <= |columnNames|
        invariant forall j :: 0 <= j < i ==> columnNames[j] != name
      {
        if columnNames[i] == name {
          return Ok(i);
        }
        i := i + 1;
      }
      return Err(NotFound);
    }

    /** The chunk capacity; positive and fixed at construction. */
    function ChunkSize(): (n: nat)
      reads this
      ensures Valid() ==> n > 0
    {
      chunkSize
    }

    /** The column names, index-aligned with the column ids. */
    function ColumnNames(): (names: seq<string>)
      reads this
      ensures |names| == |columnNames|
      ensures forall i :: 0 <= i < |names| ==> ColumnName(i) == Ok(names[i])
    {
      columnNames
    }

    /** The name of column `id`; OutOfBounds past the last column. */
    function ColumnName(id: nat): (r: Result<string>)
      reads this
      ensures r.Ok? <==> id < |columnNames|
      ensures r.Ok? ==> r.value == columnNames[id]
      ensures r.Err? ==> r.error == OutOfBounds
    {
      if id < |columnNames| then Ok(columnNames[id]) else Err(OutOfBounds)
    }

    /** The type tag of column `id`; OutOfBounds past the last column. */
    function ColumnType(id: nat): (r: Result<TypeTag>)
      reads this
      ensures r.Ok? <==> id < |types|
      ensures r.Ok? ==> r.value == types[id]
      ensures r.Err? ==> r.error == OutOfBounds
    {
      if id < |types| then Ok(types[id]) else Err(OutOfBounds)
    }

    /**
     * Chunk `id`; OutOfBounds past the last chunk. In a valid table it has one
     * segment per column of the column's type, and it is full unless it is the last.
     */
    function GetChunk(id: nat): (r: Result<Chunk>)
      reads this
      ensures r.Ok? <==> id < |chunks|
      ensures r.Ok? ==> r.value == chunks[id]
      ensures r.Err? ==> r.error == OutOfBounds
      ensures Valid() && r.Ok? ==>
        r.value.Types() == types && r.value.Size() <= chunkSize &&
        (id + 1 < |chunks| ==> r.value.Size() == chunkSize)
    {
      if id < |chunks| then Ok(chunks[id]) else Err(OutOfBounds)
    }
  }

  /** Adding the segment for type `i` extends the empty chunk for the first `i` types by one. */
  lemma EmptyChunkGrows(types: seq<TypeTag>, i: nat)
    requires i < |types|
    ensures EmptyChunk(types[..i]).AddSegment(Segment(types[i], [])) == EmptyChunk(types[..i + 1])
  {
    var a := EmptyChunk(types[..i]).AddSegment(Segment(types[i], []));
    var b := EmptyChunk(types[..i + 1]);
    assert a.segments == b.segments by {
      forall k | 0 <= k < i + 1 ensures a.segments[k] == b.segments[k] { }
    }
  }

  /**
   * A two-column table of capacity 2, columns "a" (int) and "b" (string), three
   * rows give three rows in two chunks of 2 and 1 rows; "b" is column 1.
   */
  method TwoColumnExample() {
    var t := new Table(2);
    t.AddColumn("a", "int");
    t.AddColumn("b", "string");
    t.Append([IntValue(1), StringValue("x")]);
    t.Append([IntValue(2), StringValue("y")]);
    t.Append([IntValue(3), StringValue("z")]);
    assert t.RowCount() == 3;
    assert t.ChunkCount() == 2;
    var c0 := t.GetChunk(0);
    var c1 := t.GetChunk(1);
    assert c0.Ok? && c0.value.Size() == 2;
    assert c1.Ok? && c1.value.Size() == 1;
    var b := t.ColumnIdByName("b");
    assert b == Ok(1);
    var missing := t.ColumnIdByName("c");
    assert missing == Err(NotFound);
  }
}
