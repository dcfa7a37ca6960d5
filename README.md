# Chunked column table

A Dafny model of the storage table in `src/lib/storage/table.cpp`. A table is a
list of row groups called chunks, each with a fixed capacity. Every chunk holds
one segment per column. A segment is the values of one column inside one
chunk, tagged with the column's type name. Beside the chunks, the table keeps
its schema as two parallel lists (column names and type names) and the chunk
capacity.

Files:

- `results.dfy`, module `Results`: the failure kinds `OutOfBounds` and
  `NotFound`, and the `Result`/`Option` types the accessors return instead of
  throwing.
- `chunk.dfy`, module `Chunks`: values, segments and the `Chunk` row group.
  The chunk is a value. `Size()` is the length of the first segment, or 0 when
  the chunk has no segments. `Append` adds value `i` to segment `i`. `Rows()`
  reads the chunk back as a list of rows.
- `table.dfy`, module `Tables` has three parts:
  - A value-level account of the table's chunk list:
    - the row-group invariant `RowGroups`;
    - the closed-form row count `FormulaRowCount`;
    - the effects of adding a column (`WithColumn`) and appending a row
      (`Routed`, with `AppendAll` for many rows);
    - the lemmas tying these together.
  - The class `Table`, whose fields `chunks`, `columnNames`, `types` and
    `const chunkSize` are changed by `AddColumn` and `Append` the way the
    source pushes onto its lists. The count queries and accessors are
    functions of that state.
  - `TwoColumnExample`, a client method. It builds a two-column table of
    capacity 2 and appends three rows. From the contracts alone it proves that
    the table has 3 rows in 2 chunks of 2 and 1 rows, that `"b"` is column 1,
    and that an unknown name gives `NotFound`.

`Table.Valid()` is the object invariant. It holds after construction and after
every operation. It says:

- there is at least one chunk;
- every chunk is aligned (all its segments have the same length);
- every chunk has one segment per column, with that column's type name;
- every chunk but the last is exactly full;
- the last chunk holds at most `chunkSize` rows, and at least one row when it
  is not the only chunk;
- the capacity is positive.

Under this invariant, the closed-form `RowCount()` equals the number of stored
rows (`|Rows()|`). `ChunkCount()` is max(1, ceil(rows / capacity)), stated
both as bounds and with integer division.

## Model

| member | source | states |
|---|---|---|
| `Tables.Table.constructor` | src/lib/storage/table.cpp:20 | A new table is valid and has the given positive capacity. It has exactly one empty chunk, no columns and no rows. |
| `Tables.Table.AddColumn` | src/lib/storage/table.cpp:22-28 | The name and the type are appended to their lists, which stay index-aligned. Every chunk gains exactly one empty segment of that type. The column count grows by 1 and the chunk count is unchanged. The table stays valid and empty. |
| `Tables.Table.Append` | src/lib/storage/table.cpp:30-38 | The new chunk list is `Routed(old chunks, values)`. When the last chunk was full, one chunk (empty segments plus this row) is added and every earlier chunk is unchanged. Otherwise the chunk count is unchanged and only the last chunk changes. The stored rows gain exactly `values` when there are columns, which is also the last chunk's last row. The row count grows by 1. The schema is unchanged and the table stays valid. |
| `Tables.Table.NewChunk` | src/lib/storage/table.cpp:32-35 | The loop builds a chunk with one fresh empty segment per column, carrying the column's type in column order (`EmptyChunk(types)`). |
| `Tables.Table.ColumnCount` | src/lib/storage/table.cpp:40 | The segment count of chunk 0 equals the number of column names and of types. |
| `Tables.Table.RowCount` | src/lib/storage/table.cpp:42 | The closed form (chunks - 1) * capacity + size of the last chunk equals the number of rows stored. |
| `Tables.Table.ChunkCount` | src/lib/storage/table.cpp:44 | The chunk count is at least 1 and equals max(1, ceil(RowCount / capacity)). |
| `Tables.Table.ColumnIdByName` | src/lib/storage/table.cpp:46-54 | The search loop returns the smallest id whose name equals the argument. It returns `NotFound` exactly when no column has that name, and never a default id. The result agrees with `IndexOf`. |
| `Tables.Table.ChunkSize` | src/lib/storage/table.cpp:56 | The capacity, which is positive in a valid table. It is a `const` field, so no operation can change it. |
| `Tables.Table.ColumnNames` | src/lib/storage/table.cpp:58 | The name list, index-aligned with `ColumnName`: entry i is what `ColumnName(i)` returns. |
| `Tables.Table.ColumnName` | src/lib/storage/table.cpp:60 | It returns the name at `id` exactly when `id` is in range, and `OutOfBounds` otherwise. |
| `Tables.Table.ColumnType` | src/lib/storage/table.cpp:62 | It returns the type at `id` exactly when `id` is in range, and `OutOfBounds` otherwise. |
| `Tables.Table.GetChunk` | src/lib/storage/table.cpp:64-66 | It returns chunk `id` exactly when `id` is in range, and `OutOfBounds` otherwise. In a valid table that chunk carries the schema's types and holds at most capacity rows, exactly capacity unless it is the last. |
| `Chunks.Chunk.Size` | src/lib/storage/table.cpp:31-42 | The chunk's row count is the length of segment 0, and 0 when the chunk has no segments. It drives the full-chunk test at line 31 and the closed-form row count at line 42. Because of the 0 case, appends to a table with no columns store nothing. |
| `Chunks.Chunk.ColumnCount` | src/lib/storage/table.cpp:40 | The chunk's column count is the number of segments attached to it. |
| `Chunks.Chunk.AddSegment` | src/lib/storage/table.cpp:26 | Attaching a segment adds one column, whose type is appended to the chunk's types. |
| `Chunks.Chunk.Append` | src/lib/storage/table.cpp:37 | Appending a row of one value per segment keeps the segment count. |
| `Chunks.AppendAddsRow` | src/lib/storage/table.cpp:37 | Appending to an aligned chunk keeps it aligned and keeps its types. With at least one segment it adds exactly one row, equal to `values`. With no segments it stores nothing. |
| `Chunks.AddSegmentAfterRowsMisaligns` | src/lib/storage/table.cpp:22-28 | Adding an empty segment to a chunk that already holds rows breaks alignment. This is why `AddColumn` requires an empty table. |
| `Tables.EmptyChunk` | src/lib/storage/table.cpp:32-35 | The chunk a full table opens is aligned and empty, with exactly the schema's types. |
| `Tables.WithColumn` | src/lib/storage/table.cpp:25-27 | Adding a column keeps the number of chunks and gives every chunk one more segment. |
| `Tables.Routed` | src/lib/storage/table.cpp:30-38 | Routing a row leaves a non-empty chunk list whose last chunk still has one segment per column. |
| `Tables.AppendAll` | src/lib/storage/table.cpp:30-38 | Appending rows one by one leaves a non-empty chunk list whose last chunk has one segment per column. |
| `Tables.WithColumnStep` | src/lib/storage/table.cpp:22-28 | Adding a column to a well-formed table without rows gives a well-formed table with the extended schema and still no rows. |
| `Tables.RoutedShape` | src/lib/storage/table.cpp:31-37 | If the last chunk is full, exactly one chunk is added after the unchanged old ones, and it is an empty chunk holding the row. Otherwise only the last chunk changes, by appending the row. |
| `Tables.RoutedStep` | src/lib/storage/table.cpp:30-38 | Appending a row preserves the invariant. The table's rows gain exactly that row when there are columns, and the row is the last chunk's last row. |
| `Tables.AppendAllRows` | src/lib/storage/table.cpp:30-38 | On a table with at least one column, any sequence of well-formed appends preserves the invariant and adds exactly those rows, in order. |
| `Tables.FullChunksRows` | src/lib/storage/table.cpp:42 | A list of full chunks holds exactly (number of chunks) * capacity rows. |
| `Tables.RowCountFormulaExact` | src/lib/storage/table.cpp:42 | Under the row-group invariant, the closed-form row count equals the number of stored rows. |
| `Tables.ChunkCountIsCeiling` | src/lib/storage/table.cpp:31-44 | Under the row-group invariant, the chunk count is max(1, ceil(row count / capacity)). |
| `Tables.CeilingIsDivision` | src/lib/storage/table.cpp:44 | The bounds (n-1)*cs < rows <= n*cs, with n = 1 when there are no rows, pin n to max(1, (rows + cs - 1) / cs). |
| `Tables.AppendsFromEmptyTable` | src/lib/storage/table.cpp:20-44 | After N appends to a new table with columns, the table holds exactly those N rows. The row count is N and the chunk count is max(1, ceil(N / capacity)). |
| `Tables.CapacityBoundary` | src/lib/storage/table.cpp:31-37 | Exactly capacity appends leave one chunk. One more append makes two chunks: the first is full and the second holds one row. |
| `Tables.IndexOf` | src/lib/storage/table.cpp:46-54 | The first index holding the name, with no earlier match, or `None` exactly when the name is absent. |
| `Tables.IndexOfNameAt` | src/lib/storage/table.cpp:46-60 | With distinct names, looking up the name of column i gives back i. |

## Left out

- `Chunk` (chunk.cpp) is not modelled from its code; it is modelled from its use in table.cpp: `size()` is the first segment's length (0 without segments), `append` extends segment i by value i, and `add_segment` attaches a segment at the end. The model never assumes the segments have equal length: that is a checked property, proved to hold after every `Append` (`AppendAddsRow`).
- Shared ownership of chunks is not modelled. Chunks are values stored in the table's list, so an update in place of a referenced chunk becomes a replacement of a list element. `GetChunk` returns the chunk's value, and its mutable and read-only overloads are one function. Edits made through a reference a caller holds, aliasing and thread safety are not modelled.
- The runtime type-name dispatch that builds a segment for a type name is not modelled: a new segment is `Segment(type, [])` for any type name. The failure this dispatch raises for an unknown type name is not modelled either.
- Value conversion and checking a value against its column type are not modelled. `Value` is a two-case stand-in (integer, string) for the implementation's variant type.
- The fixed-width integers (`uint16_t` column count, `uint32_t` capacity, `ChunkID`, `uint64_t` row count, the `int` index in the name search) are unbounded here, so overflow is not modelled.
- Exceptions become results: an out-of-range `.at` gives `Err(OutOfBounds)`. The plain `std::exception` thrown by the name search gives `Err(NotFound)`. The unreachable `return ColumnID{0}` after the throw has no counterpart.
- The code accepts a capacity of 0, which opens a new chunk on every append and breaks the row-count formula. The constructor requires `chunkSize > 0` instead.
- The code lets `add_column` run after rows exist, which misaligns the filled chunks (`AddSegmentAfterRowsMisaligns`). `AddColumn` requires `RowCount() == 0` instead.
- `Append` requires `|values| == ColumnCount()`. The code passes a mismatched row on to the chunk unchecked.
- With no columns, an append stores nothing and the row count stays 0. `Append` states this case (the rows grow only when `ColumnCount() > 0`). `AppendAllRows`, `AppendsFromEmptyTable` and `CapacityBoundary` are stated for tables with at least one column.
- Tables.Table.ColumnCount, Tables.Table.RowCount and Tables.Table.ChunkCount require the object invariant `Valid()`, which every constructed table satisfies. The code reads chunk 0 and the last chunk without a check, which is safe only because at least one chunk always exists.
