/**
 * A chunk is a row group: one segment per column, each segment an
 * ordered sequence of values tagged with the column's type name.
 * The chunk is modelled by value; see `Tables` for how the table
 * replaces a chunk where the implementation mutates it in place.
 */
module Chunks {

  /** The type name a segment is created for (`"int"`, `"string"`, ...). */
  type TypeTag = string

  /** A cell value; stands for the implementation's tagged variant type. */
  datatype Value = IntValue(i: int) | StringValue(s: string)

  /** One column's storage inside one chunk. */
  datatype Segment = Segment(typ: TypeTag, values: seq<Value>)

  datatype Chunk = Chunk(segments: seq<Segment>) {

    /** Number of segments attached, i.e. of columns. */
    function ColumnCount(): (n: nat)
      ensures n == |segments|
    {
      |segments|
    }

    /** Rows held: the length of the first segment, 0 without segments. */
    function Size(): (n: nat)
      ensures segments == [] ==> n == 0
      ensures segments != [] ==> n == |segments[0].values|
    {
      if segments == [] then 0 else |segments[0].values|
    }

    /** Every segment holds the same number of values. */
    predicate Aligned() {
      forall i :: 0 <= i < |segments| ==> |segments[i].values| == Size()
    }

    /** The type tags of the segments, in column order. */
    function Types(): (ts: seq<TypeTag>)
      ensures |ts| == ColumnCount()
    {
      seq(|segments|, i requires 0 <= i < |segments| => segments[i].typ)
    }

    /** Row `k` read across the segments. */
    function Row(k: nat): (row: seq<Value>)
      requires Aligned() && k < Size()
      ensures |row| == ColumnCount()
    {
      seq(|segments|, i requires 0 <= i < |segments| => segments[i].values[k])
    }

    /** The chunk's contents as a sequence of rows. */
    function Rows(): (rows: seq<seq<Value>>)
      requires Aligned()
      ensures |rows| == Size()
    {
      seq(Size(), k requires 0 <= k < Size() => Row(k))
    }

    /** Attach one more segment after the existing ones. */
    function AddSegment(s: Segment): (c: Chunk)
      ensures c.ColumnCount() == ColumnCount() + 1
      ensures c.Types() == Types() + [s.typ]
    {
      var c := Chunk(segments + [s]);
      assert c.Types() == Types() + [s.typ] by {
        forall i | 0 <= i < |segments| + 1
          ensures c.Types()[i] == (Types() + [s.typ])[i]
        {
        }
      }
      c
    }

    /** Append one row: value `i` goes to the end of segment `i`. */
    function Append(values: seq<Value>): (c: Chunk)
      requires |values| == ColumnCount()
      ensures c.ColumnCount() == ColumnCount()
    {
      Chunk(seq(|segments|, i requires 0 <= i < |segments| =>
        Segment(segments[i].typ, segments[i].values + [values[i]])))
    }
  }

  /**
   * Appending to an aligned chunk keeps it aligned and types unchanged;
   * with at least one segment the chunk gains exactly the row `values`,
   * without segments nothing is stored.
   */
  lemma AppendAddsRow(c: Chunk, values: seq<Value>)
    requires c.Aligned() && |values| == c.ColumnCount()
    ensures c.Append(values).Aligned()
    ensures c.Append(values).Types() == c.Types()
    ensures c.Append(values).Size() == c.Size() + (if c.ColumnCount() == 0 then 0 else 1)
    ensures c.Append(values).Rows() == c.Rows() + (if c.ColumnCount() == 0 then [] else [values])
  {
    var r := c.Append(values);
    var n := |c.segments|;
    assert r.Types() == c.Types() by {
      forall i | 0 <= i < n ensures r.Types()[i] == c.Types()[i] { }
    }
    if n > 0 {
      assert r.Size() == c.Size() + 1;
      assert r.Aligned();
      forall k | 0 <= k < c.Size()
        ensures r.Rows()[k] == c.Rows()[k]
      {
        assert r.Row(k) == c.Row(k) by {
          forall i | 0 <= i < n ensures r.Row(k)[i] == c.Row(k)[i] {
            assert r.segments[i].values == c.segments[i].values + [values[i]];
          }
        }
      }
      assert r.Row(c.Size()) == values by {
        forall i | 0 <= i < n ensures r.Row(c.Size())[i] == values[i] {
          assert r.segments[i].values == c.segments[i].values + [values[i]];
        }
      }
      assert r.Rows() == c.Rows() + [values];
    } else {
      assert r.segments == [];
    }
  }

  /**
   * Attaching an empty segment to a chunk that already holds rows breaks
   * alignment: the reason a column may only be added to an empty table.
   */
  lemma AddSegmentAfterRowsMisaligns(c: Chunk, t: TypeTag)
    requires c.Aligned() && c.Size() > 0
    ensures !c.AddSegment(Segment(t, [])).Aligned()
  {
    var r := c.AddSegment(Segment(t, []));
    assert r.Size() == c.Size();
    assert |r.segments[|c.segments|].values| == 0;
  }
}
