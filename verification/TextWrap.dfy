/**
  Soft wrap: the visual rows that a text fills in a window of W columns, as one list. The
  searches of the text buffer are specified by their place in this list.
 */
module TextWrap {
  import opened Basics
  import opened Utf8
  import opened Utf8Text
  import opened FlatText

  /** A visual row: the bytes start..end of a row. */
  datatype Chunk = Chunk(row: nat, start: nat, end: nat)

  function ChunkEnd(line: Bytes, start: nat, w: nat): (e: nat)
    requires start <= |line|
    ensures start <= e <= |line|
  {
    start + PrefixBytes(line[start..], w)
  }

  function LineChunks(line: Bytes, row: nat, start: nat, w: nat): seq<Chunk>
    requires start <= |line|
    decreases |line| - start
  {
    var end := ChunkEnd(line, start, w);
    if end <= start then [] else [Chunk(row, start, end)] + LineChunks(line, row, end, w)
  }

  function RowChunks(line: Bytes, row: nat, w: nat): seq<Chunk> {
    if line == [] then [Chunk(row, 0, 0)] else LineChunks(line, row, 0, w)
  }

  function VisualRows(ls: seq<Bytes>, row: nat, w: nat): seq<Chunk>
    decreases |ls| - row
  {
    if row >= |ls| then [] else RowChunks(ls[row], row, w) + VisualRows(ls, row + 1, w)
  }

  /** The visual row shows a cursor at a column: inside it, or at the very end of the line. */
  predicate Holds(c: Chunk, length: nat, col: nat) {
    c.start <= col && (col < c.end || c.end == length)
  }

  predicate Shows(ls: seq<Bytes>, w: nat, v: nat, row: nat, col: nat) {
    && row < |ls| && v < |VisualRows(ls, 0, w)|
    && VisualRows(ls, 0, w)[v].row == row
    && Holds(VisualRows(ls, 0, w)[v], |ls[row]|, col)
  }

  /** The visual row a vertical move aims at. */
  function TargetRow(up: bool, v: nat, total: nat): nat {
    if up then (if v == 0 then 0 else v - 1)
    else (if v + 1 >= total then v else v + 1)
  }

  /** A place in a chunk at most `desired` columns in. */
  ghost predicate Within(line: Bytes, chunk: Chunk, desired: nat, col: nat) {
    && chunk.start <= col <= chunk.end <= |line| && Boundary(line, col) && Holds(chunk, |line|, col)
    && Columns(line[chunk.start..col]) <= desired
  }

  /** The last such place. */
  ghost predicate LastWithin(line: Bytes, chunk: Chunk, desired: nat, col: nat) {
    && Within(line, chunk, desired, col)
    && forall b: nat :: Within(line, chunk, desired, b) ==> b <= col
  }

  /**
    A move by one visual row, or by none from the first or last: the cursor lands on the last place
    of the target row that is at most as many columns in as it was.
   */
  ghost predicate VerticalMove(ls: seq<Bytes>, w: nat, up: bool, row: nat, col: nat, row': nat, col': nat) {
    forall v: nat :: Shows(ls, w, v, row, col) ==>
      var rows := VisualRows(ls, 0, w);
      var target := TargetRow(up, v, |rows|);
      && Shows(ls, w, target, row', col')
      && (target == v ==> row' == row && col' == col)
      && rows[v].start <= col <= |ls[row]|
      && (target != v ==> LastWithin(ls[row'], rows[target], Columns(ls[row][rows[v].start..col]), col'))
  }

  lemma VisualRowsStep(ls: seq<Bytes>, row: nat, w: nat)
    requires row < |ls|
    ensures VisualRows(ls, row, w) == RowChunks(ls[row], row, w) + VisualRows(ls, row + 1, w)
  {
  }

  lemma VisualRowsEnd(ls: seq<Bytes>, w: nat)
    ensures VisualRows(ls, |ls|, w) == []
  {
  }

  // ----- The shape of the chunks of a line -----

  lemma PrefixPositive(s: Bytes, w: nat)
    requires s != [] && w > 0
    ensures PrefixBytes(s, w) > 0
  {
  }

  /** A chunk ends on a boundary, is not empty, and has W columns unless it is the last. */
  lemma ChunkShape(line: Bytes, start: nat, w: nat)
    requires Valid(line) && Boundary(line, start) && w > 0
    ensures var end := ChunkEnd(line, start, w);
            && Boundary(line, end) && (start < |line| ==> start < end)
            && (end < |line| ==> Columns(line[start..end]) == w)
            && (end == |line| ==> Columns(line[start..end]) <= w)
  {
    hide Valid, Columns, PrefixBytes;
    var rest, n := line[start..], PrefixBytes(line[start..], w);
    ValidSplit(line, start);
    PrefixBytesIsBoundary(rest, w);
    PrefixBytesFills(rest, w);
    if start < |line| {
      PrefixPositive(rest, w);
    }
    assert line[start..start + n] == rest[..n];
    assert rest[..|rest|] == rest;
    PrefixBytesAdjoint(rest, w, |rest|);
    assert start + n < |line| ==> rest[n] == line[start + n];
  }

  ghost predicate WellCut(line: Bytes, row: nat, start: nat, w: nat, cs: seq<Chunk>) {
    && (cs == [] <==> start == |line|)
    && (cs != [] ==> cs[0].start == start && cs[|cs| - 1].end == |line|)
    && (forall i :: 0 <= i < |cs| ==>
          && cs[i].row == row && cs[i].start < cs[i].end <= |line|
          && Boundary(line, cs[i].start) && Boundary(line, cs[i].end))
    && (forall i :: 0 <= i < |cs| - 1 ==>
          && cs[i].end == cs[i + 1].start
          && Columns(line[cs[i].start..cs[i].end]) == w)
  }

  /** The chunks tile the line from `start`; all but the last have exactly W columns. */
  lemma {:induction false} LineChunksTile(line: Bytes, row: nat, start: nat, w: nat)
    requires Valid(line) && Boundary(line, start) && w > 0
    ensures WellCut(line, row, start, w, LineChunks(line, row, start, w))
    decreases |line| - start
  {
    hide Valid, Decode, Columns, PrefixBytes, ChunkEnd;
    ChunkShape(line, start, w);
    var end := ChunkEnd(line, start, w);
    if start < end {
      LineChunksTile(line, row, end, w);
      var cs := LineChunks(line, row, start, w);
      assert cs[1..] == LineChunks(line, row, end, w);
      assert forall i :: 1 <= i < |cs| ==> cs[i] == cs[1..][i - 1];
    }
  }

  function Concat(line: Bytes, cs: seq<Chunk>): Bytes
    requires forall c :: c in cs ==> c.start <= c.end <= |line|
  {
    if cs == [] then [] else line[cs[0].start..cs[0].end] + Concat(line, cs[1..])
  }

  /** Put back together, the chunks are the line. */
  lemma {:induction false} LineChunksConcat(line: Bytes, row: nat, start: nat, w: nat)
    requires Valid(line) && Boundary(line, start) && w > 0
    ensures forall c :: c in LineChunks(line, row, start, w) ==> c.start <= c.end <= |line|
    ensures Concat(line, LineChunks(line, row, start, w)) == line[start..]
    decreases |line| - start
  {
    hide Valid, Decode, Columns, PrefixBytes, ChunkEnd;
    ChunkShape(line, start, w);
    var end := ChunkEnd(line, start, w);
    if start < end {
      LineChunksConcat(line, row, end, w);
      assert LineChunks(line, row, start, w)[1..] == LineChunks(line, row, end, w);
      assert line[start..end] + line[end..] == line[start..];
    }
  }

  lemma {:induction false} LineChunksSameCount(line: Bytes, row: nat, row': nat, start: nat, w: nat)
    requires start <= |line|
    ensures |LineChunks(line, row, start, w)| == |LineChunks(line, row', start, w)|
    decreases |line| - start
  {
    if start < ChunkEnd(line, start, w) {
      LineChunksSameCount(line, row, row', ChunkEnd(line, start, w), w);
    }
  }

  lemma RowChunksSameCount(line: Bytes, row: nat, row': nat, w: nat)
    ensures |RowChunks(line, row, w)| == |RowChunks(line, row', w)|
  {
    LineChunksSameCount(line, row, row', 0, w);
  }

  // ----- How many visual rows there are -----

  /** The rows that `columns` cells take in a window of W columns. */
  function CeilDiv(columns: nat, w: nat): nat
    requires w > 0
  {
    (columns + w - 1) / w
  }

  lemma CeilDivStep(columns: nat, w: nat)
    requires w > 0
    ensures CeilDiv(columns + w, w) == CeilDiv(columns, w) + 1
  {
    DivStep(columns + w - 1, w);
  }

  lemma DivStep(x: nat, w: nat)
    requires w > 0
    ensures (x + w) / w == x / w + 1
  {
    var q := x / w;
    assert x == q * w + x % w;
    assert (q + 1) * w == q * w + w;
    DivUnique(x + w, w, q + 1);
  }

  lemma DivUnique(x: nat, w: nat, q: nat)
    requires w > 0 && q * w <= x < q * w + w
    ensures x / w == q
  {
    MulLess(x / w, q, w);
    MulLess(q, x / w, w);
  }

  lemma {:induction false} MulLess(p: nat, q: nat, w: nat)
    ensures p < q ==> p * w + w <= q * w
  {
    if p < q {
      if p + 1 < q {
        MulLess(p, q - 1, w);
      }
      assert q * w == (q - 1) * w + w;
    }
  }

  lemma CeilDivSmall(columns: nat, w: nat)
    requires 0 < columns <= w
    ensures CeilDiv(columns, w) == 1
  {
    DivUnique(columns + w - 1, w, 1);
  }

  lemma {:induction false} LineChunksCount(line: Bytes, row: nat, start: nat, w: nat)
    requires Valid(line) && Boundary(line, start) && start < |line| && w > 0
    ensures |LineChunks(line, row, start, w)| ==
            if Columns(line[start..]) == 0 then 1 else CeilDiv(Columns(line[start..]), w)
    decreases |line| - start
  {
    hide Decode, CeilDiv;
    ChunkShape(line, start, w);
    var end := ChunkEnd(line, start, w);
    if end == |line| {
      assert LineChunks(line, row, end, w) == [];
      assert line[start..end] == line[start..];
      if Columns(line[start..]) > 0 {
        CeilDivSmall(Columns(line[start..]), w);
      }
    } else {
      LineChunksCount(line, row, end, w);
      ValidSplit(line, start);
      ColumnsSplit(line, start, end);
      NextChunkHasColumns(line, start, w);
      CeilDivStep(Columns(line[end..]), w);
    }
  }

  lemma ColumnsSplit(line: Bytes, start: nat, end: nat)
    requires Valid(line) && Boundary(line, start) && Boundary(line, end) && start <= end
    ensures Columns(line[start..]) == Columns(line[start..end]) + Columns(line[end..])
  {
    hide Valid, Columns;
    ValidSplit(line, start);
    assert end < |line| ==> line[start..][end - start] == line[end];
    ValidSplit(line[start..], end - start);
    assert line[start..][..end - start] == line[start..end];
    ColumnsJoin(line[start..end], line[end..]);
    assert line[start..end] + line[end..] == line[start..];
  }

  /** A chunk breaks only before a character that takes a column. */
  lemma NextChunkHasColumns(line: Bytes, start: nat, w: nat)
    requires Valid(line) && Boundary(line, start) && w > 0 && ChunkEnd(line, start, w) < |line|
    ensures Columns(line[ChunkEnd(line, start, w)..]) > 0
  {
    hide Valid, Columns, PrefixBytes;
    var end := ChunkEnd(line, start, w);
    ChunkShape(line, start, w);
    ColumnsSplit(line, start, end);
    ValidSplit(line, start);
    PrefixBytesAdjoint(line[start..], w, |line| - start);
    assert line[start..][..|line| - start] == line[start..];
  }

  function Max1(n: nat): nat {
    if n == 0 then 1 else n
  }

  function SumRows(ls: seq<Bytes>, row: nat, w: nat): nat
    requires w > 0
    decreases |ls| - row
  {
    if row >= |ls| then 0 else Max1(CeilDiv(Columns(ls[row]), w)) + SumRows(ls, row + 1, w)
  }

  lemma CeilDivZero(w: nat)
    requires w > 0
    ensures CeilDiv(0, w) == 0
  {
    DivUnique(w - 1, w, 0);
  }

  lemma CeilDivPositive(columns: nat, w: nat)
    requires w > 0 && columns > 0
    ensures CeilDiv(columns, w) > 0
    decreases columns
  {
    if columns <= w {
      CeilDivSmall(columns, w);
    } else {
      CeilDivStep(columns - w, w);
    }
  }

  /** The number of visual rows is the sum over lines of max(1, ceil(columns / W)). */
  lemma {:induction false} VisualRowTotal(ls: seq<Bytes>, row: nat, w: nat)
    requires LinesOk(ls) && w > 0
    ensures |VisualRows(ls, row, w)| == SumRows(ls, row, w)
    decreases |ls| - row
  {
    hide Decode, Valid, CeilDiv, LineChunks;
    if row < |ls| {
      VisualRowTotal(ls, row + 1, w);
      CeilDivZero(w);
      if ls[row] != [] {
        ValidStartsBoundary(ls[row]);
        LineChunksCount(ls[row], row, 0, w);
        assert ls[row][0..] == ls[row];
        if Columns(ls[row]) > 0 {
          CeilDivPositive(Columns(ls[row]), w);
        }
      }
    }
  }

  // ----- A cursor is shown in exactly one visual row -----

  lemma {:induction false} HoldsUnique(line: Bytes, row: nat, start: nat, w: nat, i: nat, j: nat, col: nat)
    requires Valid(line) && Boundary(line, start) && w > 0
    requires i <= j < |LineChunks(line, row, start, w)|
    requires Holds(LineChunks(line, row, start, w)[i], |line|, col)
    requires Holds(LineChunks(line, row, start, w)[j], |line|, col)
    ensures i == j
    decreases |line| - start
  {
    hide Valid, Decode, Columns, PrefixBytes, ChunkEnd;
    LineChunksTile(line, row, start, w);
    var cs := LineChunks(line, row, start, w);
    if i < j {
      ChunksAscend(line, row, start, w, cs, i, j);
    }
  }

  lemma {:induction false} ChunksAscend(line: Bytes, row: nat, start: nat, w: nat, cs: seq<Chunk>, i: nat, j: nat)
    requires WellCut(line, row, start, w, cs) && i < j < |cs|
    ensures cs[i].end <= cs[j].start && cs[i].end < |line|
  {
    if i < j - 1 {
      ChunksAscend(line, row, start, w, cs, i, j - 1);
    }
  }

  lemma RowChunksRow(ls: seq<Bytes>, row: nat, w: nat)
    requires LinesOk(ls) && row < |ls| && w > 0
    ensures RowChunks(ls[row], row, w) != []
    ensures forall i :: 0 <= i < |RowChunks(ls[row], row, w)| ==> RowChunks(ls[row], row, w)[i].row == row
  {
    hide Valid, Decode, Columns, PrefixBytes, LineChunks;
    ValidStartsBoundary(ls[row]);
    LineChunksTile(ls[row], row, 0, w);
  }

  lemma {:induction false} LaterRows(ls: seq<Bytes>, row: nat, w: nat)
    requires LinesOk(ls) && w > 0
    ensures forall i :: 0 <= i < |VisualRows(ls, row, w)| ==> row <= VisualRows(ls, row, w)[i].row < |ls|
    decreases |ls| - row
  {
    hide LinesOk, RowChunks;
    if row < |ls| {
      RowChunksRow(ls, row, w);
      LaterRows(ls, row + 1, w);
    }
  }

  lemma {:induction false} ShownOnce(ls: seq<Bytes>, from: nat, w: nat, i: nat, j: nat, row: nat, col: nat)
    requires LinesOk(ls) && w > 0 && row < |ls|
    requires i < |VisualRows(ls, from, w)| && j < |VisualRows(ls, from, w)|
    requires VisualRows(ls, from, w)[i].row == row == VisualRows(ls, from, w)[j].row
    requires Holds(VisualRows(ls, from, w)[i], |ls[row]|, col)
    requires Holds(VisualRows(ls, from, w)[j], |ls[row]|, col)
    requires i <= j
    ensures i == j
    decreases |ls| - from
  {
    hide Valid, Decode, LineChunks, Holds;
    var here, later := RowChunks(ls[from], from, w), VisualRows(ls, from + 1, w);
    assert VisualRows(ls, from, w) == here + later;
    RowChunksRow(ls, from, w);
    LaterRows(ls, from + 1, w);
    if i < |here| {
      if j < |here| && ls[from] != [] {
        ValidStartsBoundary(ls[from]);
        HoldsUnique(ls[from], from, 0, w, i, j, col);
      }
    } else {
      ShownOnce(ls, from + 1, w, i - |here|, j - |here|, row, col);
    }
  }

  /** The visual row of a cursor is unique. */
  lemma ShowsUnique(ls: seq<Bytes>, w: nat, v: nat, v': nat, row: nat, col: nat)
    requires LinesOk(ls) && w > 0
    requires Shows(ls, w, v, row, col) && Shows(ls, w, v', row, col)
    ensures v == v'
  {
    if v <= v' {
      ShownOnce(ls, 0, w, v, v', row, col);
    } else {
      ShownOnce(ls, 0, w, v', v, row, col);
    }
  }

  /** The chunk of a line that shows a column. */
  lemma {:induction false} ChunkHolds(line: Bytes, row: nat, start: nat, w: nat, col: nat) returns (k: nat)
    requires Valid(line) && Boundary(line, start) && w > 0 && start < |line| && start <= col <= |line|
    ensures k < |LineChunks(line, row, start, w)| && Holds(LineChunks(line, row, start, w)[k], |line|, col)
    decreases |line| - start
  {
    hide Valid, Columns, ChunkEnd;
    var end := ChunkEnd(line, start, w);
    ChunkShape(line, start, w);
    k := 0;
    if col >= end && end < |line| {
      k := ChunkHolds(line, row, end, w, col);
      k := k + 1;
    }
  }

  lemma RowHolds(ls: seq<Bytes>, row: nat, w: nat, col: nat)
    requires LinesOk(ls) && row < |ls| && w > 0 && col <= |ls[row]|
    ensures var cs := RowChunks(ls[row], row, w);
            exists k :: 0 <= k < |cs| && cs[k].row == row && Holds(cs[k], |ls[row]|, col)
  {
    hide Valid, LineChunks;
    var cs := RowChunks(ls[row], row, w);
    RowChunksRow(ls, row, w);
    if ls[row] == [] {
      assert Holds(cs[0], 0, col);
    } else {
      ValidStartsBoundary(ls[row]);
      var k := ChunkHolds(ls[row], row, 0, w, col);
      assert Holds(cs[k], |ls[row]|, col);
    }
  }

  lemma {:induction false} RowsHold(ls: seq<Bytes>, from: nat, w: nat, row: nat, col: nat)
    requires LinesOk(ls) && from <= row < |ls| && w > 0 && col <= |ls[row]|
    ensures var rows := VisualRows(ls, from, w);
            exists v :: 0 <= v < |rows| && rows[v].row == row && Holds(rows[v], |ls[row]|, col)
    decreases row - from
  {
    hide VisualRows, RowChunks, Holds, LinesOk;
    var here, rest, rows := RowChunks(ls[from], from, w), VisualRows(ls, from + 1, w), VisualRows(ls, from, w);
    VisualRowsStep(ls, from, w);
    if from == row {
      RowHolds(ls, row, w, col);
      var k :| 0 <= k < |here| && here[k].row == row && Holds(here[k], |ls[row]|, col);
      assert rows[k] == here[k];
    } else {
      RowsHold(ls, from + 1, w, row, col);
      var v :| 0 <= v < |rest| && rest[v].row == row && Holds(rest[v], |ls[row]|, col);
      assert rows[|here| + v] == rest[v];
    }
  }

  /** Every place of every line is shown by a visual row, and by no other. */
  lemma ShownSomewhere(ls: seq<Bytes>, w: nat, row: nat, col: nat)
    requires LinesOk(ls) && row < |ls| && w > 0 && col <= |ls[row]|
    ensures exists v: nat :: Shows(ls, w, v, row, col) && forall v': nat :: Shows(ls, w, v', row, col) ==> v' == v
  {
    hide VisualRows, Holds, LinesOk;
    RowsHold(ls, 0, w, row, col);
    var rows := VisualRows(ls, 0, w);
    var v :| 0 <= v < |rows| && rows[v].row == row && Holds(rows[v], |ls[row]|, col);
    forall v': nat | Shows(ls, w, v', row, col)
      ensures v' == v
    {
      ShowsUnique(ls, w, v, v', row, col);
    }
    assert Shows(ls, w, v, row, col);
  }

  // ----- Places within a chunk -----

  /** Every visual row is cut at boundaries of its line; only a row's last chunk may be empty. */
  lemma {:induction false} VisualRowsCut(ls: seq<Bytes>, from: nat, w: nat, v: nat)
    requires LinesOk(ls) && w > 0 && v < |VisualRows(ls, from, w)|
    ensures var c := VisualRows(ls, from, w)[v];
            && c.row < |ls| && c.start <= c.end <= |ls[c.row]|
            && Boundary(ls[c.row], c.start) && Boundary(ls[c.row], c.end)
            && (c.end < |ls[c.row]| ==> c.start < c.end)
    decreases |ls| - from
  {
    hide Valid, Decode, LineChunks, Columns;
    var here := RowChunks(ls[from], from, w);
    if v < |here| {
      ValidStartsBoundary(ls[from]);
      LineChunksTile(ls[from], from, 0, w);
    } else {
      VisualRowsCut(ls, from + 1, w, v - |here|);
    }
  }

  lemma WithinChunk(line: Bytes, a: nat, b: nat, m: nat)
    requires Valid(line) && Boundary(line, a) && Boundary(line, b) && a <= b
    ensures forall k :: a <= k <= b && Boundary(line, k) ==>
              (Columns(line[a..k]) <= m <==> k <= a + PrefixBytes(line[a..b], m))
  {
    hide Valid, Decode, Columns, PrefixBytes;
    var s := line[a..b];
    SliceIsValid(line, a, b);
    forall k | a <= k <= b && Boundary(line, k)
      ensures Columns(line[a..k]) <= m <==> k <= a + PrefixBytes(s, m)
    {
      assert Boundary(s, k - a);
      PrefixBytesAdjoint(s, m, k - a);
      SliceOfSlice(line, a, b, 0, k - a);
      assert s[0..k - a] == s[..k - a];
    }
  }

  lemma PrevStaysRight(line: Bytes, a: nat, b: nat)
    requires Valid(line) && Boundary(line, a) && Boundary(line, b) && a < b
    ensures a <= Prev(line, b) < b
  {
    PrevIsBoundary(line, b);
  }
}
