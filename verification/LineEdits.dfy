/**
  How edits of an array of lines show in the flat document: the correspondence of positions
  and offsets, and the lemmas that turn each local change of lines into one splice.
 */
module LineEdits {
  import opened Basics
  import opened Utf8
  import opened Utf8Text
  import opened FlatText

  /** A place where the cursor may stand. */
  predicate Position(ls: seq<Bytes>, row: nat, col: nat) {
    row < |ls| && Boundary(ls[row], col)
  }

  // ----- Positions and offsets -----

  lemma LineInDoc(ls: seq<Bytes>, row: nat)
    requires row < |ls|
    ensures var d, base, end := Join(ls), Offset(ls, row, 0), Offset(ls, row, |ls[row]|);
            && base <= end <= |d| && d[base..end] == ls[row]
            && (base == 0 <==> row == 0) && (row > 0 ==> d[base - 1] == LF)
            && (end == |d| <==> row == |ls| - 1) && (end < |d| ==> d[end] == LF)
    ensures forall col :: Offset(ls, row, col) == Offset(ls, row, 0) + col
    ensures row > 0 ==> Offset(ls, row, 0) == Offset(ls, row - 1, |ls[row - 1]|) + 1
  {
    JoinAt(ls, row);
    if row > 0 {
      BeforeNext(ls, row - 1);
    }
    if row + 1 < |ls| {
      AfterNext(ls, row + 1);
    }
  }

  lemma BytesInDoc(ls: seq<Bytes>, row: nat)
    requires row < |ls|
    ensures Offset(ls, row, |ls[row]|) <= |Join(ls)|
    ensures forall j :: 0 <= j < |ls[row]| ==> Join(ls)[Offset(ls, row, 0) + j] == ls[row][j]
  {
    JoinAt(ls, row);
  }

  lemma BoundaryInDoc(ls: seq<Bytes>, row: nat, col: nat)
    requires row < |ls| && col <= |ls[row]|
    ensures Offset(ls, row, col) <= |Join(ls)|
    ensures Boundary(Join(ls), Offset(ls, row, col)) <==> Boundary(ls[row], col)
  {
    LineInDoc(ls, row);
    BytesInDoc(ls, row);
  }

  lemma OffsetIsLinear(ls: seq<Bytes>, row: nat, col: nat, n: nat)
    requires row < |ls|
    ensures Offset(ls, row, col + n) == Offset(ls, row, col) + n
  {
  }

  lemma {:induction false} BeforeMonotone(ls: seq<Bytes>, row: nat, row': nat)
    requires row < row' < |ls|
    ensures Offset(ls, row, |ls[row]|) < Offset(ls, row', 0)
  {
    BeforeNext(ls, row' - 1);
    if row < row' - 1 {
      BeforeMonotone(ls, row, row' - 1);
    }
  }

  /** Offsets order positions as rows and then columns do. */
  lemma OffsetOrder(ls: seq<Bytes>, row: nat, col: nat, row': nat, col': nat)
    requires row < |ls| && col <= |ls[row]| && row' < |ls| && col' <= |ls[row']|
    ensures Offset(ls, row, col) < Offset(ls, row', col') <==> row < row' || (row == row' && col < col')
  {
    if row < row' {
      BeforeMonotone(ls, row, row');
    } else if row' < row {
      BeforeMonotone(ls, row', row);
    }
  }

  // ----- Local changes -----

  lemma SpliceParts(p: Bytes, l: Bytes, q: Bytes, a: nat, b: nat, ins: Bytes)
    requires a <= b <= |l|
    ensures Splice(p + l + q, |p| + a, |p| + b, ins) == p + (l[..a] + ins + l[b..]) + q
  {
    var d := p + l + q;
    assert d[..|p| + a] == p + l[..a];
    assert d[|p| + b..] == l[b..] + q;
  }

  /** Changing part of one line is a splice. */
  lemma SpliceInLine(ls: seq<Bytes>, row: nat, a: nat, b: nat, ins: Bytes)
    requires row < |ls| && a <= b <= |ls[row]|
    ensures Offset(ls, row, b) <= |Join(ls)|
    ensures var ls' := ls[row := ls[row][..a] + ins + ls[row][b..]];
            && Join(ls') == Splice(Join(ls), Offset(ls, row, a), Offset(ls, row, b), ins)
            && forall col :: Offset(ls', row, col) == Offset(ls, row, col)
  {
    var ls' := ls[row := ls[row][..a] + ins + ls[row][b..]];
    JoinAt(ls, row);
    JoinAt(ls', row);
    assert ls'[..row] == ls[..row] && ls'[row + 1..] == ls[row + 1..];
    SpliceParts(Before(ls[..row]), ls[row], After(ls[row + 1..]), a, b, ins);
  }

  /** Breaking a line in two is the insertion of an LF. */
  lemma BreakLine(ls: seq<Bytes>, row: nat, col: nat)
    requires row < |ls| && col <= |ls[row]|
    ensures Offset(ls, row, col) <= |Join(ls)|
    ensures var l := ls[row];
            var ls' := ls[..row] + [l[..col], l[col..]] + ls[row + 1..];
            && Join(ls') == Splice(Join(ls), Offset(ls, row, col), Offset(ls, row, col), [LF])
            && Offset(ls', row + 1, 0) == Offset(ls, row, col) + 1
  {
    hide Splice;
    var l := ls[row];
    var ls' := ls[..row] + [l[..col], l[col..]] + ls[row + 1..];
    var p, q := Before(ls[..row]), After(ls[row + 1..]);
    JoinAt(ls, row);
    SpliceParts(p, l, q, col, col, [LF]);
    assert ls'[..row] == ls[..row] && ls'[row + 2..] == ls[row + 1..];
    JoinAt(ls', row + 1);
    BeforeNext(ls', row);
    assert Join(ls') == (p + l[..col] + [LF]) + l[col..] + q;
    assert (p + l[..col] + [LF]) + l[col..] + q == p + (l[..col] + [LF] + l[col..]) + q;
  }

  /** Merging a line with the next is the deletion of the LF between them. */
  lemma MergeLines(ls: seq<Bytes>, row: nat)
    requires row + 1 < |ls|
    ensures var end := Offset(ls, row, |ls[row]|);
            var ls' := ls[..row] + [ls[row] + ls[row + 1]] + ls[row + 2..];
            && end + 1 <= |Join(ls)|
            && Join(ls') == Splice(Join(ls), end, end + 1, [])
            && Offset(ls', row, |ls[row]|) == end
  {
    var l, m := ls[row], ls[row + 1];
    var ls' := ls[..row] + [l + m] + ls[row + 2..];
    var p, q := Before(ls[..row]), After(ls[row + 2..]);
    JoinAt(ls, row);
    AfterNext(ls, row + 1);
    SpliceParts(p, l + [LF] + m, q, |l|, |l| + 1, []);
    assert (l + [LF] + m)[..|l|] + [] + (l + [LF] + m)[|l| + 1..] == l + m;
    assert Join(ls) == p + (l + [LF] + m) + q;
    JoinAt(ls', row);
    assert ls'[..row] == ls[..row] && ls'[row + 1..] == ls[row + 2..];
  }

  // ----- Steps and searches -----

  lemma NextWithin(d: Bytes, base: nat, l: Bytes, col: nat)
    requires base + |l| <= |d| && d[base..base + |l|] == l
    requires Valid(l) && Boundary(l, col) && col < |l|
    ensures Next(d, base + col) == base + Next(l, col)
  {
    hide Decode, Valid;
    DecodeAtBoundary(l, col);
    DecodeInSlice(d, base, base + |l|, base + col);
  }

  lemma NextInDoc(ls: seq<Bytes>, row: nat, col: nat)
    requires LinesOk(ls) && Position(ls, row, col)
    ensures col < |ls[row]| ==> Next(Join(ls), Offset(ls, row, col)) == Offset(ls, row, Next(ls[row], col))
    ensures col == |ls[row]| && row + 1 < |ls| ==> Next(Join(ls), Offset(ls, row, col)) == Offset(ls, row + 1, 0)
    ensures col == |ls[row]| && row + 1 == |ls| ==> Offset(ls, row, col) == |Join(ls)|
  {
    hide Offset, Join, Valid, Decode;
    var d, base := Join(ls), Offset(ls, row, 0);
    LineInDoc(ls, row);
    if col < |ls[row]| {
      NextWithin(d, base, ls[row], col);
    } else if row + 1 < |ls| {
      JoinIsOk(ls);
      AroundLF(d, base + col);
      LineInDoc(ls, row + 1);
    }
  }

  lemma {:induction false} PrevShift(d: Bytes, l: Bytes, base: nat, k: nat)
    requires base + |l| <= |d| && 0 < k <= |l| && !IsContinuation(l[0])
    requires forall j :: 0 <= j < |l| ==> d[base + j] == l[j]
    ensures Prev(d, base + k) == base + Prev(l, k)
  {
    if k > 1 && IsContinuation(l[k - 1]) {
      PrevShift(d, l, base, k - 1);
    } else if k == 1 {
      assert d[base] == l[0];
    }
  }

  lemma PrevInDoc(ls: seq<Bytes>, row: nat, col: nat)
    requires LinesOk(ls) && Position(ls, row, col)
    ensures Offset(ls, row, col) <= |Join(ls)|
    ensures col > 0 ==> Prev(Join(ls), Offset(ls, row, col)) == Offset(ls, row, Prev(ls[row], col))
    ensures col == 0 && row > 0 ==> Prev(Join(ls), Offset(ls, row, 0)) == Offset(ls, row - 1, |ls[row - 1]|)
    ensures col == 0 && row == 0 ==> Offset(ls, row, col) == 0
  {
    hide Offset, Join, Valid, Decode;
    LineInDoc(ls, row);
    BytesInDoc(ls, row);
    if col > 0 {
      ValidStartsBoundary(ls[row]);
      PrevShift(Join(ls), ls[row], Offset(ls, row, 0), col);
    }
  }

  lemma {:induction false} LineStartOf(d: Bytes, base: nat, k: nat)
    requires base <= k <= |d| && (base == 0 || d[base - 1] == LF)
    requires forall j :: base <= j < k ==> d[j] != LF
    ensures LineStart(d, k) == base
  {
    if base < k {
      LineStartOf(d, base, k - 1);
    }
  }

  lemma {:induction false} LineEndOf(d: Bytes, k: nat, end: nat)
    requires k <= end <= |d| && (end == |d| || d[end] == LF)
    requires forall j :: k <= j < end ==> d[j] != LF
    ensures LineEnd(d, k) == end
    decreases end - k
  {
    if k < end {
      LineEndOf(d, k + 1, end);
    }
  }

  lemma LineBoundsInDoc(ls: seq<Bytes>, row: nat, col: nat)
    requires LinesOk(ls) && row < |ls| && col <= |ls[row]|
    ensures Offset(ls, row, col) <= |Join(ls)|
    ensures LineStart(Join(ls), Offset(ls, row, col)) == Offset(ls, row, 0)
    ensures LineEnd(Join(ls), Offset(ls, row, col)) == Offset(ls, row, |ls[row]|)
  {
    hide Offset, Join, Valid, Decode, LineStart, LineEnd;
    var d, base := Join(ls), Offset(ls, row, 0);
    LineInDoc(ls, row);
    BytesInDoc(ls, row);
    assert forall j :: base <= j < base + |ls[row]| ==> d[j] == ls[row][j - base];
    LineStartOf(d, base, base + col);
    LineEndOf(d, base + col, base + |ls[row]|);
  }

  lemma UpInDoc(ls: seq<Bytes>, row: nat, col: nat)
    requires LinesOk(ls) && Position(ls, row, col)
    ensures Offset(ls, row, col) <= |Join(ls)|
    ensures row == 0 ==> Up(Join(ls), Offset(ls, row, col)) == Offset(ls, row, col)
    ensures row > 0 ==> Up(Join(ls), Offset(ls, row, col)) ==
                        Offset(ls, row - 1, PrefixBytes(ls[row - 1], Columns(ls[row][..col])))
  {
    hide Offset, Join, Valid, Decode, Columns, PrefixBytes, LineStart, LineEnd;
    var d, base := Join(ls), Offset(ls, row, 0);
    LineBoundsInDoc(ls, row, col);
    LineInDoc(ls, row);
    SliceOfSlice(d, base, base + |ls[row]|, 0, col);
    if row > 0 {
      LineInDoc(ls, row - 1);
      LineBoundsInDoc(ls, row - 1, |ls[row - 1]|);
    }
  }

  lemma DownInDoc(ls: seq<Bytes>, row: nat, col: nat)
    requires LinesOk(ls) && Position(ls, row, col)
    ensures Offset(ls, row, col) <= |Join(ls)|
    ensures row == |ls| - 1 ==> Down(Join(ls), Offset(ls, row, col)) == Offset(ls, row, col)
    ensures row + 1 < |ls| ==> Down(Join(ls), Offset(ls, row, col)) ==
                               Offset(ls, row + 1, PrefixBytes(ls[row + 1], Columns(ls[row][..col])))
  {
    hide Offset, Join, Valid, Decode, Columns, PrefixBytes, LineStart, LineEnd;
    var d, base := Join(ls), Offset(ls, row, 0);
    LineBoundsInDoc(ls, row, col);
    LineInDoc(ls, row);
    SliceOfSlice(d, base, base + |ls[row]|, 0, col);
    if row + 1 < |ls| {
      LineInDoc(ls, row + 1);
      LineBoundsInDoc(ls, row + 1, 0);
    }
  }

  // ----- Normalising columns -----

  /** The nearest boundary at or before an offset. */
  function AtOrBefore(s: Bytes, k: nat): (p: nat)
    ensures p <= |s|
  {
    if k >= |s| then |s|
    else if k == 0 || !IsContinuation(s[k]) then k
    else AtOrBefore(s, k - 1)
  }

  lemma {:induction false} AtOrBeforeIs(s: Bytes, p: nat, k: nat)
    requires p <= k < |s| && Boundary(s, p) && forall j :: p < j <= k ==> !Boundary(s, j)
    ensures AtOrBefore(s, k) == p
  {
    if p < k {
      assert !Boundary(s, k);
      AtOrBeforeIs(s, p, k - 1);
    }
  }

  lemma {:induction false} AtOrBeforeIsBoundary(s: Bytes, k: nat)
    requires Valid(s)
    ensures Boundary(s, AtOrBefore(s, k))
    ensures k <= |s| ==> AtOrBefore(s, k) <= k
    ensures Boundary(s, k) ==> AtOrBefore(s, k) == k
  {
    ValidStartsBoundary(s);
    if 0 < k < |s| && IsContinuation(s[k]) {
      AtOrBeforeIsBoundary(s, k - 1);
    }
  }

  /** Walks the characters of a line up to an offset. */
  method BoundaryAtOrBefore(line: Bytes, offset: nat) returns (p: nat)
    requires Valid(line)
    ensures p == AtOrBefore(line, offset)
  {
    hide Decode, Valid;
    if offset >= |line| {
      return |line|;
    }
    p := 0;
    ValidStartsBoundary(line);
    while p < |line|
      invariant p <= offset && Boundary(line, p)
      decreases |line| - p
    {
      if p == offset {
        AtOrBeforeIs(line, p, offset);
        return;
      }
      NextStep(line, p);
      var next := Next(line, p);
      if next <= p || next > offset {
        AtOrBeforeIs(line, p, offset);
        return;
      }
      p := next;
    }
  }

  lemma NextStep(s: Bytes, k: nat)
    requires Valid(s) && Boundary(s, k) && k < |s|
    ensures k < Next(s, k) <= |s| && Boundary(s, Next(s, k))
    ensures forall j :: k < j < Next(s, k) ==> !Boundary(s, j)
  {
    DecodeAtBoundary(s, k);
  }

  /** Replacing a range between boundaries by text keeps the document well formed. */
  lemma SpliceOk(d: Bytes, a: nat, b: nat, ins: Bytes)
    requires Valid(d) && 0 !in d && Boundary(d, a) && Boundary(d, b) && a <= b && Insertable(ins)
    ensures Insertable(Splice(d, a, b, ins)) && Boundary(Splice(d, a, b, ins), a + |ins|)
  {
    hide Decode;
    ValidSplit(d, a);
    ValidSplit(d, b);
    ValidJoin(d[..a], ins);
    ValidJoin(d[..a] + ins, d[b..]);
    ValidStartsBoundary(d[b..]);
    assert b < |d| ==> Splice(d, a, b, ins)[a + |ins|] == d[b..][0];
  }

  // ----- Well-formedness of the changed lines -----

  lemma EncodingIsInsertable(cp: nat)
    requires IsScalarValue(cp) && cp != 0
    ensures Insertable(Encode(cp).value)
    ensures cp != 10 ==> LF !in Encode(cp).value
  {
    DecodeOfEncode(cp);
    var s := Encode(cp).value;
    assert s[|s|..] == [];
  }

  lemma InlineIsOk(ls: seq<Bytes>, row: nat, a: nat, b: nat, ins: Bytes)
    requires LinesOk(ls) && Position(ls, row, a) && Boundary(ls[row], b) && a <= b
    requires ins == [] || (Insertable(ins) && LF !in ins)
    ensures var ls' := ls[row := ls[row][..a] + ins + ls[row][b..]];
            LinesOk(ls') && Position(ls', row, a + |ins|)
  {
    hide Decode;
    SpliceOk(ls[row], a, b, ins);
  }

  lemma BreakIsOk(ls: seq<Bytes>, row: nat, col: nat)
    requires LinesOk(ls) && Position(ls, row, col)
    ensures var ls' := ls[..row] + [ls[row][..col], ls[row][col..]] + ls[row + 1..];
            LinesOk(ls') && Position(ls', row + 1, 0)
  {
    hide Decode;
    ValidSplit(ls[row], col);
    ValidStartsBoundary(ls[row][col..]);
  }

  lemma MergeIsOk(ls: seq<Bytes>, row: nat)
    requires LinesOk(ls) && row + 1 < |ls|
    ensures var ls' := ls[..row] + [ls[row] + ls[row + 1]] + ls[row + 2..];
            LinesOk(ls') && Position(ls', row, |ls[row]|)
  {
    hide Decode;
    ValidJoin(ls[row], ls[row + 1]);
    ValidStartsBoundary(ls[row + 1]);
    assert ls[row + 1] != [] ==> (ls[row] + ls[row + 1])[|ls[row]|] == ls[row + 1][0];
  }
}
