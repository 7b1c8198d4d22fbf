/**
  Searching one line for a query: code points are compared after folding letter case, which
  never changes the number of bytes a code point takes.
 */
module TextSearch {
  import opened Basics
  import opened Utf8
  import opened Utf8Text
  import opened LineEdits

  function Fold(cp: nat): nat {
    if 0x41 <= cp <= 0x5A then cp + 0x20
    else if 0x00C0 <= cp <= 0x00D6 || 0x00D8 <= cp <= 0x00DE then cp + 0x20
    else if cp == 0x0178 then 0x00FF
    else cp
  }

  function FoldIf(caseInsensitive: bool, cp: nat): nat {
    if caseInsensitive then Fold(cp) else cp
  }

  /** The code points of a valid text, folded when case is to be ignored. */
  function Folded(s: Bytes, ci: bool): seq<nat>
    requires Valid(s)
    decreases |s|
  {
    if s == [] then []
    else
      var d := Decode(s, 0);
      [FoldIf(ci, d.codepoint)] + Folded(s[d.length..], ci)
  }

  /** The query stands at a boundary of the line, up to case. */
  ghost predicate Occurs(line: Bytes, p: nat, query: Bytes, ci: bool)
    requires Valid(line) && Valid(query)
  {
    && Boundary(line, p) && Boundary(line, p + |query|)
    && (SliceIsValid(line, p, p + |query|); Folded(line[p..p + |query|], ci) == Folded(query, ci))
  }

  function EncodedLength(cp: nat): nat {
    if cp <= 0x7F then 1 else if cp <= 0x7FF then 2 else if cp <= 0xFFFF then 3 else 4
  }

  lemma DecodedLength(s: Bytes, k: nat)
    requires Decode(s, k).Scalar?
    ensures Decode(s, k).length == EncodedLength(Decode(s, k).codepoint)
  {
    var d := Decode(s, k);
    DecodeIffEncoding(s, k, d.codepoint, d.length);
  }

  /** Equal after folding means equal in length: a match is as long as the query. */
  lemma FoldKeepsLength(cp: nat, cp': nat, ci: bool)
    requires FoldIf(ci, cp) == FoldIf(ci, cp')
    ensures EncodedLength(cp) == EncodedLength(cp')
  {
  }

  /** Texts that fold alike have the same number of bytes. */
  lemma {:induction false} FoldedLength(s: Bytes, t: Bytes, ci: bool)
    requires Valid(s) && Valid(t) && Folded(s, ci) == Folded(t, ci)
    ensures |s| == |t|
    decreases |s|
  {
    hide Decode, Fold;
    if s != [] && t != [] {
      var d, e := Decode(s, 0), Decode(t, 0);
      DecodedLength(s, 0);
      DecodedLength(t, 0);
      assert FoldIf(ci, d.codepoint) == Folded(s, ci)[0] == Folded(t, ci)[0] == FoldIf(ci, e.codepoint);
      FoldKeepsLength(d.codepoint, e.codepoint, ci);
      assert Folded(s, ci)[1..] == Folded(t, ci)[1..];
      FoldedLength(s[d.length..], t[e.length..], ci);
    }
  }

  lemma SliceHead(line: Bytes, p: nat, n: nat, q: nat, ci: bool)
    requires Valid(line) && Boundary(line, p) && Boundary(line, q) && p < q
    requires Decode(line, p).Scalar? && n == Decode(line, p).length
    ensures Boundary(line, p + n) && p + n <= q
    ensures Valid(line[p..q]) && Valid(line[p + n..q])
    ensures Folded(line[p..q], ci) == [FoldIf(ci, Decode(line, p).codepoint)] + Folded(line[p + n..q], ci)
  {
    hide Decode, Fold;
    DecodeAtBoundary(line, p);
    SliceIsValid(line, p, q);
    SliceIsValid(line, p + n, q);
    DecodeInSlice(line, p, q, p);
    SliceOfSlice(line, p, q, n, q - p);
    assert line[p..q][n..] == line[p..q][n..q - p];
  }

  lemma SameHead<A>(x: A, s: seq<A>, t: seq<A>)
    ensures [x] + s == [x] + t <==> s == t
  {
    assert ([x] + s)[1..] == s && ([x] + t)[1..] == t;
  }

  /** A non-empty query occurs when its first character does and the rest occurs after it. */
  lemma OccursStep(line: Bytes, p: nat, query: Bytes, ci: bool)
    requires Valid(line) && Valid(query) && query != [] && Boundary(line, p)
    ensures p >= |line| ==> !Occurs(line, p, query, ci)
    ensures p < |line| ==>
              var d, e := Decode(line, p), Decode(query, 0);
              && d.Scalar? && e.Scalar? && Valid(query[e.length..])
              && (Occurs(line, p, query, ci) <==>
                  && FoldIf(ci, d.codepoint) == FoldIf(ci, e.codepoint)
                  && Occurs(line, p + d.length, query[e.length..], ci))
  {
    hide Decode, Fold, Folded, Valid;
    var q := p + |query|;
    if p < |line| {
      DecodeAtBoundary(line, p);
      ValidSplitAll(query);
      var d, e := Decode(line, p), Decode(query, 0);
      DecodedLength(line, p);
      DecodedLength(query, 0);
      FoldedHead(query, ci);
      if FoldIf(ci, d.codepoint) == FoldIf(ci, e.codepoint) {
        FoldKeepsLength(d.codepoint, e.codepoint, ci);
        assert p + d.length + |query[e.length..]| == q;
        if Boundary(line, q) {
          SliceHead(line, p, d.length, q, ci);
          SameHead(FoldIf(ci, d.codepoint), Folded(line[p + d.length..q], ci), Folded(query[e.length..], ci));
        }
      } else if Boundary(line, q) {
        SliceHead(line, p, d.length, q, ci);
        assert Folded(line[p..q], ci)[0] != Folded(query, ci)[0];
      }
    }
  }

  lemma ValidSplitAll(s: Bytes)
    requires Valid(s) && s != []
    ensures Decode(s, 0).Scalar? && Valid(s[Decode(s, 0).length..])
  {
  }

  lemma FoldedHead(s: Bytes, ci: bool)
    requires Valid(s) && s != []
    ensures Folded(s, ci) == [FoldIf(ci, Decode(s, 0).codepoint)] + Folded(s[Decode(s, 0).length..], ci)
  {
  }

  /** Compares the query with the line, one code point at a time. */
  method QueryMatches(line: Bytes, position: nat, query: Bytes, ci: bool) returns (ok: bool, matchEnd: nat)
    requires Valid(line) && Valid(query) && Boundary(line, position)
    ensures ok == Occurs(line, position, query, ci)
    ensures ok ==> matchEnd == position + |query|
  {
    hide Decode, Fold, Folded, Valid, Occurs;
    var lineOffset: nat, queryOffset: nat := position, 0;
    assert query[0..] == query;
    while queryOffset < |query|
      invariant queryOffset <= |query| && Boundary(line, lineOffset) && Valid(query[queryOffset..])
      invariant Occurs(line, position, query, ci) == Occurs(line, lineOffset, query[queryOffset..], ci)
      invariant lineOffset - position == queryOffset
    {
      ghost var rest := query[queryOffset..];
      OccursStep(line, lineOffset, rest, ci);
      if lineOffset >= |line| {
        return false, 0;
      }
      DecodeAtBoundary(line, lineOffset);
      ValidSplitAll(rest);
      assert rest == query[queryOffset..|query|];
      DecodeInSlice(query, queryOffset, |query|, queryOffset);
      var lineOk, lineCodepoint, lineBytes := DecodeAt(line, lineOffset);
      var queryOk, queryCodepoint, queryBytes := DecodeAt(query, queryOffset);
      if !lineOk || !queryOk {
        assert false;
      }
      if FoldIf(ci, lineCodepoint) != FoldIf(ci, queryCodepoint) {
        return false, 0;
      }
      DecodedLength(line, lineOffset);
      DecodedLength(query, queryOffset);
      FoldKeepsLength(lineCodepoint, queryCodepoint, ci);
      assert rest[queryBytes..] == query[queryOffset + queryBytes..];
      lineOffset := lineOffset + lineBytes;
      queryOffset := queryOffset + queryBytes;
    }
    OccursEmpty(line, lineOffset, ci);
    assert query[queryOffset..] == [];
    return true, lineOffset;
  }

  lemma OccursEmpty(line: Bytes, p: nat, ci: bool)
    requires Valid(line) && Boundary(line, p)
    ensures Occurs(line, p, [], ci)
  {
    assert line[p..p] == [];
  }

  // ----- Searching a range of a line -----

  /** The nearest boundary at or after an offset. */
  function AtOrAfter(s: Bytes, k: nat): (p: nat)
    ensures p <= |s|
    decreases |s| - k
  {
    if k >= |s| then |s|
    else if k == 0 || !IsContinuation(s[k]) then k
    else AtOrAfter(s, k + 1)
  }

  lemma {:induction false} AtOrAfterIs(s: Bytes, k: nat, p: nat)
    requires k <= p <= |s| && Boundary(s, p) && forall j :: k <= j < p ==> !Boundary(s, j)
    requires Boundary(s, 0)
    ensures AtOrAfter(s, k) == p
    decreases p - k
  {
    if k < p {
      assert !Boundary(s, k);
      AtOrAfterIs(s, k + 1, p);
    }
  }

  lemma {:induction false} AtOrAfterIsBoundary(s: Bytes, k: nat)
    requires Valid(s)
    ensures Boundary(s, AtOrAfter(s, k)) && (k <= |s| ==> AtOrAfter(s, k) >= k)
    ensures forall j :: k <= j < AtOrAfter(s, k) ==> !Boundary(s, j)
    decreases |s| - k
  {
    ValidStartsBoundary(s);
    if 0 < k < |s| && IsContinuation(s[k]) {
      AtOrAfterIsBoundary(s, k + 1);
    }
  }

  method BoundaryAtOrAfter(line: Bytes, offset: nat) returns (p: nat)
    requires Valid(line)
    ensures p == AtOrAfter(line, offset)
  {
    hide Valid, Decode;
    ValidStartsBoundary(line);
    if offset >= |line| {
      return |line|;
    }
    AtOrBeforeIsBoundary(line, offset);
    var before := BoundaryAtOrBefore(line, offset);
    if before == offset {
      return before;
    }
    AtOrBeforeGap(line, offset);
    NextStep(line, before);
    var after := Next(line, before);
    assert offset < after by {
      assert before < offset < |line|;
      assert Boundary(line, after);
      assert forall j :: before < j <= offset ==> !Boundary(line, j);
    }
    AtOrAfterIs(line, offset, after);
    return after;
  }

  lemma {:induction false} AtOrBeforeGap(s: Bytes, k: nat)
    requires Valid(s) && k < |s|
    ensures forall j :: AtOrBefore(s, k) < j <= k ==> !Boundary(s, j)
  {
    if k > 0 && IsContinuation(s[k]) {
      AtOrBeforeGap(s, k - 1);
    }
  }

  /** An occurrence that lies wholly within a range. */
  ghost predicate OccursIn(line: Bytes, query: Bytes, ci: bool, from: nat, to: nat, p: nat)
    requires Valid(line) && Valid(query)
  {
    from <= p && p + |query| <= to && Occurs(line, p, query, ci)
  }

  /** Finds the first occurrence in a range, stepping from character to character. */
  method FindRange(line: Bytes, query: Bytes, ci: bool, from: nat, to: nat)
    returns (found: bool, start: nat, end: nat)
    requires Valid(line) && Valid(query) && query != []
    ensures found ==> OccursIn(line, query, ci, from, to, start) && end == start + |query|
    ensures found ==> forall p: nat :: OccursIn(line, query, ci, from, to, p) ==> start <= p
    ensures !found ==> forall p: nat :: !OccursIn(line, query, ci, from, to, p)
  {
    hide Valid, Decode, Folded;
    var bound := if to > |line| then |line| else to;
    AtOrAfterIsBoundary(line, from);
    AtOrBeforeIsBoundary(line, bound);
    AtOrBeforeIsLast(line, bound);
    var first := BoundaryAtOrAfter(line, from);
    var limit := BoundaryAtOrBefore(line, bound);
    var position := first;
    while position < limit
      invariant first <= position <= |line| && Boundary(line, position)
      invariant forall p: nat :: OccursIn(line, query, ci, from, to, p) ==> position <= p
      decreases |line| - position
    {
      var matches, matchEnd := QueryMatches(line, position, query, ci);
      if matches && matchEnd <= limit {
        return true, position, matchEnd;
      }
      NextStep(line, position);
      var next := Next(line, position);
      if next <= position {
        assert false;
      }
      forall p: nat | OccursIn(line, query, ci, from, to, p)
        ensures next <= p
      {
        assert Boundary(line, p) && Boundary(line, p + |query|);
      }
      position := next;
    }
    assert forall p: nat :: OccursIn(line, query, ci, from, to, p) ==> Boundary(line, p + |query|);
    return false, 0, 0;
  }

  lemma {:induction false} AtOrBeforeIsLast(s: Bytes, k: nat)
    requires Valid(s) && k <= |s|
    ensures forall j :: 0 <= j <= k && Boundary(s, j) ==> j <= AtOrBefore(s, k)
  {
    if k < |s| {
      AtOrBeforeGap(s, k);
    }
  }
}
