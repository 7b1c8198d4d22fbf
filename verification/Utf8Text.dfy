/**
  Whole texts in UTF-8: validity, code-point boundaries, and terminal columns.
 */
module Utf8Text {
  import opened Basics
  import opened Utf8

  /** A text is valid when it is a run of well-formed characters. */
  predicate Valid(s: Bytes)
    decreases |s|
  {
    s == [] || (var d := Decode(s, 0); d.Scalar? && Valid(s[d.length..]))
  }

  /** An offset at which no character is cut: UTF-8 is self-synchronising. */
  predicate Boundary(s: Bytes, k: nat) {
    k <= |s| && (k == |s| || !IsContinuation(s[k]))
  }

  // ----- Decoding depends only on the bytes of the character -----

  lemma DecodeShape(s: Bytes, k: nat)
    requires Decode(s, k).Scalar?
    ensures !IsContinuation(s[k])
    ensures forall j :: k < j < k + Decode(s, k).length ==> IsContinuation(s[j])
  {
    var n := Decode(s, k).length;
    var c := s[k..k + n];
    forall j | k < j < k + n
      ensures IsContinuation(s[j])
    {
      assert s[j] == c[j - k];
    }
  }

  lemma DecodeInSlice(s: Bytes, a: nat, b: nat, k: nat)
    requires a <= k <= b <= |s|
    ensures Decode(s[a..b], k - a).Scalar? ==> Decode(s, k) == Decode(s[a..b], k - a)
    ensures Decode(s, k).Scalar? && k + Decode(s, k).length <= b ==>
              Decode(s[a..b], k - a) == Decode(s, k)
  {
    if k < b {
      var n := LeadLength(s[k]);
      assert s[a..b][k - a] == s[k];
      if k + n <= b {
        SliceOfSlice(s, a, b, k - a, k - a + n);
      }
    }
  }

  // ----- Validity splits and joins exactly at boundaries -----

  lemma {:induction false} ValidJoin(a: Bytes, b: Bytes)
    requires Valid(a) && Valid(b)
    ensures Valid(a + b)
    decreases |a|
  {
    hide Decode;
    if a == [] {
      assert a + b == b;
    } else {
      var n := Decode(a, 0).length;
      assert (a + b)[0..|a|] == a;
      DecodeInSlice(a + b, 0, |a|, 0);
      assert (a + b)[n..] == a[n..] + b;
      ValidJoin(a[n..], b);
    }
  }

  lemma {:induction false} ValidSplit(s: Bytes, k: nat)
    requires Valid(s) && Boundary(s, k)
    ensures Valid(s[..k]) && Valid(s[k..])
    decreases |s|
  {
    if k == 0 {
      assert s[..k] == [] && s[k..] == s;
    } else {
      var n := Decode(s, 0).length;
      FirstChar(s);
      assert n <= k;
      var t := s[n..];
      ValidSplit(t, k - n);
      ValidJoin(s[..n], t[..k - n]);
      TakeJoin(s, n, k);
    }
  }

  /** A slice between boundaries is valid, and its boundaries are those of the whole. */
  lemma SliceIsValid(line: Bytes, a: nat, b: nat)
    requires Valid(line) && Boundary(line, a) && Boundary(line, b) && a <= b
    ensures Valid(line[a..b])
    ensures forall k :: 0 <= k <= b - a ==> (Boundary(line[a..b], k) <==> Boundary(line, a + k))
  {
    hide Decode;
    ValidSplit(line, b);
    assert line[..b][a..] == line[a..b];
    assert a < b ==> line[..b][a] == line[a];
    ValidSplit(line[..b], a);
  }

  lemma FirstChar(s: Bytes)
    requires Decode(s, 0).Scalar?
    ensures var n := Decode(s, 0).length; Valid(s[..n]) && forall j :: 0 < j < n ==> !Boundary(s, j)
  {
    var n := Decode(s, 0).length;
    DecodeShape(s, 0);
    var c := s[..n];
    assert c == s[0..n] && c[n..] == [];
    DecodeInSlice(s, 0, n, 0);
    assert Decode(c, 0) == Decode(s, 0);
  }

  lemma ValidStartsBoundary(s: Bytes)
    requires Valid(s)
    ensures Boundary(s, 0)
  {
    if s != [] {
      DecodeShape(s, 0);
    }
  }

  /** The boundaries of a valid text are exactly the places where it may be cut in two. */
  lemma BoundaryIffCut(s: Bytes, k: nat)
    requires Valid(s) && k <= |s|
    ensures Boundary(s, k) <==> Valid(s[..k]) && Valid(s[k..])
  {
    if Boundary(s, k) {
      ValidSplit(s, k);
    } else if Valid(s[k..]) {
      ValidStartsBoundary(s[k..]);
    }
  }

  lemma DecodeAtBoundary(s: Bytes, k: nat)
    requires Valid(s) && Boundary(s, k) && k < |s|
    ensures Decode(s, k).Scalar? && Boundary(s, k + Decode(s, k).length)
    ensures forall j :: k < j < k + Decode(s, k).length ==> !Boundary(s, j)
    ensures Decode(s[k..], 0) == Decode(s, k)
  {
    ValidSplit(s, k);
    assert s[k..|s|] == s[k..];
    DecodeInSlice(s, k, |s|, k);
    DecodeShape(s, k);
    var n := Decode(s, k).length;
    if k + n < |s| {
      ValidStartsBoundary(s[k..][n..]);
      assert s[k..][n..][0] == s[k + n];
    }
  }

  // ----- Validation -----

  method Validate(text: Bytes) returns (ok: bool)
    ensures ok == Valid(text)
  {
    hide Decode;
    var offset := 0;
    while offset < |text|
      invariant offset <= |text|
      invariant Valid(text) == Valid(text[offset..])
    {
      assert text[offset..|text|] == text[offset..];
      DecodeInSlice(text, offset, |text|, offset);
      var decoded, _, n := DecodeAt(text, offset);
      if !decoded {
        return false;
      }
      assert text[offset..][n..] == text[offset + n..];
      offset := offset + n;
    }
    return true;
  }

  /** The bytes a reader of a C string sees: those before the first NUL or the bound. */
  function Visible(text: Bytes, maxBytes: nat): (n: nat)
    ensures n <= |text| && n <= maxBytes && 0 !in text[..n]
    ensures n == maxBytes || n == |text| || text[n] == 0
    decreases |text|
  {
    if text == [] || maxBytes == 0 || text[0] == 0 then 0
    else
      assert text[..1 + Visible(text[1..], maxBytes - 1)] ==
             [text[0]] + text[1..][..Visible(text[1..], maxBytes - 1)];
      1 + Visible(text[1..], maxBytes - 1)
  }

  lemma {:induction false} LongestValidPrefix(s: Bytes, k: nat, j: nat)
    requires k <= |s| && Valid(s[..k]) && (k == |s| || Decode(s[k..], 0).Malformed?)
    requires j <= |s| && Valid(s[..j])
    ensures j <= k
  {
    hide Decode;
    if k < j {
      var t := s[..j];
      assert t[..k] == s[..k];
      ValidStartsOrCuts(t, k);
      DecodeAtBoundary(t, k);
      assert s[k..][0..j - k] == t[k..];
      DecodeInSlice(s[k..], 0, j - k, 0);
      assert false;
    }
  }

  /** A valid prefix of a valid text ends on a boundary of it. */
  lemma {:induction false} ValidStartsOrCuts(s: Bytes, k: nat)
    requires Valid(s) && k <= |s| && Valid(s[..k])
    ensures Boundary(s, k)
    decreases |s|
  {
    if k == 0 {
      ValidStartsBoundary(s);
    } else {
      DecodeInSlice(s, 0, k, 0);
      var n := Decode(s, 0).length;
      assert s[n..][..k - n] == s[..k][n..];
      ValidStartsOrCuts(s[n..], k - n);
    }
  }

  /** Finds the longest valid prefix of the visible bytes of a C string. */
  method ValidPrefix(text: Bytes, maxBytes: nat) returns (r: nat)
    requires maxBytes <= |text| || 0 in text
    ensures r <= Visible(text, maxBytes) && Valid(text[..r])
    ensures forall j :: 0 <= j <= Visible(text, maxBytes) && Valid(text[..j]) ==> j <= r
  {
    hide Decode, Visible;
    ghost var limit := Visible(text, maxBytes);
    ghost var seen := text[..limit];
    r := 0;
    while r < maxBytes && text[r] != 0
      invariant r <= limit && Valid(seen[..r])
    {
      assert r < limit by {
        assert limit < maxBytes && limit < |text| ==> text[limit] == 0;
      }
      var available := 0;
      while available < 4 && r + available < maxBytes && text[r + available] != 0
        invariant available <= 4 && r + available <= limit
      {
        assert r + available < limit;
        available := available + 1;
      }
      if r + available < limit {
        VisibleIsNonNul(text, maxBytes, r + available);
      }
      ghost var window := text[r..r + available];
      var decoded, _, n := DecodeAt(text[r..r + available], 0);
      assert window == seen[r..r + available] by {
        assert forall i :: r <= i < r + available ==> text[i] == seen[i];
      }
      WindowDecode(seen, r, available);
      if !decoded {
        forall j | 0 <= j <= limit && Valid(text[..j])
          ensures j <= r
        {
          assert text[..j] == seen[..j];
          LongestValidPrefix(seen, r, j);
        }
        assert text[..r] == seen[..r];
        return;
      }
      ExtendValid(seen, r, n);
      r := r + n;
    }
    if r < limit {
      VisibleIsNonNul(text, maxBytes, r);
    }
    assert text[..r] == seen[..r];
  }

  lemma VisibleIsNonNul(text: Bytes, maxBytes: nat, k: nat)
    requires k < Visible(text, maxBytes)
    ensures k < maxBytes && text[k] != 0
  {
    assert text[..Visible(text, maxBytes)][k] == text[k];
  }

  /** A window of four bytes is enough to decode at its start. */
  lemma WindowDecode(s: Bytes, k: nat, n: nat)
    requires k < |s| && k + n <= |s| && (n == 4 || k + n == |s|)
    ensures Decode(s[k..k + n], 0) == Decode(s[k..], 0)
  {
    DecodeInSlice(s[k..], 0, n, 0);
    assert s[k..][0..n] == s[k..k + n];
  }

  lemma ExtendValid(s: Bytes, k: nat, n: nat)
    requires k < |s| && Valid(s[..k]) && Decode(s[k..], 0).Scalar?
    requires n == Decode(s[k..], 0).length
    ensures Valid(s[..k + n])
  {
    var c := s[k..k + n];
    assert c == s[k..][0..n];
    DecodeInSlice(s[k..], 0, n, 0);
    assert c[n..] == [];
    assert Valid(c);
    ValidJoin(s[..k], c);
    assert s[..k] + c == s[..k + n];
  }

  // ----- Stepping between boundaries -----

  function Next(s: Bytes, k: nat): nat {
    if k >= |s| then |s|
    else
      var d := Decode(s, k);
      if d.Scalar? then k + d.length else k + 1
  }

  function Prev(s: Bytes, k: nat): (p: nat)
    requires k <= |s|
    ensures k > 0 ==> p < k
  {
    if k <= 1 then 0
    else if !IsContinuation(s[k - 1]) then k - 1
    else Prev(s, k - 1)
  }

  method PrevAt(s: Bytes, offset: nat) returns (p: nat)
    requires offset <= |s|
    ensures p == Prev(s, offset)
  {
    if offset == 0 {
      return 0;
    }
    p := offset - 1;
    while p > 0 && IsContinuation(s[p])
      invariant p < offset
      invariant Prev(s, offset) == Prev(s, p + 1)
    {
      p := p - 1;
    }
  }

  /** Prev stops at the nearest boundary on the left. */
  lemma {:induction false} PrevIsBoundary(s: Bytes, k: nat)
    requires Valid(s) && 0 < k <= |s|
    ensures Boundary(s, Prev(s, k))
    ensures forall j :: Prev(s, k) < j < k ==> !Boundary(s, j)
  {
    ValidStartsBoundary(s);
    if k > 1 && IsContinuation(s[k - 1]) {
      PrevIsBoundary(s, k - 1);
    }
  }

  /** On the boundaries of a valid text, Next and Prev undo each other. */
  lemma NextPrevInverse(s: Bytes, k: nat)
    requires Valid(s) && Boundary(s, k)
    ensures k < |s| ==> Boundary(s, Next(s, k)) && Next(s, k) > k && Prev(s, Next(s, k)) == k
    ensures k > 0 ==> Boundary(s, Prev(s, k)) && Next(s, Prev(s, k)) == k
  {
    if k < |s| {
      DecodeAtBoundary(s, k);
      PrevIsBoundary(s, Next(s, k));
    }
    if k > 0 {
      PrevIsBoundary(s, k);
      DecodeAtBoundary(s, Prev(s, k));
    }
  }

  // ----- Terminal columns -----

  function Width(cp: nat): (w: nat)
    ensures w <= 1
  {
    if cp == 0 || cp < 0x20 || 0x7F <= cp < 0xA0 then 0
    else if || 0x0300 <= cp <= 0x036F || 0x1AB0 <= cp <= 0x1AFF || 0x1DC0 <= cp <= 0x1DFF
            || 0x20D0 <= cp <= 0x20FF || 0xFE20 <= cp <= 0xFE2F then 0
    else 1
  }

  /** The character at the head of a text, a malformed byte standing for U+FFFD. */
  function Head(s: Bytes): (h: (nat, nat))
    requires s != []
    ensures 1 <= h.1 <= |s|
  {
    match Decode(s, 0)
    case Scalar(cp, n) => (cp, n)
    case Malformed => (0xFFFD, 1)
  }

  function Columns(s: Bytes): nat
    decreases |s|
  {
    if s == [] then 0 else Width(Head(s).0) + Columns(s[Head(s).1..])
  }

  /** The bytes of the longest prefix, in whole characters, that takes at most `m` columns. */
  function PrefixBytes(s: Bytes, m: nat): (n: nat)
    ensures n <= |s|
    decreases |s|
  {
    if s == [] || Width(Head(s).0) > m then 0
    else Head(s).1 + PrefixBytes(s[Head(s).1..], m - Width(Head(s).0))
  }

  /** The character at `offset` as the scans see it: one that runs past `end` counts as malformed. */
  function HeadAt(text: Bytes, offset: nat, end: nat): (h: (nat, nat))
    requires offset < end <= |text|
    ensures 1 <= h.1 && offset + h.1 <= end
  {
    var d := Decode(text, offset);
    if d.Malformed? || offset + d.length > end then (0xFFFD, 1) else (d.codepoint, d.length)
  }

  lemma ScanStep(text: Bytes, offset: nat, end: nat)
    requires offset < end <= |text|
    ensures var s, h := text[offset..end], HeadAt(text, offset, end);
            Head(s) == h && s[h.1..] == text[offset + h.1..end]
  {
    DecodeInSlice(text, offset, end, offset);
    var n := HeadAt(text, offset, end).1;
    SliceOfSlice(text, offset, end, n, end - offset);
    assert text[offset..end][n..] == text[offset..end][n..end - offset];
  }

  lemma ColumnsStep(text: Bytes, offset: nat, end: nat)
    requires offset < end <= |text|
    ensures var h := HeadAt(text, offset, end);
            Columns(text[offset..end]) == Width(h.0) + Columns(text[offset + h.1..end])
  {
    ScanStep(text, offset, end);
  }

  lemma PrefixStep(text: Bytes, offset: nat, end: nat, m: nat)
    requires offset < end <= |text|
    ensures var h := HeadAt(text, offset, end);
            PrefixBytes(text[offset..end], m) ==
            if Width(h.0) > m then 0
            else h.1 + PrefixBytes(text[offset + h.1..end], m - Width(h.0))
  {
    ScanStep(text, offset, end);
  }

  method ReadHead(text: Bytes, offset: nat, end: nat) returns (cp: nat, n: nat)
    requires offset < end <= |text|
    ensures (cp, n) == HeadAt(text, offset, end)
  {
    var decoded;
    decoded, cp, n := DecodeAt(text, offset);
    if !decoded || offset + n > end {
      cp, n := 0xFFFD, 1;
    }
  }

  method ColumnsBetween(text: Bytes, start: nat, end: nat) returns (columns: nat)
    ensures start > |text| ==> columns == 0
    ensures start <= |text| ==>
              var e := if end > |text| then |text| else end;
              columns == if start > e then 0 else Columns(text[start..e])
  {
    hide Decode, Width;
    if start > |text| {
      return 0;
    }
    var e := if end > |text| then |text| else end;
    var offset := if start > e then e else start;
    columns := 0;
    ghost var all := Columns(text[offset..e]);
    while offset < e
      invariant offset <= e
      invariant columns + Columns(text[offset..e]) == all
    {
      ColumnsStep(text, offset, e);
      var cp, n := ReadHead(text, offset, e);
      columns := columns + Width(cp);
      offset := offset + n;
    }
  }

  method PrefixBytesOf(text: Bytes, maxColumns: nat) returns (offset: nat)
    ensures offset == PrefixBytes(text, maxColumns)
  {
    hide Decode, Width;
    offset := 0;
    var columns := 0;
    assert text[0..|text|] == text;
    while offset < |text|
      invariant offset <= |text| && columns <= maxColumns
      invariant PrefixBytes(text, maxColumns) ==
                offset + PrefixBytes(text[offset..|text|], maxColumns - columns)
    {
      PrefixStep(text, offset, |text|, maxColumns - columns);
      var cp, n := ReadHead(text, offset, |text|);
      var width := Width(cp);
      if width > 0 && columns + width > maxColumns {
        break;
      }
      columns := columns + width;
      offset := offset + n;
    }
  }

  lemma {:induction false} ColumnsJoin(a: Bytes, b: Bytes)
    requires Valid(a)
    ensures Columns(a + b) == Columns(a) + Columns(b)
    decreases |a|
  {
    hide Decode, Width;
    if a == [] {
      assert a + b == b;
    } else {
      var n := Decode(a, 0).length;
      assert (a + b)[0..|a|] == a;
      DecodeInSlice(a + b, 0, |a|, 0);
      assert (a + b)[n..] == a[n..] + b;
      ColumnsJoin(a[n..], b);
    }
  }

  lemma {:induction false} PrefixBytesIsBoundary(s: Bytes, m: nat)
    requires Valid(s)
    ensures Boundary(s, PrefixBytes(s, m))
    decreases |s|
  {
    ValidStartsBoundary(s);
    if s != [] && Width(Head(s).0) <= m {
      PrefixBytesIsBoundary(s[Head(s).1..], m - Width(Head(s).0));
    }
  }

  /** Columns and PrefixBytes are adjoint: together they fix each other on valid text. */
  lemma {:induction false} PrefixBytesAdjoint(s: Bytes, m: nat, b: nat)
    requires Valid(s) && Boundary(s, b)
    ensures Columns(s[..b]) <= m <==> b <= PrefixBytes(s, m)
    decreases |s|
  {
    hide Decode, Width;
    if b > 0 {
      var n := Decode(s, 0).length;
      DecodeShape(s, 0);
      assert n <= b;
      DecodeInSlice(s, 0, b, 0);
      assert s[..b][n..] == s[n..][..b - n];
      if Width(Head(s).0) <= m {
        PrefixBytesAdjoint(s[n..], m - Width(Head(s).0), b - n);
      }
    }
  }

  /** The longest prefix within `m` columns fills them, unless the whole text is narrower. */
  lemma {:induction false} PrefixBytesFills(s: Bytes, m: nat)
    requires Valid(s)
    ensures Columns(s[..PrefixBytes(s, m)]) == if Columns(s) <= m then Columns(s) else m
    decreases |s|
  {
    hide Decode, Width;
    if s == [] {
      assert s[..0] == [];
    } else if Width(Head(s).0) > m {
      assert s[..0] == [];
    } else {
      var n := Head(s).1;
      var rest := PrefixBytes(s[n..], m - Width(Head(s).0));
      PrefixBytesFills(s[n..], m - Width(Head(s).0));
      assert s[..n + rest][n..] == s[n..][..rest];
      DecodeInSlice(s, 0, n + rest, 0);
    }
  }
}
