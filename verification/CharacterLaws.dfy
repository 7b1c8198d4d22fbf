/**
  Text as the characters it is made of: which characters search takes for the same, what it means for
  a query to occur, and how many cells of a terminal a text takes.
 */
module CharacterLaws {
  import opened Basics
  import opened Utf8
  import opened Utf8Text
  import opened TextSearch

  /** The characters of a text. */
  function CodePoints(s: Bytes): seq<nat>
    requires Valid(s)
    decreases |s|
  {
    if s == [] then [] else [Decode(s, 0).codepoint] + CodePoints(s[Decode(s, 0).length..])
  }

  /** What a byte adds to a number, given what its form adds to it. */
  function Above(b: Byte, base: int): int {
    var n: int := b;
    n - base
  }

  lemma PayloadMeans(b: Byte)
    ensures IsContinuation(b) ==> Payload(b) == Above(b, 0x80)
    ensures 0xC0 <= b <= 0xDF ==> LeadPayload(b, 2) == Above(b, 0xC0)
    ensures 0xE0 <= b <= 0xEF ==> LeadPayload(b, 3) == Above(b, 0xE0)
    ensures 0xF0 <= b <= 0xF7 ==> LeadPayload(b, 4) == Above(b, 0xF0)
  {
  }

  lemma BitsMean(c: Bytes)
    requires WellFormedChar(c)
    ensures var n := |c|;
            && 1 <= n <= 4
            && Bits(c, n, n) ==
               if n == 1 then Above(c[0], 0)
               else if n == 2 then Above(c[0], 0xC0) * 64 + Above(c[1], 0x80)
               else if n == 3 then (Above(c[0], 0xE0) * 64 + Above(c[1], 0x80)) * 64 + Above(c[2], 0x80)
               else
                 ((Above(c[0], 0xF0) * 64 + Above(c[1], 0x80)) * 64 + Above(c[2], 0x80)) * 64 + Above(c[3], 0x80)
  {
    hide Payload, LeadPayload, Above;
    var n := |c|;
    PayloadMeans(c[0]);
    if n > 1 {
      PayloadMeans(c[1]);
      assert Bits(c, n, 2) == Bits(c, n, 1) * 64 + Payload(c[1]);
    } else {
      assert LeadPayload(c[0], 1) == Above(c[0], 0) by { SingleMeans(c[0]); }
    }
    if n > 2 {
      PayloadMeans(c[2]);
      assert Bits(c, n, 3) == Bits(c, n, 2) * 64 + Payload(c[2]);
    }
    if n > 3 {
      PayloadMeans(c[3]);
    }
  }

  lemma SingleMeans(b: Byte)
    ensures LeadPayload(b, 1) == Above(b, 0)
  {
  }

  /** The number that the bytes of a character stand for, in base 64. */
  lemma DecodedValue(s: Bytes, k: nat, cp: nat, n: nat)
    requires Decode(s, k) == Scalar(cp, n)
    ensures 1 <= n <= 4 && k + n <= |s|
    ensures cp ==
            if n == 1 then Above(s[k], 0)
            else if n == 2 then Above(s[k], 0xC0) * 64 + Above(s[k + 1], 0x80)
            else if n == 3 then (Above(s[k], 0xE0) * 64 + Above(s[k + 1], 0x80)) * 64 + Above(s[k + 2], 0x80)
            else
              ((Above(s[k], 0xF0) * 64 + Above(s[k + 1], 0x80)) * 64 + Above(s[k + 2], 0x80)) * 64
              + Above(s[k + 3], 0x80)
  {
    hide Bits, Above, WellFormedChar;
    BitsMean(s[k..k + n]);
  }

  /** A text is determined by its characters. */
  lemma {:induction false} CodePointsDetermine(s: Bytes, t: Bytes)
    requires Valid(s) && Valid(t) && CodePoints(s) == CodePoints(t)
    ensures s == t
    decreases |s|
  {
    hide Decode;
    if s != [] && t != [] {
      var d, e := Decode(s, 0), Decode(t, 0);
      assert d.codepoint == CodePoints(s)[0] == CodePoints(t)[0] == e.codepoint;
      assert CodePoints(s)[1..] == CodePoints(t)[1..];
      DecodeIffEncoding(s, 0, d.codepoint, d.length);
      DecodeIffEncoding(t, 0, e.codepoint, e.length);
      CodePointsDetermine(s[d.length..], t[e.length..]);
      assert s == s[0..d.length] + s[d.length..] && t == t[0..e.length] + t[e.length..];
    }
  }

  // ----- Letter case -----

  /** A capital letter of ASCII or Latin-1, or Y with diaeresis, and its small letter. */
  predicate CasePair(capital: nat, small: nat) {
    || (0x41 <= capital <= 0x5A && small == capital + 0x20)
    || (0xC0 <= capital <= 0xD6 && small == capital + 0x20)
    || (0xD8 <= capital <= 0xDE && small == capital + 0x20)
    || (capital == 0x178 && small == 0xFF)
  }

  /** The same character, or one the capital of the other. */
  predicate Alike(a: nat, b: nat) {
    a == b || CasePair(a, b) || CasePair(b, a)
  }

  /** Comparing after folding is comparing up to exactly these pairs. */
  lemma FoldIsCase(a: nat, b: nat)
    ensures Fold(a) == Fold(b) <==> Alike(a, b)
  {
  }

  /** As many characters, alike one by one. */
  predicate AllAlike(a: seq<nat>, b: seq<nat>) {
    |a| == |b| && forall i :: 0 <= i < |a| ==> Alike(a[i], b[i])
  }

  lemma {:induction false} FoldedMeans(s: Bytes, t: Bytes, ci: bool)
    requires Valid(s) && Valid(t)
    ensures Folded(s, ci) == Folded(t, ci) <==>
            if ci then AllAlike(CodePoints(s), CodePoints(t)) else CodePoints(s) == CodePoints(t)
    decreases |s|
  {
    hide Decode, Fold, Alike;
    if s != [] && t != [] {
      var d, e := Decode(s, 0), Decode(t, 0);
      var a, b := CodePoints(s[d.length..]), CodePoints(t[e.length..]);
      FoldedMeans(s[d.length..], t[e.length..], ci);
      FoldIsCase(d.codepoint, e.codepoint);
      HeadAndTail(FoldIf(ci, d.codepoint), FoldIf(ci, e.codepoint),
        Folded(s[d.length..], ci), Folded(t[e.length..], ci));
      HeadAndTail(d.codepoint, e.codepoint, a, b);
      AlikeHeadAndTail(d.codepoint, e.codepoint, a, b);
    }
  }

  lemma HeadAndTail(x: nat, y: nat, a: seq<nat>, b: seq<nat>)
    ensures [x] + a == [y] + b <==> x == y && a == b
  {
    assert ([x] + a)[0] == x && ([y] + b)[0] == y && ([x] + a)[1..] == a && ([y] + b)[1..] == b;
  }

  lemma AlikeHeadAndTail(x: nat, y: nat, a: seq<nat>, b: seq<nat>)
    ensures AllAlike([x] + a, [y] + b) <==> Alike(x, y) && AllAlike(a, b)
  {
    hide Alike;
    var s, t := [x] + a, [y] + b;
    assert s[0] == x && t[0] == y && s[1..] == a && t[1..] == b;
    if AllAlike(s, t) {
      assert forall i :: 0 <= i < |a| ==> a[i] == s[i + 1] && b[i] == t[i + 1];
    }
  }

  /**
    What it means for a query to occur: it stands between two character boundaries, and its
    characters are those of the query one by one, up to case; or where case counts the bytes are.
   */
  lemma OccursMeans(line: Bytes, p: nat, query: Bytes, ci: bool)
    requires Valid(line) && Valid(query)
    ensures Occurs(line, p, query, ci) <==>
            && Boundary(line, p) && Boundary(line, p + |query|)
            && Valid(line[p..p + |query|])
            && (if ci then AllAlike(CodePoints(line[p..p + |query|]), CodePoints(query))
                else line[p..p + |query|] == query)
  {
    hide Decode, Folded, CodePoints, AllAlike;
    if Boundary(line, p) && Boundary(line, p + |query|) {
      var s := line[p..p + |query|];
      SliceIsValid(line, p, p + |query|);
      FoldedMeans(s, query, ci);
      if CodePoints(s) == CodePoints(query) {
        CodePointsDetermine(s, query);
      }
    }
  }

  // ----- Cells of a terminal -----

  /** Control characters and combining marks take no cell. */
  predicate NoCell(cp: nat) {
    || cp < 0x20 || 0x7F <= cp < 0xA0
    || 0x300 <= cp <= 0x36F || 0x1AB0 <= cp <= 0x1AFF || 0x1DC0 <= cp <= 0x1DFF
    || 0x20D0 <= cp <= 0x20FF || 0xFE20 <= cp <= 0xFE2F
  }

  function Cells(cps: seq<nat>): nat {
    if cps == [] then 0 else (if NoCell(cps[0]) then 0 else 1) + Cells(cps[1..])
  }

  /** A text takes one cell for each of its characters but those. */
  lemma {:induction false} ColumnsAreCells(s: Bytes)
    requires Valid(s)
    ensures Columns(s) == Cells(CodePoints(s))
    decreases |s|
  {
    hide Decode;
    if s != [] {
      var d := Decode(s, 0);
      ColumnsAreCells(s[d.length..]);
      assert CodePoints(s)[1..] == CodePoints(s[d.length..]);
    }
  }
}
