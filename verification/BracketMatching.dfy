/** cpplint's forward and backward scanners for matching brackets over many lines. */
module BracketMatching {

  /** A position, or the end of a search: `line` and `pos` as the scanners return them. */
  datatype Place = Place(line: int, pos: int)

  /** The four kinds of brackets. */
  ghost predicate IsPair(open: char, close: char) {
    || (open == '(' && close == ')')
    || (open == '[' && close == ']')
    || (open == '{' && close == '}')
    || (open == '<' && close == '>')
  }

  predicate IsOpening(c: char) {
    c == '(' || c == '{' || c == '[' || c == '<'
  }

  predicate IsClosing(c: char) {
    c == ')' || c == '}' || c == ']' || c == '>'
  }

  function Closing(c: char): (r: char)
    requires IsOpening(c)
    ensures IsClosing(r) && r != c && Opening(r) == c
  {
    if c == '(' then ')' else if c == '[' then ']' else if c == '{' then '}' else '>'
  }

  function Opening(c: char): (r: char)
    requires IsClosing(c)
    ensures IsOpening(r) && r != c
  {
    if c == ')' then '(' else if c == ']' then '[' else if c == '}' then '{' else '<'
  }

  /** The case distinctions of the scanners are those of the four pairs. */
  lemma PairsAre(c: char)
    ensures IsOpening(c) <==> exists d :: IsPair(c, d)
    ensures IsClosing(c) <==> exists d :: IsPair(d, c)
    ensures forall d :: IsPair(c, d) ==> IsOpening(c) && d == Closing(c)
    ensures forall d :: IsPair(d, c) ==> IsClosing(c) && d == Opening(c)
  {
    if IsOpening(c) { assert IsPair(c, Closing(c)); }
    if IsClosing(c) { assert IsPair(Opening(c), c); }
  }

  // ----- Balances in plain text -----

  /** The number of `open` minus the number of `close` in `text`. */
  ghost function Balance(text: string, open: char, close: char): int
    decreases |text|
  {
    if text == [] then 0
    else
      (if text[0] == open then 1 else if text[0] == close then -1 else 0) + Balance(text[1..], open, close)
  }

  lemma {:induction false} BalanceSplits(a: string, b: string, open: char, close: char)
    ensures Balance(a + b, open, close) == Balance(a, open, close) + Balance(b, open, close)
    decreases |a|
  {
    if a == [] {
      assert a + b == b;
    } else {
      assert (a + b)[1..] == a[1..] + b;
      BalanceSplits(a[1..], b, open, close);
    }
  }

  /** The balance of the text from position `i` up to, not including, position `j`. */
  ghost function Between(text: string, i: int, j: int, open: char, close: char): int
    requires 0 <= i <= j <= |text|
  {
    Balance(text[i..j], open, close)
  }

  /** Scanning forward from `s` with `depth` brackets open, the depth stays positive up to `e`. */
  ghost predicate StaysOpen(text: string, s: int, depth: int, e: int, open: char, close: char) {
    0 <= s && e <= |text| && forall k :: s < k <= e ==> depth + Between(text, s, k, open, close) > 0
  }

  /** Scanning backward from `e` with `depth` brackets closed, the depth stays positive down to `s`. */
  ghost predicate StaysClosed(text: string, s: int, depth: int, e: int, open: char, close: char) {
    0 <= s && e <= |text| && forall k :: s <= k < e ==> depth - Between(text, k, e, open, close) > 0
  }

  /** Position `q` closes position `p`: the text from `p` through `q` is balanced for the first time. */
  ghost predicate Closes(text: string, p: int, q: int, open: char, close: char) {
    && 0 <= p < q < |text| && text[p] == open && text[q] == close
    && Between(text, p, q + 1, open, close) == 0
    && StaysOpen(text, p, 0, q, open, close)
  }

  /** Position `p` opens position `q`: going back from `q`, the text is balanced for the first time. */
  ghost predicate Opens(text: string, p: int, q: int, open: char, close: char) {
    && 0 <= p < q < |text| && text[p] == open && text[q] == close
    && Between(text, p, q + 1, open, close) == 0
    && StaysClosed(text, p + 1, 0, q + 1, open, close)
  }

  lemma BalanceBetween(text: string, p: int, k: int, q: int, open: char, close: char)
    requires 0 <= p <= k <= q <= |text|
    ensures Between(text, p, q, open, close) == Between(text, p, k, open, close) + Between(text, k, q, open, close)
  {
    assert text[p..k] + text[k..q] == text[p..q];
    BalanceSplits(text[p..k], text[k..q], open, close);
  }

  /** Matching forward and matching backward are the same relation. */
  lemma ClosesIffOpens(text: string, p: int, q: int, open: char, close: char)
    ensures Closes(text, p, q, open, close) <==> Opens(text, p, q, open, close)
  {
    var e := q + 1;
    if 0 <= p < q < |text| && Between(text, p, e, open, close) == 0 {
      forall k | p < k < e ensures Between(text, p, k, open, close) == 0 - Between(text, k, e, open, close) {
        BalanceBetween(text, p, k, e, open, close);
      }
      if StaysOpen(text, p, 0, q, open, close) {
        forall k | p + 1 <= k < e ensures 0 - Between(text, k, e, open, close) > 0 {
          assert 0 + Between(text, p, k, open, close) > 0;
        }
      }
      if StaysClosed(text, p + 1, 0, e, open, close) {
        forall k | p < k <= q ensures 0 + Between(text, p, k, open, close) > 0 {
          assert 0 - Between(text, k, e, open, close) > 0;
        }
      }
    }
  }

  lemma MatchIsUnique(text: string, p: int, q: int, p': int, q': int, open: char, close: char)
    requires Closes(text, p, q, open, close) && Closes(text, p', q', open, close)
    ensures p == p' <==> q == q'
  {
    ClosesIffOpens(text, p, q, open, close);
    ClosesIffOpens(text, p', q', open, close);
  }

  // ----- Lines and the text they make up -----

  /** All lines one after the other. Line ends hold no brackets and do not matter here. */
  ghost function Flat(lines: seq<string>): string {
    if lines == [] then "" else lines[0] + Flat(lines[1..])
  }

  /** Where a position of a line is in the flat text. */
  ghost function Offset(lines: seq<string>, line: int, pos: int): int
    requires 0 <= line <= |lines|
  {
    |Flat(lines[..line])| + pos
  }

  lemma {:induction false} FlatSplits(a: seq<string>, b: seq<string>)
    ensures Flat(a + b) == Flat(a) + Flat(b)
    decreases |a|
  {
    if a == [] {
      assert a + b == b;
    } else {
      assert (a + b)[1..] == a[1..] + b;
      FlatSplits(a[1..], b);
    }
  }

  /** A whole line of the flat text. */
  lemma FlatLine(lines: seq<string>, line: nat)
    requires line < |lines|
    ensures 0 <= Offset(lines, line, 0) <= Offset(lines, line + 1, 0) == Offset(lines, line, |lines[line]|) <= |Flat(lines)|
    ensures Flat(lines)[Offset(lines, line, 0)..Offset(lines, line + 1, 0)] == lines[line]
  {
    assert lines == lines[..line] + [lines[line]] + lines[line + 1..];
    FlatSplits(lines[..line] + [lines[line]], lines[line + 1..]);
    FlatSplits(lines[..line], [lines[line]]);
    assert lines[..line + 1] == lines[..line] + [lines[line]];
    assert Flat([lines[line]]) == lines[line] + Flat([]);
  }

  lemma SliceOfSlice(text: string, o: nat, n: nat, i: nat, j: nat)
    requires i <= j <= n && o + n <= |text|
    ensures text[o..o + n][i..j] == text[o + i..o + j]
  {
    var a, b := text[o..o + n][i..j], text[o + i..o + j];
    assert |a| == |b| && forall m :: 0 <= m < |a| ==> a[m] == b[m];
  }

  ghost predicate IsPlace(lines: seq<string>, place: Place) {
    0 <= place.line < |lines| && 0 <= place.pos < |lines[place.line]|
  }

  /** Different places have different offsets. */
  lemma OffsetInjective(lines: seq<string>, a: Place, b: Place)
    requires IsPlace(lines, a) && IsPlace(lines, b)
    ensures a == b <==> Offset(lines, a.line, a.pos) == Offset(lines, b.line, b.pos)
  {
    if a.line < b.line {
      OffsetMonotone(lines, a.line + 1, b.line);
      FlatLine(lines, a.line);
    } else if b.line < a.line {
      OffsetMonotone(lines, b.line + 1, a.line);
      FlatLine(lines, b.line);
    }
  }

  lemma OffsetMonotone(lines: seq<string>, i: nat, j: nat)
    requires i <= j <= |lines|
    ensures Offset(lines, i, 0) <= Offset(lines, j, 0)
  {
    assert lines[..j] == lines[..i] + lines[i..j];
    FlatSplits(lines[..i], lines[i..j]);
  }

  // ----- Scanning forward -----

  /** Scans one line forward. The end position is behind the bracket that brings the depth to zero, or -1. */
  method FindEndOfExpressionInLine(line: string, startpos: nat, depth: int, startchar: char, endchar: char)
      returns (endpos: int, depth': int)
    requires startpos <= |line| && startchar != endchar
    requires depth > 0 || (depth == 0 && startpos < |line| && line[startpos] == startchar)
    ensures endpos == -1 ==>
              && depth' == depth + Between(line, startpos, |line|, startchar, endchar)
              && depth' > 0 && StaysOpen(line, startpos, depth, |line|, startchar, endchar)
    ensures endpos != -1 ==>
              && startpos < endpos <= |line| && line[endpos - 1] == endchar && depth' == 0
              && depth + Between(line, startpos, endpos, startchar, endchar) == 0
              && StaysOpen(line, startpos, depth, endpos - 1, startchar, endchar)
  {
    depth' := depth;
    for i := startpos to |line|
      invariant depth' == depth + Between(line, startpos, i, startchar, endchar)
      invariant StaysOpen(line, startpos, depth, i, startchar, endchar)
      invariant i == startpos || depth' > 0
    {
      BalanceBetween(line, startpos, i, i + 1, startchar, endchar);
      BalanceOne(line, i, startchar, endchar);
      if line[i] == startchar {
        depth' := depth' + 1;
      } else if line[i] == endchar {
        depth' := depth' - 1;
        if depth' == 0 {
          return i + 1, 0;
        }
      }
    }
    return -1, depth';
  }

  lemma BalanceOne(text: string, i: nat, open: char, close: char)
    requires i < |text|
    ensures Between(text, i, i + 1, open, close) == if text[i] == open then 1 else if text[i] == close then -1 else 0
  {
    var one := text[i..i + 1];
    assert one[0] == text[i] && one[1..] == [] && Balance(one[1..], open, close) == 0;
  }

  /** The state of the forward search that has reached position `s` of a line: everything from `p` on is still open. */
  ghost predicate OpenAt(lines: seq<string>, p: int, line: int, s: int, depth: int, open: char, close: char) {
    && 0 <= line <= |lines| && 0 <= s && (if line < |lines| then s <= |lines[line]| else s == 0)
    && 0 <= p <= Offset(lines, line, s) <= |Flat(lines)|
    && StaysOpen(Flat(lines), p, 0, Offset(lines, line, s), open, close)
    && depth == Between(Flat(lines), p, Offset(lines, line, s), open, close)
  }

  /** Balances along a line are balances along the text. */
  lemma LineInText(lines: seq<string>, p: int, line: int, s: int, k: int, open: char, close: char)
    requires 0 <= line < |lines| && 0 <= s <= k <= |lines[line]| && 0 <= p <= Offset(lines, line, s)
    ensures Offset(lines, line, k) <= |Flat(lines)|
    ensures Between(Flat(lines), p, Offset(lines, line, k), open, close)
         == Between(Flat(lines), p, Offset(lines, line, s), open, close) + Between(lines[line], s, k, open, close)
  {
    FlatLine(lines, line);
    var text, o := Flat(lines), Offset(lines, line, 0);
    BalanceBetween(text, p, o + s, o + k, open, close);
    SliceOfSlice(text, o, |lines[line]|, s, k);
  }

  lemma StillOpen(lines: seq<string>, p: int, line: int, s: int, depth: int, e: int, open: char, close: char)
    requires OpenAt(lines, p, line, s, depth, open, close) && line < |lines| && s <= e <= |lines[line]|
    requires StaysOpen(lines[line], s, depth, e, open, close)
    ensures OpenAt(lines, p, line, e, depth + Between(lines[line], s, e, open, close), open, close)
  {
    LineInText(lines, p, line, s, e, open, close);
    var text := Flat(lines);
    forall k | Offset(lines, line, s) < k <= Offset(lines, line, e) ensures 0 + Between(text, p, k, open, close) > 0 {
      LineInText(lines, p, line, s, k - Offset(lines, line, 0), open, close);
      assert depth + Between(lines[line], s, k - Offset(lines, line, 0), open, close) > 0;
    }
  }

  lemma NextLine(lines: seq<string>, p: int, line: int, depth: int, open: char, close: char)
    requires 0 <= line < |lines| && OpenAt(lines, p, line, |lines[line]|, depth, open, close)
    ensures OpenAt(lines, p, line + 1, 0, depth, open, close)
  {
    FlatLine(lines, line);
  }

  lemma ClosedHere(lines: seq<string>, p: int, line: int, s: int, depth: int, e: int, open: char, close: char)
    requires OpenAt(lines, p, line, s, depth, open, close) && line < |lines| && s < e <= |lines[line]|
    requires open != close && p < |Flat(lines)| && Flat(lines)[p] == open
    requires StaysOpen(lines[line], s, depth, e - 1, open, close)
    requires lines[line][e - 1] == close && depth + Between(lines[line], s, e, open, close) == 0
    ensures Closes(Flat(lines), p, Offset(lines, line, e - 1), open, close)
  {
    hide Flat, Balance, Between;
    StillOpen(lines, p, line, s, depth, e - 1, open, close);
    LineInText(lines, p, line, s, e, open, close);
    CharAt(lines, line, e - 1);
  }

  lemma CharAt(lines: seq<string>, line: nat, pos: nat)
    requires line < |lines| && pos < |lines[line]|
    ensures 0 <= Offset(lines, line, pos) < |Flat(lines)| && Flat(lines)[Offset(lines, line, pos)] == lines[line][pos]
  {
    FlatLine(lines, line);
    assert Flat(lines)[Offset(lines, line, 0)..Offset(lines, line + 1, 0)][pos] == lines[line][pos];
  }

  /** The place just behind the bracket `close` that closes the one at `start`, or no position when there is none. */
  ghost predicate ClosedWith(lines: seq<string>, start: Place, r: Place, close: char)
    requires IsPlace(lines, start)
  {
    var c := lines[start.line][start.pos];
    if r.pos == -1 then
      r.line == |lines| && forall q :: !Closes(Flat(lines), Offset(lines, start.line, start.pos), q, c, close)
    else
      && IsPlace(lines, Place(r.line, r.pos - 1)) && lines[r.line][r.pos - 1] == close
      && Closes(Flat(lines), Offset(lines, start.line, start.pos), Offset(lines, r.line, r.pos - 1), c, close)
  }

  /** What the forward search returns: the place just behind the partner of an opening bracket, if it has one. */
  ghost predicate CloseResult(lines: seq<string>, start: Place, r: Place)
    requires IsPlace(lines, start)
  {
    var c := lines[start.line][start.pos];
    && (forall d :: IsPair(c, d) ==> ClosedWith(lines, start, r, d))
    && ((forall d :: !IsPair(c, d)) ==> r == Place(|lines|, -1))
  }

  method CloseExpression(lines: seq<string>, start: Place) returns (r: Place)
    requires IsPlace(lines, start)
    ensures CloseResult(lines, start, r)
  {
    hide Balance, StaysOpen, Closes, OpenAt, Flat, IsPair;
    var linenum, pos := start.line, start.pos;
    var startchar := lines[linenum][pos];
    PairsAre(startchar);
    if !IsOpening(startchar) {
      return Place(|lines|, -1);
    }
    var endchar := Closing(startchar);
    ghost var p := Offset(lines, linenum, pos);
    SearchStarts(lines, start, startchar, endchar);
    var endpos, numOpen := FindEndOfExpressionInLine(lines[linenum], pos, 0, startchar, endchar);
    if endpos > -1 {
      ClosedHere(lines, p, linenum, pos, 0, endpos, startchar, endchar);
      return Place(linenum, endpos);
    }
    StillOpen(lines, p, linenum, pos, 0, |lines[linenum]|, startchar, endchar);
    NextLine(lines, p, linenum, numOpen, startchar, endchar);
    while linenum < |lines| - 1
      invariant 0 <= linenum < |lines|
      invariant OpenAt(lines, p, linenum + 1, 0, numOpen, startchar, endchar) && numOpen > 0
    {
      linenum := linenum + 1;
      ghost var depth := numOpen;
      endpos, numOpen := FindEndOfExpressionInLine(lines[linenum], 0, numOpen, startchar, endchar);
      if endpos > -1 {
        ClosedHere(lines, p, linenum, 0, depth, endpos, startchar, endchar);
        return Place(linenum, endpos);
      }
      StillOpen(lines, p, linenum, 0, depth, |lines[linenum]|, startchar, endchar);
      NextLine(lines, p, linenum, numOpen, startchar, endchar);
    }
    NeverClosed(lines, p, numOpen, startchar, endchar);
    return Place(|lines|, -1);
  }

  lemma SearchStarts(lines: seq<string>, start: Place, open: char, close: char)
    requires IsPlace(lines, start)
    ensures var p := Offset(lines, start.line, start.pos);
            && OpenAt(lines, p, start.line, start.pos, 0, open, close)
            && p < |Flat(lines)| && Flat(lines)[p] == lines[start.line][start.pos]
  {
    CharAt(lines, start.line, start.pos);
  }

  lemma NeverClosed(lines: seq<string>, p: int, depth: int, open: char, close: char)
    requires OpenAt(lines, p, |lines|, 0, depth, open, close)
    ensures forall q :: !Closes(Flat(lines), p, q, open, close)
  {
    assert lines[..|lines|] == lines;
    forall q ensures !Closes(Flat(lines), p, q, open, close) {
      if 0 <= p < q < |Flat(lines)| {
        assert 0 + Between(Flat(lines), p, q + 1, open, close) > 0;
      }
    }
  }

  // ----- Scanning backward -----

  /** Scans one line backward from `endpos`. The start position is that of the bracket that brings the depth to zero, or -1. */
  method FindStartOfExpressionInLine(line: string, endpos: int, depth: int, startchar: char, endchar: char)
      returns (startpos: int, depth': int)
    requires -1 <= endpos < |line| && startchar != endchar
    requires depth > 0 || (depth == 0 && endpos >= 0 && line[endpos] == endchar)
    ensures startpos == -1 ==>
              && depth' == depth - Between(line, 0, endpos + 1, startchar, endchar)
              && depth' > 0 && StaysClosed(line, 0, depth, endpos + 1, startchar, endchar)
    ensures startpos != -1 ==>
              && 0 <= startpos <= endpos && line[startpos] == startchar && depth' == 0
              && depth - Between(line, startpos, endpos + 1, startchar, endchar) == 0
              && StaysClosed(line, startpos + 1, depth, endpos + 1, startchar, endchar)
  {
    depth' := depth;
    for i := endpos + 1 downto 0
      invariant depth' == depth - Between(line, i, endpos + 1, startchar, endchar)
      invariant StaysClosed(line, i, depth, endpos + 1, startchar, endchar)
      invariant i == endpos + 1 || depth' > 0
    {
      BalanceBetween(line, i, i + 1, endpos + 1, startchar, endchar);
      BalanceOne(line, i, startchar, endchar);
      if line[i] == endchar {
        depth' := depth' + 1;
      } else if line[i] == startchar {
        depth' := depth' - 1;
        if depth' == 0 {
          return i, 0;
        }
      }
    }
    return -1, depth';
  }

  /** The state of the backward search that has reached position `s` of a line: everything up to `e` is still closed. */
  ghost predicate ClosedAt(lines: seq<string>, line: int, s: int, depth: int, e: int, open: char, close: char) {
    && 0 <= line < |lines| && 0 <= s <= |lines[line]|
    && 0 <= Offset(lines, line, s) <= e <= |Flat(lines)|
    && StaysClosed(Flat(lines), Offset(lines, line, s), 0, e, open, close)
    && depth == 0 - Between(Flat(lines), Offset(lines, line, s), e, open, close)
  }

  lemma LineInTextBack(lines: seq<string>, line: int, k: int, s: int, e: int, open: char, close: char)
    requires 0 <= line < |lines| && 0 <= k <= s <= |lines[line]| && Offset(lines, line, s) <= e <= |Flat(lines)|
    ensures 0 <= Offset(lines, line, k)
    ensures Between(Flat(lines), Offset(lines, line, k), e, open, close)
         == Between(lines[line], k, s, open, close) + Between(Flat(lines), Offset(lines, line, s), e, open, close)
  {
    FlatLine(lines, line);
    var text, o := Flat(lines), Offset(lines, line, 0);
    BalanceBetween(text, o + k, o + s, e, open, close);
    SliceOfSlice(text, o, |lines[line]|, k, s);
  }

  lemma StillClosed(lines: seq<string>, line: int, k: int, s: int, depth: int, e: int, open: char, close: char)
    requires ClosedAt(lines, line, s, depth, e, open, close) && 0 <= k <= s
    requires StaysClosed(lines[line], k, depth, s, open, close)
    ensures ClosedAt(lines, line, k, depth - Between(lines[line], k, s, open, close), e, open, close)
  {
    LineInTextBack(lines, line, k, s, e, open, close);
    var o := Offset(lines, line, 0);
    forall j | Offset(lines, line, k) <= j < Offset(lines, line, s) ensures 0 - Between(Flat(lines), j, e, open, close) > 0 {
      LineInTextBack(lines, line, j - o, s, e, open, close);
      assert depth - Between(lines[line], j - o, s, open, close) > 0;
    }
  }

  lemma PreviousLine(lines: seq<string>, line: int, depth: int, e: int, open: char, close: char)
    requires 0 < line && ClosedAt(lines, line, 0, depth, e, open, close)
    ensures ClosedAt(lines, line - 1, |lines[line - 1]|, depth, e, open, close)
  {
    FlatLine(lines, line - 1);
  }

  lemma OpenedHere(lines: seq<string>, line: int, k: int, s: int, depth: int, e: int, open: char, close: char)
    requires ClosedAt(lines, line, s, depth, e, open, close) && 0 <= k < s
    requires open != close && 0 < e && Flat(lines)[e - 1] == close
    requires StaysClosed(lines[line], k + 1, depth, s, open, close)
    requires lines[line][k] == open && depth - Between(lines[line], k, s, open, close) == 0
    ensures Opens(Flat(lines), Offset(lines, line, k), e - 1, open, close)
  {
    hide Flat, Balance, Between;
    StillClosed(lines, line, k + 1, s, depth, e, open, close);
    LineInTextBack(lines, line, k, s, e, open, close);
    CharAt(lines, line, k);
  }

  /** The place of the bracket `open` that opens the one at `start`, or no position when there is none. */
  ghost predicate OpenedWith(lines: seq<string>, start: Place, r: Place, open: char)
    requires IsPlace(lines, start)
  {
    var c := lines[start.line][start.pos];
    if r.pos == -1 then
      r.line == 0 && forall p :: !Opens(Flat(lines), p, Offset(lines, start.line, start.pos), open, c)
    else
      && IsPlace(lines, r) && lines[r.line][r.pos] == open
      && Opens(Flat(lines), Offset(lines, r.line, r.pos), Offset(lines, start.line, start.pos), open, c)
  }

  /** What the backward search returns: the place of the partner of a closing bracket, if it has one. */
  ghost predicate ReverseResult(lines: seq<string>, start: Place, r: Place)
    requires IsPlace(lines, start)
  {
    var c := lines[start.line][start.pos];
    && (forall d :: IsPair(d, c) ==> OpenedWith(lines, start, r, d))
    && ((forall d :: !IsPair(d, c)) ==> r == Place(0, -1))
  }

  method ReverseCloseExpression(lines: seq<string>, start: Place) returns (r: Place)
    requires IsPlace(lines, start)
    ensures ReverseResult(lines, start, r)
  {
    hide Balance, StaysClosed, Opens, ClosedAt, Flat, IsPair;
    var linenum, pos := start.line, start.pos;
    var endchar := lines[linenum][pos];
    PairsAre(endchar);
    if !IsClosing(endchar) {
      return Place(0, -1);
    }
    var startchar := Opening(endchar);
    ghost var q := Offset(lines, linenum, pos);
    ghost var e := q + 1;
    ReverseStarts(lines, start, startchar, endchar);
    var startpos, numOpen := FindStartOfExpressionInLine(lines[linenum], pos, 0, startchar, endchar);
    if startpos > -1 {
      OpenedHere(lines, linenum, startpos, pos + 1, 0, e, startchar, endchar);
      return Place(linenum, startpos);
    }
    StillClosed(lines, linenum, 0, pos + 1, 0, e, startchar, endchar);
    while linenum > 0
      invariant 0 <= linenum < |lines|
      invariant ClosedAt(lines, linenum, 0, numOpen, e, startchar, endchar) && numOpen > 0
    {
      PreviousLine(lines, linenum, numOpen, e, startchar, endchar);
      linenum := linenum - 1;
      ghost var depth := numOpen;
      var last := |lines[linenum]| - 1;
      startpos, numOpen := FindStartOfExpressionInLine(lines[linenum], last, numOpen, startchar, endchar);
      if startpos > -1 {
        OpenedHere(lines, linenum, startpos, last + 1, depth, e, startchar, endchar);
        return Place(linenum, startpos);
      }
      StillClosed(lines, linenum, 0, last + 1, depth, e, startchar, endchar);
    }
    NeverOpened(lines, numOpen, q, startchar, endchar);
    return Place(0, -1);
  }

  lemma ReverseStarts(lines: seq<string>, start: Place, open: char, close: char)
    requires IsPlace(lines, start)
    ensures var e := Offset(lines, start.line, start.pos) + 1;
            && ClosedAt(lines, start.line, start.pos + 1, 0, e, open, close)
            && 0 < e <= |Flat(lines)| && Flat(lines)[e - 1] == lines[start.line][start.pos]
  {
    CharAt(lines, start.line, start.pos);
  }

  lemma NeverOpened(lines: seq<string>, depth: int, q: int, open: char, close: char)
    requires ClosedAt(lines, 0, 0, depth, q + 1, open, close)
    ensures forall p :: !Opens(Flat(lines), p, q, open, close)
  {
    var e := q + 1;
    forall p ensures !Opens(Flat(lines), p, q, open, close) {
      if 0 <= p < q {
        assert 0 - Between(Flat(lines), p, e, open, close) > 0;
      }
    }
  }

  // ----- The two searches undo each other -----

  /** Searching forward from an opening bracket and then backward from what was found leads back to the start. */
  lemma ReverseUndoesClose(lines: seq<string>, start: Place, r: Place, back: Place, close: char)
    requires IsPlace(lines, start) && IsPair(lines[start.line][start.pos], close)
    requires CloseResult(lines, start, r) && r.pos != -1
    requires ReverseResult(lines, Place(r.line, r.pos - 1), back)
    ensures back == start
  {
    hide StaysOpen, StaysClosed, Between, IsPair;
    var p, q := Offset(lines, start.line, start.pos), Offset(lines, r.line, r.pos - 1);
    var c := lines[start.line][start.pos];
    CharAt(lines, r.line, r.pos - 1);
    ClosesIffOpens(Flat(lines), p, q, c, close);
    if back.pos != -1 {
      ClosesIffOpens(Flat(lines), Offset(lines, back.line, back.pos), q, c, close);
      MatchIsUnique(Flat(lines), p, q, Offset(lines, back.line, back.pos), q, c, close);
      OffsetInjective(lines, start, back);
    }
  }

  /** Searching backward from a closing bracket and then forward from what was found leads back to just behind the start. */
  lemma CloseUndoesReverse(lines: seq<string>, start: Place, r: Place, forth: Place, open: char)
    requires IsPlace(lines, start) && IsPair(open, lines[start.line][start.pos])
    requires ReverseResult(lines, start, r) && r.pos != -1
    requires CloseResult(lines, r, forth)
    ensures forth == Place(start.line, start.pos + 1)
  {
    hide StaysOpen, StaysClosed, Between, IsPair;
    var p, q := Offset(lines, r.line, r.pos), Offset(lines, start.line, start.pos);
    var c := lines[start.line][start.pos];
    CharAt(lines, r.line, r.pos);
    ClosesIffOpens(Flat(lines), p, q, open, c);
    if forth.pos != -1 {
      MatchIsUnique(Flat(lines), p, q, p, Offset(lines, forth.line, forth.pos - 1), open, c);
      OffsetInjective(lines, start, Place(forth.line, forth.pos - 1));
    }
  }

  /** There and back: an opening bracket that has a partner is found again from that partner. */
  method CloseAndReturn(lines: seq<string>, start: Place) returns (r: Place, back: Place)
    requires IsPlace(lines, start) && exists close :: IsPair(lines[start.line][start.pos], close)
    ensures CloseResult(lines, start, r)
    ensures back == if r.pos == -1 then r else start
  {
    hide ReverseResult, IsPair;
    ghost var close :| IsPair(lines[start.line][start.pos], close);
    r := CloseExpression(lines, start);
    back := r;
    if r.pos != -1 {
      back := ReverseCloseExpression(lines, Place(r.line, r.pos - 1));
      ReverseUndoesClose(lines, start, r, back, close);
    }
  }
}
