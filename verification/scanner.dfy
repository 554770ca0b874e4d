/**
 * The line splitter: `FindEndOfLine` (parser.cc) and the tiling of a buffer
 * into the logical lines the `Parse` loop hands to `ParseLine`.
 */
module LineScanner {

  /** Number of '\n' characters in `buf[lo..hi]`. */
  function NewlinesIn(buf: string, lo: nat, hi: nat): nat
    requires lo <= hi <= |buf|
    decreases hi - lo
  {
    if lo == hi then 0 else (if buf[lo] == '\n' then 1 else 0) + NewlinesIn(buf, lo + 1, hi)
  }

  lemma {:induction false} NewlinesInAdditive(buf: string, a: nat, b: nat, c: nat)
    requires a <= b <= c <= |buf|
    ensures NewlinesIn(buf, a, b) + NewlinesIn(buf, b, c) == NewlinesIn(buf, a, c)
    decreases b - a
  {
    if a < b {
      NewlinesInAdditive(buf, a + 1, b, c);
    }
  }

  /**
   * Which line-end scan runs. `AsWritten` is `FindEndOfLine` as parser.cc
   * has it: an escaped newline leaves the backslash flag set, so newlines
   * are transparent to escaping just as carriage returns are. `Corrected`
   * clears the flag after an escaped newline, so a newline ends a run of
   * backslashes like any other character.
   */
  datatype Scan = AsWritten | Corrected

  /**
   * Number of backslashes in the run of characters transparent to escaping
   * that ends just before `k` and starts no earlier than `lo`: backslashes,
   * carriage returns and, for the scan as written, newlines. Anything else
   * ends the run.
   */
  function BackslashRun(scan: Scan, buf: string, lo: nat, k: nat): nat
    requires lo <= k <= |buf|
    decreases k - lo
  {
    if k == lo then 0
    else if buf[k - 1] == '\\' then BackslashRun(scan, buf, lo, k - 1) + 1
    else if buf[k - 1] == '\r' || (scan.AsWritten? && buf[k - 1] == '\n') then BackslashRun(scan, buf, lo, k - 1)
    else 0
  }

  /** The character at `k` is escaped: an odd number of backslashes precede it. */
  predicate Escaped(scan: Scan, buf: string, lo: nat, k: nat)
    requires lo <= k <= |buf|
  {
    BackslashRun(scan, buf, lo, k) % 2 == 1
  }

  /** Every newline in `buf[lo..hi]` is escaped, so none of them ends the line that starts at `lo`. */
  predicate NewlinesEscaped(scan: Scan, buf: string, lo: nat, hi: nat)
    requires lo <= hi <= |buf|
  {
    forall k {:trigger Escaped(scan, buf, lo, k)} :: lo <= k < hi && buf[k] == '\n' ==> Escaped(scan, buf, lo, k)
  }

  /**
   * One character further: a backslash flips whether the next character is
   * escaped, a character transparent to escaping keeps it, and any other
   * character clears it; an escaped newline keeps every newline escaped.
   */
  lemma EscapedStep(scan: Scan, buf: string, lo: nat, e: nat)
    requires lo <= e < |buf|
    ensures Escaped(scan, buf, lo, e + 1) ==
      if buf[e] == '\\' then !Escaped(scan, buf, lo, e)
      else if buf[e] == '\r' || (scan.AsWritten? && buf[e] == '\n') then Escaped(scan, buf, lo, e)
      else false
    ensures NewlinesEscaped(scan, buf, lo, e) && (buf[e] == '\n' ==> Escaped(scan, buf, lo, e)) ==>
      NewlinesEscaped(scan, buf, lo, e + 1)
  {
  }

  /** Index one past the piece of a line ending at `end`: its terminating '\n', if any, included. */
  function PieceEnd(buf: string, end: nat): nat
  {
    if end < |buf| then end + 1 else end
  }

  /** What `FindEndOfLine` reports: the end offset and the count `*lf_cnt`. */
  datatype LineEnd = LineEnd(end: nat, lfCnt: nat)

  /**
   * The scanning loop of `FindEndOfLine` from index `e` with the current
   * backslash flag and newline count. After an escaped newline the flag,
   * which was set, stays set as written and is cleared when corrected.
   */
  function ScanFrom(scan: Scan, buf: string, e: nat, prevBackslash: bool, lfCnt: nat): (r: LineEnd)
    requires e <= |buf|
    ensures e <= r.end <= |buf|
    ensures r.end < |buf| ==> buf[r.end] == '\n'
    ensures r.lfCnt == lfCnt + NewlinesIn(buf, e, PieceEnd(buf, r.end))
    decreases |buf| - e
  {
    if e == |buf| then LineEnd(e, lfCnt)
    else if buf[e] == '\\' then ScanFrom(scan, buf, e + 1, !prevBackslash, lfCnt)
    else if buf[e] == '\n' then
      if !prevBackslash then LineEnd(e, lfCnt + 1)
      else ScanFrom(scan, buf, e + 1, scan.AsWritten?, lfCnt + 1)
    else if buf[e] != '\r' then ScanFrom(scan, buf, e + 1, false, lfCnt)
    else ScanFrom(scan, buf, e + 1, prevBackslash, lfCnt)
  }

  /**
   * While the flag tracks `Escaped`, the scan stops exactly at the first
   * unescaped newline.
   */
  lemma {:induction false} ScanFromStopsAtUnescapedNewline(scan: Scan, buf: string, lo: nat, e: nat, prevBackslash: bool, lfCnt: nat)
    requires lo <= e <= |buf|
    requires prevBackslash == Escaped(scan, buf, lo, e)
    requires NewlinesEscaped(scan, buf, lo, e)
    ensures var r := ScanFrom(scan, buf, e, prevBackslash, lfCnt);
      (r.end == |buf| || !Escaped(scan, buf, lo, r.end)) &&
      NewlinesEscaped(scan, buf, lo, r.end)
    decreases |buf| - e
  {
    if e < |buf| {
      EscapedStep(scan, buf, lo, e);
      if buf[e] == '\\' {
        ScanFromStopsAtUnescapedNewline(scan, buf, lo, e + 1, !prevBackslash, lfCnt);
      } else if buf[e] == '\n' {
        if prevBackslash {
          ScanFromStopsAtUnescapedNewline(scan, buf, lo, e + 1, scan.AsWritten?, lfCnt + 1);
        }
      } else if buf[e] != '\r' {
        ScanFromStopsAtUnescapedNewline(scan, buf, lo, e + 1, false, lfCnt);
      } else {
        ScanFromStopsAtUnescapedNewline(scan, buf, lo, e + 1, prevBackslash, lfCnt);
      }
    }
  }

  /**
   * `FindEndOfLine` from `l`: the end of the logical line starting at `l`
   * (the first unescaped '\n', or the end of the buffer) and the number of
   * newlines consumed, the terminating one included.
   */
  function FindEndOfLine(scan: Scan, buf: string, l: nat): (r: LineEnd)
    requires l <= |buf|
    ensures l <= r.end <= |buf|
    ensures r.end == |buf| || (buf[r.end] == '\n' && !Escaped(scan, buf, l, r.end))
    ensures NewlinesEscaped(scan, buf, l, r.end)
    ensures r.lfCnt == NewlinesIn(buf, l, PieceEnd(buf, r.end))
  {
    ScanFromStopsAtUnescapedNewline(scan, buf, l, l, false, 0);
    ScanFrom(scan, buf, l, false, 0)
  }

  /**
   * The loop of `FindEndOfLine`, written imperatively with the invariants it
   * keeps; with `AsWritten` its body is the source's.
   */
  method FindEndOfLineLoop(scan: Scan, buf: string, l: nat) returns (e: nat, lfCnt: nat)
    requires l <= |buf|
    ensures LineEnd(e, lfCnt) == FindEndOfLine(scan, buf, l)
    ensures l <= e <= |buf|
    ensures e == |buf| || (buf[e] == '\n' && !Escaped(scan, buf, l, e))
    ensures lfCnt == NewlinesIn(buf, l, PieceEnd(buf, e))
  {
    e := l;
    lfCnt := 0;
    var prevBackslash := false;
    while e < |buf|
      invariant l <= e <= |buf|
      invariant prevBackslash == Escaped(scan, buf, l, e)
      invariant lfCnt == NewlinesIn(buf, l, e)
      invariant NewlinesEscaped(scan, buf, l, e)
      invariant ScanFrom(scan, buf, e, prevBackslash, lfCnt) == ScanFrom(scan, buf, l, false, 0)
      decreases |buf| - e
    {
      var c := buf[e];
      NewlinesInAdditive(buf, l, e, e + 1);
      EscapedStep(scan, buf, l, e);
      if c == '\\' {
        prevBackslash := !prevBackslash;
      } else if c == '\n' {
        lfCnt := lfCnt + 1;
        if !prevBackslash {
          return;
        }
        if scan.Corrected? {
          prevBackslash := false;
        }
      } else if c != '\r' {
        prevBackslash := false;
      }
      e := e + 1;
    }
  }

  /**
   * As written, a backslash-newline followed by an empty line does not end
   * the logical line at that empty line: the newline at index 3 of
   * "a\\\n\nb" is preceded by no backslash at all, yet the scan runs on to
   * the end of the buffer. The corrected scan stops there.
   */
  lemma AsWrittenSwallowsNewlineAfterContinuation()
    ensures var buf := "a\\\n\nb";
      buf[3] == '\n' && !Escaped(Corrected, buf, 0, 3) &&
      FindEndOfLine(AsWritten, buf, 0).end == 5 &&
      FindEndOfLine(Corrected, buf, 0).end == 3
  {
  }

  /** One logical line of the buffer: `buf[start..end]` and the line number in effect for it. */
  datatype LogicalLine = LogicalLine(start: nat, end: nat, lineno: nat)

  /**
   * The logical lines the `Parse` loop visits from offset `l`, with the
   * line counter starting at `lineno`: each line's number has been advanced
   * by the newlines `FindEndOfLine` consumed for it.
   */
  function LinesFrom(scan: Scan, buf: string, l: nat, lineno: nat): (ls: seq<LogicalLine>)
    requires l <= |buf|
    decreases |buf| - l
  {
    if l == |buf| then []
    else
      var le := FindEndOfLine(scan, buf, l);
      var line := LogicalLine(l, le.end, lineno + le.lfCnt);
      if le.end == |buf| then [line]
      else [line] + LinesFrom(scan, buf, le.end + 1, lineno + le.lfCnt)
  }

  /** One step of `LinesFrom`: the line at `l`, then the lines after its terminator. */
  lemma LinesFromStep(scan: Scan, buf: string, l: nat, lineno: nat)
    requires l < |buf|
    ensures var le := FindEndOfLine(scan, buf, l);
      var line := LogicalLine(l, le.end, lineno + le.lfCnt);
      LinesFrom(scan, buf, l, lineno) ==
        if le.end == |buf| then [line] else [line] + LinesFrom(scan, buf, le.end + 1, lineno + le.lfCnt)
  {
  }

  /** `LinesFrom` at `l` as head and tail: the line at `l`, and after it the lines past its terminator. */
  lemma LinesFromHeadTail(scan: Scan, buf: string, l: nat, lineno: nat)
    requires l < |buf|
    ensures var le := FindEndOfLine(scan, buf, l);
      var ls := LinesFrom(scan, buf, l, lineno);
      |ls| > 0 && ls[0] == LogicalLine(l, le.end, lineno + le.lfCnt) &&
      ls[1..] == if le.end == |buf| then [] else LinesFrom(scan, buf, le.end + 1, lineno + le.lfCnt)
  {
    var le := FindEndOfLine(scan, buf, l);
    var ls := LinesFrom(scan, buf, l, lineno);
    if le.end < |buf| {
      assert ls == [ls[0]] + LinesFrom(scan, buf, le.end + 1, lineno + le.lfCnt);
    }
  }

  /** Past a line that ends at a newline, the lines go on from just past it with the counter advanced. */
  lemma LinesFromTail(scan: Scan, buf: string, l: nat, lineno: nat, next: nat)
    requires l < |buf| && FindEndOfLine(scan, buf, l).end < |buf|
    requires next == lineno + FindEndOfLine(scan, buf, l).lfCnt
    ensures LinesFrom(scan, buf, l, lineno)[1..] == LinesFrom(scan, buf, FindEndOfLine(scan, buf, l).end + 1, next)
  {
    LinesFromHeadTail(scan, buf, l, lineno);
  }

  /** The logical lines of the whole buffer, the line counter starting at 0. */
  function Lines(scan: Scan, buf: string): seq<LogicalLine>
  {
    LinesFrom(scan, buf, 0, 0)
  }

  /** Every span lies inside the buffer. */
  predicate ValidSpans(buf: string, ls: seq<LogicalLine>)
  {
    forall i :: 0 <= i < |ls| ==> ls[i].start <= ls[i].end <= |buf|
  }

  /** A line together with its terminating newline, if it has one. */
  function Piece(buf: string, line: LogicalLine): string
    requires line.start <= line.end <= |buf|
  {
    buf[line.start..PieceEnd(buf, line.end)]
  }

  function ConcatPieces(buf: string, ls: seq<LogicalLine>): string
    requires ValidSpans(buf, ls)
  {
    if |ls| == 0 then [] else Piece(buf, ls[0]) + ConcatPieces(buf, ls[1..])
  }

  /**
   * `ls` tiles `buf[l..]`: the first span starts at `l`, inside the buffer;
   * a span that reaches the end of the buffer is the last, and any other is
   * followed by spans tiling the rest from just past its separator.
   */
  predicate Tiles(buf: string, l: nat, ls: seq<LogicalLine>)
    decreases |ls|
  {
    if |ls| == 0 then l == |buf|
    else
      ls[0].start == l && l < |buf| && l <= ls[0].end <= |buf| &&
      if ls[0].end == |buf| then |ls| == 1 else Tiles(buf, ls[0].end + 1, ls[1..])
  }

  /** The lines the `Parse` loop visits from `l` tile the rest of the buffer. */
  lemma {:induction false} LinesTileBuffer(scan: Scan, buf: string, l: nat, lineno: nat)
    requires l <= |buf|
    ensures Tiles(buf, l, LinesFrom(scan, buf, l, lineno))
    decreases |buf| - l
  {
    if l < |buf| {
      var le := FindEndOfLine(scan, buf, l);
      LinesFromStep(scan, buf, l, lineno);
      if le.end < |buf| {
        var rest := LinesFrom(scan, buf, le.end + 1, lineno + le.lfCnt);
        LinesTileBuffer(scan, buf, le.end + 1, lineno + le.lfCnt);
        assert LinesFrom(scan, buf, l, lineno)[1..] == rest;
      }
    }
  }

  /**
   * Spans that tile the buffer from `l` lie inside it, at or after `l`, and
   * each starts before the end of the buffer: there is no empty line after
   * a final newline.
   */
  lemma {:induction false} TilesValid(buf: string, l: nat, ls: seq<LogicalLine>)
    requires Tiles(buf, l, ls)
    ensures ValidSpans(buf, ls)
    ensures forall i :: 0 <= i < |ls| ==> l <= ls[i].start < |buf|
    decreases |ls|
  {
    if |ls| > 1 {
      TilesValid(buf, ls[0].end + 1, ls[1..]);
      forall i | 1 <= i < |ls|
        ensures l <= ls[i].start < |buf| && ls[i].start <= ls[i].end <= |buf|
      {
        assert ls[i] == ls[1..][i - 1];
      }
    }
  }

  /** Spans that tile the buffer from `l`, each with its separator, spell out `buf[l..]`. */
  lemma {:induction false} TilesSpellBuffer(buf: string, l: nat, ls: seq<LogicalLine>)
    requires Tiles(buf, l, ls)
    ensures ValidSpans(buf, ls) && ConcatPieces(buf, ls) == buf[l..]
    decreases |ls|
  {
    TilesValid(buf, l, ls);
    if |ls| > 0 {
      var e := ls[0].end;
      assert ConcatPieces(buf, ls) == Piece(buf, ls[0]) + ConcatPieces(buf, ls[1..]);
      if e == |buf| {
        assert ConcatPieces(buf, ls[1..]) == [];
        assert Piece(buf, ls[0]) == buf[l..];
      } else {
        TilesSpellBuffer(buf, e + 1, ls[1..]);
        assert Piece(buf, ls[0]) == buf[l..e + 1];
        assert buf[l..] == buf[l..e + 1] + buf[e + 1..];
      }
    }
  }

  /** Tiling spans come in increasing order: each ends before the next one starts. */
  lemma {:induction false} TilesOrdered(buf: string, l: nat, ls: seq<LogicalLine>)
    requires Tiles(buf, l, ls)
    ensures forall i, j :: 0 <= i < j < |ls| ==> ls[i].end < ls[j].start
    decreases |ls|
  {
    if |ls| > 1 {
      var rest := ls[1..];
      TilesOrdered(buf, ls[0].end + 1, rest);
      TilesValid(buf, ls[0].end + 1, rest);
      forall i, j | 0 <= i < j < |ls|
        ensures ls[i].end < ls[j].start
      {
        assert ls[j] == rest[j - 1];
        if i > 0 { assert ls[i] == rest[i - 1]; }
      }
    }
  }

  /**
   * The logical lines tile the buffer: in order, each followed by its
   * terminating newline, they spell out `buf[l..]` with nothing skipped or
   * repeated, and none starts at the end of the buffer.
   */
  lemma LinesTile(scan: Scan, buf: string, l: nat, lineno: nat)
    requires l <= |buf|
    ensures var ls := LinesFrom(scan, buf, l, lineno);
      Tiles(buf, l, ls) && ValidSpans(buf, ls) && ConcatPieces(buf, ls) == buf[l..] &&
      (forall i :: 0 <= i < |ls| ==> ls[i].start < |buf|) &&
      forall i, j :: 0 <= i < j < |ls| ==> ls[i].end < ls[j].start
  {
    LinesTileBuffer(scan, buf, l, lineno);
    TilesValid(buf, l, LinesFrom(scan, buf, l, lineno));
    TilesOrdered(buf, l, LinesFrom(scan, buf, l, lineno));
    TilesSpellBuffer(buf, l, LinesFrom(scan, buf, l, lineno));
  }

  /**
   * Each span ends at an unescaped newline or at the end of the buffer, and
   * every newline inside it is escaped.
   */
  ghost predicate EndsAtUnescapedNewlines(scan: Scan, buf: string, ls: seq<LogicalLine>)
  {
    forall i :: 0 <= i < |ls| ==>
      ls[i].start <= ls[i].end <= |buf| &&
      (ls[i].end < |buf| ==> buf[ls[i].end] == '\n' && !Escaped(scan, buf, ls[i].start, ls[i].end)) &&
      NewlinesEscaped(scan, buf, ls[i].start, ls[i].end)
  }

  lemma EndsAtUnescapedNewlinesCons(scan: Scan, buf: string, line: LogicalLine, rest: seq<LogicalLine>)
    requires line.start <= line.end <= |buf|
    requires line.end < |buf| ==> buf[line.end] == '\n' && !Escaped(scan, buf, line.start, line.end)
    requires NewlinesEscaped(scan, buf, line.start, line.end)
    requires EndsAtUnescapedNewlines(scan, buf, rest)
    ensures EndsAtUnescapedNewlines(scan, buf, [line] + rest)
  {
    var ls := [line] + rest;
    forall i | 1 <= i < |ls|
      ensures ls[i] == rest[i - 1]
    {
    }
  }

  /**
   * Every logical line but possibly the last ends at an unescaped newline,
   * and every newline inside a line is escaped.
   */
  lemma {:induction false} LinesEndAtUnescapedNewlines(scan: Scan, buf: string, l: nat, lineno: nat)
    requires l <= |buf|
    ensures EndsAtUnescapedNewlines(scan, buf, LinesFrom(scan, buf, l, lineno))
    decreases |buf| - l
  {
    if l < |buf| {
      var le := FindEndOfLine(scan, buf, l);
      LinesFromStep(scan, buf, l, lineno);
      var line := LogicalLine(l, le.end, lineno + le.lfCnt);
      if le.end < |buf| {
        LinesEndAtUnescapedNewlines(scan, buf, le.end + 1, lineno + le.lfCnt);
        EndsAtUnescapedNewlinesCons(scan, buf, line, LinesFrom(scan, buf, le.end + 1, lineno + le.lfCnt));
      } else {
        EndsAtUnescapedNewlinesCons(scan, buf, line, []);
        assert [line] + [] == [line];
      }
    }
  }

  /** Each span's line number is `lineno` plus the newlines from `l` through its terminator. */
  ghost predicate NumberedFrom(buf: string, l: nat, lineno: nat, ls: seq<LogicalLine>)
  {
    forall i :: 0 <= i < |ls| ==>
      l <= ls[i].start <= ls[i].end <= |buf| &&
      ls[i].lineno == lineno + NewlinesIn(buf, l, PieceEnd(buf, ls[i].end))
  }

  lemma NumberedFromCons(buf: string, l: nat, lineno: nat, line: LogicalLine, rest: seq<LogicalLine>)
    requires l == line.start <= line.end < |buf|
    requires line.lineno == lineno + NewlinesIn(buf, l, line.end + 1)
    requires NumberedFrom(buf, line.end + 1, line.lineno, rest)
    ensures NumberedFrom(buf, l, lineno, [line] + rest)
  {
    var ls := [line] + rest;
    forall i | 1 <= i < |ls|
      ensures ls[i].lineno == lineno + NewlinesIn(buf, l, PieceEnd(buf, ls[i].end))
    {
      assert ls[i] == rest[i - 1];
      NewlinesInAdditive(buf, l, line.end + 1, PieceEnd(buf, ls[i].end));
    }
  }

  lemma {:induction false} NewlinesInMonotone(buf: string, lo: nat, a: nat, b: nat)
    requires lo <= a <= b <= |buf|
    ensures NewlinesIn(buf, lo, a) <= NewlinesIn(buf, lo, b)
  {
    NewlinesInAdditive(buf, lo, a, b);
  }

  /**
   * Line numbers: each logical line is parsed with the starting line number
   * plus the count of newlines up to and including its own terminator.
   */
  lemma {:induction false} LinesNumbered(scan: Scan, buf: string, l: nat, lineno: nat)
    requires l <= |buf|
    ensures NumberedFrom(buf, l, lineno, LinesFrom(scan, buf, l, lineno))
    decreases |buf| - l
  {
    var ls := LinesFrom(scan, buf, l, lineno);
    if l < |buf| {
      var le := FindEndOfLine(scan, buf, l);
      LinesFromStep(scan, buf, l, lineno);
      var line := LogicalLine(l, le.end, lineno + le.lfCnt);
      if le.end < |buf| {
        var rest := LinesFrom(scan, buf, le.end + 1, lineno + le.lfCnt);
        LinesNumbered(scan, buf, le.end + 1, lineno + le.lfCnt);
        NumberedFromCons(buf, l, lineno, line, rest);
        assert ls == [line] + rest;
      } else {
        assert ls == [line];
        assert line.lineno == lineno + NewlinesIn(buf, l, PieceEnd(buf, line.end));
      }
    } else {
      assert ls == [];
    }
  }

  /** The line numbers never decrease from one logical line to the next. */
  lemma LinesLineNumbers(scan: Scan, buf: string, l: nat, lineno: nat)
    requires l <= |buf|
    ensures var ls := LinesFrom(scan, buf, l, lineno);
      NumberedFrom(buf, l, lineno, ls) &&
      forall i, j :: 0 <= i <= j < |ls| ==> ls[i].lineno <= ls[j].lineno
  {
    var ls := LinesFrom(scan, buf, l, lineno);
    LinesNumbered(scan, buf, l, lineno);
    LinesTileBuffer(scan, buf, l, lineno);
    TilesOrdered(buf, l, ls);
    forall i, j | 0 <= i < j < |ls|
      ensures ls[i].lineno <= ls[j].lineno
    {
      NewlinesInMonotone(buf, l, PieceEnd(buf, ls[i].end), PieceEnd(buf, ls[j].end));
    }
  }
}
