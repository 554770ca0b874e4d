/**
 * `Parser::Parse` of parser.cc: walk the buffer one logical line at a
 * time, advance the line counter by the newlines each line consumed, hand
 * the line to `ParseLine`, and stop after the line that reaches the end of
 * the buffer. An empty-variable-name error ends the whole parse.
 */
module Driver {
  import opened Wrappers
  import opened Ast
  import opened LineScanner
  import opened LineParser

  /** What the loop does with one logical line: in `Parse`, `ParseLine`. */
  type LineHandler = (Parser, string) -> Result<Parser, ParseError>

  /** The handler leaves the line counter where it found it. */
  ghost predicate KeepsLineNumber(handle: LineHandler)
  {
    forall q: Parser, line: string :: handle(q, line).Success? ==> handle(q, line).value.lineno == q.lineno
  }

  /**
   * The loop of `Parse` from offset `l` with parser state `p`: find the end
   * of the logical line, count the newlines it consumed, hand the line to
   * `handle`, and stop after the line that reaches the end of the buffer.
   */
  function LoopFrom(buf: string, l: nat, p: Parser, handle: LineHandler): Result<Parser, ParseError>
    requires l <= |buf|
    decreases |buf| - l
  {
    if l == |buf| then Success(p)
    else
      var le := FindEndOfLine(AsWritten, buf, l);
      match handle(p.(lineno := p.lineno + le.lfCnt), buf[l..le.end])
      case Failure(e) => Failure(e)
      case Success(next) =>
        if le.end == |buf| then Success(next) else LoopFrom(buf, le.end + 1, next, handle)
  }

  /** The loop of `Parse` with `ParseLine` as the handler. */
  function ParseFrom(buf: string, l: nat, p: Parser): Result<Parser, ParseError>
    requires l <= |buf|
  {
    LoopFrom(buf, l, p, ParseLine)
  }

  /** Parse a whole buffer into its list of nodes, or the error that stopped it. */
  function Parse(buf: string): Result<seq<Node>, ParseError>
  {
    match ParseFrom(buf, 0, InitialParser)
    case Success(p) => Success(p.asts)
    case Failure(e) => Failure(e)
  }

  /** The text of a logical line, without its terminating newline. */
  function LineText(buf: string, line: LogicalLine): string
    requires line.start <= line.end <= |buf|
  {
    buf[line.start..line.end]
  }

  /**
   * The reference reading of the loop: fold `handle` over a given list of
   * logical lines, each handled with its own line number, stopping at the
   * first error.
   */
  function FoldLines(buf: string, ls: seq<LogicalLine>, p: Parser, handle: LineHandler): Result<Parser, ParseError>
    requires ValidSpans(buf, ls)
  {
    if |ls| == 0 then Success(p)
    else
      match handle(p.(lineno := ls[0].lineno), LineText(buf, ls[0]))
      case Failure(e) => Failure(e)
      case Success(next) => FoldLines(buf, ls[1..], next, handle)
  }

  /** The fold with `ParseLine` as the handler. */
  function RunLines(buf: string, ls: seq<LogicalLine>, p: Parser): Result<Parser, ParseError>
    requires ValidSpans(buf, ls)
  {
    FoldLines(buf, ls, p, ParseLine)
  }

  /** One turn of the loop: handle the line at `l`, then stop or go on past its terminator. */
  lemma LoopFromStep(buf: string, l: nat, p: Parser, handle: LineHandler, e: nat, lfCnt: nat)
    requires l < |buf| && FindEndOfLine(AsWritten, buf, l) == LineEnd(e, lfCnt)
    ensures var r := handle(p.(lineno := p.lineno + lfCnt), buf[l..e]);
      LoopFrom(buf, l, p, handle) ==
        if r.Failure? then Failure(r.error)
        else if e == |buf| then r
        else LoopFrom(buf, e + 1, r.value, handle)
  {
  }

  /** One turn of the loop of `Parse`: parse the line at `l`, then stop or go on past its terminator. */
  lemma ParseFromStep(buf: string, l: nat, p: Parser, e: nat, lfCnt: nat)
    requires l < |buf| && FindEndOfLine(AsWritten, buf, l) == LineEnd(e, lfCnt)
    ensures var r := ParseLine(p.(lineno := p.lineno + lfCnt), buf[l..e]);
      ParseFrom(buf, l, p) ==
        if r.Failure? then Failure(r.error)
        else if e == |buf| then r
        else ParseFrom(buf, e + 1, r.value)
  {
    LoopFromStep(buf, l, p, ParseLine, e, lfCnt);
  }

  /** The logical lines all lie inside the buffer. */
  lemma LinesValid(buf: string, l: nat, lineno: nat)
    requires l <= |buf|
    ensures ValidSpans(buf, LinesFrom(AsWritten, buf, l, lineno))
  {
    LinesTileBuffer(AsWritten, buf, l, lineno);
    TilesValid(buf, l, LinesFrom(AsWritten, buf, l, lineno));
  }

  /** One step of the fold: handle the first line with its own number, then fold the rest. */
  lemma FoldLinesStep(buf: string, ls: seq<LogicalLine>, p: Parser, handle: LineHandler)
    requires |ls| > 0 && ValidSpans(buf, ls)
    ensures var r := handle(p.(lineno := ls[0].lineno), LineText(buf, ls[0]));
      FoldLines(buf, ls, p, handle) ==
        if r.Failure? then Failure(r.error) else FoldLines(buf, ls[1..], r.value, handle)
  {
  }

  /**
   * For any handler that keeps the line counter, the loop is the fold of
   * the handler over the logical lines `LinesFrom` finds.
   */
  lemma {:induction false} LoopIsFold(buf: string, l: nat, p: Parser, handle: LineHandler)
    requires l <= |buf|
    requires KeepsLineNumber(handle)
    ensures var ls := LinesFrom(AsWritten, buf, l, p.lineno);
      ValidSpans(buf, ls) && LoopFrom(buf, l, p, handle) == FoldLines(buf, ls, p, handle)
    decreases |buf| - l
  {
    var ls := LinesFrom(AsWritten, buf, l, p.lineno);
    LinesValid(buf, l, p.lineno);
    if l < |buf| {
      var le := FindEndOfLine(AsWritten, buf, l);
      LinesFromHeadTail(AsWritten, buf, l, p.lineno);
      LoopFromStep(buf, l, p, handle, le.end, le.lfCnt);
      FoldLinesStep(buf, ls, p, handle);
      var counted := p.(lineno := p.lineno + le.lfCnt);
      assert LineText(buf, ls[0]) == buf[l..le.end];
      assert p.(lineno := ls[0].lineno) == counted;
      var r := handle(counted, buf[l..le.end]);
      if r.Success? && le.end < |buf| {
        assert r.value.lineno == counted.lineno;
        LoopIsFold(buf, le.end + 1, r.value, handle);
      }
    }
  }

  /** `ParseLine` keeps the line counter. */
  lemma ParseLineKeepsLineNumber()
    ensures KeepsLineNumber(ParseLine)
  {
  }

  /** The loop of `Parse` is the fold of `ParseLine` over the logical lines `LinesFrom` finds. */
  lemma ParseFromIsRunLines(buf: string, l: nat, p: Parser)
    requires l <= |buf|
    ensures var ls := LinesFrom(AsWritten, buf, l, p.lineno);
      ValidSpans(buf, ls) && ParseFrom(buf, l, p) == RunLines(buf, ls, p)
  {
    ParseLineKeepsLineNumber();
    LoopIsFold(buf, l, p, ParseLine);
  }

  /** The line makes `ParseLine` fail: it starts with '='. */
  predicate StartsWithEquals(line: string)
  {
    |line| > 0 && line[0] == '='
  }

  /**
   * The fold fails exactly when some line starts with '=', and then with
   * the empty-variable-name error carrying the line number of the first
   * such line.
   */
  lemma {:induction false} RunLinesFailure(buf: string, ls: seq<LogicalLine>, p: Parser)
    requires ValidSpans(buf, ls)
    ensures RunLines(buf, ls, p).Failure? <==>
      exists i :: 0 <= i < |ls| && StartsWithEquals(LineText(buf, ls[i]))
    ensures RunLines(buf, ls, p).Failure? ==>
      exists i :: 0 <= i < |ls| && StartsWithEquals(LineText(buf, ls[i])) &&
        (forall k :: 0 <= k < i ==> !StartsWithEquals(LineText(buf, ls[k]))) &&
        RunLines(buf, ls, p).error == ParseError(ls[i].lineno, EmptyVariableName)
    decreases |ls|
  {
    if |ls| > 0 {
      var r := ParseLine(p.(lineno := ls[0].lineno), LineText(buf, ls[0]));
      if r.Success? {
        var rest := ls[1..];
        RunLinesFailure(buf, rest, r.value);
        if exists i :: 0 <= i < |ls| && StartsWithEquals(LineText(buf, ls[i])) {
          var i :| 0 <= i < |ls| && StartsWithEquals(LineText(buf, ls[i]));
          assert StartsWithEquals(LineText(buf, rest[i - 1]));
        }
        if RunLines(buf, rest, r.value).Failure? {
          var i :| 0 <= i < |rest| && StartsWithEquals(LineText(buf, rest[i])) &&
            (forall k :: 0 <= k < i ==> !StartsWithEquals(LineText(buf, rest[k]))) &&
            RunLines(buf, rest, r.value).error == ParseError(rest[i].lineno, EmptyVariableName);
          assert ls[i + 1] == rest[i];
          forall k | 0 <= k < i + 1
            ensures !StartsWithEquals(LineText(buf, ls[k]))
          {
            if k > 0 { assert ls[k] == rest[k - 1]; }
          }
        } else {
          forall i | 0 <= i < |ls|
            ensures !StartsWithEquals(LineText(buf, ls[i]))
          {
            if i > 0 { assert ls[i] == rest[i - 1]; }
          }
        }
      }
    }
  }

  /** How many of the lines are not blank, that is, how many nodes they yield. */
  function NonBlankLines(buf: string, ls: seq<LogicalLine>): nat
    requires ValidSpans(buf, ls)
  {
    if |ls| == 0 then 0
    else (if IsBlank(LineText(buf, ls[0])) then 0 else 1) + NonBlankLines(buf, ls[1..])
  }

  /**
   * A successful fold only appends: the earlier nodes stay, one node is
   * added per non-blank line, the state machine stays consistent with the
   * output, and the line counter ends at the last line's number.
   */
  lemma {:induction false} RunLinesAppends(buf: string, ls: seq<LogicalLine>, p: Parser)
    requires ValidSpans(buf, ls)
    requires Consistent(p)
    ensures var r := RunLines(buf, ls, p);
      r.Success? ==>
        |r.value.asts| == |p.asts| + NonBlankLines(buf, ls) &&
        r.value.asts[..|p.asts|] == p.asts &&
        Consistent(r.value) &&
        r.value.lineno == (if |ls| == 0 then p.lineno else ls[|ls| - 1].lineno)
    decreases |ls|
  {
    if |ls| > 0 {
      var counted := p.(lineno := ls[0].lineno);
      var r := ParseLine(counted, LineText(buf, ls[0]));
      assert Consistent(counted);
      ParseLinePreservesConsistency(counted, LineText(buf, ls[0]));
      if r.Success? {
        RunLinesAppends(buf, ls[1..], r.value);
        var q := RunLines(buf, ls[1..], r.value);
        if q.Success? {
          assert q.value.asts[..|p.asts|] == q.value.asts[..|r.value.asts|][..|p.asts|];
          if |ls| > 1 {
            assert ls[1..][|ls| - 2] == ls[|ls| - 1];
          }
        }
      }
    }
  }

  /**
   * What `Parse` promises about a whole buffer: it fails exactly when some
   * logical line starts with '=', with the empty-variable-name error at the
   * first such line's number; otherwise it yields one node per non-blank
   * logical line, and every command node belongs to a rule.
   */
  lemma ParseOutcome(buf: string)
    ensures var ls := Lines(AsWritten, buf);
      ValidSpans(buf, ls) &&
      (Parse(buf).Failure? <==> exists i :: 0 <= i < |ls| && StartsWithEquals(LineText(buf, ls[i]))) &&
      (Parse(buf).Failure? ==>
         exists i :: 0 <= i < |ls| && StartsWithEquals(LineText(buf, ls[i])) &&
           (forall k :: 0 <= k < i ==> !StartsWithEquals(LineText(buf, ls[k]))) &&
           Parse(buf).error == ParseError(ls[i].lineno, EmptyVariableName)) &&
      (Parse(buf).Success? ==>
         |Parse(buf).value| == NonBlankLines(buf, ls) && CommandsFollowRules(Parse(buf).value))
  {
    var ls := Lines(AsWritten, buf);
    ParseFromIsRunLines(buf, 0, InitialParser);
    RunLinesFailure(buf, ls, InitialParser);
    InitialParserConsistent();
    RunLinesAppends(buf, ls, InitialParser);
  }

  /**
   * The loop of `Parse` as written: a cursor over the buffer, the line end
   * found by the imperative scanner as written, and an early exit after
   * the line that reaches the end of the buffer or on the first error.
   */
  method ParseLoop(buf: string) returns (r: Result<seq<Node>, ParseError>)
    ensures r == Parse(buf)
  {
    var p := InitialParser;
    var l: nat := 0;
    while l < |buf|
      invariant l <= |buf|
      invariant ParseFrom(buf, l, p) == ParseFrom(buf, 0, InitialParser)
      decreases |buf| - l
    {
      var e, lfCnt := FindEndOfLineLoop(AsWritten, buf, l);
      ParseFromStep(buf, l, p, e, lfCnt);
      p := p.(lineno := p.lineno + lfCnt);
      var parsed := ParseLine(p, buf[l..e]);
      if parsed.Failure? {
        assert ParseFrom(buf, 0, InitialParser) == Failure(parsed.error);
        return Failure(parsed.error);
      }
      p := parsed.value;
      if e == |buf| {
        assert ParseFrom(buf, 0, InitialParser) == Success(p);
        return Success(p.asts);
      }
      l := e + 1;
    }
    assert ParseFrom(buf, 0, InitialParser) == Success(p);
    return Success(p.asts);
  }
}
