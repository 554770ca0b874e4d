/**
 * Worked inputs: what the scanner, `ParseLine` and `Parse` yield for a few
 * small lines and buffers, each fixed by the definitions alone. The helper
 * lemmas take their text as a parameter pinned by a `requires`, so that the
 * verifier only spells out the literal where a step needs its characters.
 */
module Examples {
  import opened Wrappers
  import opened Text
  import opened Ast
  import opened LineScanner
  import opened LineParser
  import opened Rendering
  import opened Driver

  /** With no ':' or '=', the terminator search starts at offset 0, so ';' still splits the line. */
  lemma SemicolonWithoutSeparator()
    ensures ParseLine(InitialParser, "a ; b") ==
      Success(Parser(MaybeAfterRule, 0, [Rule(0, Expr("a", false), ';', Some(Expr("b", true)))]))
  {
    var n := Rule(0, Expr("a", false), ';', Some(Expr("b", true)));
    assert Render(n) == "a ; b";
    RuleRoundTrip(InitialParser, n);
  }

  /** " := x" is an assignment with an empty name and no error: its '=' is not at offset 0. */
  lemma EmptyNameWithColonEquals()
    ensures ParseLine(InitialParser, " := x") ==
      Success(Parser(NotAfterRule, 0, [Assign(0, Expr("", false), Expr("x", false), ColonEq, NoDirective)]))
  {
    var n := Assign(0, Expr("", false), Expr("x", false), ColonEq, NoDirective);
    assert Render(n) == " := x";
    AssignRoundTrip(InitialParser, n);
  }

  /** A line starting with '=' is the empty-variable-name error, at the current line number. */
  lemma EqualsAtStartFails()
    ensures ParseLine(Parser(NotAfterRule, 7, []), "=value") == Failure(ParseError(7, EmptyVariableName))
  {
  }

  /** A rule line without a terminator: the whole stripped line is the rule's text. */
  lemma RuleWithoutTerminator()
    ensures ParseLine(InitialParser, "x: y") ==
      Success(Parser(AfterRule, 0, [Rule(0, Expr("x: y", false), NoTerminator, None)]))
  {
    var n := Rule(0, Expr("x: y", false), NoTerminator, None);
    assert Render(n) == "x: y";
    RuleRoundTrip(InitialParser, n);
  }

  /** Without a newline, the only logical line runs to the end of the buffer and consumes no newline. */
  lemma LastLineWithoutNewline()
    ensures FindEndOfLine(AsWritten, "x: y", 0) == LineEnd(4, 0)
  {
  }

  /** The single turn of the loop over "x: y": the whole buffer is the line, with no newline counted. */
  lemma RuleWithoutNewlineTurn(buf: string)
    requires buf == "x: y"
    ensures ParseFrom(buf, 0, InitialParser) == ParseLine(InitialParser, buf)
  {
    LastLineWithoutNewline();
    ParseFromStep(buf, 0, InitialParser, 4, 0);
    assert buf[0..4] == buf;
    assert InitialParser.(lineno := 0 + 0) == InitialParser;
  }

  /** A one-line buffer without a newline: the rule is numbered 0, as no newline was consumed before it. */
  lemma RuleWithoutNewline()
    ensures Parse("x: y") == Success([Rule(0, Expr("x: y", false), NoTerminator, None)])
  {
    RuleWithoutNewlineTurn("x: y");
    RuleWithoutTerminator();
  }

  /** A backslash-newline joins two physical lines; each line is numbered through its own terminator. */
  lemma ContinuationJoinsLines()
    ensures Lines(AsWritten, "a\\\nb\nc") == [LogicalLine(0, 4, 2), LogicalLine(5, 6, 2)]
  {
    var buf := "a\\\nb\nc";
    assert FindEndOfLine(AsWritten, buf, 0) == LineEnd(4, 2);
    assert FindEndOfLine(AsWritten, buf, 5) == LineEnd(6, 0);
    LinesFromStep(AsWritten, buf, 0, 0);
    LinesFromStep(AsWritten, buf, 5, 2);
  }

  /** The logical lines of a rule with one recipe line. */
  lemma RuleAndCommandLines(buf: string)
    requires buf == "x:\n\tcmd"
    ensures FindEndOfLine(AsWritten, buf, 0) == LineEnd(2, 1)
    ensures FindEndOfLine(AsWritten, buf, 3) == LineEnd(7, 0)
    ensures |buf| == 7 && buf[0..2] == "x:" && buf[3..7] == "\tcmd"
  {
    assert FindEndOfLine(AsWritten, "x:\n\tcmd", 0) == LineEnd(2, 1);
    assert FindEndOfLine(AsWritten, "x:\n\tcmd", 3) == LineEnd(7, 0);
  }

  /** A rule line parsed before any rule moves the state to AFTER_RULE and carries the current line number. */
  lemma RuleLineStartsRule(p: Parser)
    requires p.state == NotAfterRule && p.asts == []
    ensures ParseLine(p, "x:") ==
      Success(Parser(AfterRule, p.lineno, [Rule(p.lineno, Expr("x:", false), NoTerminator, None)]))
  {
    var rule := Rule(p.lineno, Expr("x:", false), NoTerminator, None);
    assert Render(rule) == "x:";
    RuleRoundTrip(p, rule);
  }

  /** A line that starts with its ';' is a rule with an empty target part and the rest as its command. */
  lemma EmptyTargetRule(p: Parser)
    ensures ParseLine(p, " ; echo") ==
      Success(Parser(MaybeAfterRule, p.lineno, p.asts + [Rule(p.lineno, Expr("", false), ';', Some(Expr("echo", true)))]))
  {
    var rule := Rule(p.lineno, Expr("", false), ';', Some(Expr("echo", true)));
    assert Render(rule) == " ; echo";
    RuleRoundTrip(p, rule);
  }

  /** After a rule, a tab-prefixed line is a command holding the rest of the line. */
  lemma CommandAfterRule(p: Parser)
    requires p.state == AfterRule
    ensures ParseLine(p, "\tcmd") == Success(p.(asts := p.asts + [Command(Expr("cmd", true))]))
  {
    assert Render(Command(Expr("cmd", true))) == "\tcmd";
    CommandRoundTrip(p, Expr("cmd", true));
  }

  /** The loop's first turn parses the rule on line 1 and goes on past its newline. */
  lemma RuleThenCommandFirstTurn(buf: string, p: Parser, q: Parser)
    requires buf == "x:\n\tcmd"
    requires p.state == NotAfterRule && p.lineno == 0 && p.asts == []
    requires q == Parser(AfterRule, 1, [Rule(1, Expr("x:", false), NoTerminator, None)])
    ensures ParseFrom(buf, 0, p) == ParseFrom(buf, 3, q)
  {
    RuleAndCommandLines(buf);
    ParseFromStep(buf, 0, p, 2, 1);
    RuleLineStartsRule(p.(lineno := 0 + 1));
  }

  /** The loop's second turn parses the command and stops at the end of the buffer. */
  lemma RuleThenCommandSecondTurn(buf: string, p: Parser)
    requires buf == "x:\n\tcmd"
    requires p.state == AfterRule && p.lineno == 1
    ensures ParseFrom(buf, 3, p) == Success(p.(asts := p.asts + [Command(Expr("cmd", true))]))
  {
    RuleAndCommandLines(buf);
    ParseFromStep(buf, 3, p, 7, 0);
    assert p.(lineno := 1 + 0) == p;
    CommandAfterRule(p);
  }

  /** A rule with one recipe line: the rule carries line number 1, the command none. */
  lemma RuleThenCommand()
    ensures Parse("x:\n\tcmd") ==
      Success([Rule(1, Expr("x:", false), NoTerminator, None), Command(Expr("cmd", true))])
  {
    var rule := Rule(1, Expr("x:", false), NoTerminator, None);
    var p1 := Parser(AfterRule, 1, [rule]);
    RuleThenCommandFirstTurn("x:\n\tcmd", InitialParser, p1);
    RuleThenCommandSecondTurn("x:\n\tcmd", p1);
    assert p1.asts + [Command(Expr("cmd", true))] == [rule, Command(Expr("cmd", true))];
  }

  /**
   * As written, the scan does not end the line at the blank line after a
   * continuation: "x:\\\n\ny = 1" is one logical line, numbered through
   * both newlines.
   */
  lemma BlankLineAfterContinuationAsWritten()
    ensures FindEndOfLine(AsWritten, "x:\\\n\ny = 1", 0) == LineEnd(10, 2)
    ensures Lines(AsWritten, "x:\\\n\ny = 1") == [LogicalLine(0, 10, 2)]
  {
    var buf := "x:\\\n\ny = 1";
    assert FindEndOfLine(AsWritten, buf, 0) == LineEnd(10, 2);
    LinesFromStep(AsWritten, buf, 0, 0);
  }

  /** The corrected scan stops at the blank line's newline and then at the end of the buffer. */
  lemma BlankLineAfterContinuationCorrectedEnds(buf: string)
    requires buf == "x:\\\n\ny = 1"
    ensures FindEndOfLine(Corrected, buf, 0) == LineEnd(4, 2)
    ensures FindEndOfLine(Corrected, buf, 5) == LineEnd(10, 0)
  {
    assert FindEndOfLine(Corrected, "x:\\\n\ny = 1", 0) == LineEnd(4, 2);
    assert FindEndOfLine(Corrected, "x:\\\n\ny = 1", 5) == LineEnd(10, 0);
  }

  /** The corrected scan ends the first line at the blank line, so the same buffer is two logical lines. */
  lemma BlankLineAfterContinuationCorrected()
    ensures Lines(Corrected, "x:\\\n\ny = 1") == [LogicalLine(0, 4, 2), LogicalLine(5, 10, 2)]
  {
    var buf := "x:\\\n\ny = 1";
    BlankLineAfterContinuationCorrectedEnds(buf);
    LinesFromStep(Corrected, buf, 0, 0);
    LinesFromStep(Corrected, buf, 5, 2);
  }

  /** The joined line of "x:\\\n\ny = 1" fills the whole buffer. */
  lemma BlankLineAfterContinuationEnd(buf: string)
    requires buf == "x:\\\n\ny = 1"
    ensures FindEndOfLine(AsWritten, buf, 0) == LineEnd(10, 2)
    ensures |buf| == 10 && buf[0..10] == buf
  {
    BlankLineAfterContinuationAsWritten();
  }

  /** The joined line is a rule whose terminator is the '=' of the swallowed assignment. */
  lemma BlankLineAfterContinuationRule(p: Parser)
    requires p.state == NotAfterRule && p.asts == []
    ensures ParseLine(p, "x:\\\n\ny = 1") ==
      Success(Parser(AfterRule, p.lineno, [Rule(p.lineno, Expr("x:\\\n\ny", false), '=', Some(Expr("1", false)))]))
  {
    var rule := Rule(p.lineno, Expr("x:\\\n\ny", false), '=', Some(Expr("1", false)));
    assert Render(rule) == "x:\\\n\ny = 1";
    RuleRoundTrip(p, rule);
  }

  /** The single turn of the loop over the buffer: the whole buffer is one line, two newlines counted. */
  lemma BlankLineAfterContinuationTurn(buf: string, p: Parser, q: Parser)
    requires buf == "x:\\\n\ny = 1"
    requires p.state == NotAfterRule && p.lineno == 0 && p.asts == []
    requires q == Parser(AfterRule, 2, [Rule(2, Expr("x:\\\n\ny", false), '=', Some(Expr("1", false)))])
    ensures ParseFrom(buf, 0, p) == Success(q)
  {
    BlankLineAfterContinuationEnd(buf);
    ParseFromStep(buf, 0, p, 10, 2);
    BlankLineAfterContinuationRule(p.(lineno := 0 + 2));
  }

  /**
   * What `Parse` makes of "x:\\\n\ny = 1" as written: a single rule at
   * line 2 whose target part runs across the blank line and whose
   * terminator is the '=' of "y = 1"; the assignment on the third physical
   * line is never seen.
   */
  lemma BlankLineAfterContinuationParses()
    ensures Parse("x:\\\n\ny = 1") ==
      Success([Rule(2, Expr("x:\\\n\ny", false), '=', Some(Expr("1", false)))])
  {
    var rule := Rule(2, Expr("x:\\\n\ny", false), '=', Some(Expr("1", false)));
    BlankLineAfterContinuationTurn("x:\\\n\ny = 1", InitialParser, Parser(AfterRule, 2, [rule]));
  }
}
