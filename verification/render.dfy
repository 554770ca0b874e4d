/**
 * Writing a node back out as a Makefile line, and the round trips that
 * show `ParseLine` recovers exactly the node it was given: each field lands
 * in the node it came from, with its command context and the operator or
 * terminator that separated it.
 */
module Rendering {
  import opened Wrappers
  import opened Text
  import opened Ast
  import opened LineParser

  /** A line for `n`: its fields joined by single spaces, a command behind a tab. */
  function Render(n: Node): string
  {
    match n
    case Assign(_, lhs, rhs, op, _) => AssignText(lhs.raw, op, rhs.raw)
    case Rule(_, expr, term, afterTerm) =>
      RuleText(expr.raw, term, afterTerm)
    case Command(expr) => "\t" + expr.raw
  }

  predicate NoneOf(s: string, chars: string)
  {
    forall k :: 0 <= k < |s| ==> s[k] !in chars
  }

  /** An assignment node a line can express: a name without '=' or ':', both sides trimmed. */
  predicate WellFormedAssign(n: Node)
  {
    n.Assign? && Stripped(n.lhs.raw) && NoneOf(n.lhs.raw, "=:") && LeftStripped(n.rhs.raw) &&
    !n.lhs.isCommand && !n.rhs.isCommand && n.directive == NoDirective
  }

  /**
   * The parts of a rule a line can express: a trimmed target part without
   * '=' or ';', empty only when a terminator follows, and either no
   * terminator or a `=`/`;` terminator with a left-trimmed trailing part in
   * command context exactly after ';'. Without a ':' the line must not look like an assignment: the
   * terminator is not '=' and the trailing part holds neither '=' nor ':'.
   */
  predicate RuleParts(expr: string, term: char, afterTerm: Option<Expr>)
  {
    Stripped(expr) && (afterTerm.None? ==> |expr| > 0) && NoneOf(expr, "=;") &&
    (if afterTerm.None? then term == NoTerminator
     else term in "=;" && LeftStripped(afterTerm.value.raw) &&
          afterTerm.value.isCommand == (term == ';')) &&
    (':' !in expr ==> term != '=' && (afterTerm.Some? ==> NoneOf(afterTerm.value.raw, "=:")))
  }

  /** A rule node a line can express. */
  predicate WellFormedRule(n: Node)
  {
    n.Rule? && !n.expr.isCommand && RuleParts(n.expr.raw, n.term, n.afterTerm)
  }

  /** The line for an assignment: name, operator and value, separated by spaces. */
  function AssignText(lhs: string, op: AssignOp, rhs: string): string
  {
    lhs + " " + OpText(op) + " " + rhs
  }

  /** Such a line is dispatched as an assignment at the operator's '='. */
  lemma ClassifyAssignText(lhs: string, op: AssignOp, rhs: string)
    requires Stripped(lhs) && NoneOf(lhs, "=:")
    ensures Classify(AssignText(lhs, op, rhs)) == AssignLine(|lhs| + |OpText(op)|)
  {
    var line := AssignText(lhs, op, rhs);
    var sep := |lhs| + |OpText(op)|;
    var first := |lhs| + 1;
    assert line[|lhs|] == ' ';
    assert line[sep] == '=';
    assert line[first] in "=:" <==> op == Eq || op == ColonEq;
    var firstSep := if op == Eq || op == ColonEq then first else sep;
    forall k | 0 <= k < firstSep
      ensures line[k] !in "=:"
    {
      if k < |lhs| { assert line[k] == lhs[k]; }
    }
    assert FindFirstOf(line, 0, "=:") == Some(firstSep);
  }

  /** Where the parts of an assignment line sit. */
  lemma AssignTextLayout(lhs: string, op: AssignOp, rhs: string)
    ensures var line := AssignText(lhs, op, rhs);
      var sep := |lhs| + |OpText(op)|;
      0 < sep < |line| && line[sep] == '=' && OpBefore(line[sep - 1]) == op &&
      line[..sep + 1 - |OpText(op)|] == lhs + " " && line[sep + 1..] == " " + rhs
  {
    var line := AssignText(lhs, op, rhs);
    var sep := |lhs| + |OpText(op)|;
    assert line[|lhs|] == ' ';
    assert line[sep] == '=';
    assert line[..|lhs| + 1] == lhs + " ";
    assert line[sep + 1..] == " " + rhs;
  }

  /** `ParseAssign` at the operator's '=' recovers name, operator and value. */
  lemma ParseAssignText(p: Parser, lhs: string, op: AssignOp, rhs: string, line: string, sep: nat)
    requires Stripped(lhs) && LeftStripped(rhs)
    requires line == AssignText(lhs, op, rhs) && sep == |lhs| + |OpText(op)|
    ensures sep < |line| && line[sep] == '='
    ensures ParseAssign(p, line, sep) ==
        Success(Parser(NotAfterRule, p.lineno,
          p.asts + [Assign(p.lineno, Expr(lhs, false), Expr(rhs, false), op, NoDirective)]))
  {
    AssignTextLayout(lhs, op, rhs);
    StripSpacesOfPadded([], lhs, " ");
    assert [] + lhs + " " == lhs + " ";
    StripLeftSpacesOfPadded(" ", rhs);
  }

  /** Parsing an assignment line appends that assignment and resets the state. */
  lemma ParseLineAssignText(p: Parser, lhs: string, op: AssignOp, rhs: string)
    requires Stripped(lhs) && NoneOf(lhs, "=:") && LeftStripped(rhs)
    ensures ParseLine(p, AssignText(lhs, op, rhs)) ==
      Success(Parser(NotAfterRule, p.lineno,
        p.asts + [Assign(p.lineno, Expr(lhs, false), Expr(rhs, false), op, NoDirective)]))
  {
    var line := AssignText(lhs, op, rhs);
    assert line[0] == if lhs == [] then ' ' else lhs[0];
    ClassifyAssignText(lhs, op, rhs);
    var sep := |lhs| + |OpText(op)|;
    ParseLineAssigns(p, line, sep);
    ParseAssignText(p, lhs, op, rhs, line, sep);
  }

  /** Parsing a rendered assignment appends that assignment and resets the state. */
  lemma AssignRoundTrip(p: Parser, n: Node)
    requires WellFormedAssign(n)
    ensures ParseLine(p, Render(n)) ==
      Success(Parser(NotAfterRule, p.lineno, p.asts + [Assign(p.lineno, n.lhs, n.rhs, n.op, n.directive)]))
  {
    ParseLineAssignText(p, n.lhs.raw, n.op, n.rhs.raw);
  }

  /** The line for a rule: the target part, then the terminator and trailing part if there is one. */
  function RuleText(expr: string, term: char, afterTerm: Option<Expr>): string
  {
    if afterTerm.Some? then expr + " " + [term] + " " + afterTerm.value.raw else expr
  }

  /** The positions of a rule line: the target part first, the terminator one space after it. */
  lemma RuleTextLayout(expr: string, term: char, afterTerm: Option<Expr>)
    ensures var line := RuleText(expr, term, afterTerm);
      |expr| <= |line| && line[..|expr|] == expr &&
      (afterTerm.None? ==> line == expr) &&
      (afterTerm.Some? ==>
         var t := |expr| + 1;
         |line| == |expr| + 3 + |afterTerm.value.raw| &&
         line[|expr|] == ' ' && line[t] == term &&
         line[..t] == expr + " " && line[t + 1..] == " " + afterTerm.value.raw &&
         line[t + 2..] == afterTerm.value.raw)
  {
    if afterTerm.Some? {
      var line := RuleText(expr, term, afterTerm);
      var t := |expr| + 1;
      assert line[..t] == expr + " ";
      assert line[t + 1..] == " " + afterTerm.value.raw;
    }
  }

  /** A ':' of the line can only come from the target part. */
  lemma RuleTextColon(expr: string, term: char, afterTerm: Option<Expr>)
    requires RuleParts(expr, term, afterTerm)
    ensures ':' in RuleText(expr, term, afterTerm) <==> ':' in expr
  {
    var line := RuleText(expr, term, afterTerm);
    RuleTextLayout(expr, term, afterTerm);
    if ':' in expr {
      var k :| 0 <= k < |expr| && expr[k] == ':';
      assert line[k] == line[..|expr|][k];
    }
  }

  /** With a ':' in the target part, the first one is the line's first separator and is not followed by '='. */
  lemma ClassifyRuleTextAtColon(expr: string, term: char, afterTerm: Option<Expr>, c: nat)
    requires RuleParts(expr, term, afterTerm)
    requires FindFirstOf(expr, 0, ":") == Some(c)
    ensures Classify(RuleText(expr, term, afterTerm)) == RuleLine(Some(c))
  {
    var line := RuleText(expr, term, afterTerm);
    RuleTextLayout(expr, term, afterTerm);
    assert forall k :: 0 <= k < |expr| ==> line[k] == line[..|expr|][k];
    assert line[c] == ':';
    assert FindFirstOf(line, 0, "=:") == Some(c);
    assert Get(line, c + 1) != '=' by {
      if c + 1 < |expr| { assert line[c + 1] == expr[c + 1]; }
    }
  }

  /** Without a ':' in the target part, the line has no separator at all. */
  lemma ClassifyRuleTextNoColon(expr: string, term: char, afterTerm: Option<Expr>)
    requires RuleParts(expr, term, afterTerm)
    requires FindFirstOf(expr, 0, ":") == None
    ensures Classify(RuleText(expr, term, afterTerm)) == RuleLine(None)
  {
    var line := RuleText(expr, term, afterTerm);
    RuleTextLayout(expr, term, afterTerm);
    forall k | 0 <= k < |line|
      ensures line[k] !in "=:"
    {
      if k < |expr| {
        assert line[k] == line[..|expr|][k];
      } else if afterTerm.Some? && k >= |expr| + 3 {
        assert line[k] == line[|expr| + 2..][k - |expr| - 2];
        assert line[k] == afterTerm.value.raw[k - |expr| - 3];
      }
    }
  }

  /** A rule line is dispatched as a rule at the first ':' of its target part, or without a separator. */
  lemma ClassifyRuleText(expr: string, term: char, afterTerm: Option<Expr>)
    requires RuleParts(expr, term, afterTerm)
    ensures Classify(RuleText(expr, term, afterTerm)) == RuleLine(FindFirstOf(expr, 0, ":"))
  {
    match FindFirstOf(expr, 0, ":")
    case Some(c) => ClassifyRuleTextAtColon(expr, term, afterTerm, c);
    case None => ClassifyRuleTextNoColon(expr, term, afterTerm);
  }

  /** The terminator search from inside the target part finds the rule's own terminator. */
  lemma RuleTextTerminator(expr: string, term: char, afterTerm: Option<Expr>, start: nat)
    requires RuleParts(expr, term, afterTerm) && start <= |expr|
    ensures FindFirstOf(RuleText(expr, term, afterTerm), start, "=;") ==
      if afterTerm.Some? then Some(|expr| + 1) else None
  {
    var line := RuleText(expr, term, afterTerm);
    RuleTextLayout(expr, term, afterTerm);
    assert forall k :: start <= k < |expr| ==> line[k] == line[..|expr|][k];
  }

  /** Trimming the pieces around the terminator gives back the target and trailing parts. */
  lemma RuleTextFields(expr: string, term: char, afterTerm: Option<Expr>)
    requires RuleParts(expr, term, afterTerm)
    ensures var line := RuleText(expr, term, afterTerm);
      var t := |expr| + 1;
      (afterTerm.None? ==> StripSpaces(line) == expr) &&
      (afterTerm.Some? ==>
         t < |line| && StripSpaces(line[..t]) == expr && StripLeftSpaces(line[t + 1..]) == afterTerm.value.raw)
  {
    RuleTextLayout(expr, term, afterTerm);
    if afterTerm.Some? {
      StripSpacesOfPadded([], expr, " ");
      assert [] + expr + " " == expr + " ";
      StripLeftSpacesOfPadded(" ", afterTerm.value.raw);
    } else {
      StripSpacesOfPadded([], expr, []);
      assert [] + expr + [] == expr;
    }
  }

  /** `ParseRule` at that separator recovers the target part, the terminator and the trailing part. */
  lemma ParseRuleText(p: Parser, expr: string, term: char, afterTerm: Option<Expr>)
    requires RuleParts(expr, term, afterTerm)
    ensures var line := RuleText(expr, term, afterTerm);
      var sep := FindFirstOf(expr, 0, ":");
      TermSearchStart(sep) <= |line| &&
      ParseRule(p, line, sep) ==
        Parser(if ':' in expr then AfterRule else MaybeAfterRule, p.lineno,
          p.asts + [Rule(p.lineno, Expr(expr, false), term, afterTerm)])
  {
    var line := RuleText(expr, term, afterTerm);
    RuleTextLayout(expr, term, afterTerm);
    RuleTextColon(expr, term, afterTerm);
    RuleTextTerminator(expr, term, afterTerm, TermSearchStart(FindFirstOf(expr, 0, ":")));
    RuleTextFields(expr, term, afterTerm);
    if afterTerm.Some? {
      assert line[|expr| + 1] == term;
    }
  }

  /** Parsing a rendered rule appends that rule; the state records whether it has a ':'. */
  lemma RuleRoundTrip(p: Parser, n: Node)
    requires WellFormedRule(n)
    ensures ParseLine(p, Render(n)) ==
      Success(Parser(if ':' in n.expr.raw then AfterRule else MaybeAfterRule, p.lineno,
        p.asts + [Rule(p.lineno, n.expr, n.term, n.afterTerm)]))
  {
    var line := RuleText(n.expr.raw, n.term, n.afterTerm);
    RuleTextLayout(n.expr.raw, n.term, n.afterTerm);
    if n.expr.raw == [] {
      assert line[0] == ' ' && line[1] == n.term;
    } else {
      assert line[0] == line[..|n.expr.raw|][0];
    }
    ClassifyRuleText(n.expr.raw, n.term, n.afterTerm);
    ParseLineRules(p, line, FindFirstOf(n.expr.raw, 0, ":"));
    ParseRuleText(p, n.expr.raw, n.term, n.afterTerm);
  }

  /** After a rule, parsing a rendered command appends that command and keeps the state. */
  lemma CommandRoundTrip(p: Parser, e: Expr)
    requires p.state != NotAfterRule && e.isCommand
    ensures ParseLine(p, Render(Command(e))) == Success(p.(asts := p.asts + [Command(e)]))
  {
    var line := Render(Command(e));
    assert line[1..] == e.raw;
  }
}
