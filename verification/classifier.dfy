/**
 * `ParseLine`, `ParseRuleAST` and `ParseAssignAST` of parser.cc: classify one
 * logical line and append at most one node, driving the three-state machine
 * that decides whether a tab-prefixed line is a recipe command.
 */
module LineParser {
  import opened Wrappers
  import opened Text
  import opened Ast

  /** An empty line or a lone carriage return: skipped without effect. */
  predicate IsBlank(line: string) {
    |line| == 0 || line == "\r"
  }

  /** `i` holds the first '=' or ':' of the line. */
  predicate FirstSeparator(line: string, i: nat) {
    i < |line| && line[i] in "=:" && forall k :: 0 <= k < i ==> line[k] !in "=:"
  }

  /** The four planned outcomes of the separator dispatch, and the `CHECK(false)` that ends it. */
  datatype Dispatch =
    | RuleLine(ruleSep: Option<nat>)
    | AssignLine(assignSep: nat)
    | CheckFailure

  /**
   * The dispatch on the first '=' or ':': none means a rule with no
   * separator, '=' an assignment there, ":=" an assignment at the '=',
   * any other ':' a rule there. The `CHECK(false)` branch is never taken.
   */
  function Classify(line: string): (d: Dispatch)
    ensures !d.CheckFailure?
    ensures d == RuleLine(None) <==> forall k :: 0 <= k < |line| ==> line[k] !in "=:"
    ensures d.RuleLine? && d.ruleSep.Some? ==>
      var sep := d.ruleSep.value;
      FirstSeparator(line, sep) && line[sep] == ':' && Get(line, sep + 1) != '='
    ensures d.AssignLine? ==>
      var sep := d.assignSep;
      sep < |line| && line[sep] == '=' &&
      (FirstSeparator(line, sep) || (0 < sep && FirstSeparator(line, sep - 1) && line[sep - 1] == ':'))
  {
    match FindFirstOf(line, 0, "=:")
    case None => RuleLine(None)
    case Some(sep) =>
      if line[sep] == '=' then AssignLine(sep)
      else if Get(line, sep + 1) == '=' then AssignLine(sep + 1)
      else if line[sep] == ':' then RuleLine(Some(sep))
      else CheckFailure
  }

  /** Where `ParseRuleAST` starts looking for a terminator: just past the separator, or at 0 when `sep + 1` wraps from `npos`. */
  function TermSearchStart(sep: Option<nat>): nat
  {
    match sep
    case None => 0
    case Some(s) => s + 1
  }

  /** `ParseRuleAST`: append a rule node and move to AFTER_RULE or MAYBE_AFTER_RULE. */
  function ParseRule(p: Parser, line: string, sep: Option<nat>): (q: Parser)
    requires TermSearchStart(sep) <= |line|
    ensures q.lineno == p.lineno && |q.asts| == |p.asts| + 1 && q.asts[..|p.asts|] == p.asts
    ensures q.state == (if ':' in line then AfterRule else MaybeAfterRule)
    ensures var n := q.asts[|p.asts|];
      var f := FindFirstOf(line, TermSearchStart(sep), "=;");
      n.Rule? && n.lineno == p.lineno && !n.expr.isCommand &&
      (f.None? ==> n.term == NoTerminator && n.afterTerm.None? && n.expr.raw == StripSpaces(line)) &&
      (f.Some? ==>
         n.term == line[f.value] && n.term in "=;" &&
         n.expr.raw == StripSpaces(line[..f.value]) &&
         n.afterTerm == Some(Expr(StripLeftSpaces(line[f.value + 1..]), n.term == ';')))
  {
    var isRule := ':' in line;
    var node :=
      match FindFirstOf(line, TermSearchStart(sep), "=;")
      case Some(found) =>
        var term := line[found];
        Rule(p.lineno, Expr(StripSpaces(line[..found]), false), term,
             Some(Expr(StripLeftSpaces(line[found + 1..]), term == ';')))
      case None =>
        Rule(p.lineno, Expr(StripSpaces(line), false), NoTerminator, None);
    Parser(if isRule then AfterRule else MaybeAfterRule, p.lineno, p.asts + [node])
  }

  /** The text of an assignment operator. */
  function OpText(op: AssignOp): string
  {
    match op
    case Eq => "="
    case ColonEq => ":="
    case PlusEq => "+="
    case QuestionEq => "?="
  }

  /** The operator selected by the character before the '='. */
  function OpBefore(c: char): AssignOp
  {
    if c == ':' then ColonEq
    else if c == '+' then PlusEq
    else if c == '?' then QuestionEq
    else Eq
  }

  /**
   * `ParseAssignAST`: an '=' at offset 0 is the fatal empty-variable-name
   * error; otherwise the operator is the longest of `=`, `:=`, `+=`, `?=`
   * ending at `sep`, the left side is the stripped text before it and the
   * right side the left-stripped text after `sep`, and the state resets to
   * NOT_AFTER_RULE.
   */
  function ParseAssign(p: Parser, line: string, sep: nat): (r: Result<Parser, ParseError>)
    requires sep < |line| && line[sep] == '='
    ensures r.Failure? <==> sep == 0
    ensures r.Failure? ==> r.error == ParseError(p.lineno, EmptyVariableName)
    ensures r.Success? ==>
      r.value.lineno == p.lineno && r.value.state == NotAfterRule &&
      |r.value.asts| == |p.asts| + 1 && r.value.asts == p.asts + [r.value.asts[|p.asts|]] &&
      r.value.asts[|p.asts|].Assign?
    ensures r.Success? ==>
      var n := r.value.asts[|p.asts|];
      n.lineno == p.lineno && n.directive == NoDirective &&
      |OpText(n.op)| <= sep + 1 && line[sep + 1 - |OpText(n.op)|..sep + 1] == OpText(n.op) &&
      (n.op == Eq ==> line[sep - 1] !in ":+?")
    ensures r.Success? ==>
      var n := r.value.asts[|p.asts|];
      n.lhs == Expr(StripSpaces(line[..sep + 1 - |OpText(n.op)|]), false) &&
      n.rhs == Expr(StripLeftSpaces(line[sep + 1..]), false)
  {
    if sep == 0 then Failure(ParseError(p.lineno, EmptyVariableName))
    else
      var op := OpBefore(line[sep - 1]);
      var lhsEnd := if op == Eq then sep else sep - 1;
      OperatorEndsAtSeparator(line, sep);
      var node := Assign(p.lineno, Expr(StripSpaces(line[..lhsEnd]), false),
                         Expr(StripLeftSpaces(line[sep + 1..]), false), op, NoDirective);
      Success(Parser(NotAfterRule, p.lineno, p.asts + [node]))
  }

  /** The operator `OpBefore` picks is spelled by the characters ending at the '='. */
  lemma OperatorEndsAtSeparator(line: string, sep: nat)
    requires 0 < sep < |line| && line[sep] == '='
    ensures var op := OpBefore(line[sep - 1]);
      var lhsEnd := if op == Eq then sep else sep - 1;
      lhsEnd == sep + 1 - |OpText(op)| &&
      line[lhsEnd..sep + 1] == OpText(op) &&
      (op == Eq ==> line[sep - 1] !in ":+?")
  {
    var op := OpBefore(line[sep - 1]);
    if op != Eq {
      assert line[sep - 1..sep + 1] == [line[sep - 1], line[sep]];
    } else {
      assert line[sep..sep + 1] == [line[sep]];
    }
  }

  /**
   * `ParseLine`: a blank line changes nothing; a tab-prefixed line is a
   * command unless the state is NOT_AFTER_RULE; anything else is a rule or
   * an assignment by `Classify`. Only a line starting with '=' fails.
   */
  function ParseLine(p: Parser, line: string): (r: Result<Parser, ParseError>)
    ensures r.Failure? <==> |line| > 0 && line[0] == '='
    ensures r.Failure? ==> r.error == ParseError(p.lineno, EmptyVariableName)
    ensures IsBlank(line) ==> r == Success(p)
    ensures r.Success? ==>
      var q := r.value;
      q.lineno == p.lineno &&
      |q.asts| == (if IsBlank(line) then |p.asts| else |p.asts| + 1) &&
      q.asts[..|p.asts|] == p.asts
    ensures r.Success? && !IsBlank(line) ==>
      var q := r.value;
      var n := q.asts[|p.asts|];
      (n.Command? <==> line[0] == '\t' && p.state != NotAfterRule) &&
      (n.Command? ==> q.state == p.state && n.expr == Expr(line[1..], true)) &&
      (n.Rule? ==> n.lineno == p.lineno && q.state == (if ':' in line then AfterRule else MaybeAfterRule)) &&
      (n.Assign? ==> n.lineno == p.lineno && q.state == NotAfterRule)
  {
    if IsBlank(line) then Success(p)
    else if line[0] == '\t' && p.state != NotAfterRule then
      Success(p.(asts := p.asts + [Command(Expr(line[1..], true))]))
    else
      match Classify(line)
      case RuleLine(sep) => Success(ParseRule(p, line, sep))
      case AssignLine(sep) => ParseAssign(p, line, sep)
  }

  /** A line that is neither blank nor a command and that `Classify` sends to an assignment is parsed by `ParseAssign`. */
  lemma ParseLineAssigns(p: Parser, line: string, sep: nat)
    requires !IsBlank(line) && !(line[0] == '\t' && p.state != NotAfterRule)
    requires Classify(line) == AssignLine(sep)
    ensures sep < |line| && line[sep] == '='
    ensures ParseLine(p, line) == ParseAssign(p, line, sep)
  {
  }

  /** A line that is neither blank nor a command and that `Classify` sends to a rule is parsed by `ParseRule`. */
  lemma ParseLineRules(p: Parser, line: string, sep: Option<nat>)
    requires !IsBlank(line) && !(line[0] == '\t' && p.state != NotAfterRule)
    requires Classify(line) == RuleLine(sep)
    ensures TermSearchStart(sep) <= |line|
    ensures ParseLine(p, line) == Success(ParseRule(p, line, sep))
  {
  }

  /** Every command belongs to a rule: none opens the list and none directly follows an assignment. */
  ghost predicate CommandsFollowRules(asts: seq<Node>)
  {
    (|asts| > 0 ==> !asts[0].Command?) &&
    (forall j :: 0 < j < |asts| && asts[j].Command? ==> asts[j - 1].Rule? || asts[j - 1].Command?)
  }

  /**
   * The invariant the state machine keeps with the output list: the state
   * is NOT_AFTER_RULE exactly when nothing has been emitted yet or the last
   * node is an assignment, and every command belongs to a rule.
   */
  ghost predicate Consistent(p: Parser)
  {
    (p.state == NotAfterRule <==> |p.asts| == 0 || p.asts[|p.asts| - 1].Assign?) &&
    CommandsFollowRules(p.asts)
  }

  lemma InitialParserConsistent()
    ensures Consistent(InitialParser)
  {
  }

  /** Every successful `ParseLine` keeps the state machine consistent with the output. */
  lemma ParseLinePreservesConsistency(p: Parser, line: string)
    requires Consistent(p)
    ensures ParseLine(p, line).Success? ==> Consistent(ParseLine(p, line).value)
  {
    var r := ParseLine(p, line);
    if r.Success? && !IsBlank(line) {
      var q := r.value;
      var n := q.asts[|p.asts|];
      assert q.asts == p.asts + [n];
      forall j | 0 < j < |q.asts| && q.asts[j].Command?
        ensures q.asts[j - 1].Rule? || q.asts[j - 1].Command?
      {
        if j < |p.asts| {
          assert q.asts[j - 1] == p.asts[j - 1] && q.asts[j] == p.asts[j];
        } else {
          assert q.asts[j - 1] == p.asts[|p.asts| - 1];
        }
      }
    }
  }
}
