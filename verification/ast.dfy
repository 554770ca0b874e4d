/** The AST nodes the parser emits and the per-parse state it carries between lines. */
module Ast {
  import opened Wrappers

  /**
   * The result of the expression sub-parser, kept opaque: it records the
   * span it was built from and whether it was parsed in command context.
   */
  datatype Expr = Expr(raw: string, isCommand: bool)

  /** `=`, `:=`, `+=` and `?=`. */
  datatype AssignOp = Eq | ColonEq | PlusEq | QuestionEq

  /** Directive prefix of an assignment; this parser only ever produces `NoDirective`. */
  datatype AssignDirective = NoDirective

  /** The terminator a rule has when neither `=` nor `;` follows its separator. */
  const NoTerminator: char := '\0'

  datatype Node =
    | Rule(lineno: nat, expr: Expr, term: char, afterTerm: Option<Expr>)
    | Assign(lineno: nat, lhs: Expr, rhs: Expr, op: AssignOp, directive: AssignDirective)
    | Command(expr: Expr)

  /** Whether a tab-prefixed line may be read as a recipe command. */
  datatype ParserState = NotAfterRule | AfterRule | MaybeAfterRule

  /** Mutable parser fields: the state machine, the current line number and the output list. */
  datatype Parser = Parser(state: ParserState, lineno: nat, asts: seq<Node>)

  /** The `Error` call, which is fatal: file position and message. */
  datatype ParseError = ParseError(lineno: nat, msg: string)

  const EmptyVariableName: string := "*** empty variable name ***"

  /** A freshly constructed parser: state NOT_AFTER_RULE, line 0, nothing emitted. */
  const InitialParser: Parser := Parser(NotAfterRule, 0, [])
}
