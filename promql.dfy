/** The part of the PromQL abstract syntax tree that the source-id extractor
    sees. The parser that produces it is a foreign library and is not modelled:
    queries reach the extractor already parsed into a `Node`. */
module PromQL {

  datatype Option<+T> = None | Some(value: T)

  /** The four kinds of label matcher of the Prometheus `labels` package. */
  datatype MatchType = MatchEqual | MatchNotEqual | MatchRegexp | MatchNotRegexp

  /** A label matcher `name <op> "value"`, as in `{source_id="app-1"}`. */
  datatype Matcher = Matcher(name: string, kind: MatchType, value: string)

  /** PromQL expression nodes. Durations and offsets are in milliseconds;
      number literals are kept as reals (the extractor never looks at them).
      A `Call`'s arguments form an `Expressions` node of their own, as in the
      library, so a walk visits that list node before the arguments. */
  datatype Node =
    | VectorSelector(name: string, offsetMs: int, labelMatchers: seq<Matcher>)
    | MatrixSelector(name: string, rangeMs: int, offsetMs: int, labelMatchers: seq<Matcher>)
    | AggregateExpr(op: string, body: Option<Node>, param: Option<Node>, grouping: seq<string>, without: bool)
    | BinaryExpr(op: string, lhs: Node, rhs: Node)
    | Call(func: string, args: Node)
    | Expressions(exprs: seq<Node>)
    | SubqueryExpr(expr: Node, rangeMs: int, offsetMs: int, stepMs: int)
    | ParenExpr(expr: Node)
    | UnaryExpr(op: string, expr: Node)
    | NumberLiteral(number: real)
    | StringLiteral(text: string)
  {
    /** The two node kinds that select series and carry label matchers. */
    predicate IsSelector() {
      VectorSelector? || MatrixSelector?
    }
  }

  /** The direct sub-expressions of a node, in the order a walk visits them.
      Selectors and literals are leaves; an aggregation lists its expression
      before its parameter and leaves out whichever is absent. */
  function Children(n: Node): (r: seq<Node>)
    ensures forall c | c in r :: c < n
    ensures n.IsSelector() ==> r == []
  {
    match n
    case VectorSelector(_, _, _) => []
    case MatrixSelector(_, _, _, _) => []
    case AggregateExpr(_, body, param, _, _) =>
      (if body.Some? then [body.value] else []) + (if param.Some? then [param.value] else [])
    case BinaryExpr(_, lhs, rhs) => [lhs, rhs]
    case Call(_, args) => [args]
    case Expressions(exprs) => exprs
    case SubqueryExpr(expr, _, _, _) => [expr]
    case ParenExpr(expr) => [expr]
    case UnaryExpr(_, expr) => [expr]
    case NumberLiteral(_) => []
    case StringLiteral(_) => []
  }
}
