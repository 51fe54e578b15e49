/** The tree-walking evaluator of src/executor.rs (`ExecutionEngine::evaluate`
    and `do_math`) as a function that threads the variable store.

    The source's `While` is an unbounded `loop`; here every entry into a loop
    carries `fuel`, the number of iterations it may still start, and `None`
    means the fuel ran out before the program finished. Lemma
    `EvalFuelMonotone` shows that a finished run never depends on how much
    fuel was left over. */
module Evaluator {
  import opened Wrappers
  import opened Values

  /** The node kinds `evaluate` matches. */
  datatype Node =
    | IntLiteral(i: int)
    | FloatLiteral(f: F64)
    | BoolLiteral(b: bool)
    | StringLiteral(s: string)
    | Identifier(name: string)
    | Assign(target: string, rhs: Node)
    | Add(l: Node, r: Node)
    | Sub(l: Node, r: Node)
    | Mul(l: Node, r: Node)
    | Div(l: Node, r: Node)
    | Eq(l: Node, r: Node)
    | Lt(l: Node, r: Node)
    | If(cond: Node, thenBr: Node, elseBr: Option<Node>)
    | While(cond: Node, body: Node)
    | Block(nodes: seq<Node>)
    | Return(operand: Node)

  /** The engine's `memory`. */
  type Store = map<string, RelType>

  /** One finished evaluation: its outcome and the store afterwards. */
  datatype Run = Run(res: ExecResult, mem: Store)

  const UndefinedIdentifier := "Undefined identifier"
  const IfNotBool := "If condition not a boolean"
  const WhileNotBool := "While condition not a boolean"

  /** `evaluate`: the outcome of `n` and the store it leaves. */
  function Eval(fp: FloatOps, n: Node, st: Store, fuel: nat): Option<Run>
    decreases fuel, 1, n, 1
  {
    match n
    case IntLiteral(i) => Some(Run(Value(Int(i)), st))
    case FloatLiteral(f) => Some(Run(Value(Float(f)), st))
    case BoolLiteral(b) => Some(Run(Value(Bool(b)), st))
    case StringLiteral(s) => Some(Run(Value(Str(s)), st))
    case Identifier(x) =>
      if x in st then Some(Run(Value(st[x]), st))
      else Some(Run(Fault(UndefinedIdentifier), st))
    case Assign(x, e) =>
      var re :- Eval(fp, e, st, fuel);
      (match re.res
       case Value(v) => Some(Run(Value(v), re.mem[x := v]))
       case ReturnBlockInfo(v) => Some(Run(Value(v), re.mem[x := v]))
       case Fault(_) => Some(re))
    case Add(_, _) => EvalMath(fp, Plus, n, st, fuel)
    case Sub(_, _) => EvalMath(fp, Minus, n, st, fuel)
    case Mul(_, _) => EvalMath(fp, Times, n, st, fuel)
    case Div(_, _) => EvalMath(fp, Divide, n, st, fuel)
    case Eq(l, r) =>
      var rl :- Eval(fp, l, st, fuel);
      var rr :- Eval(fp, r, rl.mem, fuel);
      Some(Run(EqOutcome(rl.res, rr.res), rr.mem))
    case Lt(l, r) =>
      var rl :- Eval(fp, l, st, fuel);
      var rr :- Eval(fp, r, rl.mem, fuel);
      Some(Run(LtOutcome(rl.res, rr.res), rr.mem))
    case If(c, t, e) =>
      var rc :- Eval(fp, c, st, fuel);
      (match rc.res
       case Value(Bool(true)) => Eval(fp, t, rc.mem, fuel)
       case Value(Bool(false)) =>
         if e.Some? then Eval(fp, e.value, rc.mem, fuel) else Some(Run(Value(Void), rc.mem))
       case Fault(_) => Some(rc)
       case _ => Some(Run(Fault(IfNotBool), rc.mem)))
    case While(c, b) => RunWhile(fp, c, b, st, fuel)
    case Block(ns) => EvalSeq(fp, ns, st, fuel, Void)
    case Return(e) =>
      var re :- Eval(fp, e, st, fuel);
      (match re.res
       case Value(v) => Some(Run(ReturnBlockInfo(v), re.mem))
       case _ => Some(re))
  }

  /** `do_math`: both operands are evaluated, left first, then combined. */
  function EvalMath(fp: FloatOps, op: MathOp, n: Node, st: Store, fuel: nat): Option<Run>
    requires n.Add? || n.Sub? || n.Mul? || n.Div?
    decreases fuel, 1, n, 0
  {
    var rl :- Eval(fp, n.l, st, fuel);
    var rr :- Eval(fp, n.r, rl.mem, fuel);
    Some(Run(DoMath(fp, op, rl.res, rr.res), rr.mem))
  }

  /** The `loop` of `While`: each iteration re-evaluates the condition. */
  function RunWhile(fp: FloatOps, c: Node, b: Node, st: Store, fuel: nat): Option<Run>
    decreases fuel, 0, While(c, b), 0
  {
    if fuel == 0 then None
    else
      var rc :- Eval(fp, c, st, fuel - 1);
      match rc.res
      case Value(Bool(true)) =>
        var rb :- Eval(fp, b, rc.mem, fuel - 1);
        (match rb.res
         case Value(_) => RunWhile(fp, c, b, rb.mem, fuel - 1)
         case _ => Some(rb))
      case Value(Bool(false)) => Some(Run(Value(Void), rc.mem))
      case Fault(_) => Some(rc)
      case _ => Some(Run(Fault(WhileNotBool), rc.mem))
  }

  /** The `for` loop of `Block`; `last` is the value of the previous child. */
  function EvalSeq(fp: FloatOps, ns: seq<Node>, st: Store, fuel: nat, last: RelType): Option<Run>
    decreases fuel, 1, ns, 0
  {
    if ns == [] then Some(Run(Value(last), st))
    else
      var r :- Eval(fp, ns[0], st, fuel);
      match r.res
      case Value(v) => EvalSeq(fp, ns[1..], r.mem, fuel, v)
      case _ => Some(r)
  }
}
