/** What the evaluator promises: per-construct semantics, fault and return
    propagation, which bindings an evaluation may touch, and independence
    from left-over fuel. */
module EvaluatorFacts {
  import opened Wrappers
  import opened Values
  import opened Evaluator

  // ----- per-construct semantics -----

  /** An identifier reads the store and never changes it. */
  lemma IdentifierLookup(fp: FloatOps, x: string, st: Store, fuel: nat)
    ensures x in st ==> Eval(fp, Identifier(x), st, fuel) == Some(Run(Value(st[x]), st))
    ensures x !in st ==> Eval(fp, Identifier(x), st, fuel) == Some(Run(Fault(UndefinedIdentifier), st))
  {
  }

  /** An assignment binds the value of a finished (`Value` or
      `ReturnBlockInfo`) right-hand side and yields it as a plain `Value`;
      a faulting right-hand side is returned as it is and nothing is bound. */
  lemma AssignSemantics(fp: FloatOps, x: string, e: Node, st: Store, fuel: nat)
    requires Eval(fp, e, st, fuel).Some?
    ensures var re := Eval(fp, e, st, fuel).value;
      Eval(fp, Assign(x, e), st, fuel) ==
        if re.res.Fault? then Some(re) else Some(Run(Value(re.res.v), re.mem[x := re.res.v]))
  {
  }

  /** A `Return` turns a value into an early return and passes anything
      else through unchanged. */
  lemma ReturnSemantics(fp: FloatOps, e: Node, st: Store, fuel: nat)
    requires Eval(fp, e, st, fuel).Some?
    ensures var re := Eval(fp, e, st, fuel).value;
      Eval(fp, Return(e), st, fuel) ==
        if re.res.Value? then Some(Run(ReturnBlockInfo(re.res.v), re.mem)) else Some(re)
  {
  }

  /** `If` runs the then-branch on `true` and the else-branch on `false`;
      a false condition with no else branch yields `Void`. A condition that
      is not a `Bool` value faults (a faulting condition keeps its own
      message). */
  lemma IfSemantics(fp: FloatOps, c: Node, t: Node, e: Option<Node>, st: Store, fuel: nat)
    requires Eval(fp, c, st, fuel).Some?
    ensures var rc := Eval(fp, c, st, fuel).value;
      && (rc.res.Fault? ==> Eval(fp, If(c, t, e), st, fuel) == Some(rc))
      && (!rc.res.Fault? && !(rc.res.Value? && rc.res.v.Bool?) ==>
            Eval(fp, If(c, t, e), st, fuel) == Some(Run(Fault(IfNotBool), rc.mem)))
      && (rc.res == Value(Bool(true)) ==> Eval(fp, If(c, t, e), st, fuel) == Eval(fp, t, rc.mem, fuel))
      && (rc.res == Value(Bool(false)) && e.Some? ==>
            Eval(fp, If(c, t, e), st, fuel) == Eval(fp, e.value, rc.mem, fuel))
      && (rc.res == Value(Bool(false)) && e.None? ==>
            Eval(fp, If(c, t, e), st, fuel) == Some(Run(Value(Void), rc.mem)))
  {
  }

  /** How `While` leaves through its condition: a false condition ends the
      loop with `Void`, a faulting one passes the fault on, and any other
      outcome faults as a non-boolean condition. */
  lemma WhileConditionExit(fp: FloatOps, c: Node, b: Node, st: Store, fuel: nat)
    requires fuel > 0 && Eval(fp, c, st, fuel - 1).Some?
    requires Eval(fp, c, st, fuel - 1).value.res != Value(Bool(true))
    ensures var rc := Eval(fp, c, st, fuel - 1).value;
      RunWhile(fp, c, b, st, fuel) ==
        if rc.res == Value(Bool(false)) then Some(Run(Value(Void), rc.mem))
        else if rc.res.Fault? then Some(rc)
        else Some(Run(Fault(WhileNotBool), rc.mem))
  {
    var rc := Eval(fp, c, st, fuel - 1).value;
    assert Eval(fp, c, st, fuel - 1) == Some(rc);
    if rc.res == Value(Bool(false)) {
      assert RunWhile(fp, c, b, st, fuel) == Some(Run(Value(Void), rc.mem));
    } else if rc.res.Fault? {
      assert RunWhile(fp, c, b, st, fuel) == Some(rc);
    } else {
      assert !(rc.res.Value? && rc.res.v.Bool?);
      assert RunWhile(fp, c, b, st, fuel) == Some(Run(Fault(WhileNotBool), rc.mem));
    }
  }

  /** A true condition runs the body; an early return or a fault from the
      body leaves the loop at once, carrying the body's outcome unchanged,
      and a plain value goes round again. */
  lemma WhileBodyStep(fp: FloatOps, c: Node, b: Node, st: Store, fuel: nat)
    requires fuel > 0 && Eval(fp, c, st, fuel - 1).Some?
    requires Eval(fp, c, st, fuel - 1).value.res == Value(Bool(true))
    requires Eval(fp, b, Eval(fp, c, st, fuel - 1).value.mem, fuel - 1).Some?
    ensures var rb := Eval(fp, b, Eval(fp, c, st, fuel - 1).value.mem, fuel - 1).value;
      RunWhile(fp, c, b, st, fuel) ==
        if rb.res.Value? then RunWhile(fp, c, b, rb.mem, fuel - 1) else Some(rb)
  {
  }

  /** A loop that finishes yields `Void`, an early return or a fault: the
      value of its last body run never escapes. */
  lemma {:induction false} WhileOutcome(fp: FloatOps, c: Node, b: Node, st: Store, fuel: nat)
    requires RunWhile(fp, c, b, st, fuel).Some?
    ensures var r := RunWhile(fp, c, b, st, fuel).value.res;
      r == Value(Void) || r.ReturnBlockInfo? || r.Fault?
    decreases fuel
  {
    var rc := Eval(fp, c, st, fuel - 1).value;
    if rc.res == Value(Bool(true)) {
      var rb := Eval(fp, b, rc.mem, fuel - 1).value;
      if rb.res.Value? {
        WhileOutcome(fp, c, b, rb.mem, fuel - 1);
      }
    }
  }

  // ----- blocks -----

  /** A block runs its children in order: once a prefix stops with an early
      return or a fault, later children are never evaluated; otherwise the
      rest continues from the prefix's store and last value. */
  lemma {:induction false} EvalSeqAppend(fp: FloatOps, ns1: seq<Node>, ns2: seq<Node>, st: Store, fuel: nat, last: RelType)
    requires EvalSeq(fp, ns1, st, fuel, last).Some?
    ensures var r := EvalSeq(fp, ns1, st, fuel, last).value;
      EvalSeq(fp, ns1 + ns2, st, fuel, last) ==
        if r.res.Value? then EvalSeq(fp, ns2, r.mem, fuel, r.res.v) else Some(r)
    decreases |ns1|
  {
    if ns1 == [] {
      assert ns1 + ns2 == ns2;
    } else {
      assert (ns1 + ns2)[0] == ns1[0];
      assert (ns1 + ns2)[1..] == ns1[1..] + ns2;
      var r0 := Eval(fp, ns1[0], st, fuel).value;
      if r0.res.Value? {
        EvalSeqAppend(fp, ns1[1..], ns2, r0.mem, fuel, r0.res.v);
      }
    }
  }

  /** When every earlier child of a block finishes normally, the block's
      outcome is exactly that of its last child. */
  lemma BlockLastChild(fp: FloatOps, ns: seq<Node>, x: Node, st: Store, fuel: nat)
    requires EvalSeq(fp, ns, st, fuel, Void).Some?
    requires EvalSeq(fp, ns, st, fuel, Void).value.res.Value?
    ensures Eval(fp, Block(ns + [x]), st, fuel) ==
      Eval(fp, x, EvalSeq(fp, ns, st, fuel, Void).value.mem, fuel)
  {
    var r := EvalSeq(fp, ns, st, fuel, Void).value;
    EvalSeqAppend(fp, ns, [x], st, fuel, Void);
    assert [x][1..] == [];
  }

  /** An empty block yields `Void` and leaves the store alone. */
  lemma EmptyBlock(fp: FloatOps, st: Store, fuel: nat)
    ensures Eval(fp, Block([]), st, fuel) == Some(Run(Value(Void), st))
  {
  }

  // ----- store effects -----

  predicate IsBinary(n: Node) {
    n.Add? || n.Sub? || n.Mul? || n.Div? || n.Eq? || n.Lt?
  }

  /** The names a node may bind: the targets of its assignments. */
  function Assigned(n: Node): set<string>
    decreases n, 1
  {
    match n
    case Assign(x, e) => {x} + Assigned(e)
    case Add(l, r) => Assigned(l) + Assigned(r)
    case Sub(l, r) => Assigned(l) + Assigned(r)
    case Mul(l, r) => Assigned(l) + Assigned(r)
    case Div(l, r) => Assigned(l) + Assigned(r)
    case Eq(l, r) => Assigned(l) + Assigned(r)
    case Lt(l, r) => Assigned(l) + Assigned(r)
    case If(c, t, e) => Assigned(c) + Assigned(t) + (if e.Some? then Assigned(e.value) else {})
    case While(c, b) => Assigned(c) + Assigned(b)
    case Block(ns) => AssignedSeq(ns)
    case Return(e) => Assigned(e)
    case _ => {}
  }

  function AssignedSeq(ns: seq<Node>): set<string>
    decreases ns, 0
  {
    if ns == [] then {} else Assigned(ns[0]) + AssignedSeq(ns[1..])
  }

  /** `after` differs from `before` only at `names`, and never loses a
      binding. */
  ghost predicate Framed(before: Store, after: Store, names: set<string>) {
    && before.Keys <= after.Keys
    && after.Keys <= before.Keys + names
    && forall k :: k in before && k !in names ==> after[k] == before[k]
  }

  /** Evaluation only writes the store through `Assign`: bindings are never
      removed, and names the node does not assign keep their values. */
  lemma {:induction false} EvalFrame(fp: FloatOps, n: Node, st: Store, fuel: nat)
    requires Eval(fp, n, st, fuel).Some?
    ensures Framed(st, Eval(fp, n, st, fuel).value.mem, Assigned(n))
    decreases fuel, 1, n, 1
  {
    match n
    case Assign(x, e) =>
      EvalFrame(fp, e, st, fuel);
    case Add(_, _) =>
      BinaryFrame(fp, n, st, fuel);
    case Sub(_, _) =>
      BinaryFrame(fp, n, st, fuel);
    case Mul(_, _) =>
      BinaryFrame(fp, n, st, fuel);
    case Div(_, _) =>
      BinaryFrame(fp, n, st, fuel);
    case Eq(_, _) =>
      BinaryFrame(fp, n, st, fuel);
    case Lt(_, _) =>
      BinaryFrame(fp, n, st, fuel);
    case If(c, t, e) =>
      EvalFrame(fp, c, st, fuel);
      var rc := Eval(fp, c, st, fuel).value;
      if rc.res == Value(Bool(true)) {
        EvalFrame(fp, t, rc.mem, fuel);
      } else if rc.res == Value(Bool(false)) && e.Some? {
        EvalFrame(fp, e.value, rc.mem, fuel);
      }
    case While(c, b) =>
      RunWhileFrame(fp, c, b, st, fuel);
    case Block(ns) =>
      EvalSeqFrame(fp, ns, st, fuel, Void);
    case Return(e) =>
      EvalFrame(fp, e, st, fuel);
    case _ =>
  }

  /** Both operands of a binary node, evaluated left then right. */
  lemma {:induction false} BinaryFrame(fp: FloatOps, n: Node, st: Store, fuel: nat)
    requires IsBinary(n)
    requires Eval(fp, n.l, st, fuel).Some?
    ensures var rl := Eval(fp, n.l, st, fuel).value;
      Eval(fp, n.r, rl.mem, fuel).Some? ==>
        Framed(st, Eval(fp, n.r, rl.mem, fuel).value.mem, Assigned(n.l) + Assigned(n.r))
    decreases fuel, 1, n, 0
  {
    var rl := Eval(fp, n.l, st, fuel).value;
    EvalFrame(fp, n.l, st, fuel);
    if Eval(fp, n.r, rl.mem, fuel).Some? {
      EvalFrame(fp, n.r, rl.mem, fuel);
    }
  }

  lemma {:induction false} RunWhileFrame(fp: FloatOps, c: Node, b: Node, st: Store, fuel: nat)
    requires RunWhile(fp, c, b, st, fuel).Some?
    ensures Framed(st, RunWhile(fp, c, b, st, fuel).value.mem, Assigned(c) + Assigned(b))
    decreases fuel, 0, While(c, b), 0
  {
    EvalFrame(fp, c, st, fuel - 1);
    var rc := Eval(fp, c, st, fuel - 1).value;
    if rc.res == Value(Bool(true)) {
      EvalFrame(fp, b, rc.mem, fuel - 1);
      var rb := Eval(fp, b, rc.mem, fuel - 1).value;
      if rb.res.Value? {
        RunWhileFrame(fp, c, b, rb.mem, fuel - 1);
      }
    }
  }

  lemma {:induction false} EvalSeqFrame(fp: FloatOps, ns: seq<Node>, st: Store, fuel: nat, last: RelType)
    requires EvalSeq(fp, ns, st, fuel, last).Some?
    ensures Framed(st, EvalSeq(fp, ns, st, fuel, last).value.mem, AssignedSeq(ns))
    decreases fuel, 1, ns, 0
  {
    if ns != [] {
      EvalFrame(fp, ns[0], st, fuel);
      var r := Eval(fp, ns[0], st, fuel).value;
      if r.res.Value? {
        EvalSeqFrame(fp, ns[1..], r.mem, fuel, r.res.v);
      }
    }
  }

  /** A node without assignments leaves the store exactly as it found it. */
  lemma PureNodeKeepsStore(fp: FloatOps, n: Node, st: Store, fuel: nat)
    requires Eval(fp, n, st, fuel).Some?
    requires Assigned(n) == {}
    ensures Eval(fp, n, st, fuel).value.mem == st
  {
    EvalFrame(fp, n, st, fuel);
  }

  // ----- fuel -----

  /** A run that finishes with some fuel finishes identically with more:
      the fuel bound is an artefact of the model, not a behaviour. */
  lemma {:induction false} EvalFuelMonotone(fp: FloatOps, n: Node, st: Store, fuel: nat, more: nat)
    requires Eval(fp, n, st, fuel).Some?
    requires fuel <= more
    ensures Eval(fp, n, st, more) == Eval(fp, n, st, fuel)
    decreases fuel, 1, n, 1
  {
    match n
    case Assign(x, e) =>
      EvalFuelMonotone(fp, e, st, fuel, more);
    case Add(_, _) =>
      BinaryFuelMonotone(fp, n, st, fuel, more);
    case Sub(_, _) =>
      BinaryFuelMonotone(fp, n, st, fuel, more);
    case Mul(_, _) =>
      BinaryFuelMonotone(fp, n, st, fuel, more);
    case Div(_, _) =>
      BinaryFuelMonotone(fp, n, st, fuel, more);
    case Eq(_, _) =>
      BinaryFuelMonotone(fp, n, st, fuel, more);
    case Lt(_, _) =>
      BinaryFuelMonotone(fp, n, st, fuel, more);
    case If(c, t, e) =>
      EvalFuelMonotone(fp, c, st, fuel, more);
      var rc := Eval(fp, c, st, fuel).value;
      if rc.res == Value(Bool(true)) {
        EvalFuelMonotone(fp, t, rc.mem, fuel, more);
      } else if rc.res == Value(Bool(false)) && e.Some? {
        EvalFuelMonotone(fp, e.value, rc.mem, fuel, more);
      }
    case While(c, b) =>
      RunWhileFuelMonotone(fp, c, b, st, fuel, more);
    case Block(ns) =>
      EvalSeqFuelMonotone(fp, ns, st, fuel, more, Void);
    case Return(e) =>
      EvalFuelMonotone(fp, e, st, fuel, more);
    case _ =>
  }

  lemma {:induction false} BinaryFuelMonotone(fp: FloatOps, n: Node, st: Store, fuel: nat, more: nat)
    requires IsBinary(n)
    requires Eval(fp, n.l, st, fuel).Some?
    requires fuel <= more
    ensures Eval(fp, n.l, st, more) == Eval(fp, n.l, st, fuel)
    ensures var rl := Eval(fp, n.l, st, fuel).value;
      Eval(fp, n.r, rl.mem, fuel).Some? ==> Eval(fp, n.r, rl.mem, more) == Eval(fp, n.r, rl.mem, fuel)
    decreases fuel, 1, n, 0
  {
    EvalFuelMonotone(fp, n.l, st, fuel, more);
    var rl := Eval(fp, n.l, st, fuel).value;
    if Eval(fp, n.r, rl.mem, fuel).Some? {
      EvalFuelMonotone(fp, n.r, rl.mem, fuel, more);
    }
  }

  lemma {:induction false} RunWhileFuelMonotone(fp: FloatOps, c: Node, b: Node, st: Store, fuel: nat, more: nat)
    requires RunWhile(fp, c, b, st, fuel).Some?
    requires fuel <= more
    ensures RunWhile(fp, c, b, st, more) == RunWhile(fp, c, b, st, fuel)
    decreases fuel, 0, While(c, b), 0
  {
    EvalFuelMonotone(fp, c, st, fuel - 1, more - 1);
    var rc := Eval(fp, c, st, fuel - 1).value;
    if rc.res == Value(Bool(true)) {
      EvalFuelMonotone(fp, b, rc.mem, fuel - 1, more - 1);
      var rb := Eval(fp, b, rc.mem, fuel - 1).value;
      if rb.res.Value? {
        RunWhileFuelMonotone(fp, c, b, rb.mem, fuel - 1, more - 1);
      }
      WhileBodyStep(fp, c, b, st, fuel);
      WhileBodyStep(fp, c, b, st, more);
    } else {
      WhileConditionExit(fp, c, b, st, fuel);
      WhileConditionExit(fp, c, b, st, more);
    }
  }

  lemma {:induction false} EvalSeqFuelMonotone(fp: FloatOps, ns: seq<Node>, st: Store, fuel: nat, more: nat, last: RelType)
    requires EvalSeq(fp, ns, st, fuel, last).Some?
    requires fuel <= more
    ensures EvalSeq(fp, ns, st, more, last) == EvalSeq(fp, ns, st, fuel, last)
    decreases fuel, 1, ns, 0
  {
    if ns != [] {
      EvalFuelMonotone(fp, ns[0], st, fuel, more);
      var r := Eval(fp, ns[0], st, fuel).value;
      if r.res.Value? {
        EvalSeqFuelMonotone(fp, ns[1..], r.mem, fuel, more, r.res.v);
      }
    }
  }
}
