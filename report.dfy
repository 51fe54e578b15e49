/** `ExecutionEngine::execute` (src/executor.rs): clear the store, evaluate
    the root, and render one report line, with the bindings listed in
    lexicographic order of their names. */
module Report {
  import opened Wrappers
  import opened Values
  import opened Evaluator

  // ----- lexicographic order on names -----

  /** `String`'s `Ord`: byte-wise lexicographic on UTF-8, which is the same
      as lexicographic order on code points. */
  predicate StrLess(a: string, b: string): (lt: bool)
    ensures lt ==> |b| > 0
    ensures |a| < |b| && a == b[..|a|] ==> lt
    decreases |a|
  {
    if |b| == 0 then false
    else if |a| == 0 then true
    else if a[0] != b[0] then a[0] < b[0]
    else StrLess(a[1..], b[1..])
  }

  lemma {:induction false} StrLessIrreflexive(a: string)
    ensures !StrLess(a, a)
    decreases |a|
  {
    if |a| > 0 {
      StrLessIrreflexive(a[1..]);
    }
  }

  lemma {:induction false} StrLessTransitive(a: string, b: string, c: string)
    requires StrLess(a, b) && StrLess(b, c)
    ensures StrLess(a, c)
    decreases |a|
  {
    if |a| > 0 && a[0] == b[0] && b[0] == c[0] {
      StrLessTransitive(a[1..], b[1..], c[1..]);
    }
  }

  /** Distinct names are always ordered one way, and only one way. */
  lemma {:induction false} StrLessTotal(a: string, b: string)
    ensures a != b ==> StrLess(a, b) || StrLess(b, a)
    ensures !(StrLess(a, b) && StrLess(b, a))
    decreases |a|
  {
    if |a| > 0 && |b| > 0 && a[0] == b[0] {
      StrLessTotal(a[1..], b[1..]);
      if a != b {
        assert a == [a[0]] + a[1..] && b == [b[0]] + b[1..];
      }
    }
  }

  ghost predicate StrictlySorted(ks: seq<string>) {
    forall i, j :: 0 <= i < j < |ks| ==> StrLess(ks[i], ks[j])
  }

  /** Places `k` into a sorted list of names that lacks it. */
  function Insert(ks: seq<string>, k: string): (r: seq<string>)
    requires StrictlySorted(ks) && k !in ks
    ensures StrictlySorted(r)
    ensures |r| == |ks| + 1
    ensures forall x :: x in r <==> x in ks || x == k
  {
    if ks == [] then [k]
    else if StrLess(k, ks[0]) then
      assert forall j :: 0 < j < |ks| ==> StrLess(k, ks[j]) by {
        forall j | 0 < j < |ks| ensures StrLess(k, ks[j]) {
          StrLessTransitive(k, ks[0], ks[j]);
        }
      }
      [k] + ks
    else
      StrLessTotal(k, ks[0]);
      var tail := Insert(ks[1..], k);
      assert forall x :: x in tail ==> StrLess(ks[0], x);
      [ks[0]] + tail
  }

  /** The sorted list of a set of names: it exists and it is unique
      (`SortedUnique`), so the report never depends on hash-map order. */
  ghost function SortedKeysOf(keys: set<string>): (ks: seq<string>)
    ensures StrictlySorted(ks)
    ensures forall x :: x in ks <==> x in keys
    ensures |ks| == |keys|
    decreases keys
  {
    if keys == {} then []
    else
      var k :| k in keys;
      Insert(SortedKeysOf(keys - {k}), k)
  }

  /** Supplies the `s[0] in s` trigger that `SortedUnique` needs for its
      empty-`a`, non-empty-`b` case. */
  lemma HasFirst(s: seq<string>)
    requires |s| > 0
    ensures s[0] in s
  {
  }

  /** Two strictly sorted lists with the same names are the same list. */
  lemma {:induction false} SortedUnique(a: seq<string>, b: seq<string>)
    requires StrictlySorted(a) && StrictlySorted(b)
    requires forall x :: x in a <==> x in b
    ensures a == b
    decreases |a|
  {
    if a == [] {
      if |b| > 0 {
        HasFirst(b);
      }
    } else {
      assert b != [] by { assert a[0] in b; }
      if a[0] != b[0] {
        assert a[0] in b && b[0] in a;
        var i :| 0 <= i < |a| && a[i] == b[0];
        var j :| 0 <= j < |b| && b[j] == a[0];
        assert StrLess(a[0], b[0]);
        assert StrLess(b[0], a[0]);
        StrLessTotal(a[0], b[0]);
        assert false;
      }
      forall x ensures x in a[1..] <==> x in b[1..] {
        if x in a[1..] {
          var i :| 1 <= i < |a| && a[i] == x;
          StrLessIrreflexive(x);
          assert x != a[0] && x in b;
          var j :| 0 <= j < |b| && b[j] == x;
          assert j != 0 && b[1..][j - 1] == x;
        }
        if x in b[1..] {
          var j :| 1 <= j < |b| && b[j] == x;
          StrLessIrreflexive(x);
          assert x != b[0] && x in a;
          var i :| 0 <= i < |a| && a[i] == x;
          assert i != 0 && a[1..][i - 1] == x;
        }
      }
      SortedUnique(a[1..], b[1..]);
    }
  }

  /** `keys.sort()` over the store's keys, collected in whatever order the
      map yields them. */
  method SortKeys(m: Store) returns (ks: seq<string>)
    ensures ks == SortedKeysOf(m.Keys)
  {
    ks := [];
    var rest := m.Keys;
    while rest != {}
      invariant rest <= m.Keys
      invariant StrictlySorted(ks)
      invariant forall x :: x in ks <==> x in m.Keys && x !in rest
      decreases rest
    {
      var k :| k in rest;
      ks := Insert(ks, k);
      rest := rest - {k};
    }
    SortedUnique(ks, SortedKeysOf(m.Keys));
  }

  // ----- decimal integers -----

  function DigitChar(d: nat): char
    requires d < 10
  {
    "0123456789"[d]
  }

  /** `i64::to_string` without the sign: decimal digits with no leading
      zero. */
  function NatToString(n: nat): (s: string)
    ensures |s| >= 1
    ensures forall i :: 0 <= i < |s| ==> IsDigit(s[i])
    ensures s[0] == '0' <==> n == 0
    decreases n
  {
    if n < 10 then [DigitChar(n)] else NatToString(n / 10) + [DigitChar(n % 10)]
  }

  /** `i64::to_string`: a minus sign exactly for negative numbers, then
      the digits of the magnitude. */
  function IntToString(i: int): (s: string)
    ensures |s| >= 2 || (|s| == 1 && IsDigit(s[0]))
    ensures s[0] == '-' <==> i < 0
    ensures i < 0 ==> s[1..] == NatToString(-i)
    ensures i >= 0 ==> s == NatToString(i)
  {
    if i < 0 then "-" + NatToString(-i) else NatToString(i)
  }

  predicate IsDigit(c: char) {
    '0' <= c <= '9'
  }

  /** Reads a string of decimal digits back as a number. */
  function DecimalValue(s: string): int
    requires forall i :: 0 <= i < |s| ==> IsDigit(s[i])
  {
    if s == [] then 0
    else DecimalValue(s[..|s| - 1]) * 10 + (s[|s| - 1] as int - '0' as int)
  }

  /** The decimal text of a number is non-empty, all digits, and reads back
      as the number. */
  lemma {:induction false} NatToStringRoundTrip(n: nat)
    ensures DecimalValue(NatToString(n)) == n
    decreases n
  {
    var s := NatToString(n);
    if n >= 10 {
      NatToStringRoundTrip(n / 10);
      assert s[..|s| - 1] == NatToString(n / 10);
      assert s[|s| - 1] == DigitChar(n % 10);
    }
  }

  // ----- rendering -----

  /** `bool::to_string`. */
  function BoolText(b: bool): (r: string)
    ensures r == "true" <==> b
    ensures r == "false" <==> !b
  {
    if b then "true" else "false"
  }

  predicate EndsWith(s: string, suffix: string) {
    |suffix| <= |s| && s[|s| - |suffix|..] == suffix
  }

  /** `Display for RelType`, used for the returned value: every value but
      `Void` is tagged with its Rust type. */
  function Display(fp: FloatOps, v: RelType): (r: string)
    ensures v.Int? ==> EndsWith(r, " (i64)") && r[..|r| - 6] == IntToString(v.i)
    ensures v.Float? ==> EndsWith(r, " (f64)")
    ensures v.Bool? ==> EndsWith(r, " (bool)") && (r[0] == 't' <==> v.b)
    ensures v.Str? ==> EndsWith(r, "\" (String)") && r[0] == '"'
    ensures v.Void? <==> r == "void"
  {
    match v
    case Int(i) => IntToString(i) + " (i64)"
    case Float(f) => fp.debug(f) + " (f64)"
    case Bool(b) => BoolText(b) + " (bool)"
    case Str(s) => "\"" + s + "\" (String)"
    case Void => "void"
  }

  /** One `name = value` entry of the memory listing as the source writes
      it: a `Void` binding reaches `unreachable!()` and panics (`None`). */
  function RenderBindingAsWritten(fp: FloatOps, k: string, v: RelType): (r: Option<string>)
    ensures r.None? <==> v.Void?
    ensures r.Some? ==> |k| + 3 <= |r.value| && r.value[..|k| + 3] == k + " = "
  {
    match v
    case Str(s) => Some(k + " = \"" + s + "\"")
    case Float(f) => Some(k + " = " + fp.debug(f))
    case Int(i) => Some(k + " = " + IntToString(i))
    case Bool(b) => Some(k + " = " + BoolText(b))
    case Void => None
  }

  /** One entry of the memory listing, with `Void` written `void` as its
      `Display` does; agrees with the source on every other variant. */
  function RenderBinding(fp: FloatOps, k: string, v: RelType): (r: string)
    ensures !v.Void? ==> RenderBindingAsWritten(fp, k, v) == Some(r)
    ensures |k| + 3 <= |r| && r[..|k| + 3] == k + " = "
  {
    match v
    case Str(s) => k + " = \"" + s + "\""
    case Float(f) => k + " = " + fp.debug(f)
    case Int(i) => k + " = " + IntToString(i)
    case Bool(b) => k + " = " + BoolText(b)
    case Void => k + " = void"
  }

  /** `join(", ")`: the parts in order, the first one leading. */
  function JoinComma(parts: seq<string>): (r: string)
    ensures parts == [] ==> r == ""
    ensures |parts| >= 1 ==> |parts[0]| <= |r| && r[..|parts[0]|] == parts[0]
    ensures |parts| >= 2 ==> |parts[0]| + 2 <= |r| && r[..|parts[0]| + 2] == parts[0] + ", "
  {
    if parts == [] then ""
    else if |parts| == 1 then parts[0]
    else parts[0] + ", " + JoinComma(parts[1..])
  }

  /** The bindings named by `ks`, rendered in that order and joined. */
  function MemoryListing(fp: FloatOps, mem: Store, ks: seq<string>): (r: string)
    requires forall k :: k in ks ==> k in mem
    ensures ks == [] ==> r == ""
    ensures |ks| >= 1 ==> |ks[0]| + 3 <= |r| && r[..|ks[0]| + 3] == ks[0] + " = "
  {
    JoinComma(seq(|ks|, i requires 0 <= i < |ks| => RenderBinding(fp, ks[i], mem[ks[i]])))
  }

  /** The report for a finished evaluation, with the memory listing
      written by `RenderBinding`: the source's report with a `Void` binding
      listed as `void` instead of panicking. */
  ghost function ReportText(fp: FloatOps, res: ExecResult, mem: Store): (r: string)
    ensures res.Fault? ==> r == "Fault: " + res.msg
    ensures !res.Fault? ==> |r| >= 8 && r[..8] == "Return: "
  {
    match res
    case Fault(m) => "Fault: " + m
    case _ =>
      var head := "Return: " + Display(fp, res.v);
      if |mem| == 0 then head else head + ", Memory: " + MemoryListing(fp, mem, SortedKeysOf(mem.Keys))
  }

  /** The entries of the memory listing as the source renders them, in
      the order of `ks`; `None` once one of them panics. */
  function EntriesAsWritten(fp: FloatOps, mem: Store, ks: seq<string>): (r: Option<seq<string>>)
    requires forall k :: k in ks ==> k in mem
    ensures r.Some? ==> |r.value| == |ks|
  {
    if ks == [] then Some([])
    else
      var first :- RenderBindingAsWritten(fp, ks[0], mem[ks[0]]);
      var rest :- EntriesAsWritten(fp, mem, ks[1..]);
      Some([first] + rest)
  }

  /** The report as the source renders it; `None` where it panics. */
  ghost function ReportTextAsWritten(fp: FloatOps, res: ExecResult, mem: Store): (r: Option<string>)
    ensures res.Fault? ==> r == Some("Fault: " + res.msg)
    ensures |mem| == 0 ==> r.Some?
  {
    match res
    case Fault(m) => Some("Fault: " + m)
    case _ =>
      var head := "Return: " + Display(fp, res.v);
      if |mem| == 0 then Some(head)
      else
        var entries :- EntriesAsWritten(fp, mem, SortedKeysOf(mem.Keys));
        Some(head + ", Memory: " + JoinComma(entries))
  }

  /** The source's entries fail exactly at a `Void` binding and otherwise
      are the entries `RenderBinding` writes. */
  lemma {:induction false} EntriesAsWrittenAgree(fp: FloatOps, mem: Store, ks: seq<string>)
    requires forall k :: k in ks ==> k in mem
    ensures EntriesAsWritten(fp, mem, ks).None? <==> exists i :: 0 <= i < |ks| && mem[ks[i]].Void?
    ensures EntriesAsWritten(fp, mem, ks).Some? ==>
      EntriesAsWritten(fp, mem, ks).value == seq(|ks|, i requires 0 <= i < |ks| => RenderBinding(fp, ks[i], mem[ks[i]]))
    decreases |ks|
  {
    if ks != [] {
      EntriesAsWrittenAgree(fp, mem, ks[1..]);
      if EntriesAsWritten(fp, mem, ks[1..]).None? {
        var i :| 0 <= i < |ks[1..]| && mem[ks[1..][i]].Void?;
        assert mem[ks[i + 1]].Void?;
      }
      if exists i :: 0 <= i < |ks| && mem[ks[i]].Void? {
        var i :| 0 <= i < |ks| && mem[ks[i]].Void?;
        if i > 0 {
          assert mem[ks[1..][i - 1]].Void?;
        }
      }
      if EntriesAsWritten(fp, mem, ks).Some? {
        var r := EntriesAsWritten(fp, mem, ks).value;
        var rest := EntriesAsWritten(fp, mem, ks[1..]).value;
        assert r == [RenderBinding(fp, ks[0], mem[ks[0]])] + rest;
        forall i | 0 <= i < |ks| ensures r[i] == RenderBinding(fp, ks[i], mem[ks[i]]) {
          if i > 0 {
            assert ks[1..][i - 1] == ks[i];
          }
        }
      }
    }
  }

  /** The report the source renders panics exactly when the run succeeds
      with some name bound to `Void`; otherwise it is `ReportText`. */
  lemma ReportAsWrittenPanicsOnVoid(fp: FloatOps, res: ExecResult, mem: Store)
    ensures ReportTextAsWritten(fp, res, mem).None? <==>
      !res.Fault? && exists k :: k in mem && mem[k].Void?
    ensures ReportTextAsWritten(fp, res, mem).Some? ==>
      ReportTextAsWritten(fp, res, mem).value == ReportText(fp, res, mem)
  {
    if !res.Fault? && |mem| != 0 {
      var ks := SortedKeysOf(mem.Keys);
      EntriesAsWrittenAgree(fp, mem, ks);
      if exists k :: k in mem && mem[k].Void? {
        var k :| k in mem && mem[k].Void?;
        assert k in ks;
        var i :| 0 <= i < |ks| && ks[i] == k;
      }
    }
    if !res.Fault? && |mem| == 0 {
      assert forall k :: k !in mem;
    }
  }

  /** What `execute` returns for a program, run from an empty store, with
      the corrected memory listing of `ReportText` (where a `Void` binding
      makes the source panic, this lists it as `void`); `None` when the
      evaluation runs out of fuel. */
  ghost function ExecuteReport(fp: FloatOps, root: Node, fuel: nat): (r: Option<string>)
    ensures r.None? <==> Eval(fp, root, map[], fuel).None?
  {
    match Eval(fp, root, map[], fuel)
    case None => None
    case Some(r) => Some(ReportText(fp, r.res, r.mem))
  }

  /** A fault is reported as its message alone, with no memory listing. */
  lemma FaultReport(fp: FloatOps, root: Node, fuel: nat)
    requires Eval(fp, root, map[], fuel).Some?
    requires Eval(fp, root, map[], fuel).value.res.Fault?
    ensures ExecuteReport(fp, root, fuel) == Some("Fault: " + Eval(fp, root, map[], fuel).value.res.msg)
  {
  }

  /** A success is reported as `Return: ` and the value, followed by the
      memory listing exactly when some name is bound; an early return is
      reported like a plain value. */
  lemma SuccessReport(fp: FloatOps, res: ExecResult, mem: Store)
    requires !res.Fault?
    ensures var text := ReportText(fp, res, mem);
      var head := "Return: " + Display(fp, res.v);
      && text[..|head|] == head
      && (|mem| == 0 <==> text == head)
  {
    var text := ReportText(fp, res, mem);
    var head := "Return: " + Display(fp, res.v);
    if |mem| != 0 {
      assert |text| > |head|;
    }
  }

  // ----- the engine -----

  class ExecutionEngine {
    var memory: Store

    constructor ()
      ensures memory == map[]
    {
      memory := map[];
    }

    /** Clears the store, evaluates `root` against it and renders the
        report, with the corrected listing of `ReportText` for a `Void`
        binding (where the source panics). The store keeps whatever the
        evaluation left in it, also after a fault. */
    method Execute(fp: FloatOps, root: Node, fuel: nat) returns (report: Option<string>)
      modifies this
      ensures report == ExecuteReport(fp, root, fuel)
      ensures Eval(fp, root, map[], fuel).Some? ==> memory == Eval(fp, root, map[], fuel).value.mem
      ensures Eval(fp, root, map[], fuel).None? ==> memory == map[]
    {
      memory := map[];
      var r := Eval(fp, root, memory, fuel);
      if r.None? {
        return None;
      }
      memory := r.value.mem;
      if r.value.res.Fault? {
        return Some("Fault: " + r.value.res.msg);
      }
      var out := "Return: " + Display(fp, r.value.res.v);
      if |memory| != 0 {
        var keys := SortKeys(memory);
        out := out + ", Memory: " + MemoryListing(fp, memory, keys);
      }
      report := Some(out);
    }
  }

  // ----- scenarios -----

  /** `{ x = 10; y = 10 / 0 }` reports the division fault and nothing else. */
  lemma DivisionByZeroScenario(fp: FloatOps)
    ensures ExecuteReport(fp, Block([Assign("x", IntLiteral(10)), Assign("y", Div(IntLiteral(10), IntLiteral(0)))]), 0)
      == Some("Fault: Division by zero")
  {
    var p := [Assign("x", IntLiteral(10)), Assign("y", Div(IntLiteral(10), IntLiteral(0)))];
    var st1 := map["x" := Int(10)];
    assert Eval(fp, p[0], map[], 0) == Some(Run(Value(Int(10)), st1));
    assert Eval(fp, p[1], st1, 0) == Some(Run(Fault(DivisionByZero), st1));
    assert EvalSeq(fp, p[1..], st1, 0, Int(10)) == Some(Run(Fault(DivisionByZero), st1));
    assert Eval(fp, Block(p), map[], 0) == Some(Run(Fault(DivisionByZero), st1));
    assert ReportText(fp, Fault(DivisionByZero), st1) == "Fault: Division by zero";
  }

  lemma TwoAssignments(fp: FloatOps)
    ensures Eval(fp, Block([Assign("y", IntLiteral(2)), Assign("x", IntLiteral(1))]), map[], 0)
      == Some(Run(Value(Int(1)), map["y" := Int(2), "x" := Int(1)]))
  {
    var p := [Assign("y", IntLiteral(2)), Assign("x", IntLiteral(1))];
    var st1 := map["y" := Int(2)];
    var st2 := st1["x" := Int(1)];
    assert Eval(fp, p[0], map[], 0) == Some(Run(Value(Int(2)), st1));
    assert Eval(fp, p[1], st1, 0) == Some(Run(Value(Int(1)), st2));
    assert EvalSeq(fp, p[1..], st1, 0, Int(2)) == Some(Run(Value(Int(1)), st2));
  }

  lemma ListingXY(fp: FloatOps, mem: Store)
    requires mem == map["y" := Int(2), "x" := Int(1)]
    ensures MemoryListing(fp, mem, ["x", "y"]) == "x = 1, y = 2"
  {
    assert DigitChar(1) == '1' && DigitChar(2) == '2';
    assert IntToString(1) == "1" && IntToString(2) == "2";
    var entries := seq(2, i requires 0 <= i < 2 => RenderBinding(fp, ["x", "y"][i], mem[["x", "y"][i]]));
    assert entries[0] == RenderBinding(fp, "x", Int(1)) == "x = 1";
    assert entries[1] == RenderBinding(fp, "y", Int(2)) == "y = 2";
    assert entries == ["x = 1", "y = 2"];
    assert JoinComma(entries[1..]) == "y = 2";
    assert JoinComma(entries) == "x = 1" + ", " + "y = 2";
  }

  lemma SortedKeysXY()
    ensures SortedKeysOf({"x", "y"}) == ["x", "y"]
  {
    assert StrLess("x", "y");
    SortedUnique(["x", "y"], SortedKeysOf({"x", "y"}));
  }

  lemma DisplayOne(fp: FloatOps)
    ensures Display(fp, Int(1)) == "1 (i64)"
  {
    assert IntToString(1) == "1" by { assert DigitChar(1) == '1'; }
  }

  lemma ReportXY(fp: FloatOps, mem: Store)
    requires mem == map["y" := Int(2), "x" := Int(1)]
    ensures ReportText(fp, Value(Int(1)), mem) == "Return: 1 (i64)" + ", Memory: " + "x = 1, y = 2"
  {
    assert |mem| != 0 by { assert "x" in mem; }
    var ks := SortedKeysOf(mem.Keys);
    assert ks == ["x", "y"] by {
      assert mem.Keys == {"x", "y"};
      SortedKeysXY();
    }
    var listing := MemoryListing(fp, mem, ks);
    assert listing == "x = 1, y = 2" by { ListingXY(fp, mem); }
    var head := "Return: " + Display(fp, Int(1));
    assert head == "Return: 1 (i64)" by { DisplayOne(fp); }
    assert ReportText(fp, Value(Int(1)), mem) == head + ", Memory: " + listing;
  }

  /** Binding `y` before `x` still lists `x` first. */
  lemma SortedBindingsScenario(fp: FloatOps)
    ensures ExecuteReport(fp, Block([Assign("y", IntLiteral(2)), Assign("x", IntLiteral(1))]), 0)
      == Some("Return: 1 (i64)" + ", Memory: " + "x = 1, y = 2")
  {
    TwoAssignments(fp);
    ReportXY(fp, map["y" := Int(2), "x" := Int(1)]);
  }

  /** A name bound to `Void` (here by `x = {}`) makes the source's report
      panic, where the corrected rendering writes `x = void`. */
  lemma VoidBindingPanics(fp: FloatOps)
    ensures Eval(fp, Assign("x", Block([])), map[], 0) == Some(Run(Value(Void), map["x" := Void]))
    ensures ReportTextAsWritten(fp, Value(Void), map["x" := Void]).None?
    ensures ReportText(fp, Value(Void), map["x" := Void]) == "Return: void" + ", Memory: " + "x = void"
  {
    var mem := map["x" := Void];
    assert mem.Keys == {"x"};
    ReportAsWrittenPanicsOnVoid(fp, Value(Void), mem);
    SortedUnique(["x"], SortedKeysOf(mem.Keys));
    ListingX(fp, mem);
    assert |mem| == 1;
  }

  lemma ListingX(fp: FloatOps, mem: Store)
    requires mem == map["x" := Void]
    ensures MemoryListing(fp, mem, ["x"]) == "x = void"
  {
    var entries := seq(1, i requires 0 <= i < 1 => RenderBinding(fp, ["x"][i], mem[["x"][i]]));
    assert entries[0] == RenderBinding(fp, "x", Void) == "x = void";
    assert entries == ["x = void"];
    assert JoinComma(entries) == "x = void";
  }
}
