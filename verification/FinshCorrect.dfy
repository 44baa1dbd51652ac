// Compiler correctness for finsh: running the code of an expression pushes its
// value (finsh/finsh_compiler.c, finsh/finsh_ops.c, finsh/finsh_vm.c).
module FinshCorrect {
  import opened Wrappers
  import opened Words
  import opened FinshArith
  import opened FinshVm
  import opened FinshCompiler
  import opened FinshExpr

  function Max(a: nat, b: nat): nat {
    if a < b then b else a
  }

  /** The most stack slots the code of e needs at once. */
  function Depth(e: Expr): nat {
    match e
    case Const(_) => 1
    case Var(_) => 1
    case Binary(_, l, r) => Max(Depth(l), 1 + Depth(r))
    case Inverse(x) => Depth(x)
    case Assign(_, x) => 1 + Depth(x)
    case PreStepOf(_, _) => 3
    case PostStepOf(_, _) => 4
    case Deref(p) => Depth(p)
    case AddressOf(_) => 1
    case StoreThrough(p, x) => Max(Depth(p), 1 + Depth(x))
    case Invoke(_, args) => 1 + ArgsDepth(args)
  }

  function ArgsDepth(es: Exprs): nat {
    if es.NoExpr? then 0 else Max(Depth(es.head), 1 + ArgsDepth(es.tail))
  }

  function Nodes(e: Expr): nat {
    Size(TreeOf(e, Nil))
  }

  lemma {:induction false} SizeSplits(e: Expr, sibling: Tree)
    ensures Size(TreeOf(e, sibling)) == Nodes(e) + Size(sibling)
  {
    hide Size;
    SizeIs(TreeOf(e, sibling));
    SizeIs(TreeOf(e, Nil));
    SizeIs(Nil);
  }

  lemma SizeIs(t: Tree)
    ensures Size(t) == if t.Nil? then 0 else 1 + Size(t.child) + Size(t.sibling)
  {
  }

  /** Peak depth is at most the number of nodes plus two. */
  lemma {:induction false} DepthBound(e: Expr)
    ensures 1 <= Depth(e) <= Nodes(e) + 2
  {
    hide Size;
    var t := TreeOf(e, Nil);
    SizeIs(t);
    SizeIs(t.child);
    SizeIs(Nil);
    match e
    case Binary(_, l, r) => DepthBound(l); DepthBound(r); SizeSplits(l, TreeOf(r, Nil));
    case Inverse(x) => DepthBound(x);
    case Assign(_, x) => DepthBound(x);
    case Deref(p) => DepthBound(p);
    case StoreThrough(p, x) => DepthBound(p); DepthBound(x);
    case Invoke(_, args) => ArgsDepthBound(args);
    case _ =>
  }

  lemma {:induction false} ArgsDepthBound(es: Exprs)
    ensures ArgsDepth(es) <= Size(ListTree(es)) + 2 && Count(es) <= ArgsDepth(es)
  {
    hide Size;
    if es.Then? {
      DepthBound(es.head);
      ArgsDepthBound(es.tail);
      SizeSplits(es.head, ListTree(es.tail));
      SizeIs(TreeOf(es.head, Nil));
    }
  }

  // ----- Running code pushes the value -----

  function Pushed(v: Value, stack: Stack): Option<(Stack, Memory)> {
    match v
    case None => None
    case Some(r) => Some((stack + [r.0], r.1))
  }

  /** The code of e, run on any stack with room and any memory, pushes e's value and leaves e's memory. */
  ghost predicate Computes(e: Expr, calls: Calls, stack: Stack, m: Memory) {
    Play(CodeOf(e), calls, stack, m) == Pushed(Eval(e, calls, m), stack)
  }

  // One instruction in front of a program, on the stacks compiled code meets.

  lemma PlayLd(v: dword, rest: seq<Instr>, calls: Calls, s: Stack, m: Memory)
    requires |s| < FINSH_STACK_MAX
    ensures Play([Ld(v)] + rest, calls, s, m) == Play(rest, calls, s + [v], m)
  {
    hide Play;
    PlayFirst(Ld(v), rest, calls, s, m);
  }

  lemma PlayLdValue(a: dword, rest: seq<Instr>, calls: Calls, s: Stack, m: Memory)
    requires |s| < FINSH_STACK_MAX
    ensures Play([LdValue(a)] + rest, calls, s, m) == Play(rest, calls, s + [Fetch(m, a)], m)
  {
    hide Play;
    PlayFirst(LdValue(a), rest, calls, s, m);
  }

  lemma PlayArith(op: Operator, rest: seq<Instr>, calls: Calls, s: Stack, x: dword, y: dword, m: Memory)
    ensures Play([Arith(op)] + rest, calls, s + [x] + [y], m) ==
            match Apply(op, x, y)
            case None => None
            case Some(v) => Play(rest, calls, s + [v], m)
  {
    hide Play, Apply;
    var stack := s + [x] + [y];
    PlayFirst(Arith(op), rest, calls, stack, m);
    assert stack[..|stack| - 2] == s && stack[|stack| - 2] == x && stack[|stack| - 1] == y;
  }

  lemma PlayNot(rest: seq<Instr>, calls: Calls, s: Stack, x: dword, m: Memory)
    ensures Play([Not] + rest, calls, s + [x], m) == Play(rest, calls, s + [Complement(x)], m)
  {
    hide Play;
    PlayFirst(Not, rest, calls, s + [x], m);
    assert (s + [x])[..|s|] == s;
  }

  lemma PlaySt(rest: seq<Instr>, calls: Calls, s: Stack, a: dword, v: dword, m: Memory)
    ensures Play([St] + rest, calls, s + [a] + [v], m) == Play(rest, calls, s + [a], m[a := v])
  {
    hide Play;
    var stack := s + [a] + [v];
    PlayFirst(St, rest, calls, stack, m);
    assert stack[..|stack| - 1] == s + [a] && stack[|stack| - 2] == a && stack[|stack| - 1] == v;
  }

  lemma PlayLdStack(rest: seq<Instr>, calls: Calls, s: Stack, a: dword, m: Memory)
    ensures Play([LdStack] + rest, calls, s + [a], m) == Play(rest, calls, s + [Fetch(m, a)], m)
  {
    hide Play;
    PlayFirst(LdStack, rest, calls, s + [a], m);
    assert (s + [a])[..|s|] == s;
  }

  lemma PlayPop(rest: seq<Instr>, calls: Calls, s: Stack, x: dword, m: Memory)
    ensures Play([Pop] + rest, calls, s + [x], m) == Play(rest, calls, s, m)
  {
    hide Play;
    PlayFirst(Pop, rest, calls, s + [x], m);
    assert (s + [x])[..|s|] == s;
  }

  lemma PlayCall(calls: Calls, s: Stack, f: dword, args: seq<dword>, m: Memory)
    requires |args| < 0x100
    ensures Play([Call(|args|)] + [], calls, s + [f] + args, m) ==
            if |args| > MAX_PARAMETERS then None else Some((s + [calls(f, args, m).0], calls(f, args, m).1))
  {
    hide Play;
    var stack := s + [f] + args;
    PlayFirst(Call(|args|), [], calls, stack, m);
    var k := |s|;
    assert stack[..k] == s && stack[k] == f && stack[k + 1..] == args;
    PlayNothing(calls, s + [calls(f, args, m).0], calls(f, args, m).1);
  }

  lemma PlayFirst(i: Instr, rest: seq<Instr>, calls: Calls, s: Stack, m: Memory)
    ensures Play([i] + rest, calls, s, m) ==
            match Perform(i, calls, s, m)
            case None => None
            case Some(next) => Play(rest, calls, next.0, next.1)
  {
    hide Perform;
    assert ([i] + rest)[1..] == rest;
  }

  lemma PlayNothing(calls: Calls, s: Stack, m: Memory)
    ensures Play([], calls, s, m) == Some((s, m))
  {
  }

  /** x = x op 1 with the address on the stack. */
  lemma PlayUpdate(a: dword, x: dword, op: Operator, rest: seq<Instr>, calls: Calls, s: Stack, m: Memory)
    requires |s| + 3 <= FINSH_STACK_MAX && x == Fetch(m, a)
    ensures Play([LdValue(a), Ld(1), Arith(op), St] + rest, calls, s + [a], m) ==
            match Apply(op, x, 1)
            case None => None
            case Some(v) => Play(rest, calls, s + [a], m[a := v])
  {
    hide Play, Apply, Fetch;
    var p1 := [St] + rest;
    var p2 := [Arith(op)] + p1;
    var p3 := [Ld(1)] + p2;
    assert [LdValue(a), Ld(1), Arith(op), St] + rest == [LdValue(a)] + p3;
    PlayLdValue(a, p3, calls, s + [a], m);
    PlayLd(1, p2, calls, s + [a] + [x], m);
    PlayArith(op, p1, calls, s + [a], x, 1, m);
    match Apply(op, x, 1)
    case None =>
    case Some(v) => PlaySt(rest, calls, s, a, v, m);
  }

  lemma ComputesPreStep(a: dword, inc: bool, calls: Calls, s: Stack, m: Memory)
    requires |s| + 3 <= FINSH_STACK_MAX
    ensures Computes(PreStepOf(a, inc), calls, s, m)
  {
    hide Play, Apply, Fetch;
    var op := StepOperator(inc);
    var rest := [LdStack] + [];
    assert CodeOf(PreStepOf(a, inc)) == [Ld(a)] + ([LdValue(a), Ld(1), Arith(op), St] + rest);
    PlayLd(a, [LdValue(a), Ld(1), Arith(op), St] + rest, calls, s, m);
    PlayUpdate(a, Fetch(m, a), op, rest, calls, s, m);
    match Apply(op, Fetch(m, a), 1)
    case None =>
    case Some(v) =>
      PlayLdStack([], calls, s, a, m[a := v]);
      FetchStored(m, a, v);
      PlayNothing(calls, s + [v], m[a := v]);
  }

  lemma FetchStored(m: Memory, a: dword, v: dword)
    ensures Fetch(m[a := v], a) == v
  {
  }

  lemma ComputesPostStep(a: dword, inc: bool, calls: Calls, s: Stack, m: Memory)
    requires |s| + 4 <= FINSH_STACK_MAX
    ensures Computes(PostStepOf(a, inc), calls, s, m)
  {
    hide Play, Apply, Fetch;
    var op, x := StepOperator(inc), Fetch(m, a);
    var rest := [Pop] + [];
    var p := [LdValue(a), Ld(1), Arith(op), St] + rest;
    assert CodeOf(PostStepOf(a, inc)) == [LdValue(a)] + ([Ld(a)] + p);
    PlayLdValue(a, [Ld(a)] + p, calls, s, m);
    PlayLd(a, p, calls, s + [x], m);
    PlayUpdate(a, x, op, rest, calls, s + [x], m);
    match Apply(op, x, 1)
    case None =>
    case Some(v) =>
      PlayPop([], calls, s + [x], a, m[a := v]);
      PlayNothing(calls, s + [x], m[a := v]);
  }

  lemma ComputesLeaf(e: Expr, calls: Calls, s: Stack, m: Memory)
    requires IsLeaf(e) && |s| + Depth(e) <= FINSH_STACK_MAX
    ensures Computes(e, calls, s, m)
  {
    hide Play, Fetch;
    assert CodeOf(e) == CodeOf(e) + [];
    match e
    case Const(v) =>
      PlayLd(v, [], calls, s, m);
      PlayNothing(calls, s + [v], m);
    case Var(place) =>
      PlayLdValue(place.address, [], calls, s, m);
      PlayNothing(calls, s + [Fetch(m, place.address)], m);
    case AddressOf(place) =>
      PlayLd(place.address, [], calls, s, m);
      PlayNothing(calls, s + [place.address], m);
    case PreStepOf(a, inc) => ComputesPreStep(a, inc, calls, s, m);
    case PostStepOf(a, inc) => ComputesPostStep(a, inc, calls, s, m);
  }

  lemma ComputesUnary(e: Expr, x: Expr, calls: Calls, s: Stack, m: Memory)
    requires (e == Inverse(x) || e == Deref(x)) && TypeIs(x) == DwordType && Computes(x, calls, s, m)
    ensures Computes(e, calls, s, m)
  {
    hide Play, Fetch, Complement;
    var last := if e.Inverse? then Not else LdStack;
    assert CodeOf(e) == CodeOf(x) + ([last] + []);
    PlayConcat(CodeOf(x), [last] + [], calls, s, m);
    match Eval(x, calls, m)
    case None =>
    case Some(a) =>
      if e.Inverse? {
        PlayNot([], calls, s, a.0, a.1);
        PlayNothing(calls, s + [Complement(a.0)], a.1);
      } else {
        PlayLdStack([], calls, s, a.0, a.1);
        PlayNothing(calls, s + [Fetch(a.1, a.0)], a.1);
      }
  }

  lemma ComputesBinary(op: Operator, l: Expr, r: Expr, calls: Calls, s: Stack, m: Memory)
    requires TypeIs(l) == DwordType && Computes(l, calls, s, m)
    requires Eval(l, calls, m).Some? ==> var a := Eval(l, calls, m).value; Computes(r, calls, s + [a.0], a.1)
    ensures Computes(Binary(op, l, r), calls, s, m)
  {
    hide Play, Apply, CodeOf;
    var rest := CodeOf(r) + ([Arith(op)] + []);
    BinaryCode(op, l, r);
    PlayConcat(CodeOf(l), rest, calls, s, m);
    match Eval(l, calls, m)
    case None =>
    case Some(a) =>
      PlayConcat(CodeOf(r), [Arith(op)] + [], calls, s + [a.0], a.1);
      match Eval(r, calls, a.1)
      case None =>
      case Some(b) =>
        PlayArith(op, [], calls, s, a.0, b.0, b.1);
        match Apply(op, a.0, b.0)
        case None =>
        case Some(v) => PlayNothing(calls, s + [v], b.1);
  }

  lemma BinaryCode(op: Operator, l: Expr, r: Expr)
    requires TypeIs(l) == DwordType
    ensures CodeOf(Binary(op, l, r)) == CodeOf(l) + (CodeOf(r) + ([Arith(op)] + []))
  {
  }

  lemma ComputesAssign(place: Place, x: Expr, calls: Calls, s: Stack, m: Memory)
    requires |s| < FINSH_STACK_MAX && Computes(x, calls, s + [place.address], m)
    ensures Computes(Assign(place, x), calls, s, m)
  {
    hide Play, Fetch, CodeOf;
    var end := [St] + ([LdStack] + []);
    AssignCode(place, x);
    PlayLd(place.address, CodeOf(x) + end, calls, s, m);
    PlayConcat(CodeOf(x), end, calls, s + [place.address], m);
    match Eval(x, calls, m)
    case None =>
    case Some(b) => PlayStored(calls, s, place.address, b.0, b.1);
  }

  lemma AssignCode(place: Place, x: Expr)
    ensures CodeOf(Assign(place, x)) == [Ld(place.address)] + (CodeOf(x) + ([St] + ([LdStack] + [])))
  {
  }

  lemma PlayStored(calls: Calls, s: Stack, a: dword, v: dword, m: Memory)
    ensures Play([St] + ([LdStack] + []), calls, s + [a] + [v], m) == Some((s + [v], m[a := v]))
  {
    hide Play, Fetch;
    PlaySt([LdStack] + [], calls, s, a, v, m);
    PlayLdStack([], calls, s, a, m[a := v]);
    FetchStored(m, a, v);
    PlayNothing(calls, s + [v], m[a := v]);
  }

  lemma ComputesStore(p: Expr, x: Expr, calls: Calls, s: Stack, m: Memory)
    requires TypeIs(p) == DwordType && Computes(p, calls, s, m)
    requires Eval(p, calls, m).Some? ==> var a := Eval(p, calls, m).value; Computes(x, calls, s + [a.0], a.1)
    ensures Computes(StoreThrough(p, x), calls, s, m)
  {
    hide Play, CodeOf;
    var end := [St] + ([LdStack] + []);
    StoreCode(p, x);
    PlayConcat(CodeOf(p), CodeOf(x) + end, calls, s, m);
    match Eval(p, calls, m)
    case None =>
    case Some(a) =>
      PlayConcat(CodeOf(x), end, calls, s + [a.0], a.1);
      match Eval(x, calls, a.1)
      case None =>
      case Some(b) => PlayStored(calls, s, a.0, b.0, b.1);
  }

  lemma StoreCode(p: Expr, x: Expr)
    requires TypeIs(p) == DwordType
    ensures CodeOf(StoreThrough(p, x)) == CodeOf(p) + (CodeOf(x) + ([St] + ([LdStack] + [])))
  {
  }

  /** The arguments' code pushes their values in order. */
  ghost predicate ComputesAll(es: Exprs, calls: Calls, s: Stack, m: Memory) {
    Play(ArgsCode(es), calls, s, m) ==
    match EvalArgs(es, calls, m)
    case None => None
    case Some(r) => Some((s + r.0, r.1))
  }

  lemma ComputesInvoke(f: dword, args: Exprs, calls: Calls, s: Stack, m: Memory)
    requires |s| < FINSH_STACK_MAX && Count(args) < 0x100 && ComputesAll(args, calls, s + [f], m)
    ensures Computes(Invoke(f, args), calls, s, m)
  {
    hide Play, CodeOf, ArgsCode;
    InvokeCode(f, args);
    var end := [Call(Count(args))] + [];
    PlayLd(f, ArgsCode(args) + end, calls, s, m);
    PlayConcat(ArgsCode(args), end, calls, s + [f], m);
    match EvalArgs(args, calls, m)
    case None =>
    case Some(a) => PlayCall(calls, s, f, a.0, a.1);
  }

  lemma InvokeCode(f: dword, args: Exprs)
    requires Count(args) < 0x100
    ensures CodeOf(Invoke(f, args)) == [Ld(f)] + (ArgsCode(args) + ([Call(Count(args))] + []))
  {
  }

  lemma ComputesNone(calls: Calls, s: Stack, m: Memory)
    ensures ComputesAll(NoExpr, calls, s, m)
  {
    PlayNothing(calls, s, m);
    assert s + [] == s;
  }

  lemma ComputesThen(e: Expr, rest: Exprs, calls: Calls, s: Stack, m: Memory)
    requires Computes(e, calls, s, m)
    requires Eval(e, calls, m).Some? ==> var a := Eval(e, calls, m).value; ComputesAll(rest, calls, s + [a.0], a.1)
    ensures ComputesAll(Then(e, rest), calls, s, m)
  {
    hide Play, CodeOf, Eval;
    PlayConcat(CodeOf(e), ArgsCode(rest), calls, s, m);
    match Eval(e, calls, m)
    case None =>
    case Some(a) =>
      match EvalArgs(rest, calls, a.1)
      case None =>
      case Some(b) => assert s + [a.0] + b.0 == s + ([a.0] + b.0);
  }

  /**
   * Compiler correctness for expressions: whenever the type check gives every operator a type, the code
   * computes exactly the source value and memory, and it fails exactly when the source has no value.
   */
  lemma {:induction false} CodeComputes(e: Expr, calls: Calls, s: Stack, m: Memory)
    requires Typed(e) && |s| + Depth(e) <= FINSH_STACK_MAX
    ensures Computes(e, calls, s, m)
    decreases e
  {
    hide Computes, ComputesAll, CodeOf, Eval, EvalArgs, Count;
    match e
    case Binary(op, l, r) =>
      CodeComputes(l, calls, s, m);
      if Eval(l, calls, m).Some? {
        var a := Eval(l, calls, m).value;
        CodeComputes(r, calls, s + [a.0], a.1);
      }
      ComputesBinary(op, l, r, calls, s, m);
    case Inverse(x) =>
      CodeComputes(x, calls, s, m);
      ComputesUnary(e, x, calls, s, m);
    case Assign(place, x) =>
      CodeComputes(x, calls, s + [place.address], m);
      ComputesAssign(place, x, calls, s, m);
    case Deref(p) =>
      CodeComputes(p, calls, s, m);
      ComputesUnary(e, p, calls, s, m);
    case StoreThrough(p, x) =>
      CodeComputes(p, calls, s, m);
      if Eval(p, calls, m).Some? {
        var a := Eval(p, calls, m).value;
        CodeComputes(x, calls, s + [a.0], a.1);
      }
      ComputesStore(p, x, calls, s, m);
    case Invoke(f, args) =>
      ArgsDepthBound(args);
      ArgsCompute(args, calls, s + [f], m);
      ComputesInvoke(f, args, calls, s, m);
    case _ => ComputesLeaf(e, calls, s, m);
  }

  lemma {:induction false} ArgsCompute(es: Exprs, calls: Calls, s: Stack, m: Memory)
    requires AllTyped(es) && |s| + ArgsDepth(es) <= FINSH_STACK_MAX
    ensures ComputesAll(es, calls, s, m)
    decreases es
  {
    hide Computes, ComputesAll, CodeOf, Eval, EvalArgs;
    match es
    case NoExpr => ComputesNone(calls, s, m);
    case Then(e, rest) =>
      CodeComputes(e, calls, s, m);
      if Eval(e, calls, m).Some? {
        var a := Eval(e, calls, m).value;
        ArgsCompute(rest, calls, s + [a.0], a.1);
      }
      ComputesThen(e, rest, calls, s, m);
  }

  // ----- Statement lists -----

  function StatementsCode(es: Exprs): seq<Instr> {
    match es
    case NoExpr => []
    case Then(e, rest) => CodeOf(e) + (if rest.NoExpr? then [] else [Pop] + StatementsCode(rest))
  }

  lemma {:induction false} GeneratedStatements(es: Exprs)
    ensures GenerateList(Check(ListTree(es), false)) == StatementsCode(es)
  {
    hide *;
    StatementsStep(es);
    NilCode();
    ListTreeStep(es);
    ListParts(Check(ListTree(es), false));
    if es.Then? {
      StatementHead(es.head, ListTree(es.tail));
      GeneratedCode(es.head, Nil);
      GeneratesAlone(es.head);
      GeneratedStatements(es.tail);
      ListTreeStep(es.tail);
    }
  }

  lemma StatementsStep(es: Exprs)
    ensures StatementsCode(es) == if es.NoExpr? then [] else
              CodeOf(es.head) + (if es.tail.NoExpr? then [] else [Pop] + StatementsCode(es.tail))
  {
  }

  lemma ListTreeStep(es: Exprs)
    ensures ListTree(es) == if es.NoExpr? then Nil else TreeOf(es.head, ListTree(es.tail))
    ensures Check(ListTree(es), false).Nil? <==> es.NoExpr?
  {
    hide Check;
  }

  /** Checking a statement does not depend on the statements after it. */
  lemma StatementHead(e: Expr, rest: Tree)
    ensures var t := Check(TreeOf(e, rest), false);
            t.Cons? && t.sibling == Check(rest, false) && Cons(t.info, t.child, Nil) == Check(TreeOf(e, Nil), false)
  {
    hide Check, Generate, Own, Annotate;
    var t, u := TreeOf(e, rest), TreeOf(e, Nil);
    NodeCode(t.info, t.child, rest, false);
    NodeCode(u.info, u.child, Nil, false);
    NilCode();
  }

  lemma GeneratesAlone(e: Expr)
    requires Generates(e, Nil)
    ensures Generate(Check(TreeOf(e, Nil), false)) == CodeOf(e)
  {
    hide Check, Generate, CodeOf, TreeOf;
    NilCode();
  }

  /** A statement list leaves one value, the last statement's, on an otherwise unchanged stack. */
  lemma {:induction false} StatementsCompute(es: Exprs, calls: Calls, s: Stack, m: Memory)
    requires AllTyped(es) && |s| + Size(ListTree(es)) + 2 <= FINSH_STACK_MAX
    ensures Play(StatementsCode(es), calls, s, m) ==
            match EvalStatements(es, calls, m)
            case None => None
            case Some(r) => Some((s + r.0, r.1))
    decreases es
  {
    hide Play, Eval, Size, Typed, CodeOf;
    match es
    case NoExpr =>
      PlayNothing(calls, s, m);
      assert s + [] == s;
    case Then(e, rest) =>
      SizeSplits(e, ListTree(rest));
      DepthBound(e);
      CodeComputes(e, calls, s, m);
      if rest.NoExpr? {
        assert StatementsCode(es) == CodeOf(e);
      } else {
        PlayConcat(CodeOf(e), [Pop] + StatementsCode(rest), calls, s, m);
        match Eval(e, calls, m)
        case None =>
        case Some(a) =>
          PlayPop(StatementsCode(rest), calls, s, a.0, a.1);
          StatementsCompute(rest, calls, s, a.1);
      }
  }

  lemma {:induction false} LastValue(es: Exprs, calls: Calls, m: Memory)
    requires EvalStatements(es, calls, m).Some?
    ensures |EvalStatements(es, calls, m).value.0| == if es.NoExpr? then 0 else 1
  {
    if es.Then? && es.tail.Then? {
      LastValue(es.tail, calls, Eval(es.head, calls, m).value.1);
    }
  }

  /**
   * The whole path from nodes to result: any line of typed statements in the 16-node table, compiled into
   * a text segment it fits, runs to the end without leaving the 64-slot stack, leaving the last statement's
   * value at the bottom and the memory the source describes; it fails exactly when the source has no value.
   */
  lemma ProgramRuns(es: Exprs, text: seq<byte>, calls: Calls, m: Memory)
    requires AllTyped(es) && Size(ListTree(es)) <= 16
    requires var bs := Code(GenerateList(Check(ListTree(es), false)));
             && |bs| <= |text| && text[..|bs|] == bs && forall k | |bs| <= k < |text| :: text[k] == 0
    ensures Exec(text, calls, 0, [], m) ==
            match EvalStatements(es, calls, m)
            case None => Fault
            case Some(r) => Done(r.0, r.1)
  {
    hide Check, GenerateList, Code, Exec, Play, Size, AllTyped, EvalStatements, StatementsCode;
    GeneratedStatements(es);
    var prog := StatementsCode(es);
    assert text[0..0 + |Code(prog)|] == Code(prog);
    ExecCode(text, calls, 0, prog, [], m);
    StatementsCompute(es, calls, [], m);
    match EvalStatements(es, calls, m)
    case None =>
    case Some(r) =>
      assert [] + r.0 == r.0;
      ExecZeros(text, calls, |Code(prog)|, r.0, r.1);
  }

  // ----- How much text a line needs -----

  /** The bytes of an expression's code. */
  function ExprBytes(e: Expr): nat {
    match e
    case Const(_) => 5
    case Var(_) => 5
    case AddressOf(_) => 5
    case Binary(_, l, r) => ExprBytes(l) + ExprBytes(r) + (if TypeIs(l) == DwordType then 1 else 0)
    case Inverse(x) => ExprBytes(x) + (if TypeIs(x) == DwordType then 1 else 0)
    case Deref(p) => ExprBytes(p) + (if TypeIs(p) == DwordType then 1 else 0)
    case Assign(_, x) => 5 + ExprBytes(x) + 2
    case PreStepOf(_, _) => 18
    case PostStepOf(_, _) => 23
    case StoreThrough(p, x) => ExprBytes(p) + ExprBytes(x) + (if TypeIs(p) == DwordType then 2 else 0)
    case Invoke(_, args) => 5 + ArgsBytes(args) + 2
  }

  function ArgsBytes(es: Exprs): nat {
    if es.NoExpr? then 0 else ExprBytes(es.head) + ArgsBytes(es.tail)
  }

  /** The bytes of a line: its statements and one separator between any two. */
  function StatementsBytes(es: Exprs): nat {
    match es
    case NoExpr => 0
    case Then(e, rest) => ExprBytes(e) + (if rest.NoExpr? then 0 else 1 + StatementsBytes(rest))
  }

  lemma CodeLength(a: seq<Instr>, b: seq<Instr>)
    ensures |Code(a + b)| == |Code(a)| + |Code(b)|
  {
    CodeConcat(a, b);
  }

  lemma CodeOfOne(i: Instr)
    ensures |Code([i])| == |Bytes(i)| && Code([]) == []
  {
    hide Bytes;
    assert Code([i]) == Bytes(i) + Code([]);
  }

  /** Instructions that end an expression's code. */
  lemma ShortCode()
    ensures |Code([])| == 0 && |Code([Not])| == 1 && |Code([LdStack])| == 1 && |Code([St, LdStack])| == 2
    ensures forall op :: |Code([Arith(op)])| == 1
    ensures forall v :: |Code([Ld(v)])| == 5
    ensures forall a :: |Code([LdValue(a)])| == 5
    ensures forall n :: |Code([Call(n)])| == 2
  {
    hide Code;
    CodeOfOne(Not);
    CodeOfOne(LdStack);
    CodeOfOne(St);
    CodeLength([St], [LdStack]);
    assert [St] + [LdStack] == [St, LdStack];
    forall op ensures |Code([Arith(op)])| == 1 { CodeOfOne(Arith(op)); }
    forall v ensures |Code([Ld(v)])| == 5 { CodeOfOne(Ld(v)); }
    forall a ensures |Code([LdValue(a)])| == 5 { CodeOfOne(LdValue(a)); }
    forall n ensures |Code([Call(n)])| == 2 { CodeOfOne(Call(n)); }
  }

  lemma StepBytes(a: dword, op: Operator)
    ensures |Code([Ld(a)] + PreStep(a, op))| == 18 && |Code([LdValue(a)] + PostStep(a, op))| == 23
  {
    hide Code;
    ShortCode();
    CodeOfOne(Pop);
    CodeOfOne(St);
    var update := [LdValue(a)] + ([Ld(1)] + ([Arith(op)] + [St]));
    CodeLength([LdValue(a)], [Ld(1)] + ([Arith(op)] + [St]));
    CodeLength([Ld(1)], [Arith(op)] + [St]);
    CodeLength([Arith(op)], [St]);
    assert [Ld(a)] + PreStep(a, op) == [Ld(a)] + (update + [LdStack]);
    CodeLength([Ld(a)], update + [LdStack]);
    CodeLength(update, [LdStack]);
    assert [LdValue(a)] + PostStep(a, op) == [LdValue(a)] + ([Ld(a)] + (update + [Pop]));
    CodeLength([LdValue(a)], [Ld(a)] + (update + [Pop]));
    CodeLength([Ld(a)], update + [Pop]);
    CodeLength(update, [Pop]);
  }

  lemma {:induction false} ExprLength(e: Expr)
    ensures |Code(CodeOf(e))| == ExprBytes(e)
    decreases e
  {
    hide Code, TypeIs;
    ShortCode();
    match e
    case Binary(op, l, r) =>
      ExprLength(l);
      ExprLength(r);
      CodeLength(CodeOf(l) + CodeOf(r), WhenTyped(l, [Arith(op)]));
      CodeLength(CodeOf(l), CodeOf(r));
    case Inverse(x) =>
      ExprLength(x);
      CodeLength(CodeOf(x), WhenTyped(x, [Not]));
    case Deref(p) =>
      ExprLength(p);
      CodeLength(CodeOf(p), WhenTyped(p, [LdStack]));
    case Assign(place, x) =>
      ExprLength(x);
      CodeLength([Ld(place.address)] + CodeOf(x), [St, LdStack]);
      CodeLength([Ld(place.address)], CodeOf(x));
    case StoreThrough(p, x) =>
      ExprLength(p);
      ExprLength(x);
      CodeLength(CodeOf(p) + CodeOf(x), WhenTyped(p, [St, LdStack]));
      CodeLength(CodeOf(p), CodeOf(x));
    case Invoke(f, args) =>
      ArgsLength(args);
      CodeLength([Ld(f)] + ArgsCode(args), [Call(Count(args) % 0x100)]);
      CodeLength([Ld(f)], ArgsCode(args));
    case PreStepOf(a, inc) => StepBytes(a, StepOperator(inc));
    case PostStepOf(a, inc) => StepBytes(a, StepOperator(inc));
    case _ =>
  }

  lemma {:induction false} ArgsLength(es: Exprs)
    ensures |Code(ArgsCode(es))| == ArgsBytes(es)
    decreases es
  {
    hide Code, CodeOf;
    ShortCode();
    if es.Then? {
      ExprLength(es.head);
      ArgsLength(es.tail);
      CodeLength(CodeOf(es.head), ArgsCode(es.tail));
    }
  }

  lemma {:induction false} StatementsLength(es: Exprs)
    ensures |Code(StatementsCode(es))| == StatementsBytes(es)
    decreases es
  {
    hide Code, CodeOf;
    ShortCode();
    CodeOfOne(Pop);
    if es.Then? {
      ExprLength(es.head);
      StatementsLength(es.tail);
      CodeLength(CodeOf(es.head), if es.tail.NoExpr? then [] else [Pop] + StatementsCode(es.tail));
      CodeLength([Pop], StatementsCode(es.tail));
    }
  }

  /** A line fits the text segment exactly when its byte count does, whatever its types. */
  lemma LineFits(es: Exprs)
    ensures |Code(GenerateList(Check(ListTree(es), false)))| == StatementsBytes(es)
  {
    hide *;
    GeneratedStatements(es);
    StatementsLength(es);
  }

  /** A node costs at most twelve bytes, the separator after its statement included. */
  lemma {:induction false} ExprCost(e: Expr)
    ensures ExprBytes(e) + 1 <= 12 * Nodes(e)
    decreases e
  {
    hide Size, TypeIs;
    NodeParts(e);
    LeafNodes(e);
    match e
    case Binary(_, l, r) => ExprCost(l); ExprCost(r);
    case Inverse(x) => ExprCost(x);
    case Assign(_, x) => ExprCost(x);
    case Deref(p) => ExprCost(p);
    case StoreThrough(p, x) => ExprCost(p); ExprCost(x);
    case Invoke(_, args) => ArgsCost(args);
    case _ =>
  }

  lemma {:induction false} ArgsCost(es: Exprs)
    ensures ArgsBytes(es) <= 12 * Size(ListTree(es))
    ensures es.Then? ==> StatementsBytes(es) + 1 <= 12 * Size(ListTree(es))
    decreases es
  {
    hide Size, ExprBytes;
    if es.Then? {
      ExprCost(es.head);
      ArgsCost(es.tail);
      SizeSplits(es.head, ListTree(es.tail));
    }
  }

  lemma LeafNodes(e: Expr)
    ensures e.Const? || e.Var? ==> Nodes(e) == 1
    ensures e.PreStepOf? || e.PostStepOf? || e.AddressOf? ==> Nodes(e) == 2
  {
    hide Size;
    var t := TreeOf(e, Nil);
    SizeIs(t);
    SizeIs(t.child);
    SizeIs(Nil);
  }

  /** Every line of at most ten nodes fits the text segment. */
  lemma TenNodesFit(es: Exprs)
    requires Size(ListTree(es)) <= 10
    ensures StatementsBytes(es) <= 128
  {
    hide Size;
    ArgsCost(es);
  }

  /** The same line n times over. */
  function Repeated(e: Expr, n: nat): Exprs {
    if n == 0 then NoExpr else Then(e, Repeated(e, n - 1))
  }

  lemma {:induction false} RepeatedCost(e: Expr, n: nat)
    ensures Size(ListTree(Repeated(e, n))) == n * Nodes(e)
    ensures StatementsBytes(Repeated(e, n)) == if n == 0 then 0 else n * (ExprBytes(e) + 1) - 1
  {
    hide Size, ExprBytes;
    SizeIs(Nil);
    if n > 0 {
      RepeatedCost(e, n - 1);
      SizeSplits(e, ListTree(Repeated(e, n - 1)));
      assert n * Nodes(e) == (n - 1) * Nodes(e) + Nodes(e);
      assert n * (ExprBytes(e) + 1) == (n - 1) * (ExprBytes(e) + 1) + (ExprBytes(e) + 1);
    }
  }

  /** Eight statements x++ fill the node table and need 191 of the 128 text bytes. */
  lemma NodesDoNotBoundText(a: dword)
    ensures var es := Repeated(PostStepOf(a, true), 8);
            Size(ListTree(es)) == 16 && StatementsBytes(es) == 191 > 128
  {
    hide Size;
    RepeatedCost(PostStepOf(a, true), 8);
    LeafNodes(PostStepOf(a, true));
  }

  /** A line: compile the nodes, then run them. */
  method RunLine(compiler: Compiler, vm: Machine, node: int, ghost es: Exprs) returns (ok: bool)
    requires vm.Valid() && vm.text == compiler.text && vm.text.Length == 128
    requires Holds(compiler.nodes, node, ListTree(es)) && AllTyped(es) && Size(ListTree(es)) <= 16
    requires StatementsBytes(es) <= 128
    modifies compiler`nodes, compiler`pc, compiler.text, vm`sp, vm`pc, vm`memory, vm.stack
    ensures vm.Valid()
    ensures ok <==> EvalStatements(es, vm.calls, old(vm.memory)).Some?
    ensures ok ==> EvalStatements(es, vm.calls, old(vm.memory)) == Some((vm.stack[..vm.sp], vm.memory))
    ensures ok ==> vm.sp == if es.NoExpr? then 0 else 1
  {
    hide *;
    LineFits(es);
    compiler.CompilerRun(node, ListTree(es));
    ProgramRuns(es, vm.text[..], vm.calls, vm.memory);
    ok := vm.Run();
    if EvalStatements(es, vm.calls, old(vm.memory)).Some? {
      LastValue(es, vm.calls, old(vm.memory));
    }
  }

  // ----- Outside the domain -----

  /** Operators that combine two values but take their type from a call, so that no code is made for them. */
  function Lost(e: Expr): nat {
    match e
    case Binary(_, l, r) => Lost(l) + Lost(r) + (if TypeIs(l) == VoidType then 1 else 0)
    case Inverse(x) => Lost(x)
    case Assign(_, x) => Lost(x)
    case Deref(p) => Lost(p)
    case StoreThrough(p, x) => Lost(p) + Lost(x) + (if TypeIs(p) == VoidType then 1 else 0)
    case Invoke(_, args) => LostIn(args)
    case _ => 0
  }

  function LostIn(es: Exprs): nat {
    if es.NoExpr? then 0 else Lost(es.head) + LostIn(es.tail)
  }

  lemma {:induction false} TypedLosesNothing(e: Expr)
    requires Typed(e)
    ensures Lost(e) == 0
  {
    match e
    case Binary(_, l, r) => TypedLosesNothing(l); TypedLosesNothing(r);
    case Inverse(x) => TypedLosesNothing(x);
    case Assign(_, x) => TypedLosesNothing(x);
    case Deref(p) => TypedLosesNothing(p);
    case StoreThrough(p, x) => TypedLosesNothing(p); TypedLosesNothing(x);
    case Invoke(_, args) => AllTypedLoseNothing(args);
    case _ =>
  }

  lemma {:induction false} AllTypedLoseNothing(es: Exprs)
    requires AllTyped(es)
    ensures LostIn(es) == 0
  {
    if es.Then? {
      TypedLosesNothing(es.head);
      AllTypedLoseNothing(es.tail);
    }
  }

  /** What an instruction does to the height of the stack. */
  function Effect(i: Instr): int {
    match i
    case Noop => 0
    case Arith(_) => -1
    case Not => 0
    case Ld(_) => 1
    case LdValue(_) => 1
    case St => -1
    case Pop => -1
    case Call(n) => -(n as int)
    case LdStack => 0
  }

  function Total(prog: seq<Instr>): int {
    if prog == [] then 0 else Effect(prog[0]) + Total(prog[1..])
  }

  lemma {:induction false} TotalConcat(a: seq<Instr>, b: seq<Instr>)
    ensures Total(a + b) == Total(a) + Total(b)
    decreases |a|
  {
    hide Effect;
    if a == [] {
      assert a + b == b;
    } else {
      assert (a + b)[1..] == a[1..] + b;
      TotalConcat(a[1..], b);
    }
  }

  lemma {:induction false} PlayHeight(prog: seq<Instr>, calls: Calls, s: Stack, m: Memory)
    requires Play(prog, calls, s, m).Some?
    ensures |Play(prog, calls, s, m).value.0| == |s| + Total(prog)
    decreases |prog|
  {
    hide Perform;
    if prog != [] {
      PerformHeight(prog[0], calls, s, m);
      var next := Perform(prog[0], calls, s, m).value;
      PlayHeight(prog[1..], calls, next.0, next.1);
    }
  }

  lemma PerformHeight(i: Instr, calls: Calls, s: Stack, m: Memory)
    requires Perform(i, calls, s, m).Some?
    ensures |Perform(i, calls, s, m).value.0| == |s| + Effect(i)
  {
    hide Apply, Fetch, Complement;
  }

  lemma TotalThree(a: seq<Instr>, b: seq<Instr>, c: seq<Instr>)
    ensures Total(a + b + c) == Total(a) + Total(b) + Total(c)
  {
    TotalConcat(a + b, c);
    TotalConcat(a, b);
  }

  lemma {:induction false} CodeEffect(e: Expr)
    requires Nodes(e) < 0x100
    ensures Total(CodeOf(e)) == 1 + Lost(e)
    decreases e
  {
    hide Total, Nodes, TypeIs, Effect, TreeOf, ListTree;
    NodeParts(e);
    TotalShort();
    match e
    case Binary(op, l, r) =>
      CodeEffect(l);
      CodeEffect(r);
      TotalThree(CodeOf(l), CodeOf(r), WhenTyped(l, [Arith(op)]));
    case Inverse(x) =>
      CodeEffect(x);
      TotalConcat(CodeOf(x), WhenTyped(x, [Not]));
    case Assign(place, x) =>
      CodeEffect(x);
      TotalThree([Ld(place.address)], CodeOf(x), [St, LdStack]);
    case Deref(p) =>
      CodeEffect(p);
      TotalConcat(CodeOf(p), WhenTyped(p, [LdStack]));
    case StoreThrough(p, x) =>
      CodeEffect(p);
      CodeEffect(x);
      TotalThree(CodeOf(p), CodeOf(x), WhenTyped(p, [St, LdStack]));
    case Invoke(f, args) =>
      ArgsEffect(args);
      TotalThree([Ld(f)], ArgsCode(args), [Call(Count(args) % 0x100)]);
    case _ => LeafEffect(e);
  }

  lemma {:induction false} ArgsEffect(es: Exprs)
    requires Size(ListTree(es)) < 0xFF
    ensures Total(ArgsCode(es)) == Count(es) + LostIn(es) && Count(es) <= Size(ListTree(es))
    decreases es
  {
    hide Total, Size, Depth, ArgsDepth;
    TotalShort();
    if es.Then? {
      SizeSplits(es.head, ListTree(es.tail));
      SizeIs(TreeOf(es.head, Nil));
      CodeEffect(es.head);
      ArgsEffect(es.tail);
      TotalConcat(CodeOf(es.head), ArgsCode(es.tail));
    }
  }

  lemma TotalShort()
    ensures Total([]) == 0 && Total([Not]) == 0 && Total([LdStack]) == 0 && Total([St, LdStack]) == -1
    ensures Total([St]) == -1 && Total([Pop]) == -1
    ensures forall op :: Total([Arith(op)]) == -1
    ensures forall v :: Total([Ld(v)]) == 1
    ensures forall a :: Total([LdValue(a)]) == 1
    ensures forall n :: Total([Call(n)]) == -(n as int)
  {
    TotalConcat([St], [LdStack]);
    assert [St, LdStack] == [St] + [LdStack];
  }

  lemma LeafEffect(e: Expr)
    requires IsLeaf(e)
    ensures Total(CodeOf(e)) == 1
  {
    hide Total;
    TotalShort();
    match e
    case PreStepOf(a, inc) => StepEffect(a, StepOperator(inc));
    case PostStepOf(a, inc) => StepEffect(a, StepOperator(inc));
    case _ =>
  }

  lemma StepEffect(a: dword, op: Operator)
    ensures Total([Ld(a)] + PreStep(a, op)) == 1 && Total([LdValue(a)] + PostStep(a, op)) == 1
  {
    hide Total;
    TotalShort();
    var update := [LdValue(a)] + ([Ld(1)] + ([Arith(op)] + ([St] + [])));
    TotalConcat([LdValue(a)], [Ld(1)] + ([Arith(op)] + ([St] + [])));
    TotalConcat([Ld(1)], [Arith(op)] + ([St] + []));
    TotalConcat([Arith(op)], [St] + []);
    TotalConcat([St], []);
    assert [Ld(a)] + PreStep(a, op) == [Ld(a)] + (update + [LdStack]);
    TotalConcat([Ld(a)], update + [LdStack]);
    TotalConcat(update, [LdStack]);
    assert [LdValue(a)] + PostStep(a, op) == [LdValue(a)] + ([Ld(a)] + (update + [Pop]));
    TotalConcat([LdValue(a)], [Ld(a)] + (update + [Pop]));
    TotalConcat([Ld(a)], update + [Pop]);
    TotalConcat(update, [Pop]);
  }

  lemma NodeParts(e: Expr)
    ensures match e
            case Binary(_, l, r) => Nodes(e) == 1 + Nodes(l) + Nodes(r)
            case Inverse(x) => Nodes(e) == 1 + Nodes(x)
            case Assign(_, x) => Nodes(e) == 2 + Nodes(x)
            case Deref(p) => Nodes(e) == 1 + Nodes(p)
            case StoreThrough(p, x) => Nodes(e) == 2 + Nodes(p) + Nodes(x)
            case Invoke(_, args) => Nodes(e) == 2 + Size(ListTree(args))
            case _ => true
  {
    hide Size;
    var t := TreeOf(e, Nil);
    SizeIs(t);
    SizeIs(t.child);
    SizeIs(Nil);
    if e.Binary? { SizeSplits(e.left, TreeOf(e.right, Nil)); }
  }

  /**
   * In general the code leaves one value more for every operator that got no type: one value exactly when
   * there is none.
   */
  lemma HeightExact(e: Expr, calls: Calls, s: Stack, m: Memory)
    requires Nodes(e) < 0x100 && Play(CodeOf(e), calls, s, m).Some?
    ensures |Play(CodeOf(e), calls, s, m).value.0| == |s| + 1 + Lost(e)
  {
    CodeEffect(e);
    PlayHeight(CodeOf(e), calls, s, m);
  }

  /** e without the operators of one operand that got no type: no code is made for them. */
  function Stripped(e: Expr): Expr {
    match e
    case Binary(op, l, r) => Binary(op, Stripped(l), Stripped(r))
    case Inverse(x) => if TypeIs(x) == VoidType then Stripped(x) else Inverse(Stripped(x))
    case Deref(p) => if TypeIs(p) == VoidType then Stripped(p) else Deref(Stripped(p))
    case Assign(place, x) => Assign(place, Stripped(x))
    case StoreThrough(p, x) => StoreThrough(Stripped(p), Stripped(x))
    case Invoke(f, args) => Invoke(f, StrippedArgs(args))
    case _ => e
  }

  function StrippedArgs(es: Exprs): Exprs {
    if es.NoExpr? then NoExpr else Then(Stripped(es.head), StrippedArgs(es.tail))
  }

  /** Stripping changes neither the code nor the type. */
  lemma {:induction false} StrippedCode(e: Expr)
    ensures CodeOf(Stripped(e)) == CodeOf(e) && TypeIs(Stripped(e)) == TypeIs(e)
    decreases e
  {
    match e
    case Binary(_, l, r) => StrippedCode(l); StrippedCode(r);
    case Inverse(x) => StrippedCode(x);
    case Assign(_, x) => StrippedCode(x);
    case Deref(p) => StrippedCode(p);
    case StoreThrough(p, x) => StrippedCode(p); StrippedCode(x);
    case Invoke(_, args) => StrippedArgsCode(args);
    case _ =>
  }

  lemma {:induction false} StrippedArgsCode(es: Exprs)
    ensures ArgsCode(StrippedArgs(es)) == ArgsCode(es) && Count(StrippedArgs(es)) == Count(es)
    decreases es
  {
    if es.Then? {
      StrippedCode(es.head);
      StrippedArgsCode(es.tail);
    }
  }

  /** It needs the same stack, and is typed if no operator of two operands was lost. */
  lemma {:induction false} StrippedTyped(e: Expr)
    ensures Depth(Stripped(e)) == Depth(e) && (Lost(e) == 0 ==> Typed(Stripped(e)))
    decreases e
  {
    hide CodeOf;
    match e
    case Binary(_, l, r) => StrippedTyped(l); StrippedTyped(r); StrippedCode(l);
    case Inverse(x) => StrippedTyped(x); StrippedCode(x);
    case Assign(_, x) => StrippedTyped(x);
    case Deref(p) => StrippedTyped(p); StrippedCode(p);
    case StoreThrough(p, x) => StrippedTyped(p); StrippedTyped(x); StrippedCode(p);
    case Invoke(_, args) => StrippedArgsTyped(args);
    case _ =>
  }

  lemma {:induction false} StrippedArgsTyped(es: Exprs)
    ensures ArgsDepth(StrippedArgs(es)) == ArgsDepth(es) && (LostIn(es) == 0 ==> AllTyped(StrippedArgs(es)))
    decreases es
  {
    if es.Then? {
      StrippedTyped(es.head);
      StrippedArgsTyped(es.tail);
    }
  }

  /**
   * Exactly when compiled code is right, typed or not: with an operator of two operands lost it never
   * is unless it stops; otherwise it is right exactly where the unary operators without a type make no
   * difference to the value.
   */
  lemma RightExactly(e: Expr, calls: Calls, s: Stack, m: Memory)
    requires Nodes(e) < 0x100 && |s| + Depth(e) <= FINSH_STACK_MAX
    ensures Lost(e) == 0 ==> (Computes(e, calls, s, m) <==> Eval(e, calls, m) == Eval(Stripped(e), calls, m))
    ensures Lost(e) > 0 && Play(CodeOf(e), calls, s, m).Some? ==> !Computes(e, calls, s, m)
  {
    hide Play, CodeOf, Eval, Lost, Typed, Depth, Size;
    StrippedCode(e);
    StrippedTyped(e);
    if Lost(e) == 0 {
      CodeComputes(Stripped(e), calls, s, m);
      PushedInjective(Eval(e, calls, m), Eval(Stripped(e), calls, m), s);
    } else if Play(CodeOf(e), calls, s, m).Some? {
      HeightExact(e, calls, s, m);
    }
  }

  lemma PushedInjective(v: Value, w: Value, s: Stack)
    ensures Pushed(v, s) == Pushed(w, s) <==> v == w
  {
    if v.Some? && w.Some? {
      var a, b := s + [v.value.0], s + [w.value.0];
      assert a[|s|] == v.value.0 && b[|s|] == w.value.0;
    }
  }

  /**
   * ~ and * over a call: the code is the call's own.  It is never right for ~, and right for * exactly
   * if the cell at the result's address holds that address.
   */
  lemma UnaryOverCall(f: dword, args: Exprs, calls: Calls, s: Stack, m: Memory)
    requires AllTyped(args) && |s| + Depth(Invoke(f, args)) <= FINSH_STACK_MAX
    ensures var x := Invoke(f, args);
            && CodeOf(Inverse(x)) == CodeOf(x) == CodeOf(Deref(x))
            && (Eval(x, calls, m).Some? ==>
                  var a := Eval(x, calls, m).value;
                  && !Computes(Inverse(x), calls, s, m)
                  && (Computes(Deref(x), calls, s, m) <==> Fetch(a.1, a.0) == a.0))
  {
    hide Play, Fetch;
    var x := Invoke(f, args);
    CodeComputes(x, calls, s, m);
    assert CodeOf(x) + [] == CodeOf(x);
    PushedInjective(Eval(x, calls, m), Eval(Inverse(x), calls, m), s);
    PushedInjective(Eval(x, calls, m), Eval(Deref(x), calls, m), s);
  }

  /** A type is not always needed: 0 & ~f() comes out right, because the lost ~ makes no difference. */
  lemma UntypedButRight(f: dword, calls: Calls, m: Memory)
    ensures var e := Binary(And, Const(0), Inverse(Invoke(f, NoExpr)));
            !Typed(e) && Lost(e) == 0 && Computes(e, calls, [], m)
  {
    hide Play, CodeOf, Apply;
    var x := Invoke(f, NoExpr);
    var y := Inverse(x);
    var e := Binary(And, Const(0), y);
    var r := calls(f, [], m);
    assert StrippedArgs(NoExpr) == NoExpr && LostIn(NoExpr) == 0 && ArgsDepth(NoExpr) == 0;
    assert Stripped(x) == x && Lost(x) == 0 && Depth(x) == 1;
    assert Stripped(y) == x && Lost(y) == 0 && Depth(y) == 1;
    assert EvalArgs(NoExpr, calls, m) == Some(([], m));
    assert Eval(x, calls, m) == Some(r);
    assert Eval(y, calls, m) == Some((Complement(r.0), r.1));
    assert Eval(Const(0), calls, m) == Some((0, m));
    NothingAndAnything(r.0);
    NothingAndAnything(Complement(r.0));
    FewNodes(f);
    RightExactly(e, calls, [], m);
  }

  lemma NothingAndAnything(v: dword)
    ensures Apply(And, 0, v) == Some(0)
  {
    NoBits(v, 32);
  }

  lemma {:induction false} NoBits(v: nat, n: nat)
    ensures Bitwise((x, y) => x && y, 0, v, n) == 0
  {
    if n > 0 {
      NoBits(v / 2, n - 1);
    }
  }

  lemma FewNodes(f: dword)
    ensures Nodes(Binary(And, Const(0), Inverse(Invoke(f, NoExpr)))) < 0x100
  {
    hide Size;
    NodeParts(Binary(And, Const(0), Inverse(Invoke(f, NoExpr))));
    NodeParts(Inverse(Invoke(f, NoExpr)));
    NodeParts(Invoke(f, NoExpr));
    LeafNodes(Const(0));
    SizeIs(Nil);
  }

  /** f() + 1 leaves f's result and 1 instead of their sum. */
  lemma CallFirstIsWrong(f: dword, calls: Calls, m: Memory)
    ensures var e := Binary(Add, Invoke(f, NoExpr), Const(1));
            && Eval(e, calls, m).Some?
            && Play(CodeOf(e), calls, [], m) == Some(([calls(f, [], m).0, 1], calls(f, [], m).1))
            && !Typed(e)
  {
    hide Play;
    var e := Binary(Add, Invoke(f, NoExpr), Const(1));
    var r := calls(f, [], m);
    assert Eval(Invoke(f, NoExpr), calls, m) == Some(r) by {
      assert EvalArgs(NoExpr, calls, m) == Some(([], m));
    }
    assert Eval(Const(1), calls, r.1) == Some((1, r.1));
    CodeComputes(Invoke(f, NoExpr), calls, [], m);
    CodeComputes(Const(1), calls, [r.0], r.1);
    assert CodeOf(e) == CodeOf(Invoke(f, NoExpr)) + CodeOf(Const(1));
    PlayConcat(CodeOf(Invoke(f, NoExpr)), CodeOf(Const(1)), calls, [], m);
    var none: Stack := [];
    assert none + [r.0] == [r.0] && [r.0] + [1] == [r.0, 1];
  }
}
