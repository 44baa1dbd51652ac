// The meaning of finsh expressions, and that compiled code computes it
// (finsh/finsh_compiler.c with finsh/finsh_ops.c and finsh/finsh_vm.c).
module FinshExpr {
  import opened Wrappers
  import opened Words
  import opened FinshArith
  import opened FinshVm
  import opened FinshCompiler

  /** A name that stands for a 32-bit variable; system variables are the exported ones. */
  datatype Place = Place(system: bool, address: dword)

  datatype Expr =
    | Const(value: dword)
    | Var(place: Place)
    | Binary(op: Operator, left: Expr, right: Expr)
    | Inverse(operand: Expr)
    | Assign(place: Place, rhs: Expr)
    | PreStepOf(address: dword, increment: bool)   // ++x, --x
    | PostStepOf(address: dword, increment: bool)  // x++, x--
    | Deref(pointer: Expr)
    | AddressOf(place: Place)
    | StoreThrough(pointer: Expr, rhs: Expr)       // *p = e
    | Invoke(callee: dword, args: Exprs)

  /** Arguments of a call, or the statements of a line. */
  datatype Exprs = NoExpr | Then(head: Expr, tail: Exprs)

  function Count(es: Exprs): nat {
    if es.NoExpr? then 0 else 1 + Count(es.tail)
  }

  // ----- The nodes the parser builds -----

  function IdOf(place: Place): Info {
    Info(IdNode, VoidType, if place.system then SysvarId else VarId, false, place.address)
  }

  function Plain(kind: Kind): Info {
    Info(kind, VoidType, NoId, false, 0)
  }

  function Session(address: dword): Place {
    Place(false, address)
  }

  /** The nodes of an expression, followed by sibling. */
  function TreeOf(e: Expr, sibling: Tree): (t: Tree)
    ensures t.Cons? && t.sibling == sibling
  {
    match e
    case Const(v) => Cons(Info(ValueNode, VoidType, NoId, false, v), Nil, sibling)
    case Var(place) => Cons(IdOf(place), Nil, sibling)
    case Binary(op, l, r) => Cons(Plain(OperatorNode(op)), TreeOf(l, TreeOf(r, Nil)), sibling)
    case Inverse(x) => Cons(Plain(BitwiseNode), TreeOf(x, Nil), sibling)
    case Assign(place, x) => Cons(Plain(AssignNode), Cons(IdOf(place), Nil, TreeOf(x, Nil)), sibling)
    case PreStepOf(a, inc) =>
      Cons(Plain(if inc then PreIncNode else PreDecNode), Cons(IdOf(Session(a)), Nil, Nil), sibling)
    case PostStepOf(a, inc) =>
      Cons(Plain(if inc then IncNode else DecNode), Cons(IdOf(Session(a)), Nil, Nil), sibling)
    case Deref(p) => Cons(Plain(GetValueNode), TreeOf(p, Nil), sibling)
    case AddressOf(place) => Cons(Plain(GetAddrNode), Cons(IdOf(place), Nil, Nil), sibling)
    case StoreThrough(p, x) =>
      Cons(Plain(AssignNode), Cons(Plain(GetValueNode), TreeOf(p, Nil), TreeOf(x, Nil)), sibling)
    case Invoke(f, args) =>
      Cons(Plain(FuncNode), Cons(Info(IdNode, VoidType, SyscallId, false, f), Nil, ListTree(args)), sibling)
  }

  function ListTree(es: Exprs): (t: Tree)
    ensures t.Nil? <==> es.NoExpr?
  {
    match es
    case NoExpr => Nil
    case Then(e, rest) => TreeOf(e, ListTree(rest))
  }

  // ----- What the source language means -----

  type Value = Option<(dword, Memory)>

  function Store(m: Memory, a: dword, v: Option<dword>): Value {
    match v
    case None => None
    case Some(x) => Some((x, m[a := x]))
  }

  function StepOperator(increment: bool): Operator {
    if increment then Add else Sub
  }

  /**
   * The value of an expression and the memory after it, operands from left to right; None where C leaves it
   * undefined.
   */
  function Eval(e: Expr, calls: Calls, m: Memory): Value {
    match e
    case Const(v) => Some((v, m))
    case Var(place) => Some((Fetch(m, place.address), m))
    case Binary(op, l, r) =>
      (match Eval(l, calls, m)
       case None => None
       case Some(a) =>
         match Eval(r, calls, a.1)
         case None => None
         case Some(b) =>
           match Apply(op, a.0, b.0)
           case None => None
           case Some(v) => Some((v, b.1)))
    case Inverse(x) =>
      (match Eval(x, calls, m)
       case None => None
       case Some(a) => Some((Complement(a.0), a.1)))
    case Assign(place, x) =>
      (match Eval(x, calls, m)
       case None => None
       case Some(a) => Some((a.0, a.1[place.address := a.0])))
    case PreStepOf(a, inc) => Store(m, a, Apply(StepOperator(inc), Fetch(m, a), 1))
    case PostStepOf(a, inc) =>
      (match Store(m, a, Apply(StepOperator(inc), Fetch(m, a), 1))
       case None => None
       case Some(b) => Some((Fetch(m, a), b.1)))
    case Deref(p) =>
      (match Eval(p, calls, m)
       case None => None
       case Some(a) => Some((Fetch(a.1, a.0), a.1)))
    case AddressOf(place) => Some((place.address, m))
    case StoreThrough(p, x) =>
      (match Eval(p, calls, m)
       case None => None
       case Some(a) =>
         match Eval(x, calls, a.1)
         case None => None
         case Some(b) => Some((b.0, b.1[a.0 := b.0])))
    case Invoke(f, args) =>
      match EvalArgs(args, calls, m)
      case None => None
      case Some(a) =>
        if |a.0| > MAX_PARAMETERS then None else Some(calls(f, a.0, a.1))
  }

  function EvalArgs(es: Exprs, calls: Calls, m: Memory): (r: Option<(seq<dword>, Memory)>)
    ensures r.Some? ==> |r.value.0| == Count(es)
  {
    match es
    case NoExpr => Some(([], m))
    case Then(e, rest) =>
      match Eval(e, calls, m)
      case None => None
      case Some(a) =>
        match EvalArgs(rest, calls, a.1)
        case None => None
        case Some(b) => Some(([a.0] + b.0, b.1))
  }

  /** Statements one after the other: only the last one's value is kept. */
  function EvalStatements(es: Exprs, calls: Calls, m: Memory): Option<(seq<dword>, Memory)> {
    match es
    case NoExpr => Some(([], m))
    case Then(e, rest) =>
      match Eval(e, calls, m)
      case None => None
      case Some(a) => if rest.NoExpr? then Some(([a.0], a.1)) else EvalStatements(rest, calls, a.1)
  }

  /** Small answers: operands from the left, and steps before and after. */
  lemma StepAnswers(a: dword, calls: Calls, m: Memory)
    ensures Eval(Binary(Sub, Const(5), Const(3)), calls, m) == Some((2, m))
    ensures var m1 := m[a := 5];
            && Eval(PreStepOf(a, true), calls, m1) == Some((6, m[a := 6]))
            && Eval(PreStepOf(a, false), calls, m1) == Some((4, m[a := 4]))
            && Eval(PostStepOf(a, true), calls, m1) == Some((5, m[a := 6]))
            && Eval(PostStepOf(a, false), calls, m1) == Some((5, m[a := 4]))
  {
    var m1 := m[a := 5];
    assert m1[a := 6] == m[a := 6] && m1[a := 4] == m[a := 4];
  }

  /** ++x - (x = 1): the left operand is evaluated first. */
  lemma OrderAnswer(a: dword, calls: Calls, m: Memory)
    ensures Eval(Binary(Sub, PreStepOf(a, true), Assign(Place(false, a), Const(1))), calls, m[a := 5]) ==
            Some((5, m[a := 1]))
  {
    hide Apply;
    StepAnswers(a, calls, m);
    SmallAnswers();
    var m6 := m[a := 6];
    assert m6[a := 1] == m[a := 1];
    assert Eval(Const(1), calls, m6) == Some((1, m6));
    assert Eval(Assign(Place(false, a), Const(1)), calls, m6) == Some((1, m6[a := 1]));
  }

  /** f(1, 2): the arguments in their order. */
  lemma CallAnswer(f: dword, calls: Calls, m: Memory)
    ensures Eval(Invoke(f, Then(Const(1), Then(Const(2), NoExpr))), calls, m) == Some(calls(f, [1, 2], m))
  {
    var none: seq<dword> := [];
    assert [2] + none == [2] && [1] + [2] == [1, 2];
    assert Eval(Const(2), calls, m) == Some((2, m)) && Eval(Const(1), calls, m) == Some((1, m));
    assert EvalArgs(NoExpr, calls, m) == Some((none, m));
    assert EvalArgs(Then(Const(2), NoExpr), calls, m) == Some(([2] + none, m));
    assert EvalArgs(Then(Const(1), Then(Const(2), NoExpr)), calls, m) == Some(([1] + [2], m));
  }

  // ----- The domain: no operator takes its type from a call -----

  /**
   * The type the check gives an expression: that of its first operand, which for a call is the untyped
   * function name.
   */
  function TypeIs(e: Expr): DataType {
    match e
    case Binary(_, l, _) => TypeIs(l)
    case Inverse(x) => TypeIs(x)
    case Deref(p) => TypeIs(p)
    case StoreThrough(p, _) => TypeIs(p)
    case Invoke(_, _) => VoidType
    case _ => DwordType
  }

  predicate Typed(e: Expr) {
    match e
    case Binary(_, l, r) => Typed(l) && Typed(r) && TypeIs(l) == DwordType
    case Inverse(x) => Typed(x) && TypeIs(x) == DwordType
    case Assign(_, x) => Typed(x)
    case Deref(p) => Typed(p) && TypeIs(p) == DwordType
    case StoreThrough(p, x) => Typed(p) && Typed(x) && TypeIs(p) == DwordType
    case Invoke(_, args) => AllTyped(args)
    case _ => true
  }

  predicate AllTyped(es: Exprs) {
    es.NoExpr? || (Typed(es.head) && AllTyped(es.tail))
  }

  // ----- The code, expression by expression -----

  function WhenTyped(e: Expr, prog: seq<Instr>): seq<Instr> {
    if TypeIs(e) == DwordType then prog else []
  }

  /** The code of an expression. */
  function CodeOf(e: Expr): seq<Instr> {
    match e
    case Const(v) => [Ld(v)]
    case Var(place) => [LdValue(place.address)]
    case Binary(op, l, r) => CodeOf(l) + CodeOf(r) + WhenTyped(l, [Arith(op)])
    case Inverse(x) => CodeOf(x) + WhenTyped(x, [Not])
    case Assign(place, x) => [Ld(place.address)] + CodeOf(x) + [St, LdStack]
    case PreStepOf(a, inc) => [Ld(a)] + PreStep(a, StepOperator(inc))
    case PostStepOf(a, inc) => [LdValue(a)] + PostStep(a, StepOperator(inc))
    case Deref(p) => CodeOf(p) + WhenTyped(p, [LdStack])
    case AddressOf(place) => [Ld(place.address)]
    case StoreThrough(p, x) => CodeOf(p) + CodeOf(x) + WhenTyped(p, [St, LdStack])
    case Invoke(f, args) => [Ld(f)] + ArgsCode(args) + [Call(Count(args) % 0x100)]
  }

  function ArgsCode(es: Exprs): seq<Instr> {
    if es.NoExpr? then [] else CodeOf(es.head) + ArgsCode(es.tail)
  }

  /** A checked node's own part and type, given its checked children. */
  lemma NodeCode(n: Info, child: Tree, sibling: Tree, isAddr: bool)
    ensures var c := Check(child, ChildAddress(n.kind, isAddr));
            var t := Check(Cons(n, child, sibling), isAddr);
            && t == Cons(Annotate(n, isAddr, TypeOf(c)), c, Check(sibling, false))
            && Generate(t) == Generate(c) + Own(Annotate(n, isAddr, TypeOf(c)), c) + Generate(Check(sibling, false))
  {
  }

  lemma NilCode()
    ensures Check(Nil, true) == Check(Nil, false) == Nil && Generate(Nil) == []
  {
  }

  /** An identifier that stands for an address. */
  lemma AddressCode(place: Place, sibling: Tree)
    ensures var t := Check(Cons(IdOf(place), Nil, sibling), true);
            && Generate(t) == [Ld(place.address)] + Generate(Check(sibling, false))
            && t.Cons? && t.info.kind == IdNode && t.info.dataType == DwordType && t.info.value == place.address
  {
    hide Check, Generate;
    NodeCode(IdOf(place), Nil, sibling, true);
    NilCode();
  }

  lemma ValueCode(place: Place, sibling: Tree)
    ensures var t := Check(Cons(IdOf(place), Nil, sibling), false);
            && Generate(t) == [LdValue(place.address)] + Generate(Check(sibling, false))
            && t.Cons? && t.info.kind == IdNode && t.info.dataType == DwordType && t.info.value == place.address
  {
    hide Check, Generate;
    NodeCode(IdOf(place), Nil, sibling, false);
    NilCode();
  }

  /** Expressions that contain no other expression. */
  predicate IsLeaf(e: Expr) {
    e.Const? || e.Var? || e.PreStepOf? || e.PostStepOf? || e.AddressOf?
  }

  /** The type check and the generator together produce e's code in front of the sibling's. */
  ghost predicate Generates(e: Expr, sibling: Tree) {
    var t := Check(TreeOf(e, sibling), false);
    && t.Cons? && t.info.dataType == TypeIs(e)
    && Generate(t) == CodeOf(e) + Generate(Check(sibling, false))
  }

  lemma GeneratesLeaf(e: Expr, sibling: Tree)
    requires IsLeaf(e)
    ensures Generates(e, sibling)
  {
    hide Check, Generate, TreeOf, CodeOf, Own, Annotate;
    match e
    case Const(v) => GeneratesConst(v, sibling);
    case Var(place) => GeneratesVar(place, sibling);
    case PreStepOf(a, inc) => GeneratesPre(a, inc, sibling);
    case PostStepOf(a, inc) => GeneratesPost(a, inc, sibling);
    case AddressOf(place) => GeneratesAddress(place, sibling);
  }

  lemma GeneratesConst(v: dword, sibling: Tree)
    ensures Generates(Const(v), sibling)
  {
    hide Check, Generate;
    NodeCode(Info(ValueNode, VoidType, NoId, false, v), Nil, sibling, false);
    NilCode();
  }

  lemma GeneratesVar(place: Place, sibling: Tree)
    ensures Generates(Var(place), sibling)
  {
    hide Check, Generate, Own, Annotate;
    ValueCode(place, sibling);
  }

  lemma GeneratesPre(a: dword, inc: bool, sibling: Tree)
    ensures Generates(PreStepOf(a, inc), sibling)
  {
    hide Check, Generate;
    var child, n := Cons(IdOf(Session(a)), Nil, Nil), Plain(if inc then PreIncNode else PreDecNode);
    NodeCode(n, child, sibling, false);
    AddressCode(Session(a), Nil);
    NilCode();
    var c := Check(child, true);
    assert Generate(c) == [Ld(a)];
    assert Own(Annotate(n, false, TypeOf(c)), c) == PreStep(a, StepOperator(inc));
  }

  lemma GeneratesPost(a: dword, inc: bool, sibling: Tree)
    ensures Generates(PostStepOf(a, inc), sibling)
  {
    hide Check, Generate;
    var child, n := Cons(IdOf(Session(a)), Nil, Nil), Plain(if inc then IncNode else DecNode);
    NodeCode(n, child, sibling, false);
    ValueCode(Session(a), Nil);
    NilCode();
    var c := Check(child, false);
    assert Generate(c) == [LdValue(a)];
    assert Own(Annotate(n, false, TypeOf(c)), c) == PostStep(a, StepOperator(inc));
  }

  lemma GeneratesAddress(place: Place, sibling: Tree)
    ensures Generates(AddressOf(place), sibling)
  {
    hide Check, Generate;
    NodeCode(Plain(GetAddrNode), Cons(IdOf(place), Nil, Nil), sibling, false);
    AddressCode(place, Nil);
    NilCode();
    assert [Ld(place.address)] + [] == [Ld(place.address)];
  }

  lemma GeneratesInverse(x: Expr, sibling: Tree)
    requires Generates(x, Nil)
    ensures Generates(Inverse(x), sibling)
  {
    hide Check, Generate;
    NodeCode(Plain(BitwiseNode), TreeOf(x, Nil), sibling, false);
    NilCode();
    var c := Check(TreeOf(x, Nil), false);
    assert Generate(c) == CodeOf(x);
    assert Own(Annotate(Plain(BitwiseNode), false, TypeOf(c)), c) == WhenTyped(x, [Not]);
  }

  lemma GeneratesDeref(p: Expr, sibling: Tree)
    requires Generates(p, Nil)
    ensures Generates(Deref(p), sibling)
  {
    hide Check, Generate;
    NodeCode(Plain(GetValueNode), TreeOf(p, Nil), sibling, false);
    NilCode();
    var c := Check(TreeOf(p, Nil), false);
    assert Generate(c) == CodeOf(p);
    assert Own(Annotate(Plain(GetValueNode), false, TypeOf(c)), c) == WhenTyped(p, [LdStack]);
  }

  lemma GeneratesBinary(op: Operator, l: Expr, r: Expr, sibling: Tree)
    requires Generates(l, TreeOf(r, Nil)) && Generates(r, Nil)
    ensures Generates(Binary(op, l, r), sibling)
  {
    hide Check, Generate;
    NodeCode(Plain(OperatorNode(op)), TreeOf(l, TreeOf(r, Nil)), sibling, false);
    NilCode();
  }

  lemma GeneratesAssign(place: Place, x: Expr, sibling: Tree)
    requires Generates(x, Nil)
    ensures Generates(Assign(place, x), sibling)
  {
    hide Check, Generate;
    NodeCode(Plain(AssignNode), Cons(IdOf(place), Nil, TreeOf(x, Nil)), sibling, false);
    AddressCode(place, TreeOf(x, Nil));
    NilCode();
  }

  lemma StoreShape(p: Expr, x: Expr, sibling: Tree)
    ensures TreeOf(StoreThrough(p, x), sibling) ==
            Cons(Plain(AssignNode), Cons(Plain(GetValueNode), TreeOf(p, Nil), TreeOf(x, Nil)), sibling)
    ensures CodeOf(StoreThrough(p, x)) == CodeOf(p) + CodeOf(x) + WhenTyped(p, [St, LdStack])
    ensures TypeIs(StoreThrough(p, x)) == TypeIs(p)
  {
  }

  lemma GeneratesStore(p: Expr, x: Expr, sibling: Tree)
    requires Generates(p, Nil) && Generates(x, Nil)
    ensures Generates(StoreThrough(p, x), sibling)
  {
    hide Check, Generate, TreeOf, CodeOf, TypeIs;
    StoreShape(p, x, sibling);
    var child := Cons(Plain(GetValueNode), TreeOf(p, Nil), TreeOf(x, Nil));
    NodeCode(Plain(AssignNode), child, sibling, false);
    NodeCode(Plain(GetValueNode), TreeOf(p, Nil), TreeOf(x, Nil), true);
    NilCode();
    var c := Check(child, true);
    assert Generate(c) == CodeOf(p) + CodeOf(x);
    assert Own(Annotate(Plain(AssignNode), false, TypeOf(c)), c) == WhenTyped(p, [St, LdStack]);
  }

  lemma GeneratesInvoke(f: dword, args: Exprs, sibling: Tree)
    requires Generate(Check(ListTree(args), false)) == ArgsCode(args) && Length(ListTree(args)) == Count(args)
    ensures Generates(Invoke(f, args), sibling)
  {
    hide Check, Generate, Length, Count, ListTree, ArgsCode;
    var id := Info(IdNode, VoidType, SyscallId, false, f);
    var child := Cons(id, Nil, ListTree(args));
    NodeCode(Plain(FuncNode), child, sibling, false);
    NodeCode(id, Nil, ListTree(args), false);
    CheckLength(ListTree(args));
    NilCode();
    var c := Check(child, false);
    assert Generate(c) == [Ld(f)] + ArgsCode(args);
    assert Own(Annotate(Plain(FuncNode), false, TypeOf(c)), c) == [Call(Count(args) % 0x100)];
  }

  lemma {:induction false} GeneratedCode(e: Expr, sibling: Tree)
    ensures Generates(e, sibling)
    decreases e
  {
    hide *;
    match e
    case Binary(op, l, r) =>
      GeneratedCode(l, TreeOf(r, Nil));
      GeneratedCode(r, Nil);
      GeneratesBinary(op, l, r, sibling);
    case Inverse(x) =>
      GeneratedCode(x, Nil);
      GeneratesInverse(x, sibling);
    case Assign(place, x) =>
      GeneratedCode(x, Nil);
      GeneratesAssign(place, x, sibling);
    case Deref(p) =>
      GeneratedCode(p, Nil);
      GeneratesDeref(p, sibling);
    case StoreThrough(p, x) =>
      GeneratedCode(p, Nil);
      GeneratedCode(x, Nil);
      GeneratesStore(p, x, sibling);
    case Invoke(f, args) =>
      GeneratedArgs(args);
      GeneratesInvoke(f, args, sibling);
    case _ =>
      LeafIs(e);
      GeneratesLeaf(e, sibling);
  }

  lemma LeafIs(e: Expr)
    requires e.Const? || e.Var? || e.PreStepOf? || e.PostStepOf? || e.AddressOf?
    ensures IsLeaf(e)
  {
  }

  lemma {:induction false} GeneratedArgs(es: Exprs)
    ensures Length(ListTree(es)) == Count(es)
    ensures Generate(Check(ListTree(es), false)) == ArgsCode(es)
    decreases es
  {
    hide Check, Generate;
    NilCode();
    if es.Then? {
      GeneratedCode(es.head, ListTree(es.tail));
      GeneratedArgs(es.tail);
    }
  }

  lemma {:induction false} CheckLength(t: Tree)
    ensures Length(Check(t, false)) == Length(t)
  {
    if t.Cons? { CheckLength(t.sibling); }
  }
}
