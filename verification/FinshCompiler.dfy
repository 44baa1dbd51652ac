// The finsh compiler: type check and code generation over a table of
// first-child / next-sibling nodes (finsh/finsh_compiler.c).
module FinshCompiler {
  import opened Wrappers
  import opened Words
  import opened FinshArith
  import opened FinshVm

  const FINSH_NODE_MAX: nat := 16

  /** Types a 32-bit program can meet: VOID for what the type check leaves alone, DWORD for the rest. */
  datatype DataType = VoidType | DwordType

  datatype IdType = NoId | VarId | SysvarId | SyscallId

  datatype Kind =
    | IdNode
    | ValueNode
    | OperatorNode(op: Operator)
    | BitwiseNode
    | FuncNode
    | AssignNode
    | PreIncNode
    | PreDecNode
    | IncNode
    | DecNode
    | GetValueNode
    | GetAddrNode

  /** The fields of a node but its links.  value is a constant, a variable's address or a function's address. */
  datatype Info = Info(kind: Kind, dataType: DataType, idType: IdType, address: bool, value: dword)

  /** A node with all that hangs below it and beside it. */
  datatype Tree = Nil | Cons(info: Info, child: Tree, sibling: Tree)

  function Length(t: Tree): nat {
    if t.Nil? then 0 else 1 + Length(t.sibling)
  }

  function Size(t: Tree): nat {
    if t.Nil? then 0 else 1 + Size(t.child) + Size(t.sibling)
  }

  // ----- The type check -----

  /** Whether the children of a node are wanted as addresses. */
  function ChildAddress(kind: Kind, isAddr: bool): bool {
    if kind in {AssignNode, PreIncNode, PreDecNode, GetAddrNode} then true
    else if kind == GetValueNode && isAddr then false
    else isAddr
  }

  /** A node's own fields after the check, given the first child's type if there is a child. */
  function Annotate(n: Info, isAddr: bool, first: Option<DataType>): Info {
    var m := if n.idType == SyscallId && !n.address then n else n.(address := n.address || isAddr);
    if first.Some? then m.(dataType := first.value)
    else if n.kind == IdNode && n.idType in {VarId, SysvarId} then m.(dataType := DwordType)
    else if n.kind == ValueNode then m.(dataType := DwordType)
    else m
  }

  function TypeOf(t: Tree): Option<DataType> {
    if t.Nil? then None else Some(t.info.dataType)
  }

  /** What finsh_type_check makes of a tree. */
  function Check(t: Tree, isAddr: bool): (r: Tree)
    ensures r.Nil? <==> t.Nil?
  {
    match t
    case Nil => Nil
    case Cons(n, child, sibling) =>
      var c := Check(child, ChildAddress(n.kind, isAddr));
      Cons(Annotate(n, isAddr, TypeOf(c)), c, Check(sibling, false))
  }

  // ----- Code generation -----

  /** The instructions of one node, which come after its children's. */
  function Own(n: Info, child: Tree): seq<Instr> {
    match n.kind
    case IdNode => if n.idType == SyscallId || n.address then [Ld(n.value)] else [LdValue(n.value)]
    case ValueNode => [Ld(n.value)]
    case OperatorNode(op) => if n.dataType == DwordType then [Arith(op)] else []
    case BitwiseNode => if n.dataType == DwordType then [Not] else []
    case FuncNode => if child.Nil? then [] else [Call(Length(child.sibling) % 0x100)]
    case AssignNode =>
      if child.Cons? && child.info.kind in {IdNode, GetValueNode} && child.info.dataType == DwordType
      then [St, LdStack] else []
    case PreIncNode => if Target(n, child) then PreStep(child.info.value, Add) else []
    case PreDecNode => if Target(n, child) then PreStep(child.info.value, Sub) else []
    case IncNode => if Target(n, child) then PostStep(child.info.value, Add) else []
    case DecNode => if Target(n, child) then PostStep(child.info.value, Sub) else []
    case GetValueNode => if n.address || n.dataType != DwordType then [] else [LdStack]
    case GetAddrNode => []
  }

  predicate Target(n: Info, child: Tree) {
    child.Cons? && child.info.kind == IdNode && n.dataType == DwordType
  }

  /** The address is already on the stack. */
  function PreStep(a: dword, op: Operator): seq<Instr> {
    [LdValue(a), Ld(1), Arith(op), St, LdStack]
  }

  /** The old value is already on the stack. */
  function PostStep(a: dword, op: Operator): seq<Instr> {
    [Ld(a), LdValue(a), Ld(1), Arith(op), St, Pop]
  }

  /** What finsh_compile generates for a checked tree. */
  function Generate(t: Tree): seq<Instr> {
    match t
    case Nil => []
    case Cons(n, child, sibling) => Generate(child) + Own(n, child) + Generate(sibling)
  }

  /** What finsh_compiler_run generates for a list of statements, given the checked list. */
  function GenerateList(t: Tree): seq<Instr> {
    match t
    case Nil => []
    case Cons(n, child, sibling) =>
      Generate(Cons(n, child, Nil)) + (if sibling.Nil? then [] else [Pop] + GenerateList(sibling))
  }

  // ----- The node table -----

  const NULL: int := -1

  datatype Node = Node(info: Info, child: int, sibling: int)

  ghost function Slots(nodes: seq<Node>, p: int, t: Tree): set<int>
    decreases t
  {
    if t.Nil? || !(0 <= p < |nodes|) then {}
    else {p} + Slots(nodes, nodes[p].child, t.child) + Slots(nodes, nodes[p].sibling, t.sibling)
  }

  /** The nodes from p on are the tree t, no node in two places. */
  ghost predicate Holds(nodes: seq<Node>, p: int, t: Tree)
    decreases t
  {
    match t
    case Nil => p == NULL
    case Cons(n, child, sibling) =>
      && 0 <= p < |nodes| && nodes[p].info == n
      && Holds(nodes, nodes[p].child, child) && Holds(nodes, nodes[p].sibling, sibling)
      && p !in Slots(nodes, nodes[p].child, child) && p !in Slots(nodes, nodes[p].sibling, sibling)
      && Slots(nodes, nodes[p].child, child) !! Slots(nodes, nodes[p].sibling, sibling)
  }

  lemma {:induction false} HoldsFrame(a: seq<Node>, b: seq<Node>, p: int, t: Tree)
    requires Holds(a, p, t) && |a| == |b|
    requires forall i | i in Slots(a, p, t) && 0 <= i < |a| :: a[i] == b[i]
    ensures Holds(b, p, t) && Slots(b, p, t) == Slots(a, p, t)
    decreases t
  {
    if t.Cons? {
      HoldsFrame(a, b, a[p].child, t.child);
      HoldsFrame(a, b, a[p].sibling, t.sibling);
    }
  }

  /** b is a with other fields, but the same links, in the nodes of s. */
  ghost predicate Relabelled(a: seq<Node>, b: seq<Node>, s: set<int>) {
    && |a| == |b|
    && (forall i | 0 <= i < |a| && i !in s :: a[i] == b[i])
    && (forall i | 0 <= i < |a| :: a[i].child == b[i].child && a[i].sibling == b[i].sibling)
  }

  /** Checking the child, then the sibling, then the node itself leaves the checked tree behind. */
  lemma CheckedHolds(a: seq<Node>, b: seq<Node>, c: seq<Node>, d: seq<Node>, p: int, t: Tree, isAddr: bool)
    requires t.Cons? && Holds(a, p, t)
    requires var x, y := a[p].child, a[p].sibling;
             && Relabelled(a, b, Slots(a, x, t.child))
             && Holds(b, x, Check(t.child, ChildAddress(t.info.kind, isAddr)))
             && Slots(b, x, Check(t.child, ChildAddress(t.info.kind, isAddr))) == Slots(a, x, t.child)
             && Relabelled(b, c, Slots(a, y, t.sibling))
             && Holds(c, y, Check(t.sibling, false)) && Slots(c, y, Check(t.sibling, false)) == Slots(a, y, t.sibling)
    requires d == c[p := Node(Check(t, isAddr).info, c[p].child, c[p].sibling)]
    ensures Holds(d, p, Check(t, isAddr)) && Slots(d, p, Check(t, isAddr)) == Slots(a, p, t)
    ensures Relabelled(a, d, Slots(a, p, t))
  {
    hide *;
    HoldsParts(a, p, t);
    var x, y := a[p].child, a[p].sibling;
    var tc, ts := Check(t.child, ChildAddress(t.info.kind, isAddr)), Check(t.sibling, false);
    RelabelledLinks(a, b, Slots(a, x, t.child), p);
    RelabelledLinks(b, c, Slots(a, y, t.sibling), p);
    CheckParts(t, isAddr);
    RelabelMore(a, b, c, d, p, Slots(a, x, t.child), Slots(a, y, t.sibling), Slots(a, p, t));
    HoldsFrame(b, d, x, tc);
    HoldsFrame(c, d, y, ts);
    HoldsWhole(d, p, Check(t, isAddr));
  }

  lemma HoldsParts(nodes: seq<Node>, p: int, t: Tree)
    requires t.Cons? && Holds(nodes, p, t)
    ensures 0 <= p < |nodes| && nodes[p].info == t.info
    ensures var x, y := nodes[p].child, nodes[p].sibling;
            && Holds(nodes, x, t.child) && Holds(nodes, y, t.sibling)
            && p !in Slots(nodes, x, t.child) && p !in Slots(nodes, y, t.sibling)
            && Slots(nodes, x, t.child) !! Slots(nodes, y, t.sibling)
            && Slots(nodes, p, t) == {p} + Slots(nodes, x, t.child) + Slots(nodes, y, t.sibling)
  {
  }

  lemma HoldsWhole(nodes: seq<Node>, p: int, t: Tree)
    requires t.Cons? && 0 <= p < |nodes| && nodes[p].info == t.info
    requires var x, y := nodes[p].child, nodes[p].sibling;
             && Holds(nodes, x, t.child) && Holds(nodes, y, t.sibling)
             && p !in Slots(nodes, x, t.child) && p !in Slots(nodes, y, t.sibling)
             && Slots(nodes, x, t.child) !! Slots(nodes, y, t.sibling)
    ensures Holds(nodes, p, t)
    ensures Slots(nodes, p, t) == {p} + Slots(nodes, nodes[p].child, t.child) + Slots(nodes, nodes[p].sibling,
            t.sibling)
  {
  }

  lemma RelabelMore(a: seq<Node>, b: seq<Node>, c: seq<Node>, d: seq<Node>, p: int, s1: set<int>, s2: set<int>,
                    s: set<int>)
    requires Relabelled(a, b, s1) && Relabelled(b, c, s2) && s == {p} + s1 + s2 && s1 !! s2 && p !in s1 && p !in s2
    requires 0 <= p < |c| == |d| && d == c[p := Node(d[p].info, c[p].child, c[p].sibling)]
    ensures Relabelled(a, d, s)
    ensures forall i | i in s1 && 0 <= i < |b| :: b[i] == d[i]
    ensures forall i | i in s2 && 0 <= i < |c| :: c[i] == d[i]
    ensures d[p].child == a[p].child && d[p].sibling == a[p].sibling
  {
  }

  lemma CheckParts(t: Tree, isAddr: bool)
    requires t.Cons?
    ensures var c := Check(t.child, ChildAddress(t.info.kind, isAddr));
            Check(t, isAddr) == Cons(Annotate(t.info, isAddr, TypeOf(c)), c, Check(t.sibling, false))
  {
  }

  // ----- Writing the text segment -----

  /** The text segment with bs stored from start on. */
  ghost predicate Written(before: seq<byte>, after: seq<byte>, start: nat, pc: nat, bs: seq<byte>) {
    && pc == start + |bs| <= |before|
    && after == before[..start] + bs + before[pc..]
  }

  lemma WrittenNothing(before: seq<byte>, start: nat)
    requires start <= |before|
    ensures Written(before, before, start, start, [])
  {
    assert before == before[..start] + [] + before[start..];
  }

  lemma WrittenMore(a: seq<byte>, b: seq<byte>, c: seq<byte>, start: nat, mid: nat, pc: nat, x: seq<byte>, y: seq<byte>)
    requires Written(a, b, start, mid, x) && Written(b, c, mid, pc, y)
    ensures Written(a, c, start, pc, x + y)
  {
    assert b[..mid] == a[..start] + x;
    assert b[pc..] == a[pc..];
  }

  lemma CodeOfPrefix(prog: seq<Instr>, k: nat)
    requires k < |prog|
    ensures Code(prog[..k + 1]) == Code(prog[..k]) + Bytes(prog[k])
    ensures |Code(prog[..k + 1])| <= |Code(prog)|
  {
    hide Bytes;
    CodeConcat(prog[..k], [prog[k]]);
    assert prog[..k + 1] == prog[..k] + [prog[k]];
    assert Code([prog[k]]) == Bytes(prog[k]) + Code([]);
    CodeConcat(prog[..k + 1], prog[k + 1..]);
    assert prog == prog[..k + 1] + prog[k + 1..];
  }

  class Compiler {
    const text: array<byte>
    var nodes: seq<Node>
    var pc: nat

    constructor (text: array<byte>, nodes: seq<Node>)
      ensures this.text == text && this.nodes == nodes && pc == 0
    {
      this.text := text;
      this.nodes := nodes;
      pc := 0;
    }

    /** finsh_type_check */
    method TypeCheck(node: int, isAddr: bool, ghost t: Tree)
      requires Holds(nodes, node, t)
      modifies this`nodes
      ensures Holds(nodes, node, Check(t, isAddr))
      ensures Slots(nodes, node, Check(t, isAddr)) == old(Slots(nodes, node, t))
      ensures Relabelled(old(nodes), nodes, old(Slots(nodes, node, t)))
      decreases t
    {
      hide *;
      NullHolds(nodes, node, t);
      if node == NULL {
        CheckNil(nodes, node, t, isAddr);
        return;
      }
      HoldsParts(nodes, node, t);
      ghost var a := nodes;
      var kind := nodes[node].info.kind;
      TypeCheck(nodes[node].child, ChildAddress(kind, isAddr), t.child);
      ghost var b := nodes;
      RelabelledLinks(a, b, Slots(a, a[node].child, t.child), node);
      SiblingUntouched(a, b, node, t);
      TypeCheck(nodes[node].sibling, false, t.sibling);
      ghost var c := nodes;
      RelabelledLinks(b, c, Slots(a, a[node].sibling, t.sibling), node);
      ChildStill(a, b, c, node, t, isAddr);
      var n := nodes[node];
      var first := if n.child == NULL then None else Some(nodes[n.child].info.dataType);
      nodes := nodes[node := n.(info := Annotate(n.info, isAddr, first))];
      CheckParts(t, isAddr);
      CheckedHolds(a, b, c, nodes, node, t, isAddr);
    }

    /** finsh_code_byte and finsh_code_dword, for instruction k of prog. */
    method Emit(i: Instr, ghost before: seq<byte>, ghost start: nat, ghost prog: seq<Instr>, ghost k: nat)
      requires k < |prog| && prog[k] == i && start + |Code(prog)| <= |before| == text.Length
      requires Written(before, text[..], start, pc, Code(prog[..k]))
      modifies this`pc, text
      ensures Written(before, text[..], start, pc, Code(prog[..k + 1]))
    {
      hide Code, Written;
      CodeOfPrefix(prog, k);
      ghost var mid, p := text[..], pc;
      WrittenEnd(before, mid, start, pc, Code(prog[..k]));
      var bs := Bytes(i);
      forall j | 0 <= j < |bs| { text[pc + j] := bs[j]; }
      pc := pc + |bs|;
      Stored(mid, text[..], p, bs);
      WrittenMore(before, mid, text[..], start, p, pc, Code(prog[..k]), bs);
    }

    /** The parameters of a call: the nodes after the function's. */
    method CountSiblings(first: int, ghost t: Tree) returns (parameters: nat)
      requires Holds(nodes, first, t)
      ensures parameters == Length(t)
    {
      parameters := 0;
      var sibling := first;
      ghost var rest := t;
      while sibling != NULL
        invariant Holds(nodes, sibling, rest) && parameters + Length(rest) == Length(t)
        decreases rest
      {
        parameters := parameters + 1;
        sibling := nodes[sibling].sibling;
        rest := rest.sibling;
      }
    }

    /** The switch of finsh_compile on the node type. */
    method CompileOwn(node: int, ghost t: Tree)
      requires t.Cons? && Holds(nodes, node, t) && pc + |Code(Own(t.info, t.child))| <= text.Length
      modifies this`pc, text
      ensures Written(old(text[..]), text[..], old(pc), pc, Code(Own(t.info, t.child)))
    {
      hide Code, Written, Slots, Length;
      ghost var own := Own(t.info, t.child);
      ghost var before, start := text[..], pc;
      WrittenNothing(before, start);
      CodeOfNothing(own);
      var n := nodes[node].info;
      var child := nodes[node].child;
      assert Holds(nodes, child, t.child);
      match n.kind {
        case IdNode =>
          if n.idType == SyscallId || n.address {
            Emit(Ld(n.value), before, start, own, 0);
          } else {
            Emit(LdValue(n.value), before, start, own, 0);
          }
        case ValueNode => Emit(Ld(n.value), before, start, own, 0);
        case OperatorNode(op) =>
          if n.dataType == DwordType { Emit(Arith(op), before, start, own, 0); }
        case BitwiseNode =>
          if n.dataType == DwordType { Emit(Not, before, start, own, 0); }
        case FuncNode =>
          if child != NULL {
            var parameters := CountSiblings(nodes[child].sibling, t.child.sibling);
            Emit(Call(parameters % 0x100), before, start, own, 0);
          }
        case AssignNode =>
          if child != NULL && (nodes[child].info.kind == IdNode || nodes[child].info.kind == GetValueNode)
             && nodes[child].info.dataType == DwordType {
            Emit(St, before, start, own, 0);
            Emit(LdStack, before, start, own, 1);
          }
        case PreIncNode => CompilePre(n, child, Add, before, start, t);
        case PreDecNode => CompilePre(n, child, Sub, before, start, t);
        case IncNode => CompilePost(n, child, Add, before, start, t);
        case DecNode => CompilePost(n, child, Sub, before, start, t);
        case GetValueNode =>
          if !n.address && n.dataType == DwordType { Emit(LdStack, before, start, own, 0); }
        case GetAddrNode =>
      }
      assert own[..|own|] == own;
    }

    method CompilePre(n: Info, child: int, op: Operator, ghost before: seq<byte>, ghost start: nat, ghost t: Tree)
      requires t.Cons? && Holds(nodes, child, t.child) && n == t.info
      requires Own(n, t.child) == if Target(n, t.child) then PreStep(t.child.info.value, op) else []
      requires start + |Code(Own(n, t.child))| <= |before| == text.Length && Written(before, text[..], start, pc, [])
      modifies this`pc, text
      ensures Written(before, text[..], start, pc, Code(Own(n, t.child)))
    {
      hide Code, Written, Slots, Own;
      ghost var own := Own(n, t.child);
      CodeOfNothing(own);
      if child != NULL && nodes[child].info.kind == IdNode && n.dataType == DwordType {
        var a := nodes[child].info.value;
        Emit(LdValue(a), before, start, own, 0);
        Emit(Ld(1), before, start, own, 1);
        Emit(Arith(op), before, start, own, 2);
        Emit(St, before, start, own, 3);
        Emit(LdStack, before, start, own, 4);
      }
      assert own[..|own|] == own;
    }

    method CompilePost(n: Info, child: int, op: Operator, ghost before: seq<byte>, ghost start: nat, ghost t: Tree)
      requires t.Cons? && Holds(nodes, child, t.child) && n == t.info
      requires Own(n, t.child) == if Target(n, t.child) then PostStep(t.child.info.value, op) else []
      requires start + |Code(Own(n, t.child))| <= |before| == text.Length && Written(before, text[..], start, pc, [])
      modifies this`pc, text
      ensures Written(before, text[..], start, pc, Code(Own(n, t.child)))
    {
      hide Code, Written, Slots, Own;
      ghost var own := Own(n, t.child);
      CodeOfNothing(own);
      if child != NULL && nodes[child].info.kind == IdNode && n.dataType == DwordType {
        var a := nodes[child].info.value;
        Emit(Ld(a), before, start, own, 0);
        Emit(LdValue(a), before, start, own, 1);
        Emit(Ld(1), before, start, own, 2);
        Emit(Arith(op), before, start, own, 3);
        Emit(St, before, start, own, 4);
        Emit(Pop, before, start, own, 5);
      }
      assert own[..|own|] == own;
    }

    /** finsh_compile: the child, the node, the sibling. */
    method Compile(node: int, ghost t: Tree)
      requires Holds(nodes, node, t) && pc + |Code(Generate(t))| <= text.Length
      modifies this`pc, text
      ensures Written(old(text[..]), text[..], old(pc), pc, Code(Generate(t)))
      decreases t
    {
      hide *;
      NullHolds(nodes, node, t);
      WrittenNothing(text[..], pc);
      if node == NULL {
        GenerateNil(t);
        return;
      }
      HoldsParts(nodes, node, t);
      GenerateParts(t);
      ghost var a, p := text[..], pc;
      ghost var x, y, z := Code(Generate(t.child)), Code(Own(t.info, t.child)), Code(Generate(t.sibling));
      Compile(nodes[node].child, t.child);
      ghost var b := text[..];
      WrittenEnd(a, b, p, pc, x);
      CompileOwn(node, t);
      ghost var c := text[..];
      WrittenMore(a, b, c, p, p + |x|, pc, x, y);
      WrittenEnd(a, c, p, pc, x + y);
      Compile(nodes[node].sibling, t.sibling);
      WrittenMore(a, c, text[..], p, p + |x + y|, pc, x + y, z);
    }

    /** finsh_compiler_run: check, clear the text, then compile the statements one by one with a pop between them. */
    method CompilerRun(node: int, ghost t: Tree)
      requires Holds(nodes, node, t) && |Code(GenerateList(Check(t, false)))| <= text.Length
      modifies this`nodes, this`pc, text
      ensures var bs := Code(GenerateList(Check(t, false)));
              && text[..|bs|] == bs
              && forall k | |bs| <= k < text.Length :: text[k] == 0
    {
      hide *;
      TypeCheck(node, false, t);
      forall i | 0 <= i < text.Length { text[i] := 0; }
      pc := 0;
      ghost var zeros := text[..];
      ghost var all := GenerateList(Check(t, false));
      ghost var prog: seq<Instr>, rest := [], Check(t, false);
      WrittenNothing(zeros, 0);
      CodeOfNothing(all);
      assert all[..0] == [];
      var sibling := node;
      while sibling != NULL
        invariant Holds(nodes, sibling, rest)
        invariant prog + GenerateList(rest) == all
        invariant Written(zeros, text[..], 0, pc, Code(prog)) && text.Length == |zeros| && |Code(all)| <= text.Length
        decreases rest
      {
        NullHolds(nodes, sibling, rest);
        HoldsParts(nodes, sibling, rest);
        ghost var one := Cons(rest.info, rest.child, Nil);
        var current := sibling;
        sibling := nodes[current].sibling;
        Detach(nodes, current, rest);
        NullHolds(nodes, sibling, rest.sibling);
        nodes := nodes[current := nodes[current].(sibling := NULL)];
        ListParts(rest);
        ListParts(rest.sibling);
        ghost var b, p := text[..], pc;
        WrittenEnd(zeros, b, 0, pc, Code(prog));
        RoomFor(prog, Generate(one), rest, all);
        Compile(current, one);
        CodeConcat(prog, Generate(one));
        WrittenMore(zeros, b, text[..], 0, p, pc, Code(prog), Code(Generate(one)));
        prog := prog + Generate(one);
        if sibling != NULL {
          assert prog + [Pop] + GenerateList(rest.sibling) == all;
          PopNext(prog, rest.sibling, all);
          Emit(Pop, zeros, 0, all, |prog|);
          assert all[..|prog| + 1] == prog + [Pop];
          prog := prog + [Pop];
        }
        rest := rest.sibling;
        assert prog + GenerateList(rest) == all;
      }
      NullHolds(nodes, sibling, rest);
      ListParts(rest);
      assert prog == all;
      TextIs(zeros, text[..], pc, Code(all));
    }
  }

  lemma CodeOfNothing(prog: seq<Instr>)
    ensures Code([]) == [] && Code(prog[..0]) == []
  {
  }

  lemma GenerateNil(t: Tree)
    requires t.Nil?
    ensures Code(Generate(t)) == []
  {
  }

  lemma GenerateParts(t: Tree)
    requires t.Cons?
    ensures Code(Generate(t)) == Code(Generate(t.child)) + Code(Own(t.info, t.child)) + Code(Generate(t.sibling))
  {
    hide Own, Code;
    var a, b, c := Generate(t.child), Own(t.info, t.child), Generate(t.sibling);
    CodeConcat(a, b);
    CodeConcat(a + b, c);
  }

  lemma ListParts(t: Tree)
    ensures t.Nil? ==> GenerateList(t) == []
    ensures t.Cons? ==> GenerateList(t) == Generate(Cons(t.info, t.child, Nil)) +
                                           (if t.sibling.Nil? then [] else [Pop] + GenerateList(t.sibling))
  {
  }

  lemma RoomFor(prog: seq<Instr>, one: seq<Instr>, rest: Tree, all: seq<Instr>)
    requires rest.Cons? && prog + GenerateList(rest) == all && one == Generate(Cons(rest.info, rest.child, Nil))
    ensures |Code(prog)| + |Code(one)| <= |Code(all)|
  {
    hide Code, Generate;
    var tail := if rest.sibling.Nil? then [] else [Pop] + GenerateList(rest.sibling);
    CodeConcat(prog, one);
    CodeConcat(prog + one, tail);
    assert prog + one + tail == all;
  }

  lemma PopNext(prog: seq<Instr>, rest: Tree, all: seq<Instr>)
    requires prog + [Pop] + GenerateList(rest) == all
    ensures |prog| < |all| && all[|prog|] == Pop && all[..|prog|] == prog
  {
  }

  /** Unlinking a node from its siblings makes two trees of one. */
  lemma Detach(nodes: seq<Node>, p: int, t: Tree)
    requires t.Cons? && Holds(nodes, p, t)
    ensures var b := nodes[p := nodes[p].(sibling := NULL)];
            Holds(b, p, Cons(t.info, t.child, Nil)) && Holds(b, nodes[p].sibling, t.sibling)
  {
    var b := nodes[p := nodes[p].(sibling := NULL)];
    HoldsFrame(nodes, b, nodes[p].child, t.child);
    HoldsFrame(nodes, b, nodes[p].sibling, t.sibling);
  }

  lemma TextIs(zeros: seq<byte>, text: seq<byte>, pc: nat, bs: seq<byte>)
    requires Written(zeros, text, 0, pc, bs) && forall i | 0 <= i < |zeros| :: zeros[i] == 0
    ensures |bs| <= |text| == |zeros| && text[..|bs|] == bs
    ensures forall k | |bs| <= k < |text| :: text[k] == 0
  {
  }

  lemma WrittenEnd(before: seq<byte>, after: seq<byte>, start: nat, pc: nat, bs: seq<byte>)
    requires Written(before, after, start, pc, bs)
    ensures pc == start + |bs| <= |before| == |after|
  {
  }

  lemma Stored(a: seq<byte>, b: seq<byte>, p: nat, bs: seq<byte>)
    requires p + |bs| <= |a| == |b|
    requires forall j | 0 <= j < |a| :: b[j] == if p <= j < p + |bs| then bs[j - p] else a[j]
    ensures Written(a, b, p, p + |bs|, bs)
  {
    assert b == a[..p] + bs + a[p + |bs|..];
  }

  lemma NullHolds(nodes: seq<Node>, p: int, t: Tree)
    requires Holds(nodes, p, t)
    ensures p == NULL <==> t.Nil?
  {
  }

  lemma CheckNil(nodes: seq<Node>, p: int, t: Tree, isAddr: bool)
    requires t.Nil? && Holds(nodes, p, t)
    ensures Check(t, isAddr) == t && Relabelled(nodes, nodes, Slots(nodes, p, t))
  {
  }

  lemma RelabelledLinks(a: seq<Node>, b: seq<Node>, s: set<int>, p: int)
    requires Relabelled(a, b, s) && 0 <= p < |a|
    ensures |a| == |b| && b[p].child == a[p].child && b[p].sibling == a[p].sibling && (p !in s ==> b[p] == a[p])
  {
  }

  lemma SiblingUntouched(a: seq<Node>, b: seq<Node>, p: int, t: Tree)
    requires t.Cons? && Holds(a, p, t) && Relabelled(a, b, Slots(a, a[p].child, t.child))
    ensures Holds(b, a[p].sibling, t.sibling) && Slots(b, a[p].sibling, t.sibling) == Slots(a, a[p].sibling, t.sibling)
  {
    HoldsFrame(a, b, a[p].sibling, t.sibling);
  }

  /** The child's type can be read once the sibling has been checked too. */
  lemma ChildStill(a: seq<Node>, b: seq<Node>, c: seq<Node>, p: int, t: Tree, isAddr: bool)
    requires t.Cons? && Holds(a, p, t)
    requires var tc := Check(t.child, ChildAddress(t.info.kind, isAddr));
             && Holds(b, a[p].child, tc) && Slots(b, a[p].child, tc) == Slots(a, a[p].child, t.child)
             && Relabelled(b, c, Slots(a, a[p].sibling, t.sibling))
    ensures var tc := Check(t.child, ChildAddress(t.info.kind, isAddr));
            var x := a[p].child;
            if x == NULL then TypeOf(tc) == None else 0 <= x < |c| && TypeOf(tc) == Some(c[x].info.dataType)
  {
    hide Check;
    HoldsFrame(b, c, a[p].child, Check(t.child, ChildAddress(t.info.kind, isAddr)));
  }
}
