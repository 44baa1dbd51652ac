// The finsh stack machine: instructions, their bytes, and the fetch loop
// (finsh/finsh_ops.c, finsh/finsh_vm.c).  Only the 32-bit operations are modelled.
module FinshVm {
  import opened Wrappers
  import opened Words
  import opened FinshArith

  const FINSH_STACK_MAX: nat := 64
  const FINSH_TEXT_MAX: nat := 128
  const MAX_PARAMETERS: nat := 16

  /** 32-bit cells by address; a cell that was never stored to holds 0. */
  type Memory = map<dword, dword>

  function Fetch(m: Memory, a: dword): dword {
    if a in m then m[a] else 0
  }

  /** A system call: its result and what it does to memory. */
  type Calls = (dword, seq<dword>, Memory) -> (dword, Memory)

  // ----- Instructions -----

  datatype Instr =
    | Noop
    | Arith(op: Operator)
    | Not
    | Ld(value: dword)
    | LdValue(address: dword)
    | St
    | Pop
    | Call(count: byte)
    | LdStack

  /** The opcode of the 32-bit form of an operator. */
  function OperatorCode(op: Operator): byte {
    match op
    case Add => 0x03
    case Sub => 0x06
    case Div => 0x09
    case Mod => 0x0C
    case Mul => 0x0F
    case And => 0x12
    case Or => 0x15
    case Xor => 0x18
    case Shl => 0x1E
    case Shr => 0x21
  }

  /** The bytes of an instruction. */
  function Bytes(i: Instr): (bs: seq<byte>)
    ensures 1 <= |bs| <= 5
  {
    match i
    case Noop => [0x00]
    case Arith(op) => [OperatorCode(op)]
    case Not => [0x1B]
    case Ld(v) => [0x24] + DwordBytes(v)
    case LdValue(a) => [0x27] + DwordBytes(a)
    case St => [0x2A]
    case Pop => [0x2B]
    case Call(n) => [0x2C, n]
    case LdStack => [0x2F]
  }

  function Code(prog: seq<Instr>): seq<byte> {
    if prog == [] then [] else Bytes(prog[0]) + Code(prog[1..])
  }

  lemma {:induction false} CodeConcat(a: seq<Instr>, b: seq<Instr>)
    ensures Code(a + b) == Code(a) + Code(b)
    decreases |a|
  {
    hide Bytes;
    if a == [] {
      assert a + b == b;
    } else {
      CodeConcat(a[1..], b);
      assert (a + b)[1..] == a[1..] + b;
    }
  }

  function OperatorOf(op: byte): Option<Operator> {
    if op == 0x03 then Some(Add) else if op == 0x06 then Some(Sub) else if op == 0x09 then Some(Div)
    else if op == 0x0C then Some(Mod) else if op == 0x0F then Some(Mul) else if op == 0x12 then Some(And)
    else if op == 0x15 then Some(Or) else if op == 0x18 then Some(Xor) else if op == 0x1E then Some(Shl)
    else if op == 0x21 then Some(Shr) else None
  }

  /** The instruction at pc, as the opcode table and the operand fetches read it. */
  function Decode(text: seq<byte>, pc: nat): Option<Instr>
    requires pc < |text|
  {
    var op := text[pc];
    if op == 0x00 then Some(Noop)
    else if OperatorOf(op).Some? then Some(Arith(OperatorOf(op).value))
    else if op == 0x1B then Some(Not)
    else if op == 0x24 then (if pc + 5 <= |text| then Some(Ld(LdDword(text, pc + 1))) else None)
    else if op == 0x27 then (if pc + 5 <= |text| then Some(LdValue(LdDword(text, pc + 1))) else None)
    else if op == 0x2A then Some(St)
    else if op == 0x2B then Some(Pop)
    else if op == 0x2C then (if pc + 2 <= |text| then Some(Call(text[pc + 1])) else None)
    else if op == 0x2F then Some(LdStack)
    else None
  }

  /** Decoding undoes the encoding, little-endian operands included. */
  lemma DecodeBytes(text: seq<byte>, pc: nat, i: Instr)
    requires pc + |Bytes(i)| <= |text| && text[pc..pc + |Bytes(i)|] == Bytes(i)
    ensures Decode(text, pc) == Some(i)
  {
    hide Byte, Quad;
    var bs := Bytes(i);
    var seen := text[pc..pc + |bs|];
    assert text[pc] == seen[0];
    if i.Call? {
      assert text[pc + 1] == seen[1];
    }
    if i.Ld? || i.LdValue? {
      DwordRead(if i.Ld? then i.value else i.address);
      assert text[pc + 1] == seen[1] && text[pc + 2] == seen[2] && text[pc + 3] == seen[3] && text[pc + 4] == seen[4];
    }
  }

  /** The opcodes in numbers, as op_table lists them. */
  lemma OpcodeTable()
    ensures Bytes(Noop) == [0] && Bytes(Not) == [27] && Bytes(St) == [42] && Bytes(Pop) == [43]
    ensures Bytes(LdStack) == [47] && Bytes(Call(3)) == [44, 3]
    ensures Bytes(Arith(Add)) == [3] && Bytes(Arith(Sub)) == [6] && Bytes(Arith(Div)) == [9]
    ensures Bytes(Arith(Mod)) == [12] && Bytes(Arith(Mul)) == [15] && Bytes(Arith(And)) == [18]
    ensures Bytes(Arith(Or)) == [21] && Bytes(Arith(Xor)) == [24] && Bytes(Arith(Shl)) == [30]
    ensures Bytes(Arith(Shr)) == [33]
  {
  }

  /** Operands in numbers: the low byte follows the opcode. */
  lemma OperandBytes(b0: byte, b1: byte, b2: byte, b3: byte)
    ensures var v := Quad(b0, b1, b2, b3);
            && v == b0 + 0x100 * b1 + 0x1_0000 * b2 + 0x100_0000 * b3
            && 0 <= v < 0x1_0000_0000
            && Bytes(Ld(v)) == [36, b0, b1, b2, b3] && Bytes(LdValue(v)) == [39, b0, b1, b2, b3]
            && Decode([36, b0, b1, b2, b3], 0) == Some(Ld(v))
            && Decode([39, b0, b1, b2, b3], 0) == Some(LdValue(v))
  {
    hide DwordBytes;
    ByteDigits(b0, b1, b2, b3);
  }

  // ----- Meaning -----

  type Stack = seq<dword>

  /** One instruction on a stack and a memory; None where the C code leaves its arrays or has no defined value. */
  function Perform(i: Instr, calls: Calls, stack: Stack, m: Memory): Option<(Stack, Memory)> {
    var n := |stack|;
    match i
    case Noop => Some((stack, m))
    case Arith(op) =>
      if n < 2 then None else
      (match Apply(op, stack[n - 2], stack[n - 1])
       case None => None
       case Some(v) => Some((stack[..n - 2] + [v], m)))
    case Not => if n < 1 then None else Some((stack[..n - 1] + [Complement(stack[n - 1])], m))
    case Ld(v) => if n < FINSH_STACK_MAX then Some((stack + [v], m)) else None
    case LdValue(a) => if n < FINSH_STACK_MAX then Some((stack + [Fetch(m, a)], m)) else None
    case St => if n < 2 then None else Some((stack[..n - 1], m[stack[n - 2] := stack[n - 1]]))
    case Pop => if n < 1 then None else Some((stack[..n - 1], m))
    case Call(k) =>
      if n < k + 1 || k > MAX_PARAMETERS then None else
      var r := calls(stack[n - k - 1], stack[n - k..], m);
      Some((stack[..n - k - 1] + [r.0], r.1))
    case LdStack => if n < 1 then None else Some((stack[..n - 1] + [Fetch(m, stack[n - 1])], m))
  }

  /** How much the machine holds: 64 values on the stack, 16 parameters in a call. */
  lemma Limits(v: dword, f: dword, args: seq<dword>, calls: Calls, stack: Stack, m: Memory)
    requires |args| < 0x100
    ensures Perform(Ld(v), calls, stack, m) == (if |stack| < 64 then Some((stack + [v], m)) else None)
    ensures Perform(LdValue(v), calls, stack, m) ==
            (if |stack| < 64 then Some((stack + [if v in m then m[v] else 0], m)) else None)
    ensures Perform(Call(|args|), calls, stack + [f] + args, m) ==
            if |args| <= 16 then Some((stack + [calls(f, args, m).0], calls(f, args, m).1)) else None
  {
    var s := stack + [f] + args;
    var k := |stack|;
    assert s[..k] == stack && s[k] == f && s[k + 1..] == args;
  }

  datatype Outcome = Done(stack: Stack, memory: Memory) | Fault

  /** The fetch loop. */
  function Exec(text: seq<byte>, calls: Calls, pc: nat, stack: Stack, m: Memory): Outcome
    decreases |text| - pc
  {
    if pc >= |text| then Done(stack, m) else
    match Decode(text, pc)
    case None => Fault
    case Some(i) =>
      match Perform(i, calls, stack, m)
      case None => Fault
      case Some(next) => Exec(text, calls, pc + |Bytes(i)|, next.0, next.1)
  }

  /** A list of instructions, one after the other. */
  function Play(prog: seq<Instr>, calls: Calls, stack: Stack, m: Memory): Option<(Stack, Memory)> {
    if prog == [] then Some((stack, m)) else
    match Perform(prog[0], calls, stack, m)
    case None => None
    case Some(next) => Play(prog[1..], calls, next.0, next.1)
  }

  lemma {:induction false} PlayConcat(a: seq<Instr>, b: seq<Instr>, calls: Calls, stack: Stack, m: Memory)
    ensures Play(a + b, calls, stack, m) ==
            match Play(a, calls, stack, m)
            case None => None
            case Some(next) => Play(b, calls, next.0, next.1)
    decreases |a|
  {
    hide Perform;
    if a == [] {
      assert a + b == b;
    } else {
      assert (a + b)[1..] == a[1..] + b;
      match Perform(a[0], calls, stack, m)
      case None =>
      case Some(next) => PlayConcat(a[1..], b, calls, next.0, next.1);
    }
  }

  /** Running the bytes of some instructions from pc on is playing the instructions and going on after them. */
  lemma {:induction false} ExecCode(text: seq<byte>, calls: Calls, pc: nat, prog: seq<Instr>, stack: Stack, m: Memory)
    requires pc + |Code(prog)| <= |text| && text[pc..pc + |Code(prog)|] == Code(prog)
    ensures Exec(text, calls, pc, stack, m) ==
            match Play(prog, calls, stack, m)
            case None => Fault
            case Some(next) => Exec(text, calls, pc + |Code(prog)|, next.0, next.1)
    decreases |prog|
  {
    hide Perform, Decode, Bytes;
    if prog != [] {
      var bs, rest := Bytes(prog[0]), Code(prog[1..]);
      assert text[pc..pc + |bs|] == Code(prog)[..|bs|] == bs;
      assert text[pc + |bs|..pc + |bs| + |rest|] == Code(prog)[|bs|..] == rest;
      DecodeBytes(text, pc, prog[0]);
      match Perform(prog[0], calls, stack, m)
      case None =>
      case Some(next) => ExecCode(text, calls, pc + |bs|, prog[1..], next.0, next.1);
    }
  }

  /** The zeroed rest of the text segment does nothing. */
  lemma {:induction false} ExecZeros(text: seq<byte>, calls: Calls, pc: nat, stack: Stack, m: Memory)
    requires pc <= |text| && forall k | pc <= k < |text| :: text[k] == 0
    ensures Exec(text, calls, pc, stack, m) == Done(stack, m)
    decreases |text| - pc
  {
    if pc < |text| {
      ExecZeros(text, calls, pc + 1, stack, m);
    }
  }

  // ----- The machine itself -----

  /** An operation did what instruction i means, or could not be carried out. */
  ghost predicate Acted(ok: bool, i: Instr, calls: Calls, s0: Stack, m0: Memory, s1: Stack, m1: Memory) {
    Perform(i, calls, s0, m0) == if ok then Some((s1, m1)) else None
  }

  lemma ExecStep(text: seq<byte>, calls: Calls, pc: nat, stack: Stack, m: Memory, i: Instr, ok: bool, s1: Stack,
                 m1: Memory)
    requires pc < |text| && Decode(text, pc) == Some(i) && Acted(ok, i, calls, stack, m, s1, m1)
    ensures Exec(text, calls, pc, stack, m) == if ok then Exec(text, calls, pc + |Bytes(i)|, s1, m1) else Fault
  {
    hide Perform, Decode, Bytes;
  }

  lemma ExecFault(text: seq<byte>, calls: Calls, pc: nat, stack: Stack, m: Memory)
    requires pc < |text| && Decode(text, pc) == None
    ensures Exec(text, calls, pc, stack, m) == Fault
  {
    hide Perform, Decode, Bytes;
  }

  class Machine {
    const text: array<byte>
    const stack: array<dword>
    const calls: Calls
    var sp: nat
    var pc: nat
    var memory: Memory

    constructor (text: array<byte>, calls: Calls, memory: Memory)
      ensures this.text == text && this.calls == calls && this.memory == memory
      ensures sp == pc == 0 && stack.Length == FINSH_STACK_MAX == 64 && fresh(stack)
    {
      this.text := text;
      this.calls := calls;
      this.memory := memory;
      stack := new dword[FINSH_STACK_MAX];
      sp, pc := 0, 0;
    }

    ghost predicate Valid()
      reads this`sp, this`pc
    {
      stack.Length == FINSH_STACK_MAX && sp <= FINSH_STACK_MAX
    }

    /** finsh_vm_run.  ok is false where the C code would leave its arrays or divide by zero. */
    method Run() returns (ok: bool)
      requires Valid()
      modifies this`sp, this`pc, this`memory, stack
      ensures Valid()
      ensures var end := Exec(text[..], calls, 0, [], old(memory));
              if ok then end == Done(stack[..sp], memory) else end == Fault
    {
      sp, pc := 0, 0;
      while pc < text.Length
        invariant Valid()
        invariant Exec(text[..], calls, pc, stack[..sp], memory) == Exec(text[..], calls, 0, [], old(memory))
        decreases text.Length - pc
      {
        ok := Step();
        if !ok { return; }
      }
      ok := true;
    }

    /** Fetch one opcode and call its function. */
    method Step() returns (ok: bool)
      requires Valid() && pc < text.Length
      modifies this`sp, this`pc, this`memory, stack
      ensures Valid()
      ensures ok ==> old(pc) < pc
      ensures ok ==> Exec(text[..], calls, pc, stack[..sp], memory) ==
                     old(Exec(text[..], calls, pc, stack[..sp], memory))
      ensures !ok ==> old(Exec(text[..], calls, pc, stack[..sp], memory)) == Fault
    {
      hide Exec, Perform, Acted;
      ghost var code, s0 := text[..], stack[..sp];
      var op := text[pc];
      pc := pc + 1;
      ghost var i := Decode(code, old(pc));
      if op == 0x00 {
        ok := true;
        NoopActed(calls, s0, memory);
      } else if OperatorOf(op).Some? {
        ok := BinaryOp(OperatorOf(op).value);
      } else if op == 0x1B {
        ok := BitwiseNot();
      } else if op == 0x24 || op == 0x27 {
        if pc + 4 > text.Length {
          ExecFault(code, calls, old(pc), s0, old(memory));
          return false;
        }
        ok := LoadOperand(op == 0x27);
      } else if op == 0x2A {
        ok := StoreTop();
      } else if op == 0x2B {
        ok := PopTop();
      } else if op == 0x2C {
        if pc >= text.Length {
          ExecFault(code, calls, old(pc), s0, old(memory));
          return false;
        }
        ok := CallFunction();
      } else if op == 0x2F {
        ok := LoadStack();
      } else {
        ExecFault(code, calls, old(pc), s0, old(memory));
        return false;
      }
      ExecStep(code, calls, old(pc), s0, old(memory), i.value, ok, stack[..sp], memory);
    }

    /** OP_BIN_DWORD */
    method BinaryOp(op: Operator) returns (ok: bool)
      requires Valid()
      modifies this`sp, stack
      ensures Valid() && Acted(ok, Arith(op), calls, old(stack[..sp]), memory, stack[..sp], memory)
    {
      hide Apply;
      if sp < 2 { return false; }
      var r := Apply(op, stack[sp - 2], stack[sp - 1]);
      if r == None { return false; }
      stack[sp - 2] := r.value;
      sp := sp - 1;
      ok := true;
      assert stack[..sp] == old(stack[..sp])[..sp - 1] + [r.value];
    }

    /** OP_bw_dword */
    method BitwiseNot() returns (ok: bool)
      requires Valid()
      modifies stack
      ensures Valid() && Acted(ok, Not, calls, old(stack[..sp]), memory, stack[..sp], memory)
    {
      if sp < 1 { return false; }
      stack[sp - 1] := Complement(stack[sp - 1]);
      ok := true;
      assert stack[..sp] == old(stack[..sp])[..sp - 1] + [stack[sp - 1]];
    }

    /** OP_ld_dword and OP_ld_value_dword */
    method LoadOperand(value: bool) returns (ok: bool)
      requires Valid() && pc + 4 <= text.Length
      modifies this`sp, this`pc, stack
      ensures Valid() && pc == old(pc) + 4
      ensures var v := LdDword(text[..], old(pc));
              Acted(ok, if value then LdValue(v) else Ld(v), calls, old(stack[..sp]), memory, stack[..sp], memory)
    {
      hide LdDword;
      var v := LdDword(text[..], pc);
      pc := pc + 4;
      if sp >= FINSH_STACK_MAX { return false; }
      stack[sp] := if value then Fetch(memory, v) else v;
      sp := sp + 1;
      ok := true;
      assert stack[..sp] == old(stack[..sp]) + [stack[sp - 1]];
    }

    /** OP_st_dword: the address stays on the stack. */
    method StoreTop() returns (ok: bool)
      requires Valid()
      modifies this`sp, this`memory
      ensures Valid() && Acted(ok, St, calls, old(stack[..sp]), old(memory), stack[..sp], memory)
    {
      if sp < 2 { return false; }
      memory := memory[stack[sp - 2] := stack[sp - 1]];
      sp := sp - 1;
      ok := true;
      assert stack[..sp] == old(stack[..sp])[..sp];
    }

    method PopTop() returns (ok: bool)
      requires Valid()
      modifies this`sp
      ensures Valid() && Acted(ok, Pop, calls, old(stack[..sp]), memory, stack[..sp], memory)
    {
      if sp < 1 { return false; }
      sp := sp - 1;
      ok := true;
      assert stack[..sp] == old(stack[..sp])[..sp];
    }

    /** OP_ld_value_dword_stack */
    method LoadStack() returns (ok: bool)
      requires Valid()
      modifies stack
      ensures Valid() && Acted(ok, LdStack, calls, old(stack[..sp]), memory, stack[..sp], memory)
    {
      if sp < 1 { return false; }
      stack[sp - 1] := Fetch(memory, stack[sp - 1]);
      ok := true;
      assert stack[..sp] == old(stack[..sp])[..sp - 1] + [stack[sp - 1]];
    }

    /** OP_call: the parameters are popped last first, then the function's address. */
    method CallFunction() returns (ok: bool)
      requires Valid() && pc < text.Length
      modifies this`sp, this`pc, this`memory, stack
      ensures Valid() && pc == old(pc) + 1
      ensures Acted(ok, Call(text[old(pc)]), calls, old(stack[..sp]), old(memory), stack[..sp], memory)
    {
      var parameters := text[pc];
      pc := pc + 1;
      if parameters > MAX_PARAMETERS || sp < parameters + 1 { return false; }
      var parameterv := PopParameters(parameters);
      ghost var k := sp;
      assert old(stack[..sp])[k + 1..] == parameterv;
      var r := calls(stack[sp], parameterv, memory);
      stack[sp] := r.0;
      memory := r.1;
      sp := sp + 1;
      ok := true;
      assert stack[..sp] == old(stack[..sp])[..k] + [r.0];
    }

    method PopParameters(parameters: byte) returns (parameterv: seq<dword>)
      requires Valid() && parameters < sp && parameters <= MAX_PARAMETERS
      modifies this`sp
      ensures sp == old(sp) - parameters - 1
      ensures parameterv == stack[sp + 1..old(sp)]
    {
      var v := new dword[MAX_PARAMETERS];
      ghost var s := stack[..];
      sp := sp - 1;
      var i := 0;
      while i < parameters
        invariant 0 <= i <= parameters && sp == old(sp) - 1 - i && stack[..] == s
        invariant v[parameters - i..parameters] == s[sp + 1..old(sp)]
      {
        v[parameters - 1 - i] := stack[sp];
        assert v[parameters - 1 - i..parameters] == [s[sp]] + v[parameters - i..parameters];
        sp := sp - 1;
        i := i + 1;
      }
      parameterv := v[..parameters];
      assert stack[sp + 1..old(sp)] == s[sp + 1..old(sp)];
    }
  }

  lemma NoopActed(calls: Calls, s: Stack, m: Memory)
    ensures Acted(true, Noop, calls, s, m, s, m)
  {
  }
}
