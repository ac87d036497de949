/** The part of the 32-bit ARM instruction set that src/g711s.s uses: conditional data processing
    with the barrel shifter, forward branches, and return. */
module Arm {
  import opened Words

  datatype Reg = R0 | R1 | R2 | R3

  datatype Cond = AL | EQ | CS | CC | LT | GE | GT | LE

  datatype Shift = LSL | LSR | ASR

  /** Second operand: an 8-bit immediate (its rotation never matters here), or a shifted register. */
  datatype Operand =
    | Imm(value: Word)
    | ByImm(rm: Reg, shift: Shift, amount: nat)
    | ByReg(rm: Reg, shift: Shift, rs: Reg)

  datatype Opcode = MOV | MVN | AND | EOR | ORR | ADD | SUB | RSB | CMP | TST

  datatype Instr =
    | Data(cond: Cond, op: Opcode, setFlags: bool, rd: Reg, rn: Reg, op2: Operand)
    | Branch(cond: Cond, target: nat)
    | Return

  datatype State = State(r0: Word, r1: Word, r2: Word, r3: Word, n: bool, z: bool, c: bool, v: bool)

  function Get(s: State, r: Reg): Word {
    match r
    case R0 => s.r0
    case R1 => s.r1
    case R2 => s.r2
    case R3 => s.r3
  }

  function Put(s: State, r: Reg, w: Word): State {
    match r
    case R0 => s.(r0 := w)
    case R1 => s.(r1 := w)
    case R2 => s.(r2 := w)
    case R3 => s.(r3 := w)
  }

  predicate Holds(cond: Cond, s: State) {
    match cond
    case AL => true
    case EQ => s.z
    case CS => s.c
    case CC => !s.c
    case LT => s.n != s.v
    case GE => s.n == s.v
    case GT => !s.z && s.n == s.v
    case LE => s.z || s.n != s.v
  }

  datatype Shifted = Shifted(value: Word, carry: bool)

  /** The barrel shifter: the shifted value and the last bit shifted out. */
  function ShiftBy(shift: Shift, w: Word, amount: nat, carry: bool): Shifted {
    if amount == 0 then Shifted(w, carry)
    else match shift
      case LSL => Shifted(ShiftLeft(w, amount), amount <= 32 && Bit(w, 32 - amount))
      case LSR => Shifted(ShiftRight(w, amount), Bit(w, amount - 1))
      case ASR => Shifted(Wrap(ShiftRight(Signed(w), amount)), Bit(w, if amount <= 32 then amount - 1 else 31))
  }

  /** The shifted value, for any amount and whatever the carry. */
  lemma ShiftValue(w: Word, amount: nat, carry: bool)
    ensures ShiftBy(LSL, w, amount, carry).value == ShiftLeft(w, amount)
    ensures ShiftBy(LSR, w, amount, carry).value == ShiftRight(w, amount)
    ensures w < 0x8000_0000 ==> ShiftBy(ASR, w, amount, carry).value == ShiftRight(w, amount)
  {
    hide Bit;
  }

  function Operand2(o: Operand, s: State): Shifted {
    match o
    case Imm(k) => Shifted(k, s.c)
    case ByImm(rm, shift, amount) => ShiftBy(shift, Get(s, rm), amount, s.c)
    case ByReg(rm, shift, rs) => ShiftBy(shift, Get(s, rm), Get(s, rs) % 256, s.c)
  }

  datatype Alu = Alu(result: Word, carry: bool, overflow: bool)

  function AddWords(a: Word, b: Word): Alu {
    Alu(if a + b < 0x1_0000_0000 then a + b else a + b - 0x1_0000_0000, a + b >= 0x1_0000_0000,
        !IsInt32(Signed(a) + Signed(b)))
  }

  /** a - b; the carry is "no borrow". */
  function SubWords(a: Word, b: Word): Alu {
    Alu(if a >= b then a - b else a - b + 0x1_0000_0000, a >= b, !IsInt32(Signed(a) - Signed(b)))
  }

  /** The result and the C and V flags an operation would set; logical operations leave V alone. */
  function Compute(op: Opcode, a: Word, b: Shifted, v: bool): Alu {
    match op
    case MOV => Alu(b.value, b.carry, v)
    case MVN => Alu(0xFFFF_FFFF - b.value, b.carry, v)
    case AND => Alu(BitwiseWord(And, a, b.value), b.carry, v)
    case TST => Alu(BitwiseWord(And, a, b.value), b.carry, v)
    case EOR => Alu(BitwiseWord(Eor, a, b.value), b.carry, v)
    case ORR => Alu(BitwiseWord(Or, a, b.value), b.carry, v)
    case ADD => AddWords(a, b.value)
    case SUB => SubWords(a, b.value)
    case CMP => SubWords(a, b.value)
    case RSB => SubWords(b.value, a)
  }

  function Exec(i: Instr, s: State): State
    requires i.Data?
  {
    if !Holds(i.cond, s) then s else
    var alu := Compute(i.op, Get(s, i.rn), Operand2(i.op2, s), s.v);
    var t := if i.op.CMP? || i.op.TST? then s else Put(s, i.rd, alu.result);
    if i.setFlags || i.op.CMP? || i.op.TST?
    then t.(n := alu.result >= 0x8000_0000, z := alu.result == 0, c := alu.carry, v := alu.overflow)
    else t
  }

  predicate ForwardOnly(code: seq<Instr>) {
    forall i :: 0 <= i < |code| && code[i].Branch? ==> i < code[i].target
  }

  /** Branches only go forward, so every routine returns. */
  type Code = code: seq<Instr> | ForwardOnly(code) witness []

  /** The registers and flags when the routine entered at pc returns. */
  ghost function Run(code: Code, pc: nat, s: State): State
    decreases |code| - pc
  {
    if pc >= |code| then s
    else match code[pc]
      case Data(_, _, _, _, _, _) => Run(code, pc + 1, Exec(code[pc], s))
      case Branch(cond, target) => Run(code, if Holds(cond, s) then target else pc + 1, s)
      case Return => s
  }

  lemma Step(code: Code, pc: nat, i: Instr, s: State, t: State)
    requires pc < |code| && code[pc] == i && i.Data? && Exec(i, s) == t
    ensures Run(code, pc, s) == Run(code, pc + 1, t)
  {
  }

  /** An instruction that sets no flags writes one register, if its condition holds. */
  lemma WriteStep(code: Code, pc: nat, s: State, w: Word) returns (t: State)
    requires pc < |code| && code[pc].Data? && !code[pc].setFlags && !code[pc].op.CMP? && !code[pc].op.TST?
    requires Holds(code[pc].cond, s) ==>
      Compute(code[pc].op, Get(s, code[pc].rn), Operand2(code[pc].op2, s), s.v).result == w
    ensures t == if Holds(code[pc].cond, s) then Put(s, code[pc].rd, w) else s
    ensures Run(code, pc, s) == Run(code, pc + 1, t)
  {
    t := Exec(code[pc], s);
    hide Compute;
    hide Operand2;
  }

  /** Addition and subtraction are modulo 2^32. Carry is the unsigned overflow of an addition, and its absence in a
      subtraction; V says that the signed result is not the true one. */
  lemma ArithmeticFlags(a: Word, b: Word)
    ensures var s := AddWords(a, b);
      && s.result == Wrap(a + b) && (s.carry <==> s.result != a + b)
      && (s.overflow <==> Signed(s.result) != Signed(a) + Signed(b))
    ensures var d := SubWords(a, b);
      && d.result == Wrap(a - b) && (d.carry <==> d.result == a - b)
      && (d.overflow <==> Signed(d.result) != Signed(a) - Signed(b))
  {
  }

  /** After CMP a, b the GE condition is the signed comparison, overflow included. */
  lemma CompareFlags(a: Word, b: Word)
    ensures var d := SubWords(a, b); (d.result >= 0x8000_0000) == d.overflow <==> Signed(a) >= Signed(b)
    ensures SubWords(a, b).result == 0 <==> a == b
  {
  }

  /** The processor: registers and flags overwritten instruction by instruction. */
  class Cpu {
    var r0: Word
    var r1: Word
    var r2: Word
    var r3: Word
    var n: bool
    var z: bool
    var c: bool
    var v: bool

    function Snapshot(): State
      reads this
    {
      State(r0, r1, r2, r3, n, z, c, v)
    }

    method Write(r: Reg, w: Word)
      modifies this
      ensures Snapshot() == Put(old(Snapshot()), r, w)
    {
      match r {
        case R0 => r0 := w;
        case R1 => r1 := w;
        case R2 => r2 := w;
        case R3 => r3 := w;
      }
    }

    method Issue(i: Instr)
      requires i.Data?
      modifies this
      ensures Snapshot() == Exec(i, old(Snapshot()))
    {
      var s := Snapshot();
      if !Holds(i.cond, s) { return; }
      var alu := Compute(i.op, Get(s, i.rn), Operand2(i.op2, s), v);
      var compares := i.op.CMP? || i.op.TST?;
      if !compares { Write(i.rd, alu.result); }
      if i.setFlags || compares {
        n := alu.result >= 0x8000_0000;
        z := alu.result == 0;
        c := alu.carry;
        v := alu.overflow;
      }
    }

    /** Runs a routine to its return. */
    method Execute(code: Code)
      modifies this
      ensures Snapshot() == Run(code, 0, old(Snapshot()))
    {
      var pc := 0;
      while pc < |code|
        invariant 0 <= pc
        invariant Run(code, pc, Snapshot()) == Run(code, 0, old(Snapshot()))
        decreases |code| - pc
      {
        match code[pc] {
          case Data(_, _, _, _, _, _) =>
            Issue(code[pc]);
            pc := pc + 1;
          case Branch(cond, target) =>
            pc := if Holds(cond, Snapshot()) then target else pc + 1;
          case Return =>
            return;
        }
      }
    }
  }
}
