/** The four G.711 routines of src/g711s.s, one instruction per source line. */
module G711Code {
  import opened Arm

  function Do(cond: Cond, op: Opcode, rd: Reg, rn: Reg, op2: Operand): Instr {
    Data(cond, op, false, rd, rn, op2)
  }

  function DoS(op: Opcode, rd: Reg, rn: Reg, op2: Operand): Instr {
    Data(AL, op, true, rd, rn, op2)
  }

  /** Comparisons and tests write no register. */
  function Compare(op: Opcode, rn: Reg, k: nat): Instr
    requires k < 0x1_0000_0000
  {
    Data(AL, op, true, R0, rn, Imm(k))
  }

  function Move(cond: Cond, rd: Reg, op2: Operand): Instr {
    Data(cond, MOV, false, rd, R0, op2)
  }

  const ALAW_TO_LINEAR: Code := [
    Do(AL, EOR, R2, R0, Imm(0x55)),
    Do(AL, AND, R0, R2, Imm(0xf)),
    Move(AL, R0, ByImm(R0, LSL, 4)),
    Move(AL, R1, ByImm(R2, LSR, 4)),
    Do(AL, AND, R1, R1, Imm(7)),
    DoS(SUB, R1, R1, Imm(1)),
    Do(LT, ADD, R0, R0, Imm(8)),
    Do(GE, ADD, R0, R0, Imm(0x108)),
    Move(GT, R0, ByReg(R0, LSL, R1)),
    Compare(TST, R2, 0x80),
    Do(EQ, RSB, R0, R0, Imm(0)),
    Return]

  const BENCH0: nat := 18

  const LINEAR_TO_ALAW: Code := [
    DoS(RSB, R1, R0, Imm(0)),
    Move(LE, R3, Imm(0xd5)),
    Move(GT, R3, Imm(0x55)),
    Do(GT, SUB, R0, R1, Imm(8)),
    Move(AL, R1, Imm(0)),
    DoS(MOV, R2, R0, ByImm(R0, LSR, 4)),
    Branch(LE, BENCH0),
    Compare(CMP, R0, 0x1000),
    Move(GE, R0, ByImm(R0, LSR, 4)),
    Do(GE, ADD, R1, R1, Imm(4)),
    Compare(CMP, R0, 0x400),
    Move(GE, R0, ByImm(R0, LSR, 2)),
    Do(GE, ADD, R1, R1, Imm(2)),
    Compare(CMP, R0, 0x100),
    Move(GE, R0, ByImm(R0, LSR, 1)),
    Do(GE, ADD, R1, R1, Imm(1)),
    Compare(CMP, R0, 0x100),
    Do(GE, ADD, R1, R1, Imm(1)),
    // bench0
    Compare(CMP, R1, 8),
    Move(GE, R0, Imm(0x7f)),
    Move(LT, R0, ByImm(R1, LSL, 4)),
    DoS(SUB, R1, R1, Imm(1)),
    Move(GT, R2, ByReg(R2, LSR, R1)),
    Do(AL, AND, R2, R2, Imm(0xf)),
    Do(AL, ORR, R0, R0, ByImm(R2, LSL, 0)),
    Do(AL, EOR, R0, R0, ByImm(R3, LSL, 0)),
    Return]

  const BENCH1: nat := 19

  const LINEAR_TO_ULAW: Code := [
    Compare(CMP, R0, 0),
    Do(LT, RSB, R0, R0, Imm(0x84)),
    Move(LT, R1, Imm(0x7f)),
    Do(GE, ADD, R0, R0, Imm(0x84)),
    Move(GE, R1, Imm(0xff)),
    Move(AL, R2, Imm(0)),
    DoS(MOV, R3, R0, ByImm(R0, LSR, 3)),
    Branch(LE, BENCH1),
    Compare(CMP, R0, 0x1000),
    Move(GE, R0, ByImm(R0, LSR, 4)),
    Do(GE, ADD, R2, R2, Imm(4)),
    Compare(CMP, R0, 0x400),
    Move(GE, R0, ByImm(R0, LSR, 2)),
    Do(GE, ADD, R2, R2, Imm(2)),
    Compare(CMP, R0, 0x100),
    Move(GE, R0, ByImm(R0, LSR, 1)),
    Do(GE, ADD, R2, R2, Imm(1)),
    Compare(CMP, R0, 0x100),
    Do(GE, ADD, R2, R2, Imm(1)),
    // bench1
    Compare(CMP, R2, 8),
    Move(GE, R0, Imm(0x7f)),
    Move(LT, R0, ByReg(R3, ASR, R2)),
    Do(LT, AND, R0, R0, Imm(0xf)),
    Do(LT, ORR, R0, R0, ByImm(R2, LSL, 4)),
    Do(AL, EOR, R0, R0, ByImm(R1, LSL, 0)),
    Return]

  const ULAW_TO_LINEAR: Code := [
    DoS(MVN, R1, R0, ByImm(R0, LSL, 25)),
    Move(AL, R1, ByImm(R1, LSR, 29)),
    Do(AL, MVN, R0, R0, ByImm(R0, LSL, 3)),
    Do(AL, AND, R0, R0, Imm(0x78)),
    Do(AL, ADD, R0, R0, Imm(0x84)),
    Move(AL, R0, ByReg(R0, LSL, R1)),
    Do(CS, SUB, R0, R0, Imm(0x84)),
    Do(CC, RSB, R0, R0, Imm(0x84)),
    Return]

  /** SUBS r1, r1, #1, in both A-law routines: LT for segment 0, GT for segments above 1, the ones that shift by r1. */
  lemma CountDown(code: Code, pc: nat, s: State) returns (t: State)
    requires pc < |code| && code[pc] == DoS(SUB, R1, R1, Imm(1)) && s.r1 <= 8
    ensures Run(code, pc, s) == Run(code, pc + 1, t)
    ensures t.r0 == s.r0 && t.r2 == s.r2 && t.r3 == s.r3 && t.c == (s.r1 > 0)
    ensures Holds(LT, t) == (s.r1 == 0) && Holds(GT, t) == (s.r1 > 1)
    ensures s.r1 > 0 ==> t.r1 == t.r1 % 256 == s.r1 - 1
  {
    hide Run;
    t := Exec(code[pc], s);
    Step(code, pc, code[pc], s, t);
  }
}
