/** Symbolic execution of the two encoders: G711_linear2alaw and G711_linear2ulaw. Each block of instructions has a
    lemma, for any code that contains the block; the last lemma of each half puts the blocks of a routine together. */
module G711Encoders {
  import opened Words
  import opened Arm
  import opened G711Code
  import opened Companding
  import opened G711

  // ---- the search both encoders use, each with its own counter register ----

  /** Compare, shift and count. */
  predicate HalvesAt(code: Code, pc: nat, counter: Reg, threshold: Word, shift: nat, step: Word) {
    && pc + 3 <= |code|
    && code[pc] == Compare(CMP, R0, threshold)
    && code[pc + 1] == Move(GE, R0, ByImm(R0, LSR, shift))
    && code[pc + 2] == Do(GE, ADD, counter, counter, Imm(step))
  }

  predicate SearchesAt(code: Code, pc: nat, counter: Reg) {
    && pc + 11 <= |code|
    && HalvesAt(code, pc, counter, 0x1000, 4, 4)
    && HalvesAt(code, pc + 3, counter, 0x400, 2, 2)
    && HalvesAt(code, pc + 6, counter, 0x100, 1, 1)
    && code[pc + 9] == Compare(CMP, R0, 0x100)
    && code[pc + 10] == Do(GE, ADD, counter, counter, Imm(1))
  }

  /** One step of the halving search. */
  lemma HalvingStep(code: Code, pc: nat, counter: Reg, threshold: Word, shift: nat, p: nat, step: Word, s: State)
      returns (t: State)
    requires HalvesAt(code, pc, counter, threshold, shift, step)
    requires shift > 0 && p == Pow2(shift)
    requires counter != R0 && step <= 4 && Get(s, counter) <= 8
    ensures Run(code, pc, s) == Run(code, pc + 3, t)
    ensures var ge := Signed(s.r0) >= Signed(threshold);
      t.r0 == (if ge then s.r0 / p else s.r0) && Get(t, counter) == Get(s, counter) + (if ge then step else 0)
    ensures forall r: Reg :: r != R0 && r != counter ==> Get(t, r) == Get(s, r)
  {
    hide Run;
    var u := Compared(code, pc, R0, threshold, s);
    t := ShiftAndCount(code, pc + 1, counter, shift, p, step, u);
  }

  /** A comparison only sets flags: GE is then the signed comparison. */
  lemma Compared(code: Code, pc: nat, r: Reg, k: Word, s: State) returns (t: State)
    requires pc < |code| && code[pc] == Compare(CMP, r, k)
    ensures Run(code, pc, s) == Run(code, pc + 1, t)
    ensures t == s.(n := t.n, z := t.z, c := t.c, v := SubWords(Get(s, r), k).overflow)
    ensures Holds(GE, t) == (Signed(Get(s, r)) >= Signed(k))
  {
    hide Run;
    CompareFlags(Get(s, r), k);
    t := Exec(code[pc], s);
    Step(code, pc, code[pc], s, t);
  }

  lemma ShiftAndCount(code: Code, pc: nat, counter: Reg, shift: nat, p: nat, step: Word, s: State) returns (t: State)
    requires pc + 2 <= |code|
    requires code[pc] == Move(GE, R0, ByImm(R0, LSR, shift))
    requires code[pc + 1] == Do(GE, ADD, counter, counter, Imm(step))
    requires shift > 0 && p == Pow2(shift)
    requires counter != R0 && step <= 4 && Get(s, counter) <= 8
    ensures Run(code, pc, s) == Run(code, pc + 2, t)
    ensures t.r0 == if Holds(GE, s) then s.r0 / p else s.r0
    ensures Get(t, counter) == Get(s, counter) + if Holds(GE, s) then step else 0
    ensures forall r: Reg :: r != R0 && r != counter ==> Get(t, r) == Get(s, r)
  {
    ShiftRightIs(s.r0, shift, p);
    ShiftValue(s.r0, shift, s.c);
    hide Run;
    hide ShiftRight;
    hide ShiftBy;
    hide Pow2;
    var u := WriteStep(code, pc, s, s.r0 / p);
    t := WriteStep(code, pc + 1, u, Get(s, counter) + step);
    hide Operand2;
    hide Compute;
    hide Move;
    hide Do;
  }

  /** The whole search, from the first compare to the label: the counter ends at the segment of r0.
      A word past 2^31 is negative in every compare and keeps segment 0. */
  lemma Search(code: Code, pc: nat, counter: Reg, s: State) returns (t: State)
    requires SearchesAt(code, pc, counter) && counter != R0 && Get(s, counter) == 0
    ensures Run(code, pc, s) == Run(code, pc + 11, t)
    ensures Get(t, counter) == (if s.r0 < 0x8000_0000 then Segment(s.r0) else 0) <= 8
    ensures forall r: Reg :: r != R0 && r != counter ==> Get(t, r) == Get(s, r)
  {
    hide Run;
    assert Pow2(4) == 16 && Pow2(2) == 4 && Pow2(1) == 2;
    var u := HalvingStep(code, pc, counter, 0x1000, 4, 16, 4, s);
    var v := HalvingStep(code, pc + 3, counter, 0x400, 2, 4, 2, u);
    var w := HalvingStep(code, pc + 6, counter, 0x100, 1, 2, 1, v);
    t := LastStep(code, pc + 9, counter, w);
    if s.r0 < 0x8000_0000 { HalvingIsScan(s.r0); }
  }

  lemma LastStep(code: Code, pc: nat, counter: Reg, s: State) returns (t: State)
    requires pc + 2 <= |code| && counter != R0 && Get(s, counter) <= 8
    requires code[pc] == Compare(CMP, R0, 0x100) && code[pc + 1] == Do(GE, ADD, counter, counter, Imm(1))
    ensures Run(code, pc, s) == Run(code, pc + 2, t)
    ensures t.r0 == s.r0 && Get(t, counter) == Get(s, counter) + if Signed(s.r0) >= 0x100 then 1 else 0
    ensures forall r: Reg :: r != R0 && r != counter ==> Get(t, r) == Get(s, r)
  {
    hide Run;
    var u := Compared(code, pc, R0, 0x100, s);
    t := WriteStep(code, pc + 1, u, Get(u, counter) + 1);
  }

  lemma SegmentSmall(w: nat)
    ensures Segment(w) <= 8
    ensures w < 16 ==> Segment(w) == 0
  {
    assert Pow2(0) == 1;
  }

  // ---- A-law ----

  /** The A-law magnitude register after the sign handling: negative samples lose 8 more. */
  function AlawMagnitude(pcm: int): Word
    requires IsInt32(pcm)
  {
    if pcm >= 0 then pcm else if pcm <= -8 then -pcm - 8 else 0x1_0000_0000 - pcm - 8
  }

  /** Overflow of the negation is the only way V gets set, and MOVS leaves it for the branch at line 29. */
  lemma AlawNegate(code: Code, pc: nat, s: State, x: int) returns (t: State)
    requires pc < |code| && code[pc] == DoS(RSB, R1, R0, Imm(0))
    requires x == Signed(s.r0)
    ensures Run(code, pc, s) == Run(code, pc + 1, t)
    ensures t.r0 == s.r0 && t.r1 == (if x == 0 then 0 else 0x1_0000_0000 - s.r0)
    ensures Holds(LE, t) == (x >= 0) && t.v == (x == -0x8000_0000)
  {
    hide Run;
    var m: Word := if x == 0 then 0 else 0x1_0000_0000 - s.r0;
    t := s.(r1 := m, n := m >= 0x8000_0000, z := m == 0, c := x == 0, v := x == -0x8000_0000);
    Step(code, pc, code[pc], s, t);
  }

  lemma AlawMask(code: Code, pc: nat, s: State, x: int) returns (t: State)
    requires pc + 3 <= |code|
    requires code[pc] == Move(LE, R3, Imm(0xd5)) && code[pc + 1] == Move(GT, R3, Imm(0x55))
    requires code[pc + 2] == Do(GT, SUB, R0, R1, Imm(8))
    requires IsInt32(x) && Holds(LE, s) == (x >= 0)
    requires if x >= 0 then s.r0 == x else s.r1 == -x
    ensures Run(code, pc, s) == Run(code, pc + 3, t)
    ensures t.r0 == AlawMagnitude(x) && t.r3 == (if x >= 0 then 0xD5 else 0x55) && t.v == s.v
  {
    hide Run;
    var u := WriteStep(code, pc, s, 0xD5);
    u := WriteStep(code, pc + 1, u, 0x55);
    t := WriteStep(code, pc + 2, u, AlawMagnitude(x));
  }

  /** MOVS sets Z for words below 16, and V is what the negation left. */
  lemma AlawBranch(code: Code, pc: nat, s: State) returns (t: State, taken: bool)
    requires pc + 3 <= |code|
    requires code[pc] == Move(AL, R1, Imm(0)) && code[pc + 1] == DoS(MOV, R2, R0, ByImm(R0, LSR, 4))
    requires code[pc + 2] == Branch(LE, BENCH0)
    ensures Run(code, pc, s) == Run(code, if taken then BENCH0 else pc + 3, t)
    ensures taken == (s.r0 < 16 || s.v)
    ensures t.r0 == s.r0 && t.r1 == 0 && t.r2 == s.r0 / 16 && t.r3 == s.r3
  {
    assert Pow2(4) == 16;
    ShiftRightIs(s.r0, 4, 16);
    hide ShiftRight;
    var u := WriteStep(code, pc, s, 0);
    t := u.(r2 := s.r0 / 16, n := false, z := s.r0 < 16, c := Bit(s.r0, 3));
    Step(code, pc + 1, code[pc + 1], u, t);
    taken := Holds(LE, t);
  }

  /** From bench0: segment in r1, magnitude without its low 4 bits in r2, mask in r3. */
  lemma AlawSelect(code: Code, pc: nat, s: State) returns (t: State)
    requires pc + 3 <= |code|
    requires code[pc] == Compare(CMP, R1, 8) && code[pc + 1] == Move(GE, R0, Imm(0x7f))
    requires code[pc + 2] == Move(LT, R0, ByImm(R1, LSL, 4))
    requires s.r1 <= 8
    ensures Run(code, pc, s) == Run(code, pc + 3, t)
    ensures t.r0 == (if s.r1 == 8 then 127 else 16 * s.r1) && t.r1 == s.r1 && t.r2 == s.r2 && t.r3 == s.r3
  {
    assert Pow2(4) == 16;
    ShiftLeftExact(s.r1, 4, 16);
    hide Run;
    hide ShiftLeft;
    hide Pow2;
    var u := Compared(code, pc, R1, 8, s);
    u := WriteStep(code, pc + 1, u, 127);
    t := WriteStep(code, pc + 2, u, 16 * s.r1);
  }

  lemma AlawStepNumber(code: Code, pc: nat, s: State) returns (t: State)
    requires pc + 3 <= |code|
    requires code[pc] == DoS(SUB, R1, R1, Imm(1)) && code[pc + 1] == Move(GT, R2, ByReg(R2, LSR, R1))
    requires code[pc + 2] == Do(AL, AND, R2, R2, Imm(0xf))
    requires s.r1 <= 8
    ensures Run(code, pc, s) == Run(code, pc + 3, t)
    ensures t.r2 == ShiftRight(s.r2, Less1(s.r1)) % 16 && t.r0 == s.r0 && t.r3 == s.r3
  {
    var k: Word := Less1(s.r1);
    var x := ShiftRight(s.r2, k);
    And15(x);
    ShiftValue(s.r2, k, s.c);
    assert s.r1 <= 1 ==> x == s.r2;
    hide Run;
    hide ShiftRight;
    hide ShiftBy;
    hide Bitwise;
    var u := CountDown(code, pc, s);
    u := WriteStep(code, pc + 1, u, x);
    t := WriteStep(code, pc + 2, u, x % 16);
  }

  /** The step shift of an A-law segment, beyond the 4 places r2 is already shifted. */
  function Less1(seg: nat): nat {
    if seg == 0 then 0 else seg - 1
  }

  lemma AlawMerge(code: Code, pc: nat, s: State, seg: nat)
    requires pc + 3 <= |code|
    requires code[pc] == Do(AL, ORR, R0, R0, ByImm(R2, LSL, 0))
    requires code[pc + 1] == Do(AL, EOR, R0, R0, ByImm(R3, LSL, 0)) && code[pc + 2] == Return
    requires seg <= 8 && s.r0 == (if seg == 8 then 127 else 16 * seg) && s.r2 < 16
    ensures Run(code, pc, s).r0 == Bitwise(Eor, if seg == 8 then 127 else 16 * seg + s.r2, s.r3)
  {
    var level := if seg == 8 then 127 else 16 * seg + s.r2;
    if seg == 8 { OrLevel127(s.r2); } else { OrNibble(seg, s.r2); }
    hide Bitwise;
    var u := WriteStep(code, pc, s, level);
    u := WriteStep(code, pc + 1, u, BitwiseWord(Eor, level, s.r3));
  }

  /** The step number the routine extracts is that of the closed form. */
  lemma AlawLevelIs(w: nat, seg: nat)
    requires seg == Segment(w)
    ensures Compress(ALaw, w) == if seg == 8 then 127 else 16 * seg + ShiftRight(w / 16, Less1(seg)) % 16
  {
    if seg < 8 {
      var k := Less1(seg);
      assert Pow2(4) == 16;
      ShiftRightIs(w, 4, 16);
      ShiftsAdd(w, 4, k);
      ShiftRightIs(w, 4 + k, Pow2(4 + k));
    }
  }

  /** In the band, and at -2^31, the step number taken from the magnitude is 15. */
  lemma BandHigh(x: int)
    requires -8 < x < 0 || x == -0x8000_0000
    ensures AlawMagnitude(x) / 16 % 16 == 15
  {
  }

  lemma AlawLevelOf(x: int, w: Word, seg: nat, high: nat)
    requires IsInt32(x) && w == AlawMagnitude(x) && high == w / 16
    requires seg == if x == -0x8000_0000 || w >= 0x8000_0000 then 0 else Segment(w)
    ensures seg <= 8
    ensures Bitwise(Eor, if seg == 8 then 127 else 16 * seg + ShiftRight(high, Less1(seg)) % 16,
                    if x >= 0 then 0xD5 else 0x55) == AlawCode(x)
  {
    SegmentSmall(w);
    if -8 < x < 0 || x == -0x8000_0000 {
      BandHigh(x);
      assert ShiftRight(high, 0) == high;
      BandCode();
    } else {
      AlawLevelIs(w, seg);
    }
    hide AlawMagnitude;
    hide Bitwise;
    hide Segment;
    hide Compress;
    hide ShiftRight;
  }

  lemma AlawHasSearch()
    ensures SearchesAt(LINEAR_TO_ALAW, 7, R1)
  {
  }

  /** Up to the branch: magnitude in r0, mask in r3. */
  lemma AlawStart(s: State, x: int) returns (t: State)
    requires x == Signed(s.r0)
    ensures Run(LINEAR_TO_ALAW, 0, s) == Run(LINEAR_TO_ALAW, 4, t)
    ensures t.r0 == AlawMagnitude(x) && t.r3 == (if x >= 0 then 0xD5 else 0x55) && t.v == (x == -0x8000_0000)
  {
    hide Run;
    hide Holds;
    hide AlawMagnitude;
    SignedIsInt32(s.r0);
    t := AlawNegate(LINEAR_TO_ALAW, 0, s, x);
    t := AlawMask(LINEAR_TO_ALAW, 1, t, x);
  }

  /** Up to bench0, through the search or around it: segment in r1. */
  lemma AlawMiddle(s: State) returns (t: State)
    ensures Run(LINEAR_TO_ALAW, 4, s) == Run(LINEAR_TO_ALAW, BENCH0, t)
    ensures t.r1 == (if s.v || s.r0 >= 0x8000_0000 then 0 else Segment(s.r0)) <= 8
    ensures t.r2 == s.r0 / 16 && t.r3 == s.r3
  {
    hide Run;
    SegmentSmall(s.r0);
    hide Segment;
    var u, taken := AlawBranch(LINEAR_TO_ALAW, 4, s);
    if taken {
      t := u;
    } else {
      AlawHasSearch();
      hide SearchesAt;
      t := Search(LINEAR_TO_ALAW, 7, R1, u);
      assert t.r2 == Get(t, R2) && t.r3 == Get(t, R3);
    }
  }

  /** From bench0 to the return. */
  lemma AlawFinish(s: State)
    requires s.r1 <= 8
    ensures Run(LINEAR_TO_ALAW, BENCH0, s).r0 ==
      Bitwise(Eor, if s.r1 == 8 then 127 else 16 * s.r1 + ShiftRight(s.r2, Less1(s.r1)) % 16, s.r3)
  {
    hide Run;
    hide ShiftRight;
    hide Bitwise;
    var t := AlawSelect(LINEAR_TO_ALAW, BENCH0, s);
    var u := AlawStepNumber(LINEAR_TO_ALAW, 21, t);
    AlawMerge(LINEAR_TO_ALAW, 24, u, s.r1);
  }

  /** G711_linear2alaw computes AlawCode, for every 32-bit sample. */
  lemma LinearToAlawRuns(s: State)
    ensures Run(LINEAR_TO_ALAW, 0, s).r0 == AlawCode(Signed(s.r0))
  {
    hide Run;
    hide Bitwise;
    hide Segment;
    hide AlawCode;
    hide AlawMagnitude;
    hide ShiftRight;
    hide Signed;
    SignedIsInt32(s.r0);
    var x := Signed(s.r0);
    var t := AlawStart(s, x);
    var u := AlawMiddle(t);
    AlawFinish(u);
    AlawLevelOf(x, t.r0, u.r1, u.r2);
  }

  // ---- mu-law ----

  lemma UlawNegate(code: Code, pc: nat, s: State, x: int) returns (t: State)
    requires pc + 3 <= |code|
    requires code[pc] == Compare(CMP, R0, 0) && code[pc + 1] == Do(LT, RSB, R0, R0, Imm(0x84))
    requires code[pc + 2] == Move(LT, R1, Imm(0x7f))
    requires x == Signed(s.r0)
    ensures Run(code, pc, s) == Run(code, pc + 3, t)
    ensures t.r0 == (if x < 0 then Magnitude(x) + 132 else x) && (x < 0 ==> t.r1 == 127)
    ensures Holds(LT, t) == (x < 0) && !t.v
  {
    hide Run;
    var u := Compared(code, pc, R0, 0, s);
    u := WriteStep(code, pc + 1, u, Magnitude(x) + 132);
    t := WriteStep(code, pc + 2, u, 127);
  }

  lemma UlawBias(code: Code, pc: nat, s: State, x: int) returns (t: State)
    requires pc + 3 <= |code|
    requires code[pc] == Do(GE, ADD, R0, R0, Imm(0x84)) && code[pc + 1] == Move(GE, R1, Imm(0xff))
    requires code[pc + 2] == Move(AL, R2, Imm(0))
    requires IsInt32(x) && s.r0 == (if x < 0 then Magnitude(x) + 132 else x) && (x < 0 ==> s.r1 == 127)
    requires Holds(LT, s) == (x < 0) && !s.v
    ensures Run(code, pc, s) == Run(code, pc + 3, t)
    ensures t.r0 == Magnitude(x) + 132 && t.r1 == (if x >= 0 then 255 else 127) && t.r2 == 0 && !t.v
  {
    hide Run;
    var u := WriteStep(code, pc, s, Magnitude(x) + 132);
    u := WriteStep(code, pc + 1, u, 255);
    t := WriteStep(code, pc + 2, u, 0);
  }

  /** V is still clear from the compare, so the branch at line 60 is never taken. */
  lemma UlawNoBranch(code: Code, pc: nat, s: State) returns (t: State)
    requires pc + 2 <= |code|
    requires code[pc] == DoS(MOV, R3, R0, ByImm(R0, LSR, 3)) && code[pc + 1] == Branch(LE, BENCH1)
    requires s.r0 >= 132 && !s.v
    ensures Run(code, pc, s) == Run(code, pc + 2, t)
    ensures t.r0 == s.r0 && t.r1 == s.r1 && t.r2 == s.r2 && t.r3 == s.r0 / 8
  {
    assert Pow2(3) == 8;
    ShiftRightIs(s.r0, 3, 8);
    hide ShiftRight;
    t := s.(r3 := s.r0 / 8, n := false, z := false, c := Bit(s.r0, 2));
    Step(code, pc, code[pc], s, t);
  }

  /** From bench1: segment in r2, biased magnitude without its low 3 bits in r3. */
  lemma UlawSelect(code: Code, pc: nat, s: State) returns (t: State)
    requires pc + 2 <= |code| && code[pc] == Compare(CMP, R2, 8) && code[pc + 1] == Move(GE, R0, Imm(0x7f))
    requires s.r2 <= 8
    ensures Run(code, pc, s) == Run(code, pc + 2, t)
    ensures (s.r2 == 8 ==> t.r0 == 127) && t.r1 == s.r1 && t.r2 == s.r2 && t.r3 == s.r3 && Holds(LT, t) == (s.r2 < 8)
  {
    hide Run;
    var u := Compared(code, pc, R2, 8, s);
    t := WriteStep(code, pc + 1, u, 127);
  }

  lemma UlawStepNumber(code: Code, pc: nat, s: State) returns (t: State)
    requires pc + 2 <= |code|
    requires code[pc] == Move(LT, R0, ByReg(R3, ASR, R2)) && code[pc + 1] == Do(LT, AND, R0, R0, Imm(0xf))
    requires s.r2 <= 8 && s.r3 < 0x8000_0000 && Holds(LT, s) == (s.r2 < 8)
    ensures Run(code, pc, s) == Run(code, pc + 2, t)
    ensures t.r0 == if s.r2 == 8 then s.r0 else ShiftRight(s.r3, s.r2) % 16
    ensures t.r1 == s.r1 && t.r2 == s.r2 && Holds(LT, t) == (s.r2 < 8)
  {
    var x := ShiftRight(s.r3, s.r2);
    And15(x);
    ShiftValue(s.r3, s.r2, s.c);
    assert s.r2 % 256 == s.r2;
    hide Run;
    hide ShiftBy;
    hide Bitwise;
    var u := WriteStep(code, pc, s, x);
    t := WriteStep(code, pc + 1, u, x % 16);
  }

  lemma UlawMerge(code: Code, pc: nat, s: State)
    requires pc + 3 <= |code| && code[pc] == Do(LT, ORR, R0, R0, ByImm(R2, LSL, 4))
    requires code[pc + 1] == Do(AL, EOR, R0, R0, ByImm(R1, LSL, 0)) && code[pc + 2] == Return
    requires s.r2 <= 8 && Holds(LT, s) == (s.r2 < 8) && (s.r2 < 8 ==> s.r0 < 16)
    ensures Run(code, pc, s).r0 == Bitwise(Eor, if s.r2 == 8 then s.r0 else 16 * s.r2 + s.r0, s.r1)
  {
    var seg := s.r2;
    assert Pow2(4) == 16;
    ShiftLeftExact(seg, 4, 16);
    var level := if seg == 8 then s.r0 else 16 * seg + s.r0;
    if seg < 8 { OrNibble(seg, s.r0); }
    hide Bitwise;
    hide ShiftLeft;
    hide Pow2;
    var u := WriteStep(code, pc, s, level);
    u := WriteStep(code, pc + 1, u, BitwiseWord(Eor, level, s.r1));
  }

  lemma UlawHasSearch()
    ensures SearchesAt(LINEAR_TO_ULAW, 8, R2)
  {
  }

  /** Up to the branch: biased magnitude in r0, mask in r1. */
  lemma UlawStart(s: State, x: int) returns (t: State)
    requires x == Signed(s.r0)
    ensures Run(LINEAR_TO_ULAW, 0, s) == Run(LINEAR_TO_ULAW, 6, t)
    ensures t.r0 == Magnitude(x) + 132 && t.r1 == (if x >= 0 then 255 else 127) && t.r2 == 0 && !t.v
  {
    hide Run;
    hide Holds;
    hide Signed;
    SignedIsInt32(s.r0);
    t := UlawNegate(LINEAR_TO_ULAW, 0, s, x);
    t := UlawBias(LINEAR_TO_ULAW, 3, t, x);
  }

  /** Through the search to bench1: segment in r2. */
  lemma UlawMiddle(s: State) returns (t: State)
    requires s.r0 >= 132 && s.r2 == 0 && !s.v
    ensures Run(LINEAR_TO_ULAW, 6, s) == Run(LINEAR_TO_ULAW, BENCH1, t)
    ensures t.r2 == (if s.r0 < 0x8000_0000 then Segment(s.r0) else 0) <= 8
    ensures t.r1 == s.r1 && t.r3 == s.r0 / 8
  {
    hide Run;
    hide Segment;
    UlawHasSearch();
    t := UlawNoBranch(LINEAR_TO_ULAW, 6, s);
    var u := t;
    hide SearchesAt;
    t := Search(LINEAR_TO_ULAW, 8, R2, u);
    assert t.r1 == Get(t, R1) && t.r3 == Get(t, R3);
  }

  lemma UlawLevelIs(x: int, seg: nat)
    requires IsInt32(x)
    requires var b := Magnitude(x) + 132; seg == if b < 0x8000_0000 then Segment(b) else 0
    ensures UlawLevel(x) == if seg == 8 then 127 else 16 * seg + ShiftRight((Magnitude(x) + 132) / 8, seg) % 16
  {
    var b := Magnitude(x) + 132;
    assert Pow2(3) == 8;
    ShiftRightIs(b, 3, 8);
    ShiftsAdd(b, 3, seg);
    ShiftRightIs(b, 3 + seg, Pow2(3 + seg));
  }

  /** From bench1 to the return. */
  lemma UlawFinish(s: State)
    requires s.r2 <= 8 && s.r3 < 0x8000_0000
    ensures Run(LINEAR_TO_ULAW, BENCH1, s).r0 ==
      Bitwise(Eor, if s.r2 == 8 then 127 else 16 * s.r2 + ShiftRight(s.r3, s.r2) % 16, s.r1)
  {
    hide Run;
    hide ShiftRight;
    hide Bitwise;
    var t := UlawSelect(LINEAR_TO_ULAW, BENCH1, s);
    t := UlawStepNumber(LINEAR_TO_ULAW, 21, t);
    UlawMerge(LINEAR_TO_ULAW, 23, t);
  }

  /** G711_linear2ulaw computes UlawCode, for every 32-bit sample. */
  lemma LinearToUlawRuns(s: State)
    ensures Run(LINEAR_TO_ULAW, 0, s).r0 == UlawCode(Signed(s.r0))
  {
    hide Run;
    hide Bitwise;
    hide Segment;
    hide UlawLevel;
    hide ShiftRight;
    hide Signed;
    SignedIsInt32(s.r0);
    var x := Signed(s.r0);
    var t := UlawStart(s, x);
    SegmentSmall(t.r0);
    var u := UlawMiddle(t);
    UlawLevelIs(x, u.r2);
    UlawFinish(u);
    UlawInvert(UlawLevel(x), x >= 0);
  }

  lemma UlawInvert(level: nat, positive: bool)
    requires level < 128
    ensures Bitwise(Eor, level, if positive then 255 else 127) == (if positive then 255 else 127) - level
  {
    Bytes();
    EorOnes(level, if positive then 8 else 7);
  }
}
