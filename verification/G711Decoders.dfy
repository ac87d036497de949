/** Symbolic execution of the two decoders, G711_alaw2linear and G711_ulaw2linear, block by block as for the
    encoders. */
module G711Decoders {
  import opened Words
  import opened Arm
  import opened G711Code
  import opened Companding
  import opened G711

  // ---- A-law ----

  lemma AlawInvert(code: Code, pc: nat, s: State) returns (t: State)
    requires pc + 3 <= |code|
    requires code[pc] == Do(AL, EOR, R2, R0, Imm(0x55)) && code[pc + 1] == Do(AL, AND, R0, R2, Imm(0xf))
    requires code[pc + 2] == Move(AL, R0, ByImm(R0, LSL, 4))
    ensures Run(code, pc, s) == Run(code, pc + 3, t)
    ensures t.r2 == Bitwise(Eor, s.r0, 0x55) && t.r0 == t.r2 % 16 * 16
  {
    var d := BitwiseWord(Eor, s.r0, 0x55);
    assert Pow2(4) == 16;
    And15(d);
    ShiftLeftExact(d % 16, 4, 16);
    hide Run;
    hide Bitwise;
    hide ShiftLeft;
    hide Pow2;
    var u := WriteStep(code, pc, s, d);
    u := WriteStep(code, pc + 1, u, d % 16);
    t := WriteStep(code, pc + 2, u, d % 16 * 16);
  }

  lemma AlawSegment(code: Code, pc: nat, s: State) returns (t: State)
    requires pc + 2 <= |code|
    requires code[pc] == Move(AL, R1, ByImm(R2, LSR, 4)) && code[pc + 1] == Do(AL, AND, R1, R1, Imm(7))
    ensures Run(code, pc, s) == Run(code, pc + 2, t)
    ensures t.r1 == s.r2 / 16 % 8 && t.r0 == s.r0 && t.r2 == s.r2
  {
    assert Pow2(4) == 16;
    And7(s.r2 / 16);
    ShiftRightIs(s.r2, 4, 16);
    hide Run;
    hide Bitwise;
    hide ShiftRight;
    hide Pow2;
    var u := WriteStep(code, pc, s, s.r2 / 16);
    t := WriteStep(code, pc + 1, u, s.r2 / 16 % 8);
  }

  lemma AlawGain(e: nat, m: nat)
    requires e < 8 && m < 16
    ensures Output(ALaw, e, m) < 0x8000_0000
    ensures e == 0 ==> Output(ALaw, e, m) == 16 * m + 8
    ensures e == 1 ==> Output(ALaw, e, m) == 16 * m + 264
    ensures e > 0 ==> ShiftLeft(16 * m + 264, e - 1) == Output(ALaw, e, m)
  {
    if e > 0 {
      var w, p := 16 * m + 264, Pow2(e - 1);
      Pow2Increases(e - 1, 6);
      assert Pow2(6) == 64;
      Scale(w, 504, p);
      ShiftLeftExact(w, e - 1, p);
    }
  }

  /** Segment e and step m in r1 and r0 / 16: the output magnitude is left in r0. */
  lemma AlawScale(code: Code, pc: nat, s: State, e: nat, m: nat) returns (t: State)
    requires pc + 4 <= |code| && code[pc] == DoS(SUB, R1, R1, Imm(1))
    requires code[pc + 1] == Do(LT, ADD, R0, R0, Imm(8)) && code[pc + 2] == Do(GE, ADD, R0, R0, Imm(0x108))
    requires code[pc + 3] == Move(GT, R0, ByReg(R0, LSL, R1))
    requires e < 8 && m < 16 && s.r0 == 16 * m && s.r1 == e
    ensures Run(code, pc, s) == Run(code, pc + 4, t)
    ensures t.r0 == Output(ALaw, e, m) < 0x8000_0000 && t.r2 == s.r2
  {
    AlawGain(e, m);
    hide Run;
    hide ShiftLeft;
    hide Output;
    var u := CountDown(code, pc, s);
    u := WriteStep(code, pc + 1, u, 16 * m + 8);
    u := WriteStep(code, pc + 2, u, 16 * m + 264);
    t := WriteStep(code, pc + 3, u, Output(ALaw, e, m));
  }

  /** The sign bit of the code decides whether r0 is negated. */
  lemma AlawSign(code: Code, pc: nat, s: State)
    requires pc + 3 <= |code| && code[pc] == Compare(TST, R2, 0x80) && code[pc + 1] == Do(EQ, RSB, R0, R0, Imm(0))
    requires code[pc + 2] == Return
    ensures Run(code, pc, s).r0 == if s.r2 / 128 % 2 == 1 || s.r0 == 0 then s.r0 else 0x1_0000_0000 - s.r0
  {
    And0x80(s.r2);
    hide Bitwise;
    var u := s.(n := false, z := s.r2 / 128 % 2 == 0);
    Step(code, pc, code[pc], s, u);
    u := WriteStep(code, pc + 1, u, if s.r0 == 0 then 0 else 0x1_0000_0000 - s.r0);
  }

  lemma SameLowByte(law: Law, d: nat)
    ensures SignedOutput(law, d % 256) == SignedOutput(law, d)
  {
    var h, a, b, c := ByteHasFields(d);
    ByteFields(h, a, b, c);
    ByteFields(0, a, b, c);
    hide Output;
  }

  lemma AlawTail(s: State)
    requires s.r0 == s.r2 % 16 * 16 && s.r1 == s.r2 / 16 % 8
    ensures Signed(Run(ALAW_TO_LINEAR, 5, s).r0) == SignedOutput(ALaw, s.r2)
  {
    hide Run;
    hide Output;
    var t := AlawScale(ALAW_TO_LINEAR, 5, s, s.r2 / 16 % 8, s.r2 % 16);
    AlawSign(ALAW_TO_LINEAR, 9, t);
  }

  /** G711_alaw2linear computes AlawValue of the low byte, for any register contents. */
  lemma AlawToLinearRuns(s: State)
    ensures Signed(Run(ALAW_TO_LINEAR, 0, s).r0) == AlawValue(s.r0)
  {
    hide Run;
    hide Bitwise;
    hide Signed;
    hide SignedOutput;
    var t := AlawInvert(ALAW_TO_LINEAR, 0, s);
    t := AlawSegment(ALAW_TO_LINEAR, 3, t);
    AlawTail(t);
    EorByte(s.r0, 0x55);
    SameLowByte(ALaw, t.r2);
  }

  // ---- mu-law ----

  /** Shifting the code left by 25 leaves segment and step at the top. */
  lemma UlawTopBits(w: Word, g: nat, l: nat)
    requires l < 128 && w == 128 * g + l
    ensures ShiftLeft(w, 25) == l * 0x200_0000
    ensures Bit(w, 7) == (g % 2 == 1)
  {
    WordsHave32Bits();
    assert Pow2(7) == 128;
    ShiftLeftIs(w, 25, 0x200_0000);
    QuotientIs(w * 0x200_0000, 0x1_0000_0000, g, l * 0x200_0000);
    ShiftRightIs(w, 7, 128);
    QuotientIs(w, 128, g, l);
  }

  /** Complementing inverts the segment, and the shift by 29 isolates it. */
  lemma UlawSegment(x: Word, b: nat, c: nat)
    requires b < 8 && c < 16 && x == (16 * b + c) * 0x200_0000
    ensures ShiftRight(0xFFFF_FFFF - x, 29) == 7 - b
  {
    WordsHave32Bits();
    ShiftRightIs(0xFFFF_FFFF - x, 29, 0x2000_0000);
    QuotientIs(0xFFFF_FFFF - x, 0x2000_0000, 7 - b, 0x1FFF_FFFF - c * 0x200_0000);
  }

  lemma UlawStep(w: Word, c: nat)
    requires w % 16 == c
    ensures Bitwise(And, 0xFFFF_FFFF - ShiftLeft(w, 3), 0x78) == 8 * (15 - c)
  {
    var x, g := ShiftLeft(w, 3), w / 16;
    assert Pow2(3) == 8;
    ShiftLeftIs(w, 3, 8);
    QuotientIs(8 * w, 0x1_0000_0000, g / 0x200_0000, 128 * (g % 0x200_0000) + 8 * c);
    var y := 0x1FF_FFFF - g % 0x200_0000;
    QuotientIs(0xFFFF_FFFF - x, 8, 16 * y + 15 - c, 7);
    QuotientIs(16 * y + 15 - c, 16, y, 15 - c);
    And0x78(0xFFFF_FFFF - x);
  }

  lemma UlawGain(e: nat, m: nat)
    requires e < 8 && m < 16
    ensures 132 <= ShiftLeft(8 * m + 132, e) == Output(MuLaw, e, m) < 0x8000_0000
  {
    var w, p := 8 * m + 132, Pow2(e);
    Pow2Increases(e, 7);
    assert Pow2(7) == 128;
    Scale(w, 252, p);
    Scale(1, p, w);
    ShiftLeftExact(w, e, p);
  }

  /** MVNS leaves the sign bit of the code in C. */
  lemma UlawComplement(code: Code, pc: nat, s: State, x: Word) returns (t: State)
    requires pc < |code| && code[pc] == DoS(MVN, R1, R0, ByImm(R0, LSL, 25))
    requires ShiftLeft(s.r0, 25) == x
    ensures Run(code, pc, s) == Run(code, pc + 1, t)
    ensures t.r0 == s.r0 && t.r1 == 0xFFFF_FFFF - x && t.c == Bit(s.r0, 7)
  {
    hide Run;
    hide ShiftLeft;
    hide Bit;
    t := s.(r1 := 0xFFFF_FFFF - x, n := 0xFFFF_FFFF - x >= 0x8000_0000, z := 0xFFFF_FFFF - x == 0, c := Bit(s.r0, 7));
    Step(code, pc, code[pc], s, t);
  }

  lemma UlawIsolate(code: Code, pc: nat, s: State, e: Word) returns (t: State)
    requires pc < |code| && code[pc] == Move(AL, R1, ByImm(R1, LSR, 29))
    requires ShiftRight(s.r1, 29) == e
    ensures Run(code, pc, s) == Run(code, pc + 1, t)
    ensures t == s.(r1 := e)
  {
    hide Run;
    hide ShiftRight;
    t := WriteStep(code, pc, s, e);
  }

  lemma UlawStepField(code: Code, pc: nat, s: State, c: nat) returns (t: State)
    requires pc + 3 <= |code| && code[pc] == Do(AL, MVN, R0, R0, ByImm(R0, LSL, 3))
    requires code[pc + 1] == Do(AL, AND, R0, R0, Imm(0x78)) && code[pc + 2] == Do(AL, ADD, R0, R0, Imm(0x84))
    requires c < 16 && s.r0 % 16 == c
    ensures Run(code, pc, s) == Run(code, pc + 3, t)
    ensures t.r0 == 8 * (15 - c) + 132 && t.r1 == s.r1 && t.c == s.c
  {
    UlawStep(s.r0, c);
    hide Run;
    hide ShiftLeft;
    hide Bitwise;
    var u := WriteStep(code, pc, s, 0xFFFF_FFFF - ShiftLeft(s.r0, 3));
    u := WriteStep(code, pc + 1, u, 8 * (15 - c));
    t := WriteStep(code, pc + 2, u, 8 * (15 - c) + 132);
  }

  lemma UlawScale(code: Code, pc: nat, s: State, e: nat, m: nat) returns (t: State)
    requires pc < |code| && code[pc] == Move(AL, R0, ByReg(R0, LSL, R1))
    requires e < 8 && m < 16 && s.r0 == 8 * m + 132 && s.r1 == e
    ensures Run(code, pc, s) == Run(code, pc + 1, t)
    ensures 132 <= t.r0 == Output(MuLaw, e, m) < 0x8000_0000 && t.c == s.c
  {
    UlawGain(e, m);
    assert e % 256 == e;
    assert e == 0 ==> Output(MuLaw, e, m) == s.r0;
    hide Run;
    hide ShiftLeft;
    t := WriteStep(code, pc, s, Output(MuLaw, e, m));
  }

  lemma UlawUnbias(code: Code, pc: nat, s: State)
    requires pc + 3 <= |code| && code[pc] == Do(CS, SUB, R0, R0, Imm(0x84))
    requires code[pc + 1] == Do(CC, RSB, R0, R0, Imm(0x84)) && code[pc + 2] == Return
    requires 132 <= s.r0 < 0x8000_0000
    ensures Signed(Run(code, pc, s).r0) == if s.c then s.r0 - 132 else 132 - s.r0
  {
    var u := WriteStep(code, pc, s, s.r0 - 132);
    u := WriteStep(code, pc + 1, u, if s.r0 == 132 then 0 else 132 - s.r0 + 0x1_0000_0000);
  }

  lemma UlawTail(s: State, e: nat, c: nat)
    requires e < 8 && c < 16 && s.r0 % 16 == c && s.r1 == e
    ensures var out := Output(MuLaw, e, 15 - c) - 132;
      Signed(Run(ULAW_TO_LINEAR, 2, s).r0) == if s.c then out else 0 - out
  {
    hide Run;
    hide Output;
    hide Signed;
    var t := UlawStepField(ULAW_TO_LINEAR, 2, s, c);
    t := UlawScale(ULAW_TO_LINEAR, 5, t, e, 15 - c);
    UlawUnbias(ULAW_TO_LINEAR, 6, t);
  }

  lemma UlawRunsOnFields(s: State, positive: bool, b: nat, c: nat)
    requires b < 8 && c < 16 && s.r0 % 16 == c
    requires ShiftLeft(s.r0, 25) == (16 * b + c) * 0x200_0000 && Bit(s.r0, 7) == positive
    ensures var out := Output(MuLaw, 7 - b, 15 - c) - 132;
      Signed(Run(ULAW_TO_LINEAR, 0, s).r0) == if positive then out else 0 - out
  {
    hide Run;
    hide ShiftLeft;
    hide ShiftRight;
    hide Bit;
    hide Output;
    hide Signed;
    var x := (16 * b + c) * 0x200_0000;
    UlawSegment(x, b, c);
    var t := UlawComplement(ULAW_TO_LINEAR, 0, s, x);
    t := UlawIsolate(ULAW_TO_LINEAR, 1, t, 7 - b);
    UlawTail(t, 7 - b, c);
  }

  /** G711_ulaw2linear computes UlawValue of the low byte, for any register contents. */
  lemma UlawToLinearRuns(s: State)
    ensures Signed(Run(ULAW_TO_LINEAR, 0, s).r0) == UlawValue(s.r0)
  {
    hide Run;
    hide ShiftLeft;
    hide Bit;
    hide Output;
    hide Signed;
    var h, a, b, c := ByteHasFields(s.r0);
    ByteFields(h, a, b, c);
    UlawTopBits(s.r0, 2 * h + a, 16 * b + c);
    assert (2 * h + a) % 2 == a by { QuotientIs(2 * h + a, 2, h, a); }
    UlawRunsOnFields(s, a == 1, b, c);
  }
}
