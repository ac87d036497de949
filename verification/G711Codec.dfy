/** The routines as called from C: argument and result in r0, the other registers and flags clobbered. */
module G711Codec {
  import opened Words
  import opened Arm
  import opened G711Code
  import opened G711
  import opened G711Laws
  import opened G711Decoders
  import opened G711Encoders

  method Linear2Alaw(cpu: Cpu, pcm: int) returns (code: int)
    requires IsInt32(pcm)
    modifies cpu
    ensures code == cpu.r0 == AlawCode(pcm) < 256
  {
    hide Run;
    hide AlawCode;
    hide Wrap;
    hide Signed;
    SignedOfWrap(pcm);
    cpu.r0 := Wrap(pcm);
    LinearToAlawRuns(cpu.Snapshot());
    AlawCodeIsByte(pcm);
    cpu.Execute(LINEAR_TO_ALAW);
    code := cpu.r0;
  }

  method Alaw2Linear(cpu: Cpu, code: Word) returns (pcm: int)
    modifies cpu
    ensures pcm == Signed(cpu.r0) == AlawValue(code)
  {
    cpu.r0 := code;
    AlawToLinearRuns(cpu.Snapshot());
    cpu.Execute(ALAW_TO_LINEAR);
    pcm := Signed(cpu.r0);
  }

  method Linear2Ulaw(cpu: Cpu, pcm: int) returns (code: int)
    requires IsInt32(pcm)
    modifies cpu
    ensures code == cpu.r0 == UlawCode(pcm) < 256
  {
    hide Run;
    hide UlawCode;
    hide Wrap;
    hide Signed;
    SignedOfWrap(pcm);
    cpu.r0 := Wrap(pcm);
    LinearToUlawRuns(cpu.Snapshot());
    UlawCodeIsByte(pcm);
    cpu.Execute(LINEAR_TO_ULAW);
    code := cpu.r0;
  }

  method Ulaw2Linear(cpu: Cpu, code: Word) returns (pcm: int)
    modifies cpu
    ensures pcm == Signed(cpu.r0) == UlawValue(code)
  {
    cpu.r0 := code;
    UlawToLinearRuns(cpu.Snapshot());
    cpu.Execute(ULAW_TO_LINEAR);
    pcm := Signed(cpu.r0);
  }

  /** Decode then encode: the low byte of any register value comes back, except mu-law negative zero. */
  method RecodeAlaw(cpu: Cpu, code: Word) returns (again: int)
    modifies cpu
    ensures again == code % 256
  {
    var pcm := Alaw2Linear(cpu, code);
    AlawRoundTrip(code);
    again := Linear2Alaw(cpu, pcm);
  }

  method RecodeUlaw(cpu: Cpu, code: Word) returns (again: int)
    modifies cpu
    ensures again == if code % 256 == 0x7F then 0xFF else code % 256
  {
    var pcm := Ulaw2Linear(cpu, code);
    UlawRoundTrip(code);
    again := Linear2Ulaw(cpu, pcm);
  }

  /** Encode then decode a sample. */
  method RequantizeAlaw(cpu: Cpu, pcm: int) returns (out: int)
    requires IsInt32(pcm)
    modifies cpu
    ensures out == AlawQuantize(pcm)
  {
    var code := Linear2Alaw(cpu, pcm);
    out := Alaw2Linear(cpu, code);
  }

  method RequantizeUlaw(cpu: Cpu, pcm: int) returns (out: int)
    requires IsInt32(pcm)
    modifies cpu
    ensures UlawCode(pcm) >= 0 && out == UlawQuantize(pcm)
  {
    var code := Linear2Ulaw(cpu, pcm);
    out := Ulaw2Linear(cpu, code);
  }
}
