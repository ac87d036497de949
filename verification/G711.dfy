/** Closed forms of the four codec routines, as functions on integers. */
module G711 {
  import opened Words
  import opened Companding

  /** G.711 inverts the even bits of an A-law code; 0xD5 also sets the sign bit. */
  function AlawCode(pcm: int): nat {
    if pcm >= 0 then Bitwise(Eor, Compress(ALaw, pcm), 0xD5)
    else if pcm == -0x8000_0000 || pcm > -8 then 0x5A
    else Bitwise(Eor, Compress(ALaw, -pcm - 8), 0x55)
  }

  function AlawValue(code: nat): int {
    SignedOutput(ALaw, Bitwise(Eor, code % 256, 0x55))
  }

  /** Sign bit, segment and step of a byte; a clear sign bit means negative. */
  function SignedOutput(law: Law, d: nat): int {
    var out := Output(law, d / 16 % 8, d % 16);
    if d / 128 % 2 == 1 then out else 0 - out
  }

  function Magnitude(x: int): nat {
    if x < 0 then -x else x
  }

  /** The biased magnitude of a sample; past 2^31 the routine sees it as negative and uses segment 0. */
  function UlawLevel(pcm: int): nat {
    var biased := Magnitude(pcm) + 132;
    if biased < 0x8000_0000 then Compress(MuLaw, biased) else biased / 8 % 16
  }

  function UlawCode(pcm: int): int {
    (if pcm >= 0 then 255 else 127) - UlawLevel(pcm)
  }

  function UlawValue(code: nat): int {
    var out := Output(MuLaw, 7 - code / 16 % 8, 15 - code % 16) - 132;
    if code / 128 % 2 == 1 then out else 0 - out
  }

  /** The code of samples -7..-1 is level 15 of the negative side. */
  lemma BandCode()
    ensures Bitwise(Eor, 15, 0x55) == 0x5A && Output(ALaw, 0, 15) == 248
  {
    Bytes();
    ZeroOperand(Eor, 5);
    EorOnes(5, 4);
    EorSwap(15, 5);
    BitwiseSplit(Eor, 0, 15, 5, 5, 4, 16);
  }
}
