/** 32-bit words as integers, with the bitwise operators the ARM routines use. */
module Words {

  type Word = x: int | 0 <= x < 0x1_0000_0000

  /** The 32-bit pattern that represents x modulo 2^32. */
  function Wrap(x: int): Word {
    x % 0x1_0000_0000
  }

  /** The two's-complement reading of a word. */
  function Signed(w: Word): int {
    if w < 0x8000_0000 then w else w - 0x1_0000_0000
  }

  lemma SignedOfWrap(x: int)
    requires -0x8000_0000 <= x < 0x8000_0000
    ensures Signed(Wrap(x)) == x
  {
  }

  predicate IsInt32(x: int) {
    -0x8000_0000 <= x < 0x8000_0000
  }

  lemma SignedIsInt32(w: Word)
    ensures IsInt32(Signed(w))
  {
  }

  function Pow2(n: nat): (p: int)
    ensures p >= 1
  {
    if n == 0 then 1 else 2 * Pow2(n - 1)
  }

  /** Shifts, one place at a time. */
  function ShiftLeft(w: Word, amount: nat): Word {
    if amount == 0 then w else
    var d := 2 * ShiftLeft(w, amount - 1);
    if d < 0x1_0000_0000 then d else d - 0x1_0000_0000
  }

  function ShiftRight(w: int, amount: nat): (r: int)
    ensures w >= 0 ==> 0 <= r <= w
  {
    if amount == 0 then w else ShiftRight(w, amount - 1) / 2
  }

  lemma {:induction false} ShiftLeftIs(w: Word, amount: nat, p: int)
    requires p == Pow2(amount)
    ensures ShiftLeft(w, amount) == Wrap(w * p)
  {
    if amount > 0 {
      var q := Pow2(amount - 1);
      ShiftLeftIs(w, amount - 1, q);
      DoubleModulo(ShiftLeft(w, amount - 1), w * q);
      Twice(w, p, q);
    }
  }

  lemma Twice(h: nat, p: nat, q: nat)
    requires p == 2 * q
    ensures 2 * (h * q) == h * p
  {
    assert h * (2 * q) == 2 * (h * q);
  }

  lemma DoubleModulo(x: Word, y: int)
    requires x == Wrap(y)
    ensures (if 2 * x < 0x1_0000_0000 then 2 * x else 2 * x - 0x1_0000_0000) == Wrap(2 * y)
  {
    var k := y / 0x1_0000_0000;
    if 2 * x < 0x1_0000_0000 {
      QuotientIs(2 * y, 0x1_0000_0000, 2 * k, 2 * x);
    } else {
      QuotientIs(2 * y, 0x1_0000_0000, 2 * k + 1, 2 * x - 0x1_0000_0000);
    }
  }

  lemma ShiftLeftExact(w: Word, amount: nat, p: int)
    requires p == Pow2(amount) && w * p < 0x1_0000_0000
    ensures ShiftLeft(w, amount) == w * p
  {
    ShiftLeftIs(w, amount, p);
    assert w * p >= 0;
  }

  lemma {:induction false} ShiftRightIs(w: nat, amount: nat, p: int)
    requires p == Pow2(amount)
    ensures ShiftRight(w, amount) == w / p
  {
    if amount > 0 {
      var q := Pow2(amount - 1);
      ShiftRightIs(w, amount - 1, q);
      HalfOfQuotient(w, q);
    }
  }

  lemma HalfOfQuotient(w: nat, q: int)
    requires q >= 1
    ensures w / q / 2 == w / (2 * q)
  {
    var t := w / q / 2;
    assert w == (2 * q) * t + (w % q + q * (w / q % 2)) by {
      assert w == q * (w / q) + w % q;
      assert q * (w / q) == q * (2 * t + w / q % 2) == (2 * q) * t + q * (w / q % 2);
    }
    QuotientIs(w, 2 * q, t, w % q + q * (w / q % 2));
  }

  lemma QuotientIs(a: int, d: int, t: int, r: int)
    requires d > 0 && 0 <= r < d && a == d * t + r
    ensures a / d == t && a % d == r
  {
    var u := a / d;
    assert a == d * u + a % d;
    if u < t { Scale(u + 1, t, d); }
    if u > t { Scale(t + 1, u, d); }
  }

  lemma Scale(x: int, y: int, d: int)
    requires x <= y && d > 0
    ensures d * x <= d * y
  {
  }

  lemma {:induction false} Pow2Increases(a: nat, b: nat)
    requires a <= b
    ensures Pow2(a) <= Pow2(b)
  {
    if a < b { Pow2Increases(a, b - 1); }
  }

  datatype BitOp = And | Or | Eor

  function OnBits(op: BitOp, a: bool, b: bool): bool {
    match op
    case And => a && b
    case Or => a || b
    case Eor => a != b
  }

  function OnLowBit(op: BitOp, a: nat, b: nat): (d: nat)
    ensures d < 2
  {
    if OnBits(op, a % 2 == 1, b % 2 == 1) then 1 else 0
  }

  /** The operator applied to every bit of a and b. */
  function Bitwise(op: BitOp, a: nat, b: nat): nat {
    if a == 0 && b == 0 then 0
    else 2 * Bitwise(op, a / 2, b / 2) + OnLowBit(op, a, b)
  }

  predicate Bit(a: nat, k: nat) {
    ShiftRight(a, k) % 2 == 1
  }

  /** Bit k of the result is the operator applied to bit k of the operands. */
  lemma BitwiseMeaning(op: BitOp, a: nat, b: nat, k: nat)
    ensures Bit(Bitwise(op, a, b), k) == OnBits(op, Bit(a, k), Bit(b, k))
  {
    BitwiseShifts(op, a, b, k);
    BitwiseLowBit(op, ShiftRight(a, k), ShiftRight(b, k));
  }

  lemma BitwiseLowBit(op: BitOp, a: nat, b: nat)
    ensures (Bitwise(op, a, b) % 2 == 1) == OnBits(op, a % 2 == 1, b % 2 == 1)
  {
    BitwiseUnfold(op, a, b);
  }

  lemma {:induction false} BitwiseShifts(op: BitOp, a: nat, b: nat, k: nat)
    ensures ShiftRight(Bitwise(op, a, b), k) == Bitwise(op, ShiftRight(a, k), ShiftRight(b, k))
  {
    if k > 0 {
      BitwiseShifts(op, a, b, k - 1);
      BitwiseUnfold(op, ShiftRight(a, k - 1), ShiftRight(b, k - 1));
    }
  }

  lemma BitwiseUnfold(op: BitOp, a: nat, b: nat)
    ensures Bitwise(op, a, b) == 2 * Bitwise(op, a / 2, b / 2) + OnLowBit(op, a, b)
  {
  }

  lemma BitwiseJoin(op: BitOp, a: nat, b: nat, i: nat, j: nat)
    requires i < 2 && j < 2
    ensures Bitwise(op, 2 * a + i, 2 * b + j) == 2 * Bitwise(op, a, b) + OnLowBit(op, i, j)
  {
    assert (2 * a + i) / 2 == a && (2 * a + i) % 2 == i;
    assert (2 * b + j) / 2 == b && (2 * b + j) % 2 == j;
  }

  lemma {:induction false} BitwiseBound(op: BitOp, a: nat, b: nat, k: nat)
    requires a < Pow2(k) && b < Pow2(k)
    ensures Bitwise(op, a, b) < Pow2(k)
  {
    if k > 0 { BitwiseBound(op, a / 2, b / 2, k - 1); }
  }

  lemma WordsHave32Bits()
    ensures Pow2(25) == 0x200_0000 && Pow2(29) == 0x2000_0000 && Pow2(32) == 0x1_0000_0000
  {
    assert Pow2(8) == 0x100;
    assert Pow2(16) == 0x1_0000;
    assert Pow2(24) == 0x100_0000;
  }

  function BitwiseWord(op: BitOp, a: Word, b: Word): Word {
    WordsHave32Bits();
    BitwiseBound(op, a, b, 32);
    Bitwise(op, a, b)
  }

  /** Splitting at bit k: high parts and low parts are combined independently. */
  lemma {:induction false} BitwiseSplit(op: BitOp, h: nat, l: nat, g: nat, m: nat, k: nat, p: nat)
    requires l < p && m < p && p == Pow2(k)
    ensures Bitwise(op, h * p + l, g * p + m) == Bitwise(op, h, g) * p + Bitwise(op, l, m)
    decreases k
  {
    if k == 0 {
      assert p == 1 && l == 0 && m == 0;
    } else {
      var q := Pow2(k - 1);
      assert p == 2 * q;
      BitwiseSplit(op, h, l / 2, g, m / 2, k - 1, q);
      hide Bitwise;
      hide Pow2;
      BitwiseSplitUp(op, h, l, g, m, q);
    }
  }

  lemma BitwiseSplitUp(op: BitOp, h: nat, l: nat, g: nat, m: nat, q: nat)
    requires Bitwise(op, h * q + l / 2, g * q + m / 2) == Bitwise(op, h, g) * q + Bitwise(op, l / 2, m / 2)
    ensures Bitwise(op, h * (2 * q) + l, g * (2 * q) + m) == Bitwise(op, h, g) * (2 * q) + Bitwise(op, l, m)
  {
    hide Bitwise;
    var hq, gq, rq := Product(h, q), Product(g, q), Product(Bitwise(op, h, g), q);
    BitwiseSplitStep(op, hq, l / 2, l % 2, gq, m / 2, m % 2, rq);
    Twice(h, 2 * q, q);
    Twice(g, 2 * q, q);
    Twice(Bitwise(op, h, g), 2 * q, q);
  }

  lemma BitwiseSplitStep(op: BitOp, h: nat, l: nat, i: nat, g: nat, m: nat, j: nat, high: nat)
    requires i < 2 && j < 2
    requires Bitwise(op, h + l, g + m) == high + Bitwise(op, l, m)
    ensures Bitwise(op, 2 * h + (2 * l + i), 2 * g + (2 * m + j)) == 2 * high + Bitwise(op, 2 * l + i, 2 * m + j)
  {
    hide Bitwise;
    BitwiseJoin(op, h + l, g + m, i, j);
    BitwiseJoin(op, l, m, i, j);
    assert 2 * (h + l) + i == 2 * h + (2 * l + i);
    assert 2 * (g + m) + j == 2 * g + (2 * m + j);
  }

  function Product(h: nat, q: nat): (r: nat)
    ensures r == h * q
  {
    assert h * q >= 0;
    h * q
  }

  lemma {:induction false} ZeroOperand(op: BitOp, a: nat)
    ensures Bitwise(op, a, 0) == Bitwise(op, 0, a) == if op.And? then 0 else a
  {
    if a != 0 { ZeroOperand(op, a / 2); }
  }

  /** Exclusive or with the same mask twice is the identity. */
  lemma {:induction false} EorTwice(a: nat, mask: nat)
    ensures Bitwise(Eor, Bitwise(Eor, a, mask), mask) == a
  {
    if a != 0 || mask != 0 {
      EorTwice(a / 2, mask / 2);
      BitwiseUnfold(Eor, Bitwise(Eor, a, mask), mask);
    }
  }

  /** Exclusive or with k ones complements a k-bit number. */
  lemma {:induction false} EorOnes(a: nat, k: nat)
    requires a < Pow2(k)
    ensures Bitwise(Eor, a, Pow2(k) - 1) == Pow2(k) - 1 - a
  {
    if k > 0 {
      var q := Pow2(k - 1);
      assert Pow2(k) == 2 * q;
      hide Bitwise;
      hide Pow2;
      EorOnes(a / 2, k - 1);
      BitwiseJoin(Eor, a / 2, q - 1, a % 2, 1);
      assert 2 * (q - 1) + 1 == 2 * q - 1 && 2 * (a / 2) + a % 2 == a && OnLowBit(Eor, a % 2, 1) == 1 - a % 2;
    }
  }

  lemma {:induction false} AndOnes(a: nat, k: nat)
    requires a < Pow2(k)
    ensures Bitwise(And, a, Pow2(k) - 1) == a
  {
    if k > 0 {
      var q := Pow2(k - 1);
      assert Pow2(k) == 2 * q;
      hide Bitwise;
      hide Pow2;
      AndOnes(a / 2, k - 1);
      BitwiseJoin(And, a / 2, q - 1, a % 2, 1);
      assert 2 * (q - 1) + 1 == 2 * q - 1;
    }
  }

  /** A byte mask leaves everything above the low byte alone. */
  lemma EorByte(a: nat, mask: nat)
    requires mask < 256
    ensures Bitwise(Eor, a % 256, mask) < 256
    ensures Bitwise(Eor, a, mask) % 256 == Bitwise(Eor, a % 256, mask)
  {
    Bytes();
    BitwiseBound(Eor, a % 256, mask, 8);
    ZeroOperand(Eor, a / 256);
    BitwiseSplit(Eor, a / 256, a % 256, 0, mask, 8, 256);
    QuotientIs(Bitwise(Eor, a, mask), 256, a / 256, Bitwise(Eor, a % 256, mask));
  }

  lemma Bytes()
    ensures Pow2(3) == 8 && Pow2(4) == 16 && Pow2(7) == 128 && Pow2(8) == 256
  {
    assert Pow2(4) == 16;
  }

  lemma And7(a: nat)
    ensures Bitwise(And, a, 7) == a % 8
  {
    Bytes();
    AndOnes(a % 8, 3);
    ZeroOperand(And, a / 8);
    BitwiseSplit(And, a / 8, a % 8, 0, 7, 3, 8);
  }

  lemma And15(a: nat)
    ensures Bitwise(And, a, 15) == a % 16
  {
    Bytes();
    AndOnes(a % 16, 4);
    ZeroOperand(And, a / 16);
    BitwiseSplit(And, a / 16, a % 16, 0, 15, 4, 16);
  }

  lemma And0x78(a: nat)
    ensures Bitwise(And, a, 0x78) == a / 8 % 16 * 8
  {
    Bytes();
    ZeroOperand(And, a % 8);
    And15(a / 8);
    BitwiseSplit(And, a / 8, a % 8, 15, 0, 3, 8);
  }

  lemma And0x80(a: nat)
    ensures Bitwise(And, a, 0x80) == a / 128 % 2 * 128
  {
    Bytes();
    ZeroOperand(And, a % 128);
    BitwiseUnfold(And, a / 128, 1);
    ZeroOperand(And, a / 128 / 2);
    BitwiseSplit(And, a / 128, a % 128, 1, 0, 7, 128);
  }

  /** Putting a 4-bit field below another field. */
  lemma OrNibble(high: nat, low: nat)
    requires low < 16
    ensures Bitwise(Or, 16 * high, low) == Bitwise(Or, low, 16 * high) == 16 * high + low
  {
    Bytes();
    hide Bitwise;
    hide Pow2;
    ZeroOperand(Or, high);
    ZeroOperand(Or, low);
    BitwiseSplit(Or, high, 0, 0, low, 4, 16);
    BitwiseSplit(Or, 0, low, high, 0, 4, 16);
  }

  lemma {:induction false} OrOnes(a: nat, k: nat)
    requires a < Pow2(k)
    ensures Bitwise(Or, Pow2(k) - 1, a) == Pow2(k) - 1
  {
    if k > 0 {
      hide Bitwise;
      OrOnes(a / 2, k - 1);
      BitwiseJoin(Or, Pow2(k - 1) - 1, a / 2, 1, a % 2);
    }
  }

  lemma OrLevel127(low: nat)
    requires low < 16
    ensures Bitwise(Or, 127, low) == 127
  {
    Bytes();
    hide Pow2;
    OrOnes(low, 4);
    ZeroOperand(Or, 7);
    BitwiseSplit(Or, 7, 15, 0, low, 4, 16);
  }

  lemma {:induction false} ShiftsAdd(w: int, a: nat, b: nat)
    ensures ShiftRight(ShiftRight(w, a), b) == ShiftRight(w, a + b)
  {
    if b > 0 { ShiftsAdd(w, a, b - 1); }
  }

  lemma {:induction false} EorSwap(a: nat, b: nat)
    ensures Bitwise(Eor, a, b) == Bitwise(Eor, b, a)
  {
    if a != 0 || b != 0 { EorSwap(a / 2, b / 2); }
  }
}
