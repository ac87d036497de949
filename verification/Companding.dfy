/** The two logarithmic scales of ITU-T Recommendation G.711, section 3, on magnitudes: 128 levels in
    8 segments of 16 steps. Both laws agree from segment 1 on; the mu-law works on biased magnitudes,
    which start at 132. */
module Companding {
  import opened Words

  datatype Law = ALaw | MuLaw

  /** Linear scan of the segment ends 256, 512, ..., 32768; segment 8 is overload. */
  function SegmentFrom(mag: int, s: nat): (r: nat)
    requires s <= 8
    ensures s <= r <= 8
    decreases 8 - s
  {
    if s == 8 || mag < 256 * Pow2(s) then s else SegmentFrom(mag, s + 1)
  }

  function Segment(mag: int): nat {
    SegmentFrom(mag, 0)
  }

  /** The shift that leaves the 4-bit step number of a magnitude in the low bits. */
  function StepShift(law: Law, seg: nat): nat {
    if law.ALaw? && seg == 0 then 4 else seg + 3
  }

  function Compress(law: Law, mag: nat): nat {
    var seg := Segment(mag);
    if seg == 8 then 127 else 16 * seg + mag / Pow2(StepShift(law, seg)) % 16
  }

  /** The output magnitude of step m of segment e. */
  function Output(law: Law, e: nat, m: nat): nat {
    if law.MuLaw? then (8 * m + 132) * Pow2(e)
    else if e == 0 then 16 * m + 8 else (16 * m + 264) * Pow2(e - 1)
  }

  function Expand(law: Law, level: nat): nat {
    Output(law, level / 16, level % 16)
  }

  /** Decision value: the least magnitude of a level. */
  ghost function Floor(law: Law, level: nat): nat {
    if law.ALaw? && level < 16 then 16 * level else (8 * (level % 16) + 128) * Pow2(level / 16)
  }

  ghost function Width(law: Law, level: nat): nat {
    if law.ALaw? && level < 16 then 16 else 8 * Pow2(level / 16)
  }

  ghost predicate InScale(law: Law, mag: int) {
    mag >= if law.ALaw? then 0 else 128
  }

  lemma {:induction false} SegmentFromBounds(mag: int, s: nat)
    requires s <= 8 && (s > 0 ==> mag >= 128 * Pow2(s))
    ensures var r := SegmentFrom(mag, s); (r < 8 ==> mag < 256 * Pow2(r)) && (r > 0 ==> mag >= 128 * Pow2(r))
    decreases 8 - s
  {
    if s < 8 && mag >= 256 * Pow2(s) {
      SegmentFromBounds(mag, s + 1);
    }
  }

  lemma {:induction false} SegmentFromIs(mag: int, s: nat, r: nat)
    requires s <= r <= 8 && (r < 8 ==> mag < 256 * Pow2(r)) && (r > 0 ==> mag >= 128 * Pow2(r))
    ensures SegmentFrom(mag, s) == r
    decreases r - s
  {
    if s < r {
      Pow2Increases(s, r - 1);
      SegmentFromIs(mag, s + 1, r);
    }
  }

  /** The four-compare halving search of the encoders. */
  function HalvingSearch(mag: nat): nat {
    var m4 := if mag >= 0x1000 then mag / 16 else mag;
    var m2 := if m4 >= 0x400 then m4 / 4 else m4;
    var m1 := if m2 >= 0x100 then m2 / 2 else m2;
    (if mag >= 0x1000 then 4 else 0) + (if m4 >= 0x400 then 2 else 0)
    + (if m2 >= 0x100 then 1 else 0) + (if m1 >= 0x100 then 1 else 0)
  }

  /** The halving search finds the same segment as the linear scan. */
  lemma HalvingIsScan(mag: nat)
    ensures HalvingSearch(mag) == Segment(mag)
  {
    var r := if mag < 256 then 0 else if mag < 512 then 1 else if mag < 1024 then 2 else if mag < 2048 then 3
             else if mag < 4096 then 4 else if mag < 8192 then 5 else if mag < 16384 then 6
             else if mag < 32768 then 7 else 8;
    assert Pow2(4) == 16 && Pow2(8) == 256 && Pow2(6) == 64;
    SegmentFromIs(mag, 0, r);
  }

  lemma Distribute(x: int, y: int, p: int)
    ensures (x + y) * p == x * p + y * p
  {
  }

  lemma LevelParts(e: nat, m: nat)
    requires m < 16
    ensures (16 * e + m) / 16 == e && (16 * e + m) % 16 == m
  {
  }

  /** The fields of a byte: sign bit a, segment b, step c, below any h. */
  lemma ByteFields(h: nat, a: nat, b: nat, c: nat)
    requires a < 2 && b < 8 && c < 16
    ensures var d := 256 * h + 128 * a + 16 * b + c;
      d % 16 == c && d / 16 % 8 == b && d / 128 % 2 == a && d % 256 == 128 * a + 16 * b + c && d % 128 == 16 * b + c
  {
    var d := 256 * h + 128 * a + 16 * b + c;
    QuotientIs(d, 16, 16 * h + 8 * a + b, c);
    QuotientIs(d / 16, 8, 2 * h + a, b);
    QuotientIs(d, 128, 2 * h + a, 16 * b + c);
    QuotientIs(d / 128, 2, h, a);
    QuotientIs(d, 256, h, 128 * a + 16 * b + c);
  }

  lemma ByteHasFields(d: nat) returns (h: nat, a: nat, b: nat, c: nat)
    ensures a < 2 && b < 8 && c < 16 && d == 256 * h + 128 * a + 16 * b + c
  {
    h, a, b, c := d / 256, d / 128 % 2, d / 16 % 8, d % 16;
    assert d == 16 * (d / 16) + c && d / 16 == 8 * (d / 16 / 8) + b;
    HalfOfQuotient(d, 128);
    assert d / 16 / 8 == d / 128 by { QuotientIs(d, 128, d / 16 / 8, 16 * b + c); }
  }

  lemma FloorNext(law: Law, level: nat)
    ensures Floor(law, level + 1) == Floor(law, level) + Width(law, level)
  {
    var e, m := level / 16, level % 16;
    var p := Pow2(e);
    Distribute(8 * m + 128, 8, p);
    if m == 15 {
      LevelParts(e + 1, 0);
      assert (8 * m + 128 + 8) * p == 128 * Pow2(e + 1);
    } else {
      LevelParts(e, m + 1);
    }
  }

  lemma ExpandAt(law: Law, level: nat)
    requires law.ALaw? ==> level >= 16
    ensures Expand(law, level) == (8 * (level % 16) + 132) * Pow2(level / 16)
  {
    if law.ALaw? {
      var m, q := level % 16, Pow2(level / 16 - 1);
      assert (16 * m + 264) * q == (8 * m + 132) * (2 * q);
    }
  }

  /** Intervals are adjacent, and the output value is the exact midpoint of its interval. */
  lemma FloorStep(law: Law, level: nat)
    ensures Floor(law, level + 1) == Floor(law, level) + Width(law, level)
    ensures 2 * Expand(law, level) == Floor(law, level) + Floor(law, level + 1)
  {
    FloorNext(law, level);
    if law.MuLaw? || level >= 16 {
      ExpandAt(law, level);
      Distribute(8 * (level % 16) + 128, 4, Pow2(level / 16));
    }
  }

  lemma {:induction false} FloorsIncrease(law: Law, a: nat, b: nat)
    requires a < b
    ensures Floor(law, a) + Width(law, a) <= Floor(law, b)
  {
    FloorStep(law, b - 1);
    if a < b - 1 { FloorsIncrease(law, a, b - 1); }
  }

  lemma DivisionBounds(a: nat, d: nat)
    requires d > 0
    ensures a / d * d <= a < a / d * d + d
  {
  }

  lemma StepNumber(mag: nat, p: nat, t: nat)
    requires p > 0 && 128 * p <= mag < 256 * p && t == mag / (8 * p)
    ensures 16 <= t < 32
    ensures (8 * t) * p <= mag < (8 * t) * p + 8 * p
  {
    DivisionBounds(mag, 8 * p);
    assert t * (8 * p) == (8 * t) * p;
    if t < 16 { LeftFactor(8 * t, 120, p); }
    if t >= 32 { LeftFactor(256, 8 * t, p); }
  }

  lemma LeftFactor(x: int, y: int, p: nat)
    requires x <= y
    ensures x * p <= y * p
  {
  }

  lemma FloorInSegment(law: Law, s: nat, t: nat, p: nat)
    requires s < 8 && (law.ALaw? ==> s > 0) && 16 <= t < 32 && p == Pow2(s)
    ensures var y := 16 * s + (t - 16); y < 128 && Floor(law, y) == (8 * t) * p && Width(law, y) == 8 * p
  {
    LevelParts(s, t - 16);
  }

  lemma CompressInSegment(law: Law, mag: nat, s: nat, t: nat)
    requires Segment(mag) == s < 8 && (law.ALaw? ==> s > 0) && t == mag / (8 * Pow2(s)) && 16 <= t < 32
    ensures Compress(law, mag) == 16 * s + (t - 16)
  {
    assert Pow2(s + 3) == 2 * Pow2(s + 2) == 4 * Pow2(s + 1) == 8 * Pow2(s);
    hide Segment;
    hide Pow2;
    assert t % 16 == t - 16;
  }

  lemma CompressLocatesInSegment(law: Law, mag: nat, s: nat)
    requires Segment(mag) == s < 8 && InScale(law, mag) && (law.ALaw? ==> s > 0)
    ensures var y := Compress(law, mag); y < 128 && Floor(law, y) <= mag < Floor(law, y) + Width(law, y)
  {
    SegmentFromBounds(mag, 0);
    var p := Pow2(s);
    assert s == 0 ==> p == 1;
    hide Floor;
    hide Width;
    hide Compress;
    hide Pow2;
    hide Segment;
    var t := mag / (8 * p);
    StepNumber(mag, p, t);
    CompressInSegment(law, mag, s, t);
    FloorInSegment(law, s, t, p);
  }

  lemma CompressLocatesOverload(law: Law, mag: nat)
    requires Segment(mag) == 8
    ensures Compress(law, mag) == 127 && Floor(law, 127) <= mag
  {
    SegmentFromBounds(mag, 0);
    assert Pow2(7) == 128 && Pow2(8) == 256;
    hide Segment;
    hide Pow2;
  }

  /** The first A-law segment has the steps of the second. */
  lemma CompressLocatesLinear(mag: nat)
    requires Segment(mag) == 0
    ensures var y := Compress(ALaw, mag); y == mag / 16 < 16 && Floor(ALaw, y) <= mag < Floor(ALaw, y) + Width(ALaw, y)
  {
    SegmentFromBounds(mag, 0);
    assert Pow2(0) == 1 && Pow2(4) == 16;
    hide Segment;
    hide Pow2;
  }

  /** A compressed magnitude lies in the interval of its level. */
  lemma CompressLocates(law: Law, mag: nat)
    requires InScale(law, mag)
    ensures Compress(law, mag) < 128
    ensures Floor(law, Compress(law, mag)) <= mag
    ensures Compress(law, mag) < 127 ==> mag < Floor(law, Compress(law, mag) + 1)
  {
    var s := Segment(mag);
    SegmentFromBounds(mag, 0);
    FloorNext(law, Compress(law, mag));
    hide Floor;
    hide Width;
    hide Compress;
    hide Segment;
    hide Pow2;
    if s == 8 {
      CompressLocatesOverload(law, mag);
    } else if law.ALaw? && s == 0 {
      CompressLocatesLinear(mag);
    } else {
      CompressLocatesInSegment(law, mag, s);
    }
  }

  /** The decision rule: a level is chosen exactly on its interval; the last level has no upper end. */
  lemma CompressIsDecision(law: Law, mag: nat, level: nat)
    requires InScale(law, mag) && level < 128
    ensures Compress(law, mag) == level <==> Floor(law, level) <= mag && (level == 127 || mag < Floor(law, level + 1))
  {
    var y := Compress(law, mag);
    CompressLocates(law, mag);
    FloorStep(law, level);
    FloorStep(law, y);
    if y < level { FloorsIncrease(law, y, level); }
    if level < y { FloorsIncrease(law, level, y); }
  }

  lemma CompressMonotone(law: Law, a: nat, b: nat)
    requires InScale(law, a) && a <= b
    ensures Compress(law, a) <= Compress(law, b) < 128
  {
    var y, w := Compress(law, a), Compress(law, b);
    CompressLocates(law, a);
    CompressLocates(law, b);
    if w < y {
      FloorsIncrease(law, w, y);
      FloorStep(law, w);
    }
  }

  /** The decision rule for a range of levels: those up to a given one hold the magnitudes below its upper end. */
  lemma CompressAtMost(law: Law, mag: nat, level: nat)
    requires InScale(law, mag) && level < 127
    ensures Compress(law, mag) <= level <==> mag < Floor(law, level + 1)
  {
    var y := Compress(law, mag);
    CompressLocates(law, mag);
    FloorsOrdered(law, y + 1, level + 1);
    FloorsOrdered(law, level + 1, y);
  }

  lemma FloorsOrdered(law: Law, a: nat, b: nat)
    ensures a <= b ==> Floor(law, a) <= Floor(law, b)
  {
    if a < b { FloorsIncrease(law, a, b); }
  }

  lemma ExpandStrictlyIncreases(law: Law, a: nat, b: nat)
    requires a < b
    ensures Expand(law, a) < Expand(law, b)
  {
    FloorsIncrease(law, a, b);
    FloorStep(law, a);
    FloorStep(law, b);
  }

  /** Every level is the one chosen for its own output value. */
  lemma CompressExpand(law: Law, level: nat)
    requires level < 128
    ensures InScale(law, Expand(law, level)) && Compress(law, Expand(law, level)) == level
  {
    FloorStep(law, level);
    if level > 0 { FloorsIncrease(law, 0, level); }
    CompressIsDecision(law, Expand(law, level), level);
  }

  lemma TopOfScale(law: Law)
    ensures Floor(law, 128) == 32768
  {
    assert Pow2(8) == 256;
  }

  /** Output values are interval midpoints, so the error is at most half a step: about 1/32 of the magnitude. */
  lemma ExpandError(law: Law, mag: nat) returns (half: nat)
    requires InScale(law, mag) && mag < 32768
    ensures 0 - half <= mag - Expand(law, Compress(law, mag)) < half
    ensures 32 * half <= if law.ALaw? && mag < 256 then 256 else mag
    ensures law.ALaw? ==> half >= 8
  {
    var y := Compress(law, mag);
    CompressLocates(law, mag);
    FloorStep(law, y);
    TopOfScale(law);
    WidthBound(law, y);
    hide Floor;
    hide Width;
    hide Expand;
    hide Compress;
    half := Width(law, y) / 2;
  }

  lemma WidthBound(law: Law, level: nat)
    ensures Width(law, level) % 2 == 0 && (law.ALaw? ==> Width(law, level) >= 16)
    ensures if law.ALaw? && level < 16 then Width(law, level) == 16 else 16 * Width(law, level) <= Floor(law, level)
  {
    var p, m := Pow2(level / 16), level % 16;
    Distribute(8 * m, 128, p);
    var steps := Product(8 * m, p);
    if level >= 16 { Pow2Increases(1, level / 16); }
    assert Pow2(1) == 2;
    hide Pow2;
  }

  /** Everything above 32768 is overload: the last level. */
  lemma Overload(law: Law, mag: nat)
    requires mag >= 32768
    ensures InScale(law, mag) && Compress(law, mag) == 127
    ensures Expand(law, 127) == 32256
  {
    assert Pow2(8) == 256 && Pow2(7) == 128 && Pow2(6) == 64;
    SegmentFromIs(mag, 0, 8);
    LevelParts(7, 15);
  }

  /** The first mu-law segment, on biased magnitudes. */
  lemma FirstMuLawSegment(m: nat)
    requires m < 16
    ensures Expand(MuLaw, m) == 8 * m + 132 && Floor(MuLaw, m + 1) == 8 * m + 136
  {
    assert Pow2(0) == 1;
    FloorNext(MuLaw, m);
  }

  lemma QuantizeMonotone(law: Law, a: nat, b: nat)
    requires InScale(law, a) && a <= b
    ensures Expand(law, Compress(law, a)) <= Expand(law, Compress(law, b))
  {
    CompressMonotone(law, a, b);
    var y, w := Compress(law, a), Compress(law, b);
    if y < w { ExpandStrictlyIncreases(law, y, w); }
  }
}
