/** Fixed-point scaling of raw stick samples and the scaled radial deadzone. */
module Stick {
  import opened Arithmetic

  const ABS_RANGE: int := 32767
  const RAW_DEADBAND: int := 2
  const DEADZONE_MAX: int := 30

  // ---- Division -----------------------------------------------------------

  /** C division: towards zero, for a positive divisor. */
  function TruncDiv(a: int, b: int): int
    requires b > 0
  {
    if a >= 0 then a / b else -((-a) / b)
  }

  lemma DivMonotone(a: nat, b: nat, d: nat)
    requires a <= b && d > 0
    ensures a / d <= b / d
  {
    var p, q := a / d, b / d;
    assert a == d * p + a % d && b == d * q + b % d;
    if p > q {
      assert d * p == d * q + d * (p - q);
      MultipleAtLeast(d, p - q);
    }
  }

  lemma DivOfMultiple(a: nat, d: nat)
    requires d > 0
    ensures (a * d) / d == a
  {
    DivisionIsUnique(a * d, d, a, 0);
  }

  lemma DivAtMost(a: nat, m: nat, d: nat)
    requires d > 0 && m <= d
    ensures (a * m) / d <= a
  {
    assert a * m <= a * d;
    DivMonotone(a * m, a * d, d);
    DivOfMultiple(a, d);
  }

  lemma DivCancels(x: nat, a: nat, b: nat)
    requires x > 0 && b > 0
    ensures x * b > 0 && (x * a) / (x * b) == a / b
  {
    var q, r := a / b, a % b;
    assert a == b * q + r;
    assert x * a == (x * b) * q + x * r;
    assert x * r < x * b;
    DivisionIsUnique(x * a, x * b, q, x * r);
  }

  // ---- Scaling one axis ---------------------------------------------------

  datatype Calibration = Calibration(min: int, zero: int, max: int)

  /** mf_center_in_range: the centre is strictly inside, and both sides are longer than the deadband. */
  predicate CenterInRange(min: int, zero: int, max: int) {
    min < zero < max && zero - min > RAW_DEADBAND && max - zero > RAW_DEADBAND
  }

  /** mf_scale_side */
  function ScaleSide(delta: int, span: int): int {
    if delta <= RAW_DEADBAND || span - RAW_DEADBAND <= 0 then 0
    else
      var out := TruncDiv((delta - RAW_DEADBAND) * ABS_RANGE, span - RAW_DEADBAND);
      if out > ABS_RANGE then ABS_RANGE else if out < 0 then 0 else out
  }

  /** mf_scale */
  function Scale(raw: int, cal: Calibration): int {
    if raw >= cal.zero then ScaleSide(raw - cal.zero, cal.max - cal.zero)
    else -ScaleSide(cal.zero - raw, cal.zero - cal.min)
  }

  lemma ScaleSideBounds(delta: int, span: int)
    requires span > RAW_DEADBAND
    ensures 0 <= ScaleSide(delta, span) <= ABS_RANGE
    ensures delta >= span ==> ScaleSide(delta, span) == ABS_RANGE
  {
    if delta >= span {
      var n := span - RAW_DEADBAND;
      assert ABS_RANGE * n <= (delta - RAW_DEADBAND) * ABS_RANGE;
      DivMonotone(ABS_RANGE * n, (delta - RAW_DEADBAND) * ABS_RANGE, n);
      DivOfMultiple(ABS_RANGE, n);
    }
  }

  lemma ScaleSideMonotone(d: int, e: int, span: int)
    requires span > RAW_DEADBAND && d <= e
    ensures ScaleSide(d, span) <= ScaleSide(e, span)
  {
    ScaleSideBounds(d, span);
    ScaleSideBounds(e, span);
    if d > RAW_DEADBAND {
      var n := span - RAW_DEADBAND;
      DivMonotone((d - RAW_DEADBAND) * ABS_RANGE, (e - RAW_DEADBAND) * ABS_RANGE, n);
    }
  }

  /** Under a valid calibration scaling is monotone, zero in the deadband and full at and beyond the ends. */
  lemma ScaleMeans(raw: int, raw': int, cal: Calibration)
    requires CenterInRange(cal.min, cal.zero, cal.max)
    ensures -ABS_RANGE <= Scale(raw, cal) <= ABS_RANGE
    ensures raw <= raw' ==> Scale(raw, cal) <= Scale(raw', cal)
    ensures -RAW_DEADBAND <= raw - cal.zero <= RAW_DEADBAND ==> Scale(raw, cal) == 0
    ensures raw >= cal.max ==> Scale(raw, cal) == ABS_RANGE
    ensures raw <= cal.min ==> Scale(raw, cal) == -ABS_RANGE
  {
    hide ScaleSide;
    var up, down := cal.max - cal.zero, cal.zero - cal.min;
    ScaleSideBounds(raw - cal.zero, up);
    ScaleSideBounds(cal.zero - raw, down);
    ScaleSideBounds(raw' - cal.zero, up);
    ScaleSideBounds(cal.zero - raw', down);
    if raw <= raw' {
      ScaleSideMonotone(raw - cal.zero, raw' - cal.zero, up);
      ScaleSideMonotone(cal.zero - raw', cal.zero - raw, down);
    }
    InsideDeadband(raw - cal.zero, up);
    InsideDeadband(cal.zero - raw, down);
  }

  lemma InsideDeadband(delta: int, span: int)
    ensures delta <= RAW_DEADBAND ==> ScaleSide(delta, span) == 0
  {
  }

  /** Between the deadband and the end of its side, a report is the quotient that its position calls for. */
  lemma ScaleSideRamp(delta: int, span: int)
    requires RAW_DEADBAND < delta < span
    ensures var out, n := ScaleSide(delta, span), span - RAW_DEADBAND;
            0 <= out <= ABS_RANGE && out * n <= (delta - RAW_DEADBAND) * ABS_RANGE < (out + 1) * n
  {
    var n, a := span - RAW_DEADBAND, (delta - RAW_DEADBAND) * ABS_RANGE;
    MulMonotone(delta - RAW_DEADBAND, n, ABS_RANGE);
    DivMonotone(a, ABS_RANGE * n, n);
    DivOfMultiple(ABS_RANGE, n);
    DivBelow(a, n);
  }

  /**
   Between the deadband and the ends the report is the linear interpolation,
   rounded towards the centre, on both sides.
   */
  lemma ScaleRamps(raw: int, cal: Calibration)
    requires CenterInRange(cal.min, cal.zero, cal.max)
    ensures cal.zero + RAW_DEADBAND < raw < cal.max ==>
              var out, n := Scale(raw, cal), cal.max - cal.zero - RAW_DEADBAND;
              out * n <= (raw - cal.zero - RAW_DEADBAND) * ABS_RANGE < (out + 1) * n
    ensures cal.min < raw < cal.zero - RAW_DEADBAND ==>
              var out, n := -Scale(raw, cal), cal.zero - cal.min - RAW_DEADBAND;
              out * n <= (cal.zero - raw - RAW_DEADBAND) * ABS_RANGE < (out + 1) * n
  {
    hide ScaleSide;
    if cal.zero + RAW_DEADBAND < raw < cal.max {
      ScaleSideRamp(raw - cal.zero, cal.max - cal.zero);
    } else if cal.min < raw < cal.zero - RAW_DEADBAND {
      ScaleSideRamp(cal.zero - raw, cal.zero - cal.min);
    }
  }

  /** One count further on a side moves the report by at most one step of the ramp, rounded up. */
  lemma ScaleSideStep(delta: int, span: int)
    requires span > RAW_DEADBAND
    ensures ScaleSide(delta + 1, span) - ScaleSide(delta, span) <= ABS_RANGE / (span - RAW_DEADBAND) + 1
  {
    hide ScaleSide;
    var n := span - RAW_DEADBAND;
    DivSign(ABS_RANGE, n);
    if delta < RAW_DEADBAND {
      InsideDeadband(delta, span);
      InsideDeadband(delta + 1, span);
    } else if delta >= span {
      ScaleSideBounds(delta, span);
      ScaleSideBounds(delta + 1, span);
    } else {
      RampAt(delta, span);
      RampAt(delta + 1, span);
      StepOfQuotient((delta - RAW_DEADBAND) * ABS_RANGE, n);
      assert (delta + 1 - RAW_DEADBAND) * ABS_RANGE == (delta - RAW_DEADBAND) * ABS_RANGE + ABS_RANGE;
    }
  }

  /** From the deadband to the end the clamps do nothing. */
  lemma RampAt(delta: int, span: int)
    requires RAW_DEADBAND <= delta <= span && span > RAW_DEADBAND
    ensures (delta - RAW_DEADBAND) * ABS_RANGE >= 0
    ensures ScaleSide(delta, span) == ((delta - RAW_DEADBAND) * ABS_RANGE) / (span - RAW_DEADBAND)
  {
    var n, a := span - RAW_DEADBAND, (delta - RAW_DEADBAND) * ABS_RANGE;
    MulMonotone(delta - RAW_DEADBAND, n, ABS_RANGE);
    DivMonotone(a, ABS_RANGE * n, n);
    DivOfMultiple(ABS_RANGE, n);
    DivSign(a, n);
    if delta == RAW_DEADBAND { DivisionIsUnique(0, n, 0, 0); }
  }

  lemma StepOfQuotient(a: nat, n: nat)
    requires n > 0
    ensures (a + ABS_RANGE) / n <= a / n + ABS_RANGE / n + 1
  {
    var p, q, r := a / n, ABS_RANGE / n, (a + ABS_RANGE) / n;
    DivBelow(a, n);
    DivBelow(ABS_RANGE, n);
    DivBelow(a + ABS_RANGE, n);
    assert (p + q + 2) * n == (p + 1) * n + (q + 1) * n;
    if r > p + q + 1 {
      MulMonotone(p + q + 2, r, n);
    }
  }

  /** No single count of raw makes the report jump: the deadband has no edge. */
  lemma ScaleIsContinuous(raw: int, cal: Calibration)
    requires CenterInRange(cal.min, cal.zero, cal.max)
    ensures var n := (if raw >= cal.zero then cal.max - cal.zero else cal.zero - cal.min) - RAW_DEADBAND;
            0 <= Scale(raw + 1, cal) - Scale(raw, cal) <= ABS_RANGE / n + 1
  {
    hide ScaleSide;
    ScaleMeans(raw, raw + 1, cal);
    if raw >= cal.zero {
      ScaleSideStep(raw - cal.zero, cal.max - cal.zero);
    } else {
      ScaleSideStep(cal.zero - raw - 1, cal.zero - cal.min);
      InsideDeadband(0, cal.max - cal.zero);
      InsideDeadband(0, cal.zero - cal.min);
    }
  }

  // ---- The radial deadzone ------------------------------------------------

  /** int_sqrt64: the largest r with r * r <= n. */
  function IntSqrt(n: nat): (r: nat)
    ensures r * r <= n < (r + 1) * (r + 1)
  {
    if n == 0 then 0 else var r := IntSqrt(n - 1); if (r + 1) * (r + 1) <= n then r + 1 else r
  }

  function Inner(pct: int): int { ABS_RANGE * pct / 100 }

  function Clamp(v: int): int {
    if v > ABS_RANGE then ABS_RANGE else if v < -ABS_RANGE then -ABS_RANGE else v
  }

  /** One component between the deadzone and the rim, before the clamp. */
  function Shrunk(v: int, r: int, d: int): int
    requires 0 <= d < r < ABS_RANGE
  {
    FactorBounds(r, d);
    TruncDiv(v * ((r - d) * ABS_RANGE), r * (ABS_RANGE - d))
  }

  /** mf_radial */
  function Radial(pct: int, x: int, y: int): (int, int)
    requires pct <= DEADZONE_MAX
  {
    if pct <= 0 || (x == 0 && y == 0) then (x, y)
    else
      var r := IntSqrt(x * x + y * y);
      var d := Inner(pct);
      if r == 0 then (x, y)
      else if r <= d then (0, 0)
      else if r >= ABS_RANGE then (x, y)
      else (Clamp(Shrunk(x, r, d)), Clamp(Shrunk(y, r, d)))
  }

  lemma InnerBounds(pct: int)
    requires 0 <= pct <= DEADZONE_MAX
    ensures 0 <= Inner(pct) < ABS_RANGE
  {
  }

  /** The factor is at most one, and its divisor fits a signed 32-bit word. */
  lemma FactorBounds(r: int, d: int)
    requires 0 <= d < r < ABS_RANGE
    ensures 0 <= (r - d) * ABS_RANGE <= r * (ABS_RANGE - d)
    ensures 0 < r * (ABS_RANGE - d) < 0x8000_0000
  {
    var rest := ABS_RANGE - d;
    MulMonotone(r, ABS_RANGE, d);
    MulMonotone(1, rest, r);
    MulMonotone(rest, ABS_RANGE, r);
    Distributes(r, ABS_RANGE, d);
  }

  lemma MulMonotone(a: int, b: int, c: int)
    requires a <= b && c >= 0
    ensures a * c <= b * c && a * c == c * a && b * c == c * b
  {
  }

  /** A component is never enlarged and never changes sign. */
  predicate Shortened(v: int, v': int) { (0 <= v' <= v) || (v <= v' <= 0) }

  lemma ShortenedDiv(v: int, m: nat, n: nat)
    requires n > 0 && m <= n
    ensures Shortened(v, TruncDiv(v * m, n))
  {
    hide TruncDiv;
    if v >= 0 {
      ShortenedUp(v, m, n);
    } else {
      var a := -v;
      ShortenedUp(a, m, n);
      ProductSign(a, m);
      NegatedDiv(a * m, n);
      assert v == -a;
    }
  }

  lemma ShortenedUp(a: nat, m: nat, n: nat)
    requires n > 0 && m <= n
    ensures a * m >= 0 && TruncDiv(a * m, n) == (a * m) / n && 0 <= (a * m) / n <= a
  {
    ProductSign(a, m);
    DivAtMost(a, m, n);
    DivSign(a * m, n);
    TruncIsDiv(a * m, n);
  }

  lemma DivSign(p: nat, n: nat)
    requires n > 0
    ensures p / n >= 0
  {
  }

  lemma NegatedDiv(p: int, n: nat)
    requires n > 0 && p >= 0
    ensures TruncDiv(-p, n) == -(p / n)
  {
    if p == 0 { DivisionIsUnique(0, n, 0, 0); }
  }

  lemma ProductSign(v: int, m: int)
    requires v >= 0 && m >= 0
    ensures v * m >= 0 && (-v) * m == -(v * m)
  {
  }

  lemma ShrunkBounds(v: int, r: int, d: int)
    requires 0 <= d < r < ABS_RANGE
    ensures Shortened(v, Shrunk(v, r, d))
  {
    hide TruncDiv, Shortened;
    FactorBounds(r, d);
    ShortenedDiv(v, (r - d) * ABS_RANGE, r * (ABS_RANGE - d));
  }

  /** Every component is shortened or kept, so reported values stay in range and no clamp ever acts. */
  lemma RadialShortens(pct: int, x: int, y: int)
    requires pct <= DEADZONE_MAX && -ABS_RANGE <= x <= ABS_RANGE && -ABS_RANGE <= y <= ABS_RANGE
    ensures Shortened(x, Radial(pct, x, y).0) && Shortened(y, Radial(pct, x, y).1)
    ensures pct > 0 && Inner(pct) < IntSqrt(x * x + y * y) < ABS_RANGE ==>
            var r := IntSqrt(x * x + y * y);
            Radial(pct, x, y) == (Shrunk(x, r, Inner(pct)), Shrunk(y, r, Inner(pct)))
  {
    hide IntSqrt, Shrunk, Inner;
    if pct > 0 && x == 0 && y == 0 {
      InnerBounds(pct);
      SqrtOfSquare(0);
      assert x * x + y * y == 0 * 0;
    } else if pct > 0 {
      var r, d := IntSqrt(x * x + y * y), Inner(pct);
      InnerBounds(pct);
      if d < r < ABS_RANGE {
        ShrunkBounds(x, r, d);
        ShrunkBounds(y, r, d);
      }
    }
  }

  /** Between the deadzone and the rim each component is scaled by the one factor of its vector, rounded to zero. */
  lemma ShrunkRamp(v: int, r: int, d: int)
    requires 0 <= d < r < ABS_RANGE
    ensures var size, out := if v >= 0 then v else -v, if v >= 0 then Shrunk(v, r, d) else -Shrunk(v, r, d);
            && 0 <= out
            && out * (r * (ABS_RANGE - d)) <= size * ((r - d) * ABS_RANGE) < (out + 1) * (r * (ABS_RANGE - d))
  {
    hide TruncDiv;
    FactorBounds(r, d);
    var size, m, n := if v >= 0 then v else -v, (r - d) * ABS_RANGE, r * (ABS_RANGE - d);
    ProductSign(size, m);
    DivBelow(size * m, n);
    DivSign(size * m, n);
    TruncIsDiv(size * m, n);
    if v < 0 {
      NegatedDiv(size * m, n);
      assert v == -size;
    }
  }

  /** out is v times num / den, rounded to zero. */
  predicate Rounds(v: int, num: int, den: int, out: int) {
    && (v >= 0 ==> 0 <= out && out * den <= v * num < (out + 1) * den)
    && (v < 0 ==> out <= 0 && (-out) * den <= (-v) * num < (-out + 1) * den)
  }

  /** Between the deadzone and the rim both components are scaled by (r - d) * M / (r * (M - d)), rounded to zero. */
  lemma RadialRamps(pct: int, x: int, y: int)
    requires 0 < pct <= DEADZONE_MAX && -ABS_RANGE <= x <= ABS_RANGE && -ABS_RANGE <= y <= ABS_RANGE
    requires Inner(pct) < IntSqrt(x * x + y * y) < ABS_RANGE
    ensures var r, d := IntSqrt(x * x + y * y), Inner(pct);
            var num, den := (r - d) * ABS_RANGE, r * (ABS_RANGE - d);
            Rounds(x, num, den, Radial(pct, x, y).0) && Rounds(y, num, den, Radial(pct, x, y).1)
  {
    hide IntSqrt, Shrunk, Inner, Radial;
    InnerBounds(pct);
    RadialShortens(pct, x, y);
    ShrunkRamp(x, IntSqrt(x * x + y * y), Inner(pct));
    ShrunkRamp(y, IntSqrt(x * x + y * y), Inner(pct));
  }

  // ---- Along one axis -----------------------------------------------------

  lemma SqrtOfSquare(x: nat)
    ensures IntSqrt(x * x) == x
  {
    hide IntSqrt;
    var r := IntSqrt(x * x);
    if r < x {
      SquareMonotone(r + 1, x);
    } else if r > x {
      assert (x + 1) * (x + 1) == x * x + 2 * x + 1;
      SquareMonotone(x + 1, r);
    }
  }

  lemma SquareMonotone(a: nat, b: nat)
    requires a <= b
    ensures a * a <= b * b
  {
    assert a * a <= a * b && a * b <= b * b;
  }

  /** The response to a deflection of v along one axis. */
  function AlongAxis(pct: int, v: int): int
    requires pct <= DEADZONE_MAX
  {
    Radial(pct, v, 0).0
  }

  lemma ShrunkOdd(v: int, r: int, d: int)
    requires 0 <= d < r < ABS_RANGE
    ensures Shrunk(-v, r, d) == -Shrunk(v, r, d)
  {
    FactorBounds(r, d);
    var m := (r - d) * ABS_RANGE;
    assert (-v) * m == -(v * m);
  }

  /** Between the deadzone and the rim the response is the linear ramp from 0 to full scale. */
  lemma AlongAxisRamp(pct: int, v: nat)
    requires 0 < pct <= DEADZONE_MAX && Inner(pct) < v < ABS_RANGE
    ensures 0 <= Inner(pct) && AlongAxis(pct, v) == ((v - Inner(pct)) * ABS_RANGE) / (ABS_RANGE - Inner(pct)) <= v
  {
    hide Inner;
    InnerBounds(pct);
    var d := Inner(pct);
    SqrtOfSquare(v);
    assert v * v + 0 * 0 == v * v;
    FactorBounds(v, d);
    ShrunkBounds(v, v, d);
    RampCancels(v, d);
  }

  lemma RampCancels(v: nat, d: nat)
    requires d < v < ABS_RANGE
    ensures Shrunk(v, v, d) == ((v - d) * ABS_RANGE) / (ABS_RANGE - d)
  {
    ProductSign(v, (v - d) * ABS_RANGE);
    DivCancels(v, (v - d) * ABS_RANGE, ABS_RANGE - d);
  }

  // ---- Monotone in each component -----------------------------------------

  lemma SqrtMonotone(m: nat, n: nat)
    requires m <= n
    ensures IntSqrt(m) <= IntSqrt(n)
  {
    hide IntSqrt;
    var a, b := IntSqrt(m), IntSqrt(n);
    if b < a { SquareMonotone(b + 1, a); }
  }

  /** Comparing two quotients by cross-multiplication. */
  lemma DivCross(a: nat, b: nat, c: nat, e: nat)
    requires b > 0 && e > 0 && a * e <= c * b
    ensures a / b <= c / e
  {
    var q, p := a / b, c / e;
    assert q * b <= a by { DivBelow(a, b); }
    assert c < (p + 1) * e by { DivBelow(c, e); }
    if q > p {
      MulMonotone(q * b, a, e);
      MulMonotone(p + 1, q, b * e);
      MulStrict(c, (p + 1) * e, b);
      Regroup(q, b, e);
      Regroup(p + 1, e, b);
      assert false;
    }
  }

  lemma DivBelow(a: nat, b: nat)
    requires b > 0
    ensures (a / b) * b <= a < (a / b + 1) * b
  {
    assert a == (a / b) * b + a % b;
    assert (a / b + 1) * b == (a / b) * b + b;
  }

  lemma MulStrict(a: int, b: int, c: int)
    requires a < b && c > 0
    ensures a * c < b * c
  {
  }

  lemma Regroup(q: int, b: int, e: int)
    ensures (q * b) * e == q * (b * e) == q * (e * b)
  {
  }

  lemma Rearrange(v: int, a: int, m: int, r: int, k: int)
    ensures (v * (a * m)) * (r * k) == (v * (a * r)) * (m * k)
  {
    Regroup(v, a * m, r * k);
    Regroup(v, a * r, m * k);
    assert (a * m) * (r * k) == (a * r) * (m * k) by { Interchange(a, m, r, k); }
  }

  lemma Interchange(a: int, m: int, r: int, k: int)
    ensures (a * m) * (r * k) == (a * r) * (m * k)
  {
    Regroup(a, m, r * k);
    Regroup(a, r, m * k);
    Regroup(m, r, k);
    Regroup(r, m, k);
  }

  /** Between the deadzone and the rim a longer vector is shortened by less. */
  lemma ShrunkMonotone(v: nat, w: nat, r: int, q: int, d: int)
    requires v <= w && 0 <= d < r <= q < ABS_RANGE
    ensures Shrunk(v, r, d) <= Shrunk(w, q, d)
  {
    hide TruncDiv;
    FactorBounds(r, d);
    FactorBounds(q, d);
    var m, k := ABS_RANGE, ABS_RANGE - d;
    assert (r - d) * q <= (q - d) * r by { MulMonotone(r, q, d); Distributes(q, r, d); Distributes(r, q, d); }
    ProductsMonotone(v, w, (r - d) * q, (q - d) * r);
    MulMonotone(v * ((r - d) * q), w * ((q - d) * r), m * k);
    Rearrange(v, r - d, m, q, k);
    Rearrange(w, q - d, m, r, k);
    ProductSign(v, (r - d) * m);
    ProductSign(w, (q - d) * m);
    TruncIsDiv(v * ((r - d) * m), r * k);
    TruncIsDiv(w * ((q - d) * m), q * k);
    DivCross(v * ((r - d) * m), r * k, w * ((q - d) * m), q * k);
  }

  lemma ProductsMonotone(v: nat, w: nat, a: int, b: int)
    requires v <= w && 0 <= a <= b
    ensures v * a <= w * b
  {
    MulMonotone(v, w, a);
    MulMonotone(a, b, w);
  }

  lemma TruncIsDiv(a: nat, n: nat)
    requires n > 0
    ensures TruncDiv(a, n) == a / n
  {
  }

  lemma RadialOdd(pct: int, x: int, y: int)
    requires pct <= DEADZONE_MAX
    ensures Radial(pct, -x, y).0 == -Radial(pct, x, y).0
  {
    hide IntSqrt, Shrunk;
    assert (-x) * (-x) == x * x;
    var r, d := IntSqrt(x * x + y * y), Inner(pct);
    if 0 <= d < r < ABS_RANGE {
      ShrunkOdd(x, r, d);
    } else if pct > 0 {
      InnerBounds(pct);
    }
  }

  lemma RadialUp(pct: int, v: nat, w: nat, y: int)
    requires 0 < pct <= DEADZONE_MAX && v <= w <= ABS_RANGE && -ABS_RANGE <= y <= ABS_RANGE
    ensures 0 <= Radial(pct, v, y).0 <= Radial(pct, w, y).0
  {
    hide IntSqrt, Shrunk, Inner;
    InnerBounds(pct);
    SquareMonotone(v, w);
    SqrtMonotone(v * v + y * y, w * w + y * y);
    RadialShortens(pct, v, y);
    RadialShortens(pct, w, y);
    var r, q, d := IntSqrt(v * v + y * y), IntSqrt(w * w + y * y), Inner(pct);
    if d < r <= q < ABS_RANGE {
      ShrunkMonotone(v, w, r, q, d);
    }
  }

  /** With the other component fixed, the response to a component never decreases. */
  lemma RadialMonotone(pct: int, v: int, w: int, y: int)
    requires pct <= DEADZONE_MAX && -ABS_RANGE <= v <= w <= ABS_RANGE && -ABS_RANGE <= y <= ABS_RANGE
    ensures Radial(pct, v, y).0 <= Radial(pct, w, y).0 && Radial(pct, y, v).1 <= Radial(pct, y, w).1
  {
    RadialSwaps(pct, v, y);
    RadialSwaps(pct, w, y);
    if pct > 0 {
      hide Radial;
      RadialOdd(pct, v, y);
      RadialOdd(pct, w, y);
      if 0 <= v {
        RadialUp(pct, v, w, y);
      } else if w <= 0 {
        RadialUp(pct, -w, -v, y);
      } else {
        RadialUp(pct, 0, -v, y);
        RadialUp(pct, 0, w, y);
        RadialOdd(pct, 0, y);
      }
    }
  }

  /** The two axes are treated alike. */
  lemma RadialSwaps(pct: int, x: int, y: int)
    requires pct <= DEADZONE_MAX
    ensures Radial(pct, y, x) == (Radial(pct, x, y).1, Radial(pct, x, y).0)
  {
    hide IntSqrt, Shrunk, Inner;
    assert x * x + y * y == y * y + x * x;
  }
}
