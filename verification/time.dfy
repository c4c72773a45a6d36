/** Integer-millisecond time arithmetic shared by the countdown, the exam card and the
    reminder scheduler: the unit constants and the ceiling division that stands in for
    `Math.ceil(ms / unit)`. */
module Time {

  /** Milliseconds per second, minute, hour and day (`1000`, `1000 * 60`, ...). */
  const MsPerSecond: int := 1000
  const MsPerMinute: int := 60 * MsPerSecond
  const MsPerHour: int := 60 * MsPerMinute
  const MsPerDay: int := 24 * MsPerHour

  /** `Math.ceil(a / b)` for a positive divisor, computed exactly on integers. Dafny's `/`
      is Euclidean (it rounds towards minus infinity for a positive divisor), so the
      ceiling is the negated floor of the negated dividend. The contract pins the result
      down completely: it is the one integer `q` with `(q - 1) * b < a <= q * b`. */
  function CeilDiv(a: int, b: int): (q: int)
    requires b > 0
    ensures (q - 1) * b < a <= q * b
  {
    var f := (-a) / b;
    assert -a == f * b + (-a) % b;
    -f
  }

  /** Multiplying by a positive factor preserves and reflects order. */
  lemma MulOrder(x: int, y: int, b: int)
    requires b > 0
    ensures x <= y <==> x * b <= y * b
  {
    assert y * b - x * b == (y - x) * b;
  }

  /** The ceiling quotient is unique: any `k` bracketing `a` the way the contract of
      `CeilDiv` does is the ceiling quotient. */
  lemma CeilDivIs(a: int, b: int, k: int)
    requires b > 0
    ensures CeilDiv(a, b) == k <==> (k - 1) * b < a <= k * b
  {
    var q := CeilDiv(a, b);
    MulOrder(q, k - 1, b);
    MulOrder(k, q - 1, b);
  }

  /** An upper bound on the dividend bounds the ceiling quotient. */
  lemma CeilDivAtMost(a: int, b: int, k: int)
    requires b > 0 && a <= k * b
    ensures CeilDiv(a, b) <= k
  {
    MulOrder(k, CeilDiv(a, b) - 1, b);
  }

  /** A positive dividend has a ceiling quotient of at least one. */
  lemma CeilDivPositive(a: int, b: int)
    requires b > 0 && a > 0
    ensures CeilDiv(a, b) >= 1
  {
    MulOrder(CeilDiv(a, b), 0, b);
  }

  /** The ceiling quotient is at least one exactly when the dividend is positive. */
  lemma CeilDivPositiveIff(a: int, b: int)
    requires b > 0
    ensures CeilDiv(a, b) >= 1 <==> a > 0
  {
    var q := CeilDiv(a, b);
    MulOrder(0, q - 1, b);
    MulOrder(q, 0, b);
  }

  /** The ceiling quotient is monotone in the dividend. */
  lemma CeilDivMonotone(a1: int, a2: int, b: int)
    requires b > 0 && a1 <= a2
    ensures CeilDiv(a1, b) <= CeilDiv(a2, b)
  {
    CeilDivAtMost(a1, b, CeilDiv(a2, b));
  }

  /** The ceiling quotient equals one exactly on the window `(0, b]`. */
  lemma CeilDivIsOne(a: int, b: int)
    requires b > 0
    ensures CeilDiv(a, b) == 1 <==> 0 < a <= b
  {
    CeilDivIs(a, b, 1);
  }

  /** Euclidean division is unique: a quotient and remainder that reconstruct `a` with the
      remainder in `[0, b)` are `a / b` and `a % b`. */
  lemma DivModUnique(a: int, b: int, q: int, r: int)
    requires b > 0 && a == q * b + r && 0 <= r < b
    ensures a / b == q && a % b == r
  {
    var q0, r0 := a / b, a % b;
    assert a == q0 * b + r0;
    MulOrder(q, q0 - 1, b);
    MulOrder(q0, q - 1, b);
    assert (q - 1) * b == q * b - b && (q0 - 1) * b == q0 * b - b;
  }

  /** Reducing modulo a multiple of `b` first does not change the remainder modulo `b`. */
  lemma ModOfMultipleMod(a: int, b: int, k: int)
    requires b > 0 && k > 0
    ensures (a % (k * b)) % b == a % b
  {
    var big := k * b;
    var hi, r := a / big, a % big;
    var q2, r2 := r / b, r % b;
    assert a == hi * big + r;
    assert r == q2 * b + r2;
    assert a == (hi * k + q2) * b + r2;
    DivModUnique(a, b, hi * k + q2, r2);
  }
}
