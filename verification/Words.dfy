/** Machine words of the engine, and the two ways of counting sequence numbers. */
module Words {

  type u32 = x: int | 0 <= x < 0x1_0000_0000
  type byte = x: int | 0 <= x < 256

  /** `Exact` counts sequence numbers without bound; `Mod32` is what the C code does. */
  datatype Arith = Exact | Mod32

  /** The value of an unsigned 32-bit expression whose mathematical value is x. */
  function Wrap(x: int): (r: u32) {
    x % 0x1_0000_0000
  }

  /** The conversion of an unsigned word to IINT32. */
  function Signed(x: int): (r: int)
    ensures -0x8000_0000 <= r < 0x8000_0000
  {
    var w := x % 0x1_0000_0000;
    if w < 0x8000_0000 then w else w - 0x1_0000_0000
  }

  /** Stores a sequence number. */
  function Norm(m: Arith, x: int): (r: int) {
    if m.Exact? then x else Wrap(x)
  }

  /** `_itimediff` on sequence numbers. */
  function Diff(m: Arith, later: int, earlier: int): (r: int) {
    if m.Exact? then later - earlier else Signed(later - earlier)
  }

  /** `_itimediff` on timestamps, which are always 32-bit words. */
  function TimeDiff(later: int, earlier: int): (r: int) {
    Signed(later - earlier)
  }

  function Min(a: int, b: int): (r: int) {
    if a <= b then a else b
  }

  function Max(a: int, b: int): (r: int) {
    if a >= b then a else b
  }

  /** Halving as C does it: toward zero. */
  function HalfTrunc(x: int): (r: int) {
    if x >= 0 then x / 2 else -(-x / 2)
  }

  lemma WrapSmall(x: int)
    requires 0 <= x < 0x1_0000_0000
    ensures Wrap(x) == x
  {
  }

  /** Reducing operands first does not change a wrapped difference. */
  lemma WrapDiff(a: int, b: int)
    ensures Signed(Wrap(a) - Wrap(b)) == Signed(a - b)
  {
    var n := 0x1_0000_0000;
    assert (a % n - b % n) % n == (a - b) % n by {
      assert a == n * (a / n) + a % n;
      assert b == n * (b / n) + b % n;
      assert a - b == n * (a / n - b / n) + (a % n - b % n);
    }
  }

  /** Serial-number comparison: two numbers less than 2^31 apart compare as integers do. */
  lemma DiffNear(a: int, b: int)
    requires -0x8000_0000 <= a - b < 0x8000_0000
    ensures Diff(Mod32, Wrap(a), Wrap(b)) == a - b == Diff(Exact, a, b)
  {
    WrapDiff(a, b);
  }

  lemma WrapWrap(a: int, b: int)
    ensures Wrap(Wrap(a) + b) == Wrap(a + b)
  {
    var n := 0x1_0000_0000;
    assert a == n * (a / n) + a % n;
    assert a + b == n * (a / n) + (a % n + b);
  }

  lemma SignedShift(x: int, d: int)
    requires -0x8000_0000 <= Signed(x) + d < 0x8000_0000
    ensures Signed(x + d) == Signed(x) + d
  {
    var n := 0x1_0000_0000;
    var q := if x % n < 0x8000_0000 then x / n else x / n + 1;
    assert x == n * q + Signed(x);
    SignedOf(x + d, q, Signed(x) + d);
  }

  /** A signed value is determined by its residue. */
  lemma SignedOf(x: int, q: int, r: int)
    requires x == 0x1_0000_0000 * q + r && -0x8000_0000 <= r < 0x8000_0000
    ensures Signed(x) == r
  {
    if r >= 0 {
      assert x % 0x1_0000_0000 == r;
    } else {
      assert x == 0x1_0000_0000 * (q - 1) + (r + 0x1_0000_0000);
      assert x % 0x1_0000_0000 == r + 0x1_0000_0000;
    }
  }

  lemma SignedCongruent(x: int, y: int, q: int)
    requires x == y + 0x1_0000_0000 * q
    ensures Signed(x) == Signed(y)
  {
    assert x % 0x1_0000_0000 == y % 0x1_0000_0000;
  }

  lemma TimeDiffWrap(a: int, b: int)
    ensures TimeDiff(Wrap(a), b) == TimeDiff(a, b) == TimeDiff(a, Wrap(b)) == TimeDiff(Wrap(a), Wrap(b))
  {
    var qa, qb := a / 0x1_0000_0000, b / 0x1_0000_0000;
    SignedCongruent(Wrap(a) - b, a - b, -qa);
    SignedCongruent(a - Wrap(b), a - b, qb);
    SignedCongruent(Wrap(a) - Wrap(b), a - b, qb - qa);
  }

  /** A timestamp set d ahead of t is d ahead of t. */
  lemma TimeAhead(t: int, d: int)
    requires -0x8000_0000 < d < 0x8000_0000
    ensures TimeDiff(Wrap(t + d), t) == d && TimeDiff(t, Wrap(t + d)) == -d
  {
    TimeDiffWrap(t + d, t);
    TimeDiffWrap(t, t + d);
    SignedOf(d, 0, d);
    SignedOf(-d, 0, -d);
  }

  /** Moving one timestamp moves the difference, within the half range. */
  lemma TimeShift(a: int, b: int, d: int)
    requires -0x8000_0000 <= TimeDiff(a, b) + d < 0x8000_0000
    ensures TimeDiff(Wrap(a + d), b) == TimeDiff(a, b) + d
    ensures TimeDiff(a, Wrap(b - d)) == TimeDiff(a, b) + d
  {
    SignedShift(a - b, d);
    TimeDiffWrap(a + d, b);
    TimeDiffWrap(a, b - d);
  }

  lemma TimeFlip(a: int, b: int)
    requires TimeDiff(a, b) != -0x8000_0000
    ensures TimeDiff(b, a) == -TimeDiff(a, b)
  {
    var n := 0x1_0000_0000;
    var x := a - b;
    var q := if x % n < 0x8000_0000 then x / n else x / n + 1;
    assert x == n * q + Signed(x);
    assert b - a == n * -q + -Signed(x);
    SignedOf(b - a, -q, -Signed(x));
  }

  /** The difference -2^31 is its own opposite. */
  lemma TimeOpposite(a: int, b: int)
    requires TimeDiff(a, b) == -0x8000_0000
    ensures TimeDiff(b, a) == -0x8000_0000
  {
    var n := 0x1_0000_0000;
    var q := (a - b) / n + 1;
    assert a - b == n * q - 0x8000_0000;
    assert b - a == n * (1 - q) + -0x8000_0000;
    SignedOf(b - a, 1 - q, -0x8000_0000);
  }

  /** Residues identify numbers that are less than 2^32 apart. */
  lemma WrapInjective(a: int, b: int)
    requires -0x1_0000_0000 < a - b < 0x1_0000_0000
    ensures Wrap(a) == Wrap(b) <==> a == b
  {
  }

  // ----- division --------------------------------------------------------------------------

  lemma MulAtLeast(b: int, d: int)
    requires b > 0 && d >= 1
    ensures b * d >= b
  {
  }

  lemma DivUnique(a: int, b: int, q: int, r: int)
    requires b > 0 && a == b * q + r && 0 <= r < b
    ensures a / b == q
  {
    var d := a / b - q;
    assert a == b * (a / b) + a % b;
    assert b * d == b * (a / b) - b * q;
    if d >= 1 { MulAtLeast(b, d); }
    if d <= -1 {
      MulAtLeast(b, -d);
      assert b * -d == -(b * d);
    }
  }

  lemma DivNonNegative(a: int, b: int)
    requires a >= 0 && b > 0
    ensures a / b >= 0
  {
  }

  lemma DivStep(a: int, b: int)
    requires b > 0
    ensures (a + b) / b == a / b + 1
  {
    assert b * (a / b + 1) == b * (a / b) + b;
    DivUnique(a + b, b, a / b + 1, a % b);
  }

  /** A count n of 1 to b units needs one box of b. */
  lemma DivOne(n: int, b: int)
    requires 0 < n <= b
    ensures (n + b - 1) / b == 1
  {
    DivUnique(n + b - 1, b, 1, n - 1);
  }
}
