/** The countdown line: the distance in milliseconds to the tournament start,
    split into days, hours, minutes and seconds, or a fixed message once the
    start has passed. The page computes it with floating-point division,
    JavaScript's `%` and `Math.floor`; here the division is exact (`real`). */
module Countdown {

  const MsPerSecond: int := 1000
  const MsPerMinute: int := 60 * MsPerSecond
  const MsPerHour: int := 60 * MsPerMinute
  const MsPerDay: int := 24 * MsPerHour

  const StartedMessage: string := "Tournament has started!"

  /** What the countdown shows. */
  datatype Reading = Started | Remaining(days: nat, hours: nat, minutes: nat, seconds: nat)

  /** `Math.floor`. */
  function JsFloor(x: real): int
  {
    x.Floor
  }

  /** Rounding toward zero, as JavaScript's `%` does with its quotient. */
  function Trunc(q: real): int
  {
    if q >= 0.0 then q.Floor else -((-q).Floor)
  }

  /** JavaScript's `%` on numbers: the remainder of a division truncated
      toward zero, so it takes the sign of `x`. */
  function JsRem(x: real, m: real): (r: real)
    requires m != 0.0
    ensures x >= 0.0 && m > 0.0 ==> 0.0 <= r < m
    ensures x < 0.0 && m > 0.0 ==> -m < r <= 0.0
  {
    if m > 0.0 then
      RemainderBounds(x, m);
      x - m * Trunc(x / m) as real
    else
      x - m * Trunc(x / m) as real
  }

  lemma RemainderBounds(x: real, m: real)
    requires m > 0.0
    ensures x >= 0.0 ==> 0.0 <= x - m * Trunc(x / m) as real < m
    ensures x < 0.0 ==> -m < x - m * Trunc(x / m) as real <= 0.0
  {
    var q := x / m;
    var f := q - Trunc(q) as real;
    QuotientSign(x, m);
    DroppedFraction(q);
    assert x == m * q;
    if x >= 0.0 {
      ScaleNonnegFraction(m, f, x - m * Trunc(q) as real);
    } else {
      ScaleNonposFraction(m, f, x - m * Trunc(q) as real);
    }
  }

  /** What the truncation drops from a quotient is a fraction of one with
      the quotient's sign. */
  lemma DroppedFraction(q: real)
    ensures q >= 0.0 ==> 0.0 <= q - Trunc(q) as real < 1.0
    ensures q < 0.0 ==> -1.0 < q - Trunc(q) as real <= 0.0
  {
  }

  /** Scaling a fraction in [0, 1) by a positive `m` lands in [0, m). */
  lemma ScaleNonnegFraction(m: real, f: real, r: real)
    requires m > 0.0 && 0.0 <= f < 1.0 && r == m * f
    ensures 0.0 <= r < m
  {
    ScaleBelowOne(m, f);
    ScaleSign(m, f);
  }

  /** Scaling a fraction in (-1, 0] by a positive `m` lands in (-m, 0]. */
  lemma ScaleNonposFraction(m: real, f: real, r: real)
    requires m > 0.0 && -1.0 < f <= 0.0 && r == m * f
    ensures -m < r <= 0.0
  {
    ScaleAboveMinusOne(m, f);
    ScaleSign(m, f);
  }

  lemma ScaleBelowOne(m: real, f: real)
    requires m > 0.0 && f < 1.0
    ensures m * f < m
  {
  }

  lemma ScaleAboveMinusOne(m: real, f: real)
    requires m > 0.0 && -1.0 < f
    ensures -m < m * f
  {
  }

  lemma ScaleSign(m: real, f: real)
    requires m > 0.0
    ensures 0.0 <= f ==> 0.0 <= m * f
    ensures f <= 0.0 ==> m * f <= 0.0
  {
  }

  /** A quotient by a positive divisor has the dividend's sign. */
  lemma QuotientSign(x: real, m: real)
    requires m > 0.0
    ensures x >= 0.0 ==> x / m >= 0.0
    ensures x < 0.0 ==> x / m < 0.0
  {
  }

  /** Whole milliseconds covered by a reading. */
  function Covered(days: int, hours: int, minutes: int, seconds: int): int
  {
    days * MsPerDay + hours * MsPerHour + minutes * MsPerMinute + seconds * MsPerSecond
  }

  /** One tick of the countdown for a distance of `distance` milliseconds.
      A negative distance means the start has passed; zero still shows a
      reading. Otherwise the reading is the largest whole number of seconds
      not exceeding the distance, split into mixed units. */
  function Decompose(distance: int): (c: Reading)
    ensures c == Started <==> distance < 0
    ensures c.Remaining? ==>
              && c.hours < 24 && c.minutes < 60 && c.seconds < 60
              && Covered(c.days, c.hours, c.minutes, c.seconds) <= distance
              && distance < Covered(c.days, c.hours, c.minutes, c.seconds) + MsPerSecond
  {
    if distance < 0 then Started
    else
      var d := distance as real;
      var days := JsFloor(d / 86400000.0);
      var hours := JsFloor(JsRem(d / 3600000.0, 24.0));
      var minutes := JsFloor(JsRem(d / 1000.0 / 60.0, 60.0));
      var seconds := JsFloor(JsRem(d / 1000.0, 60.0));
      FloatFormulas(distance);
      MixedUnits(distance);
      Remaining(days, hours, minutes, seconds)
  }

  /** The page's floating-point formulas, evaluated exactly, are the integer
      quotients and remainders. */
  lemma FloatFormulas(n: int)
    requires n >= 0
    ensures JsFloor((n as real) / 86400000.0) == n / 86400000
    ensures JsFloor(JsRem((n as real) / 3600000.0, 24.0)) == (n / 3600000) % 24
    ensures JsFloor(JsRem((n as real) / 1000.0 / 60.0, 60.0)) == (n / 60000) % 60
    ensures JsFloor(JsRem((n as real) / 1000.0, 60.0)) == (n / 1000) % 60
  {
    FloorOfQuotient(n, 86400000);
    FloorOfRemainder(n, 3600000, 24);
    ChainedDivision(n as real);
    FloorOfRemainder(n, 60000, 60);
    FloorOfRemainder(n, 1000, 60);
  }

  /** Dividing by 1000 and then by 60 is dividing by 60000. */
  lemma ChainedDivision(x: real)
    ensures x / 1000.0 / 60.0 == x / 60000.0
  {
  }

  /** For a non-negative dividend, flooring the exact quotient is integer
      division. */
  lemma FloorOfQuotient(n: int, c: int)
    requires n >= 0 && c > 0
    ensures ((n as real) / (c as real)).Floor == n / c
  {
    var q, r := n / c, n % c;
    assert n == q * c + r && 0 <= r < c;
    assert (n as real) / (c as real) == q as real + (r as real) / (c as real);
    assert 0.0 <= (r as real) / (c as real) < 1.0;
  }

  /** For a non-negative dividend, `Math.floor((n / c) % m)` is the integer
      `(n / c) % m`. */
  lemma FloorOfRemainder(n: int, c: int, m: int)
    requires n >= 0 && c > 0 && m > 0
    ensures JsFloor(JsRem((n as real) / (c as real), m as real)) == (n / c) % m
  {
    var x := (n as real) / (c as real);
    assert x / (m as real) == (n as real) / ((c * m) as real);
    FloorOfQuotient(n, c * m);
    QuotientOfQuotient(n, c, m);
    var k := (n / c) / m;
    assert JsRem(x, m as real) == x - (m * k) as real;
    FloorOfQuotient(n, c);
  }

  /** Division is pinned down by its quotient-remainder equation. */
  lemma QuotientUnique(n: int, d: int, q: int, r: int)
    requires d > 0 && n == q * d + r && 0 <= r < d
    ensures n / d == q && n % d == r
  {
    var q', r' := n / d, n % d;
    assert n == q' * d + r' && 0 <= r' < d;
    assert (q - q') * d == r' - r;
    if q > q' {
      AtLeastOnce(q - q', d);
    } else if q < q' {
      AtLeastOnce(q' - q, d);
    }
  }

  /** A positive multiple of `d` is at least `d`. */
  lemma AtLeastOnce(k: int, d: int)
    requires k >= 1 && d > 0
    ensures k * d >= d
  {
  }

  /** Dividing by `a` and then by `b` is dividing by `a * b`. */
  lemma QuotientOfQuotient(n: int, a: int, b: int)
    requires n >= 0 && a > 0 && b > 0
    ensures n / (a * b) == (n / a) / b
  {
    var q, r, s := (n / a) / b, (n / a) % b, n % a;
    Regroup(q, b, r, a);
    ScaleBelow(r, b, a);
    QuotientUnique(n, a * b, q, r * a + s);
  }

  /** Distributing the multiplier over a quotient-remainder sum. */
  lemma Regroup(q: int, b: int, r: int, a: int)
    ensures (q * b + r) * a == q * (a * b) + r * a
  {
  }

  /** A remainder below `b`, scaled by `a`, leaves room for one more `a` below `a * b`. */
  lemma ScaleBelow(r: int, b: int, a: int)
    requires 0 <= r < b && a > 0
    ensures r * a + a <= a * b
  {
    AtLeastOnce(b - r, a);
    assert (b - r) * a == a * b - r * a;
  }

  /** Splitting whole seconds into days, hours, minutes and seconds loses
      only the sub-second remainder. */
  lemma MixedUnits(n: int)
    requires n >= 0
    ensures Covered(n / 86400000, (n / 3600000) % 24, (n / 60000) % 60, (n / 1000) % 60) <= n
    ensures n < Covered(n / 86400000, (n / 3600000) % 24, (n / 60000) % 60, (n / 1000) % 60) + 1000
  {
    QuotientOfQuotient(n, 1000, 60);
    QuotientOfQuotient(n, 60000, 60);
    QuotientOfQuotient(n, 3600000, 24);
  }

  /** The text of a decimal digit. */
  function DigitChar(d: int): char
    requires 0 <= d < 10
  {
    "0123456789"[d]
  }

  /** A digit character's code is its value past the code of '0'. */
  lemma DigitValue(d: int)
    requires 0 <= d < 10
    ensures DigitChar(d) as int - '0' as int == d
  {
  }

  /** The decimal spelling JavaScript gives a non-negative integer. */
  function Decimal(n: nat): (s: string)
    ensures |s| >= 1
    ensures forall i :: 0 <= i < |s| ==> '0' <= s[i] <= '9'
    ensures s[0] == '0' ==> n == 0
  {
    if n < 10 then [DigitChar(n)] else Decimal(n / 10) + [DigitChar(n % 10)]
  }

  /** Reads a string of decimal digits back as a number. */
  function ParseDecimal(s: string): int
    requires forall i :: 0 <= i < |s| ==> '0' <= s[i] <= '9'
  {
    if |s| == 0 then 0 else 10 * ParseDecimal(s[..|s| - 1]) + (s[|s| - 1] as int - '0' as int)
  }

  /** A spelled-out number reads back as itself. */
  lemma {:induction false} DecimalRoundTrip(n: nat)
    ensures ParseDecimal(Decimal(n)) == n
  {
    var s := Decimal(n);
    DigitValue(n % 10);
    if n >= 10 {
      DecimalRoundTrip(n / 10);
      assert s[..|s| - 1] == Decimal(n / 10);
    }
  }

  /** The countdown line as displayed. */
  /** A number's decimal text followed by a unit marker and the rest of the
      line, as in `${days}d ...`. */
  function Field(n: nat, unit: string, rest: string): string
  {
    Decimal(n) + unit + rest
  }

  /** The countdown line as displayed. */
  function Display(c: Reading): (s: string)
    ensures s == StartedMessage <==> c == Started
  {
    match c
    case Started => StartedMessage
    case Remaining(d, h, m, sec) =>
      var s := Field(d, "d ", Field(h, "h ", Field(m, "m ", Decimal(sec) + "s")));
      assert s[0] == Decimal(d)[0];
      s
  }

  /** A run of digits ends where the first non-digit begins, so a digit run
      followed by a marked suffix splits in only one way. */
  lemma DigitsThenMark(p: string, x: string, q: string, y: string)
    requires forall i :: 0 <= i < |p| ==> '0' <= p[i] <= '9'
    requires forall i :: 0 <= i < |q| ==> '0' <= q[i] <= '9'
    requires |x| >= 1 && !('0' <= x[0] <= '9')
    requires |y| >= 1 && !('0' <= y[0] <= '9')
    requires p + x == q + y
    ensures p == q && x == y
  {
    if |p| < |q| {
      CharAfterPrefix(p, x);
      assert false;
    } else if |p| > |q| {
      CharAfterPrefix(q, y);
      assert false;
    } else {
      assert p == (p + x)[..|p|] && q == (q + y)[..|q|];
      assert x == (p + x)[|p|..] && y == (q + y)[|q|..];
    }
  }

  lemma CharAfterPrefix(p: string, x: string)
    ensures |x| >= 1 ==> (p + x)[|p|] == x[0]
  {
  }

  /** Two fields with the same marker agree only when their numbers and the
      rest of their lines agree. */
  lemma FieldInjective(a: nat, b: nat, unit: string, x: string, y: string)
    requires |unit| >= 1 && !('0' <= unit[0] <= '9')
    requires Field(a, unit, x) == Field(b, unit, y)
    ensures a == b && x == y
  {
    assert Field(a, unit, x) == Decimal(a) + (unit + x);
    assert Field(b, unit, y) == Decimal(b) + (unit + y);
    DigitsThenMark(Decimal(a), unit + x, Decimal(b), unit + y);
    DecimalRoundTrip(a);
    DecimalRoundTrip(b);
    assert unit + x == unit + y;
    assert x == (unit + x)[|unit|..];
  }

  /** The countdown line determines the reading: two readings that display
      the same text are the same reading. */
  lemma DisplayInjective(c: Reading, c': Reading)
    requires Display(c) == Display(c')
    ensures c == c'
  {
    if c.Remaining? && c'.Remaining? {
      FieldInjective(c.days, c'.days, "d ",
        Field(c.hours, "h ", Field(c.minutes, "m ", Decimal(c.seconds) + "s")),
        Field(c'.hours, "h ", Field(c'.minutes, "m ", Decimal(c'.seconds) + "s")));
      FieldInjective(c.hours, c'.hours, "h ",
        Field(c.minutes, "m ", Decimal(c.seconds) + "s"),
        Field(c'.minutes, "m ", Decimal(c'.seconds) + "s"));
      FieldInjective(c.minutes, c'.minutes, "m ", Decimal(c.seconds) + "s", Decimal(c'.seconds) + "s");
      DigitsThenMark(Decimal(c.seconds), "s", Decimal(c'.seconds), "s");
      DecimalRoundTrip(c.seconds);
      DecimalRoundTrip(c'.seconds);
    }
  }

  /** At the exact start time the page still shows a zero reading; only a
      negative distance switches to the message. */
  lemma ZeroDistanceShowsZeros()
    ensures Display(Decompose(0)) == "0d 0h 0m 0s"
    ensures Display(Decompose(-1)) == StartedMessage
  {
  }
}
