/** Trade prices: an exact ratio of two amounts rounded to 18 decimals. */
module Price {
  import opened Common
  import opened GoTime

  /** A Go `*big.Int`. */
  datatype BigInt = Nil | Big(v: int)

  /** `intString` followed by the `::numeric` cast. */
  function IntValue(b: BigInt): int {
    match b
    case Nil => 0
    case Big(v) => v
  }

  /** Prices are stored in units of 10^-18. */
  const UNIT: int := 1_000_000_000_000_000_000

  /** The digits `FloatString(18)` prints for `a / d`: an integer part and a fraction with a carry. */
  function Digits(a: nat, d: nat): int
    requires d > 0
  {
    var q := a / d;
    var r := a % d * UNIT / d;
    var r2 := a % d * UNIT % d;
    if d <= r2 + r2 then
      if r + 1 >= UNIT then (q + 1) * UNIT + (r + 1 - UNIT) else q * UNIT + (r + 1)
    else q * UNIT + r
  }

  /** `big.Rat.SetFrac(bnb, token).FloatString(18)` in units of 10^-18. */
  function Ratio(bnb: int, token: int): int
    requires token != 0
  {
    var m: int := Digits(Abs(bnb), Abs(token));
    if (bnb < 0) != (token < 0) then -m else m
  }

  /** `priceString` followed by the `::numeric` cast. */
  function PriceOf(bnb: BigInt, token: BigInt): int {
    if bnb.Nil? || token.Nil? || token.v == 0 then 0 else Ratio(bnb.v, token.v)
  }

  /** `p` is a multiple of 10^-18 closest to `bnb / token`, and the larger one in magnitude on a tie. */
  ghost predicate IsNearest(bnb: int, token: int, p: int) {
    var exact := bnb * 1_000_000_000_000_000_000;
    var err := p * token - exact;
    && 2 * Abs(err) <= Abs(token)
    && (2 * Abs(err) == Abs(token) ==> Abs(p * token) > Abs(exact))
  }

  /** The printed digits round half up: the floor of the exact value plus one half. */
  lemma DigitsFloor(a: nat, d: nat)
    requires d > 0
    ensures Digits(a, d) == (2 * (a * UNIT) + d) / (2 * d)
  {
    var q, r := a / d, a % d;
    var x, y := r * UNIT / d, r * UNIT % d;
    assert r * UNIT == d * x + y;
    SplitScale(a, d, q, r);
    var m := Digits(a, d);
    var up := if d <= y + y then 1 else 0;
    assert m == q * UNIT + x + up;
    Expand(q * UNIT, x, up, d);
    assert 2 * d * m == 2 * (d * m);
    DivModUnique(2 * (a * UNIT) + d, 2 * d, m, 2 * y + d - 2 * up * d);
  }

  lemma DigitsNonNegative(a: nat, d: nat)
    requires d > 0
    ensures Digits(a, d) >= 0
  {
    DigitsFloor(a, d);
  }

  lemma SplitScale(a: nat, d: nat, q: nat, r: nat)
    requires d > 0 && q == a / d && r == a % d
    ensures a * UNIT == q * UNIT * d + r * UNIT
  {
    assert a == d * q + r;
  }

  lemma Expand(a: int, b: int, c: int, d: int)
    ensures d * (a + b + c) == (a + b + c) * d == a * d + d * b + c * d
  {
  }

  lemma Signs(p: int, t: int)
    ensures (-p) * t == -(p * t) == p * (-t)
    ensures (-p) * (-t) == p * t
  {
  }

  /** For positive denominators the nearest multiple is the floor of the value plus one half. */
  lemma NearestIsFloor(a: nat, d: nat, p: int)
    requires d > 0 && IsNearest(a, d, p)
    ensures p == (2 * (a * UNIT) + d) / (2 * d)
  {
    var n := a * UNIT;
    var err := p * d - n;
    assert 2 * d * p == 2 * (p * d);
    if 2 * err + d == 0 {
      BetweenMultiples(p, d, n);
    }
    DivModUnique(2 * n + d, 2 * d, p, d - 2 * err);
  }

  lemma FloorIsNearest(a: nat, d: nat)
    requires d > 0
    ensures IsNearest(a, d, (2 * (a * UNIT) + d) / (2 * d))
  {
    var x, m := 2 * (a * UNIT) + d, 2 * d;
    var p := x / m;
    assert x == m * p + x % m;
    assert m * p == 2 * (p * d);
  }

  lemma BetweenMultiples(p: int, d: int, n: nat)
    requires d > 0 && 2 * (p * d - n) == -d
    ensures Abs(p * d) <= n
  {
    NegativeMultiple(p, d);
    assert p >= 0;
    NonNegative(p, d);
  }

  lemma NegativeMultiple(p: int, d: int)
    requires d > 0
    ensures p < 0 ==> p * d <= -d
  {
    Signs(p, d);
  }

  /** The stored price is the only one that is nearest. */
  lemma RatioIsNearest(bnb: int, token: int, p: int)
    requires token != 0
    ensures IsNearest(bnb, token, p) <==> p == Ratio(bnb, token)
  {
    var flip := (bnb < 0) != (token < 0);
    var p' := if flip then -p else p;
    var a, d := Abs(bnb), Abs(token);
    Signs(p, token);
    Signs(bnb, UNIT);
    assert IsNearest(bnb, token, p) <==> IsNearest(a, d, p');
    DigitsFloor(a, d);
    FloorIsNearest(a, d);
    if IsNearest(a, d, p') {
      NearestIsFloor(a, d, p');
    }
  }

  /** A larger exact ratio never gets a smaller stored price; equal ratios get the same price. */
  lemma PriceMonotone(bnb: int, token: int, bnb': int, token': int)
    requires token > 0 && token' > 0
    requires bnb * token' <= bnb' * token
    ensures Ratio(bnb, token) <= Ratio(bnb', token')
  {
    hide Digits;
    Signs(bnb, token');
    Signs(bnb', token);
    DigitsNonNegative(Abs(bnb), token);
    DigitsNonNegative(Abs(bnb'), token');
    if bnb >= 0 && bnb' >= 0 {
      DigitsMonotone(bnb, token, bnb', token');
    } else if bnb < 0 && bnb' < 0 {
      DigitsMonotone(-bnb', token', -bnb, token);
    } else if bnb >= 0 {
      NegativeMultiple(bnb', token);
      NonNegative(bnb, token');
    }
  }

  lemma NonNegative(x: nat, y: nat)
    ensures x * y >= 0
  {
  }

  lemma DigitsMonotone(a: nat, d: nat, a': nat, d': nat)
    requires d > 0 && d' > 0
    requires a * d' <= a' * d
    ensures Digits(a, d) <= Digits(a', d')
  {
    DigitsFloor(a, d);
    DigitsFloor(a', d');
    var n, n' := 2 * (a * UNIT) + d, 2 * (a' * UNIT) + d';
    assert n * (2 * d') == 4 * UNIT * (a * d') + 2 * (d * d');
    assert n' * (2 * d) == 4 * UNIT * (a' * d) + 2 * (d * d');
    FloorMonotone(n, 2 * d, n', 2 * d');
  }

  lemma FloorMonotone(n: nat, m: nat, n': nat, m': nat)
    requires m > 0 && m' > 0 && n * m' <= n' * m
    ensures n / m <= n' / m'
  {
    var q, k := n / m, n' / m' + 1;
    MulRight(m * q, n, m');
    MulRightStrict(n', m' * k, m);
    assert m * q * m' == (m * m') * q && m' * k * m == (m * m') * k;
    assert (m * m') * q < (m * m') * k;
    Cancel(m * m', q, k);
  }

  lemma Cancel(c: nat, x: int, y: int)
    requires c * x < c * y
    ensures x < y
  {
  }

  lemma MulRight(x: int, y: int, k: int)
    requires x <= y && k > 0
    ensures x * k <= y * k
  {
  }

  lemma MulRightStrict(x: int, y: int, k: int)
    requires x < y && k > 0
    ensures x * k < y * k
  {
  }
}
