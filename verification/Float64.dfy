/** Double precision arithmetic as Go does it on float64: every operation is exact and then
    rounded to 53 significant bits, ties to even (IEEE 754, section 4.3.1). Numbers are fractions;
    subnormal numbers and infinities are out of reach of the programs that use this. */
module Float64 {
  import opened Machine

  const TWO_52: int := 0x10_0000_0000_0000
  const TWO_53: int := 0x20_0000_0000_0000

  /** num / den. */
  datatype Float = Float(num: int, den: int) {
    predicate Valid() { den > 0 }
  }

  /** num / den as an integer, ties to even. */
  function Nearest(num: nat, den: nat): nat
    requires den > 0
  {
    var q, r := num / den, num % den;
    if 2 * r < den || (2 * r == den && q % 2 == 0) then q else q + 1
  }

  /** num / den with 53 significant bits: scaled to an integer of 53 bits, rounded, scaled back. */
  function RoundNat(num: nat, den: nat): (r: Float)
    requires den > 0
    ensures r.Valid() && r.num >= 0 && (num > 0 ==> r.num > 0)
    decreases if num == 0 || TWO_52 * den <= num < TWO_53 * den then 0 else 1,
              if num < TWO_52 * den then TWO_52 * den - num else num - den
  {
    if num == 0 then Float(0, 1)
    else if num < TWO_52 * den then
      var r := RoundNat(2 * num, den);
      Float(r.num, 2 * r.den)
    else if num >= TWO_53 * den then
      var r := RoundNat(num, 2 * den);
      Float(2 * r.num, r.den)
    else
      assert num / den > 0;
      Float(Nearest(num, den), 1)
  }

  function Round(num: int, den: nat): (r: Float)
    requires den > 0
    ensures r.Valid() && (num > 0 ==> r.num > 0) && (num >= 0 ==> r.num >= 0) && (num <= 0 ==> r.num <= 0)
  {
    if num >= 0 then RoundNat(num, den)
    else
      var r := RoundNat(-num, den);
      Float(-r.num, r.den)
  }

  function OfInt(n: int): (r: Float)
    ensures r.Valid() && (n > 0 ==> r.num > 0) && (n >= 0 ==> r.num >= 0) && (n <= 0 ==> r.num <= 0)
  {
    Round(n, 1)
  }

  function Mul(x: Float, y: Float): (r: Float)
    requires x.Valid() && y.Valid()
    ensures r.Valid()
  {
    Round(x.num * y.num, x.den * y.den)
  }

  function Div(x: Float, y: Float): (r: Float)
    requires x.Valid() && y.Valid() && y.num > 0
    ensures r.Valid()
  {
    Round(x.num * y.den, x.den * y.num)
  }

  /** The conversion to an integer, which rounds toward zero. */
  function ToInt(x: Float): int
    requires x.Valid()
  {
    Trunc(x.num, x.den)
  }

  /** The conversion to int64. What comes of a number that does not fit is up to the machine. */
  function ToInt64(x: Float, unrepresentable: int): int
    requires x.Valid()
  {
    if IsInt64(ToInt(x)) then ToInt(x) else unrepresentable
  }

  function Pow2(k: nat): (p: nat)
    ensures p > 0
  {
    if k == 0 then 1 else 2 * Pow2(k - 1)
  }

  /** n is the integer nearest to a / b, and the even one of two that are equally near. */
  predicate IsNearest(n: int, a: int, b: int) {
    && -b <= 2 * (n * b - a) <= b
    && (2 * (n * b - a) == b || 2 * (n * b - a) == -b ==> n % 2 == 0)
  }

  lemma NearestIsNearest(num: nat, den: nat)
    requires den > 0
    ensures IsNearest(Nearest(num, den), num, den)
  {
    var q, r := num / den, num % den;
    assert num == q * den + r;
    assert (q + 1) * den == q * den + den;
  }

  lemma Doubles(x: int, k: nat)
    ensures 2 * x * Pow2(k) == x * Pow2(k + 1)
  {
  }

  /** Correct rounding: scaled by powers of two so that num / den lies between 2^52 and 2^53, r is
      the nearest integer, ties to even, scaled back. */
  predicate IsRounded(r: Float, num: nat, den: nat, n: nat, up: nat, down: nat) {
    && r == Float(n * Pow2(up), Pow2(down))
    && TWO_52 * (den * Pow2(up)) <= num * Pow2(down) < TWO_53 * (den * Pow2(up))
    && IsNearest(n, num * Pow2(down), den * Pow2(up))
  }

  lemma ScaledDown(r: Float, num: nat, den: nat, n: nat, up: nat, down: nat)
    requires IsRounded(r, 2 * num, den, n, up, down)
    ensures IsRounded(Float(r.num, 2 * r.den), num, den, n, up, down + 1)
  {
    Doubles(num, down);
    hide IsNearest;
  }

  lemma ScaledUp(r: Float, num: nat, den: nat, n: nat, up: nat, down: nat)
    requires IsRounded(r, num, 2 * den, n, up, down)
    ensures IsRounded(Float(2 * r.num, r.den), num, den, n, up + 1, down)
  {
    Doubles(den, up);
    Doubles(n, up);
    hide IsNearest;
  }

  lemma InPlace(num: nat, den: nat)
    requires den > 0 && TWO_52 * den <= num < TWO_53 * den
    ensures IsRounded(Float(Nearest(num, den), 1), num, den, Nearest(num, den), 0, 0)
  {
    NearestIsNearest(num, den);
    assert Pow2(0) == 1;
    hide IsNearest, Nearest;
  }

  /** Every rounding is correct. */
  lemma {:induction false} RoundNatIsCorrect(num: nat, den: nat) returns (n: nat, up: nat, down: nat)
    requires num > 0 && den > 0
    ensures IsRounded(RoundNat(num, den), num, den, n, up, down)
    decreases if TWO_52 * den <= num < TWO_53 * den then 0 else 1,
              if num < TWO_52 * den then TWO_52 * den - num else num - den
  {
    hide IsRounded, Nearest;
    if num < TWO_52 * den {
      n, up, down := RoundNatIsCorrect(2 * num, den);
      ScaledDown(RoundNat(2 * num, den), num, den, n, up, down);
      down := down + 1;
    } else if num >= TWO_53 * den {
      n, up, down := RoundNatIsCorrect(num, 2 * den);
      ScaledUp(RoundNat(num, 2 * den), num, den, n, up, down);
      up := up + 1;
    } else {
      n, up, down := Nearest(num, den), 0, 0;
      InPlace(num, den);
    }
  }

  // ---- exact results ----

  /** x is the number m / 2^k. */
  predicate Is(x: Float, m: int, k: nat) {
    x.Valid() && x.num * Pow2(k) == m * x.den
  }

  lemma MulMonotone(a: int, b: int, x: int)
    requires a <= b && 0 <= x
    ensures a * x <= b * x && (a < b && 0 < x ==> a * x < b * x)
  {
  }

  lemma Halved(num: int, m: int, den: int, k: nat)
    requires k > 0
    ensures num * Pow2(k) == m * den <==> 2 * num * Pow2(k - 1) == m * den
    ensures num * Pow2(k - 1) == m * den <==> num * Pow2(k) == m * (2 * den)
  {
    assert num * Pow2(k) == num * (2 * Pow2(k - 1));
  }

  /** A fraction m / 2^k with m below 2^53 is not above 2^53, and an integer above 2^52. */
  lemma Normal(num: nat, den: nat, m: nat, k: nat)
    requires den > 0 && m < TWO_53 && num * Pow2(k) == m * den
    ensures num < TWO_53 * den
    ensures TWO_52 * den <= num ==> k == 0
    ensures k == 0 ==> num == m * den
    ensures m == 0 <==> num == 0
  {
    MulMonotone(m, TWO_53, den);
    MulMonotone(1, Pow2(k), num);
    if k > 0 { MulMonotone(2, Pow2(k), num); }
    if m > 0 { MulMonotone(0, m, den); }
  }

  lemma Multiple(m: nat, den: nat)
    requires den > 0
    ensures m * den / den == m && m * den % den == 0
  {
    DivMod(m * den, den, m, 0);
  }

  lemma DivMod(n: int, d: int, q: int, r: int)
    requires d > 0 && 0 <= r < d && n == q * d + r
    ensures n / d == q && n % d == r
  {
    var q', r' := n / d, n % d;
    assert (q - q') * d == r' - r;
    if q > q' { MulMonotone(1, q - q', d); }
    if q < q' { MulMonotone(1, q' - q, d); }
  }

  /** A number of at most 53 bits over a power of two is not changed by rounding. */
  lemma {:induction false} RoundNatIsExact(num: nat, den: nat, m: nat, k: nat)
    requires den > 0 && m < TWO_53 && num * Pow2(k) == m * den
    ensures Is(RoundNat(num, den), m, k)
    decreases if num == 0 || TWO_52 * den <= num < TWO_53 * den then 0 else 1,
              if num < TWO_52 * den then TWO_52 * den - num else num - den
  {
    Normal(num, den, m, k);
    if num != 0 && num < TWO_52 * den {
      hide Pow2, Is;
      if k > 0 {
        Halved(num, m, den, k);
        RoundNatIsExact(2 * num, den, m, k - 1);
        ShiftIsExact(RoundNat(2 * num, den), m, k);
      } else {
        SmallInteger(num, den, m);
        RoundNatIsExact(2 * num, den, 2 * m, 0);
        EvenIsExact(RoundNat(2 * num, den), m);
      }
    } else if num != 0 {
      Multiple(m, den);
    }
  }

  lemma ShiftIsExact(r: Float, m: nat, k: nat)
    requires k > 0 && Is(r, m, k - 1)
    ensures Is(Float(r.num, 2 * r.den), m, k)
  {
    Halved(r.num, m, r.den, k);
  }

  lemma EvenIsExact(r: Float, m: nat)
    requires Is(r, 2 * m, 0)
    ensures Is(Float(r.num, 2 * r.den), m, 0)
  {
    OneBit();
    Associate(m, 2, r.den);
  }

  lemma SmallInteger(num: nat, den: nat, m: nat)
    requires den > 0 && num * Pow2(0) == m * den && num < TWO_52 * den
    ensures m < TWO_52 && 2 * num * Pow2(0) == 2 * m * den
  {
    OneBit();
    if m >= TWO_52 { MulMonotone(TWO_52, m, den); }
  }

  lemma OneBit()
    ensures Pow2(0) == 1
  {
  }

  // ---- rounding errors ----

  /** x is n / d up to k times 2^-53 of it. */
  predicate Near(x: Float, n: nat, d: nat, k: nat) {
    && x.Valid()
    && (TWO_53 - k) * (n * x.den) <= TWO_53 * (x.num * d)
    && TWO_53 * (x.num * d) <= (TWO_53 + k) * (n * x.den)
  }

  lemma NearestError(num: nat, den: nat)
    requires den > 0
    ensures 2 * num <= 2 * (Nearest(num, den) * den) + den && 2 * (Nearest(num, den) * den) <= 2 * num + den
  {
    var q, r := num / den, num % den;
    assert num == q * den + r;
    assert (q + 1) * den == q * den + den;
  }

  /** One rounding is off by at most one part in 2^53. */
  lemma {:induction false} RoundNatError(num: nat, den: nat)
    requires den > 0
    ensures Near(RoundNat(num, den), num, den, 1)
    decreases if num == 0 || TWO_52 * den <= num < TWO_53 * den then 0 else 1,
              if num < TWO_52 * den then TWO_52 * den - num else num - den
  {
    if num == 0 {
    } else if num < TWO_52 * den {
      RoundNatError(2 * num, den);
      Shifted(RoundNat(2 * num, den), num, den);
    } else if num >= TWO_53 * den {
      RoundNatError(num, 2 * den);
      ShiftedBack(RoundNat(num, 2 * den), num, den);
    } else {
      NearestError(num, den);
    }
  }

  lemma Shifted(r: Float, num: nat, den: nat)
    requires Near(r, 2 * num, den, 1)
    ensures Near(Float(r.num, 2 * r.den), num, den, 1)
  {
    assert 2 * num * r.den == num * (2 * r.den);
  }

  lemma ShiftedBack(r: Float, num: nat, den: nat)
    requires Near(r, num, 2 * den, 1)
    ensures Near(Float(2 * r.num, r.den), num, den, 1)
  {
    assert r.num * (2 * den) == 2 * r.num * den;
  }

  lemma Products(a: int, b: int, c: int, d: int)
    requires 0 <= a <= b && 0 <= c <= d
    ensures 0 <= a * c <= b * d
  {
    MulMonotone(a, b, c);
    MulMonotone(c, d, b);
  }

  lemma Cancel(a: int, b: int, x: int)
    requires 0 < x && a * x <= b * x
    ensures a <= b
  {
    if b < a { MulMonotone(b, a, x); }
  }

  lemma ErrorsAdd(k: nat, l: nat)
    requires k <= 100 && l <= 100
    ensures (TWO_53 + 1) * ((TWO_53 + k) * (TWO_53 + l)) <= TWO_53 * TWO_53 * (TWO_53 + k + l + 2)
    ensures TWO_53 * TWO_53 * (TWO_53 - k - l - 2) <= (TWO_53 - 1) * ((TWO_53 - k) * (TWO_53 - l))
  {
    Products(k, 100, l, 100);
    var kl := k * l;
    assert (TWO_53 + k) * (TWO_53 + l) == TWO_53 * TWO_53 + TWO_53 * (k + l) + kl;
    assert (TWO_53 - k) * (TWO_53 - l) == TWO_53 * TWO_53 - TWO_53 * (k + l) + kl;
  }

  /** Four factors in another order. */
  lemma Swap(a: int, b: int, c: int, d: int)
    ensures (a * b) * (c * d) == (a * c) * (b * d)
    ensures (a * b) * (c * d) == (a * d) * (c * b)
  {
  }

  lemma Associate(a: int, b: int, c: int)
    ensures a * (b * c) == (a * b) * c
  {
  }

  /** Bounds that share a factor on either side chain up: s p w <= t c q and s' c f <= t' n w give
      s s' p f <= t t' n q. */
  lemma Chained(s: nat, p: nat, w: nat, t: nat, c: nat, q: nat, s': nat, f: nat, t': nat, n: nat)
    requires w > 0 && c > 0 && s * (p * w) <= t * (c * q) && s' * (c * f) <= t' * (n * w)
    ensures (s * s') * (p * f) <= (t * t') * (n * q)
  {
    Products(s * (p * w), t * (c * q), s' * (c * f), t' * (n * w));
    Left(s, p, w, s', c, f);
    Right(t, c, q, t', n, w);
    Products(1, c, 1, w);
    Cancel((s * s') * (p * f), (t * t') * (n * q), c * w);
  }

  lemma Left(s: int, p: int, w: int, s': int, c: int, f: int)
    ensures (s * (p * w)) * (s' * (c * f)) == ((s * s') * (p * f)) * (c * w)
  {
    Swap(s, p * w, s', c * f);
    Swap(p, w, c, f);
    Associate(s * s', p * f, c * w);
  }

  lemma Right(t: int, c: int, q: int, t': int, n: int, w: int)
    ensures (t * (c * q)) * (t' * (n * w)) == ((t * t') * (n * q)) * (c * w)
  {
    Swap(t, c * q, t', n * w);
    Swap(n, w, c, q);
    Associate(t * t', n * q, c * w);
  }

  lemma Paired(k: int, a: int, d: int, l: int, c: int, f: int)
    ensures (k * (a * d)) * (l * (c * f)) == (k * l) * ((a * c) * (d * f))
  {
    Swap(k, a * d, l, c * f);
    Swap(a, d, c, f);
  }

  /** Bounds on two factors bound the product. */
  lemma ProductBound(s: nat, a: nat, d: nat, t: nat, n: nat, b: nat,
                     s': nat, c: nat, f: nat, t': nat, m: nat, e: nat)
    requires s * (a * d) <= t * (n * b) && s' * (c * f) <= t' * (m * e)
    ensures (s * s') * ((a * c) * (d * f)) <= (t * t') * ((n * m) * (b * e))
  {
    Products(s * (a * d), t * (n * b), s' * (c * f), t' * (m * e));
    Paired(s, a, d, s', c, f);
    Paired(t, n, b, t', m, e);
  }

  lemma ChainedAbove(s: nat, p: nat, w: nat, t: nat, c: nat, q: nat, s': nat, f: nat, t': nat, n: nat, u: nat)
    requires w > 0 && c > 0 && s * (p * w) <= t * (c * q) && s' * (c * f) <= t' * (n * w)
    requires s' > 0 && t * t' <= s' * u
    ensures s * (p * f) <= u * (n * q)
  {
    Chained(s, p, w, t, c, q, s', f, t', n);
    MulMonotone(t * t', s' * u, n * q);
    Reordered(s, s', p * f);
    Reordered(u, s', n * q);
    Cancel(s * (p * f), u * (n * q), s');
  }

  lemma ChainedBelow(s: nat, p: nat, w: nat, t: nat, c: nat, q: nat, s': nat, f: nat, t': nat, n: nat, u: nat)
    requires w > 0 && c > 0 && s * (p * w) <= t * (c * q) && s' * (c * f) <= t' * (n * w)
    requires t' > 0 && t' * u <= s * s'
    ensures u * (p * f) <= t * (n * q)
  {
    Chained(s, p, w, t, c, q, s', f, t', n);
    MulMonotone(t' * u, s * s', p * f);
    Reordered(u, t', p * f);
    Reordered(t, t', n * q);
    Cancel(u * (p * f), t * (n * q), t');
  }

  lemma Reordered(s: int, s': int, x: int)
    ensures (s * s') * x == (s * x) * s' && (s' * s) * x == (s * x) * s'
  {
  }

  /** One more rounding on top of a fraction c / w that is near n / f. */
  lemma RoundNear(r: Float, c: nat, w: nat, n: nat, f: nat, k: nat, l: nat)
    requires w > 0 && c > 0 && Near(r, c, w, 1) && r.num >= 0 && k <= 100 && l <= 100
    requires ((TWO_53 - k) * (TWO_53 - l)) * (n * w) <= (TWO_53 * TWO_53) * (c * f)
    requires (TWO_53 * TWO_53) * (c * f) <= ((TWO_53 + k) * (TWO_53 + l)) * (n * w)
    ensures Near(r, n, f, k + l + 2)
  {
    ErrorsAdd(k, l);
    ChainedAbove(TWO_53, r.num, w, TWO_53 + 1, c, r.den, TWO_53 * TWO_53, f,
                 (TWO_53 + k) * (TWO_53 + l), n, TWO_53 + k + l + 2);
    ChainedBelow(TWO_53 - 1, r.den, c, TWO_53, w, r.num, (TWO_53 - k) * (TWO_53 - l), n,
                 TWO_53 * TWO_53, f, TWO_53 - k - l - 2);
  }

  lemma NearZero(x: Float, n: nat, d: nat, k: nat)
    requires Near(x, n, d, k) && x.num == 0 && k <= 100
    ensures n == 0
  {
    if n > 0 {
      Products(1, n, 1, x.den);
      Products(1, TWO_53 - k, 1, n * x.den);
    }
  }

  /** A product of numbers that are near n / d and m / f is near nm / df. */
  lemma MulNear(x: Float, n: nat, d: nat, k: nat, y: Float, m: nat, f: nat, l: nat)
    requires Near(x, n, d, k) && Near(y, m, f, l) && k <= 100 && l <= 100 && x.num >= 0 && y.num >= 0
    ensures Near(Mul(x, y), n * m, d * f, k + l + 2)
  {
    if x.num == 0 || y.num == 0 {
      if x.num == 0 { NearZero(x, n, d, k); } else { NearZero(y, m, f, l); }
      assert n * m == 0 && x.num * y.num == 0;
    } else {
      hide RoundNat;
      RoundNatError(x.num * y.num, x.den * y.den);
      ProductBound(TWO_53, x.num, d, TWO_53 + k, n, x.den, TWO_53, y.num, f, TWO_53 + l, m, y.den);
      ProductBound(TWO_53 - k, n, x.den, TWO_53, x.num, d, TWO_53 - l, m, y.den, TWO_53, y.num, f);
      Products(1, x.num, 1, y.num);
      Products(1, x.den, 1, y.den);
      hide Near;
      RoundNear(Mul(x, y), x.num * y.num, x.den * y.den, n * m, d * f, k, l);
    }
  }

  // ---- what programs rely on ----

  lemma OfIntIsExact(n: nat)
    requires n < TWO_53
    ensures Is(OfInt(n), n, 0) && OfInt(n).num == n * OfInt(n).den
    ensures Near(OfInt(n), n, 1, 0)
  {
    OneBit();
    RoundNatIsExact(n, 1, n, 0);
  }

  /** The same fraction in other terms has the same integer part. */
  lemma SameFloor(a: nat, b: nat, c: nat, d: nat)
    requires b > 0 && d > 0 && a * d == c * b
    ensures a / b == c / d
  {
    var q, r := a / b, a % b;
    assert a == q * b + r;
    Reordered(q, d, b);
    assert (q * b + r) * d == q * d * b + r * d;
    assert r * d == (c - q * d) * b;
    Cancel(0, c - q * d, b);
    MulMonotone(r, b, d);
    if c - q * d >= d { MulMonotone(d, c - q * d, b); }
    DivMod(c, d, q, c - q * d);
  }

  /** A quotient of two integers of at most 53 bits is rounded once. */
  lemma QuotientNear(n: nat, d: nat)
    requires n < TWO_53 && 0 < d < TWO_53
    ensures Near(Div(OfInt(n), OfInt(d)), n, d, 1) && Div(OfInt(n), OfInt(d)).num >= 0
  {
    OfIntIsExact(n);
    OfIntIsExact(d);
    hide RoundNat, OfInt;
    var x, y := OfInt(n), OfInt(d);
    Products(0, x.num, 0, y.den);
    Products(1, x.den, 1, y.num);
    RoundNatError(x.num * y.den, x.den * y.num);
    Reduced(Div(x, y), n, d, x.den, y.den, x.num * y.den, x.den * y.num, 1);
  }

  /** Being near a fraction does not depend on its terms. */
  lemma Reduced(r: Float, n: nat, d: nat, a: nat, b: nat, num: nat, den: nat, k: nat)
    requires a > 0 && b > 0 && num == (n * a) * b && den == a * (d * b)
    requires Near(r, num, den, k) && r.num >= 0 && k <= 100
    ensures Near(r, n, d, k)
  {
    var w := a * b;
    Products(1, a, 1, b);
    assert num == n * w;
    assert den == d * w;
    Terms(TWO_53 - k, n, w, r.den);
    Terms(TWO_53 + k, n, w, r.den);
    Terms(TWO_53, d, w, r.num);
    Cancel((TWO_53 - k) * (n * r.den), TWO_53 * (r.num * d), w);
    Cancel(TWO_53 * (r.num * d), (TWO_53 + k) * (n * r.den), w);
  }

  lemma Terms(t: int, n: int, w: int, q: int)
    ensures t * ((n * w) * q) == (t * (n * q)) * w && t * (q * (n * w)) == (t * (q * n)) * w
  {
    Reordered(n, w, q);
    Associate(t, n * q, w);
  }

  lemma Spread(a: int, b: int, c: int, k: nat)
    requires (TWO_53 - k) * b <= TWO_53 * a <= (TWO_53 + k) * b && k * b < TWO_53 * c
    ensures b - c < a < b + c
  {
  }

  lemma IntegerPart(a: nat, b: nat)
    requires b > 0
    ensures a / b * b <= a < (a / b + 1) * b
  {
    assert a == a / b * b + a % b;
  }

  lemma Distributes(a: int, b: int, x: int)
    ensures (a + b) * x == a * x + b * x && (a - b) * x == a * x - b * x
  {
  }

  lemma Sides(num: nat, den: nat, n: nat, d: nat, k: nat)
    requires den > 0 && k * n < TWO_53 * d
    requires (TWO_53 - k) * (n * den) <= TWO_53 * (num * d) <= (TWO_53 + k) * (n * den)
    ensures (n - d) * den < num * d < (n + d) * den
  {
    Distributes(n, d, den);
    Below(k, n, d, den);
    Spread(num * d, n * den, d * den, k);
  }

  lemma Below(k: nat, n: nat, d: nat, den: nat)
    requires den > 0 && k * n < TWO_53 * d
    ensures k * (n * den) < TWO_53 * (d * den)
  {
    MulMonotone(k * n, TWO_53 * d, den);
    Associate(k, n, den);
    Associate(TWO_53, d, den);
  }

  lemma CancelStrictly(a: int, b: int, x: int)
    requires 0 < x && a * x < b * x
    ensures a < b
  {
    if b <= a { MulMonotone(b, a, x); }
  }

  lemma NotTooLarge(num: nat, den: nat, n: nat, d: nat, z: nat, q: nat)
    requires den > 0 && d > 0 && num * d < (n + d) * den && z * den <= num && n < (q + 1) * d
    ensures z <= q + 1
  {
    MulMonotone(z * den, num, d);
    Reordered(z, den, d);
    CancelStrictly(z * d, n + d, den);
    Distributes(q + 1, 1, d);
    CancelStrictly(z, q + 2, d);
  }

  lemma NotTooSmall(num: nat, den: nat, n: nat, d: nat, z: nat, q: nat)
    requires den > 0 && d > 0 && (n - d) * den < num * d && num < (z + 1) * den && q * d <= n
    ensures q - 1 <= z
  {
    MulMonotone(num, (z + 1) * den, d);
    Reordered(z + 1, den, d);
    CancelStrictly(n - d, (z + 1) * d, den);
    Distributes(q, 1, d);
    CancelStrictly(q - 1, z + 1, d);
  }

  lemma ToIntPart(x: Float)
    requires x.Valid() && x.num >= 0
    ensures 0 <= ToInt(x) && ToInt(x) * x.den <= x.num < (ToInt(x) + 1) * x.den
  {
    var q := x.num / x.den;
    assert ToInt(x) == q;
    hide ToInt;
    IntegerPart(x.num, x.den);
  }

  /** What is near a moderate number is off by at most one as an integer. */
  lemma ToIntNear(x: Float, n: nat, d: nat, k: nat)
    requires Near(x, n, d, k) && x.num >= 0 && d > 0 && k * n < TWO_53 * d
    ensures n / d - 1 <= ToInt(x) <= n / d + 1 && ToInt(x) >= 0
  {
    ToIntPart(x);
    Sides(x.num, x.den, n, d, k);
    hide ToInt, Near;
    IntegerPart(n, d);
    NotTooLarge(x.num, x.den, n, d, ToInt(x), n / d);
    NotTooSmall(x.num, x.den, n, d, ToInt(x), n / d);
  }

  lemma {:induction false} Pow2Sum(a: nat, b: nat)
    ensures Pow2(a + b) == Pow2(a) * Pow2(b)
  {
    if a > 0 {
      Pow2Sum(a - 1, b);
      Associate(2, Pow2(a - 1), Pow2(b));
    }
  }

  lemma Pow2Values()
    ensures Pow2(4) == 16 && Pow2(20) == 0x10_0000 && Pow2(24) == 0x100_0000 && Pow2(30) == 0x4000_0000
  {
    assert Pow2(2) == 4;
    Pow2Sum(2, 2);
    Pow2Sum(4, 4);
    Pow2Sum(8, 8);
    Pow2Sum(16, 4);
    Pow2Sum(20, 4);
    Pow2Sum(24, 4);
    Pow2Sum(28, 2);
  }

  /** Dividing by 2^30 changes the exponent only. */
  lemma SharesAreExact(n: nat)
    requires n < TWO_53
    ensures Is(Div(OfInt(n), OfInt(0x4000_0000)), n, 30)
    ensures Div(OfInt(n), OfInt(0x4000_0000)).num >= 0
  {
    OfIntIsExact(n);
    OfIntIsExact(0x4000_0000);
    Pow2Values();
    hide RoundNat, OfInt, Pow2;
    var x, y := OfInt(n), OfInt(0x4000_0000);
    Products(0, x.num, 0, y.den);
    Products(1, x.den, 1, y.num);
    Swap(n, x.den, 0x4000_0000, y.den);
    ExactQuotient(x.num * y.den, x.den * y.num, x.num, x.den, y.num, y.den, n);
  }

  lemma ExactQuotient(num: nat, den: nat, a: nat, b: nat, c: nat, d: nat, n: nat)
    requires den > 0 && n < TWO_53 && num == a * d && den == b * c && a == n * b && c == 0x4000_0000 * d
    ensures Is(RoundNat(num, den), n, 30)
  {
    Pow2Values();
    hide RoundNat, Pow2;
    QuotientTerms(b, d, n);
    RoundNatIsExact(num, den, n, 30);
  }

  lemma QuotientTerms(b: nat, d: nat, n: nat)
    ensures ((n * b) * d) * 0x4000_0000 == n * (b * (0x4000_0000 * d))
  {
    Associate(n, b, d);
  }

  /** A product of numbers that are not negative is the rounded product of fractions. */
  lemma MulIsRoundNat(x: Float, y: Float)
    requires x.Valid() && y.Valid() && x.num >= 0 && y.num >= 0
    ensures x.num * y.num >= 0 && Mul(x, y) == RoundNat(x.num * y.num, x.den * y.den)
  {
    Products(0, x.num, 0, y.num);
  }

  /** An integer m 2^j times a share n / 2^30 is exact if mn has at most 53 bits. */
  lemma ProductIsExact(i: nat, m: nat, j: nat, n: nat)
    requires i == m * Pow2(j) && j <= 30 && i < TWO_53 && n < TWO_53 && m * n < TWO_53
    ensures var share := Div(OfInt(n), OfInt(0x4000_0000));
      ToInt(Mul(OfInt(i), share)) == i * n / 0x4000_0000
  {
    OfIntIsExact(i);
    SharesAreExact(n);
    Pow2Values();
    hide RoundNat, OfInt, Pow2, Div, Mul;
    var x, y := OfInt(i), Div(OfInt(n), OfInt(0x4000_0000));
    MulIsRoundNat(x, y);
    ExactProduct(x.num, x.den, y.num, y.den, i, m, j, n);
  }

  lemma ExactProduct(a: nat, b: nat, c: nat, d: nat, i: nat, m: nat, j: nat, n: nat)
    requires b > 0 && d > 0 && a == i * b && c * 0x4000_0000 == n * d
    requires i == m * Pow2(j) && j <= 30 && m * n < TWO_53
    ensures b * d > 0 && ToInt(RoundNat(a * c, b * d)) == i * n / 0x4000_0000
  {
    Pow2Sum(30 - j, j);
    Pow2Values();
    Products(1, b, 1, d);
    hide RoundNat, Pow2;
    ProductTerms(a, b, c, d, i, n, m, Pow2(j), Pow2(30 - j));
    RoundNatIsExact(a * c, b * d, m * n, 30 - j);
    var r := RoundNat(a * c, b * d);
    BackToInteger(r.num, r.den, i, n, m, Pow2(j), Pow2(30 - j));
    SameFloor(r.num, r.den, i * n, 0x4000_0000);
  }

  lemma ProductTerms(a: nat, b: nat, c: nat, d: nat, i: nat, n: nat, m: nat, p: nat, p': nat)
    requires a == i * b && c * (p' * p) == n * d && i == m * p && p > 0
    ensures (a * c) * p' == (m * n) * (b * d)
  {
    Associate(a, c, p' * p);
    Swap(i, b, n, d);
    Swap(m, p, n, b * d);
    assert (a * c) * (p' * p) == (i * n) * (b * d);
    Reordered(m, p, n);
    Reordered(m * n, p, b * d);
    Associate(a * c, p', p);
    Cancel((a * c) * p', (m * n) * (b * d), p);
    Cancel((m * n) * (b * d), (a * c) * p', p);
  }

  lemma BackToInteger(num: nat, den: nat, i: nat, n: nat, m: nat, p: nat, p': nat)
    requires num * p' == (m * n) * den && i == m * p
    ensures num * (p' * p) == (i * n) * den
  {
    Associate(num, p', p);
    Reordered(m, p, n);
    Reordered(m * n, p, den);
  }

  /** A percentage of a number is off by at most one, and never more than the number. */
  lemma PercentNear(percent: nat, n: nat)
    requires percent <= 100 && n <= 0x4000_0000_0000
    ensures var r := ToInt(Mul(Div(OfInt(percent), OfInt(100)), OfInt(n)));
      && percent * n / 100 - 1 <= r <= percent * n / 100 + 1
      && 0 <= r <= n
      && (percent == 0 ==> r == 0)
  {
    QuotientNear(percent, 100);
    OfIntIsExact(n);
    if percent == 100 { WholeIsOne(); }
    hide RoundNat, Div, OfInt, Mul;
    var x, y := Div(OfInt(percent), OfInt(100)), OfInt(n);
    MulIsRoundNat(x, y);
    if percent == 0 {
      NearZeroFraction(x, 100, 1);
      NothingIsZero(x.den * y.den);
    } else if percent == 100 {
      WholeIsExact(x.num, y.num, y.den, n);
    } else {
      hide Near, ToInt;
      ProperPercent(x, y, percent, n);
    }
  }

  lemma ProperPercent(x: Float, y: Float, percent: nat, n: nat)
    requires percent < 100 && n <= 0x4000_0000_0000
    requires Near(x, percent, 100, 1) && Near(y, n, 1, 0) && x.num >= 0 && y.num >= 0
    ensures percent * n / 100 - 1 <= ToInt(Mul(x, y)) <= percent * n / 100 + 1 && 0 <= ToInt(Mul(x, y)) <= n
  {
    hide Mul, RoundNat;
    MulIsRoundNat(x, y);
    MulNear(x, percent, 100, 1, y, n, 1, 0);
    Products(percent, 100, n, 0x4000_0000_0000);
    ToIntNear(Mul(x, y), percent * n, 100, 3);
    if n == 0 {
      NearZeroFraction(Mul(x, y), 100, 3);
    } else {
      hide Near, ToInt;
      LessThanAll(percent, n);
    }
  }

  lemma LessThanAll(percent: nat, n: nat)
    requires percent < 100
    ensures n > 0 ==> percent * n / 100 + 1 <= n
  {
    MulMonotone(percent, 99, n);
  }

  lemma NothingIsZero(den: nat)
    requires den > 0
    ensures ToInt(RoundNat(0, den)) == 0
  {
  }

  lemma NearZeroFraction(x: Float, d: nat, k: nat)
    requires Near(x, 0, d, k) && d > 0 && x.num >= 0
    ensures x.num == 0
  {
    if x.num > 0 { Products(1, x.num, 1, d); }
  }

  lemma WholeIsOne()
    ensures var x := Div(OfInt(100), OfInt(100)); x.num == x.den
  {
    var c := OfInt(100);
    OneBit();
    hide RoundNat, OfInt, Pow2;
    Products(1, c.num, 1, c.den);
    RoundNatIsExact(c.num * c.den, c.den * c.num, 1, 0);
  }

  lemma WholeIsExact(w: nat, a: nat, b: nat, n: nat)
    requires w > 0 && b > 0 && a == n * b && n < TWO_53
    ensures w * b > 0 && ToInt(RoundNat(w * a, w * b)) == n
  {
    OneBit();
    hide RoundNat, Pow2;
    Products(1, w, 1, b);
    assert w * a == n * (w * b);
    RoundNatIsExact(w * a, w * b, n, 0);
    var r := RoundNat(w * a, w * b);
    Multiple(n, r.den);
  }

  // ---- negative numbers ----

  function Neg(x: Float): Float { Float(-x.num, x.den) }

  lemma RoundNeg(num: int, den: nat)
    requires den > 0
    ensures Round(-num, den) == Neg(Round(num, den))
  {
  }

  lemma OfIntNeg(n: int)
    ensures OfInt(-n) == Neg(OfInt(n))
  {
    RoundNeg(n, 1);
  }

  lemma DivNeg(x: Float, y: Float)
    requires x.Valid() && y.Valid() && y.num > 0
    ensures Div(Neg(x), y) == Neg(Div(x, y))
  {
    Products(1, x.den, 1, y.num);
    RoundNeg(x.num * y.den, x.den * y.num);
    assert -x.num * y.den == -(x.num * y.den);
  }

  lemma MulNeg(x: Float, y: Float)
    requires x.Valid() && y.Valid()
    ensures Mul(Neg(x), y) == Neg(Mul(x, y)) && Mul(x, Neg(y)) == Neg(Mul(x, y))
  {
    Products(1, x.den, 1, y.den);
    RoundNeg(x.num * y.num, x.den * y.den);
    assert -x.num * y.num == -(x.num * y.num) == x.num * -y.num;
  }

  lemma ToIntNeg(x: Float)
    requires x.Valid()
    ensures ToInt(Neg(x)) == -ToInt(x)
  {
  }

  function Percentage(percent: int, n: int): int {
    ToInt(Mul(Div(OfInt(percent), OfInt(100)), OfInt(n)))
  }

  lemma PercentageNeg(percent: int, n: int)
    ensures Percentage(-percent, n) == -Percentage(percent, n) && Percentage(percent, -n) == -Percentage(percent, n)
  {
    var x, y := OfInt(percent), OfInt(n);
    OfIntNeg(percent);
    OfIntNeg(n);
    DivNeg(x, OfInt(100));
    MulNeg(Div(x, OfInt(100)), y);
    ToIntNeg(Mul(Div(x, OfInt(100)), y));
    hide ToInt, Mul, Div, OfInt;
  }

  lemma ProductIsNear(x: Float, y: Float, percent: nat, n: nat)
    requires Near(x, percent, 100, 1) && Near(y, n, 1, 1) && x.num >= 0 && y.num >= 0
    requires percent * n <= 0x200_0000_0000_0000
    ensures percent * n / 100 - 1 <= ToInt(Mul(x, y)) <= percent * n / 100 + 1
  {
    hide Mul, RoundNat;
    MulIsRoundNat(x, y);
    MulNear(x, percent, 100, 1, y, n, 1, 1);
    ToIntNear(Mul(x, y), percent * n, 100, 4);
  }

  lemma PercentageNear(percent: nat, n: nat)
    requires percent < TWO_53 && percent * n <= 0x200_0000_0000_0000
    ensures percent * n / 100 - 1 <= Percentage(percent, n) <= percent * n / 100 + 1
  {
    QuotientNear(percent, 100);
    RoundNatError(n, 1);
    hide RoundNat, Div, Mul, Near, ToInt;
    ProductIsNear(Div(OfInt(percent), OfInt(100)), OfInt(n), percent, n);
  }

  /** A percentage, of either sign and of a number of either sign, is off by at most one. */
  lemma PercentageIsNear(percent: int, n: int)
    requires -TWO_53 < percent < TWO_53 && -0x200_0000_0000_0000 <= percent * n <= 0x200_0000_0000_0000
    ensures Trunc(percent * n, 100) - 1 <= Percentage(percent, n) <= Trunc(percent * n, 100) + 1
  {
    var p, m := if percent < 0 then -percent else percent, if n < 0 then -n else n;
    Signs(percent, n);
    hide Percentage;
    PercentageNear(p, m);
    PercentageNeg(p, m);
    PercentageNeg(-p, m);
  }

  lemma Signs(a: int, b: int)
    ensures var p, q := if a < 0 then -a else a, if b < 0 then -b else b;
      a * b == if (a < 0) == (b < 0) then p * q else -(p * q)
    ensures (if a < 0 then -a else a) * (if b < 0 then -b else b) == if a * b < 0 then -(a * b) else a * b
  {
    if a < 0 {
      assert a * b == -(-a * b);
      if b < 0 { Products(0, -a, 0, -b); } else { Products(0, -a, 0, b); }
    } else {
      if b < 0 { Products(0, a, 0, -b); } else { Products(0, a, 0, b); }
    }
  }

  // ---- numbers beyond 64 bits ----

  lemma FarAway(num: nat, den: nat, n: nat, k: nat)
    requires den > 0 && n >= 100 * TWO_64 && k <= 100
    requires (TWO_53 - k) * (n * den) <= TWO_53 * (num * 100)
    ensures num / den >= TWO_63
  {
    MulMonotone(100 * TWO_64, n, den);
    MostOf(n * den, den, num, k);
    IntegerPart(num, den);
    if num / den < TWO_63 { MulMonotone(num / den + 1, TWO_63, den); }
  }

  lemma MostOf(a: nat, den: nat, num: nat, k: nat)
    requires 100 * TWO_64 * den <= a && k <= 100 && (TWO_53 - k) * a <= TWO_53 * (num * 100)
    ensures TWO_63 * den <= num
  {
    MulMonotone(TWO_53 - 100, TWO_53 - k, a);
  }

  lemma FarProduct(x: Float, y: Float, percent: nat, n: nat)
    requires Near(x, percent, 100, 1) && Near(y, n, 1, 1) && x.num >= 0 && y.num >= 0
    requires percent * n >= 100 * TWO_64
    ensures ToInt(Mul(x, y)) >= TWO_63
  {
    hide Mul, RoundNat;
    MulIsRoundNat(x, y);
    MulNear(x, percent, 100, 1, y, n, 1, 1);
    var r := Mul(x, y);
    FarAway(r.num, r.den, percent * n, 4);
  }

  /** A percentage that is far from fitting in 64 bits does not come out as if it did. */
  lemma FarPercentage(percent: nat, n: nat)
    requires percent < TWO_53 && percent * n >= 100 * TWO_64
    ensures Percentage(percent, n) >= TWO_63
  {
    QuotientNear(percent, 100);
    RoundNatError(n, 1);
    hide RoundNat, Div, Mul, Near, ToInt;
    FarProduct(Div(OfInt(percent), OfInt(100)), OfInt(n), percent, n);
  }
}
