/** Modular exponentiation in 32-bit unsigned arithmetic, and the base-2 pseudoprime test built on it. */
module Primality {

  import opened Words

  function Pow(a: nat, b: nat): nat {
    if b == 0 then 1 else a * Pow(a, b - 1)
  }

  function Product(x: nat, y: nat): nat {
    x * y
  }

  function Two(k: nat): (r: nat)
    ensures r > 0
  {
    if k == 0 then 1 else 2 * Two(k - 1)
  }

  // ---------- arithmetic ----------

  lemma {:induction false} PowSum(a: nat, b: nat, c: nat)
    ensures Pow(a, b + c) == Product(Pow(a, b), Pow(a, c))
  {
    if b > 0 {
      PowSum(a, b - 1, c);
      var x, y, z := Pow(a, b - 1), Pow(a, c), Pow(a, b - 1 + c);
      assert Pow(a, b) == a * x;
      assert b + c - 1 == b - 1 + c && Pow(a, b + c) == a * z;
      hide *;
      Associates(a, x, y, z);
    }
  }

  lemma Associates(a: nat, x: nat, y: nat, z: nat)
    requires z == Product(x, y)
    ensures a * z == Product(a * x, y)
  {
    assert a * (x * y) == (a * x) * y;
  }

  /** x and y leave the same remainder. */
  ghost predicate Congruent(x: int, y: int, n: nat)
    requires n > 0
  {
    exists q :: x == y + q * n
  }

  lemma RemainderCongruent(x: nat, n: nat)
    requires n > 0
    ensures Congruent(x % n, x, n)
  {
    assert x % n == x + (-(x / n)) * n;
  }

  lemma CongruentTransitive(x: int, y: int, z: int, n: nat)
    requires n > 0 && Congruent(x, y, n) && Congruent(y, z, n)
    ensures Congruent(x, z, n)
  {
    var q :| x == y + q * n;
    var r :| y == z + r * n;
    assert x == z + (q + r) * n;
  }

  lemma CongruentProduct(x: int, x': int, y: int, y': int, n: nat)
    requires n > 0 && Congruent(x, x', n) && Congruent(y, y', n)
    ensures Congruent(x * y, x' * y', n)
  {
    var q :| x == x' + q * n;
    var r :| y == y' + r * n;
    calc {
      x * y;
      (x' + q * n) * (y' + r * n);
      x' * y' + (x' * r + q * y' + q * n * r) * n;
    }
  }

  lemma CongruentRemainder(x: nat, y: nat, n: nat)
    requires n > 0 && Congruent(x, y, n) && x < n
    ensures y % n == x
  {
    var q :| x == y + q * n;
    var r := y % n;
    assert r == y - (y / n) * n;
    assert x - r == (q + y / n) * n;
    Small(x - r, q + y / n, n);
  }

  /** Only zero is both a multiple of n and smaller than n in absolute value. */
  lemma Small(x: int, q: int, n: int)
    requires 0 - n < x < n && x == q * n
    ensures x == 0 && q == 0
  {
    if q >= 1 {
      AtLeast(q, n);
    } else if q <= -1 {
      AtLeast(-q, n);
    }
  }

  lemma AtLeast(q: int, n: int)
    requires q >= 1 && n >= 0
    ensures q * n >= n
  {
  }

  // ---------- exponentiation ----------

  /** One multiplication as the machine does it. */
  function Times(x: nat, y: nat, n: nat): nat
    requires n > 0
  {
    (x * y) % WORD % n
  }

  function Div(b: nat, t: nat): nat
    requires t > 0
  {
    b / t
  }

  /** The bits of b from bit k up. */
  function Shifted(b: nat, k: nat): nat {
    Div(b, Two(k))
  }

  predicate Bit(b: nat, k: nat) {
    Shifted(b, k) % 2 == 1
  }

  /** The value of d after the loop has looked at the k highest of 32 bits of b. */
  function Machine(a: nat, b: nat, n: nat, k: nat): nat
    requires n > 0 && k <= 32
  {
    if k == 0 then 1
    else
      var d := Machine(a, b, n, k - 1);
      var square := Times(d, d, n);
      if Bit(b, 32 - k) then Times(square, a, n) else square
  }

  lemma TwoOf()
    ensures Two(31) == 0x8000_0000 && Two(32) == WORD
  {
    assert Two(8) == 256;
    assert Two(16) == 65536;
    assert Two(24) == 0x100_0000;
  }

  /** When the loop keeps to the power: no product reaches 2^32, or the modulus divides 2^32. */
  predicate Exact(a: nat, n: nat) {
    n > 0 && ((n <= 65536 && a <= 65536) || WORD % n == 0)
  }

  lemma SmallProducts(d: nat, a: nat)
    requires d <= 65535 && a <= 65536
    ensures d * d < WORD && d * a < WORD
  {
    Bounded(d, d, 65535, 65535);
    Bounded(d, a, 65535, 65536);
  }

  lemma Bounded(x: nat, y: nat, m: nat, n: nat)
    requires x <= m && y <= n
    ensures x * y <= m * n
  {
  }

  /** The products that the loop makes after k rounds fit into a word. */
  predicate Fit(a: nat, b: nat, n: nat, k: nat)
    requires n > 0 && k < 32
  {
    var d := Machine(a, b, n, k);
    d * d < WORD && Times(d, d, n) * a < WORD
  }

  /** No round overflows, for any base up to 2^16 and any exponent, exactly if the modulus is at most 2^16. */
  lemma NoOverflow(n: nat)
    requires n > 0
    ensures (forall a: nat, b: nat, k: nat :: a <= 65536 && b < WORD && k < 32 ==> Fit(a, b, n, k)) <==> n <= 65536
  {
    hide Two;
    if n <= 65536 {
      forall a: nat, b: nat, k: nat | a <= 65536 && b < WORD && k < 32 ensures Fit(a, b, n, k) {
        var d := Machine(a, b, n, k);
        assert d <= 65535;
        SmallProducts(d, a);
        SmallProducts(Times(d, d, n), a);
      }
    } else {
      hide Machine;
      FourSquares(5, n);
      assert Machine(2, Two(5), n, 31) == 65536;
      FiveBits();
      assert !Fit(2, 32, n, 31);
    }
  }

  lemma FiveBits()
    ensures Two(5) == 32
  {
  }

  /** Then the loop computes the power: the k highest bits of b are the exponent so far. */
  lemma {:induction false} MachinePower(a: nat, b: nat, n: nat, k: nat)
    requires Exact(a, n) && b < WORD && k <= 32
    ensures var d := Machine(a, b, n, k);
            (k > 0 ==> d < n) && (n <= 65536 ==> d <= 65535) && Congruent(d, Pow(a, Shifted(b, 32 - k)), n)
  {
    hide Two, Times, Congruent, Shifted, Bit, Pow;
    assert n > 0;
    hide Exact;
    if k == 0 {
      NothingYet(a, b, n);
    } else {
      MachinePower(a, b, n, k - 1);
      var d, half := Machine(a, b, n, k - 1), Shifted(b, 33 - k);
      var square := Squared(d, a, n, half);
      ShiftStep(b, 32 - k);
      if Bit(b, 32 - k) {
        Multiplied(square, a, n, half + half);
      }
    }
  }

  lemma NothingYet(a: nat, b: nat, n: nat)
    requires n > 0 && b < WORD
    ensures Congruent(1, Pow(a, Shifted(b, 32)), n)
  {
    TwoOf();
    assert 1 == Pow(a, 0) + 0 * n;
  }

  lemma Squared(d: nat, a: nat, n: nat, half: nat) returns (square: nat)
    requires Exact(a, n) && (n <= 65536 ==> d <= 65535) && Congruent(d, Pow(a, half), n)
    ensures square == Times(d, d, n) < n && Congruent(square, Pow(a, half + half), n)
  {
    hide Congruent, Times, Pow;
    if WORD % n != 0 { SmallProducts(d, a); }
    square := TimesExact(d, d, n, Pow(a, half), Pow(a, half));
    PowSum(a, half, half);
  }

  lemma Multiplied(square: nat, a: nat, n: nat, e: nat)
    requires Exact(a, n) && square < n && Congruent(square, Pow(a, e), n)
    ensures Times(square, a, n) < n && Congruent(Times(square, a, n), Pow(a, e + 1), n)
  {
    if WORD % n != 0 { SmallProducts(square, a); }
    assert a == a + 0 * n;
    assert Congruent(a, a, n);
    hide Congruent, Times;
    var _ := TimesExact(square, a, n, Pow(a, e), a);
    assert Pow(a, e + 1) == Pow(a, e) * a;
  }

  lemma TimesExact(x: nat, y: nat, n: nat, x': nat, y': nat) returns (r: nat)
    requires n > 0 && (x * y < WORD || WORD % n == 0) && Congruent(x, x', n) && Congruent(y, y', n)
    ensures r == Times(x, y, n) < n && Congruent(r, x' * y', n)
  {
    r := Times(x, y, n);
    WrapCongruent(x * y, n);
    hide Congruent;
    RemainderCongruent(x * y % WORD, n);
    CongruentTransitive(r, x * y % WORD, x * y, n);
    CongruentProduct(x, x', y, y', n);
    CongruentTransitive(r, x * y, x' * y', n);
  }

  /** Wrapping around at 2^32 is harmless for a modulus that divides 2^32. */
  lemma WrapCongruent(x: nat, n: nat)
    requires n > 0 && (x < WORD || WORD % n == 0)
    ensures Congruent(x % WORD, x, n)
  {
    if x < WORD {
      assert x % WORD == x + 0 * n;
    } else {
      var q, m := x / WORD, WORD / n;
      assert WORD == m * n;
      assert x % WORD == x - q * WORD;
      assert q * (m * n) == (q * m) * n;
      assert x % WORD == x + (-(q * m)) * n;
    }
  }

  lemma ShiftStep(b: nat, k: nat)
    ensures Shifted(b, k) == 2 * Shifted(b, k + 1) + if Bit(b, k) then 1 else 0
  {
    var t := Two(k);
    assert Two(k + 1) == 2 * t;
    hide Two, Div;
    var q, r := Divide(b, 2 * t);
    assert q * (2 * t) == (2 * q) * t;
    if r < t {
      Quotient(b, t, 2 * q, r);
    } else {
      assert (2 * q + 1) * t == (2 * q) * t + t;
      Quotient(b, t, 2 * q + 1, r - t);
    }
  }

  lemma Divide(b: nat, t: nat) returns (q: nat, r: nat)
    requires t > 0
    ensures q == Div(b, t) && r < t && b == q * t + r
  {
    q, r := b / t, b % t;
  }

  lemma Quotient(b: nat, t: nat, q: nat, r: nat)
    requires r < t && b == q * t + r
    ensures Div(b, t) == q
  {
    hide Div;
    var p, s := Divide(b, t);
    assert r - s == (p - q) * t;
    Small(r - s, p - q, t);
  }

  lemma ExponentiationCorrect(a: nat, b: nat, n: nat)
    requires Exact(a, n) && b < WORD
    ensures Machine(a, b, n, 32) == Pow(a, b) % n
  {
    MachinePower(a, b, n, 32);
    assert Two(0) == 1 && Shifted(b, 0) == b;
    hide Pow, Machine;
    CongruentRemainder(Machine(a, b, n, 32), Pow(a, b), n);
  }

  /** modular_exponentiation: what 32 rounds of the loop give, and what that is within its bounds */
  method ModularExponentiation(a: nat, b: nat, n: nat) returns (d: nat)
    requires n > 0 && b < WORD
    ensures d == Machine(a, b, n, 32)
    ensures (n <= 65536 && a <= 65536) || WORD % n == 0 ==> d == Pow(a, b) % n
  {
    d := 1;
    var flag := 0x8000_0000;
    ghost var k := 0;
    assert flag == Two(31) by { TwoOf(); }
    while flag > 0
      invariant 0 <= k <= 32 && flag == (if k == 32 then 0 else Two(31 - k))
      invariant d == Machine(a, b, n, k)
      decreases 32 - k
    {
      d := Times(d, d, n);
      assert flag == Two(31 - k) && Bit(b, 31 - k) == (b / flag % 2 == 1);
      if b / flag % 2 == 1 {
        d := Times(d, a, n);
      }
      flag := flag / 2;
      k := k + 1;
    }
    if Exact(a, n) { ExponentiationCorrect(a, b, n); }
  }

  // ---------- Fermat's little theorem for base 2 ----------

  ghost predicate Divides(n: nat, x: int) {
    exists q: int :: x == n * q
  }

  ghost predicate Prime(p: nat) {
    p > 1 && forall d: nat :: 1 < d < p ==> !Divides(d, p)
  }

  function Choose(n: nat, k: nat): nat {
    if k == 0 then 1 else if n == 0 then 0 else Choose(n - 1, k - 1) + Choose(n - 1, k)
  }

  /** k * C(n, k) == n * C(n - 1, k - 1) */
  lemma {:induction false} Absorption(n: nat, k: nat)
    requires n > 0 && k > 0
    ensures k * Choose(n, k) == n * Choose(n - 1, k - 1)
    decreases n, k
  {
    if n == 1 {
      if k > 1 { NoChoice(1, k); NoChoice(0, k - 1); } else { NoChoice(0, 1); }
    } else if k == 1 {
      Absorption(n - 1, 1);
    } else {
      Absorption(n - 1, k - 1);
      Absorption(n - 1, k);
      AbsorptionStep(n, k, Choose(n - 2, k - 2), Choose(n - 2, k - 1), Choose(n - 1, k));
    }
  }

  lemma AbsorptionStep(n: nat, k: nat, x: nat, w: nat, z: nat)
    requires (k - 1) * (x + w) == (n - 1) * x && k * z == (n - 1) * w
    ensures k * (x + w + z) == n * (x + w)
  {
    calc {
      k * (x + w + z);
      (k - 1) * (x + w) + (x + w) + k * z;
      (n - 1) * x + (x + w) + (n - 1) * w;
      n * (x + w);
    }
  }

  lemma {:induction false} NoChoice(n: nat, k: nat)
    requires k > n
    ensures Choose(n, k) == 0
  {
    if n > 0 { NoChoice(n - 1, k - 1); NoChoice(n - 1, k); }
  }

  /** C(n, 0) + ... + C(n, m) */
  function RowSum(n: nat, m: nat): nat {
    if m == 0 then 1 else RowSum(n, m - 1) + Choose(n, m)
  }

  lemma {:induction false} RowSumStep(n: nat, m: nat)
    requires n > 0 && m > 0
    ensures RowSum(n, m) == RowSum(n - 1, m) + RowSum(n - 1, m - 1)
  {
    if m > 1 {
      RowSumStep(n, m - 1);
    } else {
      assert RowSum(n, 0) == RowSum(n - 1, 0) == Choose(n - 1, 0) == 1;
    }
  }

  lemma {:induction false} RowSumIsPower(n: nat)
    ensures RowSum(n, n) == Pow(2, n)
  {
    if n > 0 {
      RowSumIsPower(n - 1);
      RowSumStep(n, n);
      NoChoice(n - 1, n);
    }
  }

  /** Euclid's lemma, by replacing one factor by the remainder that it leaves in p. */
  lemma {:induction false} Euclid(p: nat, a: nat, b: int)
    requires Prime(p) && 0 < a < p && Divides(p, a * b)
    ensures Divides(p, b)
    decreases a
  {
    if a == 1 {
      assert a * b == b;
    } else {
      var q, r := p / a, p % a;
      assert p == a * q + r;
      if r == 0 { assert Divides(a, p); }
      var k: int :| a * b == p * k;
      calc {
        r * b;
        (p - a * q) * b;
        p * b - q * (a * b);
        p * b - q * (p * k);
        p * (b - q * k);
      }
      assert Divides(p, r * b);
      Euclid(p, r, b);
    }
  }

  /** A prime divides the inner binomial coefficients of its row. */
  lemma InnerCoefficient(p: nat, k: nat)
    requires Prime(p) && 0 < k < p
    ensures Divides(p, Choose(p, k))
  {
    Absorption(p, k);
    Euclid(p, k, Choose(p, k));
  }

  lemma {:induction false} InnerSum(p: nat, m: nat)
    requires Prime(p) && m < p
    ensures Divides(p, RowSum(p, m) - 1)
  {
    if m == 0 {
      assert 0 == p * 0;
    } else {
      InnerSum(p, m - 1);
      InnerCoefficient(p, m);
      var q: int :| RowSum(p, m - 1) - 1 == p * q;
      var r: int :| Choose(p, m) == p * r;
      assert RowSum(p, m) - 1 == p * (q + r);
    }
  }

  /** Every odd prime divides 2^(p-1) - 1. */
  lemma Fermat(p: nat)
    requires Prime(p) && p % 2 == 1
    ensures Pow(2, p - 1) % p == 1
  {
    RowSumIsPower(p);
    InnerSum(p, p - 1);
    Diagonal(p);
    var x := Pow(2, p - 1);
    assert RowSum(p, p) == RowSum(p, p - 1) + 1;
    assert Pow(2, p) == 2 * x;
    assert Divides(p, 2 * (x - 1));
    Euclid(p, 2, x - 1);
    var q: int :| x - 1 == p * q;
    assert 1 == x + (-q) * p;
    CongruentRemainder(1, x, p);
  }

  lemma {:induction false} Diagonal(n: nat)
    ensures Choose(n, n) == 1
  {
    if n > 0 { Diagonal(n - 1); NoChoice(n - 1, n); }
  }

  // ---------- the test ----------

  /**
   * pseudoprime: one and the even numbers fail, among them the prime 2. Up to 2^16 the answer is the remainder of
   * 2^(n-1), and every odd prime passes.
   */
  method Pseudoprime(n: nat) returns (passes: bool)
    requires 0 < n < WORD
    ensures passes <==> Machine(2, n - 1, n, 32) == 1
    ensures n <= 65536 ==> (passes <==> Pow(2, n - 1) % n == 1)
    ensures n <= 65536 && n % 2 == 1 && Prime(n) ==> passes
    ensures n == 1 || n % 2 == 0 ==> !passes
  {
    var d := ModularExponentiation(2, n - 1, n);
    passes := d == 1;
    hide Machine;
    if n <= 65536 && n % 2 == 1 && Prime(n) { Fermat(n); }
    if n == 1 || n % 2 == 0 { Rejected(n); }
  }

  /** One round, in the words of the code. */
  lemma Round(a: nat, b: nat, n: nat, k: nat, d: nat)
    requires n > 0 && 0 < k <= 32 && Machine(a, b, n, k - 1) == d
    ensures Machine(a, b, n, k) == if Bit(b, 32 - k) then Times(Times(d, d, n), a, n) else Times(d, d, n)
  {
    hide Bit, Times;
  }

  /** The last round for an even number doubles, and what is left of an even number is even. */
  lemma Rejected(n: nat)
    requires 0 < n < WORD && (n == 1 || n % 2 == 0)
    ensures Machine(2, n - 1, n, 32) != 1
  {
    hide *;
    var d := Machine(2, n - 1, n, 31);
    var square := Times(d, d, n);
    Round(2, n - 1, n, 32, d);
    if n == 1 {
      RemainderOfOne(d, d);
      RemainderOfOne(square, 2);
    } else {
      LowestBit(n - 1);
      DoubledIsEven(square, n);
    }
  }

  lemma RemainderOfOne(x: nat, y: nat)
    ensures Times(x, y, 1) == 0
  {
  }

  lemma LowestBit(b: nat)
    requires b % 2 == 1
    ensures Bit(b, 0)
  {
    assert Two(0) == 1 && Shifted(b, 0) == b;
  }

  lemma DoubledIsEven(square: nat, n: nat)
    requires n > 0 && n % 2 == 0
    ensures Times(square, 2, n) % 2 == 0
  {
    assert square * 2 % WORD == 2 * (square % 0x8000_0000);
    EvenRemainder(square % 0x8000_0000, square * 2 % WORD, n / 2, n);
  }

  lemma EvenRemainder(h: nat, x: nat, m: nat, n: nat)
    requires n > 0 && x == 2 * h && n == 2 * m
    ensures x % n % 2 == 0
  {
    var q := x / n;
    assert x == q * n + x % n;
    assert q * n == 2 * (q * m);
  }

  // ---------- where the arithmetic ends ----------

  /**
   * The loop gives the power for every base up to 2^16 and every exponent exactly if the modulus is at most 2^16 or
   * divides 2^32. Otherwise it already misses a power of two, the only base that is ever used.
   */
  lemma BoundIsExact(n: nat)
    requires 0 < n < WORD
    ensures (forall a: nat, b: nat :: a <= 65536 && b < WORD ==> Machine(a, b, n, 32) == Pow(a, b) % n) <==>
              n <= 65536 || WORD % n == 0
    ensures (forall b: nat :: b < WORD ==> Machine(2, b, n, 32) == Pow(2, b) % n) <==> n <= 65536 || WORD % n == 0
  {
    if n <= 65536 || WORD % n == 0 {
      forall a: nat, b: nat | a <= 65536 && b < WORD
        ensures Machine(a, b, n, 32) == Pow(a, b) % n
      {
        ExponentiationCorrect(a, b, n);
      }
    } else {
      WrapsToZero(5, n);
      PowIsTwo(32);
      TwoOf();
      assert Two(5) == 32;
      hide Machine, Two;
      assert Machine(2, 32, n, 32) == 0 && Pow(2, 32) % n != 0;
    }
  }

  /** 65537 is prime, 2^65536 leaves one, and the test rejects it: the square of 2^16 has wrapped around to zero. */
  method RejectsPrime() returns (passes: bool)
    ensures Prime(65537) && 65537 % 2 == 1 && Pow(2, 65536) % 65537 == 1
    ensures !passes
  {
    hide Machine, Two;
    FermatPrime();
    Fermat(65537);
    passes := Pseudoprime(65537);
    PowersOfTwo();
    WrapsToZero(16, 65537);
  }

  lemma {:induction false} PowIsTwo(k: nat)
    ensures Pow(2, k) == Two(k)
  {
    if k > 0 { PowIsTwo(k - 1); }
  }

  /** With exponent 2^j the loop squares 2, 4, 16, 256 and 65536, and the last square is 2^32. */
  lemma WrapsToZero(j: nat, n: nat)
    requires 5 <= j <= 31 && n > 65536
    ensures Machine(2, Two(j), n, 32) == 0
  {
    hide Two, Machine, Times, Bit;
    FourSquares(j, n);
    NextRound(j, n, 37 - j, 65536, 0);
    StaysZero(j, n, 32);
  }

  lemma FourSquares(j: nat, n: nat)
    requires 5 <= j <= 31 && n > 65536
    ensures Machine(2, Two(j), n, 36 - j) == 65536
  {
    hide Two, Machine, Times, Bit;
    LeadingZeros(j, n, 31 - j);
    NextRound(j, n, 32 - j, 1, 1);
    NextRound(j, n, 33 - j, 2, 4);
    NextRound(j, n, 34 - j, 4, 16);
    NextRound(j, n, 35 - j, 16, 256);
    NextRound(j, n, 36 - j, 256, 65536);
  }

  /** Only one bit of 2^j is set. */
  lemma OneBit(j: nat, i: nat)
    ensures Bit(Two(j), i) <==> i == j
  {
    hide Two, Div;
    if i <= j {
      TwoSum(i, j - i);
      Quotient(Two(j), Two(i), Two(j - i), 0);
      TwoParity(j - i);
    } else {
      TwoGrows(j, i);
      var zero, t := 0, Two(i);
      assert zero * t == 0;
      Quotient(Two(j), t, zero, Two(j));
    }
  }

  lemma TwoParity(j: nat)
    ensures Two(j) % 2 == 1 <==> j == 0
  {
  }

  lemma {:induction false} TwoSum(i: nat, j: nat)
    ensures Two(i + j) == Product(Two(i), Two(j))
  {
    if i > 0 {
      TwoSum(i - 1, j);
      var x, y, z := Two(i - 1), Two(j), Two(i - 1 + j);
      assert Two(i) == 2 * x;
      assert i + j - 1 == i - 1 + j && Two(i + j) == 2 * z;
      hide *;
      Associates(2, x, y, z);
    }
  }

  lemma {:induction false} TwoGrows(j: nat, i: nat)
    requires j < i
    ensures Two(j) < Two(i)
  {
    if j + 1 < i { TwoGrows(j, i - 1); }
  }

  /** One more round with exponent 2^j; from 2^0, the round of its only bit multiplies as well. */
  lemma NextRound(j: nat, n: nat, k: nat, d: nat, square: nat)
    requires 0 < k <= 32 && j <= 31 && n > 65536 && Machine(2, Two(j), n, k - 1) == d && square == d * d % WORD < n
    requires k == 32 - j ==> d == 1
    ensures Machine(2, Two(j), n, k) == if k == 32 - j then 2 else square
  {
    hide Two, Bit, Machine, Div, Shifted;
    OneBit(j, 32 - k);
    Round(2, Two(j), n, k, d);
    Remains(square, n);
    if k == 32 - j { Remains(2, n); }
  }

  lemma Remains(x: nat, n: nat)
    requires x < n
    ensures x % n == x
  {
  }

  lemma {:induction false} LeadingZeros(j: nat, n: nat, k: nat)
    requires k + j <= 31 && n > 65536
    ensures Machine(2, Two(j), n, k) == 1
  {
    hide Two;
    if k > 0 {
      hide Machine;
      LeadingZeros(j, n, k - 1);
      NextRound(j, n, k, 1, 1);
    }
  }

  lemma {:induction false} StaysZero(j: nat, n: nat, k: nat)
    requires 5 <= j <= 31 && n > 65536 && 37 - j <= k <= 32 && Machine(2, Two(j), n, 37 - j) == 0
    ensures Machine(2, Two(j), n, k) == 0
  {
    hide Two, Machine;
    if k > 37 - j {
      StaysZero(j, n, k - 1);
      NextRound(j, n, k, 0, 0);
    }
  }

  lemma PowersOfTwo()
    ensures Two(16) == 65536
  {
    assert Two(8) == 256;
  }

  // ---------- the prime 65537 ----------

  lemma CongruentBoth(x: int, y: int, z: int, n: nat)
    requires n > 0 && Congruent(x, z, n) && Congruent(y, z, n)
    ensures Congruent(x, y, n)
  {
    var q :| x == z + q * n;
    var r :| y == z + r * n;
    assert x == y + (q - r) * n;
  }

  /** A power of two that leaves one still does when its exponent is multiplied. */
  lemma {:induction false} PowerOfOne(q: nat, v: nat, m: nat)
    requires q > 0 && Congruent(1, Pow(2, v), q)
    ensures Congruent(1, Pow(2, v * m), q)
  {
    if m == 0 {
      assert Pow(2, v * m) == 1;
      assert 1 == 1 + 0 * q;
    } else {
      PowerOfOne(q, v, m - 1);
      assert v * m == v + v * (m - 1);
      CongruentSum(q, v, v * (m - 1), 1, 1);
    }
  }

  lemma CongruentSum(q: nat, b: nat, c: nat, x: int, y: int)
    requires q > 0 && Congruent(x, Pow(2, b), q) && Congruent(y, Pow(2, c), q)
    ensures Congruent(x * y, Pow(2, b + c), q)
  {
    PowSum(2, b, c);
    hide Pow, Congruent;
    CongruentProduct(x, Pow(2, b), y, Pow(2, c), q);
  }

  /** For a divisor of 2^16 + 1, 2^16 is minus one and 2^32 is one. */
  lemma MinusOne(q: nat)
    requires q > 0 && Divides(q, 65537)
    ensures Congruent(-1, Pow(2, 16), q) && Congruent(1, Pow(2, 32), q)
  {
    assert Pow(2, 8) == 256;
    assert Pow(2, 16) == 65536;
    var k: int :| 65537 == q * k;
    assert -1 == 65536 + (-k) * q;
    hide Pow;
    CongruentSum(q, 16, 16, -1, -1);
  }

  /** An exponent with a multiple of the form 32t + 16 is not one of a power that leaves one. */
  lemma NotOne(q: nat, v: nat, g: nat, t: nat)
    requires q > 2 && Divides(q, 65537) && v * g == 32 * t + 16
    ensures !Congruent(1, Pow(2, v), q)
  {
    hide Pow, Divides;
    if Congruent(1, Pow(2, v), q) {
      MinusOne(q);
      PowerOfOne(q, v, g);
      PowerOfOne(q, 32, t);
      CongruentSum(q, 32 * t, 16, 1, -1);
      CongruentBoth(1, -1, Pow(2, 32 * t + 16), q);
      var c :| 1 == -1 + c * q;
      Small(2, c, q);
      assert false;
    }
  }

  /** What is left of q - 1 after whole rounds of 32 is an exponent of a power that leaves one. */
  lemma RestIsOne(q: nat, u: nat, v: nat)
    requires Prime(q) && q % 2 == 1 && Divides(q, 65537) && q - 1 == 32 * u + v
    ensures Congruent(1, Pow(2, v), q)
  {
    Fermat(q);
    hide *;
    MinusOne(q);
    RemainderCongruent(Pow(2, q - 1), q);
    PowerOfOne(q, 32, u);
    Self(Pow(2, v), q);
    CongruentSum(q, 32 * u, v, 1, Pow(2, v));
    CongruentBoth(1, Pow(2, v), Pow(2, q - 1), q);
  }

  /** Every prime factor of 2^16 + 1 leaves one when divided by 32. */
  lemma FactorForm(q: nat)
    requires Prime(q) && Divides(q, 65537)
    ensures q % 32 == 1
  {
    PrimeAboveOne(q);
    hide *;
    OddFactor(q);
    var u, v := (q - 1) / 32, (q - 1) % 32;
    RestIsOne(q, u, v);
    if v > 0 { NeverOne(q, v); }
  }

  lemma NeverOne(q: nat, v: nat)
    requires q > 2 && Divides(q, 65537) && 0 < v < 32
    ensures !Congruent(1, Pow(2, v), q)
  {
    hide *;
    var g, t := Multiplier(v);
    NotOne(q, v, g, t);
  }

  lemma Multiplier(v: nat) returns (g: nat, t: nat)
    requires 0 < v < 32
    ensures v * g == 32 * t + 16
  {
    if v % 2 == 1 {
      g, t := 16, v / 2;
    } else if v % 4 == 2 {
      g, t := 8, v / 4;
    } else if v % 8 == 4 {
      g, t := 4, v / 8;
    } else if v % 16 == 8 {
      g, t := 2, v / 16;
    } else {
      g, t := 1, 0;
    }
  }

  lemma Self(x: int, n: nat)
    requires n > 0
    ensures Congruent(x, x, n)
  {
    assert x == x + 0 * n;
  }

  lemma OddFactor(q: nat)
    requires Prime(q) && Divides(q, 65537)
    ensures q % 2 == 1
  {
    var k: int :| 65537 == q * k;
    var h := q / 2;
    assert q % 2 == 0 ==> q * k == 2 * (h * k);
  }

  lemma {:induction false} PrimeFactor(d: nat, n: int) returns (q: nat)
    requires d > 1 && Divides(d, n)
    ensures Prime(q) && q <= d && Divides(q, n)
  {
    if Prime(d) {
      q := d;
    } else {
      var e: nat :| 1 < e < d && Divides(e, d);
      var k: int :| d == e * k;
      var m: int :| n == d * m;
      assert n == e * (k * m);
      q := PrimeFactor(e, n);
    }
  }

  /** A divisor of 65537 other than one and itself has a prime factor below 256, and those of its form do not divide. */
  lemma FermatPrime()
    ensures Prime(65537)
  {
    hide Prime;
    forall d: nat | 1 < d < 65537
      ensures !Divides(d, 65537)
    {
      if Divides(d, 65537) {
        var c: int :| 65537 == d * c;
        Cofactor(65537, d, c);
        assert 65537 == c * d;
        var q := PrimeFactor(if d < c then d else c, 65537);
        PrimeAboveOne(q);
        FactorForm(q);
        NoCandidate(q);
        assert false;
      }
    }
    PrimeIf(65537);
  }

  lemma PrimeAboveOne(q: nat)
    requires Prime(q)
    ensures q > 1
  {
  }

  lemma PrimeIf(n: nat)
    requires n > 1 && forall d: nat :: 1 < d < n ==> !Divides(d, n)
    ensures Prime(n)
  {
  }

  lemma Cofactor(n: nat, d: nat, c: int)
    requires 1 < d < n < 257 * 257 && n == d * c
    ensures 1 < c && (d <= 256 || c <= 256)
  {
    assert c <= 0 ==> d * c <= 0;
    if d > 256 && c > 256 { Bounded(257, 257, d, c); }
  }

  lemma NoCandidate(q: nat)
    requires 1 < q <= 256 && q % 32 == 1
    ensures !Divides(q, 65537)
  {
    hide Divides;
    Candidates(q / 32);
    if Divides(q, 65537) { NothingLeft(65537, q); }
  }

  lemma Candidates(u: nat)
    requires 1 <= u <= 7
    ensures 65537 % (32 * u + 1) != 0
  {
    assert 65537 % 33 == 32 && 65537 % 65 == 17 && 65537 % 97 == 62 && 65537 % 129 == 5;
    assert 65537 % 161 == 10 && 65537 % 193 == 110 && 65537 % 225 == 62;
    assert u == 1 || u == 2 || u == 3 || u == 4 || u == 5 || u == 6 || u == 7;
  }

  lemma NothingLeft(n: nat, d: nat)
    requires d > 0 && Divides(d, n)
    ensures n % d == 0
  {
    var q: int :| n == d * q;
    var r := n % d;
    assert r - 0 == (q - n / d) * d;
    Small(r, q - n / d, d);
  }
}
