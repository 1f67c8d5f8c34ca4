/** The linear congruential generator: the class, and the number theory behind its period. */
module LcgPeriod {

  const A := 1103515245
  const C := 12345
  const M := 0x1_0000_0000

  /** 2^k. */
  function Pow2(k: nat): (p: nat)
    ensures p > 0
  {
    if k == 0 then 1 else 2 * Pow2(k - 1)
  }

  /** n steps of x := A * x + C over the integers, with no reduction. */
  function Steps(n: nat, x: int): int {
    if n == 0 then x else Steps(n - 1, A * x + C)
  }

  /** n steps of the generator's state map. */
  function State(n: nat, x: int): int {
    if n == 0 then x else State(n - 1, (A * x + C) % M)
  }

  ghost predicate Divides(m: int, z: int) {
    exists q: int :: z == m * q
  }

  predicate Odd(x: int) {
    x % 2 == 1
  }

  // ----- n steps are an affine map -----

  function Mul(n: nat): int {
    if n == 0 then 1 else A * Mul(n - 1)
  }

  function Add(n: nat): int {
    if n == 0 then 0 else Mul(n - 1) * C + Add(n - 1)
  }

  lemma TimesAssoc(a: int, b: int, c: int)
    ensures a * (b * c) == (a * b) * c
  {
  }

  lemma TimesLinear(m: int, a: int, x: int, c: int)
    ensures m * (a * x + c) == (a * m) * x + m * c
  {
    TimesAssoc(m, a, x);
  }

  lemma {:induction false} StepsAffine(n: nat, x: int)
    ensures Steps(n, x) == Mul(n) * x + Add(n)
  {
    if n > 0 {
      StepsAffine(n - 1, A * x + C);
      TimesLinear(Mul(n - 1), A, x, C);
    }
  }

  lemma {:induction false} StepsAdd(m: nat, n: nat, x: int)
    ensures Steps(m + n, x) == Steps(n, Steps(m, x))
  {
    if m > 0 {
      StepsAdd(m - 1, n, A * x + C);
    }
  }

  lemma AffineAdd(m: nat, n: nat)
    ensures Mul(m + n) == Mul(m) * Mul(n)
    ensures Add(m + n) == Mul(n) * Add(m) + Add(n)
  {
    hide Steps, Mul, Add;
    StepsAdd(m, n, 0);
    StepsAdd(m, n, 1);
    StepsAffine(m + n, 0);
    StepsAffine(m + n, 1);
    StepsAffine(m, 0);
    StepsAffine(m, 1);
    StepsAffine(n, Steps(m, 0));
    StepsAffine(n, Steps(m, 1));
    assert Mul(n) * (Mul(m) + Add(m)) == Mul(n) * Mul(m) + Mul(n) * Add(m);
  }

  /** 2^k steps multiply by 1 modulo 2^(k+2) and add an odd multiple of 2^k. */
  lemma {:induction false} DoublingSteps(k: nat) returns (u: int, v: int)
    ensures Mul(Pow2(k)) == 1 + 4 * Pow2(k) * u
    ensures Add(Pow2(k)) == Pow2(k) * v && Odd(v)
  {
    if k == 0 {
      assert Mul(1) == A * Mul(0) && Add(1) == Mul(0) * C + Add(0);
      u, v := A / 4, C;
    } else {
      var p := Pow2(k - 1);
      var u0, v0 := DoublingSteps(k - 1);
      AffineAdd(p, p);
      u := u0 + 2 * p * u0 * u0;
      v := (1 + 2 * (p * u0)) * v0;
      SquareStep(p, u0);
      SumStep(p, u0, v0);
      OddTimes(p * u0, v0);
    }
  }

  lemma SquareStep(p: int, u: int)
    ensures (1 + 4 * p * u) * (1 + 4 * p * u) == 1 + 4 * (2 * p) * (u + 2 * p * u * u)
  {
    var w := p * u;
    assert 4 * p * u == 4 * w;
    assert (2 * p) * (u + 2 * p * u * u) == 2 * w + 4 * (w * w) by {
      assert p * (2 * p * u * u) == 2 * (w * w);
    }
  }

  lemma SumStep(p: int, u: int, v: int)
    ensures (1 + 4 * p * u) * (p * v) + p * v == 2 * p * ((1 + 2 * (p * u)) * v)
  {
    var w, x := p * u, p * v;
    assert 4 * p * u == 4 * w;
    assert (1 + 4 * w) * x + x == 2 * x + 4 * (w * x);
    assert 2 * p * ((1 + 2 * w) * v) == 2 * x + 4 * (w * x) by {
      assert (1 + 2 * w) * v == v + 2 * (w * v);
      assert p * (w * v) == w * x;
    }
  }

  lemma OddTimes(t: int, v: int)
    requires Odd(v)
    ensures Odd((1 + 2 * t) * v)
  {
    OneAndTwice(t, v);
    OddAndEven(v, t * v);
  }

  lemma OneAndTwice(t: int, v: int)
    ensures (1 + 2 * t) * v == v + 2 * (t * v)
  {
  }

  lemma OddAndEven(v: int, w: int)
    requires Odd(v)
    ensures Odd(v + 2 * w)
  {
  }

  /** Taking 2^k steps moves every state by an odd multiple of 2^k. */
  lemma Jump(k: nat, x: int) returns (v: int)
    ensures Steps(Pow2(k), x) == x + Pow2(k) * v && Odd(v)
  {
    var u, w := DoublingSteps(k);
    StepsAffine(Pow2(k), x);
    v := JumpSize(Pow2(k), u, w, x);
  }

  lemma JumpSize(p: int, u: int, w: int, x: int) returns (v: int)
    requires Odd(w)
    ensures (1 + 4 * p * u) * x + p * w == x + p * v && Odd(v)
  {
    var m, n := p * u, u * x;
    v := 4 * n + w;
    assert 4 * p * u == 4 * m;
    assert (1 + 4 * m) * x == x + 4 * (m * x);
    assert m * x == p * n;
    assert p * v == 4 * (p * n) + p * w;
  }

  /** q jumps of 2^k move every state by 2^k times a number of the parity of q. */
  lemma {:induction false} Jumps(k: nat, q: nat, x: int) returns (v: int)
    ensures Steps(Pow2(k) * q, x) == x + Pow2(k) * v && v % 2 == q % 2
  {
    hide Pow2;
    var p := Pow2(k);
    if q == 0 {
      v := 0;
      assert p * q == 0 && Steps(0, x) == x;
    } else {
      hide Steps;
      var v0 := Jumps(k, q - 1, x);
      var w := Jump(k, x + p * v0);
      OneMoreTimes(p, q);
      StepsAdd(p * (q - 1), p, x);
      v := v0 + w;
      Distribute(p, v0, w);
    }
  }

  lemma OneMoreTimes(p: nat, q: nat)
    requires q > 0
    ensures p * (q - 1) >= 0 && p * q == p * (q - 1) + p
  {
  }

  // ----- The period modulo every power of two -----

  lemma NonNegativeFactor(p: int, q: int)
    requires p > 0 && p * q >= 0
    ensures q >= 0
  {
  }

  lemma HalfDivides(p: int, d: int)
    requires p > 0
    ensures Divides(2 * p, p * d) <==> d % 2 == 0
  {
    if d % 2 == 0 {
      assert p * d == (2 * p) * (d / 2);
    }
    if q :| p * d == (2 * p) * q {
      assert p * (d - 2 * q) == 0;
      assert d == 2 * q;
    }
  }

  lemma DividesHalf(p: int, z: int)
    requires Divides(2 * p, z)
    ensures Divides(p, z)
  {
    var q :| z == (2 * p) * q;
    assert z == p * (2 * q);
  }

  /** Missing the target by an odd multiple of 2^k, it is met 2^k steps later. */
  lemma MeetsLater(k: nat, x: int, y: int, n: nat, d: int) returns (later: nat)
    requires Steps(n, x) - y == Pow2(k) * d && Odd(d)
    ensures later == n + Pow2(k) && Divides(2 * Pow2(k), Steps(later, x) - y)
  {
    hide Pow2, Steps;
    var p := Pow2(k);
    var v := Jump(k, Steps(n, x));
    StepsAdd(n, p, x);
    later := n + p;
    Distribute(p, d, v);
    HalfDivides(p, d + v);
  }

  lemma Distribute(p: int, d: int, v: int)
    ensures p * d + p * v == p * (d + v)
  {
  }

  /** Every target is met modulo 2^k within the first 2^k states. */
  lemma {:induction false} Meets(k: nat, x: int, y: int) returns (n: nat)
    ensures n < Pow2(k) && Divides(Pow2(k), Steps(n, x) - y)
  {
    if k == 0 {
      n := 0;
      assert x - y == 1 * (x - y);
    } else {
      var p := Pow2(k - 1);
      n := Meets(k - 1, x, y);
      assert Divides(p, Steps(n, x) - y);
      var d: int :| Steps(n, x) - y == p * d;
      HalfDivides(p, d);
      if d % 2 == 1 {
        n := MeetsLater(k - 1, x, y, n, d);
      }
    }
  }

  /** The state comes back modulo 2^k after n steps exactly when 2^k divides n. */
  lemma {:induction false} ComesBack(k: nat, n: nat, x: int)
    ensures Divides(Pow2(k), Steps(n, x) - x) <==> Divides(Pow2(k), n)
  {
    if k == 0 {
      assert Steps(n, x) - x == 1 * (Steps(n, x) - x);
      assert n == 1 * n;
    } else {
      var p := Pow2(k - 1);
      ComesBack(k - 1, n, x);
      if Divides(p, n) {
        var q :| n == p * q;
        NonNegativeFactor(p, q);
        var v := Jumps(k - 1, q, x);
        HalfDivides(p, v);
        HalfDivides(p, q);
      } else {
        if Divides(2 * p, n) { DividesHalf(p, n); }
        if Divides(2 * p, Steps(n, x) - x) { DividesHalf(p, Steps(n, x) - x); }
      }
    }
  }

  // ----- The 32-bit generator -----

  lemma WordSize()
    ensures Pow2(32) == M && Pow2(31) == 0x8000_0000
  {
    assert Pow2(8) == 0x100;
    assert Pow2(16) == 0x1_0000;
    assert Pow2(24) == 0x100_0000;
  }

  lemma ModOfMultiple(x: int, q: int)
    ensures (x + M * q) % M == x % M
  {
  }

  /** Multiples of the word in the starting point come out as multiples of it. */
  lemma StepsOfMultiple(n: nat, r: int, q: int)
    ensures Steps(n, r + M * q) == Steps(n, r) + M * (Mul(n) * q)
  {
    hide Steps, Mul, Add;
    StepsAffine(n, r + M * q);
    StepsAffine(n, r);
    TimesLinear(Mul(n), M, q, r);
    TimesAssoc(M, Mul(n), q);
  }

  lemma {:induction false} StateIsSteps(n: nat, x: int)
    requires 0 <= x < M
    ensures State(n, x) == Steps(n, x) % M
  {
    if n > 0 {
      hide Mul, Add;
      var y := A * x + C;
      StateIsSteps(n - 1, y % M);
      StepsOfMultiple(n - 1, y % M, y / M);
      ModOfMultiple(Steps(n - 1, y % M), Mul(n - 1) * (y / M));
    }
  }

  lemma SameResidue(a: int, b: int)
    ensures Divides(M, a - b) <==> a % M == b % M
  {
    if a % M == b % M {
      assert a - b == M * (a / M - b / M);
    }
    if q :| a - b == M * q {
      ModOfMultiple(b, q);
    }
  }

  lemma {:induction false} StateBounds(n: nat, x: int)
    requires 0 <= x < M
    ensures 0 <= State(n, x) < M
  {
    StateIsSteps(n, x);
  }

  lemma {:induction false} StateAdd(m: nat, n: nat, x: int)
    ensures State(m + n, x) == State(n, State(m, x))
  {
    if m > 0 {
      StateAdd(m - 1, n, (A * x + C) % M);
    }
  }

  /** From every seed, the generator is back at the seed exactly after multiples of 2^32 steps. */
  lemma PeriodIsExact(seed: int, n: nat)
    requires 0 <= seed < M
    ensures State(n, seed) == seed <==> n % M == 0
  {
    WordSize();
    StateIsSteps(n, seed);
    SameResidue(Steps(n, seed), seed);
    ComesBack(32, n, seed);
    SameResidue(n, 0);
  }

  lemma NoRepeat(seed: int, n: nat, d: nat)
    requires 0 <= seed < M && 0 < d < M
    ensures State(n + d, seed) != State(n, seed)
  {
    StateAdd(n, d, seed);
    StateBounds(n, seed);
    PeriodIsExact(State(n, seed), d);
  }

  /** From every seed, every 32-bit state is visited exactly once in the first 2^32 states. */
  lemma VisitsEveryStateOnce(seed: int, target: int)
    requires 0 <= seed < M && 0 <= target < M
    ensures exists n: nat :: n < M && State(n, seed) == target
                             && forall m: nat :: m < M && State(m, seed) == target ==> m == n
  {
    WordSize();
    var n := Meets(32, seed, target);
    StateIsSteps(n, seed);
    SameResidue(Steps(n, seed), target);
    forall m: nat | m < M && State(m, seed) == target ensures m == n {
      if m < n {
        NoRepeat(seed, m, n - m);
      } else if n < m {
        NoRepeat(seed, n, m - n);
      }
    }
  }

  // ----- What the caller sees -----

  /** The number handed out when the state is x: bits 16 to 47 of the product. */
  function Output(x: int): int {
    (A * x + C) / 0x1_0000 % M
  }

  predicate SameOutput(t: nat, n: nat, seed: int) {
    Output(State(t + n, seed)) == Output(State(t, seed))
  }

  ghost predicate OutputPeriod(n: nat, seed: int) {
    forall t: nat :: SameOutput(t, n, seed)
  }

  /** The low half of an output is the high half of the state that follows. */
  lemma OutputShowsState(x: int)
    requires 0 <= x < M
    ensures Output(x) % 0x1_0000 == State(1, x) / 0x1_0000
  {
    assert State(1, x) == State(0, (A * x + C) % M);
    Halves(A * x + C);
  }

  lemma Halves(y: nat)
    ensures y / 0x1_0000 % M % 0x1_0000 == y % M / 0x1_0000
  {
    var a, b := y / M, y % M;
    var h := 0x1_0000 * a + b / 0x1_0000;
    assert y / 0x1_0000 == h;
    var c := h / M;
    assert h % M == 0x1_0000 * (a - 0x1_0000 * c) + b / 0x1_0000;
  }

  lemma {:induction false} PeriodMultiple(n: nat, q: nat, seed: int, t: nat)
    requires OutputPeriod(n, seed)
    ensures Output(State(t + n * q, seed)) == Output(State(t, seed))
  {
    if q > 0 {
      PeriodMultiple(n, q - 1, seed, t);
      assert t + n * q == (t + n * (q - 1)) + n;
      assert SameOutput(t + n * (q - 1), n, seed);
    }
  }

  /** An odd number of half periods flips the top bit of the state, so the outputs differ. */
  lemma HalfPeriodShows(q: nat, seed: int)
    requires 0 <= seed < M && Odd(q)
    ensures Output(State(Pow2(31) * q, seed)) != Output(State(0, seed))
  {
    WordSize();
    var n := Pow2(31) * q;
    var first := State(1, seed);
    StateBounds(1, seed);
    var v := Jumps(31, q, first);
    StateIsSteps(n, first);
    StateAdd(1, n, seed);
    StateAdd(n, 1, seed);
    StateBounds(n, seed);
    OutputShowsState(seed);
    OutputShowsState(State(n, seed));
    TopBitFlips(first, v);
  }

  lemma TopBitFlips(x: int, v: int)
    requires 0 <= x < M && Odd(v)
    ensures (x + 0x8000_0000 * v) % M / 0x1_0000 != x / 0x1_0000
  {
    var h := v / 2;
    assert x + 0x8000_0000 * v == x + 0x8000_0000 + M * h;
    ModOfMultiple(x + 0x8000_0000, h);
  }

  lemma Regroup(p: int, q: int, f: int, r: int)
    requires r == p * f
    ensures (p * q) * f == r * q
  {
  }

  /** all is both a multiple of the period and an odd number of half periods: impossible. */
  lemma HalfPeriodIsNone(n: nat, f: nat, q: nat, all: nat, seed: int)
    requires 0 <= seed < M && OutputPeriod(n, seed)
    requires all == n * f && all == Pow2(31) * q
    ensures !Odd(q)
  {
    PeriodMultiple(n, f, seed, 0);
    if Odd(q) {
      HalfPeriodShows(q, seed);
    }
  }

  lemma OddIsNoPeriod(j: nat, q: nat, n: nat, seed: int)
    requires 0 <= seed < M && j <= 31 && n == Pow2(j) * q && OutputPeriod(n, seed)
    ensures !Odd(q)
  {
    var f := Pow2(31 - j);
    Pow2Add(j, 31 - j);
    assert j + (31 - j) == 31;
    Regroup(Pow2(j), q, f, Pow2(31));
    HalfPeriodIsNone(n, f, q, n * f, seed);
  }

  lemma {:induction false} OutputPeriodDivides(j: nat, n: nat, seed: int)
    requires 0 <= seed < M && j <= 32 && OutputPeriod(n, seed)
    ensures Divides(Pow2(j), n)
  {
    if j == 0 {
      assert n == 1 * n;
    } else {
      var p := Pow2(j - 1);
      OutputPeriodDivides(j - 1, n, seed);
      var q :| n == p * q;
      NonNegativeFactor(p, q);
      OddIsNoPeriod(j - 1, q, n, seed);
      HalfDivides(p, q);
    }
  }

  lemma {:induction false} Pow2Add(a: nat, b: nat)
    ensures Pow2(a + b) == Pow2(a) * Pow2(b)
  {
    if a > 0 {
      Pow2Add(a - 1, b);
      TimesAssoc(2, Pow2(a - 1), Pow2(b));
    }
  }

  /** The numbers handed out repeat with period 2^32 and with no smaller one. */
  lemma OutputPeriodIsExact(seed: int, n: nat)
    requires 0 <= seed < M
    ensures OutputPeriod(n, seed) <==> n % M == 0
  {
    WordSize();
    if OutputPeriod(n, seed) {
      OutputPeriodDivides(32, n, seed);
      SameResidue(n, 0);
    }
    if n % M == 0 {
      forall t: nat ensures SameOutput(t, n, seed) {
        StateAdd(n, t, seed);
        PeriodIsExact(seed, n);
      }
    }
  }

  /** The numbers of the generator, and where they come from: the state that follows is the low half
      of the product, and the number handed out its bits 16 to 47. */
  lemma StepInNumbers(x: int)
    requires 0 <= x < 0x1_0000_0000
    ensures var product := 1103515245 * x + 12345;
      State(1, x) == product % 0x1_0000_0000 && Output(x) == product / 0x1_0000 % 0x1_0000_0000
  {
    assert State(1, x) == State(0, (A * x + C) % M);
  }

  /** From seeds 0 and 1. */
  lemma FirstStates()
    ensures State(1, 0) == 12345 && State(1, 1) == 1103527590
    ensures Output(0) == 0 && Output(1) == 16838 && State(2, 1) == 2524885223
  {
    StepInNumbers(0);
    StepInNumbers(1);
    StepInNumbers(1103527590);
    assert State(2, 1) == State(1, 1103527590);
  }
}

/** The generator class. */
module RzRandom {
  import opened LcgPeriod

  const UINT32_MAX: uint32 := 0xFFFF_FFFF

  type uint32 = x: int | 0 <= x < 0x1_0000_0000
  type int32 = x: int | -0x8000_0000 <= x < 0x8000_0000

  /** Conversion to an unsigned 32-bit integer. */
  function Wrap(x: int): uint32 {
    x % M
  }

  /** Conversion to a signed 32-bit integer. */
  function Signed(x: int): int32 {
    var w := x % M;
    if w < 0x8000_0000 then w else w - M
  }

  /** Both conversions keep the value modulo 2^32. */
  lemma ConversionsKeepValue(x: int)
    ensures (Wrap(x) - x) % 0x1_0000_0000 == 0 && (Signed(x) - x) % 0x1_0000_0000 == 0
  {
    var q := x / M;
    assert Wrap(x) - x == M * -q;
    assert Signed(x) - x == M * -q || Signed(x) - x == M * (-q - 1);
    ModOfMultiple(0, -q);
    ModOfMultiple(0, -q - 1);
  }

  /** Reduction of a 32-bit number r to the range below scale. */
  function Scale(scale: uint32, r: uint32): int {
    scale * r / M
  }

  /** The least r that is reduced to v or more. */
  function Threshold(scale: uint32, v: int): int
    requires scale > 0
  {
    (v * M + scale - 1) / scale
  }

  class Random {
    var mnIntegerSeed: uint32
    var mnRealSeed: int32
    var mnUnknown: int32

    /** `clock` stands for the time-based seed that a seed of all ones asks for. */
    constructor (seed: uint32, clock: uint32)
      ensures mnIntegerSeed == if seed == UINT32_MAX then clock else seed
      ensures mnRealSeed == Signed(mnIntegerSeed) && mnUnknown == 0
    {
      new;
      Seed(seed, clock);
      mnUnknown := 0;
    }

    /** Both states start from the seed, the second one as a signed number. */
    method Seed(seed: uint32, clock: uint32)
      modifies `mnIntegerSeed, `mnRealSeed
      ensures mnIntegerSeed == if seed == UINT32_MAX then clock else seed
      ensures mnRealSeed == Signed(mnIntegerSeed)
    {
      var s := seed;
      if s == UINT32_MAX {
        s := clock;
      }
      mnIntegerSeed := s;
      mnRealSeed := Signed(s);
    }

    /** One step.  The 64-bit product never wraps. */
    method RandomUint32Uniform() returns (r: uint32)
      modifies `mnIntegerSeed
      ensures mnIntegerSeed == State(1, old(mnIntegerSeed))
      ensures r == Output(old(mnIntegerSeed))
    {
      var tmp := 1103515245 * mnIntegerSeed + 12345;
      assert 0 <= tmp < 0x8000_0000_0000_0000;
      assert State(1, mnIntegerSeed) == State(0, tmp % M);
      mnIntegerSeed := Wrap(tmp);
      r := Wrap(tmp / 0x1_0000);
    }

    /** A number below scale; asking for none does not advance the generator. */
    method RandomUint32Scaled(scale: uint32) returns (r: uint32)
      modifies `mnIntegerSeed
      ensures scale == 0 ==> r == 0 && mnIntegerSeed == old(mnIntegerSeed)
      ensures scale > 0 ==> r < scale && mnIntegerSeed == State(1, old(mnIntegerSeed))
      ensures scale > 0 ==> r == Scale(scale, Output(old(mnIntegerSeed)))
    {
      if scale == 0 {
        return 0;
      }
      var n := RandomUint32Uniform();
      ScaleBelow(scale, n);
      r := scale * n / 0x1_0000_0000;
    }

    /** A number from min up to, but not including, max; min itself when they are equal.  Past that
        the distance wraps in 32 bits, and so does the sum. */
    method RandomSint32RangeUniform(min: int32, max: int32) returns (r: int32)
      modifies `mnIntegerSeed
      ensures min < max ==> min <= r < max && r == min + Scale(max - min, Output(old(mnIntegerSeed)))
      ensures min == max ==> r == min && mnIntegerSeed == old(mnIntegerSeed)
      ensures min != max ==> mnIntegerSeed == State(1, old(mnIntegerSeed))
      ensures min > max ==> r == Signed(Wrap(min) + Scale(max - min + M, Output(old(mnIntegerSeed))))
    {
      var scale := Wrap(max - min);
      assert scale == if min <= max then max - min else max - min + M;
      var n := RandomUint32Scaled(scale);
      if min <= max {
        SignedSum(min, n);
      }
      r := Signed(Wrap(min) + n);
    }
  }

  lemma SignedSum(x: int32, n: int)
    requires n >= 0 && x + n < 0x8000_0000
    ensures Signed(Wrap(x) + n) == x + n
  {
  }

  /** The quotient, rounded down, of the product by 2^32. */
  lemma ScaleIsQuotient(scale: uint32, r: uint32)
    ensures var v := Scale(scale, r); 0x1_0000_0000 * v <= scale * r < 0x1_0000_0000 * (v + 1)
  {
  }

  lemma ScaleBelow(scale: uint32, r: uint32)
    requires scale > 0
    ensures 0 <= Scale(scale, r) < scale
  {
    assert scale * r <= scale * (M - 1);
  }

  /** The numbers reduced to v are an interval, and its length is 2^32/scale rounded down or up:
      no value below scale is favoured by more than one in 2^32. */
  lemma ScaleIsUniform(scale: uint32, v: int)
    requires scale > 0 && 0 <= v < scale
    ensures forall r: uint32 :: Scale(scale, r) == v <==> Threshold(scale, v) <= r < Threshold(scale, v + 1)
    ensures Threshold(scale, 0) == 0 && Threshold(scale, scale) == M
    ensures M / scale <= Threshold(scale, v + 1) - Threshold(scale, v) <= (M + scale - 1) / scale
  {
    forall r: uint32 ensures Scale(scale, r) == v <==> Threshold(scale, v) <= r < Threshold(scale, v + 1) {
      ThresholdIsLeast(scale, v, r);
      ThresholdIsLeast(scale, v + 1, r);
    }
    CeilingsOfEnds(scale);
    CeilingGap(scale, v * M);
  }

  lemma CeilingsOfEnds(s: int)
    requires 0 < s < M
    ensures (s - 1) / s == 0
    ensures (s * M + s - 1) / s == M
  {
    Ceiling(s * M, s, M);
    Ceiling(s * M, s, M - 1);
    Ceiling(0, s, 0);
    Ceiling(0, s, -1);
  }

  /** (a + s - 1) / s is a divided by s, rounded up. */
  lemma Ceiling(a: int, s: int, r: int)
    requires s > 0
    ensures r >= (a + s - 1) / s <==> s * r >= a
  {
    var q := (a + s - 1) / s;
    assert s * q <= a + s - 1 < s * q + s;
    if r >= q {
      assert s * r >= s * q;
    } else {
      assert s * r <= s * (q - 1);
    }
  }

  lemma CeilingBounds(a: int, s: int)
    requires s > 0
    ensures var c := (a + s - 1) / s; s * (c - 1) < a <= s * c
  {
    var c := (a + s - 1) / s;
    Ceiling(a, s, c);
    Ceiling(a, s, c - 1);
  }

  /** Rounded up, two quotients m apart differ by m divided by s, rounded down or up. */
  lemma Gap(s: int, a: int, m: int, lo: int, hi: int, f: int, c: int)
    requires s > 0 && s * (lo - 1) < a <= s * lo && s * (hi - 1) < a + m <= s * hi
    requires s * f <= m <= s * c
    ensures f <= hi - lo <= c
  {
    if hi < lo + f {
      TimesInOrder(s, hi, lo - 1 + f);
      TimesSum(s, lo - 1, f);
    } else if lo + c < hi {
      TimesInOrder(s, lo + c, hi - 1);
      TimesSum(s, lo, c);
    }
  }

  lemma TimesSum(s: int, x: int, y: int)
    ensures s * (x + y) == s * x + s * y
  {
  }

  lemma TimesInOrder(s: int, x: int, y: int)
    requires s > 0 && x <= y
    ensures s * x <= s * y
  {
  }

  lemma CeilingGap(s: int, a: int)
    requires 0 < s < M && a >= 0
    ensures M / s <= (a + M + s - 1) / s - (a + s - 1) / s <= (M + s - 1) / s
  {
    var f, c := M / s, (M + s - 1) / s;
    CeilingBounds(a, s);
    CeilingBounds(a + M, s);
    CeilingBounds(M, s);
    Gap(s, a, M, (a + s - 1) / s, (a + M + s - 1) / s, f, c);
  }

  lemma ThresholdIsLeast(scale: uint32, v: int, r: uint32)
    requires scale > 0 && 0 <= v
    ensures Scale(scale, r) >= v <==> r >= Threshold(scale, v)
  {
    Ceiling(v * M, scale, r);
  }
}
