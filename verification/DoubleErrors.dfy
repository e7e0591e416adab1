// Two flipped bits under CRC-16/Modbus (src/anymodbus/crc.py): they pass the check
// exactly when they are a multiple of 32767 bits apart, which is the order of x
// modulo the polynomial (x + 1)(x^15 + x + 1). No frame is that long.
module DoubleErrors {
  import opened Bits
  import opened Crc

  const PERIOD: nat := 32767

  lemma {:induction false} ShiftNSum(c: nat, n: nat, m: nat)
    ensures ShiftN(c, n + m) == ShiftN(ShiftN(c, n), m)
    decreases n
  {
    if n > 0 {
      ShiftNSum(Shift(c), n - 1, m);
    }
  }

  // ----- The bits shifted out of one register -----

  // Shift(1) + 1, so that every step adds a multiple of x + 1.
  const SEED: nat := 0xA000

  function Word(n: nat): nat { ShiftN(SEED, n) }

  predicate Out(n: nat) { Odd(Word(n)) }

  lemma WordSum(n: nat, m: nat)
    ensures Word(n + m) == ShiftN(Word(n), m)
  {
    ShiftNSum(SEED, n, m);
  }

  lemma SeedIsStep()
    ensures SEED == Xor(Shift(1), 1)
  {
    XorZero(0, POLY);
    XorSelf(POLY);
    assert Shift(1) == POLY;
    assert Pow2(1) == 2;
    XorDisjoint(0x5000, 1, 1);
    XorAssociates(0xA000, 1, 1);
    XorSelf(1);
    XorSelf(0xA000);
  }

  // The first fifteen bits: thirteen zeros and two ones.
  lemma FirstOuts(n: nat)
    requires n <= 14
    ensures Out(n) == (n >= 13)
  {
    hide Out, Word, ShiftN, Pow2;
    if n <= 13 {
      EarlyWord(n);
    } else {
      LateWords();
    }
  }

  lemma EarlyWord(n: nat)
    requires n <= 13
    ensures Word(n) == 5 * Pow2(13 - n) && Out(n) == (n == 13)
    decreases n
  {
    if n == 0 {
      Pow2Thirteen();
    } else {
      EarlyWord(n - 1);
      WordSum(n - 1, 1);
      assert Pow2(13 - (n - 1)) == 2 * Pow2(13 - n);
      Halves(false, 5 * Pow2(13 - n));
      assert ShiftN(Word(n - 1), 1) == ShiftN(Shift(Word(n - 1)), 0);
    }
    if n < 13 {
      Halves(false, 5 * Pow2(13 - n - 1));
    }
  }

  lemma Pow2Thirteen()
    ensures Pow2(13) == 0x2000
  {
    Pow2Eight();
    assert Pow2(13) == 4 * Pow2(11) && Pow2(11) == 4 * Pow2(9) && Pow2(9) == 2 * Pow2(8);
  }

  lemma LateWords()
    ensures Out(14) && Word(15) == Xor(Word(1), Word(0))
  {
    EarlyWord(13);
    EarlyWord(1);
    Pow2Thirteen();
    assert Word(1) == 0x5000;
    WordSum(13, 1);
    WordSum(14, 1);
    var late := Xor(2, POLY);
    assert ShiftN(5, 1) == ShiftN(Shift(5), 0) == late;
    assert Word(14) == late;
    XorHalves(2, POLY);
    assert ShiftN(late, 1) == ShiftN(Shift(late), 0) == Xor(Xor(1, 0x5000), POLY);
    assert Pow2(1) == 2;
    XorDisjoint(0x5000, 1, 1);
    XorCommutes(0xA000, 1);
    XorSwap(1, 0x5000, 1, 0xA000);
    XorSelf(1);
    XorSelf(Xor(0x5000, 0xA000));
  }

  // The other factor: x^15 = x + 1.
  lemma OutRecurs(i: nat)
    ensures Out(15 + i) == (Out(1 + i) != Out(i))
  {
    hide Word, ShiftN, Xor, Odd;
    LateWords();
    WordSum(15, i);
    WordSum(1, i);
    WordSum(0, i);
    ShiftNXor(Word(1), Word(0), i);
    XorHalves(Word(1 + i), Word(i));
  }

  // Squaring doubles every exponent: x^(16a) = x^(2a) + x^a for every power of two a.
  lemma {:induction false} Jump(k: nat, m: nat)
    ensures Out(16 * Pow2(k) + m) == (Out(2 * Pow2(k) + m) != Out(Pow2(k) + m))
    decreases k
  {
    if k == 0 {
      OutRecurs(1 + m);
    } else {
      var a := Pow2(k - 1);
      assert Pow2(k) == 2 * a;
      Jump(k - 1, 16 * a + m);
      Jump(k - 1, 2 * a + m);
      Jump(k - 1, a + m);
    }
  }

  lemma PowersOfTwo()
    ensures Pow2(0) == 1 && Pow2(1) == 2 && Pow2(2) == 4 && Pow2(3) == 8 && Pow2(4) == 16 && Pow2(5) == 32
    ensures Pow2(6) == 64 && Pow2(7) == 128 && Pow2(8) == 256 && Pow2(9) == 512 && Pow2(10) == 1024 && Pow2(11) == 2048
  {
    Pow2Eight();
    assert Pow2(3) == 2 * Pow2(2) && Pow2(2) == 2 * Pow2(1);
    assert Pow2(4) == 2 * Pow2(3) && Pow2(5) == 2 * Pow2(4);
    assert Pow2(6) == 2 * Pow2(5) && Pow2(7) == 2 * Pow2(6);
    assert Pow2(9) == 2 * Pow2(8) && Pow2(10) == 2 * Pow2(9);
    assert Pow2(11) == 2 * Pow2(10);
  }

  // So each power x^(2^k) is a sum of x, x^2, x^4 and x^8, and x^(2^15) is x again.
  lemma FarOuts(m: nat)
    ensures Out(16 + m) == (Out(2 + m) != Out(1 + m))
    ensures Out(64 + m) == (Out(8 + m) != Out(4 + m))
    ensures Out(128 + m) == (Out(8 + m) != (Out(2 + m) != Out(1 + m)))
    ensures Out(512 + m) == (Out(8 + m) != Out(2 + m))
    ensures Out(1024 + m) == (Out(4 + m) != (Out(2 + m) != Out(1 + m)))
    ensures Out(4096 + m) == (Out(8 + m) != (Out(4 + m) != (Out(2 + m) != Out(1 + m))))
    ensures Out(32768 + m) == Out(1 + m)
  {
    PowersOfTwo();
    hide Out, Pow2;
    Jump(0, m);
    Jump(1, m);
    Jump(2, m);
    Jump(3, m);
    Jump(4, m);
    Jump(5, m);
    Jump(6, m);
    Jump(7, m);
    Jump(8, m);
    Jump(9, m);
    Jump(10, m);
    Jump(11, m);
  }

  // ----- Their period -----

  predicate Repeats(t: nat, d: nat) { Out(t + d) == Out(t) }

  ghost predicate Period(d: nat) { forall t: nat :: Repeats(t, d) }

  lemma FullPeriod()
    ensures Period(PERIOD)
  {
    forall t: nat
      ensures Repeats(t, PERIOD)
    {
      OutRecurs(t);
      OutRecurs(t + PERIOD);
      FarOuts(t);
      FarOuts(14 + t);
      assert 15 + (t + PERIOD) == 32768 + (14 + t) && 1 + (t + PERIOD) == 32768 + t;
    }
  }

  lemma {:induction false} PeriodTimes(d: nat, k: nat)
    requires Period(d)
    ensures Period(k * d)
    decreases k
  {
    if k > 0 {
      PeriodTimes(d, k - 1);
      forall t: nat
        ensures Repeats(t, k * d)
      {
        assert Repeats(t, (k - 1) * d) && Repeats(t + (k - 1) * d, d);
        assert t + (k - 1) * d + d == t + k * d;
      }
    }
  }

  lemma PeriodRest(d: nat, e: nat)
    requires Period(d) && Period(e) && d > 0
    ensures Period(e % d)
  {
    var k := e / d;
    PeriodTimes(d, k);
    assert e == k * d + e % d;
    forall t: nat
      ensures Repeats(t, e % d)
    {
      assert Repeats(t, e) && Repeats(t + e % d, k * d);
      assert t + e % d + k * d == t + e;
    }
  }

  // Two periods have a common divisor that is a period.
  lemma {:induction false} CommonPeriod(d: nat, e: nat) returns (g: nat, a: nat, b: nat)
    requires Period(d) && Period(e) && d > 0
    ensures g > 0 && Period(g) && d == a * g && e == b * g
    decreases d
  {
    PeriodRest(d, e);
    hide Period;
    var q, r := e / d, e % d;
    if r == 0 {
      g, a, b := d, 1, q;
    } else {
      var c;
      g, c, a := CommonPeriod(r, d);
      b := q * a + c;
      assert q * (a * g) + c * g == (q * a + c) * g;
    }
  }

  // The bits up to the 45th, by the recurrence.
  lemma {:induction false} OutUpTo(n: nat)
    requires n <= 45
    ensures Out(n) == (n in {13, 14, 27, 29, 41, 42, 43, 44})
    decreases n
  {
    if n <= 14 {
      FirstOuts(n);
    } else {
      OutUpTo(n - 15);
      OutUpTo(n - 14);
      OutRecurs(n - 15);
    }
  }

  // None of the largest proper divisors of 32767 = 7 * 31 * 151 is a period.
  lemma NotPeriod217()
    ensures !Period(217)
  {
    hide Out;
    assert !Repeats(0, 217) by {
      FarOuts(89);
      FarOuts(33);
      FarOuts(27);
      FarOuts(26);
      OutUpTo(0);
      OutUpTo(30);
      OutUpTo(31);
      OutUpTo(34);
      OutUpTo(35);
      OutUpTo(37);
      OutUpTo(41);
    }
  }

  lemma NotPeriod1057()
    ensures !Period(1057)
  {
    hide Out;
    assert !Repeats(4, 1057) by {
      FarOuts(37);
      OutUpTo(4);
      OutUpTo(38);
      OutUpTo(39);
      OutUpTo(41);
    }
  }

  lemma Out4682()
    ensures Out(4682) == (Out(90) != (Out(86) != (Out(80) != (Out(78) != (Out(83) != Out(77))))))
  {
    hide Out;
    FarOuts(586);
    FarOuts(82);
    FarOuts(78);
    FarOuts(76);
    FarOuts(75);
  }

  lemma Outs77To90()
    ensures !Out(90) && !Out(86) && !Out(80) && !Out(78) && Out(83) && !Out(77)
  {
    hide Out;
    FarOuts(26);
    FarOuts(22);
    FarOuts(16);
    FarOuts(14);
    FarOuts(19);
    FarOuts(13);
    SmallOuts();
  }

  lemma SmallOuts()
    ensures Out(27) && !Out(17) && !Out(18) && !Out(20) && !Out(21) && !Out(22) && !Out(23) && !Out(24) && !Out(26)
    ensures !Out(30) && !Out(34) && !Out(1)
  {
    hide Out;
    OutUpTo(1);
    OutUpTo(17);
    OutUpTo(18);
    OutUpTo(20);
    OutUpTo(21);
    OutUpTo(22);
    OutUpTo(23);
    OutUpTo(24);
    OutUpTo(26);
    OutUpTo(27);
    OutUpTo(30);
    OutUpTo(34);
  }

  lemma NotPeriod4681()
    ensures !Period(4681)
  {
    hide Out;
    Out4682();
    Outs77To90();
    SmallOuts();
    assert !Repeats(1, 4681);
  }

  // ----- The divisors of 32767 -----

  ghost predicate Prime(p: nat) { forall r :: 1 < r < p ==> p % r != 0 }

  // If a prime divides r * b and r is smaller, it divides b.
  lemma {:induction false} Euclid(p: nat, r: nat, b: nat, n: nat) returns (c: nat)
    requires Prime(p) && 0 < r < p && r * b == p * n
    ensures b == p * c
    decreases r
  {
    if r == 1 {
      c := n;
    } else {
      var q, s := p / r, p % r;
      assert p == q * r + s;
      assert s * b == p * b - q * (r * b) == p * b - q * (p * n) == p * (b - q * n);
      Positive(p, b - q * n, s * b);
      c := Euclid(p, s, b, b - q * n);
    }
  }

  lemma Positive(p: nat, x: int, y: nat)
    requires p > 0 && p * x == y
    ensures x >= 0
  {}

  lemma PrimeDivides(p: nat, g: nat, b: nat, n: nat) returns (divides: bool, c: nat)
    requires Prime(p) && p > 1 && g * b == p * n
    ensures if divides then b == p * c else g == p * c
  {
    var q, r := g / p, g % p;
    if r == 0 {
      divides, c := false, q;
    } else {
      assert g == p * q + r;
      assert r * b == p * n - p * (q * b) == p * (n - q * b);
      Positive(p, n - q * b, r * b);
      divides := true;
      c := Euclid(p, r, b, n - q * b);
    }
  }

  lemma NoSmallFactor(q: nat, r: nat)
    requires 2 <= q <= 12
    ensures q * r != 151
  {
    if q == 2 {} else if q == 3 {} else if q == 4 {} else if q == 5 {} else if q == 6 {} else if q == 7 {}
    else if q == 8 {} else if q == 9 {} else if q == 10 {} else if q == 11 {}
  }

  lemma Primes()
    ensures Prime(7) && Prime(31) && Prime(151)
  {
    forall r | 1 < r < 151
      ensures 151 % r != 0
    {
      var q := 151 / r;
      assert 151 == q * r + 151 % r;
      if r <= 12 {
        NoSmallFactor(r, q);
      } else {
        assert q <= 12;
        if q >= 2 {
          NoSmallFactor(q, r);
        }
      }
    }
  }

  // A proper divisor of 32767 divides 4681, 1057 or 217.
  lemma ProperDivisor(g: nat, b: nat) returns (k: nat, n: nat)
    requires g * b == PERIOD && 0 < g < PERIOD
    ensures n in {4681, 1057, 217} && k * g == n
  {
    Primes();
    hide Prime;
    var divides, c := PrimeDivides(7, g, b, 4681);
    if divides {
      assert 7 * (g * c) == 7 * 4681;
      return c, 4681;
    }
    var g1 := c;
    assert 7 * (g1 * b) == 7 * 4681;
    divides, c := PrimeDivides(31, g1, b, 151);
    if divides {
      assert 31 * (g1 * c) == 31 * 151;
      return c, 1057;
    }
    var g2 := c;
    assert 31 * (g2 * b) == 31 * 151;
    divides, c := PrimeDivides(151, g2, b, 1);
    if divides {
      assert 151 * (g2 * c) == 151;
      UnitFactors(g2, c);
      return 1, 217;
    }
    assert false;
  }

  lemma UnitFactors(x: nat, y: nat)
    requires x * y == 1
    ensures x == 1 && y == 1
  {}

  lemma PeriodsAreMultiples(d: nat)
    ensures Period(d) <==> d % PERIOD == 0
  {
    FullPeriod();
    PeriodTimes(PERIOD, d / PERIOD);
    hide Period;
    if Period(d) && d > 0 {
      var g, a, b := CommonPeriod(d, PERIOD);
      if g < PERIOD {
        var k, n := ProperDivisor(g, b);
        PeriodTimes(g, k);
        NoProperPeriod(n);
      } else {
        LargeFactor(g, b);
        assert d == a * PERIOD;
      }
    }
  }

  lemma NoProperPeriod(n: nat)
    requires n in {4681, 1057, 217}
    ensures !Period(n)
  {
    NotPeriod217();
    NotPeriod1057();
    NotPeriod4681();
  }

  lemma LargeFactor(g: nat, b: nat)
    requires PERIOD == b * g && g >= PERIOD
    ensures g == PERIOD
  {}

  // ----- A single bit fed into the register -----

  predicate Seen(c: nat, n: nat) { Odd(ShiftN(c, n)) }

  // A register from which sixteen zeros are shifted out was empty.
  lemma {:induction false} SilentIsMultiple(z: nat, n: nat) returns (k: nat)
    requires forall i: nat :: i < n ==> !Seen(z, i)
    ensures z == Pow2(n) * k
    decreases n
  {
    if n == 0 {
      k := z;
    } else {
      assert !Seen(z, 0);
      forall i: nat | i < n - 1
        ensures !Seen(z / 2, i)
      {
        assert !Seen(z, i + 1);
      }
      var half := SilentIsMultiple(z / 2, n - 1);
      k := half;
      assert z == 2 * (Pow2(n - 1) * half) == Pow2(n) * half;
    }
  }

  lemma SilentIsEmpty(z: nat)
    requires z < 0x10000 && forall i: nat :: i < 16 ==> !Seen(z, i)
    ensures z == 0
  {
    var k := SilentIsMultiple(z, 16);
    PowersOfTwo();
    assert Pow2(16) == 4 * Pow2(14) && Pow2(14) == 4 * Pow2(12) && Pow2(12) == 2 * Pow2(11);
  }

  lemma SeenXor(a: nat, b: nat, n: nat)
    ensures Seen(Xor(a, b), n) == (Seen(a, n) != Seen(b, n))
  {
    ShiftNXor(a, b, n);
    XorHalves(ShiftN(a, n), ShiftN(b, n));
  }

  lemma SeenLater(c: nat, d: nat, n: nat)
    ensures Seen(ShiftN(c, d), n) == Seen(c, d + n)
  {
    ShiftNSum(c, d, n);
  }

  lemma OutIsDifference(n: nat)
    ensures Out(n) == (Seen(1, n + 1) != Seen(1, n))
  {
    SeedIsStep();
    SeenXor(Shift(1), 1, n);
    SeenLater(1, 1, n);
    assert ShiftN(1, 1) == ShiftN(Shift(1), 0);
  }

  // The one register that every step leaves as it is.
  const FIXED: nat := 0xC001

  lemma {:induction false} FixedStays(n: nat)
    ensures ShiftN(FIXED, n) == FIXED && Seen(FIXED, n)
    decreases n
  {
    FixedShift();
    if n > 0 {
      FixedStays(n - 1);
      ShiftNLast(FIXED, n - 1);
    }
  }

  lemma FixedShift()
    ensures Shift(FIXED) == FIXED && Odd(FIXED)
  {
    Pow2Thirteen();
    XorScaled(3, 5, 12);
    assert Pow2(12) == 0x1000;
    assert Xor(3, 5) == 2 * Xor(1, 2) == 6;
    XorHalves(0x6000, POLY);
    hide Xor;
    Halves(true, 0x6000);
    SameHalves(Xor(0x6000, POLY), FIXED);
  }

  lemma {:induction false} XorScaled(a: nat, b: nat, n: nat)
    ensures Xor(a * Pow2(n), b * Pow2(n)) == Xor(a, b) * Pow2(n)
    decreases n
  {
    if n > 0 {
      var p := Pow2(n - 1);
      XorScaled(a, b, n - 1);
      DoubledProduct(a, p);
      DoubledProduct(b, p);
      DoubledProduct(Xor(a, b), p);
      XorDoubled(a * p, 2 * (b * p));
      Halves(false, b * p);
      hide Xor;
    }
  }

  lemma ParityOfFixed()
    ensures Parity(FIXED)
  {
    ParityStep(0xC001);
    ParityStep(0x6000);
    ParityStep(0x3000);
    ParityStep(0x1800);
    ParityStep(0xC00);
    ParityStep(0x600);
    ParityStep(0x300);
    ParityStep(0x180);
    ParityStep(0xC0);
    ParityStep(0x60);
    ParityStep(0x30);
    ParityStep(0x18);
    ParityStep(0xC);
    ParityStep(0x6);
    ParityStep(0x3);
    ParityStep(0x1);
  }

  // ----- When the register comes back to where it was -----

  lemma {:induction false} ShiftNParity(c: nat, n: nat)
    ensures Parity(ShiftN(c, n)) == Parity(c)
    decreases n
  {
    if n > 0 {
      ShiftParity(c);
      ShiftNParity(Shift(c), n - 1);
    }
  }

  lemma ReturnGivesPeriod(d: nat)
    requires ShiftN(1, d) == 1
    ensures Period(d)
  {
    hide Seen, Out, ShiftN;
    forall t: nat
      ensures Repeats(t, d)
    {
      OutIsDifference(t);
      OutIsDifference(t + d);
      SeenLater(1, d, t);
      SeenLater(1, d, t + 1);
    }
  }

  // Whether the register d steps on shows the same bit.
  predicate Differs(d: nat, n: nat) { Seen(1, d + n) != Seen(1, n) }

  lemma {:induction false} SameDifference(d: nat, n: nat)
    requires Period(d)
    ensures Differs(d, n) == Differs(d, 0)
    decreases n
  {
    hide Seen, Out;
    if n > 0 {
      SameDifference(d, n - 1);
      assert Repeats(n - 1, d);
      OutIsDifference(n - 1);
      OutIsDifference(n - 1 + d);
    }
  }

  lemma PeriodGivesReturn(d: nat)
    requires Period(d)
    ensures ShiftN(1, d) == 1
  {
    var x := ShiftN(1, d);
    var z := Xor(x, 1);
    ShiftNWord(1, d);
    XorWord(x, 1);
    XorZero(x, 1);
    ParityXor(x, 1);
    ShiftNParity(1, d);
    forall n: nat
      ensures Seen(z, n) == Differs(d, 0)
    {
      SeenXor(x, 1, n);
      SeenLater(1, d, n);
      SameDifference(d, n);
    }
    if Differs(d, 0) {
      AllOnes(z);
      ParityOfFixed();
      assert false;
    } else {
      SilentIsEmpty(z);
    }
  }

  // Only the fixed register shows sixteen ones.
  lemma AllOnes(z: nat)
    requires z < 0x10000 && forall n: nat :: Seen(z, n)
    ensures z == FIXED
  {
    var rest := Xor(z, FIXED);
    XorWord(z, FIXED);
    forall n: nat
      ensures !Seen(rest, n)
    {
      SeenXor(z, FIXED, n);
      FixedStays(n);
    }
    SilentIsEmpty(rest);
    XorZero(z, FIXED);
  }

  // x has order 32767 modulo the polynomial.
  lemma OrderOfX(d: nat)
    ensures ShiftN(1, d) == 1 <==> d % PERIOD == 0
  {
    PeriodsAreMultiples(d);
    if ShiftN(1, d) == 1 {
      ReturnGivesPeriod(d);
    }
    if Period(d) {
      PeriodGivesReturn(d);
    }
  }

  // ----- Two flipped bits -----

  lemma FeedPair(head: seq<bool>, gap: seq<bool>, tail: seq<bool>)
    requires AllZero(head) && AllZero(gap) && AllZero(tail)
    ensures Feed(0, head + [true] + gap + [true] + tail) == 0 <==> ShiftN(1, |gap| + 1) == 1
  {
    var first, second := head + [true], head + [true] + gap;
    FeedConcat(0, second + [true], tail);
    FeedConcat(0, second, [true]);
    FeedConcat(0, first, gap);
    FeedConcat(0, head, [true]);
    FeedZeros(0, head);
    FeedOne(0);
    XorSelf(1);
    FeedGap(Shift(1), gap);
    var before := ShiftN(1, |gap| + 1);
    assert Feed(0, second) == before;
    ShiftNWord(1, |gap| + 1);
    FeedOne(before);
    XorWord(before, 1);
    XorZero(before, 1);
    ShiftWord(Xor(before, 1));
    FeedZeros(Shift(Xor(before, 1)), tail);
  }

  lemma FeedOne(c: nat)
    ensures Feed(c, [true]) == Shift(Xor(c, 1))
  {
    assert [true][1..] == [];
  }

  lemma FeedGap(c: nat, zeros: seq<bool>)
    requires AllZero(zeros)
    ensures Feed(c, zeros) == ShiftN(c, |zeros|)
  {
    FeedIsShift(c, zeros);
    NumberOfZeros(zeros);
    XorSelf(c);
  }

  // Bits i and j are set, and no others.
  ghost predicate TwoFlips(error: seq<byte>, i: nat, j: nat) {
    i < j < 8 * |error| && forall k :: 0 <= k < 8 * |error| ==> (BitsOf(error)[k] <==> k == i || k == j)
  }

  // Two flipped bits go undetected exactly when they are a multiple of 32767 bits apart.
  lemma TwoFlipsUndetectedIff(frame: seq<byte>, error: seq<byte>, i: nat, j: nat)
    requires VerifyCrc(frame) && |error| == |frame| && TwoFlips(error, i, j)
    ensures VerifyCrc(FlipBits(frame, error)) <==> (j - i) % PERIOD == 0
  {
    var bits := BitsOf(error);
    var head, gap, tail := bits[..i], bits[i + 1..j], bits[j + 1..];
    assert bits == head + [true] + gap + [true] + tail;
    assert AllZero(head) && AllZero(gap) && AllZero(tail);
    FeedPair(head, gap, tail);
    OrderOfX(j - i);
    DivideIsFeed(0, error);
    UndetectedIffDivisible(frame, error);
  }

  // So in any frame of the protocol - up to 256 bytes, and up to 4095 - every pair of flipped bits is detected.
  lemma TwoFlipsDetected(frame: seq<byte>, error: seq<byte>, i: nat, j: nat)
    requires VerifyCrc(frame) && |error| == |frame| <= 4095 && TwoFlips(error, i, j)
    ensures !VerifyCrc(FlipBits(frame, error))
  {
    TwoFlipsUndetectedIff(frame, error, i, j);
    hide VerifyCrc, FlipBits;
    Within(error, i, j);
  }

  lemma Within(error: seq<byte>, i: nat, j: nat)
    requires |error| <= 4095 && TwoFlips(error, i, j)
    ensures (j - i) % PERIOD != 0
  {}
}
