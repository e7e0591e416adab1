// Bytes as integers in [0, 255], their bits least significant first, and the
// exclusive or of natural numbers.
module Bits {
  type byte = x: int | 0 <= x < 256

  type word = x: int | 0 <= x < 0x10000

  // ----- Bits of a byte string: the order of both the CRC and the coil codec -----

  predicate Odd(x: nat) { x % 2 == 1 }

  // The low n bits of a number, least significant first.
  function LowBits(x: nat, n: nat): (r: seq<bool>)
    ensures |r| == n
    decreases n, x
  {
    if n == 0 then [] else [Odd(x)] + LowBits(x / 2, n - 1)
  }

  function ByteBits(b: byte): (r: seq<bool>)
    ensures |r| == 8
  {
    LowBits(b, 8)
  }

  function BitsOf(data: seq<byte>): (r: seq<bool>)
    ensures |r| == 8 * |data|
  {
    if data == [] then [] else ByteBits(data[0]) + BitsOf(data[1..])
  }

  lemma {:induction false} BitsOfAt(data: seq<byte>, i: nat)
    requires i < 8 * |data|
    ensures BitsOf(data)[i] == ByteBits(data[i / 8])[i % 8]
  {
    if i >= 8 {
      var j := i - 8;
      BitsOfAt(data[1..], j);
      assert j / 8 == i / 8 - 1 && j % 8 == i % 8;
      assert data[1..][j / 8] == data[i / 8];
      assert BitsOf(data)[i] == BitsOf(data[1..])[j];
    } else {
      assert i / 8 == 0 && i % 8 == i;
      assert BitsOf(data)[i] == ByteBits(data[0])[i];
    }
  }

  function BitValue(b: bool): (r: nat) { if b then 1 else 0 }

  function Pow2(n: nat): (r: nat)
    ensures r >= 1
  {
    if n == 0 then 1 else 2 * Pow2(n - 1)
  }

  lemma Pow2Eight()
    ensures Pow2(8) == 256
  {
    assert Pow2(8) == 4 * Pow2(6) && Pow2(6) == 4 * Pow2(4) && Pow2(4) == 4 * Pow2(2) && Pow2(2) == 4;
  }

  // Bit k of x, by k halvings.
  predicate BitAt(x: nat, k: nat)
    decreases k, x
  {
    if k == 0 then Odd(x) else BitAt(x / 2, k - 1)
  }

  lemma {:induction false} LowBitsAt(x: nat, n: nat, k: nat)
    requires k < n
    ensures LowBits(x, n)[k] == BitAt(x, k)
    decreases n, x
  {
    if k > 0 {
      LowBitsAt(x / 2, n - 1, k - 1);
    }
  }

  // The number whose bits are given, least significant first.
  function Number(bits: seq<bool>): nat {
    if bits == [] then 0 else BitValue(bits[0]) + 2 * Number(bits[1..])
  }

  lemma {:induction false} NumberOfLowBits(x: nat, n: nat)
    requires x < Pow2(n)
    ensures Number(LowBits(x, n)) == x
    decreases n, x
  {
    if n > 0 {
      NumberOfLowBits(x / 2, n - 1);
      assert LowBits(x, n)[1..] == LowBits(x / 2, n - 1);
    }
  }

  lemma {:induction false} LowBitsOfNumber(bits: seq<bool>)
    ensures LowBits(Number(bits), |bits|) == bits
  {
    if bits != [] {
      LowBitsOfNumber(bits[1..]);
      Halves(bits[0], Number(bits[1..]));
      assert bits == [bits[0]] + bits[1..];
    }
  }

  lemma {:induction false} NumberBound(bits: seq<bool>)
    ensures Number(bits) < Pow2(|bits|)
  {
    if bits != [] {
      NumberBound(bits[1..]);
    }
  }

  lemma {:induction false} Pow2Monotone(m: nat, n: nat)
    requires m <= n
    ensures Pow2(m) <= Pow2(n)
    decreases n
  {
    if m < n {
      Pow2Monotone(m, n - 1);
    }
  }

  // ----- Exclusive or -----

  function Xor(a: nat, b: nat): nat {
    if a == 0 && b == 0 then 0 else BitValue(Odd(a) != Odd(b)) + 2 * Xor(a / 2, b / 2)
  }

  lemma Halves(bit: bool, rest: nat)
    ensures Odd(BitValue(bit) + 2 * rest) == bit && (BitValue(bit) + 2 * rest) / 2 == rest
  {}

  lemma SameHalves(x: nat, y: nat)
    requires x / 2 == y / 2 && Odd(x) == Odd(y)
    ensures x == y
  {}

  lemma XorHalves(a: nat, b: nat)
    ensures Odd(Xor(a, b)) == (Odd(a) != Odd(b)) && Xor(a, b) / 2 == Xor(a / 2, b / 2)
  {
    Halves(Odd(a) != Odd(b), Xor(a / 2, b / 2));
  }

  lemma {:induction false} XorCommutes(a: nat, b: nat)
    ensures Xor(a, b) == Xor(b, a)
  {
    if a != 0 || b != 0 {
      XorCommutes(a / 2, b / 2);
    }
  }

  lemma {:induction false} XorAssociates(a: nat, b: nat, c: nat)
    ensures Xor(Xor(a, b), c) == Xor(a, Xor(b, c))
    decreases a + b + c
  {
    if a != 0 || b != 0 || c != 0 {
      XorAssociates(a / 2, b / 2, c / 2);
      XorHalves(a, b);
      XorHalves(b, c);
      XorHalves(Xor(a, b), c);
      XorHalves(a, Xor(b, c));
      SameHalves(Xor(Xor(a, b), c), Xor(a, Xor(b, c)));
    }
  }

  lemma {:induction false} LowBitsOfXor(a: nat, b: nat, n: nat)
    ensures forall k :: 0 <= k < n ==> LowBits(Xor(a, b), n)[k] == (LowBits(a, n)[k] != LowBits(b, n)[k])
    decreases n, a
  {
    if n > 0 {
      XorHalves(a, b);
      LowBitsOfXor(a / 2, b / 2, n - 1);
    }
  }

  lemma {:induction false} XorSelf(a: nat)
    ensures Xor(a, a) == 0 && Xor(a, 0) == a && Xor(0, a) == a
  {
    if a != 0 {
      XorSelf(a / 2);
    }
  }

  lemma XorZero(a: nat, b: nat)
    ensures Xor(a, b) == 0 <==> a == b
  {
    XorSelf(a);
    XorSelf(b);
    if Xor(a, b) == 0 {
      XorAssociates(a, b, b);
    }
  }

  // Swaps the middle operands of two paired exclusive ors.
  lemma XorSwap(a: nat, b: nat, c: nat, d: nat)
    ensures Xor(Xor(a, b), Xor(c, d)) == Xor(Xor(a, c), Xor(b, d))
  {
    XorAssociates(a, b, Xor(c, d));
    XorAssociates(b, c, d);
    XorCommutes(b, c);
    XorAssociates(c, b, d);
    XorAssociates(a, c, Xor(b, d));
  }

  lemma {:induction false} XorBound(a: nat, b: nat, n: nat)
    requires a < Pow2(n) && b < Pow2(n)
    ensures Xor(a, b) < Pow2(n)
  {
    if n > 0 && (a != 0 || b != 0) {
      XorBound(a / 2, b / 2, n - 1);
    }
  }

  lemma XorWord(a: nat, b: nat)
    ensures a < 0x10000 && b < 0x10000 ==> Xor(a, b) < 0x10000
    ensures a < 256 && b < 256 ==> Xor(a, b) < 256
  {
    assert Pow2(8) == 256;
    assert Pow2(16) == 256 * Pow2(8) by {
      assert Pow2(16) == 4 * Pow2(14) && Pow2(14) == 4 * Pow2(12) && Pow2(12) == 4 * Pow2(10)
             && Pow2(10) == 4 * Pow2(8);
    }
    if a < 0x10000 && b < 0x10000 {
      XorBound(a, b, 16);
    }
    if a < 256 && b < 256 {
      XorBound(a, b, 8);
    }
  }

  lemma DoubledProduct(x: nat, y: nat)
    ensures x * (2 * y) == 2 * (x * y)
  {}

  lemma XorDoubled(half: nat, low: nat)
    ensures Xor(2 * half, low) == BitValue(Odd(low)) + 2 * Xor(half, low / 2)
  {
    Halves(false, half);
    assert Odd(low) || !Odd(low);
  }

  // Numbers with no set bit in common add.
  lemma {:induction false} XorDisjoint(high: nat, low: nat, n: nat)
    requires low < Pow2(n)
    ensures Xor(high * Pow2(n), low) == high * Pow2(n) + low
  {
    if n == 0 {
      XorSelf(high);
    } else {
      XorDisjoint(high, low / 2, n - 1);
      DoubledProduct(high, Pow2(n - 1));
      XorDoubled(high * Pow2(n - 1), low);
    }
  }

  lemma XorByte(high: nat, low: nat)
    requires low < 256
    ensures Xor(256 * high, low) == 256 * high + low
  {
    Pow2Eight();
    XorDisjoint(high, low, 8);
  }

  // Whether the number of set bits is odd.
  function Parity(x: nat): bool {
    if x == 0 then false else Odd(x) != Parity(x / 2)
  }

  lemma ParityStep(x: nat)
    ensures Parity(x) == (Odd(x) != Parity(x / 2))
  {}

  lemma {:induction false} ParityXor(a: nat, b: nat)
    ensures Parity(Xor(a, b)) == (Parity(a) != Parity(b))
  {
    if a != 0 || b != 0 {
      ParityXor(a / 2, b / 2);
      XorHalves(a, b);
      ParityStep(a);
      ParityStep(b);
      ParityStep(Xor(a, b));
    }
  }
}
