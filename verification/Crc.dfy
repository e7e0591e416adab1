// CRC-16/Modbus (src/anymodbus/crc.py): the table-driven computation against
// bit-by-bit division, the zero-residue test, and what the check detects.
module Crc {
  import opened Bits

  const POLY: nat := 0xA001
  const INIT: nat := 0xFFFF
  const MIN_CRC_FRAME_LEN := 3

  // ----- Specification: one bit of reflected polynomial division at a time -----

  function Shift(c: nat): nat {
    if Odd(c) then Xor(c / 2, POLY) else c / 2
  }

  function ShiftN(c: nat, n: nat): nat
    decreases n, c
  {
    if n == 0 then c else ShiftN(Shift(c), n - 1)
  }

  // The register after `data`, starting from `c`: each byte is added to the low
  // end and divided out by eight single-bit steps.
  function Divide(c: nat, data: seq<byte>): nat
    decreases |data|
  {
    if data == [] then c else Divide(ShiftN(Xor(c, data[0]), 8), data[1..])
  }

  function Crc16(data: seq<byte>): nat {
    Divide(INIT, data)
  }

  // Little-endian on the wire.
  function CrcBytes(data: seq<byte>): (r: seq<byte>)
    ensures |r| == 2
    ensures (r[0] as int) + 256 * (r[1] as int) == Crc16(data)
  {
    DivideWord(INIT, data);
    [Crc16(data) % 256, Crc16(data) / 256]
  }

  predicate VerifyCrc(frame: seq<byte>) {
    |frame| >= MIN_CRC_FRAME_LEN && Crc16(frame) == 0
  }

  // ----- The register stays a 16-bit word, and division is additive -----

  lemma ShiftWord(c: nat)
    ensures c < 0x10000 ==> Shift(c) < 0x10000
    ensures 0 < c < 0x10000 ==> 0 < Shift(c)
  {
    XorWord(c / 2, POLY);
    XorZero(c / 2, POLY);
  }

  lemma {:induction false} ShiftNWord(c: nat, n: nat)
    requires c < 0x10000
    ensures ShiftN(c, n) < 0x10000
    ensures ShiftN(c, n) == 0 <==> c == 0
    decreases n
  {
    if n > 0 {
      ShiftWord(c);
      assert c == 0 ==> Shift(c) == 0;
      ShiftNWord(Shift(c), n - 1);
    }
  }

  lemma {:induction false} DivideWord(c: nat, data: seq<byte>)
    requires c < 0x10000
    ensures Divide(c, data) < 0x10000
    decreases |data|
  {
    if data != [] {
      XorWord(c, data[0]);
      ShiftNWord(Xor(c, data[0]), 8);
      DivideWord(ShiftN(Xor(c, data[0]), 8), data[1..]);
    }
  }

  lemma ShiftXor(a: nat, b: nat)
    ensures Shift(Xor(a, b)) == Xor(Shift(a), Shift(b))
  {
    XorHalves(a, b);
    var x, y := a / 2, b / 2;
    if Odd(a) && Odd(b) {
      XorSwap(x, POLY, y, POLY);
      XorSelf(POLY);
      XorSelf(Xor(x, y));
    } else if Odd(a) {
      XorAssociates(x, POLY, y);
      XorCommutes(POLY, y);
      XorAssociates(x, y, POLY);
    } else if Odd(b) {
      XorAssociates(x, y, POLY);
    }
  }

  lemma {:induction false} ShiftNXor(a: nat, b: nat, n: nat)
    ensures ShiftN(Xor(a, b), n) == Xor(ShiftN(a, n), ShiftN(b, n))
    decreases n
  {
    if n > 0 {
      ShiftXor(a, b);
      ShiftNXor(Shift(a), Shift(b), n - 1);
    }
  }

  // Zeros below bit n are only shifted out.
  lemma {:induction false} ShiftZeros(high: nat, n: nat)
    ensures ShiftN(high * Pow2(n), n) == high
    decreases n
  {
    if n > 0 {
      var half := high * Pow2(n - 1);
      assert high * Pow2(n) == 2 * half;
      Halves(false, half);
      assert Shift(high * Pow2(n)) == half;
      ShiftZeros(high, n - 1);
    }
  }

  // ----- The table-driven computation -----

  function TableEntry(i: nat): nat { ShiftN(i, 8) }

  ghost predicate IsTable(table: seq<nat>) {
    |table| == 256 && forall i :: 0 <= i < 256 ==> table[i] == TableEntry(i)
  }

  // A byte added to the register only touches its low eight bits.
  lemma SplitRegister(c: nat, b: byte)
    ensures Xor(c % 256, b) < 256
    ensures Xor(c, b) == Xor(256 * (c / 256), Xor(c % 256, b)) == 256 * (c / 256) + Xor(c % 256, b)
  {
    var high, low := 256 * (c / 256), c % 256;
    XorByte(c / 256, low);
    XorAssociates(high, low, b);
    XorWord(low, b);
    XorByte(c / 256, Xor(low, b));
  }

  lemma LowByte(high: nat, low: nat)
    requires low < 256
    ensures (256 * high + low) % 256 == low && (256 * high + low) / 256 == high
  {}

  lemma LookupSplit(high: nat, low: nat)
    requires low < 256
    ensures ShiftN(Xor(256 * high, low), 8) == Xor(high, TableEntry(low))
  {
    ShiftNXor(256 * high, low, 8);
    Pow2Eight();
    ShiftZeros(high, 8);
  }

  // Eight division steps collapse into one table lookup.
  lemma LookupIsDivision(c: nat, b: byte)
    ensures Xor(c, b) % 256 < 256
    ensures ShiftN(Xor(c, b), 8) == Xor(c / 256, TableEntry(Xor(c, b) % 256))
  {
    SplitRegister(c, b);
    LookupSplit(c / 256, Xor(c % 256, b));
    LowByte(c / 256, Xor(c % 256, b));
  }

  lemma {:induction false} ShiftNLast(c: nat, n: nat)
    ensures ShiftN(c, n + 1) == Shift(ShiftN(c, n))
    decreases n
  {
    if n > 0 {
      ShiftNLast(Shift(c), n - 1);
    }
  }

  method BuildTable() returns (table: seq<nat>)
    ensures IsTable(table)
  {
    table := [];
    for i := 0 to 256
      invariant |table| == i && forall k :: 0 <= k < i ==> table[k] == TableEntry(k)
    {
      var crc := i;
      for n := 0 to 8
        invariant crc == ShiftN(i, n)
      {
        ShiftNLast(i, n);
        crc := if crc % 2 == 1 then Xor(crc / 2, POLY) else crc / 2;
      }
      table := table + [crc];
    }
  }

  method Crc16Modbus(table: seq<nat>, data: seq<byte>) returns (crc: nat)
    requires IsTable(table)
    ensures crc == Crc16(data)
  {
    crc := INIT;
    for i := 0 to |data|
      invariant Divide(crc, data[i..]) == Crc16(data)
    {
      LookupIsDivision(crc, data[i]);
      assert data[i..][1..] == data[i + 1..];
      crc := Xor(crc / 256, table[Xor(crc, data[i]) % 256]);
    }
  }

  // ----- The zero-residue test is the recomputation test -----

  lemma {:induction false} DivideConcat(c: nat, x: seq<byte>, y: seq<byte>)
    ensures Divide(c, x + y) == Divide(Divide(c, x), y)
    decreases |x|
  {
    if x == [] {
      assert x + y == y;
    } else {
      DivideConcat(ShiftN(Xor(c, x[0]), 8), x[1..], y);
      assert (x + y)[1..] == x[1..] + y;
    }
  }

  lemma TwoByteResidue(c: nat, a: byte, b: byte)
    requires c < 0x10000
    ensures Divide(c, [a, b]) == 0 <==> a == c % 256 && b == c / 256
  {
    var sum := Xor(c, a);
    var c1 := ShiftN(sum, 8);
    assert [a, b][1..] == [b] && [b][1..] == [];
    assert Divide(c, [a, b]) == Divide(c1, [b]) == ShiftN(Xor(c1, b), 8);
    XorWord(c, a);
    ShiftNWord(sum, 8);
    XorWord(c1, b);
    ShiftNWord(Xor(c1, b), 8);
    XorZero(c1, b);
    assert Divide(c, [a, b]) == 0 <==> c1 == b;
    // c1 == b exactly when the register before the eight steps was b followed by eight zeros.
    Pow2Eight();
    ShiftZeros(b, 8);
    ShiftNXor(sum, b * 256, 8);
    XorWord(sum, b * 256);
    ShiftNWord(Xor(sum, b * 256), 8);
    XorZero(c1, b);
    XorZero(sum, b * 256);
    SplitRegister(c, a);
    XorZero(c % 256, a);
  }

  // A frame verifies exactly when its last two bytes are the CRC of the rest.
  lemma ResidueIffCrcBytes(body: seq<byte>, a: byte, b: byte)
    requires body != []
    ensures VerifyCrc(body + [a, b]) <==> [a, b] == CrcBytes(body)
  {
    DivideConcat(INIT, body, [a, b]);
    DivideWord(INIT, body);
    TwoByteResidue(Crc16(body), a, b);
    assert [a, b] == CrcBytes(body) <==> a == CrcBytes(body)[0] && b == CrcBytes(body)[1];
  }

  lemma AppendedCrcVerifies(body: seq<byte>)
    requires body != []
    ensures VerifyCrc(body + CrcBytes(body))
  {
    ResidueIffCrcBytes(body, CrcBytes(body)[0], CrcBytes(body)[1]);
    assert CrcBytes(body) == [CrcBytes(body)[0], CrcBytes(body)[1]];
  }

  // ----- Error detection -----

  // `x` with the bits set in `error` flipped.
  function FlipBits(x: seq<byte>, error: seq<byte>): (r: seq<byte>)
    requires |x| == |error|
    ensures |r| == |x|
  {
    if x == [] then []
    else
      XorWord(x[0], error[0]);
      [Xor(x[0], error[0])] + FlipBits(x[1..], error[1..])
  }

  lemma {:induction false} FlipBitsFlips(x: seq<byte>, error: seq<byte>, i: nat)
    requires |x| == |error| && i < 8 * |x|
    ensures BitsOf(FlipBits(x, error))[i] == (BitsOf(x)[i] != BitsOf(error)[i])
  {
    var flipped := FlipBits(x, error);
    if i < 8 {
      LowBitsOfXor(x[0], error[0], 8);
      assert BitsOf(flipped)[i] == ByteBits(flipped[0])[i];
    } else {
      FlipBitsFlips(x[1..], error[1..], i - 8);
      assert flipped[1..] == FlipBits(x[1..], error[1..]);
    }
  }

  lemma {:induction false} DivideXor(c: nat, d: nat, x: seq<byte>, y: seq<byte>)
    requires |x| == |y|
    ensures Divide(Xor(c, d), FlipBits(x, y)) == Xor(Divide(c, x), Divide(d, y))
    decreases |x|
  {
    if x != [] {
      XorSwap(c, d, x[0], y[0]);
      ShiftNXor(Xor(c, x[0]), Xor(d, y[0]), 8);
      DivideXor(ShiftN(Xor(c, x[0]), 8), ShiftN(Xor(d, y[0]), 8), x[1..], y[1..]);
    }
  }

  // A damaged frame passes exactly when the damage alone divides evenly.
  lemma UndetectedIffDivisible(frame: seq<byte>, error: seq<byte>)
    requires VerifyCrc(frame) && |error| == |frame|
    ensures VerifyCrc(FlipBits(frame, error)) <==> Divide(0, error) == 0
  {
    DivideXor(INIT, 0, frame, error);
    XorSelf(INIT);
    XorSelf(Divide(0, error));
  }

  // The register fed one bit at a time.
  function Feed(c: nat, bits: seq<bool>): nat
    decreases |bits|
  {
    if bits == [] then c else Feed(Shift(Xor(c, BitValue(bits[0]))), bits[1..])
  }

  // Adding all the bits first and then shifting gives the same register.
  lemma {:induction false} FeedIsShift(c: nat, bits: seq<bool>)
    ensures Feed(c, bits) == ShiftN(Xor(c, Number(bits)), |bits|)
    decreases |bits|
  {
    if bits == [] {
      XorSelf(c);
    } else {
      var b, rest := BitValue(bits[0]), Number(bits[1..]);
      FeedIsShift(Shift(Xor(c, b)), bits[1..]);
      FeedStep(c, b, rest);
    }
  }

  lemma FeedStep(c: nat, b: nat, rest: nat)
    requires b < 2
    ensures Shift(Xor(c, b + 2 * rest)) == Xor(Shift(Xor(c, b)), rest)
  {
    XorCommutes(rest * 2, b);
    assert Pow2(1) == 2;
    XorDisjoint(rest, b, 1);
    XorAssociates(c, b, rest * 2);
    ShiftXor(Xor(c, b), rest * 2);
    Halves(false, rest);
  }

  lemma NumberOfByte(b: byte)
    ensures Number(ByteBits(b)) == b
  {
    Pow2Eight();
    NumberOfLowBits(b, 8);
  }

  lemma {:induction false} FeedConcat(c: nat, x: seq<bool>, y: seq<bool>)
    ensures Feed(c, x + y) == Feed(Feed(c, x), y)
    decreases |x|
  {
    if x == [] {
      assert x + y == y;
    } else {
      FeedConcat(Shift(Xor(c, BitValue(x[0]))), x[1..], y);
      assert (x + y)[1..] == x[1..] + y;
    }
  }

  lemma {:induction false} DivideIsFeed(c: nat, data: seq<byte>)
    ensures Divide(c, data) == Feed(c, BitsOf(data))
    decreases |data|
  {
    if data != [] {
      FeedIsShift(c, ByteBits(data[0]));
      NumberOfByte(data[0]);
      FeedConcat(c, ByteBits(data[0]), BitsOf(data[1..]));
      DivideIsFeed(ShiftN(Xor(c, data[0]), 8), data[1..]);
    }
  }

  ghost predicate AllZero(bits: seq<bool>) {
    forall i :: 0 <= i < |bits| ==> !bits[i]
  }

  lemma {:induction false} NumberOfZeros(bits: seq<bool>)
    ensures AllZero(bits) <==> Number(bits) == 0
  {
    if bits != [] {
      NumberOfZeros(bits[1..]);
      assert bits == [bits[0]] + bits[1..];
    }
  }

  lemma ShortNumberIsWord(bits: seq<bool>)
    requires |bits| <= 16
    ensures Number(bits) < 0x10000
  {
    NumberBound(bits);
    Pow2Monotone(|bits|, 16);
    Pow2Eight();
    assert Pow2(16) == 4 * Pow2(14) && Pow2(14) == 4 * Pow2(12) && Pow2(12) == 4 * Pow2(10) && Pow2(10) == 4 * Pow2(8);
  }

  // Zeros keep an empty register empty and a non-empty one non-empty.
  lemma FeedZeros(c: nat, zeros: seq<bool>)
    requires c < 0x10000 && AllZero(zeros)
    ensures Feed(c, zeros) == 0 <==> c == 0
  {
    FeedIsShift(c, zeros);
    NumberOfZeros(zeros);
    XorSelf(c);
    ShiftNWord(c, |zeros|);
  }

  // Sixteen bits, one of them set, cannot divide evenly.
  lemma FeedBurst(burst: seq<bool>)
    requires |burst| <= 16 && !AllZero(burst)
    ensures 0 < Feed(0, burst) < 0x10000
  {
    FeedIsShift(0, burst);
    NumberOfZeros(burst);
    ShortNumberIsWord(burst);
    XorSelf(Number(burst));
    ShiftNWord(Number(burst), |burst|);
  }

  lemma FeedPadded(head: seq<bool>, burst: seq<bool>, tail: seq<bool>)
    requires AllZero(head) && AllZero(tail) && |burst| <= 16 && !AllZero(burst)
    ensures Feed(0, head + burst + tail) != 0
  {
    FeedConcat(0, head + burst, tail);
    FeedConcat(0, head, burst);
    FeedZeros(0, head);
    FeedBurst(burst);
    FeedZeros(Feed(0, burst), tail);
  }

  lemma FeedSpan(bits: seq<bool>, start: nat, i: nat)
    requires i < |bits| && bits[i]
    requires forall k :: 0 <= k < |bits| && bits[k] ==> start <= k < start + 16
    ensures Feed(0, bits) != 0
  {
    var end := if start + 16 <= |bits| then start + 16 else |bits|;
    assert start <= i < end;
    var head, burst, tail := bits[..start], bits[start..end], bits[end..];
    assert !AllZero(burst) by { assert burst[i - start]; }
    assert AllZero(head) && AllZero(tail);
    assert bits == head + burst + tail;
    FeedPadded(head, burst, tail);
  }

  // Every error confined to 16 consecutive bits is detected, whatever the frame length.
  lemma BurstDetected(frame: seq<byte>, error: seq<byte>, start: nat)
    requires VerifyCrc(frame) && |error| == |frame|
    requires forall i :: 0 <= i < 8 * |error| && BitsOf(error)[i] ==> start <= i < start + 16
    requires exists i :: 0 <= i < 8 * |error| && BitsOf(error)[i]
    ensures !VerifyCrc(FlipBits(frame, error))
  {
    var i :| 0 <= i < 8 * |error| && BitsOf(error)[i];
    FeedSpan(BitsOf(error), start, i);
    DivideIsFeed(0, error);
    UndetectedIffDivisible(frame, error);
  }

  function ByteMask(n: nat, i: nat, b: byte): (r: seq<byte>)
    ensures |r| == n && forall k :: 0 <= k < n ==> r[k] == if k == i then b else 0
  {
    seq(n, k => if k == i then b else 0)
  }

  lemma {:induction false} FlipBytes(x: seq<byte>, error: seq<byte>, k: nat)
    requires |x| == |error| && k < |x|
    ensures FlipBits(x, error)[k] == Xor(x[k], error[k])
  {
    if k > 0 {
      FlipBytes(x[1..], error[1..], k - 1);
    }
  }

  lemma FlippedByte(frame: seq<byte>, i: nat, changed: byte)
    requires i < |frame|
    ensures Xor(frame[i], changed) < 256
    ensures FlipBits(frame, ByteMask(|frame|, i, Xor(frame[i], changed))) == frame[i := changed]
  {
    XorWord(frame[i], changed);
    var mask := ByteMask(|frame|, i, Xor(frame[i], changed));
    forall k | 0 <= k < |frame|
      ensures FlipBits(frame, mask)[k] == frame[i := changed][k]
    {
      FlipBytes(frame, mask, k);
      XorSelf(frame[k]);
      XorAssociates(frame[k], frame[k], changed);
      XorSelf(changed);
    }
  }

  lemma ByteWithBit(b: byte) returns (k: nat)
    requires b != 0
    ensures k < 8 && ByteBits(b)[k]
  {
    NumberOfByte(b);
    NumberOfZeros(ByteBits(b));
    k :| 0 <= k < 8 && ByteBits(b)[k];
  }

  lemma MaskBits(n: nat, i: nat, b: byte, k: nat)
    requires i < n && k < 8 * n
    ensures BitsOf(ByteMask(n, i, b))[k] == (k / 8 == i && ByteBits(b)[k % 8])
  {
    BitsOfAt(ByteMask(n, i, b), k);
    if k / 8 != i {
      NumberOfByte(0);
      NumberOfZeros(ByteBits(0));
    }
  }

  // A change to any one byte, whatever its bits, is detected.
  lemma ByteChangeDetected(frame: seq<byte>, i: nat, changed: byte)
    requires VerifyCrc(frame) && i < |frame| && changed != frame[i]
    ensures !VerifyCrc(frame[i := changed])
  {
    XorWord(frame[i], changed);
    XorZero(frame[i], changed);
    var n, b := |frame|, Xor(frame[i], changed);
    var mask := ByteMask(n, i, b);
    var bit := ByteWithBit(b);
    forall k | 0 <= k < 8 * n
      ensures BitsOf(mask)[k] == (k / 8 == i && ByteBits(b)[k % 8])
    {
      MaskBits(n, i, b, k);
    }
    assert BitsOf(mask)[8 * i + bit];
    BurstDetected(frame, mask, 8 * i);
    FlippedByte(frame, i, changed);
  }

  // Whether an odd number of the bits are set.
  function OddCount(bits: seq<bool>): bool {
    if bits == [] then false else bits[0] != OddCount(bits[1..])
  }

  // The polynomial has a factor x + 1: the register keeps the parity of what was fed.
  lemma ShiftParity(c: nat)
    ensures Parity(Shift(c)) == Parity(c)
  {
    ParityStep(c);
    if Odd(c) {
      ParityXor(c / 2, POLY);
      ParityOfPoly();
    }
  }

  lemma ParityOfPoly()
    ensures Parity(POLY)
  {
    ParityStep(0xA001);
    ParityStep(0x5000);
    ParityStep(0x2800);
    ParityStep(0x1400);
    ParityStep(0xA00);
    ParityStep(0x500);
    ParityStep(0x280);
    ParityStep(0x140);
    ParityStep(0xA0);
    ParityStep(0x50);
    ParityStep(0x28);
    ParityStep(0x14);
    ParityStep(0xA);
    ParityStep(0x5);
    ParityStep(0x2);
    ParityStep(0x1);
  }

  lemma {:induction false} FeedParity(c: nat, bits: seq<bool>)
    ensures Parity(Feed(c, bits)) == (Parity(c) != OddCount(bits))
    decreases |bits|
  {
    if bits != [] {
      var b := BitValue(bits[0]);
      ParityXor(c, b);
      assert Parity(b) == bits[0];
      ShiftParity(Xor(c, b));
      FeedParity(Shift(Xor(c, b)), bits[1..]);
    }
  }

  // Every odd number of flipped bits is detected, wherever they are.
  lemma OddErrorDetected(frame: seq<byte>, error: seq<byte>)
    requires VerifyCrc(frame) && |error| == |frame|
    requires OddCount(BitsOf(error))
    ensures !VerifyCrc(FlipBits(frame, error))
  {
    DivideIsFeed(0, error);
    FeedParity(0, BitsOf(error));
    UndetectedIffDivisible(frame, error);
  }
}
