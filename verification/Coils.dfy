// Bit-packed coils (src/anymodbus/pdu.py `_pack_bits`, `_unpack_bits` and the
// coil banks of src/anymodbus/_mock/slave.py): coil i is bit i mod 8 of byte i div 8.
module Coils {
  import opened Bits

  function Zeros(n: nat): (r: seq<bool>)
    ensures |r| == n && forall i :: 0 <= i < n ==> !r[i]
  {
    seq(n, _ => false)
  }

  function BytesFor(count: nat): nat { (count + 7) / 8 }

  // ----- One bit of a byte string -----

  // x with bit k switched on (`x | 1 << k`) or off (`x & ~(1 << k)`).
  function SetBit(x: nat, k: nat, on: bool): nat
    decreases k, x
  {
    if k == 0 then BitValue(on) + 2 * (x / 2) else BitValue(Odd(x)) + 2 * SetBit(x / 2, k - 1, on)
  }

  lemma {:induction false} SetBitBound(x: nat, k: nat, on: bool, n: nat)
    requires x < Pow2(n) && k < n
    ensures SetBit(x, k, on) < Pow2(n)
    decreases n
  {
    if k > 0 {
      SetBitBound(x / 2, k - 1, on, n - 1);
    }
  }

  lemma {:induction false} LowBitsOfSetBit(x: nat, k: nat, on: bool, n: nat)
    requires k < n
    ensures LowBits(SetBit(x, k, on), n) == LowBits(x, n)[k := on]
    decreases n, x
  {
    if k == 0 {
      Halves(on, x / 2);
    } else {
      Halves(Odd(x), SetBit(x / 2, k - 1, on));
      LowBitsOfSetBit(x / 2, k - 1, on, n - 1);
    }
  }

  function SetByteBit(b: byte, k: nat, on: bool): (r: byte)
    requires k < 8
    ensures ByteBits(r) == ByteBits(b)[k := on]
  {
    Pow2Eight();
    SetBitBound(b, k, on, 8);
    LowBitsOfSetBit(b, k, on, 8);
    SetBit(b, k, on)
  }

  function SetCoil(bank: seq<byte>, address: nat, on: bool): (r: seq<byte>)
    requires address < 8 * |bank|
    ensures |r| == |bank|
  {
    bank[address / 8 := SetByteBit(bank[address / 8], address % 8, on)]
  }

  // Setting a coil changes exactly one logical coil.
  lemma {:induction false} BitsOfSetCoil(bank: seq<byte>, address: nat, on: bool)
    requires address < 8 * |bank|
    ensures BitsOf(SetCoil(bank, address, on)) == BitsOf(bank)[address := on]
  {
    var r := SetCoil(bank, address, on);
    if address < 8 {
      assert address / 8 == 0 && address % 8 == address;
      assert r[1..] == bank[1..];
    } else {
      var rest := address - 8;
      assert rest / 8 == address / 8 - 1 && rest % 8 == address % 8;
      BitsOfSetCoil(bank[1..], rest, on);
      assert r[1..] == SetCoil(bank[1..], rest, on);
    }
  }

  lemma {:induction false} BitsOfInjective(x: seq<byte>, y: seq<byte>)
    requires |x| == |y| && BitsOf(x) == BitsOf(y)
    ensures x == y
  {
    if x != [] {
      assert ByteBits(x[0]) == BitsOf(x)[..8] == BitsOf(y)[..8] == ByteBits(y[0]);
      Pow2Eight();
      NumberOfLowBits(x[0], 8);
      NumberOfLowBits(y[0], 8);
      assert BitsOf(x[1..]) == BitsOf(x)[8..] == BitsOf(y)[8..] == BitsOf(y[1..]);
      BitsOfInjective(x[1..], y[1..]);
    }
  }

  lemma {:induction false} BitsOfZeros(data: seq<byte>)
    requires forall i :: 0 <= i < |data| ==> data[i] == 0
    ensures BitsOf(data) == Zeros(8 * |data|)
  {
    if data != [] {
      LowBitsOfZero(8);
      BitsOfZeros(data[1..]);
    }
  }

  lemma {:induction false} LowBitsOfZero(n: nat)
    ensures LowBits(0, n) == Zeros(n)
  {
    if n > 0 {
      LowBitsOfZero(n - 1);
    }
  }

  // ----- Packing and unpacking -----

  lemma ByteNumber(bits: seq<bool>)
    requires |bits| <= 8
    ensures Number(bits) < 256
  {
    NumberBound(bits);
    Pow2Monotone(|bits|, 8);
    Pow2Eight();
  }

  function PackBits(bits: seq<bool>): (r: seq<byte>)
    ensures |r| == BytesFor(|bits|)
    decreases |bits|
  {
    if |bits| == 0 then []
    else
      var n := if |bits| < 8 then |bits| else 8;
      ByteNumber(bits[..n]);
      [Number(bits[..n])] + PackBits(bits[n..])
  }

  lemma {:induction false} LowBitsPadded(bits: seq<bool>, n: nat)
    requires |bits| <= n
    ensures LowBits(Number(bits), n) == bits + Zeros(n - |bits|)
    decreases n
  {
    if bits == [] {
      LowBitsOfZero(n);
      assert [] + Zeros(n) == Zeros(n);
    } else {
      Halves(bits[0], Number(bits[1..]));
      LowBitsPadded(bits[1..], n - 1);
      assert [bits[0]] + (bits[1..] + Zeros(n - |bits|)) == bits + Zeros(n - |bits|);
    }
  }

  // The packed bytes carry the bits in order, zero-padded to a whole byte.
  lemma {:induction false} BitsOfPacked(bits: seq<bool>)
    ensures BitsOf(PackBits(bits)) == bits + Zeros(8 * BytesFor(|bits|) - |bits|)
    decreases |bits|
  {
    if |bits| > 0 {
      var n := if |bits| < 8 then |bits| else 8;
      var packed := PackBits(bits);
      LowBitsPadded(bits[..n], 8);
      BitsOfPacked(bits[n..]);
      assert packed[1..] == PackBits(bits[n..]);
      assert bits == bits[..n] + bits[n..];
    }
  }

  method PackBitsInPlace(bits: seq<bool>) returns (r: seq<byte>)
    ensures r == PackBits(bits)
  {
    var nbytes := (|bits| + 7) / 8;
    var out: array<byte> := new byte[nbytes](_ => 0);
    BitsOfZeros(out[..]);
    for i := 0 to |bits|
      invariant BitsOf(out[..]) == bits[..i] + Zeros(8 * nbytes - i)
    {
      PackOneMore(out[..], bits, i);
      if bits[i] {
        ghost var before := out[..];
        var index := i / 8;
        out[index] := SetByteBit(out[index], i % 8, true);
        assert out[..] == SetCoil(before, i, true);
      }
    }
    r := out[..];
    AllPacked(r, bits);
  }

  lemma PackOneMore(before: seq<byte>, bits: seq<bool>, i: nat)
    requires i < |bits| <= 8 * |before|
    requires BitsOf(before) == bits[..i] + Zeros(8 * |before| - i)
    ensures BitsOf(if bits[i] then SetCoil(before, i, true) else before) == bits[..i + 1] + Zeros(8 * |before| - i - 1)
  {
    BitsOfSetCoil(before, i, true);
    assert BitsOf(before)[i := bits[i]] == bits[..i + 1] + Zeros(8 * |before| - i - 1);
  }

  lemma AllPacked(packed: seq<byte>, bits: seq<bool>)
    requires |packed| == BytesFor(|bits|)
    requires BitsOf(packed) == bits[..|bits|] + Zeros(8 * |packed| - |bits|)
    ensures packed == PackBits(bits)
  {
    assert bits[..|bits|] == bits;
    BitsOfPacked(bits);
    BitsOfInjective(packed, PackBits(bits));
  }

  // `payload` must carry at least BytesFor(count) bytes.
  function UnpackBits(payload: seq<byte>, count: nat): (r: seq<bool>)
    requires BytesFor(count) <= |payload|
    ensures |r| == count
  {
    seq(count, i requires 0 <= i < count => BitAt(payload[i / 8], i % 8))
  }

  lemma UnpackedBits(payload: seq<byte>, count: nat)
    requires BytesFor(count) <= |payload|
    ensures UnpackBits(payload, count) == BitsOf(payload)[..count]
  {
    forall i | 0 <= i < count
      ensures UnpackBits(payload, count)[i] == BitsOf(payload)[i]
    {
      BitsOfAt(payload, i);
      LowBitsAt(payload[i / 8], 8, i % 8);
    }
  }

  lemma UnpackPack(bits: seq<bool>)
    ensures UnpackBits(PackBits(bits), |bits|) == bits
  {
    UnpackedBits(PackBits(bits), |bits|);
    BitsOfPacked(bits);
  }

  // Packing again reproduces the payload exactly when its padding bits were zero.
  lemma PackUnpack(payload: seq<byte>, count: nat)
    requires |payload| == BytesFor(count)
    ensures PackBits(UnpackBits(payload, count)) == payload
       <==> BitsOf(payload)[count..] == Zeros(8 * |payload| - count)
  {
    var bits, zeros := UnpackBits(payload, count), Zeros(8 * |payload| - count);
    UnpackedBits(payload, count);
    SplitAt(BitsOf(payload), bits, zeros);
    if BitsOf(payload)[count..] == zeros {
      assert bits[..|bits|] == bits;
      AllPacked(payload, bits);
    }
    BitsOfPacked(bits);
  }

  lemma SplitAt(all: seq<bool>, head: seq<bool>, tail: seq<bool>)
    requires |head| <= |all| && head == all[..|head|]
    ensures all[|head|..] == tail <==> all == head + tail
  {}
}
