// The longitudinal redundancy check of Modbus ASCII (src/anymodbus/lrc.py).
module Lrc {
  import opened Bits

  const MIN_LRC_FRAME_LEN := 2

  function Sum(data: seq<byte>): nat {
    if data == [] then 0 else data[0] + Sum(data[1..])
  }

  function Lrc8(data: seq<byte>): byte {
    (-(Sum(data) as int)) % 256
  }

  predicate VerifyLrc(frame: seq<byte>) {
    |frame| >= MIN_LRC_FRAME_LEN && Sum(frame) % 256 == 0
  }

  lemma {:induction false} SumConcat(x: seq<byte>, y: seq<byte>)
    ensures Sum(x + y) == Sum(x) + Sum(y)
  {
    if x == [] {
      assert x + y == y;
    } else {
      SumConcat(x[1..], y);
      assert (x + y)[1..] == x[1..] + y;
    }
  }

  // The zero-sum test accepts exactly the recomputed check byte.
  lemma ZeroSumIffLrc(body: seq<byte>, check: byte)
    requires body != []
    ensures VerifyLrc(body + [check]) <==> check == Lrc8(body)
  {
    SumConcat(body, [check]);
    assert Sum([check]) == check + Sum([]);
    NegatedSum(Sum(body), check);
  }

  lemma NegatedSum(sum: nat, check: byte)
    ensures (sum + check) % 256 == 0 <==> check == (-(sum as int)) % 256
  {
    var q, r := sum / 256, sum % 256;
    assert sum == 256 * q + r;
    assert (sum + check) % 256 == (r + check) % 256;
    assert (-(sum as int)) % 256 == (-(r as int)) % 256;
  }

  // A change to any one byte, the check byte included, is detected.
  lemma OneByteChangeDetected(frame: seq<byte>, i: nat, changed: byte)
    requires VerifyLrc(frame) && i < |frame| && changed != frame[i]
    ensures !VerifyLrc(frame[i := changed])
  {
    var before, after := frame[..i], frame[i + 1..];
    SumOfThree(before, frame[i], after);
    SumOfThree(before, changed, after);
    assert frame == before + [frame[i]] + after;
    assert frame[i := changed] == before + [changed] + after;
    NegatedSum(Sum(before) + Sum(after), changed);
    NegatedSum(Sum(before) + Sum(after), frame[i]);
  }

  lemma SumOfThree(before: seq<byte>, middle: byte, after: seq<byte>)
    ensures Sum(before + [middle] + after) == Sum(before) + Sum(after) + middle
  {
    SumConcat(before + [middle], after);
    SumConcat(before, [middle]);
    assert Sum([middle]) == middle + Sum([]);
  }
}
