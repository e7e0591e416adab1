// Registers as integers and strings (src/anymodbus/decoders.py): word and byte
// orders, two's complement, null padding.
module Decoders {
  import opened Bits
  import opened Errors
  import opened Pdu

  datatype WordOrder = HighLow | LowHigh

  datatype ByteOrder = Big | Little

  function Reversed<T>(s: seq<T>): (r: seq<T>)
    ensures |r| == |s| && forall i :: 0 <= i < |s| ==> r[i] == s[|s| - 1 - i]
  {
    seq(|s|, i requires 0 <= i < |s| => s[|s| - 1 - i])
  }

  // ----- Words and bytes -----

  function High(w: word): byte { w / 256 }

  function Low(w: word): byte { w % 256 }

  // Byte i of the words laid out one after the other.
  function ByteOf(words: seq<word>, byteOrder: ByteOrder, i: nat): byte
    requires i < 2 * |words|
  {
    var w := words[i / 2];
    if (i % 2 == 0) == byteOrder.Big? then High(w) else Low(w)
  }

  function Layout(words: seq<word>, byteOrder: ByteOrder): (r: seq<byte>)
    ensures |r| == 2 * |words|
  {
    seq(2 * |words|, i requires 0 <= i < 2 * |words| => ByteOf(words, byteOrder, i))
  }

  function WordOf(payload: seq<byte>, byteOrder: ByteOrder, i: nat): word
    requires 2 * i + 1 < |payload|
  {
    var a, b := payload[2 * i] as int, payload[2 * i + 1] as int;
    if byteOrder.Big? then 256 * a + b else 256 * b + a
  }

  // The words of a payload of whole registers.
  function WordsOf(payload: seq<byte>, byteOrder: ByteOrder): (r: seq<word>)
    requires |payload| % 2 == 0
    ensures |r| == |payload| / 2
  {
    seq(|payload| / 2, i requires 0 <= i < |payload| / 2 => WordOf(payload, byteOrder, i))
  }

  function PackWords(words: seq<word>, wordOrder: WordOrder, byteOrder: ByteOrder): (r: seq<byte>)
    ensures |r| == 2 * |words|
  {
    Layout(if wordOrder.HighLow? then words else Reversed(words), byteOrder)
  }

  function UnpackToWords(payload: seq<byte>, wordOrder: WordOrder, byteOrder: ByteOrder): (r: seq<word>)
    requires |payload| % 2 == 0
    ensures |r| == |payload| / 2
  {
    var words := WordsOf(payload, byteOrder);
    if wordOrder.HighLow? then words else Reversed(words)
  }

  lemma ReversedTwice<T>(s: seq<T>)
    ensures Reversed(Reversed(s)) == s
  {}

  lemma WordsOfLayout(words: seq<word>, byteOrder: ByteOrder)
    ensures WordsOf(Layout(words, byteOrder), byteOrder) == words
  {
    var payload := Layout(words, byteOrder);
    forall i | 0 <= i < |words|
      ensures WordOf(payload, byteOrder, i) == words[i]
    {
      assert payload[2 * i] == ByteOf(words, byteOrder, 2 * i)
             && payload[2 * i + 1] == ByteOf(words, byteOrder, 2 * i + 1);
    }
  }

  lemma LayoutOfWords(payload: seq<byte>, byteOrder: ByteOrder)
    requires |payload| % 2 == 0
    ensures Layout(WordsOf(payload, byteOrder), byteOrder) == payload
  {
    var words := WordsOf(payload, byteOrder);
    forall i | 0 <= i < |payload|
      ensures ByteOf(words, byteOrder, i) == payload[i]
    {
      assert words[i / 2] == WordOf(payload, byteOrder, i / 2);
      assert i == 2 * (i / 2) + i % 2;
    }
  }

  // Packing and unpacking undo each other, for any number of words and all four orders.
  lemma UnpackPackWords(words: seq<word>, wordOrder: WordOrder, byteOrder: ByteOrder)
    ensures UnpackToWords(PackWords(words, wordOrder, byteOrder), wordOrder, byteOrder) == words
  {
    WordsOfLayout(if wordOrder.HighLow? then words else Reversed(words), byteOrder);
    ReversedTwice(words);
  }

  lemma PackUnpackWords(payload: seq<byte>, wordOrder: WordOrder, byteOrder: ByteOrder)
    requires |payload| % 2 == 0
    ensures PackWords(UnpackToWords(payload, wordOrder, byteOrder), wordOrder, byteOrder) == payload
  {
    LayoutOfWords(payload, byteOrder);
    ReversedTwice(WordsOf(payload, byteOrder));
  }

  // Low word first with swapped bytes is the whole value backwards.
  lemma LowHighLittleIsReversal(words: seq<word>)
    ensures PackWords(words, LowHigh, Little) == Reversed(PackWords(words, HighLow, Big))
  {
    var n := |words|;
    var backwards, straight := PackWords(words, LowHigh, Little), PackWords(words, HighLow, Big);
    forall i | 0 <= i < 2 * n
      ensures backwards[i] == straight[2 * n - 1 - i]
    {
      var j := 2 * n - 1 - i;
      assert j / 2 == n - 1 - i / 2 && (j % 2 == 0) == (i % 2 == 1);
      assert straight[j] == ByteOf(words, Big, j);
      assert backwards[i] == ByteOf(Reversed(words), Little, i);
      assert Reversed(words)[i / 2] == words[j / 2];
    }
  }

  // ----- Integers -----

  datatype Width = Int16 | Int32 | Int64
  {
    function Registers(): nat { if Int16? then 1 else if Int32? then 2 else 4 }

    // Two to the number of bits.
    function Limit(): nat { if Int16? then 0x1_0000 else if Int32? then 0x1_0000_0000 else 0x1_0000_0000_0000_0000 }

    predicate InRange(value: int, signed: bool) {
      if signed then -(Limit() / 2) <= value <= Limit() / 2 - 1 else 0 <= value <= Limit() - 1
    }
  }

  function Pow256(n: nat): nat { if n == 0 then 1 else 256 * Pow256(n - 1) }

  lemma LimitIsPow256(width: Width)
    ensures width.Limit() == Pow256(2 * width.Registers())
  {
    assert Pow256(2) == 256 * Pow256(1) && Pow256(1) == 256;
    assert Pow256(4) == 256 * Pow256(3) && Pow256(3) == 256 * Pow256(2);
    assert Pow256(6) == 256 * Pow256(5) && Pow256(5) == 256 * Pow256(4);
    assert Pow256(8) == 256 * Pow256(7) && Pow256(7) == 256 * Pow256(6);
  }

  // Big-endian: `struct` formats with '>'.
  function FromBigEndian(bytes: seq<byte>): nat {
    if bytes == [] then 0 else 256 * FromBigEndian(bytes[..|bytes| - 1]) + bytes[|bytes| - 1]
  }

  function ToBigEndian(value: nat, n: nat): (r: seq<byte>)
    ensures |r| == n
    decreases n, value
  {
    if n == 0 then [] else ToBigEndian(value / 256, n - 1) + [value % 256]
  }

  lemma {:induction false} FromToBigEndian(value: nat, n: nat)
    requires value < Pow256(n)
    ensures FromBigEndian(ToBigEndian(value, n)) == value
    decreases n
  {
    if n > 0 {
      FromToBigEndian(value / 256, n - 1);
      assert ToBigEndian(value, n)[..n - 1] == ToBigEndian(value / 256, n - 1);
    }
  }

  lemma {:induction false} ToFromBigEndian(bytes: seq<byte>)
    ensures FromBigEndian(bytes) < Pow256(|bytes|)
    ensures ToBigEndian(FromBigEndian(bytes), |bytes|) == bytes
    decreases |bytes|
  {
    if bytes != [] {
      var rest, last := bytes[..|bytes| - 1], bytes[|bytes| - 1];
      ToFromBigEndian(rest);
      assert (256 * FromBigEndian(rest) + last) / 256 == FromBigEndian(rest);
      assert bytes == rest + [last];
    }
  }

  // Two's complement.
  function Unsigned(value: int, limit: nat): nat
    requires -(limit as int) <= value
  {
    if value < 0 then value + limit else value
  }

  function Signed(bits: nat, limit: nat): int {
    if bits >= limit / 2 then bits - limit else bits
  }

  lemma SignedUnsigned(value: int, limit: nat)
    requires limit % 2 == 0 && -(limit / 2) <= value < limit / 2
    ensures 0 <= Unsigned(value, limit) < limit && Signed(Unsigned(value, limit), limit) == value
  {}

  lemma UnsignedSigned(bits: nat, limit: nat)
    requires limit % 2 == 0 && bits < limit
    ensures -(limit / 2) <= Signed(bits, limit) < limit / 2 && Unsigned(Signed(bits, limit), limit) == bits
  {}

  function EncodeInt(width: Width, value: int, signed: bool, wordOrder: WordOrder,
                     byteOrder: ByteOrder): Result<seq<word>> {
    if !width.InRange(value, signed) then Err(ConfigurationError)
    else Ok(UnpackToWords(ToBigEndian(Unsigned(value, width.Limit()), 2 * width.Registers()), wordOrder, byteOrder))
  }

  function DecodeInt(width: Width, words: seq<int>, signed: bool, wordOrder: WordOrder,
                     byteOrder: ByteOrder): Result<int> {
    if |words| != width.Registers() || !AllWords(words) then Err(ConfigurationError)
    else
      var bits := FromBigEndian(PackWords(words, wordOrder, byteOrder));
      Ok(if signed then Signed(bits, width.Limit()) else bits)
  }

  // Integers round-trip on exactly their range, in every order.
  lemma DecodeEncodeInt(width: Width, value: int, signed: bool, wordOrder: WordOrder, byteOrder: ByteOrder)
    ensures EncodeInt(width, value, signed, wordOrder, byteOrder).Ok? <==> width.InRange(value, signed)
    ensures width.InRange(value, signed) ==>
              var words := EncodeInt(width, value, signed, wordOrder, byteOrder).value;
              DecodeInt(width, words, signed, wordOrder, byteOrder) == Ok(value)
  {
    hide PackWords, UnpackToWords, ToBigEndian, FromBigEndian, Pow256;
    if width.InRange(value, signed) {
      var limit := width.Limit();
      var bytes := ToBigEndian(Unsigned(value, limit), 2 * width.Registers());
      PackUnpackWords(bytes, wordOrder, byteOrder);
      LimitIsPow256(width);
      if signed {
        SignedUnsigned(value, limit);
      }
      FromToBigEndian(Unsigned(value, limit), 2 * width.Registers());
    }
  }

  // Every register pattern is some integer, and encodes back to itself.
  lemma EncodeDecodeInt(width: Width, words: seq<int>, signed: bool, wordOrder: WordOrder, byteOrder: ByteOrder)
    requires |words| == width.Registers() && AllWords(words)
    ensures DecodeInt(width, words, signed, wordOrder, byteOrder).Ok?
    ensures EncodeInt(width, DecodeInt(width, words, signed, wordOrder, byteOrder).value, signed, wordOrder, byteOrder)
            == Ok(words)
  {
    hide PackWords, UnpackToWords, ToBigEndian, FromBigEndian, Pow256;
    var bytes := PackWords(words, wordOrder, byteOrder);
    ToFromBigEndian(bytes);
    LimitIsPow256(width);
    UnsignedSigned(FromBigEndian(bytes), width.Limit());
    UnpackPackWords(words, wordOrder, byteOrder);
  }

  // ----- What the registers of an integer mean -----

  // A register as the number it carries: as it is, or with its two bytes swapped.
  function Carried(w: word, byteOrder: ByteOrder): nat {
    if byteOrder.Big? then w else 256 * (w % 256) + w / 256
  }

  // Registers as the digits of a number, the most significant first.
  function Digits(words: seq<word>, byteOrder: ByteOrder): nat {
    if words == [] then 0
    else 65536 * Digits(words[..|words| - 1], byteOrder) + Carried(words[|words| - 1], byteOrder)
  }

  lemma {:induction false} LayoutIsDigits(words: seq<word>, byteOrder: ByteOrder)
    ensures FromBigEndian(Layout(words, byteOrder)) == Digits(words, byteOrder)
    decreases |words|
  {
    if words != [] {
      var n := |words| - 1;
      LayoutIsDigits(words[..n], byteOrder);
      LastRegister(words, byteOrder);
    }
  }

  lemma LastRegister(words: seq<word>, byteOrder: ByteOrder)
    requires words != []
    ensures var n := |words| - 1;
            FromBigEndian(Layout(words, byteOrder))
            == 65536 * FromBigEndian(Layout(words[..n], byteOrder)) + Carried(words[n], byteOrder)
  {
    var n, bytes := |words| - 1, Layout(words, byteOrder);
    LayoutEnds(words, byteOrder);
    hide Layout;
    var rest, one := bytes[..2 * n], bytes[..2 * n + 1];
    assert one[..2 * n] == rest && bytes[..|bytes| - 1] == one;
    assert FromBigEndian(one) == 256 * FromBigEndian(rest) + bytes[2 * n];
    assert FromBigEndian(bytes) == 256 * FromBigEndian(one) + bytes[2 * n + 1];
  }

  lemma LayoutEnds(words: seq<word>, byteOrder: ByteOrder)
    requires words != []
    ensures var n, bytes := |words| - 1, Layout(words, byteOrder);
            && bytes[..2 * n] == Layout(words[..n], byteOrder)
            && 256 * bytes[2 * n] as nat + bytes[2 * n + 1] as nat == Carried(words[n], byteOrder)
  {
    var n, bytes := |words| - 1, Layout(words, byteOrder);
    assert bytes[2 * n] == ByteOf(words, byteOrder, 2 * n) && bytes[2 * n + 1] == ByteOf(words, byteOrder, 2 * n + 1);
    forall i | 0 <= i < 2 * n
      ensures bytes[i] == Layout(words[..n], byteOrder)[i]
    {
      assert bytes[i] == ByteOf(words, byteOrder, i) == ByteOf(words[..n], byteOrder, i);
    }
  }

  // Two's complement of so many bits.
  function TwosComplement(bits: nat, limit: nat): int { if 2 * bits < limit then bits else bits - limit }

  // Register i of an integer, the most significant first.
  function Digit(words: seq<word>, wordOrder: WordOrder, byteOrder: ByteOrder, i: nat): nat
    requires i < |words|
  {
    Carried(if wordOrder.HighLow? then words[i] else words[|words| - 1 - i], byteOrder)
  }

  // The number that registers decode to, for each width and order.
  lemma IntegerMeans(width: Width, words: seq<word>, signed: bool, wordOrder: WordOrder, byteOrder: ByteOrder)
    ensures DecodeInt(width, words, signed, wordOrder, byteOrder).Err? ==>
              DecodeInt(width, words, signed, wordOrder, byteOrder).error == ConfigurationError
    ensures var r := DecodeInt(width, words, signed, wordOrder, byteOrder);
            match width
            case Int16 =>
              && (r.Ok? <==> |words| == 1)
              && (r.Ok? ==>
                    var bits := Digit(words, wordOrder, byteOrder, 0);
                    r.value == if signed then TwosComplement(bits, 65536) else bits)
            case Int32 =>
              && (r.Ok? <==> |words| == 2)
              && (r.Ok? ==>
                    var bits := 65536 * Digit(words, wordOrder, byteOrder, 0) + Digit(words, wordOrder, byteOrder, 1);
                    r.value == if signed then TwosComplement(bits, 4294967296) else bits)
            case Int64 =>
              && (r.Ok? <==> |words| == 4)
              && (r.Ok? ==>
                    var bits := 281474976710656 * Digit(words, wordOrder, byteOrder, 0)
                                + 4294967296 * Digit(words, wordOrder, byteOrder, 1)
                                + 65536 * Digit(words, wordOrder, byteOrder, 2) + Digit(words, wordOrder, byteOrder, 3);
                    r.value == if signed then TwosComplement(bits, 18446744073709551616) else bits)
  {
    var ordered := if wordOrder.HighLow? then words else Reversed(words);
    LayoutIsDigits(ordered, byteOrder);
    FewDigits(ordered, byteOrder);
    hide FromBigEndian, Layout, Digits, Carried;
  }

  lemma FewDigits(words: seq<word>, byteOrder: ByteOrder)
    ensures |words| == 1 ==> Digits(words, byteOrder) == Carried(words[0], byteOrder)
    ensures |words| == 2 ==>
              Digits(words, byteOrder) == 65536 * Carried(words[0], byteOrder) + Carried(words[1], byteOrder)
    ensures |words| == 4 ==>
              Digits(words, byteOrder)
              == 281474976710656 * Carried(words[0], byteOrder) + 4294967296 * Carried(words[1], byteOrder)
                 + 65536 * Carried(words[2], byteOrder) + Carried(words[3], byteOrder)
  {
    assert words[..|words|] == words;
    if |words| >= 1 {
      DigitsNext(words, byteOrder, 0);
    }
    if |words| >= 2 {
      DigitsNext(words, byteOrder, 1);
    }
    if |words| == 4 {
      DigitsNext(words, byteOrder, 2);
      DigitsNext(words, byteOrder, 3);
    }
    hide Digits, Carried;
  }

  lemma DigitsNext(words: seq<word>, byteOrder: ByteOrder, n: nat)
    requires n < |words|
    ensures Digits(words[..n + 1], byteOrder) == 65536 * Digits(words[..n], byteOrder) + Carried(words[n], byteOrder)
    ensures Digits(words[..0], byteOrder) == 0
  {
    assert words[..n + 1][..n] == words[..n];
  }

  // And the numbers that can be encoded.
  lemma IntegerRange(width: Width, value: int, signed: bool, wordOrder: WordOrder, byteOrder: ByteOrder)
    ensures EncodeInt(width, value, signed, wordOrder, byteOrder).Ok? <==>
              match width
              case Int16 => if signed then -32768 <= value < 32768 else 0 <= value < 65536
              case Int32 => if signed then -2147483648 <= value < 2147483648 else 0 <= value < 4294967296
              case Int64 =>
                if signed then -9223372036854775808 <= value < 9223372036854775808
                else 0 <= value < 18446744073709551616
    ensures EncodeInt(width, value, signed, wordOrder, byteOrder).Err? ==>
              EncodeInt(width, value, signed, wordOrder, byteOrder).error == ConfigurationError
  {
    hide ToBigEndian, UnpackToWords;
  }

  // ----- Strings, as the bytes of their encoding -----

  function TrimNulls(s: seq<byte>): (r: seq<byte>)
    ensures |r| <= |s| && r == s[..|r|]
    ensures r == [] || r[|r| - 1] != 0
    ensures forall i :: |r| <= i < |s| ==> s[i] == 0
    decreases |s|
  {
    if s == [] || s[|s| - 1] != 0 then s else TrimNulls(s[..|s| - 1])
  }

  function Padded(s: seq<byte>, n: nat, pad: byte): (r: seq<byte>)
    ensures |r| == (if |s| < n then n else |s|) && r[..|s|] == s
    ensures forall i :: |s| <= i < |r| ==> r[i] == pad
  {
    if n <= |s| then s else s + seq(n - |s|, _ => pad)
  }

  function DecodeString(words: seq<int>, byteOrder: ByteOrder, stripNull: bool): Result<seq<byte>> {
    if !AllWords(words) then Err(ConfigurationError)
    else
      var raw := Layout(words, byteOrder);
      Ok(if stripNull then TrimNulls(raw) else raw)
  }

  function EncodeString(value: seq<byte>, registerCount: Option<int>, byteCount: Option<int>, byteOrder: ByteOrder,
                        pad: seq<byte>):
    Result<seq<word>>
  {
    if registerCount.None? == byteCount.None? || |pad| != 1 then Err(ConfigurationError)
    else if registerCount.Some? then
      if registerCount.value < 1 || |value| > 2 * registerCount.value then Err(ConfigurationError)
      else Ok(WordsOf(Padded(value, 2 * registerCount.value, pad[0]), byteOrder))
    else if byteCount.value < 1 || |value| > byteCount.value then Err(ConfigurationError)
    else Ok(WordsOf(Padded(value, 2 * ((byteCount.value + 1) / 2), pad[0]), byteOrder))
  }

  // What `read_string` makes of the registers it read.
  function ReadBackString(words: seq<int>, byteCount: Option<int>, byteOrder: ByteOrder,
                          stripNull: bool): Result<seq<byte>>
    requires byteCount.Some? ==> byteCount.value >= 0
  {
    var decoded :- DecodeString(words, byteOrder, false);
    var cut := if byteCount.Some? && byteCount.value < |decoded| then decoded[..byteCount.value] else decoded;
    Ok(if stripNull then TrimNulls(cut) else cut)
  }

  predicate EndsInNull(s: seq<byte>) { s != [] && s[|s| - 1] == 0 }

  lemma {:induction false} TrimZeros(s: seq<byte>, zeros: seq<byte>)
    requires forall i :: 0 <= i < |zeros| ==> zeros[i] == 0
    ensures TrimNulls(s + zeros) == TrimNulls(s)
    decreases |zeros|
  {
    if zeros == [] {
      assert s + zeros == s;
    } else {
      TrimZeros(s, zeros[..|zeros| - 1]);
      assert (s + zeros)[..|s + zeros| - 1] == s + zeros[..|zeros| - 1];
    }
  }

  lemma TrimPadded(s: seq<byte>, n: nat)
    ensures TrimNulls(Padded(s, n, 0)) == s <==> !EndsInNull(s)
  {
    var padded := Padded(s, n, 0);
    assert padded == s + padded[|s|..];
    TrimZeros(s, padded[|s|..]);
  }

  // A string that fits survives null padding exactly when it does not end in a NUL itself.
  lemma DecodeEncodeString(value: seq<byte>, registerCount: Option<int>, byteCount: Option<int>, byteOrder: ByteOrder)
    requires EncodeString(value, registerCount, byteCount, byteOrder, [0]).Ok?
    ensures var words := EncodeString(value, registerCount, byteCount, byteOrder, [0]).value;
            && |words| == (if registerCount.Some? then registerCount.value else (byteCount.value + 1) / 2)
            && (DecodeString(words, byteOrder, true) == Ok(value) <==> !EndsInNull(value))
  {
    hide Layout, WordsOf, TrimNulls, Padded, EndsInNull;
    var n := if registerCount.Some? then 2 * registerCount.value else 2 * ((byteCount.value + 1) / 2);
    LayoutOfWords(Padded(value, n, 0), byteOrder);
    TrimPadded(value, n);
  }

  // The same through `write_string` and `read_string`, which cuts an odd length back before stripping.
  lemma ReadWrittenString(value: seq<byte>, registerCount: Option<int>, byteCount: Option<int>, byteOrder: ByteOrder)
    requires EncodeString(value, registerCount, byteCount, byteOrder, [0]).Ok?
    ensures var words := EncodeString(value, registerCount, byteCount, byteOrder, [0]).value;
            ReadBackString(words, byteCount, byteOrder, true) == Ok(value) <==> !EndsInNull(value)
  {
    hide Layout, WordsOf, TrimNulls, Padded, EndsInNull;
    var n := if registerCount.Some? then 2 * registerCount.value else 2 * ((byteCount.value + 1) / 2);
    LayoutOfWords(Padded(value, n, 0), byteOrder);
    var cut := if byteCount.Some? then byteCount.value else n;
    PaddedPrefix(value, cut, n);
    TrimPadded(value, cut);
  }

  lemma PaddedPrefix(s: seq<byte>, cut: nat, n: nat)
    requires |s| <= cut <= n
    ensures |Padded(s, n, 0)| == n && Padded(s, n, 0)[..cut] == Padded(s, cut, 0)
  {
    var padded := Padded(s, n, 0);
    assert padded == s + padded[|s|..];
  }

  // ----- Where the characters of a string stand -----

  // Character k of the registers: two to a register, the first in the high byte unless the bytes are swapped.
  function CharacterAt(words: seq<word>, byteOrder: ByteOrder, k: nat): nat
    requires k < 2 * |words|
  {
    if (k % 2 == 0) == byteOrder.Big? then words[k / 2] / 256 else words[k / 2] % 256
  }

  // Decoding without stripping gives every character.
  lemma StringRead(words: seq<word>, byteOrder: ByteOrder)
    ensures var r := DecodeString(words, byteOrder, false);
            && r.Ok? && |r.value| == 2 * |words|
            && forall k :: 0 <= k < |r.value| ==> r.value[k] as nat == CharacterAt(words, byteOrder, k)
  {
    forall k | 0 <= k < 2 * |words|
      ensures Layout(words, byteOrder)[k] as nat == CharacterAt(words, byteOrder, k)
    {
      assert Layout(words, byteOrder)[k] == ByteOf(words, byteOrder, k);
    }
  }

  // The first characters, up to `cut` of them: all, or without the NULs they end in.
  predicate FirstCharacters(r: seq<byte>, words: seq<word>, byteOrder: ByteOrder, cut: nat, stripNull: bool)
    requires cut <= 2 * |words|
  {
    && |r| <= cut
    && (forall k :: 0 <= k < |r| ==> r[k] as nat == CharacterAt(words, byteOrder, k))
    && if stripNull then
         (r != [] ==> r[|r| - 1] != 0) && forall k :: |r| <= k < cut ==> CharacterAt(words, byteOrder, k) == 0
       else |r| == cut
  }

  // Reading a string back: cut to the number of bytes asked for, then stripped if asked for.
  lemma StringReadBack(words: seq<word>, byteCount: Option<int>, byteOrder: ByteOrder, stripNull: bool)
    requires byteCount.Some? ==> byteCount.value >= 0
    ensures var all, r := 2 * |words|, ReadBackString(words, byteCount, byteOrder, stripNull);
            var cut := if byteCount.Some? && byteCount.value < all then byteCount.value else all;
            r.Ok? && FirstCharacters(r.value, words, byteOrder, cut, stripNull)
    ensures var r := DecodeString(words, byteOrder, stripNull);
            r.Ok? && FirstCharacters(r.value, words, byteOrder, 2 * |words|, stripNull)
  {
    var all := 2 * |words|;
    StringRead(words, byteOrder);
    hide Layout, CharacterAt, FirstCharacters, TrimNulls;
    CutAndStripped(words, byteOrder, all, stripNull);
    CutAndStripped(words, byteOrder, if byteCount.Some? && byteCount.value < all then byteCount.value else all,
                   stripNull);
    assert DecodeString(words, byteOrder, false).value[..all] == DecodeString(words, byteOrder, false).value;
  }

  lemma CutAndStripped(words: seq<word>, byteOrder: ByteOrder, cut: nat, stripNull: bool)
    requires cut <= 2 * |words|
    ensures var first := Layout(words, byteOrder)[..cut];
            FirstCharacters(if stripNull then TrimNulls(first) else first, words, byteOrder, cut, stripNull)
  {
    StringRead(words, byteOrder);
    hide Layout, CharacterAt;
    var first := Layout(words, byteOrder)[..cut];
    assert forall k :: 0 <= k < cut ==> first[k] == Layout(words, byteOrder)[k];
  }

  // Encoding puts the string first and fills up with the padding, when the string fits and one size is given.
  lemma StringWritten(value: seq<byte>, registerCount: Option<int>, byteCount: Option<int>, byteOrder: ByteOrder,
                      pad: seq<byte>)
    ensures var r := EncodeString(value, registerCount, byteCount, byteOrder, pad);
            && (r.Ok? <==>
                  && |pad| == 1
                  && ((registerCount.Some? && byteCount.None? && 1 <= registerCount.value
                       && |value| <= 2 * registerCount.value)
                      || (registerCount.None? && byteCount.Some? && 1 <= byteCount.value
                          && |value| <= byteCount.value)))
            && (r.Err? ==> r.error == ConfigurationError)
            && (r.Ok? ==>
                  && |r.value| == (if registerCount.Some? then registerCount.value else (byteCount.value + 1) / 2)
                  && forall k :: 0 <= k < 2 * |r.value| ==>
                       CharacterAt(r.value, byteOrder, k) == (if k < |value| then value[k] else pad[0]) as nat)
  {
    var r := EncodeString(value, registerCount, byteCount, byteOrder, pad);
    if r.Ok? {
      var padded := Padded(value, 2 * |r.value|, pad[0]);
      LayoutOfWords(padded, byteOrder);
      StringRead(r.value, byteOrder);
      assert padded[..|value|] == value;
      assert forall k :: 0 <= k < |value| ==> padded[k] == padded[..|value|][k];
    }
  }
}
