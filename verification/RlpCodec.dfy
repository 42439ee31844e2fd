/** The loops of the RLP package, each proved to compute the function of module Rlp. */
module RlpCodec {
  import opened Base
  import opened Rlp

  // --------------------------------------------------------------- numbers by way of hexadecimal

  /** The digits of n in base 16, most significant first, without padding. */
  function HexDigits(n: nat): (h: seq<Nibble>)
    ensures |h| > 0
  {
    if n < 16 then [n] else HexDigits(n / 16) + [n % 16]
  }

  function PadToEven(hex: seq<Nibble>): (h: seq<Nibble>)
    ensures |h| % 2 == 0
  {
    if |hex| % 2 == 1 then [0] + hex else hex
  }

  function NumberToHex(n: nat): (h: seq<Nibble>)
    ensures |h| > 0 && |h| % 2 == 0
  {
    PadToEven(HexDigits(n))
  }

  function ParseHex(h: seq<Nibble>): nat {
    if h == [] then 0 else 16 * ParseHex(h[..|h| - 1]) + h[|h| - 1]
  }

  lemma {:induction false} TwoDigits(n: nat)
    ensures n / 16 / 16 == n / 256
    ensures JoinNibbles(n / 16 % 16, n % 16) == n % 256
  {
  }

  lemma {:induction false} HexDigitsStep(n: nat)
    requires n >= 256
    ensures HexDigits(n) == HexDigits(n / 256) + [n / 16 % 16, n % 16]
  {
    TwoDigits(n);
    assert HexDigits(n / 16) == HexDigits(n / 16 / 16) + [n / 16 % 16];
  }

  /** Printing a number in padded hexadecimal and reading the digits in pairs is its big-endian form. */
  lemma {:induction false} HexIsBigEndian(n: nat)
    ensures Pack(NumberToHex(n)) == BigEndian(n)
  {
    if n >= 256 {
      HexIsBigEndian(n / 256);
      HexDigitsStep(n);
      TwoDigits(n);
      PackConcat(NumberToHex(n / 256), [n / 16 % 16, n % 16]);
      PadAppend(HexDigits(n / 256), n / 16 % 16, n % 16);
    } else if n >= 16 {
      assert HexDigits(n) == [n / 16, n % 16];
    }
  }

  lemma {:induction false} PadAppend(hex: seq<Nibble>, high: Nibble, low: Nibble)
    ensures PadToEven(hex + [high, low]) == PadToEven(hex) + [high, low]
  {
  }

  lemma {:induction false} ParseHexIsToNat(b: Bytes)
    ensures ParseHex(Unpack(b)) == ToNat(b)
  {
    if b != [] {
      var front, last := b[..|b| - 1], b[|b| - 1];
      ParseHexIsToNat(front);
      assert b == front + [last];
      UnpackLast(front, last);
      ParseHexAppend(Unpack(front), HighNibble(last), LowNibble(last));
    }
  }

  lemma {:induction false} UnpackLast(front: Bytes, last: Byte)
    ensures Unpack(front + [last]) == Unpack(front) + [HighNibble(last), LowNibble(last)]
    ensures JoinNibbles(HighNibble(last), LowNibble(last)) == last
  {
    UnpackConcat(front, [last]);
    assert Unpack([last]) == [HighNibble(last), LowNibble(last)];
  }

  lemma {:induction false} ParseHexAppend(h: seq<Nibble>, high: Nibble, low: Nibble)
    ensures ParseHex(h + [high, low]) == 256 * ParseHex(h) + JoinNibbles(high, low)
  {
    var all := h + [high, low];
    assert all[..|all| - 1] == h + [high];
    assert (h + [high])[..|h|] == h;
  }

  lemma {:induction false} PackPair(high: Nibble, low: Nibble)
    ensures Pack([high, low]) == [JoinNibbles(high, low)]
  {
    assert [high, low][2..] == [] && Pack([]) == [];
  }

  lemma {:induction false} PackNext(hex: seq<Nibble>, hi: nat)
    requires hi % 2 == 0 && hi + 2 <= |hex|
    ensures Pack(hex[..hi + 2]) == Pack(hex[..hi]) + [JoinNibbles(hex[hi], hex[hi + 1])]
  {
    hide Pack, JoinNibbles;
    var pair := [hex[hi], hex[hi + 1]];
    PackPair(hex[hi], hex[hi + 1]);
    PackConcat(hex[..hi], pair);
    assert hex[..hi + 2] == hex[..hi] + pair;
  }

  method HexToBytes(hex: seq<Nibble>) returns (b: Bytes)
    requires |hex| % 2 == 0
    ensures b == Pack(hex)
  {
    var buffer := new Byte[|hex| / 2];
    var ai, hi := 0, 0;
    while ai < buffer.Length
      invariant 0 <= ai <= buffer.Length && hi == 2 * ai
      invariant buffer[..ai] == Pack(hex[..hi])
    {
      PackNext(hex, hi);
      buffer[ai] := JoinNibbles(hex[hi], hex[hi + 1]);
      ai, hi := ai + 1, hi + 2;
    }
    assert hex[..hi] == hex;
    b := buffer[..];
  }

  method BytesToHex(b: Bytes) returns (hex: seq<Nibble>)
    ensures hex == Unpack(b)
  {
    hex := [];
    for i := 0 to |b|
      invariant hex == Unpack(b[..i])
    {
      UnpackLast(b[..i], b[i]);
      assert b[..i + 1] == b[..i] + [b[i]];
      hex := hex + [HighNibble(b[i]), LowNibble(b[i])];
    }
    assert b[..|b|] == b;
  }

  method ConcatBytes(arrays: seq<Bytes>) returns (r: Bytes)
    ensures r == Flatten(arrays)
  {
    if |arrays| == 1 {
      assert arrays[1..] == [] && arrays[0] + [] == arrays[0];
      return arrays[0];
    }
    var length := 0;
    for i := 0 to |arrays|
      invariant length == |Flatten(arrays[..i])|
    {
      FlattenAppend(arrays[..i], arrays[i]);
      assert arrays[..i + 1] == arrays[..i] + [arrays[i]];
      length := length + |arrays[i]|;
    }
    assert arrays[..|arrays|] == arrays;
    var result := new Byte[length];
    var pad := 0;
    for i := 0 to |arrays|
      invariant pad == |Flatten(arrays[..i])| <= result.Length
      invariant result.Length == |Flatten(arrays)|
      invariant result[..pad] == Flatten(arrays[..i])
    {
      FlattenAppend(arrays[..i], arrays[i]);
      assert arrays[..i + 1] == arrays[..i] + [arrays[i]];
      FlattenSplit(arrays, i + 1);
      var arr := arrays[i];
      forall j | 0 <= j < |arr| {
        result[pad + j] := arr[j];
      }
      assert result[..pad + |arr|] == result[..pad] + arr;
      pad := pad + |arr|;
    }
    assert arrays[..|arrays|] == arrays;
    r := result[..];
  }

  lemma {:induction false} FlattenSplit(parts: seq<Bytes>, i: nat)
    requires i <= |parts|
    ensures Flatten(parts) == Flatten(parts[..i]) + Flatten(parts[i..])
  {
    if i > 0 {
      FlattenSplit(parts[1..], i - 1);
      assert parts[..i][1..] == parts[1..][..i - 1];
      assert parts[1..][i - 1..] == parts[i..];
    }
  }

  // ------------------------------------------------------------------------------------ encoding

  method EncodeLength(len: nat, offset: nat) returns (h: Bytes)
    requires offset <= 192
    ensures h == Header(len, offset)
  {
    if len < 56 {
      return [len + offset];
    }
    hide Pack, BigEndian, NumberToHex;
    var hexLength := NumberToHex(len);
    var lLength := |hexLength| / 2;
    var firstByte := NumberToHex(offset + 55 + lLength);
    HexIsBigEndian(len);
    HexIsBigEndian(offset + 55 + lLength);
    PackConcat(firstByte, hexLength);
    assert Pack(firstByte + hexLength) == Header(len, offset);
    h := HexToBytes(firstByte + hexLength);
  }

  method EncodeItem(input: Item) returns (out: Bytes)
    ensures out == Encode(input)
    decreases input
  {
    match input
    case List(xs) =>
      var output: seq<Bytes> := [];
      var outputLength := 0;
      for i := 0 to |xs|
        invariant Flatten(output) == EncodeAll(xs[..i])
        invariant outputLength == |EncodeAll(xs[..i])|
      {
        var encoded := EncodeItem(xs[i]);
        FlattenAppend(output, encoded);
        EncodeAllAppend(xs[..i], xs[i]);
        assert xs[..i + 1] == xs[..i] + [xs[i]];
        output := output + [encoded];
        outputLength := outputLength + |encoded|;
      }
      assert xs[..|xs|] == xs;
      var header := EncodeLength(outputLength, 192);
      assert ([header] + output)[1..] == output;
      out := ConcatBytes([header] + output);
      assert out == header + EncodeAll(xs);
    case Str(b) =>
      if |b| == 1 && b[0] < 128 {
        return b;
      }
      var header := EncodeLength(|b|, 128);
      assert [header, b][1..] == [b] && [b][1..] == [] && b + [] == b;
      assert Flatten([b]) == b && Flatten([header, b]) == header + Flatten([b]);
      out := ConcatBytes([header, b]);
      assert out == header + b;
  }

  lemma {:induction false} EncodeAllAppend(xs: seq<Item>, last: Item)
    ensures EncodeAll(xs + [last]) == EncodeAll(xs) + Encode(last)
  {
    if xs == [] {
      assert [] + [last] == [last] && [last][1..] == [];
    } else {
      assert (xs + [last])[1..] == xs[1..] + [last];
      EncodeAllAppend(xs[1..], last);
    }
  }

  /** The byte string of an integer: empty for zero, otherwise by way of hexadecimal. */
  method IntegerToBytes(v: nat) returns (b: Bytes)
    ensures b == IntegerBytes(v)
    ensures ToNat(b) == v && (b == [] || b[0] > 0)
  {
    IntegerBytesShortest(v);
    if v == 0 {
      return [];
    }
    HexIsBigEndian(v);
    b := HexToBytes(NumberToHex(v));
  }

  function IntegerBytes(v: nat): Bytes {
    if v == 0 then [] else BigEndian(v)
  }

  /** The shortest big-endian bytes of an integer: none for zero, and no leading zero. */
  lemma {:induction false} IntegerBytesShortest(v: nat)
    ensures ToNat(IntegerBytes(v)) == v && (IntegerBytes(v) == [] || IntegerBytes(v)[0] > 0)
  {
    BigEndianToNat(v);
  }

  lemma {:induction false} IntegerBytesInjective(v: nat, w: nat)
    requires IntegerBytes(v) == IntegerBytes(w)
    ensures v == w
  {
    BigEndianToNat(v);
    BigEndianToNat(w);
  }

  // ------------------------------------------------------------------------------------ decoding

  method ReadLength(v: Bytes) returns (r: Result<nat, Error>)
    ensures r == DecodeLength(v)
  {
    if v != [] && v[0] == 0 {
      return Err(ExtraZeros);
    }
    var hex := BytesToHex(v);
    if hex == [] {
      return Err(InvalidByteSequence);
    }
    ParseHexIsToNat(v);
    r := Ok(ParseHex(hex));
  }

  /** The payload loop: take one value at a time off the remainder until nothing is left. */
  method DecodeItems(payload: Bytes) returns (r: Result<seq<Item>, Error>)
    ensures r == DecodeAll(payload)
    decreases |payload|, 1
  {
    var decoded: seq<Item> := [];
    var innerRemainder := payload;
    InFrontOfNothing(DecodeAll(payload));
    while innerRemainder != []
      invariant |innerRemainder| <= |payload|
      invariant DecodeAll(payload) == InFrontOf(decoded, DecodeAll(innerRemainder))
      decreases |innerRemainder|
    {
      var d := DecodeItem(innerRemainder);
      if d.Err? {
        return Err(d.error);
      }
      InFrontStep(decoded, d.value.data, DecodeAll(d.value.remainder));
      decoded := decoded + [d.value.data];
      innerRemainder := d.value.remainder;
    }
    assert decoded + [] == decoded;
    r := Ok(decoded);
  }

  ghost function InFrontOf(front: seq<Item>, r: Result<seq<Item>, Error>): Result<seq<Item>, Error> {
    if r.Err? then r else Ok(front + r.value)
  }

  lemma {:induction false} InFrontOfNothing(r: Result<seq<Item>, Error>)
    ensures InFrontOf([], r) == r
  {
    if r.Ok? {
      assert [] + r.value == r.value;
    }
  }

  lemma {:induction false} InFrontStep(front: seq<Item>, x: Item, r: Result<seq<Item>, Error>)
    ensures InFrontOf(front, InFrontOf([x], r)) == InFrontOf(front + [x], r)
  {
    if r.Ok? {
      assert front + ([x] + r.value) == front + [x] + r.value;
    }
  }

  method DecodeItem(input: Bytes) returns (r: Result<Decoded, Error>)
    ensures r == DecodeOne(input)
    decreases |input|, 0
  {
    if input == [] {
      return Err(InvalidByteSequence);
    }
    var firstByte := input[0];
    if firstByte <= 0x7f {
      return Ok(Decoded(Str(input[0..1]), input[1..]));
    } else if firstByte <= 0xb7 {
      var length := firstByte - 0x7f;
      var data := Ok([]);
      if firstByte != 0x80 {
        data := SafeSlice(input, 1, length);
      }
      if data.Err? {
        return Err(data.error);
      }
      if length == 2 && data.value[0] < 0x80 {
        return Err(SingleBytePrefixed);
      }
      return Ok(Decoded(Str(data.value), input[length..]));
    } else if firstByte <= 0xbf {
      var lLength := firstByte - 0xb6;
      if |input| - 1 < lLength {
        return Err(NotEnoughBytes);
      }
      var length := ReadLength(input[1..lLength]);
      if length.Err? {
        return Err(length.error);
      }
      if length.value <= 55 {
        return Err(LengthNotAbove55);
      }
      var data := SafeSlice(input, lLength, length.value + lLength);
      if data.Err? {
        return Err(data.error);
      }
      return Ok(Decoded(Str(data.value), input[length.value + lLength..]));
    } else if firstByte <= 0xf7 {
      var length := firstByte - 0xbf;
      var innerRemainder := SafeSlice(input, 1, length);
      if innerRemainder.Err? {
        return Err(innerRemainder.error);
      }
      var decoded := DecodeItems(innerRemainder.value);
      if decoded.Err? {
        return Err(decoded.error);
      }
      return Ok(Decoded(List(decoded.value), input[length..]));
    } else {
      var lLength := firstByte - 0xf6;
      var announced := SafeSlice(input, 1, lLength);
      if announced.Err? {
        return Err(announced.error);
      }
      var length := ReadLength(announced.value);
      if length.Err? {
        return Err(length.error);
      }
      if length.value < 56 {
        return Err(ListTooShort);
      }
      var totalLength := lLength + length.value;
      if totalLength > |input| {
        return Err(TotalLengthTooLarge);
      }
      assert LongListPayload(input) == Ok(input[lLength..totalLength]);
      var decoded := DecodeItems(input[lLength..totalLength]);
      if decoded.Err? {
        return Err(decoded.error);
      }
      return Ok(Decoded(List(decoded.value), input[totalLength..]));
    }
  }

  method DecodeInput(input: Bytes) returns (r: Result<Item, Error>)
    ensures r == Decode(input)
  {
    if input == [] {
      return Ok(Str([]));
    }
    var decoded := DecodeItem(input);
    if decoded.Err? {
      return Err(decoded.error);
    }
    if decoded.value.remainder != [] {
      return Err(RemainderNotEmpty);
    }
    r := Ok(decoded.value.data);
  }
}
