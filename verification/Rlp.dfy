/**
  * Recursive Length Prefix serialization (Appendix B of the Ethereum Yellow Paper):
  * what the encoder prints, what the strict parser accepts, and that the two are inverse.
  */
module Rlp {
  import opened Base

  datatype Item = Str(bytes: Bytes) | List(items: seq<Item>)

  datatype Error =
    | ExtraZeros | InvalidByteSequence | OutOfBounds | SingleBytePrefixed
    | NotEnoughBytes | LengthNotAbove55 | ListTooShort | TotalLengthTooLarge | RemainderNotEmpty

  datatype Decoded = Decoded(data: Item, remainder: Bytes)

  // ----------------------------------------------------------------------------------- printing

  function Header(length: nat, offset: nat): (h: Bytes)
    ensures |h| > 0
  {
    if length < 56 then BigEndian(length + offset)
    else BigEndian(offset + 55 + |BigEndian(length)|) + BigEndian(length)
  }

  function Encode(x: Item): (out: Bytes)
    ensures |out| > 0
    decreases x, 1
  {
    match x
    case Str(b) => if |b| == 1 && b[0] < 128 then b else Header(|b|, 128) + b
    case List(xs) => Header(|EncodeAll(xs)|, 192) + EncodeAll(xs)
  }

  function EncodeAll(xs: seq<Item>): Bytes
    decreases xs, 0
  {
    if xs == [] then [] else Encode(xs[0]) + EncodeAll(xs[1..])
  }

  /** How many bytes of length follow the prefix, the length, and then the payload. */
  ghost predicate Announces(out: Bytes, prefix: int, payload: Bytes) {
    && out != [] && 1 <= out[0] - prefix <= |out| - 1 && out[1] > 0
    && ToNat(out[1..1 + out[0] - prefix]) == |payload|
    && out[1 + out[0] - prefix..] == payload
  }

  lemma {:induction false} HeaderForm(payload: Bytes, offset: nat)
    requires |payload| < Power256(8) && (offset == 128 || offset == 192)
    ensures |payload| < 56 ==> Header(|payload|, offset) == [offset + |payload|]
    ensures |payload| >= 56 ==> Announces(Header(|payload|, offset) + payload, offset + 55, payload)
  {
    if |payload| >= 56 {
      var l := BigEndian(|payload|);
      BigEndianToNat(|payload|);
      BigEndianLength(|payload|, 8);
      var first := offset + 55 + |l|;
      assert BigEndian(first) == [first];
      var out := [first] + l + payload;
      assert out[1..1 + |l|] == l && out[1 + |l|..] == payload && out[1] == l[0];
    }
  }

  /**
    * The printed form, case by case: a small byte is itself, a string below 56 bytes follows 128 plus its
    * length, a longer one follows 183 plus the number of length bytes and these; lists follow 192 and 247.
    */
  lemma {:induction false} EncodeForm(x: Item)
    requires Sized(x)
    ensures x.Str? && |x.bytes| == 1 && x.bytes[0] < 128 ==> Encode(x) == x.bytes
    ensures x.Str? && !(|x.bytes| == 1 && x.bytes[0] < 128) && |x.bytes| < 56 ==>
              Encode(x) == [128 + |x.bytes|] + x.bytes
    ensures x.Str? && |x.bytes| >= 56 ==> Announces(Encode(x), 183, x.bytes)
    ensures x.List? && |EncodeAll(x.items)| < 56 ==> Encode(x) == [192 + |EncodeAll(x.items)|] + EncodeAll(x.items)
    ensures x.List? && |EncodeAll(x.items)| >= 56 ==> Announces(Encode(x), 247, EncodeAll(x.items))
  {
    hide Header;
    match x
    case Str(b) => HeaderForm(b, 128);
    case List(xs) => HeaderForm(EncodeAll(xs), 192);
  }

  /** The payload of a list is the printed forms of its items, one after the other. */
  lemma {:induction false} PayloadForm(x: Item, xs: seq<Item>)
    ensures EncodeAll([]) == [] && EncodeAll([x] + xs) == Encode(x) + EncodeAll(xs)
  {
    hide Encode;
    assert ([x] + xs)[1..] == xs;
  }

  /** Every length in x fits the eight length bytes that a prefix can announce. */
  predicate Sized(x: Item)
    decreases x, 1
  {
    match x
    case Str(b) => |b| < Power256(8)
    case List(xs) => |EncodeAll(xs)| < Power256(8) && AllSized(xs)
  }

  predicate AllSized(xs: seq<Item>)
    decreases xs, 0
  {
    xs == [] || (Sized(xs[0]) && AllSized(xs[1..]))
  }

  // ------------------------------------------------------------------------------------ parsing

  function SafeSlice(input: Bytes, start: nat, end: nat): (r: Result<Bytes, Error>)
    requires start <= end
    ensures r.Ok? <==> end <= |input|
    ensures r.Ok? ==> r.value == input[start..end]
  {
    if end > |input| then Err(OutOfBounds) else Ok(input[start..end])
  }

  function DecodeLength(v: Bytes): Result<nat, Error> {
    if v == [] then Err(InvalidByteSequence)
    else if v[0] == 0 then Err(ExtraZeros)
    else Ok(ToNat(v))
  }

  /** One value off the front of the input. The loop over a list's payload is DecodeAll. */
  function DecodeOne(input: Bytes): (r: Result<Decoded, Error>)
    ensures r.Ok? ==> |r.value.remainder| < |input|
    decreases |input|, 0
  {
    if input == [] then Err(InvalidByteSequence)
    else if input[0] <= 0x7f then Ok(Decoded(Str(input[..1]), input[1..]))
    else if input[0] <= 0xb7 then DecodeShortString(input)
    else if input[0] <= 0xbf then DecodeLongString(input)
    else if input[0] <= 0xf7 then
      var length := input[0] - 0xbf;
      var inner := SafeSlice(input, 1, length);
      if inner.Err? then Err(inner.error) else
      var items := DecodeAll(inner.value);
      if items.Err? then Err(items.error) else Ok(Decoded(List(items.value), input[length..]))
    else
      var payload := LongListPayload(input);
      if payload.Err? then Err(payload.error) else
      var items := DecodeAll(payload.value);
      if items.Err? then Err(items.error)
      else Ok(Decoded(List(items.value), input[input[0] - 0xf6 + |payload.value|..]))
  }

  function DecodeAll(input: Bytes): Result<seq<Item>, Error>
    decreases |input|, 1
  {
    if input == [] then Ok([])
    else
      var d := DecodeOne(input);
      if d.Err? then Err(d.error) else
      var rest := DecodeAll(d.value.remainder);
      if rest.Err? then rest else Ok([d.value.data] + rest.value)
  }

  function DecodeShortString(input: Bytes): (r: Result<Decoded, Error>)
    requires input != [] && 0x80 <= input[0] <= 0xb7
    ensures r.Ok? ==> |r.value.remainder| < |input|
  {
    var length := input[0] - 0x7f;
    var data := if input[0] == 0x80 then Ok([]) else SafeSlice(input, 1, length);
    if data.Err? then Err(data.error)
    else if length == 2 && data.value[0] < 0x80 then Err(SingleBytePrefixed)
    else Ok(Decoded(Str(data.value), input[length..]))
  }

  function DecodeLongString(input: Bytes): (r: Result<Decoded, Error>)
    requires input != [] && 0xb8 <= input[0] <= 0xbf
    ensures r.Ok? ==> |r.value.remainder| < |input|
  {
    var lLength := input[0] - 0xb6;
    if |input| - 1 < lLength then Err(NotEnoughBytes) else
    var length := DecodeLength(input[1..lLength]);
    if length.Err? then Err(length.error)
    else if length.value <= 55 then Err(LengthNotAbove55) else
    var data := SafeSlice(input, lLength, length.value + lLength);
    if data.Err? then Err(data.error)
    else Ok(Decoded(Str(data.value), input[length.value + lLength..]))
  }

  function LongListPayload(input: Bytes): (r: Result<Bytes, Error>)
    requires input != [] && 0xf8 <= input[0]
    ensures r.Ok? ==> input[0] - 0xf6 + |r.value| <= |input|
  {
    var lLength := input[0] - 0xf6;
    var announced := SafeSlice(input, 1, lLength);
    if announced.Err? then Err(announced.error) else
    var length := DecodeLength(announced.value);
    if length.Err? then Err(length.error)
    else if length.value < 56 then Err(ListTooShort)
    else if lLength + length.value > |input| then Err(TotalLengthTooLarge)
    else Ok(input[lLength..lLength + length.value])
  }

  function Decode(input: Bytes): Result<Item, Error> {
    if input == [] then Ok(Str([]))
    else
      var d := DecodeOne(input);
      if d.Err? then Err(d.error)
      else if d.value.remainder != [] then Err(RemainderNotEmpty)
      else Ok(d.value.data)
  }

  /** Why a value that starts with a string prefix is refused. */
  lemma {:induction false} StringRefusals(input: Bytes)
    requires input != [] && input[0] < 0xc0
    ensures input[0] < 0x80 ==> DecodeOne(input).Ok?
    ensures 0x80 <= input[0] < 0xb8 ==>
              var r, n := DecodeOne(input), input[0] - 0x80;
              && (r == Err(OutOfBounds) <==> |input| < 1 + n)
              && (r == Err(SingleBytePrefixed) <==> n == 1 && |input| >= 2 && input[1] < 0x80)
              && (r.Err? ==> r.error.OutOfBounds? || r.error.SingleBytePrefixed?)
    ensures 0xb8 <= input[0] ==>
              var r, l := DecodeOne(input), input[0] - 0xb7;
              && (r == Err(NotEnoughBytes) <==> |input| < l + 2)
              && (|input| >= l + 2 ==>
                    var n := ToNat(input[1..1 + l]);
                    && (r == Err(ExtraZeros) <==> input[1] == 0)
                    && (r == Err(LengthNotAbove55) <==> input[1] > 0 && n < 56)
                    && (r == Err(OutOfBounds) <==> input[1] > 0 && n >= 56 && |input| < 1 + l + n)
                    && (r.Err? ==> r.error.ExtraZeros? || r.error.LengthNotAbove55? || r.error.OutOfBounds?))
  {
    hide ToNat;
  }

  /** Why a value that starts with a list prefix is refused; what its items are refused for comes on top. */
  lemma {:induction false} ListRefusals(input: Bytes)
    requires input != [] && input[0] >= 0xc0
    ensures 0xc0 <= input[0] < 0xf8 ==>
              var r, n := DecodeOne(input), input[0] - 0xc0;
              && (|input| < 1 + n ==> r == Err(OutOfBounds))
              && (|input| >= 1 + n && r.Err? ==> DecodeAll(input[1..1 + n]) == Err(r.error))
    ensures 0xf8 <= input[0] ==>
              var r, l := DecodeOne(input), input[0] - 0xf7;
              && (|input| < 1 + l ==> r == Err(OutOfBounds))
              && (|input| >= 1 + l ==>
                    var n := ToNat(input[1..1 + l]);
                    && (input[1] == 0 ==> r == Err(ExtraZeros))
                    && (input[1] > 0 && n < 56 ==> r == Err(ListTooShort))
                    && (input[1] > 0 && n >= 56 && |input| < 1 + l + n ==> r == Err(TotalLengthTooLarge))
                    && (input[1] > 0 && n >= 56 && |input| >= 1 + l + n && r.Err? ==>
                          DecodeAll(input[1 + l..1 + l + n]) == Err(r.error)))
  {
    hide ToNat, DecodeAll;
  }

  /** Empty input is the empty string; otherwise the first value's refusal stands, or that of what follows it. */
  lemma {:induction false} WholeRefusals(input: Bytes)
    ensures Decode([]) == Ok(Str([])) && DecodeOne([]) == Err(InvalidByteSequence)
    ensures input != [] && DecodeOne(input).Err? ==> Decode(input) == Err(DecodeOne(input).error)
    ensures input != [] && DecodeOne(input).Ok? && DecodeOne(input).value.remainder != [] ==>
              Decode(input) == Err(RemainderNotEmpty)
  {
    hide DecodeShortString, DecodeLongString, LongListPayload, DecodeAll;
  }

  // ---------------------------------------------------------------- what is printed parses back

  /** The announced length of a long payload reads back, and takes one to eight bytes. */
  lemma {:induction false} LongHeader(length: nat, offset: nat, rest: Bytes)
    requires 56 <= length < Power256(8) && offset <= 192
    ensures var s := Header(length, offset) + rest; var l := |BigEndian(length)|;
            && 1 <= l <= 8 && |s| == 1 + l + |rest|
            && s[0] == offset + 55 + l && s[1..1 + l] == BigEndian(length) && s[1 + l..] == rest
    ensures DecodeLength(BigEndian(length)) == Ok(length)
  {
    BigEndianLength(length, 8);
    BigEndianToNat(length);
    var l := |BigEndian(length)|;
    assert BigEndian(offset + 55 + l) == [offset + 55 + l];
    var s := Header(length, offset) + rest;
    assert s == [offset + 55 + l] + BigEndian(length) + rest;
  }

  lemma {:induction false} ShortHeader(length: nat, offset: nat, rest: Bytes)
    requires length < 56 && offset <= 192
    ensures Header(length, offset) + rest == [offset + length] + rest
  {
  }

  /** Parsing the encoding of x, whatever follows it, gives back x and what followed it. */
  lemma {:induction false} DecodeOfEncode(x: Item, rest: Bytes)
    requires Sized(x)
    ensures DecodeOne(Encode(x) + rest) == Ok(Decoded(x, rest))
    decreases x, 1
  {
    match x
    case Str(b) =>
      DecodeOfString(b, rest);
    case List(xs) =>
      DecodeAllOfEncodeAll(xs);
      var payload := EncodeAll(xs);
      var s := Header(|payload|, 192) + (payload + rest);
      assert Encode(x) + rest == s;
      if |payload| < 56 {
        ShortHeader(|payload|, 192, payload + rest);
        assert s[1..1 + |payload|] == payload;
        assert s[1 + |payload|..] == rest;
      } else {
        LongHeader(|payload|, 192, payload + rest);
        var l := |BigEndian(|payload|)|;
        assert s[1 + l..1 + l + |payload|] == payload;
        assert LongListPayload(s) == Ok(payload);
        assert s[1 + l + |payload|..] == rest;
      }
  }

  lemma {:induction false} DecodeOfString(b: Bytes, rest: Bytes)
    requires |b| < Power256(8)
    ensures DecodeOne(Encode(Str(b)) + rest) == Ok(Decoded(Str(b), rest))
  {
    if |b| == 1 && b[0] < 128 {
      var s := b + rest;
      assert s[..1] == b && s[1..] == rest;
    } else {
      var s := Header(|b|, 128) + (b + rest);
      assert Encode(Str(b)) + rest == s;
      if |b| < 56 {
        ShortHeader(|b|, 128, b + rest);
        assert s[1..1 + |b|] == b;
        assert s[1 + |b|..] == rest;
      } else {
        LongHeader(|b|, 128, b + rest);
        var l := |BigEndian(|b|)|;
        assert s[1 + l..1 + l + |b|] == b;
        assert s[1 + l + |b|..] == rest;
      }
    }
  }

  lemma {:induction false} DecodeAllOfEncodeAll(xs: seq<Item>)
    requires AllSized(xs)
    ensures DecodeAll(EncodeAll(xs)) == Ok(xs)
    decreases xs, 0
  {
    if xs != [] {
      DecodeOfEncode(xs[0], EncodeAll(xs[1..]));
      DecodeAllOfEncodeAll(xs[1..]);
      assert xs == [xs[0]] + xs[1..];
    }
  }

  // ---------------------------------------------------------------- what parses is what is printed

  lemma {:induction false} AnnouncedLength(b: Bytes, length: nat)
    requires |b| <= 8 && DecodeLength(b) == Ok(length)
    ensures BigEndian(length) == b && length < Power256(8)
  {
    ToNatBigEndian(b);
    BigEndianLength(length, 8);
  }

  lemma {:induction false} EncodeOfShortString(input: Bytes)
    requires input != [] && 0x80 <= input[0] <= 0xb7 && DecodeShortString(input).Ok?
    ensures var d := DecodeShortString(input).value; Sized(d.data) && input == Encode(d.data) + d.remainder
  {
    Power256Eight();
    assert input == [input[0]] + input[1..input[0] - 0x7f] + input[input[0] - 0x7f..];
  }

  lemma {:induction false} EncodeOfLongString(input: Bytes)
    requires input != [] && 0xb8 <= input[0] <= 0xbf && DecodeLongString(input).Ok?
    ensures var d := DecodeLongString(input).value; Sized(d.data) && input == Encode(d.data) + d.remainder
  {
    var d := DecodeLongString(input).value;
    var l := input[0] - 0xb6;
    var b := d.data.bytes;
    AnnouncedLength(input[1..l], |b|);
    assert Header(|b|, 128) == [input[0]] + input[1..l];
    assert input == [input[0]] + input[1..l] + b + d.remainder;
  }

  lemma {:induction false} EncodeOfShortList(input: Bytes, xs: seq<Item>)
    requires input != [] && 0xc0 <= input[0] <= 0xf7 && input[0] - 0xbf <= |input|
    requires AllSized(xs) && EncodeAll(xs) == input[1..input[0] - 0xbf]
    ensures Sized(List(xs)) && input == Encode(List(xs)) + input[input[0] - 0xbf..]
  {
    Power256Eight();
    assert input == [input[0]] + EncodeAll(xs) + input[input[0] - 0xbf..];
  }

  lemma {:induction false} EncodeOfLongList(input: Bytes, xs: seq<Item>)
    requires input != [] && 0xf8 <= input[0] && LongListPayload(input).Ok?
    requires AllSized(xs) && EncodeAll(xs) == LongListPayload(input).value
    ensures Sized(List(xs)) && input == Encode(List(xs)) + input[input[0] - 0xf6 + |EncodeAll(xs)|..]
  {
    hide EncodeAll;
    var l := input[0] - 0xf6;
    var payload := EncodeAll(xs);
    AnnouncedLength(input[1..l], |payload|);
    assert Header(|payload|, 192) == [input[0]] + input[1..l];
    assert input == [input[0]] + input[1..l] + payload + input[l + |payload|..];
  }

  /** Anything the parser takes off the front is exactly the encoding of the value it returns. */
  lemma {:induction false} EncodeOfDecode(input: Bytes)
    requires DecodeOne(input).Ok?
    ensures var d := DecodeOne(input).value; Sized(d.data) && input == Encode(d.data) + d.remainder
    decreases |input|, 0
  {
    var first := input[0];
    if first <= 0x7f {
      Power256Eight();
      assert input == input[..1] + input[1..];
    } else if first <= 0xb7 {
      EncodeOfShortString(input);
    } else if first <= 0xbf {
      EncodeOfLongString(input);
    } else if first <= 0xf7 {
      var inner := input[1..first - 0xbf];
      EncodeAllOfDecodeAll(inner);
      EncodeOfShortList(input, DecodeAll(inner).value);
    } else {
      var payload := LongListPayload(input).value;
      EncodeAllOfDecodeAll(payload);
      EncodeOfLongList(input, DecodeAll(payload).value);
    }
  }

  lemma {:induction false} Power256Eight()
    ensures Power256(8) == 0x1_0000_0000_0000_0000
  {
    assert Power256(2) == 65536;
    assert Power256(4) == 0x1_0000_0000;
    assert Power256(6) == 0x1_0000_0000_0000;
  }

  lemma {:induction false} EncodeAllOfDecodeAll(input: Bytes)
    requires DecodeAll(input).Ok?
    ensures var xs := DecodeAll(input).value; AllSized(xs) && EncodeAll(xs) == input
    decreases |input|, 1
  {
    if input != [] {
      EncodeOfDecode(input);
      var d := DecodeOne(input).value;
      EncodeAllOfDecodeAll(d.remainder);
      assert DecodeAll(input).value[1..] == DecodeAll(d.remainder).value;
    }
  }

  // ---------------------------------------------------------------------------------- consequences

  /** The parser accepts a non-empty input as x exactly when x is sized and the input is its encoding. */
  lemma {:induction false} DecodeIsInverse(input: Bytes, x: Item)
    requires input != []
    ensures Decode(input) == Ok(x) <==> Sized(x) && input == Encode(x)
  {
    if Decode(input) == Ok(x) {
      EncodeOfDecode(input);
      assert Encode(x) + [] == Encode(x);
    }
    if Sized(x) && input == Encode(x) {
      DecodeOfEncode(x, []);
      assert Encode(x) + [] == Encode(x);
    }
  }

  /** Prefix-freeness: two encodings that agree on a common front are encodings of the same value. */
  lemma {:induction false} PrefixFree(x: Item, y: Item, rx: Bytes, ry: Bytes)
    requires Sized(x) && Sized(y) && Encode(x) + rx == Encode(y) + ry
    ensures x == y && rx == ry
  {
    DecodeOfEncode(x, rx);
    DecodeOfEncode(y, ry);
  }

  lemma {:induction false} EncodeInjective(x: Item, y: Item)
    requires Sized(x) && Sized(y) && Encode(x) == Encode(y)
    ensures x == y
  {
    PrefixFree(x, y, [], []);
  }
}
