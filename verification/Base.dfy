/** Bytes, hexadecimal digits, and the big-endian reading of both. */
module Base {

  type Byte = n: int | 0 <= n < 256

  type Bytes = seq<Byte>

  type Nibble = n: int | 0 <= n < 16

  datatype Option<+T> = None | Some(value: T)

  datatype Result<+T, +E> = Ok(value: T) | Err(error: E)

  function Zeros(n: nat): (z: Bytes)
    ensures |z| == n && forall i :: 0 <= i < n ==> z[i] == 0
  {
    seq(n, _ => 0)
  }

  function Min(a: nat, b: nat): (m: nat)
    ensures m <= a && m <= b && (m == a || m == b)
  {
    if a < b then a else b
  }

  function Max(a: nat, b: nat): (m: nat)
    ensures m >= a && m >= b && (m == a || m == b)
  {
    if a < b then b else a
  }

  /** The shortest big-endian byte string of n; zero is the single byte 0. */
  function BigEndian(n: nat): (b: Bytes)
    ensures |b| > 0
  {
    if n < 256 then [n] else BigEndian(n / 256) + [n % 256]
  }

  function ToNat(b: Bytes): nat {
    if b == [] then 0 else 256 * ToNat(b[..|b| - 1]) + b[|b| - 1]
  }

  function Power256(n: nat): (p: nat)
    ensures p > 0
  {
    if n == 0 then 1 else 256 * Power256(n - 1)
  }

  /** Reading a byte string as a number, most significant byte first. */
  lemma {:induction false} ToNatNext(b: Bytes, last: Byte)
    ensures ToNat([]) == 0 && ToNat(b + [last]) == 256 * ToNat(b) + last
  {
    assert (b + [last])[..|b|] == b;
  }

  lemma {:induction false} Power256Next(n: nat)
    ensures Power256(0) == 1 && Power256(n + 1) == 256 * Power256(n)
  {
  }

  lemma {:induction false} BigEndianToNat(n: nat)
    ensures ToNat(BigEndian(n)) == n
    ensures n > 0 ==> BigEndian(n)[0] > 0
  {
    if n >= 256 {
      BigEndianToNat(n / 256);
      var b := BigEndian(n / 256) + [n % 256];
      assert b[..|b| - 1] == BigEndian(n / 256);
    }
  }

  lemma {:induction false} ToNatBigEndian(b: Bytes)
    requires |b| > 0 && b[0] > 0
    ensures ToNat(b) > 0 && BigEndian(ToNat(b)) == b
  {
    if |b| > 1 {
      ToNatBigEndian(b[..|b| - 1]);
      assert b == b[..|b| - 1] + [b[|b| - 1]];
    } else {
      assert b[..0] == [] && b == [b[0]];
    }
  }

  /** The byte length of n is at most k exactly when n is below 256^k. */
  lemma {:induction false} BigEndianLength(n: nat, k: nat)
    requires k > 0
    ensures |BigEndian(n)| <= k <==> n < Power256(k)
  {
    if k == 1 {
      assert Power256(1) == 256 * Power256(0);
      if n >= 256 {
        assert |BigEndian(n)| == |BigEndian(n / 256)| + 1;
      }
    } else if n >= 256 {
      BigEndianLength(n / 256, k - 1);
    } else {
      Power256AtLeast(k);
    }
  }

  lemma {:induction false} Power256AtLeast(k: nat)
    requires k > 0
    ensures Power256(k) >= 256
  {
    if k > 1 {
      Power256AtLeast(k - 1);
    }
  }

  lemma {:induction false} ToNatBelow(b: Bytes)
    ensures ToNat(b) < Power256(|b|)
  {
    if b != [] {
      ToNatBelow(b[..|b| - 1]);
    }
  }

  // ------------------------------------------------------------------------- nibbles of a byte string

  function JoinNibbles(high: Nibble, low: Nibble): (b: Byte)
    ensures HighNibble(b) == high && LowNibble(b) == low
  {
    var h: int := high;
    16 * h + low
  }

  function HighNibble(b: Byte): Nibble { b / 16 }

  function LowNibble(b: Byte): Nibble { b % 16 }

  function Unpack(b: Bytes): (h: seq<Nibble>)
    ensures |h| == 2 * |b|
  {
    if b == [] then [] else [HighNibble(b[0]), LowNibble(b[0])] + Unpack(b[1..])
  }

  function Pack(h: seq<Nibble>): (b: Bytes)
    requires |h| % 2 == 0
    ensures |b| == |h| / 2
  {
    if h == [] then [] else [JoinNibbles(h[0], h[1])] + Pack(h[2..])
  }

  /** The nibbles of a byte string, the high one of each byte first. */
  lemma {:induction false} UnpackAt(b: Bytes, i: nat)
    requires i < |b|
    ensures Unpack(b)[2 * i] == b[i] / 16 && Unpack(b)[2 * i + 1] == b[i] % 16
  {
    if i > 0 {
      UnpackAt(b[1..], i - 1);
      assert Unpack(b)[2..] == Unpack(b[1..]);
    }
  }

  lemma {:induction false} JoinForm(high: Nibble, low: Nibble)
    ensures var h: int, l: int := high, low; JoinNibbles(high, low) == 16 * h + l
  {
  }

  lemma {:induction false} PackAt(h: seq<Nibble>, i: nat)
    requires |h| % 2 == 0 && i < |h| / 2
    ensures var high: int, low: int := h[2 * i], h[2 * i + 1]; Pack(h)[i] == 16 * high + low
  {
    hide JoinNibbles;
    if i > 0 {
      PackAt(h[2..], i - 1);
      assert Pack(h)[1..] == Pack(h[2..]);
    } else {
      JoinForm(h[0], h[1]);
    }
  }

  lemma {:induction false} PackUnpack(b: Bytes)
    ensures Pack(Unpack(b)) == b
  {
    if b != [] {
      PackUnpack(b[1..]);
      assert Unpack(b)[2..] == Unpack(b[1..]);
    }
  }

  lemma {:induction false} UnpackPack(h: seq<Nibble>)
    requires |h| % 2 == 0
    ensures Unpack(Pack(h)) == h
  {
    if h != [] {
      UnpackPack(h[2..]);
      assert Pack(h)[1..] == Pack(h[2..]);
      assert h == [h[0], h[1]] + h[2..];
    }
  }

  lemma {:induction false} PackConcat(h: seq<Nibble>, g: seq<Nibble>)
    requires |h| % 2 == 0 && |g| % 2 == 0
    ensures Pack(h + g) == Pack(h) + Pack(g)
  {
    if h == [] {
      assert h + g == g;
    } else {
      assert (h + g)[2..] == h[2..] + g;
      PackConcat(h[2..], g);
    }
  }

  lemma {:induction false} UnpackConcat(b: Bytes, c: Bytes)
    ensures Unpack(b + c) == Unpack(b) + Unpack(c)
  {
    if b == [] {
      assert b + c == c;
    } else {
      assert (b + c)[1..] == b[1..] + c;
      UnpackConcat(b[1..], c);
    }
  }

  function Flatten(parts: seq<Bytes>): Bytes {
    if parts == [] then [] else parts[0] + Flatten(parts[1..])
  }

  lemma {:induction false} FlattenAppend(parts: seq<Bytes>, last: Bytes)
    ensures Flatten(parts + [last]) == Flatten(parts) + last
  {
    if parts == [] {
      assert [last][1..] == [];
      assert [] + [last] == [last];
    } else {
      assert (parts + [last])[1..] == parts[1..] + [last];
      FlattenAppend(parts[1..], last);
    }
  }

  // ------------------------------------------------------------------------------ unprefixed hex

  function HexDigit(n: Nibble): char {
    if n < 10 then '0' + n as char else 'a' + (n - 10) as char
  }

  function UnprefixedHex(id: Bytes): string {
    if id == [] then "" else [HexDigit(HighNibble(id[0])), HexDigit(LowNibble(id[0]))] + UnprefixedHex(id[1..])
  }

  /** Two lower-case digits a byte, the high nibble first. */
  lemma {:induction false} HexAt(id: Bytes, i: nat)
    requires i < |id|
    ensures |UnprefixedHex(id)| == 2 * |id|
    ensures UnprefixedHex(id)[2 * i] == "0123456789abcdef"[id[i] / 16]
    ensures UnprefixedHex(id)[2 * i + 1] == "0123456789abcdef"[id[i] % 16]
  {
    HexDigitAt(id[0] / 16);
    HexDigitAt(id[0] % 16);
    assert UnprefixedHex(id)[2..] == UnprefixedHex(id[1..]);
    if |id| > 1 {
      HexAt(id[1..], if i > 0 then i - 1 else 0);
    }
  }

  lemma {:induction false} HexDigitAt(n: Nibble)
    ensures HexDigit(n) == "0123456789abcdef"[n]
  {
  }

  lemma {:induction false} HexInjective(a: Bytes, b: Bytes)
    requires UnprefixedHex(a) == UnprefixedHex(b)
    ensures a == b
  {
    if a != [] && b != [] {
      var h, g := UnprefixedHex(a), UnprefixedHex(b);
      assert h[0] == g[0] && h[1] == g[1] && h[2..] == g[2..];
      assert h[2..] == UnprefixedHex(a[1..]) && g[2..] == UnprefixedHex(b[1..]);
      HexInjective(a[1..], b[1..]);
    }
  }
}
