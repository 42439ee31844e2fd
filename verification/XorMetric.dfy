/** Identifiers as bit strings, and the XOR distance between them (section 2.1 of the Kademlia paper). */
module XorMetric {
  import opened Base

  function Shift(n: nat, places: nat): nat {
    if places == 0 then n else Shift(n / 2, places - 1)
  }

  /** Bit i of an identifier, most significant first; bits past its end are 0. */
  predicate Bit(id: Bytes, i: nat) {
    i / 8 < |id| && Shift(id[i / 8], 7 - i % 8) % 2 == 1
  }

  lemma {:induction false} ShiftZero(places: nat)
    ensures Shift(0, places) == 0
  {
    if places > 0 {
      ShiftZero(places - 1);
    }
  }

  /** Identifiers that differ only in zero bytes at the end take the same side at every depth. */
  lemma {:induction false} TrailingZeros(id: Bytes, n: nat, i: nat)
    ensures Bit(id + Zeros(n), i) == Bit(id, i)
  {
    ShiftZero(7 - i % 8);
    var padded := id + Zeros(n);
    if i / 8 < |padded| {
      assert padded[i / 8] == if i / 8 < |id| then id[i / 8] else Zeros(n)[i / 8 - |id|];
    }
  }

  function Xor(a: nat, b: nat, bits: nat): nat {
    if bits == 0 then 0 else 2 * Xor(a / 2, b / 2, bits - 1) + if a % 2 == b % 2 then 0 else 1
  }

  function Power2(n: nat): (p: nat)
    ensures p > 0
  {
    if n == 0 then 1 else 2 * Power2(n - 1)
  }

  function BitValue(id: Bytes, i: nat): (v: nat)
    ensures v == if Bit(id, i) then 1 else 0
  {
    if Bit(id, i) then 1 else 0
  }

  /** The eight bits of a byte, most significant first, make up its value. */
  lemma {:induction false} ByteOfBits(id: Bytes, m: nat)
    requires m < |id|
    ensures var i := 8 * m;
            id[m] == 128 * BitValue(id, i) + 64 * BitValue(id, i + 1) + 32 * BitValue(id, i + 2)
                     + 16 * BitValue(id, i + 3) + 8 * BitValue(id, i + 4) + 4 * BitValue(id, i + 5)
                     + 2 * BitValue(id, i + 6) + BitValue(id, i + 7)
  {
    hide Shift, Bit, BitValue;
    var n: nat := id[m];
    assert BitValue(id, 8 * m) == Shift(n, 7) % 2 by { BitAt(id, m, 0); }
    assert BitValue(id, 8 * m + 1) == Shift(n, 6) % 2 by { BitAt(id, m, 1); }
    assert BitValue(id, 8 * m + 2) == Shift(n, 5) % 2 by { BitAt(id, m, 2); }
    assert BitValue(id, 8 * m + 3) == Shift(n, 4) % 2 by { BitAt(id, m, 3); }
    assert BitValue(id, 8 * m + 4) == Shift(n, 3) % 2 by { BitAt(id, m, 4); }
    assert BitValue(id, 8 * m + 5) == Shift(n, 2) % 2 by { BitAt(id, m, 5); }
    assert BitValue(id, 8 * m + 6) == Shift(n, 1) % 2 by { BitAt(id, m, 6); }
    assert BitValue(id, 8 * m + 7) == Shift(n, 0) % 2 by { BitAt(id, m, 7); }
    ShiftsOfByte(n);
  }

  /** Past the end of an identifier all bits are 0. */
  lemma {:induction false} PastTheEnd(id: Bytes, i: nat)
    requires i >= 8 * |id|
    ensures !Bit(id, i)
  {
  }

  lemma {:induction false} BitAt(id: Bytes, m: nat, j: nat)
    requires m < |id| && j < 8
    ensures BitValue(id, 8 * m + j) == Shift(id[m], 7 - j) % 2
  {
    hide Shift;
    assert (8 * m + j) / 8 == m && (8 * m + j) % 8 == j;
  }

  lemma {:induction false} ShiftsOfByte(n: nat)
    requires n < 256
    ensures n == 128 * (Shift(n, 7) % 2) + 64 * (Shift(n, 6) % 2) + 32 * (Shift(n, 5) % 2) + 16 * (Shift(n, 4) % 2)
                 + 8 * (Shift(n, 3) % 2) + 4 * (Shift(n, 2) % 2) + 2 * (Shift(n, 1) % 2) + Shift(n, 0) % 2
  {
    hide Shift;
    ShiftNone(n);
    LowestBit(n, 0);
    LowestBit(n, 1);
    LowestBit(n, 2);
    LowestBit(n, 3);
    LowestBit(n, 4);
    LowestBit(n, 5);
    LowestBit(n, 6);
    assert Shift(n, 7) < 2;
  }

  lemma {:induction false} LowestBit(n: nat, places: nat)
    ensures Shift(n, places) == 2 * Shift(n, places + 1) + Shift(n, places) % 2
  {
    ShiftStep(n, places);
  }

  lemma {:induction false} ShiftNone(n: nat)
    ensures Shift(n, 0) == n
  {
  }

  /** A bit of the exclusive or is set exactly when the operands differ there, and no higher bit is. */
  lemma {:induction false} XorBits(a: nat, b: nat, bits: nat, i: nat)
    ensures Xor(a, b, bits) < Power2(bits)
    ensures i < bits ==> (Shift(Xor(a, b, bits), i) % 2 == 1 <==> Shift(a, i) % 2 != Shift(b, i) % 2)
  {
    if bits > 0 {
      XorBits(a / 2, b / 2, bits - 1, if i == 0 then 0 else i - 1);
      assert Xor(a, b, bits) / 2 == Xor(a / 2, b / 2, bits - 1);
    }
  }

  lemma {:induction false} XorSelf(n: nat, bits: nat)
    ensures Xor(n, n, bits) == 0
  {
    if bits > 0 {
      XorSelf(n / 2, bits - 1);
    }
  }

  lemma {:induction false} XorZero(n: nat, bits: nat)
    requires n < Power2(bits)
    ensures Xor(n, 0, bits) == n
  {
    if bits > 0 {
      XorZero(n / 2, bits - 1);
    }
  }

  lemma {:induction false} XorOne(n: nat, bits: nat)
    requires bits > 0 && n % 2 == 0 && n < Power2(bits)
    ensures Xor(n, 1, bits) == n + 1
  {
    XorZero(n / 2, bits - 1);
  }

  lemma {:induction false} Power2Eight()
    ensures Power2(8) == 256
  {
    assert Power2(8) == 2 * Power2(7) == 4 * Power2(6) == 8 * Power2(5) == 16 * Power2(4);
    assert Power2(4) == 2 * Power2(3) == 4 * Power2(2) == 8 * Power2(1) == 16 * Power2(0);
  }

  lemma {:induction false} XorOfBytes(a: nat, b: nat)
    ensures Xor(a, b, 8) < 256
  {
    XorBits(a, b, 8, 0);
    Power2Eight();
  }

  /** The first n bytes of the distance; a byte that only one identifier has counts 255. */
  function DistanceUpTo(a: Bytes, b: Bytes, n: nat): nat {
    if n == 0 then 0
    else 256 * DistanceUpTo(a, b, n - 1) + if n <= |a| && n <= |b| then Xor(a[n - 1], b[n - 1], 8) else 255
  }

  function Distance(a: Bytes, b: Bytes): nat {
    DistanceUpTo(a, b, Max(|a|, |b|))
  }

  method DistanceBetween(firstId: Bytes, secondId: Bytes) returns (distance: nat)
    ensures distance == Distance(firstId, secondId)
  {
    distance := 0;
    var i := 0;
    var min := if |firstId| < |secondId| then |firstId| else |secondId|;
    var max := Max(|firstId|, |secondId|);
    while i < min
      invariant 0 <= i <= min && distance == DistanceUpTo(firstId, secondId, i)
    {
      distance := distance * 256 + Xor(firstId[i], secondId[i], 8);
      i := i + 1;
    }
    while i < max
      invariant min <= i <= max && distance == DistanceUpTo(firstId, secondId, i)
    {
      distance := distance * 256 + 255;
      i := i + 1;
    }
  }

  /**
    * Written in base 256, the distance has as many digits as the longer identifier: the exclusive or of the
    * bytes where both have one, and 255 where only one has.
    */
  lemma {:induction false} DistanceDigits(a: Bytes, b: Bytes, n: nat)
    ensures DistanceUpTo(a, b, 0) == 0
    ensures DistanceUpTo(a, b, n + 1) / 256 == DistanceUpTo(a, b, n)
    ensures DistanceUpTo(a, b, n + 1) % 256 == if n < |a| && n < |b| then Xor(a[n], b[n], 8) else 255
    ensures Distance(a, b) == DistanceUpTo(a, b, Max(|a|, |b|))
  {
    if n < |a| && n < |b| {
      XorOfBytes(a[n], b[n]);
    }
  }

  // ------------------------------------------------------------------------------- bits of a byte

  lemma {:induction false} ShiftStep(n: nat, places: nat)
    ensures Shift(n, places + 1) == Shift(n, places) / 2
  {
    if places > 0 {
      ShiftStep(n / 2, places - 1);
    }
  }

  /** Numbers that agree on the bits from t up, and above all bits are 0, agree once shifted by t. */
  lemma {:induction false} ShiftSame(a: nat, b: nat, t: nat, top: nat)
    requires t <= top && Shift(a, top) == Shift(b, top)
    requires forall j :: t <= j < top ==> Shift(a, j) % 2 == Shift(b, j) % 2
    ensures Shift(a, t) == Shift(b, t)
    decreases top - t
  {
    if t < top {
      ShiftSame(a, b, t + 1, top);
      ShiftStep(a, t);
      ShiftStep(b, t);
    }
  }

  lemma {:induction false} ShiftedOut(n: Byte)
    ensures Shift(n, 8) == 0
  {
    var m: nat := n;
    assert Shift(m, 8) == Shift(m / 2, 7) == Shift(m / 2 / 2, 6) == Shift(m / 2 / 2 / 2, 5);
    var r := m / 2 / 2 / 2;
    assert Shift(r, 5) == Shift(r / 2, 4) == Shift(r / 2 / 2, 3) == Shift(r / 2 / 2 / 2, 2);
    assert r < 32;
  }

  /** The highest bit on which the two distances to q differ decides which is smaller. */
  lemma {:induction false} XorLess(a: nat, b: nat, q: nat, bits: nat, t: nat)
    requires t < bits && Shift(a, t + 1) == Shift(b, t + 1)
    requires Shift(a, t) % 2 == Shift(q, t) % 2 != Shift(b, t) % 2
    ensures Xor(a, q, bits) < Xor(b, q, bits)
  {
    if t > 0 {
      XorLess(a / 2, b / 2, q / 2, bits - 1, t - 1);
    } else {
      assert Shift(a, 1) == Shift(a / 2, 0) == a / 2;
      assert Shift(b, 1) == Shift(b / 2, 0) == b / 2;
    }
  }

  // ------------------------------------------------------------------------- bits of an identifier

  ghost predicate Agree(a: Bytes, b: Bytes, n: nat) {
    forall i :: 0 <= i < n ==> Bit(a, i) == Bit(b, i)
  }

  lemma {:induction false} AgreeOnByte(a: Bytes, b: Bytes, m: nat, t: nat)
    requires m < |a| && m < |b| && t <= 8 && Agree(a, b, 8 * m + 8 - t)
    ensures Shift(a[m], t) == Shift(b[m], t)
  {
    forall j | t <= j < 8 ensures Shift(a[m], j) % 2 == Shift(b[m], j) % 2 {
      var i := 8 * m + 7 - j;
      assert Bit(a, i) == Bit(b, i);
      assert i / 8 == m && 7 - i % 8 == j;
    }
    ShiftedOut(a[m]);
    ShiftedOut(b[m]);
    ShiftSame(a[m], b[m], t, 8);
  }

  lemma {:induction false} AgreeOnAll(a: Bytes, b: Bytes)
    requires |a| == |b| && Agree(a, b, 8 * |a|)
    ensures a == b
  {
    forall m | 0 <= m < |a| ensures a[m] == b[m] {
      AgreeOnByte(a, b, m, 0);
    }
  }

  /**
    * Of two identifiers equal up to bit d, the one that has q's bit there is nearer to q. The target q
    * may be shorter or longer than the identifiers, as long as it has that bit.
    */
  lemma {:induction false} NearerAtBit(a: Bytes, b: Bytes, q: Bytes, d: nat)
    requires |a| == |b| && d < 8 * |q|
    requires Agree(a, b, d) && Bit(a, d) == Bit(q, d) != Bit(b, d)
    ensures Distance(a, q) < Distance(b, q)
  {
    var m, t := d / 8, 7 - d % 8;
    AgreeOnByte(a, b, m, t + 1);
    XorLess(a[m], b[m], q[m], 8, t);
    DistanceSame(a, b, q, m);
    DistanceLess(a, b, q, m + 1, Max(|a|, |q|));
  }

  lemma {:induction false} DistanceSame(a: Bytes, b: Bytes, q: Bytes, n: nat)
    requires |a| == |b| && Agree(a, b, 8 * Min(n, Min(|a|, |q|)))
    ensures DistanceUpTo(a, q, n) == DistanceUpTo(b, q, n)
  {
    if n > 0 {
      DistanceSame(a, b, q, n - 1);
      if n <= |a| && n <= |q| {
        AgreeOnByte(a, b, n - 1, 0);
      }
    }
  }

  lemma {:induction false} DistanceLess(a: Bytes, b: Bytes, q: Bytes, n: nat, m: nat)
    requires |a| == |b| && n <= m && DistanceUpTo(a, q, n) < DistanceUpTo(b, q, n)
    ensures DistanceUpTo(a, q, m) < DistanceUpTo(b, q, m)
  {
    if n < m {
      DistanceLess(a, b, q, n, m - 1);
      if m <= |a| && m <= |q| {
        XorOfBytes(a[m - 1], q[m - 1]);
        XorOfBytes(b[m - 1], q[m - 1]);
      }
    }
  }

  function SharedFrom(a: Bytes, b: Bytes, i: nat, top: nat): (n: nat)
    requires i <= top
    ensures i <= n <= top
    ensures forall j :: i <= j < n ==> Bit(a, j) == Bit(b, j)
    ensures n < top ==> Bit(a, n) != Bit(b, n)
    decreases top - i
  {
    if i == top || Bit(a, i) != Bit(b, i) then i else SharedFrom(a, b, i + 1, top)
  }

  /** The number of leading bits two identifiers share, up to the length of the longer. */
  function SharedBits(a: Bytes, b: Bytes): (n: nat)
    ensures n <= 8 * Max(|a|, |b|) && Agree(a, b, n)
    ensures n < 8 * Max(|a|, |b|) ==> Bit(a, n) != Bit(b, n)
  {
    SharedFrom(a, b, 0, 8 * Max(|a|, |b|))
  }

  /** No depth tells the two identifiers apart. */
  predicate Alike(a: Bytes, b: Bytes) {
    SharedBits(a, b) == 8 * Max(|a|, |b|)
  }

  lemma {:induction false} AlikeAgree(a: Bytes, b: Bytes)
    ensures Alike(a, b) <==> forall i: nat :: Bit(a, i) == Bit(b, i)
  {
    if Alike(a, b) {
      forall i: nat ensures Bit(a, i) == Bit(b, i) {
        if i < 8 * Max(|a|, |b|) {
          assert Agree(a, b, 8 * Max(|a|, |b|));
        }
      }
    }
  }

  lemma {:induction false} SharedIs(a: Bytes, b: Bytes, n: nat)
    requires Agree(a, b, n) && Bit(a, n) != Bit(b, n)
    ensures SharedBits(a, b) == n && !Alike(a, b)
  {
  }

  lemma {:induction false} SharedAtLeast(a: Bytes, b: Bytes, n: nat)
    requires Agree(a, b, n)
    ensures SharedBits(a, b) >= n || Alike(a, b)
  {
  }

  /** Identifiers of one length are alike only if they are equal. */
  lemma {:induction false} AlikeIsEqual(a: Bytes, b: Bytes)
    requires |a| == |b|
    ensures Alike(a, b) <==> a == b
  {
    if Alike(a, b) {
      AgreeOnAll(a, b);
    }
  }

  /** Two identifiers of one length are equally far from q exactly when they agree on all bits q has. */
  lemma {:induction false} EquallyFar(a: Bytes, b: Bytes, q: Bytes)
    requires |a| == |b|
    ensures Distance(a, q) == Distance(b, q) <==> Agree(a, b, 8 * Min(|a|, |q|))
  {
    var n := SharedBits(a, b);
    if n < 8 * Min(|a|, |q|) {
      if Bit(a, n) == Bit(q, n) {
        NearerAtBit(a, b, q, n);
      } else {
        assert Agree(b, a, n);
        NearerAtBit(b, a, q, n);
      }
    } else {
      DistanceSame(a, b, q, Max(|a|, |q|));
    }
  }

  /** Different identifiers are at different distances from a target at least as long. */
  lemma {:induction false} DistanceInjective(a: Bytes, b: Bytes, q: Bytes)
    requires |a| == |b| <= |q| && Distance(a, q) == Distance(b, q)
    ensures a == b
  {
    EquallyFar(a, b, q);
    AgreeOnAll(a, b);
  }
}
