/** Code in 31-byte chunks, and where jumps may land (section "Code" of EIP-7864). */
module BinaryTreeCode {
  import opened Base

  const PUSH1: Byte := 0x60
  const PUSH32: Byte := 0x7f
  const PUSH_OFFSET: Byte := 0x5f
  const JUMPDEST: Byte := 0x5b

  /** How many of the bytes after an opcode are its operand. */
  function Operand(opcode: Byte): nat {
    if PUSH1 <= opcode <= PUSH32 then opcode - PUSH_OFFSET else 0
  }

  /** At position p, how many bytes from there on still belong to an operand; past the end the code is zeros. */
  function Owed(code: Bytes, p: nat): (n: nat)
    ensures n <= 32
  {
    if p == 0 then 0
    else
      var before := Owed(code, p - 1);
      if before > 0 then before - 1 else if p - 1 < |code| then Operand(code[p - 1]) else 0
  }

  /** A jump may land on a JUMPDEST that is not part of an operand. */
  predicate IsJump(code: Bytes, p: nat) {
    p < |code| && Owed(code, p) == 0 && code[p] == JUMPDEST
  }

  function OperandEnd(code: Bytes, p: nat): (end: nat)
    requires p < |code|
    ensures p < end <= |code| && end <= p + 1 + Operand(code[p])
  {
    if p + 1 + Operand(code[p]) <= |code| then p + 1 + Operand(code[p]) else |code|
  }

  /** The value pushed by an opcode at p; an operand cut off by the end of the code is filled with zeros. */
  function Pushed(code: Bytes, p: nat): nat
    requires p < |code|
  {
    var end := OperandEnd(code, p);
    ToNat(code[p + 1..end] + Zeros(p + 1 + Operand(code[p]) - end))
  }

  /** An opcode from 60 to 7f owes as many bytes as it is above 5f, and every byte of an operand is one less. */
  lemma {:induction false} OwedForm(code: Bytes, p: nat)
    ensures Owed(code, 0) == 0
    ensures Owed(code, p + 1) ==
            if Owed(code, p) > 0 then Owed(code, p) - 1
            else if p < |code| && 0x60 <= code[p] <= 0x7f then code[p] - 0x5f else 0
  {
  }

  /** A jump lands on 5b, a push is any opcode from 60 to 7f, neither inside an operand. */
  lemma {:induction false} JumpForm(code: Bytes, p: nat)
    ensures IsJump(code, p) <==> p < |code| && code[p] == 0x5b && Owed(code, p) == 0
    ensures IsPush(code, p + 1) <==> p < |code| && 0x60 <= code[p] <= 0x7f && Owed(code, p) == 0
  {
  }

  lemma {:induction false} ToNatZeros(b: Bytes, n: nat)
    ensures ToNat(b + Zeros(n)) == ToNat(b) * Power256(n)
  {
    if n == 0 {
      assert b + Zeros(0) == b;
    } else {
      ToNatZeros(b, n - 1);
      assert b + Zeros(n) == b + Zeros(n - 1) + [0];
      ToNatNext(b + Zeros(n - 1), 0);
      TimesNext(ToNat(b), Power256(n - 1));
    }
  }

  lemma {:induction false} TimesNext(a: nat, p: nat)
    ensures 256 * (a * p) == a * (256 * p)
  {
  }

  /** The pushed value is big-endian, and bytes missing at the end of the code are its low ones. */
  lemma {:induction false} PushedForm(code: Bytes, p: nat)
    requires p < |code| && 0x60 <= code[p] <= 0x7f
    ensures var size, there := code[p] - 0x5f, Min(code[p] - 0x5f, |code| - p - 1);
            Pushed(code, p) == ToNat(code[p + 1..p + 1 + there]) * Power256(size - there)
  {
    var end := OperandEnd(code, p);
    ToNatZeros(code[p + 1..end], p + 1 + Operand(code[p]) - end);
  }

  /** Once the operand of the opcode at p begins, it is owed in full, then one less at each byte. */
  lemma {:induction false} OwedInside(code: Bytes, p: nat, x: nat)
    requires p < |code| && Owed(code, p) == 0 && x <= Operand(code[p])
    ensures Owed(code, p + 1 + x) == Operand(code[p]) - x
  {
    if x > 0 {
      OwedInside(code, p, x - 1);
    }
  }

  lemma {:induction false} OwedSkips(code: Bytes, p: nat, x: nat)
    requires x <= Owed(code, p)
    ensures Owed(code, p + x) == Owed(code, p) - x
  {
    if x > 0 {
      OwedSkips(code, p, x - 1);
    }
  }

  lemma {:induction false} OwedPrefix(a: Bytes, b: Bytes, p: nat)
    requires p <= |a| && p <= |b| && a[..p] == b[..p]
    ensures Owed(a, p) == Owed(b, p)
  {
    if p > 0 {
      assert a[..p - 1] == a[..p][..p - 1] && b[..p - 1] == b[..p][..p - 1];
      assert a[p - 1] == a[..p][p - 1] && b[p - 1] == b[..p][p - 1];
      OwedPrefix(a, b, p - 1);
    }
  }

  /** Where nothing is owed, scanning can start afresh. */
  lemma {:induction false} OwedRestarts(code: Bytes, start: nat, m: nat)
    requires start <= |code| && Owed(code, start) == 0
    ensures Owed(code, start + m) == Owed(code[start..], m)
  {
    if m > 0 {
      OwedRestarts(code, start, m - 1);
      assert start + m - 1 < |code| ==> code[start + m - 1] == code[start..][m - 1];
    }
  }

  /** The scan skips exactly what an opcode owes. */
  lemma {:induction false} NextOpcode(code: Bytes, p: nat)
    requires p < |code| && Owed(code, p) == 0
    ensures Owed(code, p + 1 + Operand(code[p])) == 0
    ensures forall q: nat :: p < q < p + 1 + Operand(code[p]) ==> Owed(code, q) > 0
  {
    OwedInside(code, p, Operand(code[p]));
    forall q: nat | p < q < p + 1 + Operand(code[p]) ensures Owed(code, q) > 0 {
      OwedInside(code, p, q - p - 1);
    }
  }

  method PushValue(code: Bytes, i: nat) returns (push: nat)
    requires i < |code| && Operand(code[i]) > 0
    ensures push == Pushed(code, i)
  {
    var bytesToPush: int := code[i] - 0x5f;
    var end := if i + 1 + bytesToPush <= |code| then i + 1 + bytesToPush else |code|;
    var pushBytes := code[i + 1..end];
    if |pushBytes| < bytesToPush {
      pushBytes := pushBytes + Zeros(bytesToPush - |pushBytes|);
    } else {
      assert pushBytes + Zeros(0) == pushBytes;
    }
    push := ToNat(pushBytes);
  }

  /** p - 1 is an opcode with an operand. */
  predicate IsPush(code: Bytes, p: nat) {
    0 < p <= |code| && Owed(code, p - 1) == 0 && Operand(code[p - 1]) > 0
  }

  /** The scan of the whole code: a flag for every byte, and the value of every push by the position after it. */
  method GetValidJumpDestinations(code: Bytes) returns (jumps: array<Byte>, pushes: map<nat, nat>)
    ensures fresh(jumps) && jumps.Length == |code|
    ensures forall p :: 0 <= p < |code| ==> jumps[p] == if IsJump(code, p) then 1 else 0
    ensures forall p: nat :: p in pushes <==> IsPush(code, p)
    ensures forall p :: p in pushes ==> IsPush(code, p) && pushes[p] == Pushed(code, p - 1)
  {
    hide Pushed;
    jumps := new Byte[|code|](_ => 0);
    pushes := map[];
    var i := 0;
    while i < |code|
      invariant 0 <= i && Owed(code, i) == 0
      invariant forall p :: 0 <= p < |code| ==> jumps[p] == if p < i && IsJump(code, p) then 1 else 0
      invariant forall p: nat :: p in pushes <==> p <= i && IsPush(code, p)
      invariant forall p :: p in pushes ==> IsPush(code, p) && pushes[p] == Pushed(code, p - 1)
    {
      var opcode := code[i];
      NextOpcode(code, i);
      if opcode <= 0x7f {
        if opcode >= 0x60 {
          var push := PushValue(code, i);
          pushes := pushes[i + 1 := push];
          i := i + (opcode - 0x5f);
        } else if opcode == 0x5b {
          jumps[i] := 1;
        }
      }
      i := i + 1;
    }
  }

  // -------------------------------------------------------------------------------------- chunks

  function Padded(code: Bytes): (p: Bytes)
    ensures |p| % 31 == 0 && |code| <= |p| < |code| + 31 && p[..|code|] == code
    ensures forall i :: |code| <= i < |p| ==> p[i] == 0
  {
    code + Zeros((31 - |code| % 31) % 31)
  }

  function Header(code: Bytes, i: nat): Byte {
    var owed := Owed(Padded(code), 31 * i);
    if owed < 31 then owed else 31
  }

  function Body(code: Bytes, i: nat): (b: Bytes)
    requires 31 * i < |Padded(code)|
    ensures |b| == 31
  {
    Padded(code)[31 * i..31 * i + 31]
  }

  /** Count down over the operand that starts at pos. */
  method CountDown(a: array<Byte>, pos: nat, pushdataBytes: nat)
    requires pos + pushdataBytes <= a.Length && pushdataBytes <= 32
    modifies a
    ensures forall p :: 0 <= p < a.Length ==>
              a[p] == if pos <= p < pos + pushdataBytes then pushdataBytes - (p - pos) else old(a[p])
  {
    for x := 0 to pushdataBytes
      invariant forall p :: 0 <= p < a.Length ==>
                  a[p] == if pos <= p < pos + x then pushdataBytes - (p - pos) else old(a[p])
    {
      a[pos + x] := pushdataBytes - x;
    }
  }

  /** bytesToExecData: what is owed at every position of the padded code. */
  method BytesToExecData(paddedCode: Bytes) returns (bytesToExecData: array<Byte>)
    ensures fresh(bytesToExecData) && bytesToExecData.Length == |paddedCode| + 32
    ensures forall p :: 0 <= p <= |paddedCode| ==> bytesToExecData[p] == Owed(paddedCode, p)
  {
    bytesToExecData := new Byte[|paddedCode| + 32](_ => 0);
    var pos := 0;
    while pos < |paddedCode|
      invariant 0 <= pos <= |paddedCode| + 32 && Owed(paddedCode, pos) == 0
      invariant forall p :: 0 <= p < pos && p < bytesToExecData.Length ==> bytesToExecData[p] == Owed(paddedCode, p)
      invariant forall p :: pos <= p < bytesToExecData.Length ==> bytesToExecData[p] == 0
    {
      var pushdataBytes: nat := 0;
      if PUSH1 <= paddedCode[pos] <= PUSH32 {
        pushdataBytes := paddedCode[pos] - PUSH_OFFSET;
      }
      forall p: nat | pos < p <= pos + 1 + pushdataBytes ensures Owed(paddedCode, p) == pushdataBytes - (p - pos - 1) {
        OwedInside(paddedCode, pos, p - pos - 1);
      }
      CountDown(bytesToExecData, pos + 1, pushdataBytes);
      pos := pos + 1 + pushdataBytes;
    }
  }

  method ChunkifyBinaryTreeCode(code: Bytes) returns (chunks: seq<Bytes>)
    ensures 31 * |chunks| == |Padded(code)|
    ensures forall i :: 0 <= i < |chunks| ==> chunks[i] == [Header(code, i)] + Body(code, i)
    ensures forall i :: 0 <= i < |chunks| ==> chunks[i][0] == Min(31, Owed(Padded(code), 31 * i))
    ensures forall i :: 0 <= i < |chunks| ==> chunks[i][1..] == Padded(code)[31 * i..31 * i + 31]
  {
    var paddedCode := Padded(code);
    var bytesToExecData := BytesToExecData(paddedCode);
    var numChunks := |paddedCode| / 31;
    chunks := [];
    var pos := 0;
    for i := 0 to numChunks
      invariant pos == 31 * i && |chunks| == i
      invariant forall j :: 0 <= j < i ==> chunks[j] == [Header(code, j)] + Body(code, j)
    {
      var header := if bytesToExecData[pos] < 31 then bytesToExecData[pos] else 31;
      chunks := chunks + [[header] + paddedCode[pos..pos + 31]];
      pos := pos + 31;
    }
  }

  /** A stretch of the code scanned on its own, from where nothing more is owed to what came before it. */
  lemma {:induction false} StretchFindsJumps(code: Bytes, start: nat, size: nat, h: nat, k: nat)
    requires start + size <= |code| && k < size && h <= size
    requires h == Owed(code, start) || (h == size && Owed(code, start) > size)
    ensures IsJump(code, start + k) <==> k >= h && IsJump(code[start..start + size][h..], k - h)
  {
    if k < Owed(code, start) {
      OwedSkips(code, start, k);
    } else {
      OwedSkips(code, start, h);
      OwedRestarts(code, start + h, k - h);
      var from, rest := code[start + h..], code[start..start + size][h..];
      assert forall j :: 0 <= j < |rest| ==> rest[j] == from[j];
      assert from[..k - h] == rest[..k - h];
      OwedPrefix(from, rest, k - h);
    }
  }

  /** A chunk scanned on its own, from the offset in its header, finds exactly the jumps of the whole code in it. */
  lemma {:induction false} ChunkFindsJumps(code: Bytes, i: nat, k: nat)
    requires k < 31 && 31 * i + k < |code|
    ensures 31 * i + 31 <= |Padded(code)|
    ensures var h := Header(code, i);
            IsJump(code, 31 * i + k) <==> k >= h && IsJump(Body(code, i)[h..], k - h)
  {
    hide Padded;
    WithinPadded(code, 31 * i + k);
    StretchFindsJumps(Padded(code), 31 * i, 31, Header(code, i), k);
    OwedPrefix(code, Padded(code), 31 * i + k);
  }

  lemma {:induction false} WithinPadded(code: Bytes, p: nat)
    requires p < |code|
    ensures Padded(code)[..p] == code[..p] && Padded(code)[p] == code[p] && 31 * (p / 31) + 31 <= |Padded(code)|
  {
    var padded := Padded(code);
    assert padded[..p] == padded[..|code|][..p];
  }

  function Bodies(code: Bytes, n: nat): seq<Bytes>
    requires 31 * n <= |Padded(code)|
  {
    if n == 0 then [] else Bodies(code, n - 1) + [Body(code, n - 1)]
  }

  /** The bodies of the chunks, one after the other, are the code and the padding. */
  lemma {:induction false} BodiesAreCode(code: Bytes, n: nat)
    requires 31 * n <= |Padded(code)|
    ensures Flatten(Bodies(code, n)) == Padded(code)[..31 * n]
  {
    if n > 0 {
      BodiesAreCode(code, n - 1);
      FlattenAppend(Bodies(code, n - 1), Body(code, n - 1));
      assert Padded(code)[..31 * n] == Padded(code)[..31 * (n - 1)] + Body(code, n - 1);
    }
  }
}
