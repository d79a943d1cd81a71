/**
 * The Modbus CRC-16 (services/protocol/modbus/modbus_crc.cpp) over byte sequences.
 */
module ModbusCrc {
  import opened CrcRegister

  /** A register stepped through data, last byte outermost. */
  function Fold<S>(step: (S, Byte) -> S, seed: S, data: seq<Byte>): S {
    if |data| == 0 then seed
    else step(Fold(step, seed, data[..|data| - 1]), data[|data| - 1])
  }

  function Crc(data: seq<Byte>): bv16 {
    Fold(ByteStep, 0xFFFF, data)
  }

  /** The source's nested loops compute Crc of the first len bytes. */
  method Calc(data: seq<Byte>, len: nat) returns (crc: bv16)
    requires len <= |data|
    ensures crc == Crc(data[..len])
  {
    crc := 0xFFFF;
    for i := 0 to len
      invariant crc == Fold(ByteStep, 0xFFFF, data[..i])
    {
      crc := Absorb(crc, data[i]);
      assert data[..i + 1][..i] == data[..i];
    }
  }

  /** calc takes a 16-bit length, so longer frames are checked over a truncated prefix. */
  predicate Verify(frame: seq<Byte>) {
    |frame| >= 4
    && Word(frame[|frame| - 2], frame[|frame| - 1]) == Crc(frame[..(|frame| - 2) % 0x1_0000])
  }

  /** modbusCRC::verify. */
  method VerifyFrame(frame: seq<Byte>) returns (ok: bool)
    ensures ok == Verify(frame)
  {
    if |frame| < 4 {
      return false;
    }
    var expected := Calc(frame, (|frame| - 2) % 0x1_0000);
    return Word(frame[|frame| - 2], frame[|frame| - 1]) == expected;
  }

  /** A body followed by its own CRC, low byte first. */
  function Seal(body: seq<Byte>): seq<Byte> {
    body + [(Crc(body) & 0xFF) as Byte, (Crc(body) >> 8) as Byte]
  }

  // ---- Folding, whatever the register ----------------------------------------------------

  lemma {:induction false} FoldSplit<S>(step: (S, Byte) -> S, seed: S, a: seq<Byte>, b: seq<Byte>)
    ensures Fold(step, seed, a + b) == Fold(step, Fold(step, seed, a), b)
    decreases |b|
  {
    if |b| == 0 {
      assert a + b == a;
    } else {
      assert (a + b)[..|a + b| - 1] == a + b[..|b| - 1];
      FoldSplit(step, seed, a, b[..|b| - 1]);
    }
  }

  lemma FoldTwo<S>(step: (S, Byte) -> S, seed: S, x: Byte, y: Byte)
    ensures Fold(step, seed, [x, y]) == step(step(seed, x), y)
  {
    assert [x, y][..1] == [x] && [x][..0] == [];
    assert Fold(step, seed, [x]) == step(Fold(step, seed, []), x);
  }

  lemma {:induction false} FoldInjective<S(!new)>(step: (S, Byte) -> S, c: S, d: S, data: seq<Byte>)
    requires forall p, q, x :: step(p, x) == step(q, x) ==> p == q
    requires Fold(step, c, data) == Fold(step, d, data)
    ensures c == d
  {
    if |data| > 0 {
      FoldInjective(step, c, d, data[..|data| - 1]);
    }
  }

  lemma CrcNext(data: seq<Byte>, x: Byte)
    ensures Crc(data + [x]) == ByteStep(Crc(data), x)
  {
    assert (data + [x])[..|data|] == data;
  }

  lemma {:induction false} CrcOfThree(data: seq<Byte>, x: Byte, y: Byte, z: Byte)
    ensures Crc(data + [x, y, z]) == ByteStep(ByteStep(ByteStep(Crc(data), x), y), z)
  {
    CrcNext(data, x);
    CrcNext(data + [x], y);
    CrcNext(data + [x] + [y], z);
    assert data + [x] + [y] + [z] == data + [x, y, z];
  }

  /** The catalogued check value of this CRC: that of the digits 1 to 9. */
  lemma {:induction false} CheckValue()
    ensures Crc([0x31, 0x32, 0x33, 0x34, 0x35, 0x36, 0x37, 0x38, 0x39]) == 0x4B37
  {
    var a: seq<Byte>, b: seq<Byte>, c: seq<Byte> := [0x31, 0x32, 0x33], [0x34, 0x35, 0x36], [0x37, 0x38, 0x39];
    assert [] + a == a;
    CrcOfThree([], 0x31, 0x32, 0x33);
    CrcOfThree(a, 0x34, 0x35, 0x36);
    CrcOfThree(a + b, 0x37, 0x38, 0x39);
    assert a + b + c == [0x31, 0x32, 0x33, 0x34, 0x35, 0x36, 0x37, 0x38, 0x39];
    StepsOfDigits();
  }

  // ---- What the check accepts ------------------------------------------------------------

  /** Absorbing two bytes empties the register exactly when they spell its value. */
  lemma TwoBytesCancel(c: bv16, lo: Byte, hi: Byte)
    ensures ByteStep(ByteStep(c, lo), hi) == 0 <==> c == Word(lo, hi)
  {
    Emptied(ByteStep(c, lo), hi);
    XorZero(ByteStep(c, lo), hi as bv16);
    ReachesHigh(c, lo, hi);
    Recombine(c, lo, hi);
  }

  /** Residue form: for frames the 16-bit length can address, verify succeeds exactly when the
      CRC over the whole frame, check bytes included, is zero. */
  lemma VerifyIsZeroResidue(frame: seq<Byte>)
    requires 4 <= |frame| < 0x1_0002
    ensures Verify(frame) <==> Crc(frame) == 0
  {
    var n := |frame| - 2;
    var lo, hi := frame[n], frame[n + 1];
    assert frame == frame[..n] + [lo, hi];
    FoldSplit(ByteStep, 0xFFFF, frame[..n], [lo, hi]);
    FoldTwo(ByteStep, Crc(frame[..n]), lo, hi);
    TwoBytesCancel(Crc(frame[..n]), lo, hi);
  }

  /** Every body can be sealed into a frame the check accepts. */
  lemma SealVerifies(body: seq<Byte>)
    requires 2 <= |body| < 0x1_0000
    ensures Verify(Seal(body))
  {
    assert Seal(body)[..|body|] == body;
    SplitWord(Crc(body));
  }

  /** A fault confined to one byte is always caught, wherever it falls, check bytes included. */
  lemma ByteFaultDetected(a: seq<Byte>, x: Byte, y: Byte, b: seq<Byte>)
    requires 4 <= |a| + 1 + |b| < 0x1_0002
    requires Verify(a + [x] + b) && x != y
    ensures !Verify(a + [y] + b)
  {
    VerifyIsZeroResidue(a + [x] + b);
    VerifyIsZeroResidue(a + [y] + b);
    CrcThrough(a, x, b);
    CrcThrough(a, y, b);
    var p, q := ByteStep(Crc(a), x), ByteStep(Crc(a), y);
    if Fold(ByteStep, p, b) == Fold(ByteStep, q, b) {
      CrcFoldInjective(p, q, b);
      ByteStepXor(Crc(a), Crc(a), x, y);
      CancelLeft(Crc(a), x, y);
    }
  }

  lemma {:induction false} CrcThrough(a: seq<Byte>, x: Byte, b: seq<Byte>)
    ensures Crc(a + [x] + b) == Fold(ByteStep, ByteStep(Crc(a), x), b)
  {
    FoldSplit(ByteStep, 0xFFFF, a + [x], b);
    assert (a + [x])[..|a|] == a;
  }

  lemma {:induction false} CrcFoldInjective(p: bv16, q: bv16, data: seq<Byte>)
    requires Fold(ByteStep, p, data) == Fold(ByteStep, q, data)
    ensures p == q
  {
    forall c, d, x | ByteStep(c, x) == ByteStep(d, x)
      ensures c == d
    {
      ByteStepInjective(c, d, x);
    }
    FoldInjective(ByteStep, p, q, data);
  }
}
