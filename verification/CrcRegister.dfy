/**
 * The 16-bit register behind the Modbus CRC (services/protocol/modbus/modbus_crc.cpp): shifted
 * right once per bit and folded with 0xA001 whenever a one falls out. Pure bit-vector facts.
 */
module CrcRegister {

  type Byte = bv8

  /** One shift of the register. */
  function BitStep(c: bv16): bv16 {
    if c & 1 == 1 then (c >> 1) ^ 0xA001 else c >> 1
  }

  function BitSteps(c: bv16, n: nat): bv16 {
    if n == 0 then c else BitStep(BitSteps(c, n - 1))
  }

  /** One byte absorbed into the register. */
  function ByteStep(c: bv16, b: Byte): bv16 {
    BitSteps(c ^ (b as bv16), 8)
  }

  function Word(lo: Byte, hi: Byte): bv16 {
    (lo as bv16) | ((hi as bv16) << 8)
  }

  /** The eight shifts of the source's inner loop. */
  method Absorb(before: bv16, b: Byte) returns (crc: bv16)
    ensures crc == ByteStep(before, b)
  {
    crc := before ^ (b as bv16);
    for j := 0 to 8
      invariant crc == BitSteps(before ^ (b as bv16), j)
    {
      if crc & 0x0001 != 0 {
        crc := crc >> 1;
        crc := crc ^ 0xA001;
      } else {
        crc := crc >> 1;
      }
    }
  }

  // ---- Bit-vector facts ------------------------------------------------------------------

  lemma CancelRight(c: bv16, d: bv16, x: bv16)
    requires c ^ x == d ^ x
    ensures c == d
  {}

  lemma CancelLeft(c: bv16, x: Byte, y: Byte)
    requires c ^ (x as bv16) == c ^ (y as bv16)
    ensures x == y
  {}

  lemma Recombine(c: bv16, lo: Byte, hi: Byte)
    ensures c ^ (lo as bv16) == (hi as bv16) << 8 <==> c == (lo as bv16) | ((hi as bv16) << 8)
  {}

  lemma XorZero(c: bv16, x: bv16)
    ensures c ^ x == 0 <==> c == x
  {}

  lemma SplitWord(c: bv16)
    ensures ((c & 0xFF) as Byte as bv16) | (((c >> 8) as Byte as bv16) << 8) == c
  {}

  // ---- The register is a bijection -------------------------------------------------------

  lemma BitStepInjective(c: bv16, d: bv16)
    requires BitStep(c) == BitStep(d)
    ensures c == d
  {}

  lemma {:induction false} BitStepsInjective(c: bv16, d: bv16, n: nat)
    requires BitSteps(c, n) == BitSteps(d, n)
    ensures c == d
  {
    if n > 0 {
      BitStepInjective(BitSteps(c, n - 1), BitSteps(d, n - 1));
      BitStepsInjective(c, d, n - 1);
    }
  }

  lemma ByteStepXor(c: bv16, d: bv16, x: Byte, y: Byte)
    requires ByteStep(c, x) == ByteStep(d, y)
    ensures c ^ (x as bv16) == d ^ (y as bv16)
  {
    BitStepsInjective(c ^ (x as bv16), d ^ (y as bv16), 8);
  }

  lemma ByteStepInjective(c: bv16, d: bv16, x: Byte)
    requires ByteStep(c, x) == ByteStep(d, x)
    ensures c == d
  {
    XoredStepsInjective(c, d, x as bv16, 8);
  }

  lemma XoredStepsInjective(c: bv16, d: bv16, x: bv16, n: nat)
    requires BitSteps(c ^ x, n) == BitSteps(d ^ x, n)
    ensures c == d
  {
    BitStepsInjective(c ^ x, d ^ x, n);
    CancelRight(c, d, x);
  }

  lemma {:induction false} EightShifts(c: bv16)
    ensures BitSteps(c, 8) ==
            BitStep(BitStep(BitStep(BitStep(BitStep(BitStep(BitStep(BitStep(c))))))))
  {
    assert BitSteps(c, 8) == BitStep(BitSteps(c, 7));
    assert BitSteps(c, 6) == BitStep(BitSteps(c, 5));
    assert BitSteps(c, 4) == BitStep(BitSteps(c, 3));
    assert BitSteps(c, 2) == BitStep(BitSteps(c, 1));
  }

  lemma StepIs(c: bv16, b: Byte, d: bv16)
    requires BitStep(BitStep(BitStep(BitStep(BitStep(BitStep(BitStep(BitStep(c ^ (b as bv16))))))))) == d
    ensures ByteStep(c, b) == d
  {
    EightShifts(c ^ (b as bv16));
  }

  /** The register as it absorbs the digits 1 to 9. */
  lemma {:induction false} StepsOfDigits()
    ensures ByteStep(ByteStep(ByteStep(0xFFFF, 0x31), 0x32), 0x33) == 0x7A75
    ensures ByteStep(ByteStep(ByteStep(0x7A75, 0x34), 0x35), 0x36) == 0x32E4
    ensures ByteStep(ByteStep(ByteStep(0x32E4, 0x37), 0x38), 0x39) == 0x4B37
  {
    StepIs(0xFFFF, 0x31, 0x947E);
    StepIs(0x947E, 0x32, 0xF595);
    StepIs(0xF595, 0x33, 0x7A75);
    StepIs(0x7A75, 0x34, 0x30BA);
    StepIs(0x30BA, 0x35, 0xA471);
    StepIs(0xA471, 0x36, 0x32E4);
    StepIs(0x32E4, 0x37, 0x9D73);
    StepIs(0x9D73, 0x38, 0x37DD);
    StepIs(0x37DD, 0x39, 0x4B37);
  }

  /** A register whose low byte is clear just shifts its high byte down. */
  lemma ShiftDown(h: Byte)
    ensures BitSteps((h as bv16) << 8, 8) == h as bv16
  {
    EightShifts((h as bv16) << 8);
  }

  /** The register reaches hi exactly when absorbing lo left hi in its high byte. */
  lemma ReachesHigh(c: bv16, lo: Byte, hi: Byte)
    ensures ByteStep(c, lo) == hi as bv16 <==> c ^ (lo as bv16) == (hi as bv16) << 8
  {
    ShiftDown(hi);
    if ByteStep(c, lo) == hi as bv16 {
      BitStepsInjective(c ^ (lo as bv16), (hi as bv16) << 8, 8);
    }
  }

  /** Absorbing a byte empties the register exactly when nothing is left after the xor. */
  lemma Emptied(c: bv16, hi: Byte)
    ensures ByteStep(c, hi) == 0 <==> c ^ (hi as bv16) == 0
  {
    ShiftDown(0);
    if ByteStep(c, hi) == 0 {
      BitStepsInjective(c ^ (hi as bv16), 0, 8);
    }
  }
}
