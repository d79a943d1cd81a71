/**
 * Bytes on a serial line as the assemblers handle them, and the CRC check on them.
 */
module Octets {
  import CrcRegister
  import ModbusCrc

  type Byte = x: int | 0 <= x < 256

  /** The same bytes as bit vectors, the form the CRC register works on. */
  function Bits(f: seq<Byte>): seq<CrcRegister.Byte> {
    seq(|f|, i requires 0 <= i < |f| => f[i] as CrcRegister.Byte)
  }

  predicate CrcOk(f: seq<Byte>) {
    ModbusCrc.Verify(Bits(f))
  }

  /** modbusCRC::verify on a frame taken off the line. */
  method VerifyFrame(f: seq<Byte>) returns (ok: bool)
    ensures ok == CrcOk(f)
  {
    ok := ModbusCrc.VerifyFrame(Bits(f));
  }
}
