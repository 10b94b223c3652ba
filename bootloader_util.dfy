/** The bootloader's integrity-check engine and its error codes.

    Crc64We is the streaming engine: one 64-bit register that bytes are
    absorbed into, one at a time or from a buffer, and that is read out
    through the output mask. The ghost field Fed records every byte absorbed
    since construction, so that each method can be stated against the pure
    definitions in Crc64WeSpec.
 */
module Bootloader {
  import opened Crc64WeSpec

  /** The C++ std::int16_t. */
  newtype int16 = x: int | -0x8000 <= x < 0x8000

  /** The C++ unsigned of the bootloader's 32-bit targets. */
  newtype u32 = x: int | 0 <= x < 0x1_0000_0000

  // ---------------------------------------------------------------------------
  // Error codes
  // ---------------------------------------------------------------------------

  const ErrOK: int16 := 0
  const ErrInvalidState: int16 := 10001

  /** Functions report an error code by returning it negated. The negation
      stays within int16 for every non-negative code. */
  function ErrorReturn(code: int16): (r: int16)
    requires code >= 0
    ensures r <= 0
    ensures r == 0 <==> code == ErrOK
  {
    -code
  }

  /** The code a negative or zero return value reports. */
  function ReportedCode(r: int16): (code: int)
    requires r <= 0
    ensures code >= 0
  {
    -(r as int)
  }

  /** Returning a code and reading it back gives the same code: distinct codes
      give distinct return values. */
  lemma ReturnedCodeIsRecovered(code: int16)
    requires code >= 0
    ensures ReportedCode(ErrorReturn(code)) == code as int
  {
  }

  /** ErrOK is zero, ErrInvalidState is a positive code, and its negated
      return form -10001 fits in int16. */
  lemma ErrorCodesInRange()
    ensures ErrOK == 0 && ErrInvalidState > 0
    ensures ErrorReturn(ErrOK) == 0
    ensures ErrorReturn(ErrInvalidState) as int == -10001
    ensures ErrorReturn(ErrInvalidState) != ErrorReturn(ErrOK)
  {
  }

  // ---------------------------------------------------------------------------
  // The CRC-64/WE engine
  // ---------------------------------------------------------------------------

  /** One iteration of the inner loop of add(byte). */
  method ShiftStep(c: bv64) returns (r: bv64)
    ensures r == Shift(c)
  {
    r := if c & TopBit != 0 then (c << 1) ^ Poly else c << 1;
  }

  class Crc64We {
    /** The CRC register. */
    var crc: bv64
    /** Every byte absorbed since construction, in order. */
    ghost var Fed: seq<bv8>

    /** The register is the CRC-64/WE register of the bytes absorbed so far. */
    ghost predicate Valid()
      reads this
    {
      crc == Update(Init, Fed)
    }

    /** A fresh engine holds the all-ones initial register; its checksum is zero. */
    constructor ()
      ensures Valid() && Fed == []
      ensures crc == Init
      ensures Get() == 0
    {
      crc := Init;
      Fed := [];
      EmptyCrcIsZero();
    }

    /** Absorb one byte: XOR it into the top eight bits, then run eight
        steps of shift-left-and-fold. */
    method AddByte(b: bv8)
      requires Valid()
      modifies this
      ensures crc == UpdateByte(old(crc), b)
      ensures Fed == old(Fed) + [b]
      ensures Valid()
    {
      ghost var before := crc;
      crc := crc ^ ((b as bv64) << 56);
      ghost var mixed := crc;
      for i := 0 to 8
        invariant crc == ShiftN(mixed, i)
        invariant Fed == old(Fed)
      {
        crc := ShiftStep(crc);
      }
      UpdateByteIsEightShifts(before, b, mixed);
      UpdateSnoc(Init, Fed, b);
      Fed := Fed + [b];
    }

    /** Absorb the first len bytes of data, first to last. The buffer is only read. */
    method AddBuffer(data: array<bv8>, len: u32)
      requires Valid()
      requires len as int <= data.Length
      modifies this
      ensures crc == Update(old(crc), data[..len])
      ensures Fed == old(Fed) + data[..len]
      ensures Valid()
      ensures data[..] == old(data[..])
    {
      var bytes := 0;
      var n := len;
      while n > 0
        invariant bytes + n as int == len as int
        invariant crc == Update(old(crc), data[..bytes])
        invariant Fed == old(Fed) + data[..bytes]
        invariant Valid()
      {
        n := n - 1;
        UpdateSnoc(old(crc), data[..bytes], data[bytes]);
        assert data[..bytes + 1] == data[..bytes] + [data[bytes]];
        AddByte(data[bytes]);
        bytes := bytes + 1;
      }
    }

    /** The checksum of everything absorbed so far; the register is unchanged. */
    function Get(): (r: bv64)
      requires Valid()
      reads this
      ensures r == Crc(Fed)
    {
      Finalize(crc)
    }
  }

  /** A caller that reads the checksum part-way through a message and then goes
      on absorbing ends with the checksum of the whole message, and the
      intermediate read changes nothing. */
  method ChecksumInTwoParts(first: array<bv8>, firstLen: u32, second: array<bv8>, secondLen: u32)
    returns (mid: bv64, total: bv64)
    requires firstLen as int <= first.Length && secondLen as int <= second.Length
    ensures mid == Crc(first[..firstLen])
    ensures total == Crc(first[..firstLen] + second[..secondLen])
  {
    var engine := new Crc64We();
    engine.AddBuffer(first, firstLen);
    assert engine.Fed == first[..firstLen];
    mid := engine.Get();
    engine.AddBuffer(second, secondLen);
    total := engine.Get();
  }
}
