# CRC-64/WE integrity engine of the Zubax bootloader

The bootloader checks the integrity of the application image and other
stored data with a streaming CRC-64/WE engine, the class `CRC64WE`. It has
one 64-bit register that starts at all ones. `add(byte)` XORs a byte into
the top eight bits of the register, then shifts left eight times, folding
in the polynomial 0x42F0E1EBA9EA3693 whenever bit 63 was set. `add(data,
len)` absorbs a buffer byte by byte. `get()` returns the register XORed
with all ones. Next to the engine are two error codes, `ErrOK` and
`ErrInvalidState`, which functions return in negated form.

The project has two modules:

- `Crc64WeSpec` (crc64we_spec.dfy) holds the pure definitions over
  `seq<bv8>`:
  - the byte update (`UpdateByte`), the fold (`Update`) and the checksum
    (`Crc`);
  - an independent bit-serial reference (`FeedBits`, `ReferenceCrc`), the
    textbook shift register that takes the message one bit at a time, most
    significant bit first;
  - the lemmas about both.
- `Bootloader` (bootloader_util.dfy) holds the error codes and the class
  `Crc64We`. The class has the `bv64` register as a field, and a ghost
  field `Fed` that records the bytes absorbed so far. Its class invariant
  `Valid()` says that the register is `Update(Init, Fed)`. The constructor
  establishes it and every method keeps it. That invariant is why the
  methods have `requires Valid()`: it holds for every engine a caller can
  have.

CRC-64/XZ is a different parameter set in the CRC catalogue. It uses the
same polynomial but reflects input and output, and its check value is
0x995DC9BBDF1939FA. This code computes CRC-64/WE, with no reflection and
check value 0x62EC59E3F1A4F00A, and so does the model.

## Model

| member | source | states |
|---|---|---|
| Crc64WeSpec.Shift | zubax_chibios/bootloader/util.hpp:46 | one iteration of the inner loop: shift left by one, and XOR in 0x42F0E1EBA9EA3693 exactly when bit 63 was set before the shift (a definition; ShiftInjective states its meaning) |
| Crc64WeSpec.ShiftN | zubax_chibios/bootloader/util.hpp:44-47 | the register after n iterations of the inner loop (a definition; the AddByte loop invariant ties the loop to it) |
| Crc64WeSpec.UpdateByte | zubax_chibios/bootloader/util.hpp:43-47 | absorbing one byte: XOR it, shifted left by 56, into the register, then run eight iterations (a definition; ByteIsBitSerial states its meaning) |
| Crc64WeSpec.Update | zubax_chibios/bootloader/util.hpp:54-57 | absorbing a byte sequence, first byte first (a definition; UpdateIsBitSerial and UpdateAppend state its meaning) |
| Crc64WeSpec.Finalize | zubax_chibios/bootloader/util.hpp:60 | the output transform: the register XOR all ones (a definition; FinalizeInvolutive shows it is its own inverse on every register) |
| Crc64WeSpec.FinalizeInvolutive | zubax_chibios/bootloader/util.hpp:60 | applying the output mask twice gives back any register, so get() loses no information about the register |
| Crc64WeSpec.Crc | zubax_chibios/bootloader/util.hpp:33-61 | the checksum of a message: absorb it from the all-ones register, then apply the output transform (a definition; CrcMatchesReference and CheckValue state its meaning) |
| Crc64WeSpec.ByteIsBitSerial | zubax_chibios/bootloader/util.hpp:40-48 | absorbing one byte equals clocking its eight bits, most significant first, through the bit-serial CRC-64/WE shift register (no reflection) |
| Crc64WeSpec.UpdateIsBitSerial | zubax_chibios/bootloader/util.hpp:50-58 | absorbing a byte sequence from any register equals clocking the whole message bit stream through the bit-serial register |
| Crc64WeSpec.CrcMatchesReference | zubax_chibios/bootloader/util.hpp:23-32 | the engine's checksum equals the bit-serial CRC-64/WE with the documented initial value, polynomial and output XOR, on every message |
| Crc64WeSpec.CheckValue | zubax_chibios/bootloader/util.hpp:31 | the checksum of the ASCII text "123456789" is 0x62EC59E3F1A4F00A |
| Crc64WeSpec.EmptyCrcIsZero | zubax_chibios/bootloader/util.hpp:38-60 | with no bytes absorbed the checksum is zero: the all-ones initial register and the all-ones output mask cancel |
| Crc64WeSpec.UpdateAppend | zubax_chibios/bootloader/util.hpp:54-57 | absorbing a and then b leaves the same register as absorbing a + b at once; the empty buffer leaves it unchanged |
| Crc64WeSpec.CheckpointThenContinue | zubax_chibios/bootloader/util.hpp:60 | reading the checksum mid-stream and then absorbing more gives the checksum of the whole message; undoing the output mask recovers the register |
| Crc64WeSpec.ShiftInjective | zubax_chibios/bootloader/util.hpp:46 | one shift-and-fold step maps distinct registers to distinct registers |
| Crc64WeSpec.UpdateByteInjective | zubax_chibios/bootloader/util.hpp:40-48 | absorbing the same byte into two different registers gives two different registers |
| Crc64WeSpec.UpdateByteDistinguishes | zubax_chibios/bootloader/util.hpp:40-48 | absorbing two different bytes into the same register gives two different registers |
| Crc64WeSpec.UpdateInjective | zubax_chibios/bootloader/util.hpp:50-58 | two different registers stay different whatever bytes are absorbed afterwards |
| Crc64WeSpec.SingleByteErrorDetected | zubax_chibios/bootloader/util.hpp:23-24 | changing any one byte of a message, at any position and to any other value, changes its checksum |
| Bootloader.ErrorReturn | zubax_chibios/bootloader/util.hpp:18-21 | a non-negative error code is returned negated: the result is never positive, and it is zero exactly for ErrOK |
| Bootloader.ReportedCode | zubax_chibios/bootloader/util.hpp:18 | a returned value of zero or less reports a non-negative error code |
| Bootloader.ReturnedCodeIsRecovered | zubax_chibios/bootloader/util.hpp:18 | negating a returned value recovers the code, so distinct codes give distinct return values |
| Bootloader.ErrorCodesInRange | zubax_chibios/bootloader/util.hpp:18-21 | ErrOK is 0; ErrInvalidState is positive; its return form -10001 fits in int16 and differs from ErrOK's |
| Bootloader.Crc64We.constructor | zubax_chibios/bootloader/util.hpp:38 | a fresh engine holds the all-ones register, has absorbed nothing, and reports checksum 0 |
| Bootloader.Crc64We.AddByte | zubax_chibios/bootloader/util.hpp:40-48 | the eight-iteration loop leaves the register at UpdateByte of the old register; only the register changes, and the byte is appended to the absorbed bytes |
| Bootloader.Crc64We.AddBuffer | zubax_chibios/bootloader/util.hpp:50-58 | the counted-down loop absorbs data[0], ..., data[len-1] in order: the register becomes Update(old register, data[..len]), and the buffer is not modified |
| Bootloader.Crc64We.Get | zubax_chibios/bootloader/util.hpp:60 | a read-only function; it returns the CRC-64/WE checksum of every byte absorbed since construction |
| Bootloader.ChecksumInTwoParts | zubax_chibios/bootloader/util.hpp:50-60 | with one engine, a mid-stream get() returns the checksum of the first buffer, and the final get() returns the checksum of both buffers concatenated |

## Left out

- zubax_chibios/sys/sys.hpp is not part of this model. Its locker classes only call ChibiOS kernel mutex and interrupt-state routines, which is concurrency in foreign code. Its macros are preprocessor and halt plumbing. Its logging, sleep and panic routines are declarations without bodies.
- Bootloader.Crc64We.AddBuffer: the `const void*` cast and the pointer walk become an index into a non-null `array<bv8>`. The `assert(bytes != nullptr)` is met by the non-null array type. The caller's implicit promise that `len` bytes are readable becomes `requires len <= data.Length`.
- Bootloader.u32: `unsigned` is taken to be 32 bits wide, as on the bootloader's targets. Nothing here depends on the width beyond the range of `len`.
- Bootloader.Crc64We.AddByte: the C++ loop counter `int i` becomes the bounded `for` index of the Dafny loop. Overflow of the counter cannot happen at 8 iterations. The loop body's conditional expression sits in the helper method Bootloader.ShiftStep, which the loop calls. Its branches are unchanged, and its result is written back to the register field on each iteration.
- Bootloader.Crc64We.Fed and Valid(): these are ghost bookkeeping that the C++ class does not have. They exist only to state each method against the pure definitions.
