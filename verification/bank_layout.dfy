/**
 Shared vocabulary of the Roland MKS-80 legacy bank decoder: bytes, the
 DAT-format block sizes, the bank size, and the outcome of a decode.
 */
module BankLayout {

  /** One byte of a bank file, as the `uint8` elements of the loader's input vector. */
  type uint8 = x: int | 0 <= x < 0x100

  type Bytes = seq<uint8>

  /** One patch in the DAT stream format is 0x17 (23) bytes. */
  const PatchBlockSize: nat := 0x17

  /** One tone in the DAT stream format is 0x27 (39) bytes. */
  const ToneBlockSize: nat := 0x27

  /** A patch block followed by its tone block: one slot of the bank, 62 bytes. */
  const DatRowSize: nat := PatchBlockSize + ToneBlockSize

  /** Both legacy formats hold exactly 64 patch/tone pairs. */
  const BankSize: nat := 64

  /** The fixed-length format is exactly 0xF80 bytes: 64 rows of 62 bytes. */
  const Mks80FileSize: nat := 0xF80

  /** Bytes at or below this value are skipped after the length byte of a name. */
  const ControlMax: uint8 := 0x20

  /** Why an import was rejected (the loader logs one message per case). */
  datatype Reason =
    | Truncated                      // a record's patch+tone data was not 62 bytes
    | WrongRecordCount(found: nat)   // the variable-length file did not hold 64 records
    | WrongFileLength(length: nat)   // the fixed-length file was not 0xF80 bytes

  /** A decode either yields its value or rejects the whole input. */
  datatype Result<+T> = Success(value: T) | Failure(reason: Reason)

  function Min(a: int, b: int): int {
    if a <= b then a else b
  }
}
