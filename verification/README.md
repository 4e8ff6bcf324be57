# Roland MKS-80 legacy bank loader, modelled in Dafny

This project models the legacy bank decoder of the Roland MKS-80 adaptation,
`synths/roland-mks80/MKS80_LegacyBankLoader.cpp`. The decoder reads old flat-file
bank dumps from an in-memory byte vector. It has two entry points:

- `loadM80File` reads the variable-length M80 format. It is a run of records,
  and each record has four parts:
  - a length-prefixed patch name;
  - a 0x17-byte (23) patch block in the DAT format;
  - a length-prefixed tone name;
  - a 0x27-byte (39) tone block.
- `loadMKS80File` reads the fixed-length format. It is exactly 0xF80 bytes: 64
  rows of 62 bytes, and each row is a patch block followed by a tone block.

Both entry points are built on two cursor readers, `readPascalString` and
`readBinaryBlock`. Both follow an all-or-nothing rule: a truncated record, a
record count other than 64, or a wrong file length yields an empty result,
never a partial bank.

The model is purely functional:

- a cursor is a `nat` index into a `seq` of bytes;
- each reader returns what it read together with the advanced cursor;
- the C++ `while` loops are recursive functions with a termination measure on
  the remaining input;
- a rejected file is a `Failure` carrying the reason the loader logs.

The three converters the loader hands its data to are defined elsewhere in the
synth and are not part of this model:

- `MKS80_Patch::patchesFromDat`;
- `MKS80_Patch::toneFromDat`;
- `MKS80::patchesFromAPRs`.

They are fields of a `Converters` value holding arbitrary functions. Every
statement about the entry points therefore holds whatever the converters
compute. Those statements say which byte slices reach each converter, how many,
and in which order.

Files:

- `bank_layout.dfy`: bytes, the block sizes, the bank size and the `Result`
  type.
- `byte_cursor.dfy`: `readPascalString` and `readBinaryBlock`.
- `m80_bank.dfy`: the variable-length format. It has:
  - the record reader and the record loop;
  - a reference encoder;
  - round-trip and truncation lemmas.
- `mks80_bank.dfy`: the fixed-length format, with its encoder and round trips.
- `legacy_bank_loader.dfy`: the two entry points with the converters.

**The length-overwrite quirk.** Line 13 of the loader reads the length byte.
The loop at line 14 then skips every following byte at or below 0x20, and each
skipped byte is assigned to the length. So the length actually used is the last
control byte of that run, not the length byte. The model reproduces this as written (`SkipControlBytes`).
`LeadingSpaceOverwritesLength` shows it on a concrete input: a name announced as
2 bytes that begins with a space is read as the 3 bytes after the space.

One could read the skipped bytes as padding in front of a real length byte.
The code instead keeps the last of them as the length, and the model does the
same.

The round-trip lemmas cover only non-empty names whose length fits in a byte
and whose first byte is above 0x20 (`WellFormedName`). Such names always come
back unchanged from the skip loop. Other names are not covered: some of them
change, and some do not (`EmptyNameReadsBack`).

## Model

| member | source | states |
|---|---|---|
| `ByteCursor.SkipControlBytes` | synths/roland-mks80/MKS80_LegacyBankLoader.cpp:14 | The skip loop stops exactly where the run of bytes <= 0x20 ends. The length left standing is the last byte of that run, or the original length if the run is empty. |
| `ByteCursor.ReadNameBytes` | synths/roland-mks80/MKS80_LegacyBankLoader.cpp:15-17 | The copy loop takes min(remaining length, remaining input) bytes. The name grows by exactly the input bytes it passed over. |
| `ByteCursor.EffectiveLength` | synths/roland-mks80/MKS80_LegacyBankLoader.cpp:13-14 | The length a name is read with is the byte just before the end of the control run after the first byte. That is the first byte when the run is empty. |
| `ByteCursor.ReadPascalString` | synths/roland-mks80/MKS80_LegacyBankLoader.cpp:8-20 | At the end of input it reads nothing and leaves the cursor alone. Otherwise the cursor advances by at least one byte and never past the end. |
| `ByteCursor.ReadPascalStringMeaning` | synths/roland-mks80/MKS80_LegacyBankLoader.cpp:13-17 | The name is the input slice right after the control run. It is never longer than the effective length. Its length is min(effective length, bytes remaining), and the cursor stops right after it. |
| `ByteCursor.ReadPascalStringOfEncoding` | synths/roland-mks80/MKS80_LegacyBankLoader.cpp:8-20 | A length byte followed by a well-formed name reads back as that name. The cursor moves past the name, or to the end of input if the input ends inside it. |
| `ByteCursor.LeadingSpaceOverwritesLength` | synths/roland-mks80/MKS80_LegacyBankLoader.cpp:13-14 | Concrete instance of the quirk: [2, 0x20, 'A', 'B', 'C'] reads as "ABC" with the cursor at the end. |
| `ByteCursor.EmptyNameReadsBack` | synths/roland-mks80/MKS80_LegacyBankLoader.cpp:13-17 | A zero length byte followed by a byte above 0x20 reads as the empty name, and the cursor stops right after the length byte. |
| `ByteCursor.ReadBinaryBlock` | synths/roland-mks80/MKS80_LegacyBankLoader.cpp:22-29 | It reads a full block exactly when at least `size` bytes remain. That block is the slice [pos, pos+size), and the cursor advances by `size`. Otherwise the result is empty and the cursor does not move. |
| `M80Bank.ReadRecord` | synths/roland-mks80/MKS80_LegacyBankLoader.cpp:41-56 | An accepted record has a 23-byte patch block and a 39-byte tone block. It consumed at least 64 bytes, and its tone block is the 39 bytes before the new cursor. A rejected record is reported as truncated. |
| `M80Bank.ReadRecordMeaning` | synths/roland-mks80/MKS80_LegacyBankLoader.cpp:41-51 | A record is accepted exactly when the 23 bytes after the patch name and the 39 bytes after the tone name are all present. Then the patch name is the first name read and the patch block is the 23 bytes after it. The tone name is read right after that block, and the tone block is the 39 bytes after the tone name. The cursor ends right after the tone block. |
| `M80Bank.DecodeRecords` | synths/roland-mks80/MKS80_LegacyBankLoader.cpp:39-57 | The loop terminates. It accepts the empty rest of input. The records it decodes are all well sized and take at least 64 bytes each. Its only failure is truncation. |
| `M80Bank.DecodeM80` | synths/roland-mks80/MKS80_LegacyBankLoader.cpp:39-67 | An accepted file holds exactly 64 well-sized records. A file under 64*64 bytes is always rejected. The only rejections are truncation and a wrong record count. |
| `M80Bank.ReadRecordOfEncoding` | synths/roland-mks80/MKS80_LegacyBankLoader.cpp:41-51 | An encoded record reads back as itself, whatever follows it. The cursor lands right after it. |
| `M80Bank.DecodeRecordsOfChain` | synths/roland-mks80/MKS80_LegacyBankLoader.cpp:40-57 | Over a chain of encoded records, the loop yields exactly those records, in file order, in front of whatever the rest decodes to. |
| `M80Bank.RecordsRoundTrip` | synths/roland-mks80/MKS80_LegacyBankLoader.cpp:40-57 | Any sequence of well-formed records, encoded, decodes back to itself. |
| `M80Bank.M80RoundTrip` | synths/roland-mks80/MKS80_LegacyBankLoader.cpp:59-67 | An encoded bank is accepted exactly when it has 64 records. Any other count is rejected with that count. |
| `M80Bank.ReadRecordOfTruncated` | synths/roland-mks80/MKS80_LegacyBankLoader.cpp:45-56 | Input that ends anywhere inside an encoded record makes the record read fail. |
| `M80Bank.DecodeRecordsOfReads` | synths/roland-mks80/MKS80_LegacyBankLoader.cpp:40-57 | Over any records the loop has accepted one after another, whatever their names and bytes, the loop yields exactly those records in file order, in front of whatever the rest decodes to. |
| `M80Bank.BadRecordRejectsFile` | synths/roland-mks80/MKS80_LegacyBankLoader.cpp:45-56 | A record that cannot be read in full rejects the whole file. This holds however many records the loop accepted before it, whatever their names and bytes. |
| `M80Bank.TruncatedRecordRejectsFile` | synths/roland-mks80/MKS80_LegacyBankLoader.cpp:40-57 | Complete records followed by any non-empty proper prefix of one more record are rejected as truncated. |
| `M80Bank.DroppingLastByteRejectsFile` | synths/roland-mks80/MKS80_LegacyBankLoader.cpp:40-67 | A complete 64-record bank with its last byte cut off is rejected. |
| `Mks80Bank.ReadRows` | synths/roland-mks80/MKS80_LegacyBankLoader.cpp:80-84 | The row loop yields `count` rows. Row i is the 62 bytes from pos+62*i when they are all present. A row past the end of input is empty. |
| `Mks80Bank.DecodeMKS80` | synths/roland-mks80/MKS80_LegacyBankLoader.cpp:72-84 | The file is accepted exactly when it is 0xF80 bytes long. Otherwise it is rejected with its length. An accepted file gives 64 rows, and row i is bytes [62*i, 62*i+62). |
| `Mks80Bank.Mks80RoundTrip` | synths/roland-mks80/MKS80_LegacyBankLoader.cpp:72-84 | 64 rows of 62 bytes, written one after another, decode back to the same rows. |
| `Mks80Bank.Mks80Lossless` | synths/roland-mks80/MKS80_LegacyBankLoader.cpp:80-84 | The rows of an accepted file, written out again, give back the file byte for byte. |
| `LegacyBankLoader.LoadM80File` | synths/roland-mks80/MKS80_LegacyBankLoader.cpp:31-68 | A rejected file loads as nothing. A non-empty result implies the file was accepted with exactly 64 records. |
| `LegacyBankLoader.LoadM80FileOfBank` | synths/roland-mks80/MKS80_LegacyBankLoader.cpp:42-62 | For a 64-record bank, the patch converter of record i gets its patch block followed by its tone block, and the tone converter gets its tone block only. Both lists are in file order and go to patchesFromAPRs, tones first. |
| `LegacyBankLoader.LoadM80FileOfWrongCount` | synths/roland-mks80/MKS80_LegacyBankLoader.cpp:59-67 | A bank of well-formed records that does not hold exactly 64 records loads as nothing. |
| `LegacyBankLoader.LoadM80FileOfTruncated` | synths/roland-mks80/MKS80_LegacyBankLoader.cpp:45-56 | A bank whose last record is cut short loads as nothing, even when the records before it are complete. |
| `LegacyBankLoader.LoadMKS80File` | synths/roland-mks80/MKS80_LegacyBankLoader.cpp:70-86 | Input that is not 0xF80 bytes loads as nothing. Otherwise row i, bytes [62*i, 62*i+62), goes whole to both the patch and the tone converter, in row order. |
| `LegacyBankLoader.LoadMKS80FileOfRows` | synths/roland-mks80/MKS80_LegacyBankLoader.cpp:80-85 | 64 rows of 62 bytes, written out as a file, load as the converters applied to each row. |

## Left out

- Logging: the `SimpleLogger` messages at lines 54, 65 and 73 are not modelled. The reason a file is rejected is kept instead, as the `Reason` of a `Failure`.
- Patch and tone names: they are collected into `patchNames` and `toneNames` and never used (the TODO at line 61). The model keeps them in each `DatRecord`, and they play no part in the result.
- The `(char)` cast at line 16: names are kept as raw bytes, since the cast only changes how a byte is represented.
- Converter bodies: `MKS80_Patch::patchesFromDat`, `MKS80_Patch::toneFromDat` and `MKS80::patchesFromAPRs` are not part of this model. They are taken as arbitrary pure functions.
- Converter timing: the loader calls the two DAT converters inside the record loop. The model applies them after the loop to the decoded records. This is equivalent for pure converters. Side effects in them, if any, are not modelled.
- Integer widths: `size_t len` and `int sizeToRead` are unbounded integers here. The length is always a byte value, and the block sizes are the positive constants 0x17, 0x27 and 62, so no wrap-around can occur.
- LoadM80File: its own contract states only the rejection cases. The routing of an accepted file's blocks to the converters is stated by `LoadM80FileOfBank` for banks written by the reference encoder. For any other accepted input it is given by the function's definition.
- ReadRecord: its own contract places only the tone block. Where the names and the patch block come from, and exactly when a record is accepted, is stated by `ReadRecordMeaning`. It is kept apart so that the record loop's proofs do not carry it.
- Round trips through the variable-length encoder cover only non-empty names whose first byte is above 0x20 and whose length fits in a byte. Other names are not covered. Some of them read back changed, as `LeadingSpaceOverwritesLength` shows. Others read back unchanged, such as the empty name followed by a byte above 0x20.
