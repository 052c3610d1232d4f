# SD card model: register encoder and block store

This project models the SD card peripheral of the hal_fuzz firmware
emulator (`hal_fuzz/hal_fuzz/models/sd.py`) in Dafny and proves properties of it.
The peripheral has two independent parts.

- **The register encoder.** It builds the CID (card identification) and CSD
  (card-specific data) registers that the card returns to the firmware.
  - `crc_and_last_bit` computes the one-byte trailer of a payload: the CRC7 of the
    payload in the upper seven bits, and a stop bit of 1. `compute_CID` and
    `compute_CSD` append it to the payload.
  - `compute_CID` packs seven integer or ASCII fields big-endian and adds the trailer.
  - `compute_CSD` joins 29 bit strings most significant bit first, packs them into
    bytes and adds the trailer.
  - The card uses one fixed set of field values for each register.
- **The block store (`SDModel`).** It is a sparse dictionary from block address to
  block content.
  - Writes insert a new entry or overwrite an old one.
  - A read of an address that was never written returns 512 zero bytes.
  - The store can count and list its addresses.
  - It can export itself as a contiguous image, with zero-filled holes from the
    smallest to the largest address.
  - It can export itself as a stream of 516-byte records, each a 4-byte big-endian
    address followed by the block, and import such a stream again.

Files:

- `errors.dfy`: the Python exceptions the operations raise, and a `Result` type that
  carries them.
- `bytes.dfy`: Python's byte-level built-ins.
  - `int.to_bytes` with its `OverflowError`.
  - Big-endian decoding.
  - bitarray's MSB-first packing, which zero-pads the last byte.
  - `|` on non-negative integers.
- `crc7.dfy`: the CRC-7 used by SD framing, run bit by bit over a 7-bit register.
- `registers.dfy`: the trailer, CID, CSD and the card's default registers.
- `block_store.dfy`: the store.
  - A Python dict is modelled as a `Dict` value: the mapping plus its keys in insertion
    order, because that order decides the order of `get_block_list` and of the
    dictionary export.
  - The class `SdModel` owns one `Dict` and updates it in place.
  - The two export formats and the import format are specification functions.
  - The class methods are proved equal to those functions.

The CID date field is modelled as the code computes it: `RSV << 3 | MDT`
(`sd.py:24`). The SD layout would put RSV in the four bits above a 12-bit MDT (`RSV << 12`).
With the code's shift, RSV's low bit overlaps bit 3 of MDT.
`Registers.DateFieldOverlap` shows two different RSV values that give the same
register.

## Model

| member | source | states |
|---|---|---|
| Bytes.ToBytes | hal_fuzz/hal_fuzz/models/sd.py:26-31 | `to_bytes(len, 'big')` succeeds exactly when 0 <= n < 256^len; then it gives len bytes whose big-endian value is n, and otherwise OverflowError |
| Bytes.PackBits | hal_fuzz/hal_fuzz/models/sd.py:98 | `tobytes` gives ceil(\|bits\|/8) bytes whose bits, MSB first, are the input followed by zero padding up to a byte boundary |
| Bytes.BitOrBits | hal_fuzz/hal_fuzz/models/sd.py:24 | `a \| b` of two values below 2^w is below 2^w, and each of its w bits is the OR of the operands' bits |
| Crc7.Crc7 | hal_fuzz/hal_fuzz/models/sd.py:15 | the CRC7 of a byte string is a 7-bit value (below 128) |
| Crc7.Residue | hal_fuzz/hal_fuzz/models/sd.py:15 | running the CRC over a message followed by the message's own 7 CRC bits leaves the register at zero, which is the receiver's check |
| Registers.CrcAndLastBit | hal_fuzz/hal_fuzz/models/sd.py:14-19 | the trailer is one byte whose low bit is 1 and whose upper seven bits are the CRC7 of the payload |
| Registers.TrailerAccepted | hal_fuzz/hal_fuzz/models/sd.py:14-19 | any payload followed by its trailer ends in a stop bit and passes the CRC check over all bits before it |
| Registers.Ascii | hal_fuzz/hal_fuzz/models/sd.py:28 | `bytes(s, 'ascii')` succeeds exactly when every character is below 128, giving one byte per character with the character's code; otherwise UnicodeEncodeError |
| Registers.DateField | hal_fuzz/hal_fuzz/models/sd.py:24-31 | the 2-byte date field exists exactly when RSV < 2^13 and MDT < 2^16, and its big-endian value is `RSV << 3 \| MDT` |
| Registers.ComputeCid | hal_fuzz/hal_fuzz/models/sd.py:22-35 | the result is Ok exactly when every field fits its width and PNM is ASCII. It is UnicodeEncodeError exactly when MID and OID fit and PNM is not ASCII. Otherwise it is OverflowError. An Ok result is 11 + \|PNM\| bytes: MID, OID (2), PNM, PRV, PSN (4), the date field (2), all big-endian, then the trailer over everything before it |
| Registers.CidRegister | hal_fuzz/hal_fuzz/models/sd.py:22-35 | with in-range fields and a 5-character ASCII PNM, the CID is 16 bytes and its trailer passes the receiver's check |
| Registers.CidPayload | hal_fuzz/hal_fuzz/models/sd.py:26-31 | with in-range fields, the 15 payload bytes are the concatenation of the encoded fields in argument order |
| Registers.DateFieldOverlap | hal_fuzz/hal_fuzz/models/sd.py:24 | because RSV is shifted by only 3, RSV = 1 and RSV = 0 give the same CID when MDT = 8 |
| Registers.CsdBits | hal_fuzz/hal_fuzz/models/sd.py:69-97 | the 29 fields joined in argument order are 120 bits when each field has its layout width |
| Registers.ParseCsd | hal_fuzz/hal_fuzz/models/sd.py:69-97 | slicing 120 bits at the layout offsets gives fields of the layout widths |
| Registers.ParseCsdBits | hal_fuzz/hal_fuzz/models/sd.py:69-97 | slicing the joined fields at the layout offsets gives back the fields, so the concatenation loses nothing |
| Registers.ComputeCsd | hal_fuzz/hal_fuzz/models/sd.py:37-100 | the CSD is the packed field bits followed by the trailer over those bytes. Its length is ceil(bits/8) + 1, and the payload's bits are the fields in order followed by zero padding |
| Registers.CsdRoundTrip | hal_fuzz/hal_fuzz/models/sd.py:37-100 | with every field at its width, the CSD is 16 bytes, its first 15 bytes decode to exactly the given fields, and its trailer passes the receiver's check |
| Registers.BitString | hal_fuzz/hal_fuzz/models/sd.py:120-121 | `bitarray('…')` has one bit per character, set exactly where the character is '1' |
| Registers.FromBytes | hal_fuzz/hal_fuzz/models/sd.py:122-123 | `frombytes(v.to_bytes(n, 'big'))` gives 8n bits that read, MSB first, as v |
| Registers.Last | hal_fuzz/hal_fuzz/models/sd.py:129-130 | `bits[-k:]` is a suffix of bits. For 0 < k <= \|bits\| it is k bits long and reads as the value of bits modulo 2^k. For k = 0 (`-0` is 0) and for k beyond the length it is the whole string |
| Registers.DefaultCsdValues | hal_fuzz/hal_fuzz/models/sd.py:122-161 | the card's numeric CSD fields, cut to their widths, read back as 0x0e, 0x00, 0x5a, 0x5b5, 0x9, 0x127f, 0x7f, 0x2 and 0x9 |
| Registers.DefaultCsdRegister | hal_fuzz/hal_fuzz/models/sd.py:120-177 | every default CSD field has its layout width, together 120 bits. The card's CSD is 16 bytes, decodes back to the defaults and has a valid trailer |
| Registers.DefaultCidRegister | hal_fuzz/hal_fuzz/models/sd.py:180 | the card's CID is computed without error, is 16 bytes and has a valid trailer |
| Registers.DefaultCidPayload | hal_fuzz/hal_fuzz/models/sd.py:111-117 | the card's CID payload is 41 34 32 53 44 43 49 54 30 12 34 56 78 01 12 |
| BlockStore.Zeros | hal_fuzz/hal_fuzz/models/sd.py:198 | `bytes(n)` is n bytes, all zero |
| BlockStore.Dict.Put | hal_fuzz/hal_fuzz/models/sd.py:193 | `d[addr] = content` keeps the keys unique. It adds addr to the keys and maps it to content. It leaves every other entry alone and keeps the existing key order as a prefix |
| BlockStore.Dict.Read | hal_fuzz/hal_fuzz/models/sd.py:196-202 | `read_block` gives the stored content for a written address, and 512 zero bytes for any other |
| BlockStore.ReadAfterPut | hal_fuzz/hal_fuzz/models/sd.py:191-202 | after a write, reading the written address gives the content, and reading any other address gives what it gave before |
| BlockStore.ReadMiss | hal_fuzz/hal_fuzz/models/sd.py:196-202 | reading an address never written gives 512 zero bytes |
| BlockStore.CountAfterPut | hal_fuzz/hal_fuzz/models/sd.py:191-207 | a write adds one entry exactly when the address is new |
| BlockStore.OrderCount | hal_fuzz/hal_fuzz/models/sd.py:205-207 | the number of keys listed equals the number of distinct addresses stored |
| BlockStore.Bounds | hal_fuzz/hal_fuzz/models/sd.py:231-234 | the first and last entries of the sorted address list are the smallest and largest addresses |
| BlockStore.Image | hal_fuzz/hal_fuzz/models/sd.py:228-237 | the bytes `export_to_file` writes; they fail with IndexError exactly when the store is empty |
| BlockStore.SpanLayout | hal_fuzz/hal_fuzz/models/sd.py:235-236 | a run of n blocks of 512 bytes is n * 512 bytes, with block lo + k at offset 512k |
| BlockStore.ImageLayout | hal_fuzz/hal_fuzz/models/sd.py:228-237 | the image of a non-empty store of 512-byte blocks is (max - min + 1) * 512 bytes, with block i at offset (i - min) * 512 |
| BlockStore.ImageWithHole | hal_fuzz/hal_fuzz/models/sd.py:235-236 | whatever blocks 0 and 2 hold, with block 1 never written the image is block 0, then 512 zero bytes, then block 2 |
| BlockStore.Pack32 | hal_fuzz/hal_fuzz/models/sd.py:247 | `struct.pack('>I', a)` is 4 bytes whose big-endian value is a |
| BlockStore.Record | hal_fuzz/hal_fuzz/models/sd.py:247-248 | a record exists exactly when the address is below 2^32; otherwise StructError |
| BlockStore.Serialize | hal_fuzz/hal_fuzz/models/sd.py:246-248 | the export succeeds exactly when every address is below 2^32; otherwise StructError |
| BlockStore.Dictionary | hal_fuzz/hal_fuzz/models/sd.py:240-248 | the bytes `export_as_dictionary` writes for a store; they exist exactly when every stored address fits 32 bits, and otherwise StructError |
| BlockStore.SerializeLayout | hal_fuzz/hal_fuzz/models/sd.py:246-248 | with 32-bit addresses and 512-byte blocks, the export is one 516-byte record per key, in key order, and record k reads back as the k-th key and its content |
| BlockStore.RecordAt | hal_fuzz/hal_fuzz/models/sd.py:259-261 | one record read from a stream has an address below 2^32 and a 512-byte content |
| BlockStore.Records | hal_fuzz/hal_fuzz/models/sd.py:258-261 | a stream holds \|data\| / 516 whole records, each with a 32-bit address and a 512-byte content |
| BlockStore.PutAllKeys | hal_fuzz/hal_fuzz/models/sd.py:258-262 | storing a sequence of records keeps the store well formed. Afterwards it holds exactly its old addresses plus the records' addresses, and the old key order is a prefix of the new one |
| BlockStore.PutAllDistinct | hal_fuzz/hal_fuzz/models/sd.py:262 | storing distinct keys with their contents, in order, into an empty store holds exactly those keys in that order |
| BlockStore.DictionaryRoundTrip | hal_fuzz/hal_fuzz/models/sd.py:240-262 | for a store with 32-bit addresses and 512-byte blocks, the export succeeds with whole records only, and importing it into an empty store gives back the same store, key order included |
| BlockStore.SdModel.constructor | hal_fuzz/hal_fuzz/models/sd.py:183 | a new card holds no blocks |
| BlockStore.SdModel.WriteBlock | hal_fuzz/hal_fuzz/models/sd.py:191-193 | the store becomes the old store with `addr` set to `content`, and stays well formed |
| BlockStore.SdModel.ReadBlock | hal_fuzz/hal_fuzz/models/sd.py:196-202 | gives the stored content, or 512 zero bytes for an address never written |
| BlockStore.SdModel.BlockCount | hal_fuzz/hal_fuzz/models/sd.py:205-207 | gives the number of distinct addresses written |
| BlockStore.SdModel.BlockList | hal_fuzz/hal_fuzz/models/sd.py:210-215 | gives every written address once, in the order first written, and nothing else |
| BlockStore.SdModel.Blocks | hal_fuzz/hal_fuzz/models/sd.py:235-236 | the blocks first..last in ascending order, each as `read_block` returns it |
| BlockStore.SdModel.ExportImage | hal_fuzz/hal_fuzz/models/sd.py:228-237 | gives the image: every block from the smallest to the largest address, or IndexError on an empty store |
| BlockStore.SdModel.ExportDictionary | hal_fuzz/hal_fuzz/models/sd.py:240-249 | gives the records of every entry in key order. It fails with StructError exactly when some address does not fit 32 bits |
| BlockStore.SdModel.ImportDictionary | hal_fuzz/hal_fuzz/models/sd.py:252-263 | stores every whole record of the stream in order. It reports a corrupt stream exactly when a partial record is left over |

## Left out

- File handling is not modelled: the `'./' + name` paths, `open`, `write` and `close`.
  The exports return the bytes the file would hold. The import takes the bytes the file holds.
- `print_block` is not modelled. It is hex formatting and console output.
- Crc7.Crc7: `libscrc.crc7` is a foreign library. It is modelled as CRC-7/MMC: generator
  x^7 + x^3 + 1, zero initial register, most significant bit first, no reflection and no
  final xor. The standard check value (0x75 for "123456789") is not proved.
- bitarray's internals are not modelled. Bit arrays are sequences of booleans, most
  significant bit first.
- Registers.BitString: `bitarray()` raises ValueError on a character other than '0' or '1'.
  The model reads any such character as a 0 bit. Only '0' and '1' occur in the card's fields.
- BlockStore.SdModel.ImportDictionary models the record parser the comments describe, not
  the loop as written. As written, there are two defects.
  - `while f.readable()` is always true. The loop leaves only through the `struct.error`
    that `struct.unpack` raises on a short read at the end of the file. No call returns
    normally.
  - The key stored is the 1-tuple that `struct.unpack` returns, not the address. So
    `read_block(addr)` misses every imported block.
  The model stores each whole 516-byte record under its address. It reports a trailing
  partial record as `CorruptDictionary` after storing the whole records before it.
- BlockStore.SdModel.ExportImage does not sort the address list. `export_to_file` sorts it
  only to take its first and last entries. The model takes the smallest and largest
  addresses directly (`Bounds`), which is the same pair.
- BlockStore.SdModel.ExportDictionary returns the error alone. The Python export would
  already have written the records before the failing one to the file.
- The disk is a per-instance field. The Python code shares one class-level dictionary
  among all users of the class.
- `CARD_VERSION`, `CARD_TYPE` and `RCA` are not modelled. They are constants that no
  modelled operation reads.
- Negative block addresses are not modelled: addresses are natural numbers. Python's
  `write_block` and `read_block` accept a negative address, `export_to_file` reads it, and
  `export_as_dictionary` raises `struct.error` on it.
- Argument types are not modelled: the CID fields are Dafny integers and PNM is a string, so the
  TypeErrors Python raises for other argument types do not arise.
