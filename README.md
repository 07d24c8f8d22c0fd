# sadl decoder in Dafny

A model of the South African driving-licence decoder (`sadl`): its three core files and the
record they fill.

- `sadl/service.ts` (`DriverLicenseService`). `decrypt` picks a key set by the 4-byte version tag.
  It then cuts six blocks from the ciphertext and runs the RSA primitive on each. Each result is
  left-padded by `encryptValue` and written into a zero-filled 720-byte buffer. `decode` then reads
  the licence fields from that buffer in a fixed order.
- `sadl/decoder.ts`. `DriverLicenseDecoder` is a byte cursor over the plaintext. It provides
  single-byte reads, delimited strings ended by 0xE0 or 0xE1, and string lists with the
  "first 0xE1 uses up a slot" rule. `DriverLicenseDecoderNibbleQueue` turns a run of bytes into
  nibbles. Its reads take nibble texts and `mcdy-m1m2-d1d2` date strings off the front.
- `sadl/nibble.ts` (`Nibble`). It keeps `value & 0x0f` and prints its value as one hex digit.

Modules, in dependency order:

| file | module | form |
|---|---|---|
| `outcomes.dfy` | `Outcomes` | `Option`, `Result` and the exceptions of the decode path |
| `bytes.dfy` | `Bytes` | bytes, `String.fromCharCode`, `padStart`, `charAt` and `Number.prototype.toString(radix)` |
| `nibble.dfy` | `Nibbles` | `Nibble` as a datatype (its value never changes); `& 0x0f` through ToUint32 and a bitwise AND |
| `field_reads.dfy` | `FieldReads` | each cursor read as a pure function of the plaintext and the position |
| `nibble_tokens.dfy` | `NibbleTokens` | the nibble run and each queue read as pure functions of the queue |
| `decoder.dfy` | `Decoder` | the two classes; every method is proved against the pure read it performs |
| `decryption.dfy` | `Decryption` | key selection, `encryptValue` and the block loop as functions; a by-block closed form |
| `licence.dfy` | `Licence` | the `IDriverLicense` record of `sadl/type.ts` and `decode`'s field order as functions |
| `service.dfy` | `Service` | `decrypt` over an `array<byte>`, and `decode` as methods over the decoder objects |

Exceptions become `Err` values of `Result`:
- `InvalidLicenceData`: the decoder's size check.
- `InvalidLicenceVersion`: an unknown version tag.
- `ReadOutOfBounds`: `DataView.getUint8` past the end.
- `WriteOutOfBounds`: the `RangeError` of `Uint8Array.prototype.set`.

The RSA primitive, with jsbn's byte conversions around it, is the parameter `modPow`. The two tags
and the two key sets are the parameter `KeyMaterial`.

Three behaviours of the code that are easy to miss:
- A plaintext without a 0x82 byte fails in the constructor's scan as an out-of-range read. There
  is no separate "malformed plaintext" error.
- `decrypt` never checks the total size. It always returns the 720-byte buffer, and a short
  ciphertext leaves zeros where no block was written (`Decryption.UnwrittenBytesAreZero`). It fails
  only on an unknown tag or on a block whose output does not fit (`Decryption.DecryptFails`). The
  only size check on the decode path is the decoder's 720-byte test, which `decrypt`'s output
  always passes (`Service.DecodeErrors`).
- `readStringList` drops only the empty string. A slot made of 0x00 bytes ended by 0xE1 is kept
  as a string of NUL characters.

## Model

| member | source | states |
|---|---|---|
| Nibbles.BitAndLowBits | sadl/nibble.ts:5 | AND with a mask of k one-bits keeps a non-negative integer modulo 2^k |
| Nibbles.LowBitsKeepMod16 | sadl/nibble.ts:5 | reducing a number to its low 32 bits (ToUint32) does not change it modulo 16 |
| Nibbles.ToUint32 | sadl/nibble.ts:5 | the operand of `&` cut to its low 32 bits: below 2^32, congruent to the number, and the number itself when it already fits |
| Nibbles.BitAnd | sadl/nibble.ts:5 | the AND of two non-negative integers is at most each of them |
| Nibbles.Mask | sadl/nibble.ts:5 | `v & 0x0f` on any integer is in 0..15 and equals v mod 16 |
| Nibbles.FromNumber | sadl/nibble.ts:4-6 | the constructor keeps the value modulo 16 |
| Nibbles.DefaultNibble | sadl/nibble.ts:4 | the default argument gives value 0, whose text is "0" |
| Nibbles.ToString | sadl/nibble.ts:8-10 | radix 16, padded to two characters, second character: exactly the one hex digit of the value |
| Nibbles.MaskIsIdempotent | sadl/nibble.ts:4-6 | masking twice is masking once; a nibble rebuilt from its value is the same nibble |
| Nibbles.HexDigitText | sadl/nibble.ts:8-10 | the text is one character, '0'..'9' below 10 and 'a'..'f' from 10, and reads back as the value |
| Nibbles.ToStringInjective | sadl/nibble.ts:8-10 | different nibbles print differently; the text is "a" exactly for value 10 |
| Bytes.Zeros | sadl/service.ts:102 | `new Uint8Array(n)` holds n bytes, all zero |
| Bytes.Latin1 | sadl/decoder.ts:139 | `String.fromCharCode` on each byte: one character per byte, whose code is that byte |
| Bytes.Latin1Snoc | sadl/decoder.ts:139 | appending one byte's character to the decoded text is decoding the bytes with that byte appended |
| Bytes.CharAt | sadl/nibble.ts:9 | `charAt(i)`: the i-th character when i is in range, else "" |
| Bytes.Digits | sadl/nibble.ts:9 | `toString(radix)` writes at least one digit, and exactly one iff the number is below the radix |
| Bytes.PadStart | sadl/nibble.ts:9 | `padStart` gives length max(len, width), keeps the string as suffix and fills the front |
| Bytes.DigitsRoundTrip | sadl/nibble.ts:9 | `toString(radix)` writes at least one digit, only digits of the radix, which read back as the number |
| Bytes.LeadingZerosKeepValue | sadl/service.ts:33-38 | leading '0' characters do not change the value of a digit string |
| FieldReads.FieldStart | sadl/decoder.ts:90-106 | fails with the size error unless 720 bytes; otherwise succeeds iff 0x82 occurs, the cursor then one past its first occurrence |
| FieldReads.Find | sadl/decoder.ts:100-102 | the first index at or after the start that satisfies the test, or none when no later byte does |
| FieldReads.ByteAt | sadl/decoder.ts:121-123 | getUint8 succeeds iff the cursor is inside the data, returning the byte there and the next position; otherwise the range error |
| FieldReads.CharacterAt | sadl/decoder.ts:116-119 | as ByteAt, returning the character whose code is that byte |
| FieldReads.CharsAt | sadl/service.ts:29-31 | n character reads succeed iff n bytes remain; each character is its byte, the cursor n further on |
| FieldReads.SegmentAt | sadl/decoder.ts:153-166 | the bytes up to the first 0xE0/0xE1 and that delimiter, which is consumed; fails iff no delimiter follows |
| FieldReads.StringAt | sadl/decoder.ts:129-143 | readString's result is the delimiter-free text before the first delimiter; the cursor passes it and the delimiter |
| FieldReads.Segments | sadl/decoder.ts:149-171 | n consecutive segments: n of them, each ended by a delimiter and free of delimiters, within the data |
| FieldReads.StringListAt | sadl/decoder.ts:145-174 | the list read fails only as an out-of-range read and never moves the cursor back or past the data |
| FieldReads.StringListLoop | sadl/decoder.ts:145-174 | the loop as written fails only with the range error, never moves the cursor back, and collects at most one string per remaining slot |
| FieldReads.PrependStep | sadl/decoder.ts:153-170 | one turn of the loop moves one segment's non-empty text into the collected list and advances the counter by 1, or by 2 at the first 0xE1 |
| FieldReads.PrependFails | sadl/decoder.ts:153-154 | a slot left to read with no delimiter ahead fails the whole list read |
| FieldReads.StringListLoopIsStringListAt | sadl/decoder.ts:145-174 | the loop with its counter and flag computes the loop-free description: count - 1 segments, one more unless 0xE1 ended one of them |
| FieldReads.StringListLoopAfterSkip | sadl/decoder.ts:157-161 | once the flag is set, 0xE1 acts as 0xE0 and each remaining slot reads one segment |
| FieldReads.FirstSegmentSkips | sadl/decoder.ts:157-161 | a first segment ended by 0xE1 uses up two slots |
| FieldReads.FirstSegmentPlain | sadl/decoder.ts:155-156 | a first segment ended by 0xE0 uses one slot and leaves the rest to the same rule |
| FieldReads.PlainHeadList | sadl/decoder.ts:145-174 | a list of r slots whose first segment ends with 0xE0 is that segment's text followed by a list of r - 1 slots |
| FieldReads.SomeSkipCons | sadl/decoder.ts:155-156 | a segment ended by 0xE0 does not change whether 0xE1 ends one of the segments |
| FieldReads.TextsAtCons | sadl/decoder.ts:168-170 | the texts of n + 1 segments are the first segment's text followed by those of the next n |
| FieldReads.TextsShape | sadl/decoder.ts:168-170 | empty texts are dropped: at most one string per segment, each non-empty and free of delimiters |
| FieldReads.StringListShape | sadl/decoder.ts:145-174 | readStringList(count) returns at most count strings, none empty and none containing a delimiter |
| FieldReads.StringListSkipCompresses | sadl/decoder.ts:157-161 | when 0xE1 ends one of the first count - 1 segments, only those are read and at most count - 1 strings come back |
| NibbleTokens.ByteToNibbles | sadl/decoder.ts:41-46 | the nibbles of `byte >> 4` and `byte & 0x0f` are the high and low hex digits and recombine to the byte |
| NibbleTokens.NibblesOf | sadl/decoder.ts:34-37 | two nibbles are queued per byte |
| NibbleTokens.NibblesOfSnoc | sadl/decoder.ts:34-37 | reading one more byte appends its high and then its low nibble |
| NibbleTokens.NibblesRoundTrip | sadl/decoder.ts:41-46 | pairing the queued nibbles back up gives exactly the bytes read |
| NibbleTokens.NibbleRun | sadl/decoder.ts:28-39 | the run ends at the first terminator, which is consumed and not split; 2 nibbles per byte before it; fails iff no terminator follows |
| NibbleTokens.NibbleRunRoundTrip | sadl/decoder.ts:28-46 | the queue has even length and pairs back into the bytes between the start and the terminator |
| NibbleTokens.NibbleRunStops | sadl/decoder.ts:31-33 | a terminator with none before it ends the run there, holding the nibbles of every byte before it |
| NibbleTokens.PopText | sadl/decoder.ts:11-13 | readNibble returns at most one character, "" exactly when the queue is empty, and removes at most the front |
| NibbleTokens.PopTextAt | sadl/decoder.ts:55-63 | the k-th removal yields the text of nibble k, or "" past the end |
| NibbleTokens.DateString | sadl/decoder.ts:48-66 | "" exactly when the queue is empty or its front nibble is 10; otherwise the two dashes and one character for each of the eight nibbles that is present; the queue left is what the token does not take |
| NibbleTokens.DateOf | sadl/decoder.ts:19-24 | null only for the empty string, and the string can be recovered from the result |
| NibbleTokens.DateToken | sadl/decoder.ts:15-26 | a single date: absent iff the queue is empty or its front nibble is 10; a present date has 2 + min(8, n) characters; the queue loses exactly the token |
| NibbleTokens.DateList | sadl/decoder.ts:68-82 | one entry for each of max(count, 0) tokens, and never more queue left than there was |
| NibbleTokens.DateListStep | sadl/decoder.ts:71-79 | the date string read where i tokens stopped gives token i and leaves the queue where i + 1 tokens stop |
| NibbleTokens.DateTokenConsumption | sadl/decoder.ts:48-66 | a date is absent iff the queue is empty or its front nibble is 10, and then at most one nibble is removed; otherwise up to eight are |
| NibbleTokens.DateTokenText | sadl/decoder.ts:55-65 | a present date read from eight nibbles is the ten characters `mcdy-m1m2-d1d2` of their hex digits |
| NibbleTokens.AfterOneMoreToken | sadl/decoder.ts:71-72 | reading one more date from where j dates stopped leaves the queue where j + 1 dates do |
| NibbleTokens.TokensSnoc | sadl/decoder.ts:71-79 | appending date i to the first i dates gives the first i + 1 |
| NibbleTokens.FirstListDateIsSingleDate | sadl/decoder.ts:15-26 | the first date of a list read equals the single date read at the same place |
| Decoder.SkipToFieldStart | sadl/decoder.ts:90-106 | the constructor's size check and scan end exactly where FieldStart says, or fail as it does |
| Decoder.DriverLicenseDecoder.Create | sadl/decoder.ts:90-106 | a fresh decoder over the data with the cursor at the field start, or the constructor's exception |
| Decoder.DriverLicenseDecoder.ReadByte | sadl/decoder.ts:121-123 | returns the byte under the cursor and advances one; past the end, fails with the cursor still advanced |
| Decoder.DriverLicenseDecoder.ReadCharacter | sadl/decoder.ts:116-119 | as readByte, the byte as a character |
| Decoder.DriverLicenseDecoder.ReadData | sadl/decoder.ts:108-114 | a list with a count, a single string without one, each as the corresponding read says |
| Decoder.DriverLicenseDecoder.ReadString | sadl/decoder.ts:129-143 | the loop returns StringAt's value and cursor, or its failure with the cursor one past the end |
| Decoder.DriverLicenseDecoder.ReadSegment | sadl/decoder.ts:153-166 | the inner loop stops at SegmentAt's delimiter with SegmentAt's contents |
| Decoder.DriverLicenseDecoder.ReadStringList | sadl/decoder.ts:145-174 | the nested loop returns StringListAt's list and cursor, or its failure |
| Decoder.DriverLicenseDecoder.ReadIntoNibble | sadl/decoder.ts:125-127 | a fresh queue holding NibbleRun's nibbles, the cursor past the terminator |
| Decoder.DriverLicenseDecoderNibbleQueue.ReadIntoNibble | sadl/decoder.ts:28-39 | the loop appends NibbleRun's nibbles to the queue and leaves the cursor where NibbleRun does |
| Decoder.DriverLicenseDecoderNibbleQueue.ReadNibble | sadl/decoder.ts:11-13 | the result and the new queue are PopText of the old queue |
| Decoder.DriverLicenseDecoderNibbleQueue.ReadNibbleDate | sadl/decoder.ts:15-26 | a list of dates with a count, otherwise one date, null for an empty string |
| Decoder.DriverLicenseDecoderNibbleQueue.ReadNibbleDateString | sadl/decoder.ts:48-66 | the string and the new queue are DateString of the old queue |
| Decoder.DriverLicenseDecoderNibbleQueue.ReadNibbleDateList | sadl/decoder.ts:68-82 | the loop returns one date per token for max(count, 0) tokens and leaves the queue after them |
| Decryption.VersionTag | sadl/service.ts:77 | `subarray(0, 4)`: a prefix of the input, four bytes long, or the whole input when it is shorter |
| Decryption.SelectKeys | sadl/service.ts:77-100 | succeeds iff the first four bytes are one of the two tags; version 1 wins; otherwise the version error |
| Decryption.Pad | sadl/service.ts:155-164 | the result is max(len, size) long, ends with the input and has only zeros in front |
| Decryption.ZerosKeepValue | sadl/service.ts:158-161 | leading zero bytes do not change a big-endian value |
| Decryption.PadKeepsValue | sadl/service.ts:155-164 | padding keeps the big-endian number and gives at least `size` bytes |
| Decryption.EncryptValue | sadl/service.ts:141-165 | the output has the primitive's length or `size`, whichever is larger |
| Decryption.EncryptValueKeepsNumber | sadl/service.ts:141-165 | encryptValue returns the primitive's number unchanged, as at least `size` bytes ending in its output |
| Decryption.BlockOutput | sadl/service.ts:115-131 | a block of 128 bytes or more uses the large key and gives at least its own length; a shorter one uses the small key and gives at least 74 bytes; either way the number is the primitive's with that key |
| Decryption.Write | sadl/service.ts:133 | `set` keeps the length, copies the block over its range and leaves every other byte |
| Decryption.WriteAt | sadl/service.ts:133 | a buffer that agrees with the write at every index is that write |
| Decryption.DecryptBlocks | sadl/service.ts:106-136 | the loop ends in a 720-byte buffer or fails with the write error |
| Decryption.Cipher | sadl/service.ts:103 | `subarray(5)`: the input is its first five bytes followed by the result; empty when the input has at most five bytes |
| Decryption.DecryptSpec | sadl/service.ts:74-139 | decrypt returns 720 bytes or fails with the version or write error, the version error exactly for an unknown tag |
| Decryption.DecryptBlocksNext | sadl/service.ts:106-136 | one turn: cut 129 or 128 bytes, decrypt, then fail if the output passes 720, else write at i * end and go on |
| Decryption.CutAtBlock | sadl/service.ts:107-111 | at turn i the loop cuts exactly block i (from byte 129 + 128(i - 1) on), keeps the ciphertext from block i + 1 on, and writes at i * end = 128 i |
| Decryption.CanvasStep | sadl/service.ts:133 | one more write turns the buffer after i blocks into the buffer after i + 1 |
| Decryption.DecryptBlocksStep | sadl/service.ts:106-136 | the loop from block i either fails on a block that does not fit or ends in the by-block buffer |
| Decryption.PaintsFromStep | sadl/service.ts:106-136 | the by-block description carries over from block i + 1 to block i |
| Decryption.DecryptBlocksPainted | sadl/service.ts:106-136 | the loop from block 0 matches the by-block description |
| Decryption.DecryptCharacterised | sadl/service.ts:74-139 | decrypt is the tag check, then success exactly when every block fits, each byte from the last block written over it |
| Decryption.DecryptFails | sadl/service.ts:98-133 | decrypt fails iff the tag is unknown or some block's output runs past 720 bytes, and then with the write error |
| Decryption.BlockOneOverwritesBlockZero | sadl/service.ts:133 | block 0 is written over bytes 0..128 and block 1 at 128, so byte 128 comes from block 1 |
| Decryption.UnwrittenBytesAreZero | sadl/service.ts:102 | bytes that no block's write reaches keep the buffer's initial zero |
| Decryption.PaintedUntouched | sadl/service.ts:133 | a byte missed by the first n writes is still 0 after them |
| Decryption.FullPayloadBlocks | sadl/service.ts:103-111 | a 720-byte input gives blocks of 129, four of 128 and a last one of 74 bytes |
| Decryption.LongPayloadFails | sadl/service.ts:103-133 | an input of 774 bytes or more makes a sixth full block whose write at 640 cannot fit, so decrypt fails |
| Licence.IdentityNumberType | sadl/service.ts:33-38 | at least two characters, all decimal digits, which read back as the byte |
| Licence.DecimalLength | sadl/service.ts:33-38 | a number below 1000 has 1, 2 or 3 decimal digits by magnitude |
| Licence.IdentityNumberTypeDecimal | sadl/service.ts:33-38 | the identity type has 2 characters below 100 and 3 from 100 on |
| Licence.TwoNibbles | sadl/service.ts:44 | two readNibble results joined: at most two characters, at most two nibbles removed |
| Licence.HeaderAt | sadl/service.ts:18-24 | one skipped byte, the codes list (at most 4 non-empty strings) and four delimiter-free strings |
| Licence.DetailsAt | sadl/service.ts:25-38 | restrictions (at most 4), a delimiter-free licence number, 13 identity characters and a 2- or 3-digit type |
| Licence.TextSectionAt | sadl/service.ts:18-38 | all string fields in decode's order, with the shape each read guarantees |
| Licence.NibbleSectionOf | sadl/service.ts:42-57 | the nibble fields in decode's order, with the queue left after the gender: exactly 4 issue dates, and codes of at most two characters |
| Licence.NibblesAndImageAt | sadl/service.ts:40-70 | the nibble run, its fields and the image fail only with the range error; the cursor ends past its start and within the data; 4 issue dates and codes of at most two characters |
| Licence.ImageAt | sadl/service.ts:59-70 | the image read succeeds iff six bytes remain; width and height are the 4th and 6th of them |
| Licence.Assemble | sadl/service.ts:16-70 | each field of the record comes from the section decode reads it in: the record projects back onto the text section, the nibble section and the image unchanged |
| Licence.LicenceAt | sadl/service.ts:18-70 | the reads from the field start fail only with the range error; the cursor ends past its start and within the data; and a result is well formed: list sizes, delimiter-free strings (the two countries of issue included), 13 identity characters, a 2- or 3-digit type, 4 issue dates |
| Licence.LicenceFromPlaintext | sadl/service.ts:15-71 | decode after decryption: the size error for a non-720-byte plaintext, else only out-of-range reads; a result is well formed as for LicenceAt |
| Service.DecodeSpec | sadl/service.ts:13-72 | decode fails only with the version, write or read error, and with the version error exactly for an unknown tag |
| Service.DecodeErrors | sadl/service.ts:13-72 | decode fails only with the version, write or read error, and only with the read error once decryption succeeded |
| Service.Decrypt | sadl/service.ts:74-139 | the loop over the array buffer computes DecryptSpec, including its errors |
| Service.SelectVersionKeys | sadl/service.ts:77-100 | the two tag comparisons pick the key set SelectKeys names, or the version error |
| Service.Set | sadl/service.ts:133 | `Uint8Array.prototype.set`: the write error with the buffer unchanged when the block does not fit, else exactly the write |
| Service.ReadHeader | sadl/service.ts:18-24 | the reads of the header return HeaderAt's fields and cursor, or its failure with the cursor one past the end of the data |
| Service.ReadIdentityNumber | sadl/service.ts:27-31 | the 13-step loop returns CharsAt's 13 characters and cursor, or its failure with the cursor one past the end of the data |
| Service.ReadDetails | sadl/service.ts:25-38 | the reads after the header return DetailsAt's fields and cursor, or its failure with the cursor one past the end of the data |
| Service.ReadTextSection | sadl/service.ts:18-38 | the string reads return TextSectionAt's fields and cursor, or its failure with the cursor one past the end of the data |
| Service.ReadNibbleSection | sadl/service.ts:42-57 | the queue reads in decode's order give NibbleSectionOf of the queue, and the queue left is the one NibbleSectionOf leaves |
| Service.ReadImage | sadl/service.ts:59-70 | the six byte reads give ImageAt's width and height, the cursor six bytes on, or after a failure one past the end of the data |
| Service.ReadLicence | sadl/service.ts:15-71 | decode's reads over the decoder objects give LicenceFromPlaintext of the plaintext |
| Service.ReadSections | sadl/service.ts:18-70 | the reads from the field start give LicenceAt at the decoder's cursor, leaving the cursor at LicenceAt's end, or after a failure one past the end of the data |
| Service.ReadNibblesAndImage | sadl/service.ts:40-70 | the nibble queue and image reads give NibblesAndImageAt at the cursor, leaving the cursor at its end, or after a failure one past the end of the data |
| Service.Decode | sadl/service.ts:13-72 | decode computes DecodeSpec: decryption, then the licence, or the first error |

## Left out

- Buffer.from(str, encoding): the input is taken as its bytes; text encodings are not modelled.
- PEM parsing and the key and version constants: the `encryption-keys` and `versions` modules are
  not part of this model. The two tags and key sets are the `KeyMaterial` parameter. Comparing the
  tags through `toString()` is modelled as comparing the byte sequences, which it is for byte
  arrays.
- jsbn arithmetic: the byte-array to BigInteger conversion, `modPow` and `toByteArray` (signed, so
  possibly one byte longer than the modulus) are the uninterpreted parameter `modPow`. The discarded
  `forge.util.hexToBytes(rgb.toString())` call has no effect and is left out.
- `new Date(dateString)`: a date is kept as the string it would be parsed from; date parsing and
  invalid dates are not modelled.
- `toLocaleString(undefined, {minimumIntegerDigits: 2, useGrouping: false})` is modelled for a
  locale with ASCII digits; locales with other numerals are not modelled.
- JavaScript numbers: counts are integers; fractional or non-number arguments to `readData`,
  `readNibbleDate` and `Nibble` are not modelled. `byte >> 4` is modelled for bytes only, as b / 16.
- DataView over `data.buffer`: the decoder holds the 720 bytes themselves. A view over a larger
  underlying buffer is not modelled; `decrypt` always passes a fresh 720-byte array.
- The partly filled licence object on an exception is not observable: `decode` returns an error.
- DriverLicenseService has no state, so `decrypt` and `decode` are module-level methods.
  Service.ReadHeader, ReadIdentityNumber, ReadDetails, ReadTextSection, ReadNibbleSection,
  ReadImage, ReadNibblesAndImage, ReadSections and ReadLicence are consecutive statements of
  `decode` grouped into methods, and Service.SelectVersionKeys is the opening of `decrypt`. They
  are not functions of the source.
- Decoder.DriverLicenseDecoder.ReadSegment is the inner loop of `readStringList` drawn out as a
  method. Service.Set stands for the runtime's `Uint8Array.prototype.set`.
- Decryption.EncryptValue: its own contract states only the length; the padding and the number it
  keeps are stated by Decryption.EncryptValueKeepsNumber.
