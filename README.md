# ftdizap EEPROM patch engine in Dafny

This project models the part of `ftdizap` that edits an FTDI chip's EEPROM image and proves properties of it.

**The image.** The image is a fixed buffer of `ELEN` = 0x800 bytes. Word `k` is little-endian: its low byte is at `2k` and its high byte at `2k+1`.

**The setters.** The byte and word setters follow a three-way rule:
- a negative value means "not set" and writes nothing;
- a value equal to the current one writes nothing;
- any other value overwrites the field.

Each setter first asserts that the value fits the field: below 0x100 for a byte, below 0x10000 for a word.

**The checksum.** The checksum starts from 0xAAAA. For each word of 0x00..0x11 and then 0x40..0x7E it xors the word in and rotates left by one bit. The result is stored at word 0x7F through the word setter.

**A run of the tool.** After loading the image, one run does four things:
1. It takes a snapshot of the image.
2. It applies the requested VID (word 0x01), PID (word 0x02) and CBUS0..CBUS6 (bytes 0x1A..0x20), in that order.
3. It stores the checksum.
4. It walks the word pairs in ascending order. For each word whose bytes differ from the snapshot, it issues one EEPROM word write of the patched value. The first write the device refuses ends the run, and nothing is undone.

**Two modules.**
- `Eeprom` (`eeprom.dfy`) has the image as a `seq<byte>`, the byte and word accessors, the setters (`SetByte`, `SetWord`) and the `Checksum` method.
  - The setters and the checksum work in place on an `array<byte>`.
  - Each method is specified by a pure function of the old contents: `PutByte`, `PutWord`, `ChecksumOf`.
  - The properties of those functions are proved as lemmas.
- `FtdiZap` (`ftdizap.dfy`) has the rest of the run:
  - the requested options, with the tool's default of -1 for every field;
  - the patch sequence (`Patch`, specified by `Patched`);
  - the image with its checksum (`Finalized`);
  - the differential write-back (`WriteBack`, specified by `Writes`/`DiffWrites` and the outcome predicate `Attempted`);
  - the whole run (`Run`).

The USB control transfer is a parameter `transfer: Write -> bool`, which says whether the device accepted a write.

Three points about the code shape the model:
- **There are seven CBUS fields.** The tool sets CBUS0..CBUS6, bytes 0x1A..0x20 (ftdizap.c:183-189).
- **Width violations come from user input.** The requested values reach the setters' width assertions (ftdizap.c:35, 67) straight from the command line (ftdizap.c:131-139). So a too-wide value such as `--vid 0x10000` aborts the run before anything is written to the device. `Run` returns `AssertFailed` in that case, with no write issued and the buffer as loaded.
- **The word accessors assert a weaker bound.** They assert `n < ELEN` on a word index, not the bound `2n+1 < ELEN` that their byte accesses need (see Findings).

## Model

| member | source | states |
|---|---|---|
| Eeprom.GetByte | ftdizap.c:24-29 | byte n is the low half of word n/2 when n is even and the high half when n is odd |
| Eeprom.GetWord | ftdizap.c:56-61 | a word read from two bytes is an unsigned 16-bit value |
| Eeprom.WordBytes | ftdizap.c:56-61 | little-endian layout: the word's low byte is byte 2n and its high byte is byte 2n+1 |
| Eeprom.WordEqualIffBytesEqual | ftdizap.c:56-61 | two images hold the same word at n if and only if they hold the same bytes 2n and 2n+1 |
| Eeprom.AssertedWordIndexAdmitsOverrun | ftdizap.c:59-60 | the asserted bound n < ELEN admits word 0x400, and every admitted index from 0x400 up has a byte 2n+1 past the buffer |
| Eeprom.WordIndexExact | ftdizap.c:193-196 | the needed bound 2n+1 < ELEN holds exactly for word indices below 0x400, the ones the write-back loop reads, and each of them also passes the asserted bound |
| Eeprom.PutByte | ftdizap.c:31-54 | a negative value or the current value leaves the image unchanged; a non-negative value ends in byte n; no other byte changes |
| Eeprom.SetByte | ftdizap.c:31-54 | the in-place setter leaves the buffer equal to PutByte of its old contents |
| Eeprom.PutWord | ftdizap.c:63-87 | a negative value or the current word leaves the image unchanged; a non-negative value ends as word n, with its low byte at 2n and its high byte at 2n+1; no other byte changes |
| Eeprom.PutWordKeepsOtherBytes | ftdizap.c:85-86 | the word setter changes no byte of the image but 2n and 2n+1 |
| Eeprom.SetWord | ftdizap.c:63-87 | the in-place setter leaves the buffer equal to PutWord of its old contents |
| Eeprom.Rotl1 | ftdizap.c:97 | definition, no contract of its own: the 16-bit rotate left by one bit that the checksum applies after each xor; its properties are RotateBack and Rotl1IsRotation |
| Eeprom.RotateBack | ftdizap.c:97 | rotating right by one bit undoes Rotl1, so the rotation loses no bit |
| Eeprom.Rotl1IsRotation | ftdizap.c:97 | the shift-or step is the 16-bit rotate left by one bit |
| Eeprom.Step | ftdizap.c:96-97 | definition, no contract of its own: one checksum step, xor the word into the accumulator then rotate; its properties are StepUndone and StepKeepsDifference |
| Eeprom.StepUndone | ftdizap.c:96-97 | a step can be undone: rotating the result right and xoring the word out again gives back the accumulator |
| Eeprom.StepKeepsDifference | ftdizap.c:96-97 | the same word stepped into two different accumulators gives two different results |
| Eeprom.Fold | ftdizap.c:93-103 | definition, no contract of its own: the accumulator after stepping words lo..hi-1 in ascending order into a seed; its properties are FoldFrame, FoldKeepsDifference and FoldOverZeros |
| Eeprom.ChecksumOf | ftdizap.c:93-103 | definition, no contract of its own: the reference checksum, the fold seeded with 0xAAAA over words 0x00..0x11 and then 0x40..0x7E; Checksum is proved to store it, and the lemmas below are about it |
| Eeprom.Checksum | ftdizap.c:89-105 | word 0x7F ends as the 0xAAAA-seeded xor-rotate fold over words 0x00..0x11 then 0x40..0x7E, stored by the word setter; only bytes 0xFE and 0xFF may change |
| Eeprom.FoldFrame | ftdizap.c:94-103 | the fold over a word range depends only on the words in that range |
| Eeprom.FoldKeepsDifference | ftdizap.c:94-103 | folding the same words into two different accumulators keeps them different, so a difference in the low range's result survives the high range |
| Eeprom.ChecksumDependsOnlyOnSummedWords | ftdizap.c:94-103 | images that agree on the 81 summed words have the same checksum |
| Eeprom.ChecksumIdempotent | ftdizap.c:94-104 | storing the checksum leaves the checksum unchanged, and a second store writes nothing |
| Eeprom.FoldOverZeros | ftdizap.c:93-103 | folding zero words alternates 0xAAAA and 0x5555 with the parity of the range length |
| Eeprom.ZeroWordsChecksum | ftdizap.c:93-103 | an image whose summed words are all zero has checksum 0x5555 |
| FtdiZap.Fits | ftdizap.c:35 | definition, no contract of its own: every requested value passes its setter's width assertion, VID and PID below 0x10000 (ftdizap.c:67) and each CBUS value below 0x100; Run is stated in terms of it |
| FtdiZap.PutCbus | ftdizap.c:183-189 | the image keeps its 0x800-byte length; what the CBUS bytes then hold is stated by PutCbusFields |
| FtdiZap.PutCbusFields | ftdizap.c:183-189 | after CBUS0..CBUS(k-1), each of those bytes holds its requested value if that is non-negative and its old value otherwise; no other byte changes |
| FtdiZap.Patched | ftdizap.c:181-189 | the patched image keeps its 0x800-byte length; what the fields then hold is stated by PatchedFields |
| FtdiZap.Finalized | ftdizap.c:181-191 | the image with its checksum keeps its 0x800-byte length; its contents are stated by FinalizedFields |
| FtdiZap.Patch | ftdizap.c:181-189 | the in-place patch sequence leaves the buffer equal to Patched of its old contents |
| FtdiZap.PatchedFields | ftdizap.c:181-189 | after patching, VID, PID and each CBUS byte hold the requested value if it is non-negative and the loaded value otherwise; every byte outside those fields is as loaded |
| FtdiZap.FinalizedFields | ftdizap.c:179-191 | after the checksum the fields are as patched, word 0x7F holds the checksum of the patched image, and every other byte is as loaded |
| FtdiZap.UnsetCbusPatchNothing | ftdizap.c:110-116 | CBUS options left at their -1 defaults change no byte |
| FtdiZap.UnsetOptionsPatchNothing | ftdizap.c:181-189 | with every option at its default, the patch sequence returns the image unchanged |
| FtdiZap.UnsetOptionsKeepImage | ftdizap.c:181-191 | with every option at its default and a valid checksum in place, the run leaves the image exactly as loaded |
| FtdiZap.WordChanged | ftdizap.c:194 | definition, no contract of its own: word i's low or high byte differs from the snapshot, the loop's test; DiffWritesExactly proves it equivalent to a changed word value |
| FtdiZap.Writes | ftdizap.c:193-196 | definition, no contract of its own: the writes for the changed words below k, in ascending order, each carrying the patched word; its properties are WritesPrefix, WritesSound, WritesComplete, WritesAscending and UnchangedImageNoWrites |
| FtdiZap.DiffWrites | ftdizap.c:193-196 | definition, no contract of its own: the writes for every changed word of the image, the list WriteBack is proved to issue |
| FtdiZap.Attempted | ftdizap.c:195-198 | definition, no contract of its own: the outcomes of issuing the expected writes in order, all accepted, or stopped at the first refused one with the writes before it committed; AttemptedStop and AttemptedDeterministic are about it |
| FtdiZap.WriteBack | ftdizap.c:193-198 | the writes issued and the outcome are those of issuing the expected writes in order until the first that the device refuses; a failure reports the byte address of that word |
| FtdiZap.AttemptedStop | ftdizap.c:195-198 | stopping at the first refused write, with it and every earlier write issued, is a possible outcome |
| FtdiZap.WritesPrefix | ftdizap.c:193-198 | the writes for the first k words are a prefix of those for more words, so an early stop issues a prefix of the full list |
| FtdiZap.WritesSound | ftdizap.c:193-196 | every write addresses a word whose bytes changed and carries that word's patched value |
| FtdiZap.WritesComplete | ftdizap.c:193-196 | every word whose bytes changed gets a write carrying its patched value |
| FtdiZap.WritesAscending | ftdizap.c:193-196 | the writes come in strictly ascending word order, so no word is written twice |
| FtdiZap.UnchangedImageNoWrites | ftdizap.c:193-196 | an image equal to its snapshot gives no writes |
| FtdiZap.DiffWritesExactly | ftdizap.c:193-196 | word i gets a write if and only if its value differs from the snapshot |
| FtdiZap.AttemptedDeterministic | ftdizap.c:193-198 | the writes issued and the outcome are determined by the expected writes and by which of them the device accepts |
| FtdiZap.WritesForTwoChangedWords | ftdizap.c:193-196 | when exactly words 0x01 and 0x1A changed, the writes below k are those of the changed words below k, in order |
| FtdiZap.TwoChangedWordsTwoWrites | ftdizap.c:193-196 | images that differ only in words 0x01 and 0x1A give exactly two writes, at 0x01 then 0x1A, with the new values |
| FtdiZap.Run | ftdizap.c:179-198 | a value too wide for its field aborts with no write; otherwise the buffer ends as the patched image with its checksum, and the writes follow the differential rule against the snapshot |

## Left out

- Command-line parsing (ftdizap.c:110-157). The requested values are plain integer inputs, -1 by default. The device selectors (vendor, product, index), the debug flag and the usage errors are not modelled.
- Device discovery, the EEPROM read and the chip-size query through libftdi (ftdizap.c:159-178). These are foreign calls. The loaded image is an arbitrary 0x800-byte input. The same item covers the `elen > ELEN` rejection and the zero fill of bytes past the chip size.
- The USB control transfer (ftdizap.c:195-197). It is I/O and becomes the `transfer` parameter. Its request codes, request type and timeout are not modelled, and neither is the error string of a failed write.
- Debug diagnostics on the error stream (ftdizap.c:37-52, 69-84), including the field labels passed to the setters. They are output formatting only.
- Releasing the device context and the process exit codes (ftdizap.c:201-204).
- Run: when a too-wide value reaches a setter, the source aborts inside that setter. The earlier setters have already changed the in-memory image, but nothing has been written to the device. The model checks the widths up front and returns `AssertFailed` with no write and the buffer as loaded. So it does not model that discarded partial image.
- The source has no file host; only the device path exists.

## Findings

| source | as written | input that shows it | evidently intended | confidence | as-written member | corrected member |
|---|---|---|---|---|---|---|
| ftdizap.c:59 | `getword` and `setword` assert `n < ELEN` (0x800) on a word index, then access `buf[2n+1]` and `buf[2n]` | word index n = 0x400 passes the assertion, but byte 2n+1 = 0x801 lies past the 0x800-byte buffer | the bound `2n+1 < ELEN`, i.e. n < 0x400 | not executed | Eeprom.AssertedWordIndexAdmitsOverrun | Eeprom.WordIndexExact |
