# D-Flash to EEPROM image converter, modelled in Dafny

The MC9S12XE microcontroller emulates a 2048-word EEPROM in a D-Flash region
of 128 erase blocks of 256 bytes each. Every block starts with a 4-byte header.
A data block then holds 63 four-byte update commands. Each command is a tagged
11-bit word address followed by a 16-bit value. `DFlashConverter` in
`dflash_to_eee.py` rebuilds the EEPROM image from a raw dump of that region in
four steps, and this project models each of them:

1. **Classifier** (`_read_file`). Reads every block header. The block is
   EMPTY, NEW (header stamped, no commands yet), VALID, LAST (a data block
   with an erased slot, i.e. the one being written) or INVALID. The classifier
   decodes the slots of every data block. An unknown header or an unknown
   command tag sets the sticky `corrupt` flag. A header or slot read past the
   end of the dump is the "Input file too short" error.
2. **End-block locator** (`_find_new_blocks`, `_find_last_block`,
   `_find_longest_empty`, `_find_endblock`). Finds the block written last.
   It uses three heuristics over the circular sequence of block kinds and a
   policy that combines them.
3. **Replayer** (`_save_file`). Starts from an erased image (every word
   0xFFFF). It visits the blocks round the circle from the block after the end
   block, so the end block comes last, and applies every command in order. The
   last write to an address wins. The image is written out big-endian.
4. **Byte accessor** (`_get_byte`). A big-endian byte view of the word image.

Modules:
- `Layout` (layout.dfy): the constants, the kinds, commands and error values,
  and the byte/word arithmetic.
- `Classifier` (classifier.dfy): the decoding of a dump as functions.
- `Locator` (locator.dfy): the three heuristics and the combination policy as
  functions and predicates over `seq<Kind>`.
- `Replay` (replay.dfy): the visiting order, the command log, last-write-wins
  and the serialisation.
- `Converter` (converter.dfy): the class `DFlashConverter` with the fields
  `blockTypes`, `blockData`, `endblock`, `corrupt` and `data`. Its methods
  follow the loops of the original and are proved equal to the specification
  functions above.

Bit masks are written as arithmetic on 16-bit words:
- `field & 0xF800` is `field - field % 0x800`, and `field & ~0xF800` is
  `field % 0x800`; `Layout.TagIsMask` proves both equal to the masks on `bv16`.
- `w >> 8` is `w / 0x100`, and `w & 0xFF` is `w % 0x100`.

Python's `%` on the one negative operand that occurs, `-1 % 128 == 127`, is
spelled out by `Locator.ModWrap`.

`_find_new_blocks` is documented as returning the block just before the NEW
blocks. On a dump holding only EMPTY blocks and one run of NEW blocks it
does not: it raises "All blocks seem to be new blocks" whenever every block
is EMPTY or NEW. The model follows the code (`Locator.NewRunEnd`,
`Error.AllBlocksNew`).

## Model

| member | source | states |
|---|---|---|
| Layout.WordBytesRoundTrip | dflash_to_eee.py:130 | Unpacking two bytes big-endian into a word and splitting it again are inverse operations. |
| Layout.TagIsMask | dflash_to_eee.py:146-147 | For every 16-bit slot field, the model's tag and address are exactly `field & 0xF800` and `field & ~0xF800`. |
| Classifier.ScanSlots | dflash_to_eee.py:140-156 | Scanning n slots records at most n commands. |
| Classifier.ScanSlotsFacts | dflash_to_eee.py:140-156 | The recorded commands are exactly those of the slots tagged 0xB800, with each slot's address and value, one entry per such slot and in slot order. LAST is marked exactly when some slot is tagged 0xF800. Corruption is marked exactly when some slot has another tag. Earlier and later slots are decoded either way. |
| Classifier.ScanSlotsMarks | dflash_to_eee.py:150-156 | The LAST mark is set exactly when some slot is tagged 0xF800, the unknown mark exactly when some slot has neither known tag. |
| Classifier.ValidSlotsOrdered | dflash_to_eee.py:140-151 | The 0xB800 slots are enumerated in increasing slot order, and none is missed. |
| Classifier.ScanSlotsFrom | dflash_to_eee.py:140-151 | Entry k of the recorded commands is the address and value of the k-th 0xB800 slot, and there are as many entries as such slots. |
| Classifier.ReadBlockFacts | dflash_to_eee.py:129-160 | Header 0xFFFF/0xFFFF gives EMPTY. 0xFFFF with another second field gives NEW. 0xFACF gives VALID or LAST. Any other first field gives INVALID. Only data blocks carry commands, namely those of their 0xB800 slots in slot order. A block is corrupt exactly when it is INVALID or a data block with a slot of unknown tag; EMPTY and NEW blocks never are. |
| Classifier.ClassifyCorrupt | dflash_to_eee.py:120-160 | The flag starts clear and a classified dump is corrupt exactly when some block has an unknown header or a data block has a slot of unknown tag. |
| Classifier.ReadBlocksFailsIffShort | dflash_to_eee.py:123-160 | Classification fails exactly when some block's header, or a data block's slots, lie past the end of the dump, and the error is "Input file too short". |
| Classifier.ReadBlocksErrFrom | dflash_to_eee.py:126-128 | Once a read fails, the whole classification fails: no partial result. |
| Classifier.ClassifyLength | dflash_to_eee.py:123-128 | A full 128 x 256-byte dump always classifies. A dump that ends before the last block's header never does. |
| Classifier.ReadBlocksSizes | dflash_to_eee.py:129-160 | Exactly one kind and one command list are produced per block. |
| Classifier.ReadBlocksAt | dflash_to_eee.py:123-160 | Entry i of the kinds and command lists is block i's classification. The dump is corrupt exactly when some block is. |
| Classifier.NoCommands | dflash_to_eee.py:122 | The reset command table has one empty list per block. |
| Converter.DFlashConverter.constructor | dflash_to_eee.py:105-112 | A new converter has no kinds, no commands, no end block and no corruption. |
| Converter.DFlashConverter.ReadFile | dflash_to_eee.py:116-160 | Succeeds exactly when the dump classifies. It then appends the 128 kinds to `blockTypes`, which is not reset, so it grows by exactly 128. It replaces `blockData` with the 128 decoded command lists and `corrupt` with the classification's flag. |
| Converter.DFlashConverter.ReadBlockAt | dflash_to_eee.py:124-160 | One round of the block loop extends the fields by exactly block `blockid`'s classification, or fails exactly when that block is short. |
| Converter.DFlashConverter.ReadSlots | dflash_to_eee.py:135-156 | The data-block branch fills in the block's commands, its LAST mark and the corrupt flag as the slot scan says, or fails exactly when the block is cut short. |
| Locator.FreePrefix | dflash_to_eee.py:171-174 | The first loop stops at the first block that is neither NEW nor EMPTY. |
| Locator.IndexOf | dflash_to_eee.py:201 | `list.index`: the position holds the value and no earlier position does. |
| Locator.IndexOfUnique | dflash_to_eee.py:201 | That position is the only one with this property. |
| Locator.RotateAt | dflash_to_eee.py:166-175 | Offset k of the kinds read from the first used block onwards, as the extended list is scanned, is block (p + k) mod 128. |
| Locator.ModWrap | dflash_to_eee.py:194 | Python's `% 128` on the positions computed, with -1 mapped to 127. |
| Locator.NewRunEnd | dflash_to_eee.py:162-194 | Heuristic 1 raises "All blocks seem to be new blocks" exactly when every block is EMPTY or NEW. A block it returns is in 0..127. |
| Locator.SplitSnoc | dflash_to_eee.py:178-189 | Scanning one more block completes a second NEW group exactly when it is NEW after a NEW block and then a used block. |
| Locator.UsedAfterNewSnoc | dflash_to_eee.py:186-187 | `ended` becomes true exactly when a used block follows the first NEW block. |
| Locator.SplitExtend | dflash_to_eee.py:183-185 | A second NEW group found part-way stays found in the whole scan. |
| Locator.SplitIffTwoGroups | dflash_to_eee.py:178-189 | From a used block, the scan finds a second group exactly when the NEW blocks form two groups on the circle. |
| Locator.NewRunEndNone | dflash_to_eee.py:162-194 | When some block is used, heuristic 1 returns None exactly when there is no NEW block or the NEW blocks form two groups. |
| Locator.NewRunEndFound | dflash_to_eee.py:190-194 | A returned e is in 0..127. Block (e+1) mod 128 is NEW and block e is not. Every NEW block is reached from e+1 across EMPTY/NEW blocks only. |
| Locator.FirstNewGroupFrom | dflash_to_eee.py:178-194 | Without a second group, every NEW block lies in the one group that starts at the first NEW block. |
| Converter.ScanStep | dflash_to_eee.py:178-189 | One round of the scan keeps track of the first NEW block, of `ended` and of no second group, or has found a second group. |
| Converter.ScanDone | dflash_to_eee.py:190-194 | After the scan, `newblock` is the first NEW block of the rotated kinds, or None when there is none or there are two groups. |
| Converter.DFlashConverter.FirstNewGroup | dflash_to_eee.py:178-194 | The scan loop returns the first NEW block after the used prefix, or None on no NEW block or a second group. |
| Converter.DFlashConverter.FindNewBlocks | dflash_to_eee.py:162-194 | The loops compute heuristic 1 exactly, including the raise. |
| Locator.CountZero | dflash_to_eee.py:200-203 | `count` is zero exactly when the value does not occur. |
| Locator.CountOne | dflash_to_eee.py:200-201 | With the value at i, `count` is one exactly when i is its only position. |
| Locator.LastBlockUnique | dflash_to_eee.py:196-206 | Heuristic 2 returns an index exactly when exactly one block is LAST, and then it is that block. |
| Locator.RunEndingAt | dflash_to_eee.py:218-222 | The counter `now` never exceeds the number of blocks scanned. |
| Locator.RunFacts | dflash_to_eee.py:218-222 | The run counted at i consists of EMPTY/NEW blocks and is preceded by a used block. |
| Locator.RunAtLeast | dflash_to_eee.py:218-222 | m free blocks ending at i make the counter at least m. |
| Locator.FirstLongestRunUnique | dflash_to_eee.py:224-226 | With the strict `>`, only one position ends the first longest run. |
| Locator.LongestEmptyUnique | dflash_to_eee.py:208-231 | Heuristic 3's result is determined by the kinds. |
| Locator.RunsUnique | dflash_to_eee.py:224-231 | Two results read off the first longest run are the same block. |
| Locator.BoundaryInside | dflash_to_eee.py:231 | A longest run that starts inside the doubled list is preceded by a used block, followed round the circle by a free one. |
| Locator.BoundaryWrapped | dflash_to_eee.py:231 | A first longest run that reaches back to position 0 makes block 127 used and block 0 free. |
| Locator.LongestEmptyBoundary | dflash_to_eee.py:208-231 | When some blocks are free and some used, heuristic 3 returns a used block in 0..127 whose successor mod 128 is EMPTY or NEW. |
| Converter.DFlashConverter.FindLongestEmpty | dflash_to_eee.py:208-231 | The counting loop returns a block in 0..127: 127 when no block is free, otherwise the block before the first longest free run of the doubled list. |
| Locator.EndBlockInRange | dflash_to_eee.py:329-352 | Whatever heuristic the policy uses, the end block is in 0..127. |
| Locator.EndBlockUniqueLast | dflash_to_eee.py:333-339 | With one LAST block and no NEW block, the end block is the LAST block. |
| Locator.EndBlockTwoGroups | dflash_to_eee.py:333-337 | With two NEW groups and no unique LAST block, the policy falls back to heuristic 3. |
| Locator.EndBlockScenario | dflash_to_eee.py:329-352 | Blocks 0-124 full, 125 LAST, 126-127 NEW: heuristic 1 gives 125 and the end block is 125. |
| Converter.DFlashConverter.FindEndBlock | dflash_to_eee.py:329-352 | Fails exactly when heuristic 1 raises. Otherwise it sets `endblock` to the policy's choice, in 0..127: heuristic 1 whenever it finds a block, else the unique LAST block, else heuristic 3. |
| Replay.VisitOrder | dflash_to_eee.py:238-241 | The visiting order has 128 entries, all block indices. |
| Replay.VisitOrderFacts | dflash_to_eee.py:238-241 | Entry k is block (endblock + 1 + k) mod 128. Every block is visited exactly once, and the end block last. |
| Replay.LastWriteSnoc | dflash_to_eee.py:242-243 | Applying one more command changes only the word it addresses. |
| Replay.LastWriteSpec | dflash_to_eee.py:240-243 | A word is untouched exactly when no command addresses it. Otherwise it holds the value of the last command for it. |
| Replay.LastWriteAppend | dflash_to_eee.py:241-243 | Commands replayed later override earlier ones for the addresses they write. |
| Replay.ReplayIdempotent | dflash_to_eee.py:241-243 | Replaying the log twice gives the same image as replaying it once. |
| Replay.LogNoWriter | dflash_to_eee.py:240-243 | A word no visited block writes stays 0xFFFF. |
| Replay.LogLastWriter | dflash_to_eee.py:241-243 | A word takes the value the latest visited block writing it gives it, whatever earlier blocks wrote. |
| Replay.SingleBlockImage | dflash_to_eee.py:238-243 | One data block writing 0x1234 to word 0 and 0xABCD to word 5: those two words are set and every other word stays 0xFFFF. |
| Converter.DFlashConverter.SaveFile | dflash_to_eee.py:238-250 | `data` becomes a new 2048-word image whose word a is the last value written to a in the visiting order, or 0xFFFF. The output bytes are that image big-endian. |
| Converter.DFlashConverter.ApplyCommands | dflash_to_eee.py:242-243 | Applying one block's commands moves the image from the log so far to the log extended by that block. |
| Replay.Serialize | dflash_to_eee.py:246-248 | The output file has two bytes per word. |
| Replay.SerializeAt | dflash_to_eee.py:246-248 | Byte i of the output is the high byte of word i/2 for even i and its low byte for odd i. |
| Replay.SerializeRoundTrip | dflash_to_eee.py:246-248 | Reading the output back as big-endian words gives the image. |
| Converter.DFlashConverter.WriteWords | dflash_to_eee.py:246-248 | The output loop produces exactly the big-endian serialisation of the image. |
| Converter.DFlashConverter.GetByteMatchesOutput | dflash_to_eee.py:252-258 | `_get_byte(addr)` is byte addr of the output file: even addresses give the high byte, odd the low byte. |
| Converter.DFlashConverter.GetByteWord | dflash_to_eee.py:252-258 | `(_get_byte(2k) << 8) + _get_byte(2k+1)` is word k of the image. |

## Left out

- File I/O: the dump is a byte sequence and the output file is its byte sequence, returned by `SaveFile`. `open`, `seek` and `read` are not modelled. A short `read` is the condition "fewer than 4 bytes remain at the position read".
- Logging calls only report and are not modelled. This includes the consistency check between heuristics 1 and 2 in `_find_endblock` (dflash_to_eee.py:341-350), whose only effect is a warning.
- `_get_info`, `convert`, `main`, gui.py and the web server scripts are not part of this model. They are display, command-line and HTTP glue around the converter.
- Converter.DFlashConverter.ReadFile: the state left behind after "Input file too short" is not specified. The original leaves partially filled fields, and no caller uses them.
- Converter.DFlashConverter.FindNewBlocks: requires exactly 128 kinds. After a second `_read_file` on the same object, `block_types` holds 256 entries (ReadFile states the append), and the heuristics of the original then scan the longer list; that case is not modelled.
- Converter.DFlashConverter.FindLongestEmpty and Converter.DFlashConverter.FindEndBlock: require exactly 128 kinds, for the same reason.
- Converter.DFlashConverter.SaveFile: requires that an end block was found, as `convert` guarantees. Calling it with `endblock` still None would raise a `TypeError` in the original.
- Converter.DFlashConverter.GetByteMatchesOutput: `_get_byte` is only modelled for addresses inside the image. Python's IndexError for larger addresses and its negative indexing are not.
- `corrupt` starts as `false` where the original starts with `None`. Both are falsy, and `_read_file` sets it before any use.
- `data` starts as an empty array where the original has no attribute until `_save_file` runs.
