/** The block classifier: reads the 128 block headers of a D-Flash dump, gives
    each block its kind and decodes the command slots of the data blocks. */
module Classifier {
  import opened Layout

  /** What the 63 command slots of a data block hold, as far as they were scanned. */
  datatype Scan = Scan(cmds: seq<Command>, sawEmpty: bool, sawUnknown: bool)

  /** One classified block. */
  datatype Block = Block(kind: Kind, cmds: seq<Command>, corrupt: bool)

  /** The classification of a whole dump. */
  datatype Dump = Dump(kinds: seq<Kind>, cmds: seq<seq<Command>>, corrupt: bool)

  function BlockBase(i: nat): nat
  {
    i * BLOCKSIZE
  }

  /** First header field of block `i`. */
  function H0(dump: seq<byte>, i: nat): word
    requires BlockBase(i) + HEADERSIZE <= |dump|
  {
    Word(dump[BlockBase(i)], dump[BlockBase(i) + 1])
  }

  /** Second header field of block `i`. */
  function H1(dump: seq<byte>, i: nat): word
    requires BlockBase(i) + HEADERSIZE <= |dump|
  {
    Word(dump[BlockBase(i) + 2], dump[BlockBase(i) + 3])
  }

  /** Tagged-address field of the slot that starts at `pos`. */
  function SlotField(dump: seq<byte>, pos: nat): word
    requires pos + CMDSIZE <= |dump|
  {
    Word(dump[pos], dump[pos + 1])
  }

  /** Value field of the slot that starts at `pos`. */
  function SlotValue(dump: seq<byte>, pos: nat): word
    requires pos + CMDSIZE <= |dump|
  {
    Word(dump[pos + 2], dump[pos + 3])
  }

  /** Scans the first `n` command slots starting at byte `start`, in file order:
      a CMD_VALID slot records its command, a CMD_EMPTY slot marks the block as
      the one being written, any other tag is unknown. */
  function ScanSlots(dump: seq<byte>, start: nat, n: nat): (s: Scan)
    requires start + n * CMDSIZE <= |dump|
    ensures |s.cmds| <= n
  {
    if n == 0 then Scan([], false, false)
    else
      var prev := ScanSlots(dump, start, n - 1);
      var pos := start + (n - 1) * CMDSIZE;
      var field := SlotField(dump, pos);
      if Tag(field) == CMD_VALID then
        prev.(cmds := prev.cmds + [Command(AddressBits(field), SlotValue(dump, pos))])
      else if Tag(field) == CMD_EMPTY then
        prev.(sawEmpty := true)
      else
        prev.(sawUnknown := true)
  }

  /** Classifies block `i`. Reading its header, or any of its slots when it is
      a data block, past the end of the dump is the "Input file too short" error. */
  function ReadBlock(dump: seq<byte>, i: nat): Result<Block>
  {
    if |dump| < BlockBase(i) + HEADERSIZE then Err(TooShort)
    else if H0(dump, i) == BLOCK_EMPTY then
      Ok(Block(if H1(dump, i) == BLOCK_EMPTY_CLEARED then Empty else New, [], false))
    else if H0(dump, i) == BLOCK_VALID then
      if |dump| < BlockBase(i) + BLOCKSIZE then Err(TooShort)
      else
        var s := ScanSlots(dump, BlockBase(i) + HEADERSIZE, CMDS_PER_BLOCK);
        Ok(Block(if s.sawEmpty then Last else Valid, s.cmds, s.sawUnknown))
    else
      Ok(Block(Invalid, [], true))
  }

  /** Classifies blocks 0 .. n-1 in order; the first failing read aborts. */
  function ReadBlocks(dump: seq<byte>, n: nat): Result<Dump>
  {
    if n == 0 then Ok(Dump([], [], false))
    else
      match ReadBlocks(dump, n - 1)
      case Err(e) => Err(e)
      case Ok(d) =>
        match ReadBlock(dump, n - 1)
        case Err(e) => Err(e)
        case Ok(b) => Ok(Dump(d.kinds + [b.kind], d.cmds + [b.cmds], d.corrupt || b.corrupt))
  }

  /** The classification of the whole dump. */
  function Classify(dump: seq<byte>): Result<Dump>
  {
    ReadBlocks(dump, NB_BLOCKS)
  }

  /** Block `i` needs bytes the dump does not have. */
  predicate ShortBlock(dump: seq<byte>, i: nat)
  {
    |dump| < BlockBase(i) + HEADERSIZE
    || (H0(dump, i) == BLOCK_VALID && |dump| < BlockBase(i) + BLOCKSIZE)
  }

  /** Slot `j` of the block at `base` carries tag `tag`. */
  predicate SlotTagged(dump: seq<byte>, base: nat, j: nat, tag: int)
    requires base + HEADERSIZE + (j + 1) * CMDSIZE <= |dump|
  {
    Tag(SlotField(dump, base + HEADERSIZE + j * CMDSIZE)) == tag
  }

  /** The command recorded by slot `j` of the block at `base`. */
  function SlotCommand(dump: seq<byte>, base: nat, j: nat): Command
    requires base + HEADERSIZE + (j + 1) * CMDSIZE <= |dump|
  {
    var pos := base + HEADERSIZE + j * CMDSIZE;
    Command(AddressBits(SlotField(dump, pos)), SlotValue(dump, pos))
  }

  /** `cmds` lists the commands of the CMD_VALID slots among the first `n`
      slots of the block at `base`, each such slot once and in slot order;
      entry k comes from slot `idx[k]`. */
  predicate SlotsListed(dump: seq<byte>, base: nat, n: nat, idx: seq<nat>, cmds: seq<Command>)
    requires base + HEADERSIZE + n * CMDSIZE <= |dump|
  {
    FromValidSlots(dump, base, n, idx, cmds) && Increasing(idx) && CoversValid(dump, base, n, idx)
  }

  /** Entry k of `cmds` is the command of slot `idx[k]`, a CMD_VALID slot below `n`. */
  predicate FromValidSlots(dump: seq<byte>, base: nat, n: nat, idx: seq<nat>, cmds: seq<Command>)
    requires base + HEADERSIZE + n * CMDSIZE <= |dump|
  {
    |idx| == |cmds|
    && forall k :: 0 <= k < |idx| ==>
         idx[k] < n && SlotTagged(dump, base, idx[k], CMD_VALID) && cmds[k] == SlotCommand(dump, base, idx[k])
  }

  predicate Increasing(idx: seq<nat>)
  {
    forall k, l :: 0 <= k < l < |idx| ==> idx[k] < idx[l]
  }

  /** Every CMD_VALID slot below `n` is listed in `idx`. */
  predicate CoversValid(dump: seq<byte>, base: nat, n: nat, idx: seq<nat>)
    requires base + HEADERSIZE + n * CMDSIZE <= |dump|
  {
    forall j :: 0 <= j < n && SlotTagged(dump, base, j, CMD_VALID) ==> j in idx
  }

  /** The CMD_VALID slots among the first `n` slots of the block at `base`,
      in slot order. */
  function ValidSlots(dump: seq<byte>, base: nat, n: nat): (idx: seq<nat>)
    requires base + HEADERSIZE + n * CMDSIZE <= |dump|
    ensures forall k :: 0 <= k < |idx| ==> idx[k] < n
  {
    if n == 0 then []
    else if SlotTagged(dump, base, n - 1, CMD_VALID) then ValidSlots(dump, base, n - 1) + [n - 1]
    else ValidSlots(dump, base, n - 1)
  }

  /** `ValidSlots` lists the CMD_VALID slots in increasing order and misses none. */
  lemma {:induction false} ValidSlotsOrdered(dump: seq<byte>, base: nat, n: nat)
    requires base + HEADERSIZE + n * CMDSIZE <= |dump|
    ensures Increasing(ValidSlots(dump, base, n)) && CoversValid(dump, base, n, ValidSlots(dump, base, n))
  {
    if n > 0 {
      ValidSlotsOrdered(dump, base, n - 1);
    }
  }

  /** The commands a scan records are those of `ValidSlots`, entry by entry. */
  lemma {:induction false} ScanSlotsFrom(dump: seq<byte>, base: nat, n: nat)
    requires base + HEADERSIZE + n * CMDSIZE <= |dump|
    ensures FromValidSlots(dump, base, n, ValidSlots(dump, base, n), ScanSlots(dump, base + HEADERSIZE, n).cmds)
  {
    if n > 0 {
      ScanSlotsFrom(dump, base, n - 1);
    }
  }

  /** The empty mark of a scan is set exactly when some slot is CMD_EMPTY,
      and the unknown mark exactly when some slot has another tag. */
  lemma {:induction false} ScanSlotsMarks(dump: seq<byte>, base: nat, n: nat)
    requires base + HEADERSIZE + n * CMDSIZE <= |dump|
    ensures var s := ScanSlots(dump, base + HEADERSIZE, n);
      (s.sawEmpty <==> (exists j :: 0 <= j < n && SlotTagged(dump, base, j, CMD_EMPTY)))
      && (s.sawUnknown <==>
            (exists j :: 0 <= j < n
               && !SlotTagged(dump, base, j, CMD_VALID) && !SlotTagged(dump, base, j, CMD_EMPTY)))
  {
    if n > 0 {
      ScanSlotsMarks(dump, base, n - 1);
      var last := n - 1;
      var field := SlotField(dump, base + HEADERSIZE + last * CMDSIZE);
      assert SlotTagged(dump, base, last, CMD_VALID) <==> Tag(field) == CMD_VALID;
      assert SlotTagged(dump, base, last, CMD_EMPTY) <==> Tag(field) == CMD_EMPTY;
    }
  }

  /** What a scan of `n` slots reports, slot by slot: the recorded commands
      are those of the CMD_VALID slots, one per slot and in slot order; the
      empty mark is set exactly when some slot is CMD_EMPTY, and the unknown
      mark exactly when some slot has another tag. */
  lemma ScanSlotsFacts(dump: seq<byte>, base: nat, n: nat)
    requires base + HEADERSIZE + n * CMDSIZE <= |dump|
    ensures var s := ScanSlots(dump, base + HEADERSIZE, n);
      (exists idx: seq<nat> :: SlotsListed(dump, base, n, idx, s.cmds))
      && (s.sawEmpty <==> (exists j :: 0 <= j < n && SlotTagged(dump, base, j, CMD_EMPTY)))
      && (s.sawUnknown <==>
            (exists j :: 0 <= j < n
               && !SlotTagged(dump, base, j, CMD_VALID) && !SlotTagged(dump, base, j, CMD_EMPTY)))
  {
    ScanSlotsMarks(dump, base, n);
    ValidSlotsOrdered(dump, base, n);
    ScanSlotsFrom(dump, base, n);
    assert SlotsListed(dump, base, n, ValidSlots(dump, base, n), ScanSlots(dump, base + HEADERSIZE, n).cmds);
  }

  /** Classification succeeds exactly when no block needs bytes past the end
      of the dump. */
  lemma {:induction false} ReadBlocksFailsIffShort(dump: seq<byte>, n: nat)
    ensures ReadBlocks(dump, n).Err? <==> exists i :: 0 <= i < n && ShortBlock(dump, i)
    ensures ReadBlocks(dump, n).Err? ==> ReadBlocks(dump, n).error == TooShort
  {
    if n > 0 {
      ReadBlocksFailsIffShort(dump, n - 1);
      assert ReadBlock(dump, n - 1).Err? <==> ShortBlock(dump, n - 1);
    }
  }

  /** Once a read fails, classifying more blocks still fails. */
  lemma {:induction false} ReadBlocksErrFrom(dump: seq<byte>, n: nat, m: nat)
    requires ReadBlocks(dump, n).Err? && n <= m
    ensures ReadBlocks(dump, m).Err?
  {
    if n < m {
      ReadBlocksErrFrom(dump, n, m - 1);
    }
  }

  /** An empty command list for each of `n` blocks. */
  function NoCommands(n: nat): (s: seq<seq<Command>>)
    ensures |s| == n && forall i :: 0 <= i < n ==> s[i] == []
  {
    seq(n, _ => [])
  }

  /** A dump of the full 128 x 256 bytes always classifies; one that ends
      before the header of the last block never does. */
  lemma ClassifyLength(dump: seq<byte>)
    ensures |dump| >= NB_BLOCKS * BLOCKSIZE ==> Classify(dump).Ok?
    ensures |dump| < (NB_BLOCKS - 1) * BLOCKSIZE + HEADERSIZE ==> Classify(dump) == Err(TooShort)
  {
    ReadBlocksFailsIffShort(dump, NB_BLOCKS);
    if |dump| < (NB_BLOCKS - 1) * BLOCKSIZE + HEADERSIZE {
      assert ShortBlock(dump, NB_BLOCKS - 1);
    }
  }

  /** The classification of the first n blocks lists one kind and one
      command list per block. */
  lemma {:induction false} ReadBlocksSizes(dump: seq<byte>, n: nat)
    requires ReadBlocks(dump, n).Ok?
    ensures |ReadBlocks(dump, n).value.kinds| == n && |ReadBlocks(dump, n).value.cmds| == n
  {
    if n > 0 {
      ReadBlocksSizes(dump, n - 1);
    }
  }

  /** The classification of the first n blocks lists one kind and one command
      list per block, each the one `ReadBlock` gives that block, and is
      corrupt exactly when one of the blocks is. */
  lemma {:induction false} ReadBlocksAt(dump: seq<byte>, n: nat)
    requires ReadBlocks(dump, n).Ok?
    ensures var d := ReadBlocks(dump, n).value;
      |d.kinds| == n && |d.cmds| == n
      && (forall i :: 0 <= i < n ==>
            (ReadBlock(dump, i).Ok?
             && d.kinds[i] == ReadBlock(dump, i).value.kind
             && d.cmds[i] == ReadBlock(dump, i).value.cmds))
      && (d.corrupt <==> exists i :: 0 <= i < n && ReadBlock(dump, i).value.corrupt)
  {
    if n > 0 {
      ReadBlocksAt(dump, n - 1);
    }
  }

  /** The header and slot rules for one block that was read: an all-erased
      header is EMPTY, an erased first field with a stamped second field is
      NEW, a 0xFACF header is VALID, or LAST when some slot is erased; any
      other header is INVALID. Only data blocks carry commands, namely those
      of their CMD_VALID slots in slot order. A block is corrupt exactly when
      it is INVALID or is a data block with a slot of unknown tag. */
  lemma ReadBlockFacts(dump: seq<byte>, i: nat)
    requires ReadBlock(dump, i).Ok?
    ensures BlockBase(i) + HEADERSIZE <= |dump|
    ensures var b := ReadBlock(dump, i).value;
      var base := BlockBase(i);
      (b.kind == Empty <==> H0(dump, i) == BLOCK_EMPTY && H1(dump, i) == BLOCK_EMPTY_CLEARED)
      && (b.kind == New <==> H0(dump, i) == BLOCK_EMPTY && H1(dump, i) != BLOCK_EMPTY_CLEARED)
      && ((b.kind == Valid || b.kind == Last) <==> H0(dump, i) == BLOCK_VALID)
      && (b.kind == Invalid <==> H0(dump, i) != BLOCK_EMPTY && H0(dump, i) != BLOCK_VALID)
      && (b.kind != Valid && b.kind != Last ==> b.cmds == [])
      && (b.kind != Valid && b.kind != Last ==> (b.corrupt <==> b.kind == Invalid))
      && (H0(dump, i) == BLOCK_VALID ==>
            base + BLOCKSIZE <= |dump|
            && (b.kind == Last <==>
                  exists j :: 0 <= j < CMDS_PER_BLOCK && SlotTagged(dump, base, j, CMD_EMPTY))
            && (b.corrupt <==> UnknownSlot(dump, base))
            && (exists idx: seq<nat> :: SlotsListed(dump, base, CMDS_PER_BLOCK, idx, b.cmds)))
  {
    if H0(dump, i) == BLOCK_VALID {
      ScanSlotsFacts(dump, BlockBase(i), CMDS_PER_BLOCK);
    }
  }

  /** Some slot of the data block at `base` has a tag that is neither
      CMD_VALID nor CMD_EMPTY. */
  predicate UnknownSlot(dump: seq<byte>, base: nat)
    requires base + BLOCKSIZE <= |dump|
  {
    exists j :: 0 <= j < CMDS_PER_BLOCK
      && !SlotTagged(dump, base, j, CMD_VALID) && !SlotTagged(dump, base, j, CMD_EMPTY)
  }

  /** Block `i` makes the dump corrupt: its header is unknown, or it is a data
      block with a slot of unknown tag. */
  predicate CorruptBlock(dump: seq<byte>, i: nat)
    requires BlockBase(i) + HEADERSIZE <= |dump|
  {
    (H0(dump, i) != BLOCK_EMPTY && H0(dump, i) != BLOCK_VALID)
    || (H0(dump, i) == BLOCK_VALID && BlockBase(i) + BLOCKSIZE <= |dump|
        && UnknownSlot(dump, BlockBase(i)))
  }

  /** A classified dump is corrupt exactly when some block has an unknown
      header or a data block has a slot of unknown tag; in particular a dump
      of EMPTY, NEW and well-formed data blocks comes out clean. */
  lemma ClassifyCorrupt(dump: seq<byte>)
    requires Classify(dump).Ok?
    ensures |dump| >= (NB_BLOCKS - 1) * BLOCKSIZE + HEADERSIZE
    ensures Classify(dump).value.corrupt <==> exists i :: 0 <= i < NB_BLOCKS && CorruptBlock(dump, i)
  {
    ClassifyLength(dump);
    ReadBlocksAt(dump, NB_BLOCKS);
    forall i | 0 <= i < NB_BLOCKS
      ensures ReadBlock(dump, i).value.corrupt <==> CorruptBlock(dump, i)
    {
      ReadBlockFacts(dump, i);
    }
  }
}
