/** The converter object: it classifies a D-Flash dump into its fields,
    locates the end block, replays the command log into the EEPROM image and
    gives byte access to that image. Each method proves that it computes what
    the specification functions of the classifier, locator and replay modules
    describe. */
module Converter {
  import opened Layout
  import opened Classifier
  import opened Locator
  import opened Replay

  /** What the scanning loop of `_find_new_blocks` knows after looking at
      `types[start..cb]`: `newblock` is the first NEW block seen, if any,
      `ended` says whether a used block followed it, and no split was seen. */
  ghost predicate ScanState(types: seq<Kind>, start: nat, cb: nat, newblock: Option<nat>, ended: bool)
    requires start <= cb <= |types|
  {
    (newblock.None? <==> New !in types[start..cb])
    && (newblock.Some? ==> (start <= newblock.value < cb
          && types[newblock.value] == New && New !in types[start..newblock.value]))
    && (ended <==> UsedAfterNew(types[start..cb]))
    && !Split(types[start..cb])
  }

  /** One round of the scanning loop keeps `ScanState`, except that a NEW
      block after a used one completes a split. */
  lemma ScanStep(types: seq<Kind>, start: nat, cb: nat, newblock: Option<nat>, ended: bool)
    requires start <= cb < |types| && ScanState(types, start, cb, newblock, ended)
    ensures var x := types[cb];
      if x == New && newblock.Some? && ended then Split(types[start..])
      else ScanState(types, start, cb + 1,
                     if x == New && newblock.None? then Some(cb) else newblock,
                     ended || (x != New && x != Empty && newblock.Some?))
  {
    var seen := types[start..cb];
    var x := types[cb];
    assert types[start..cb + 1] == seen + [x];
    SplitSnoc(seen, x);
    UsedAfterNewSnoc(seen, x);
    if x == New && newblock.Some? && ended {
      assert types[start..][..cb + 1 - start] == seen + [x];
      SplitExtend(types[start..], cb + 1 - start);
    }
  }

  /** When the scanning loop has seen every block without finding a split,
      it holds the first NEW block, if any. */
  lemma ScanDone(types: seq<Kind>, start: nat, newblock: Option<nat>, ended: bool)
    requires start <= |types| && ScanState(types, start, |types|, newblock, ended)
    ensures var rest := types[start..];
      newblock == if New !in rest || Split(rest) then None else Some(start + IndexOf(rest, New))
  {
    var rest := types[start..];
    assert types[start..|types|] == rest;
    if newblock.Some? {
      var i := newblock.value - start;
      forall j | 0 <= j < i
        ensures rest[j] != New
      {
        assert rest[j] == types[start..newblock.value][j];
      }
      IndexOfUnique(rest, New, i);
    }
  }

  class DFlashConverter {
    var blockTypes: seq<Kind>
    var blockData: seq<seq<Command>>
    var endblock: Option<nat>
    var corrupt: bool
    var data: array<word>

    constructor ()
      ensures blockTypes == [] && blockData == [] && endblock == None && !corrupt
      ensures data.Length == 0
    {
      blockTypes := [];
      blockData := [];
      endblock := None;
      corrupt := false;
      data := new word[0];
    }

    /** `_read_file`: classifies every block of `dump` and decodes the slots of
        the data blocks. Fails with "Input file too short" when a header or
        slot read runs past the end of the dump. The kinds are appended to
        `blockTypes`, which this method does not reset, while `blockData` and
        `corrupt` start afresh. */
    method ReadFile(dump: seq<byte>) returns (ok: bool)
      modifies this
      ensures ok <==> Classify(dump).Ok?
      ensures ok ==> (blockTypes == old(blockTypes) + Classify(dump).value.kinds
                      && blockData == Classify(dump).value.cmds
                      && corrupt == Classify(dump).value.corrupt)
      ensures ok ==> |blockTypes| == |old(blockTypes)| + NB_BLOCKS && |blockData| == NB_BLOCKS
      ensures endblock == old(endblock) && data == old(data)
    {
      ghost var types0 := blockTypes;
      corrupt := false;
      blockData := NoCommands(NB_BLOCKS);
      var blockid := 0;
      while blockid < NB_BLOCKS
        invariant 0 <= blockid <= NB_BLOCKS
        invariant ReadBlocks(dump, blockid).Ok?
        invariant blockTypes == types0 + ReadBlocks(dump, blockid).value.kinds
        invariant blockData == ReadBlocks(dump, blockid).value.cmds + NoCommands(NB_BLOCKS - blockid)
        invariant corrupt == ReadBlocks(dump, blockid).value.corrupt
        invariant endblock == old(endblock) && data == old(data)
      {
        ok := ReadBlockAt(dump, blockid, types0);
        if !ok {
          ReadBlocksErrFrom(dump, blockid + 1, NB_BLOCKS);
          return false;
        }
        blockid := blockid + 1;
      }
      ReadBlocksSizes(dump, NB_BLOCKS);
      return true;
    }

    /** One round of `_read_file`'s loop: reads the header of block `blockid`
        and appends the block's kind; a data block also has its command slots
        read. */
    method ReadBlockAt(dump: seq<byte>, blockid: nat, ghost types0: seq<Kind>) returns (ok: bool)
      requires blockid < NB_BLOCKS && ReadBlocks(dump, blockid).Ok?
      requires blockTypes == types0 + ReadBlocks(dump, blockid).value.kinds
      requires blockData == ReadBlocks(dump, blockid).value.cmds + NoCommands(NB_BLOCKS - blockid)
      requires corrupt == ReadBlocks(dump, blockid).value.corrupt
      modifies this`blockTypes, this`blockData, this`corrupt
      ensures ok <==> ReadBlocks(dump, blockid + 1).Ok?
      ensures ok ==> (blockTypes == types0 + ReadBlocks(dump, blockid + 1).value.kinds
                      && blockData == ReadBlocks(dump, blockid + 1).value.cmds + NoCommands(NB_BLOCKS - blockid - 1)
                      && corrupt == ReadBlocks(dump, blockid + 1).value.corrupt)
    {
      ghost var before := ReadBlocks(dump, blockid).value;
      ReadBlocksSizes(dump, blockid);
      var base := blockid * BLOCKSIZE;
      if |dump| < base + HEADERSIZE {
        return false;
      }
      var h0 := Word(dump[base], dump[base + 1]);
      var h1 := Word(dump[base + 2], dump[base + 3]);
      ghost var rest := NoCommands(NB_BLOCKS - blockid - 1);
      assert NoCommands(NB_BLOCKS - blockid) == [[]] + rest;
      ghost var blk: Block;
      if h0 == BLOCK_EMPTY {
        if h1 == BLOCK_EMPTY_CLEARED {
          blockTypes := blockTypes + [Empty];
          blk := Block(Empty, [], false);
        } else {
          blockTypes := blockTypes + [New];
          blk := Block(New, [], false);
        }
      } else if h0 == BLOCK_VALID {
        ok := ReadSlots(dump, blockid, types0 + before.kinds, before.cmds, rest);
        if !ok {
          return false;
        }
        ghost var s := ScanSlots(dump, BlockBase(blockid) + HEADERSIZE, CMDS_PER_BLOCK);
        blk := Block(if s.sawEmpty then Last else Valid, s.cmds, s.sawUnknown);
      } else {
        corrupt := true;
        blockTypes := blockTypes + [Invalid];
        blk := Block(Invalid, [], true);
      }
      assert ReadBlock(dump, blockid) == Ok(blk);
      assert blockTypes == types0 + (before.kinds + [blk.kind]);
      assert blockData == (before.cmds + [blk.cmds]) + rest;
      return true;
    }

    /** The data-block branch of `_read_file`: marks block `blockid` VALID and
        reads its 63 command slots in file order. A CMD_VALID slot adds its
        command to the block's list, a CMD_EMPTY slot turns the block into the
        LAST one, any other tag marks the dump corrupt. Fails when a slot read
        runs past the end of the dump. */
    method ReadSlots(dump: seq<byte>, blockid: nat, ghost kinds0: seq<Kind>,
                     ghost cmds0: seq<seq<Command>>, ghost rest: seq<seq<Command>>) returns (ok: bool)
      requires BlockBase(blockid) + HEADERSIZE <= |dump| && |cmds0| == blockid
      requires blockTypes == kinds0
      requires blockData == cmds0 + [[]] + rest
      modifies this`blockTypes, this`blockData, this`corrupt
      ensures ok <==> BlockBase(blockid) + BLOCKSIZE <= |dump|
      ensures ok ==> (var s := ScanSlots(dump, BlockBase(blockid) + HEADERSIZE, CMDS_PER_BLOCK);
                      blockTypes == kinds0 + [if s.sawEmpty then Last else Valid]
                      && blockData == cmds0 + [s.cmds] + rest
                      && corrupt == (old(corrupt) || s.sawUnknown))
    {
      var base := blockid * BLOCKSIZE;
      blockTypes := blockTypes + [Valid];
      var blockitem := 0;
      var pos := base + HEADERSIZE;  // the file position
      ghost var scan := Scan([], false, false);
      while blockitem < CMDS_PER_BLOCK
        invariant 0 <= blockitem <= CMDS_PER_BLOCK
        invariant pos == base + HEADERSIZE + blockitem * CMDSIZE && pos <= |dump|
        invariant scan == ScanSlots(dump, base + HEADERSIZE, blockitem)
        invariant blockTypes == kinds0 + [if scan.sawEmpty then Last else Valid]
        invariant blockData == cmds0 + [scan.cmds] + rest
        invariant corrupt == (old(corrupt) || scan.sawUnknown)
      {
        if |dump| < pos + CMDSIZE {
          return false;
        }
        var field := Word(dump[pos], dump[pos + 1]);
        var value := Word(dump[pos + 2], dump[pos + 3]);
        var cmd := Tag(field);
        var addr := AddressBits(field);
        if cmd == CMD_VALID {
          blockData := blockData[blockid := blockData[blockid] + [Command(addr, value)]];
          scan := scan.(cmds := scan.cmds + [Command(addr, value)]);
        } else if cmd == CMD_EMPTY {
          blockTypes := blockTypes[|blockTypes| - 1 := Last];
          scan := scan.(sawEmpty := true);
        } else {
          corrupt := true;
          scan := scan.(sawUnknown := true);
        }
        blockitem := blockitem + 1;
        pos := pos + CMDSIZE;
      }
      return true;
    }

    /** `_find_new_blocks`: heuristic 1. Appends the leading free blocks to a
        copy of the kinds, then scans from the first used block for the first
        group of NEW blocks. */
    method FindNewBlocks() returns (r: Result<Option<nat>>)
      requires |blockTypes| == NB_BLOCKS
      ensures r == NewRunEnd(blockTypes)
    {
      var types := blockTypes;
      var currBlock := 0;
      while types[currBlock] == New || types[currBlock] == Empty
        invariant 0 <= currBlock <= NB_BLOCKS
        invariant types == blockTypes + blockTypes[..currBlock]
        invariant forall i :: 0 <= i < currBlock ==> Free(blockTypes[i])
        decreases NB_BLOCKS - currBlock
      {
        types := types + [types[currBlock]];
        currBlock := currBlock + 1;
        if currBlock > NB_BLOCKS {
          return Err(AllBlocksNew);
        }
      }
      assert currBlock == FreePrefix(blockTypes);
      assert types[currBlock..] == Rotate(blockTypes, currBlock);
      var newblock := FirstNewGroup(types, currBlock);
      if newblock.None? {
        return Ok(None);
      }
      return Ok(Some((newblock.value - 1) % NB_BLOCKS));
    }

    /** The scanning loop of `_find_new_blocks`: from `start` on, finds the
        first NEW block, and gives up when a second group of NEW blocks
        follows a used block after it. */
    static method FirstNewGroup(types: seq<Kind>, start: nat) returns (newblock: Option<nat>)
      requires start <= |types|
      ensures var rest := types[start..];
        newblock == if New !in rest || Split(rest) then None else Some(start + IndexOf(rest, New))
    {
      newblock := None;
      var ended := false;
      var currBlock := start;
      while currBlock < |types|
        invariant start <= currBlock <= |types|
        invariant ScanState(types, start, currBlock, newblock, ended)
      {
        ScanStep(types, start, currBlock, newblock, ended);
        if types[currBlock] == New {
          if newblock.None? {
            newblock := Some(currBlock);
          } else if ended {
            return None;
          }
        } else if types[currBlock] != Empty && newblock.Some? {
          ended := true;
        }
        currBlock := currBlock + 1;
      }
      ScanDone(types, start, newblock, ended);
    }

    /** `_find_longest_empty`: heuristic 3. Scans the kinds followed by
        themselves, counting the current run of free blocks and keeping the
        first longest one. */
    method FindLongestEmpty() returns (e: nat)
      requires |blockTypes| == NB_BLOCKS
      ensures e < NB_BLOCKS
      ensures LongestEmptyResult(blockTypes, e)
    {
      var now := 0;
      var longest := 0;
      var longestBlock: Option<nat> := None;
      var doubled := blockTypes + blockTypes;
      for blockid := 0 to |doubled|
        invariant now == if blockid == 0 then 0 else RunEndingAt(doubled, blockid - 1)
        invariant longestBlock.None? <==> longest == 0
        invariant longestBlock.None? ==> forall i :: 0 <= i < blockid ==> RunEndingAt(doubled, i) == 0
        invariant longestBlock.Some? ==> (longestBlock.value < blockid
          && longest == RunEndingAt(doubled, longestBlock.value)
          && (forall i :: 0 <= i < blockid ==> RunEndingAt(doubled, i) <= longest)
          && (forall i :: 0 <= i < longestBlock.value ==> RunEndingAt(doubled, i) < longest))
      {
        if doubled[blockid] == Empty || doubled[blockid] == New {
          now := now + 1;
        } else {
          now := 0;
        }
        if now > longest {
          longest := now;
          longestBlock := Some(blockid);
        }
      }
      if longestBlock.None? {
        forall i | 0 <= i < NB_BLOCKS
          ensures !Free(blockTypes[i])
        {
          assert doubled[i] == blockTypes[i];
          assert RunEndingAt(doubled, i) == 0;
        }
        return NB_BLOCKS - 1;
      }
      var lb := longestBlock.value;
      assert FirstLongestRun(doubled, lb);
      RunFacts(doubled, lb);
      assert Free(doubled[lb]);
      assert !AllHard(blockTypes) by {
        assert doubled[lb] == blockTypes[Wrap(lb)];
      }
      e := (lb - longest) % NB_BLOCKS;
      assert LongestRunBefore(blockTypes, lb, e);
    }

    /** `_find_endblock`: the combination policy. Heuristic 1 is trusted
        whenever it finds a block; the cross-check against heuristic 2 only
        produces a warning. Fails when heuristic 1 raises because every block
        is free. */
    method FindEndBlock() returns (ok: bool)
      requires |blockTypes| == NB_BLOCKS
      modifies this`endblock
      ensures ok <==> !AllFree(blockTypes)
      ensures ok ==> endblock.Some? && endblock.value < NB_BLOCKS && EndBlockChoice(blockTypes, endblock.value)
      ensures !ok ==> endblock == old(endblock)
    {
      var endblockNew := FindNewBlocks();
      if endblockNew.Err? {
        return false;
      }
      var endblockLast := LastBlock(blockTypes);
      LastBlockUnique(blockTypes);
      if endblockNew.value.None? {
        if endblockLast.None? {
          var e := FindLongestEmpty();
          endblock := Some(e);
        } else {
          endblock := Some(endblockLast.value);
        }
      } else {
        endblock := Some(endblockNew.value.value);
      }
      return true;
    }

    /** `_save_file`: replays the commands of every block, from the block after
        the end block round to the end block, onto an erased 2048-word image,
        keeps the image in `data` and returns the bytes of the output file. */
    method SaveFile() returns (out: seq<byte>)
      requires endblock.Some? && endblock.value < NB_BLOCKS && |blockData| == NB_BLOCKS
      modifies this`data
      ensures fresh(data) && data.Length == EESIZE
      ensures forall a :: 0 <= a < EESIZE ==> data[a] == ImageWord(Log(blockData, VisitOrder(endblock.value)), a)
      ensures out == Serialize(data[..])
    {
      var startblock := (endblock.value + 1) % NB_BLOCKS;
      var img := new word[EESIZE](_ => ERASED_WORD);
      var blocks := seq(NB_BLOCKS - startblock, i => startblock + i) + seq(startblock, i => i);
      assert blocks == VisitOrder(endblock.value);
      var k := 0;
      while k < |blocks|
        invariant 0 <= k <= |blocks|
        invariant forall a :: 0 <= a < EESIZE ==> img[a] == ImageWord(Log(blockData, blocks[..k]), a)
      {
        ApplyCommands(img, blockData[blocks[k]], Log(blockData, blocks[..k]));
        assert blocks[..k + 1][..k] == blocks[..k];
        k := k + 1;
      }
      assert blocks[..k] == blocks;
      data := img;
      out := WriteWords(img);
    }

    /** The inner loop of `_save_file`: writes the commands of one block onto
        the image in order, so that the image goes from the one `done`
        describes to the one `done + items` describes. */
    static method ApplyCommands(img: array<word>, items: seq<Command>, ghost done: seq<Command>)
      requires img.Length == EESIZE
      requires forall a :: 0 <= a < EESIZE ==> img[a] == ImageWord(done, a)
      modifies img
      ensures forall a :: 0 <= a < EESIZE ==> img[a] == ImageWord(done + items, a)
    {
      var m := 0;
      assert done + items[..m] == done;
      while m < |items|
        invariant 0 <= m <= |items|
        invariant forall a :: 0 <= a < EESIZE ==> img[a] == ImageWord(done + items[..m], a)
      {
        var item := items[m];
        img[item.addr] := item.value;
        assert done + items[..m + 1] == (done + items[..m]) + [item];
        forall a | 0 <= a < EESIZE
          ensures img[a] == ImageWord(done + items[..m + 1], a)
        {
          LastWriteSnoc(done + items[..m], item, a);
        }
        m := m + 1;
      }
      assert items[..m] == items;
    }

    /** The output loop of `_save_file`: packs every word of the image
        big-endian, in order. */
    static method WriteWords(img: array<word>) returns (out: seq<byte>)
      ensures out == Serialize(img[..])
    {
      out := [];
      var w := 0;
      while w < img.Length
        invariant 0 <= w <= img.Length
        invariant out == Serialize(img[..w])
      {
        out := out + [HighByte(img[w]), LowByte(img[w])];
        assert img[..w + 1][..w] == img[..w];
        w := w + 1;
      }
      assert img[..w] == img[..];
    }

    /** `_get_byte`: byte `addr` of the image, reading the words big-endian. */
    function GetByte(addr: nat): byte
      reads this, data
      requires addr < 2 * data.Length
    {
      if addr % 2 == 1 then LowByte(data[addr / 2]) else HighByte(data[addr / 2])
    }

    /** The byte view agrees with the output file, byte for byte. */
    lemma GetByteMatchesOutput(addr: nat)
      requires addr < 2 * data.Length
      ensures GetByte(addr) == Serialize(data[..])[addr]
    {
      SerializeAt(data[..], addr);
    }

    /** The two bytes of word `k` put back together give the word. */
    lemma GetByteWord(k: nat)
      requires k < data.Length
      ensures GetByte(2 * k) * 0x100 + GetByte(2 * k + 1) == data[k]
    {
      WordBytesRoundTrip(data[k], 0, 0);
    }
  }
}
