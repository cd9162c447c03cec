/** The image builder: the order in which blocks are replayed, the command
    log that order produces, the value every EEPROM word ends up with, and the
    big-endian serialisation of the finished image. */
module Replay {
  import opened Layout

  /** The replay order `range(startblock, NB_BLOCKS) + range(0, startblock)`
      with `startblock = (endblock + 1) % NB_BLOCKS`. */
  function VisitOrder(endblock: nat): (o: seq<nat>)
    requires endblock < NB_BLOCKS
    ensures |o| == NB_BLOCKS && forall k :: 0 <= k < |o| ==> o[k] < NB_BLOCKS
  {
    var start := (endblock + 1) % NB_BLOCKS;
    seq(NB_BLOCKS - start, i => start + i) + seq(start, i => i)
  }

  /** The replay visits every block exactly once, going round the circle from
      the block after the end block, and visits the end block last. */
  lemma VisitOrderFacts(endblock: nat)
    requires endblock < NB_BLOCKS
    ensures var o := VisitOrder(endblock);
      |o| == NB_BLOCKS
      && (forall k :: 0 <= k < NB_BLOCKS ==> o[k] == (endblock + 1 + k) % NB_BLOCKS)
      && (forall b :: 0 <= b < NB_BLOCKS ==> b in o)
      && (forall i, j :: 0 <= i < j < NB_BLOCKS ==> o[i] != o[j])
      && o[NB_BLOCKS - 1] == endblock
  {
    var o := VisitOrder(endblock);
    var start := (endblock + 1) % NB_BLOCKS;
    assert start == if endblock == NB_BLOCKS - 1 then 0 else endblock + 1;
    forall k | 0 <= k < NB_BLOCKS
      ensures o[k] == (endblock + 1 + k) % NB_BLOCKS
    {
      if k < NB_BLOCKS - start {
        assert o[k] == start + k;
      } else {
        assert o[k] == k - (NB_BLOCKS - start);
      }
    }
    forall b | 0 <= b < NB_BLOCKS
      ensures b in o
    {
      if b >= start {
        assert o[b - start] == b;
      } else {
        assert o[NB_BLOCKS - start + b] == b;
      }
    }
  }

  predicate BlocksIn(bd: seq<seq<Command>>, order: seq<nat>)
  {
    forall k :: 0 <= k < |order| ==> order[k] < |bd|
  }

  /** All commands of the blocks in `order`, block after block, each block's
      commands in file order. */
  function Log(bd: seq<seq<Command>>, order: seq<nat>): seq<Command>
    requires BlocksIn(bd, order)
  {
    if order == [] then []
    else Log(bd, order[..|order| - 1]) + bd[order[|order| - 1]]
  }

  /** The value of the last command for address `a` in `log`, if any. */
  function LastWrite(log: seq<Command>, a: EeAddress): Option<word>
  {
    if log == [] then None
    else if log[|log| - 1].addr == a then Some(log[|log| - 1].value)
    else LastWrite(log[..|log| - 1], a)
  }

  /** Replaying one more command changes only the word it addresses. */
  lemma LastWriteSnoc(log: seq<Command>, c: Command, a: EeAddress)
    ensures LastWrite(log + [c], a) == if c.addr == a then Some(c.value) else LastWrite(log, a)
  {
    assert (log + [c])[..|log|] == log;
  }

  /** Word `a` of the image that replaying `log` onto an erased EEPROM gives. */
  function ImageWord(log: seq<Command>, a: EeAddress): word
  {
    match LastWrite(log, a)
    case Some(v) => v
    case None => ERASED_WORD
  }

  /** `LastWrite` finds nothing exactly when no command writes `a`, and
      otherwise the value of the command for `a` that no later command for
      `a` follows. */
  lemma {:induction false} LastWriteSpec(log: seq<Command>, a: EeAddress)
    ensures LastWrite(log, a).None? <==> forall i :: 0 <= i < |log| ==> log[i].addr != a
    ensures forall i :: 0 <= i < |log| && log[i].addr == a
              && (forall j :: i < j < |log| ==> log[j].addr != a)
              ==> LastWrite(log, a) == Some(log[i].value)
  {
    if log != [] {
      var init := log[..|log| - 1];
      LastWriteSpec(init, a);
      assert forall i :: 0 <= i < |init| ==> init[i] == log[i];
    }
  }

  /** The later part of a log wins: the earlier part only matters for the
      addresses the later part does not write. */
  lemma {:induction false} LastWriteAppend(s: seq<Command>, u: seq<Command>, a: EeAddress)
    ensures LastWrite(s + u, a) == if LastWrite(u, a).Some? then LastWrite(u, a) else LastWrite(s, a)
  {
    if u == [] {
      assert s + u == s;
    } else {
      assert (s + u)[..|s + u| - 1] == s + u[..|u| - 1];
      LastWriteAppend(s, u[..|u| - 1], a);
    }
  }

  /** Replaying a log twice gives the same image as replaying it once. */
  lemma ReplayIdempotent(log: seq<Command>, a: EeAddress)
    ensures ImageWord(log + log, a) == ImageWord(log, a)
  {
    LastWriteAppend(log, log, a);
  }

  /** When no block of `order` writes `a`, neither does their log. */
  lemma {:induction false} LogNoWriter(bd: seq<seq<Command>>, order: seq<nat>, a: EeAddress)
    requires BlocksIn(bd, order)
    requires forall k :: 0 <= k < |order| ==> LastWrite(bd[order[k]], a).None?
    ensures LastWrite(Log(bd, order), a).None?
  {
    if order != [] {
      var init := order[..|order| - 1];
      LogNoWriter(bd, init, a);
      LastWriteAppend(Log(bd, init), bd[order[|order| - 1]], a);
    }
  }

  /** Last write wins across blocks: word `a` takes the last value that the
      latest visited block writing `a` gives it, whatever earlier blocks
      wrote. */
  lemma {:induction false} LogLastWriter(bd: seq<seq<Command>>, order: seq<nat>, k: nat, a: EeAddress)
    requires BlocksIn(bd, order) && k < |order|
    requires LastWrite(bd[order[k]], a).Some?
    requires forall k' :: k < k' < |order| ==> LastWrite(bd[order[k']], a).None?
    ensures LastWrite(Log(bd, order), a) == LastWrite(bd[order[k]], a)
  {
    var init := order[..|order| - 1];
    var blk := bd[order[|order| - 1]];
    LastWriteAppend(Log(bd, init), blk, a);
    if k < |order| - 1 {
      LogLastWriter(bd, init, k, a);
    }
  }

  /** Big-endian serialisation of the image, as the output file is written. */
  function Serialize(words: seq<word>): (out: seq<byte>)
    ensures |out| == 2 * |words|
  {
    if words == [] then []
    else
      var w := words[|words| - 1];
      Serialize(words[..|words| - 1]) + [HighByte(w), LowByte(w)]
  }

  /** Byte `i` of the output is the high byte of word i / 2 for an even `i`
      and its low byte for an odd `i`. */
  lemma {:induction false} SerializeAt(words: seq<word>, i: nat)
    requires i < 2 * |words|
    ensures Serialize(words)[i] == if i % 2 == 0 then HighByte(words[i / 2]) else LowByte(words[i / 2])
  {
    var init := words[..|words| - 1];
    if i < 2 * |init| {
      SerializeAt(init, i);
      assert words[i / 2] == init[i / 2];
    }
  }

  /** Reads an output file back as big-endian words. */
  function Deserialize(bytes: seq<byte>): (words: seq<word>)
    requires |bytes| % 2 == 0
    ensures |words| == |bytes| / 2
  {
    seq(|bytes| / 2, i requires 0 <= i < |bytes| / 2 => Word(bytes[2 * i], bytes[2 * i + 1]))
  }

  /** Reading the written image back gives the image. */
  lemma SerializeRoundTrip(words: seq<word>)
    ensures Deserialize(Serialize(words)) == words
  {
    var back := Deserialize(Serialize(words));
    forall i | 0 <= i < |words|
      ensures back[i] == words[i]
    {
      SerializeAt(words, 2 * i);
      SerializeAt(words, 2 * i + 1);
      WordBytesRoundTrip(words[i], 0, 0);
    }
  }

  /** A single data block writing 0x1234 to word 0 and 0xABCD to word 5, with
      every other block empty, replayed with that block as end block: those
      two words are set and every other word stays erased. */
  lemma SingleBlockImage(bd: seq<seq<Command>>, b: nat, a: EeAddress)
    requires |bd| == NB_BLOCKS && b < NB_BLOCKS
    requires bd[b] == [Command(0, 0x1234), Command(5, 0xABCD)]
    requires forall j :: 0 <= j < NB_BLOCKS && j != b ==> bd[j] == []
    ensures BlocksIn(bd, VisitOrder(b))
    ensures ImageWord(Log(bd, VisitOrder(b)), a) == if a == 0 then 0x1234 else if a == 5 then 0xABCD else ERASED_WORD
  {
    var o := VisitOrder(b);
    VisitOrderFacts(b);
    if a == 0 || a == 5 {
      assert bd[b][1..] == [Command(5, 0xABCD)];
      assert LastWrite(bd[b], a).Some?;
      LogLastWriter(bd, o, NB_BLOCKS - 1, a);
    } else {
      forall k | 0 <= k < |o|
        ensures LastWrite(bd[o[k]], a).None?
      {
        LastWriteSpec(bd[o[k]], a);
      }
      LogNoWriter(bd, o, a);
    }
  }
}
