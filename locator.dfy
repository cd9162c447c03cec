/** The end-block locator: the three heuristics that pick the most recently
    written block from the sequence of block kinds, and the policy that
    combines them. Block indices are circular modulo NB_BLOCKS. */
module Locator {
  import opened Layout

  predicate AllFree(t: seq<Kind>)
  {
    forall i :: 0 <= i < |t| ==> Free(t[i])
  }

  predicate AllHard(t: seq<Kind>)
  {
    forall i :: 0 <= i < |t| ==> !Free(t[i])
  }

  /** Reduces a position of the doubled block list to a block index. */
  function Wrap(x: nat): nat
    requires x < 2 * NB_BLOCKS
  {
    if x < NB_BLOCKS then x else x - NB_BLOCKS
  }

  /** Python's `%` on the positions the locator computes is `Wrap`, and -1
      becomes the last block. */
  lemma ModWrap(x: int)
    requires -1 <= x < 2 * NB_BLOCKS
    ensures x % NB_BLOCKS == if x < 0 then NB_BLOCKS - 1 else Wrap(x)
  {
  }

  /** The block `k` places after block `s`, going round the circle. */
  function At(t: seq<Kind>, s: nat, k: nat): Kind
    requires |t| == NB_BLOCKS && s < NB_BLOCKS && k < NB_BLOCKS
  {
    t[Wrap(s + k)]
  }

  /** Stepping `j` blocks and then `k` more is stepping `j + k` blocks. */
  lemma AtShift(t: seq<Kind>, s: nat, j: nat, k: nat)
    requires |t| == NB_BLOCKS && s < NB_BLOCKS && j < NB_BLOCKS && k < NB_BLOCKS
    ensures At(t, Wrap(s + j), k) == At(t, s, Wrap(j + k))
  {
  }

  /** Every NEW block is reached from block `s` across free blocks only. */
  predicate NewGroupFrom(t: seq<Kind>, s: nat)
    requires |t| == NB_BLOCKS && s < NB_BLOCKS
  {
    forall k :: 0 <= k < NB_BLOCKS && At(t, s, k) == New ==>
      forall j :: 0 <= j <= k ==> Free(At(t, s, j))
  }

  /** Length of the run of free blocks at the start of `t`. */
  function FreePrefix(t: seq<Kind>): (p: nat)
    ensures p <= |t|
    ensures forall i :: 0 <= i < p ==> Free(t[i])
    ensures p < |t| ==> !Free(t[p])
  {
    if t == [] || !Free(t[0]) then 0 else 1 + FreePrefix(t[1..])
  }

  /** Position of the first `k` in `s`, as Python's `list.index`. */
  function IndexOf(s: seq<Kind>, k: Kind): (i: nat)
    requires k in s
    ensures i < |s| && s[i] == k
    ensures forall j :: 0 <= j < i ==> s[j] != k
  {
    if s[0] == k then 0 else 1 + IndexOf(s[1..], k)
  }

  /** `IndexOf` finds the one position that holds `k` with no `k` before it. */
  lemma IndexOfUnique(s: seq<Kind>, k: Kind, i: nat)
    requires i < |s| && s[i] == k
    requires forall j :: 0 <= j < i ==> s[j] != k
    ensures IndexOf(s, k) == i
  {
    var r := IndexOf(s, k);
    assert !(r < i) && !(i < r);
  }

  /** Number of occurrences of `k` in `s`, as Python's `list.count`. */
  function Count(s: seq<Kind>, k: Kind): nat
  {
    if s == [] then 0 else (if s[0] == k then 1 else 0) + Count(s[1..], k)
  }

  /** `t` read from block `p` round to block `p - 1`; the Python code gets the
      same view by appending the leading free blocks to a copy of the list. */
  function Rotate(t: seq<Kind>, p: nat): (r: seq<Kind>)
    requires p <= |t|
    ensures |r| == |t|
  {
    t[p..] + t[..p]
  }

  lemma RotateAt(t: seq<Kind>, p: nat, k: nat)
    requires |t| == NB_BLOCKS && p < NB_BLOCKS && k < NB_BLOCKS
    ensures Rotate(t, p)[k] == At(t, p, k)
  {
  }

  lemma RotateSameKinds(t: seq<Kind>, p: nat, k: Kind)
    requires p <= |t|
    ensures k in Rotate(t, p) <==> k in t
  {
    assert t == t[..p] + t[p..];
  }

  /** Positions a < b < c of `r` hold a NEW block, a used block and a NEW block. */
  predicate SplitAt(r: seq<Kind>, a: int, b: int, c: int)
  {
    0 <= a < b < c < |r| && r[a] == New && !Free(r[b]) && r[c] == New
  }

  /** In scanning order, a NEW block, then a block that is neither NEW nor
      EMPTY, then a NEW block again: the NEW blocks are not one group. */
  predicate Split(r: seq<Kind>)
  {
    exists a, b, c :: 0 <= a < b < c < |r| && SplitAt(r, a, b, c)
  }

  /** Positions a < b of `s` hold a NEW block and a used block. */
  predicate NewThenUsed(s: seq<Kind>, a: int, b: int)
  {
    0 <= a < b < |s| && s[a] == New && !Free(s[b])
  }

  /** Some used block follows a NEW block in `s`. */
  predicate UsedAfterNew(s: seq<Kind>)
  {
    exists a, b :: 0 <= a < b < |s| && NewThenUsed(s, a, b)
  }

  /** A split of `s + [x]` is a split of `s`, or ends with `x` being NEW
      after a NEW block and a used block. */
  lemma SplitSnocNew(s: seq<Kind>, x: Kind)
    requires Split(s + [x])
    ensures Split(s) || (x == New && UsedAfterNew(s))
  {
    var q := s + [x];
    var a, b, c :| 0 <= a < b < c < |q| && SplitAt(q, a, b, c);
    assert q[a] == s[a] && q[b] == s[b];
    if c < |s| {
      assert q[c] == s[c];
      assert SplitAt(s, a, b, c);
    } else {
      assert NewThenUsed(s, a, b);
    }
  }

  /** A split stays a split when one more block is scanned. */
  lemma SplitSnocKeeps(s: seq<Kind>, x: Kind)
    requires Split(s)
    ensures Split(s + [x])
  {
    var a, b, c :| 0 <= a < b < c < |s| && SplitAt(s, a, b, c);
    var q := s + [x];
    assert q[a] == s[a] && q[b] == s[b] && q[c] == s[c];
    assert SplitAt(q, a, b, c);
  }

  /** A NEW block after a NEW block and a used block makes a split. */
  lemma SplitSnocMakes(s: seq<Kind>, x: Kind)
    requires x == New && UsedAfterNew(s)
    ensures Split(s + [x])
  {
    var a, b :| 0 <= a < b < |s| && NewThenUsed(s, a, b);
    var q := s + [x];
    assert q[a] == s[a] && q[b] == s[b] && q[|s|] == x;
    assert SplitAt(q, a, b, |s|);
  }

  /** Scanning one more block `x`: a split appears exactly when `x` is NEW
      and a used block already followed a NEW one. */
  lemma SplitSnoc(s: seq<Kind>, x: Kind)
    ensures Split(s + [x]) <==> Split(s) || (x == New && UsedAfterNew(s))
  {
    if Split(s + [x]) {
      SplitSnocNew(s, x);
    }
    if Split(s) {
      SplitSnocKeeps(s, x);
    }
    if x == New && UsedAfterNew(s) {
      SplitSnocMakes(s, x);
    }
  }

  /** Scanning one more block `x`: a used block follows a NEW one once `x`
      is used after some NEW block. */
  lemma UsedAfterNewSnoc(s: seq<Kind>, x: Kind)
    ensures UsedAfterNew(s + [x]) <==> UsedAfterNew(s) || (!Free(x) && New in s)
  {
    var q := s + [x];
    if UsedAfterNew(q) {
      var a, b :| 0 <= a < b < |q| && NewThenUsed(q, a, b);
      assert q[a] == s[a];
      if b < |s| {
        assert q[b] == s[b];
        assert NewThenUsed(s, a, b);
      }
    }
    if UsedAfterNew(s) {
      var a, b :| 0 <= a < b < |s| && NewThenUsed(s, a, b);
      assert q[a] == s[a] && q[b] == s[b];
      assert NewThenUsed(q, a, b);
    }
    if !Free(x) && New in s {
      var a :| 0 <= a < |s| && s[a] == New;
      assert q[a] == s[a] && q[|s|] == x;
      assert NewThenUsed(q, a, |s|);
    }
  }

  /** A split in a prefix is a split of the whole sequence. */
  lemma SplitExtend(r: seq<Kind>, n: nat)
    requires n <= |r| && Split(r[..n])
    ensures Split(r)
  {
    var s := r[..n];
    var a, b, c :| 0 <= a < b < c < |s| && SplitAt(s, a, b, c);
    assert s[a] == r[a] && s[b] == r[b] && s[c] == r[c];
    assert SplitAt(r, a, b, c);
  }

  /** Going round the circle from some used block one meets a NEW block, a
      used block and a NEW block again: the NEW blocks form two groups. */
  predicate TwoNewGroups(t: seq<Kind>)
    requires |t| == NB_BLOCKS
  {
    exists s, a, b, c :: 0 <= s < NB_BLOCKS && 0 < a < b < c < NB_BLOCKS
      && !Free(At(t, s, 0)) && At(t, s, a) == New && !Free(At(t, s, b)) && At(t, s, c) == New
  }

  /** Heuristic 1, the contiguous NEW run (`_find_new_blocks`): the block just
      before the first NEW block met when scanning from the first used block,
      provided the NEW blocks form a single group. */
  function NewRunEnd(t: seq<Kind>): (r: Result<Option<nat>>)
    requires |t| == NB_BLOCKS
    ensures r.Err? <==> AllFree(t)
    ensures r.Err? ==> r.error == AllBlocksNew
    ensures r.Ok? && r.value.Some? ==> r.value.value < NB_BLOCKS
  {
    var p := FreePrefix(t);
    if p == |t| then Err(AllBlocksNew)
    else
      var rot := Rotate(t, p);
      if New !in rot || Split(rot) then Ok(None)
      else Ok(Some((p + IndexOf(rot, New) - 1) % NB_BLOCKS))
  }

  /** Scanning from a used block, the NEW blocks are split exactly when they
      form two groups on the circle. */
  lemma SplitIffTwoGroups(t: seq<Kind>, p: nat)
    requires |t| == NB_BLOCKS && p < NB_BLOCKS && !Free(t[p])
    ensures Split(Rotate(t, p)) <==> TwoNewGroups(t)
  {
    var r := Rotate(t, p);
    var n := NB_BLOCKS;
    if Split(r) {
      var a, b, c :| 0 <= a < b < c < |r| && SplitAt(r, a, b, c);
      RotateAt(t, p, 0);
      RotateAt(t, p, a);
      RotateAt(t, p, b);
      RotateAt(t, p, c);
      assert a != 0;
      assert !Free(At(t, p, 0)) && At(t, p, a) == New && !Free(At(t, p, b)) && At(t, p, c) == New;
    }
    if TwoNewGroups(t) {
      var s, a, b, c :| 0 <= s < n && 0 < a < b < c < n
        && !Free(At(t, s, 0)) && At(t, s, a) == New && !Free(At(t, s, b)) && At(t, s, c) == New;
      GroupsSeenFrom(t, p, s, a, b, c);
    }
  }

  /** Two groups of NEW blocks seen from block `s` are also seen as a split
      when the scan starts at block `p`. */
  lemma GroupsSeenFrom(t: seq<Kind>, p: nat, s: nat, a: nat, b: nat, c: nat)
    requires |t| == NB_BLOCKS && p < NB_BLOCKS && s < NB_BLOCKS && 0 < a < b < c < NB_BLOCKS
    requires !Free(At(t, s, 0)) && At(t, s, a) == New && !Free(At(t, s, b)) && At(t, s, c) == New
    ensures Split(Rotate(t, p))
  {
    var n := NB_BLOCKS;
    var r := Rotate(t, p);
    // The scan from p meets block s + x at offset Wrap(o + x).
    var o := Wrap(s + n - p);
    assert Wrap(p + o) == s;
    AtShift(t, p, o, 0);
    AtShift(t, p, o, a);
    AtShift(t, p, o, b);
    AtShift(t, p, o, c);
    var kx, ka, kb, kc := Wrap(o + 0), Wrap(o + a), Wrap(o + b), Wrap(o + c);
    RotateAt(t, p, kx);
    RotateAt(t, p, ka);
    RotateAt(t, p, kb);
    RotateAt(t, p, kc);
    if ka < kb < kc {
      assert SplitAt(r, ka, kb, kc);
    } else {
      assert kc < kx < ka;
      assert SplitAt(r, kc, kx, ka);
    }
  }

  /** Heuristic 1 finds nothing exactly when there is no NEW block or the
      NEW blocks form two groups, and raises when every block is free. */
  lemma NewRunEndNone(t: seq<Kind>)
    requires |t| == NB_BLOCKS && !AllFree(t)
    ensures NewRunEnd(t) == Ok(None) <==> New !in t || TwoNewGroups(t)
  {
    var p := FreePrefix(t);
    RotateSameKinds(t, p, New);
    SplitIffTwoGroups(t, p);
  }

  /** When heuristic 1 finds block `e`: the block after `e` is NEW, `e` itself
      is not, and every NEW block is reached from `e + 1` across free blocks
      only, so the NEW blocks form the one group that starts right after `e`. */
  lemma NewRunEndFound(t: seq<Kind>, e: nat)
    requires |t| == NB_BLOCKS && NewRunEnd(t) == Ok(Some(e))
    ensures e < NB_BLOCKS
    ensures t[(e + 1) % NB_BLOCKS] == New && t[e] != New
    ensures NewGroupFrom(t, (e + 1) % NB_BLOCKS)
  {
    var n := NB_BLOCKS;
    var p := FreePrefix(t);
    var r := Rotate(t, p);
    var f := IndexOf(r, New);
    RotateAt(t, p, 0);
    assert f > 0;
    ModWrap(p + f - 1);
    assert e == Wrap(p + f - 1);
    ModWrap(e + 1);
    var s0 := Wrap(p + f);
    assert (e + 1) % n == s0;
    RotateAt(t, p, f);
    RotateAt(t, p, f - 1);
    FirstNewGroupFrom(t, p, f);
  }

  /** Scanning from `p` without meeting a split, the NEW blocks are reached
      from the first of them, `f` blocks on, across free blocks only. */
  lemma FirstNewGroupFrom(t: seq<Kind>, p: nat, f: nat)
    requires |t| == NB_BLOCKS && p < NB_BLOCKS && f < NB_BLOCKS
    requires !Split(Rotate(t, p)) && Rotate(t, p)[f] == New
    requires forall j :: 0 <= j < f ==> Rotate(t, p)[j] != New
    ensures NewGroupFrom(t, Wrap(p + f))
  {
    var n := NB_BLOCKS;
    var r := Rotate(t, p);
    var s0 := Wrap(p + f);
    forall k | 0 <= k < n && At(t, s0, k) == New
      ensures forall j :: 0 <= j <= k ==> Free(At(t, s0, j))
    {
      AtShift(t, p, f, k);
      RotateAt(t, p, Wrap(f + k));
      assert f + k < n;
      forall j | 0 <= j <= k
        ensures Free(At(t, s0, j))
      {
        AtShift(t, p, f, j);
        RotateAt(t, p, f + j);
        if !Free(At(t, s0, j)) {
          assert SplitAt(r, f, f + j, f + k);
        }
      }
    }
  }

  /** Heuristic 2, the unique LAST block (`_find_last_block`). */
  function LastBlock(t: seq<Kind>): Option<nat>
  {
    if Count(t, Last) == 1 then
      CountZero(t, Last);
      Some(IndexOf(t, Last))
    else None
  }

  lemma {:induction false} CountZero(s: seq<Kind>, k: Kind)
    ensures Count(s, k) == 0 <==> k !in s
  {
    if s != [] {
      CountZero(s[1..], k);
      assert s == [s[0]] + s[1..];
    }
  }

  /** Given one occurrence of `k` at `i`, the count is one exactly when it is
      the only occurrence. */
  lemma {:induction false} CountOne(s: seq<Kind>, k: Kind, i: nat)
    requires i < |s| && s[i] == k
    ensures Count(s, k) == 1 <==> forall j :: 0 <= j < |s| && j != i ==> s[j] != k
  {
    CountZero(s[1..], k);
    if i == 0 {
      assert forall j :: 1 <= j < |s| ==> s[j] == s[1..][j - 1];
      if Count(s, k) != 1 {
        assert k in s[1..];
      }
    } else {
      CountOne(s[1..], k, i - 1);
      assert forall j :: 1 <= j < |s| ==> s[j] == s[1..][j - 1];
    }
  }

  /** Heuristic 2 returns an index exactly when exactly one block is LAST,
      and then it is that block. */
  lemma LastBlockUnique(t: seq<Kind>)
    ensures LastBlock(t).Some? <==>
      exists i :: 0 <= i < |t| && t[i] == Last && forall j :: 0 <= j < |t| && j != i ==> t[j] != Last
    ensures LastBlock(t).Some? ==> LastBlock(t).value < |t| && t[LastBlock(t).value] == Last
  {
    if LastBlock(t).Some? {
      CountOne(t, Last, LastBlock(t).value);
    }
    forall i | 0 <= i < |t| && t[i] == Last && (forall j :: 0 <= j < |t| && j != i ==> t[j] != Last)
      ensures LastBlock(t).Some?
    {
      CountOne(t, Last, i);
    }
  }

  /** Length of the run of free blocks that ends at position `i` of `d`. */
  function RunEndingAt(d: seq<Kind>, i: nat): (n: nat)
    requires i < |d|
    ensures n <= i + 1
  {
    if !Free(d[i]) then 0 else if i == 0 then 1 else 1 + RunEndingAt(d, i - 1)
  }

  /** The run ending at `i` covers blocks i-n+1 .. i, all free, and the block
      before it, if any, is used. */
  lemma {:induction false} RunFacts(d: seq<Kind>, i: nat)
    requires i < |d|
    ensures var n := RunEndingAt(d, i);
      (forall j :: i - n < j <= i ==> Free(d[j])) && (i - n >= 0 ==> !Free(d[i - n]))
  {
    if Free(d[i]) && i > 0 {
      RunFacts(d, i - 1);
    }
  }

  /** A stretch of `m` free blocks ending at `i` makes the run there at least `m` long. */
  lemma {:induction false} RunAtLeast(d: seq<Kind>, i: nat, m: nat)
    requires i < |d| && m <= i + 1
    requires forall j :: i - m < j <= i ==> Free(d[j])
    ensures RunEndingAt(d, i) >= m
  {
    if m > 0 && i > 0 {
      RunAtLeast(d, i - 1, m - 1);
    }
  }

  /** `lb` ends the first of the longest runs of free blocks in `d`. */
  predicate FirstLongestRun(d: seq<Kind>, lb: nat)
  {
    lb < |d|
    && (forall i :: 0 <= i < |d| ==> RunEndingAt(d, i) <= RunEndingAt(d, lb))
    && (forall i :: 0 <= i < lb ==> RunEndingAt(d, i) < RunEndingAt(d, lb))
  }

  /** Heuristic 3, the longest run of free blocks (`_find_longest_empty`):
      block NB_BLOCKS - 1 when no block is free, otherwise the block just
      before the first longest run of free blocks in `t + t`. */
  ghost predicate LongestEmptyResult(t: seq<Kind>, e: int)
    requires |t| == NB_BLOCKS
  {
    if AllHard(t) then e == NB_BLOCKS - 1
    else exists lb: nat :: LongestRunBefore(t, lb, e)
  }

  /** `lb` ends the first longest run of free blocks in `t + t`, and `e` is
      the block just before that run, taken round the circle. */
  predicate LongestRunBefore(t: seq<Kind>, lb: nat, e: int)
  {
    FirstLongestRun(t + t, lb) && e == (lb - RunEndingAt(t + t, lb)) % NB_BLOCKS
  }

  /** Only one position ends the first of the longest runs. */
  lemma FirstLongestRunUnique(d: seq<Kind>, lb1: nat, lb2: nat)
    requires FirstLongestRun(d, lb1) && FirstLongestRun(d, lb2)
    ensures lb1 == lb2
  {
    assert RunEndingAt(d, lb2) <= RunEndingAt(d, lb1) && RunEndingAt(d, lb1) <= RunEndingAt(d, lb2);
  }

  /** Heuristic 3 names one block only. */
  lemma LongestEmptyUnique(t: seq<Kind>, e1: int, e2: int)
    requires |t| == NB_BLOCKS && LongestEmptyResult(t, e1) && LongestEmptyResult(t, e2)
    ensures e1 == e2
  {
    if !AllHard(t) {
      RunsUnique(t, e1, e2);
    }
  }

  /** Both results come from the one first longest run of `t + t`. */
  lemma RunsUnique(t: seq<Kind>, e1: int, e2: int)
    requires |t| == NB_BLOCKS && !AllHard(t)
    requires exists lb: nat :: LongestRunBefore(t, lb, e1)
    requires exists lb: nat :: LongestRunBefore(t, lb, e2)
    ensures e1 == e2
  {
    var lb1: nat :| LongestRunBefore(t, lb1, e1);
    var lb2: nat :| LongestRunBefore(t, lb2, e2);
    FirstLongestRunUnique(t + t, lb1, lb2);
  }

  /** The run found by heuristic 3 starts inside `t + t` after the used
      block `lb - len`: that block and the one after it, taken round the
      circle, are the used block and the free block the lemma below needs. */
  lemma BoundaryInside(t: seq<Kind>, lb: nat, len: nat)
    requires |t| == NB_BLOCKS && 1 <= len <= lb < 2 * NB_BLOCKS
    requires !Free((t + t)[lb - len]) && Free((t + t)[lb - len + 1])
    ensures !Free(t[Wrap(lb - len)]) && Free(t[(Wrap(lb - len) + 1) % NB_BLOCKS])
  {
    var d := t + t;
    var e := Wrap(lb - len);
    ModWrap(e + 1);
    assert d[lb - len] == t[e];
    assert d[lb - len + 1] == t[Wrap(lb - len + 1)];
  }

  /** A run that reaches back to the start of `t + t` and is a first longest
      run is preceded, round the circle, by a used last block, and the block
      after that one is block 0, which the run covers. */
  lemma BoundaryWrapped(t: seq<Kind>, lb: nat)
    requires |t| == NB_BLOCKS && !AllFree(t)
    requires FirstLongestRun(t + t, lb) && lb + 1 == RunEndingAt(t + t, lb)
    ensures !Free(t[NB_BLOCKS - 1]) && Free(t[0])
  {
    var n := NB_BLOCKS;
    var d := t + t;
    RunFacts(d, lb);
    if lb >= n - 1 {
      forall i | 0 <= i < n ensures Free(t[i]) {
        assert d[i] == t[i];
      }
      assert false;
    }
    assert d[0] == t[0];
    if Free(t[n - 1]) {
      forall j | n + lb - (lb + 2) < j <= n + lb
        ensures Free(d[j])
      {
        if j == n - 1 {
          assert d[j] == t[n - 1];
        } else {
          assert d[j] == d[j - n];
        }
      }
      RunAtLeast(d, n + lb, lb + 2);
      assert false;
    }
  }

  /** When some blocks are free and some are used, heuristic 3 points at a
      used block that is followed by a free block. */
  lemma LongestEmptyBoundary(t: seq<Kind>, e: int)
    requires |t| == NB_BLOCKS && !AllHard(t) && !AllFree(t) && LongestEmptyResult(t, e)
    ensures 0 <= e < NB_BLOCKS
    ensures !Free(t[e]) && Free(t[(e + 1) % NB_BLOCKS])
  {
    var d := t + t;
    var lb: nat :| LongestRunBefore(t, lb, e);
    var len := RunEndingAt(d, lb);
    var x :| 0 <= x < NB_BLOCKS && Free(t[x]);
    assert d[x] == t[x];
    RunAtLeast(d, x, 1);
    RunFacts(d, lb);
    ModWrap(lb - len);
    if lb - len >= 0 {
      BoundaryInside(t, lb, len);
    } else {
      BoundaryWrapped(t, lb);
      ModWrap(NB_BLOCKS);
    }
  }

  /** The end-block combination policy (`_find_endblock`): heuristic 1 when
      it finds a block, whatever heuristic 2 says; otherwise the unique LAST
      block; otherwise heuristic 3. Only defined when heuristic 1 does not
      raise. */
  ghost predicate EndBlockChoice(t: seq<Kind>, e: int)
    requires |t| == NB_BLOCKS && !AllFree(t)
  {
    match NewRunEnd(t)
    case Ok(Some(nb)) => e == nb
    case _ =>
      match LastBlock(t)
      case Some(lbk) => e == lbk
      case None => LongestEmptyResult(t, e)
  }

  /** Every choice of the policy is a block index. */
  lemma EndBlockInRange(t: seq<Kind>, e: int)
    requires |t| == NB_BLOCKS && !AllFree(t) && EndBlockChoice(t, e)
    ensures 0 <= e < NB_BLOCKS
  {
    LastBlockUnique(t);
    if NewRunEnd(t) == Ok(None) && LastBlock(t).None? && !AllHard(t) {
      LongestEmptyBoundary(t, e);
    }
  }

  /** With exactly one LAST block and no NEW block, the policy picks the LAST block. */
  lemma EndBlockUniqueLast(t: seq<Kind>, l: nat, e: int)
    requires |t| == NB_BLOCKS && l < NB_BLOCKS && t[l] == Last
    requires forall j :: 0 <= j < NB_BLOCKS && j != l ==> t[j] != Last
    requires New !in t
    ensures !AllFree(t)
    ensures EndBlockChoice(t, e) <==> e == l
  {
    assert !Free(t[l]);
    NewRunEndNone(t);
    LastBlockUnique(t);
  }

  /** With two separate groups of NEW blocks and no unique LAST block, the
      policy falls back to heuristic 3. */
  lemma EndBlockTwoGroups(t: seq<Kind>, e: int)
    requires |t| == NB_BLOCKS && !AllFree(t) && TwoNewGroups(t) && LastBlock(t).None?
    ensures EndBlockChoice(t, e) <==> LongestEmptyResult(t, e)
  {
    NewRunEndNone(t);
  }

  /** Blocks 0 .. 124 full data blocks, block 125 the LAST block and blocks
      126 and 127 NEW: the end block is 125. */
  lemma EndBlockScenario(t: seq<Kind>, e: int)
    requires t == seq(NB_BLOCKS, i => if i < 125 then Valid else if i == 125 then Last else New)
    ensures !AllFree(t) && NewRunEnd(t) == Ok(Some(125))
    ensures EndBlockChoice(t, e) <==> e == 125
  {
    assert !Free(t[0]);
    assert FreePrefix(t) == 0;
    var r := Rotate(t, 0);
    assert r == t;
    assert r[126] == New;
    assert IndexOf(r, New) == 126;
    assert !Split(r);
  }
}
