/**
 The blocks of the heap as a list in address order, and what each step of the allocator does
 to it. The list holds the blocks of the current chain and of every chain that was given up
 (src/kmem/kfree.c:59-66); freed last blocks that were unlinked are no longer in it.
 */
module HeapList {
  import opened Arith
  import opened HeapMemory

  /** A block as its header describes it. */
  datatype Block = Block(at: nat, free: bool, size: nat, next: nat, prev: nat) {
    function Data(): nat { at + META_BLOCK_SIZE }
    function End(): nat { at + META_BLOCK_SIZE + size }
    predicate Inside(start: nat, brk: nat) { start <= at && End() <= brk }
  }

  /** Block `i` ends before the next one begins. */
  ghost predicate Apart(bs: seq<Block>, i: nat)
    requires i < |bs|
  {
    i + 1 < |bs| ==> bs[i].End() <= bs[i + 1].at
  }

  /** `next` is null or the following block. */
  ghost predicate NextOk(bs: seq<Block>, i: nat)
    requires i < |bs|
  {
    bs[i].next != 0 ==> i + 1 < |bs| && bs[i].next == bs[i + 1].at
  }

  /** `prev` is null or the preceding block, which then points here. */
  ghost predicate PrevOk(bs: seq<Block>, i: nat)
    requires i < |bs|
  {
    bs[i].prev != 0 ==> 0 < i && bs[i].prev == bs[i - 1].at && bs[i - 1].next == bs[i].at
  }

  /** Block `i` is not the last of its chain unless it is the last of all. */
  ghost predicate GoesOn(bs: seq<Block>, i: nat)
    requires i < |bs|
  {
    i + 1 < |bs| ==> bs[i].next == bs[i + 1].at
  }

  /** Blocks follow one another inside the used part of the heap and never overlap. */
  ghost predicate Spaced(bs: seq<Block>, start: nat, brk: nat) {
    && (forall i {:trigger bs[i].Inside(start, brk)} :: 0 <= i < |bs| ==> bs[i].Inside(start, brk))
    && (forall i {:trigger Apart(bs, i)} :: 0 <= i < |bs| ==> Apart(bs, i))
  }

  ghost predicate Linked(bs: seq<Block>) {
    && (forall i {:trigger NextOk(bs, i)} :: 0 <= i < |bs| ==> NextOk(bs, i))
    && (forall i {:trigger PrevOk(bs, i)} :: 0 <= i < |bs| ==> PrevOk(bs, i))
  }

  /** The current chain is the blocks from `cur` on; a chain given up ends before it. */
  ghost predicate Rooted(bs: seq<Block>, base: nat, cur: nat) {
    && cur <= |bs|
    && (0 < cur ==> bs[cur - 1].next == 0)
    && (if base == 0 then cur == |bs| else cur < |bs| && base == bs[cur].at)
    && (forall i {:trigger GoesOn(bs, i)} :: cur <= i < |bs| ==> GoesOn(bs, i))
  }

  ghost predicate Inv(bs: seq<Block>, start: nat, brk: nat, base: nat, cur: nat) {
    && 0 < start && Spaced(bs, start, brk) && Linked(bs) && Rooted(bs, base, cur)
  }

  lemma {:induction false} SpacedPair(bs: seq<Block>, start: nat, brk: nat, i: nat, j: nat)
    requires Spaced(bs, start, brk) && i < j < |bs|
    ensures bs[i].End() <= bs[j].at
    decreases j
  {
    assert Apart(bs, j - 1);
    if i + 1 < j {
      SpacedPair(bs, start, brk, i, j - 1);
      assert bs[j - 1].at <= bs[j - 1].End();
    }
  }

  // -------------------------------------------------------------------------
  // Steps

  /** `split`: a free block is cut from the end of block `i`, which keeps `s` bytes. */
  function Split(bs: seq<Block>, i: nat, s: nat): (r: seq<Block>)
    requires i < |bs| && s + META_BLOCK_SIZE <= bs[i].size
    requires bs[i].next != 0 ==> i + 1 < |bs|
    ensures |r| == |bs| + 1
  {
    var b := bs[i];
    var cut := Block(b.Data() + s, true, b.size - s - META_BLOCK_SIZE, b.next, b.at);
    var rest := if b.next == 0 then bs[i + 1..] else [bs[i + 1].(prev := cut.at)] + bs[i + 2..];
    bs[..i] + [b.(size := s, next := cut.at), cut] + rest
  }

  /** Block `i` takes over the block after it; the block after that points back to `i`. */
  function Absorb(bs: seq<Block>, i: nat): (r: seq<Block>)
    requires i + 1 < |bs| && (bs[i + 1].next != 0 ==> i + 2 < |bs|)
    ensures |r| == |bs| - 1
  {
    var grown := bs[i].(size := bs[i].size + META_BLOCK_SIZE + bs[i + 1].size, next := bs[i + 1].next);
    var rest := if grown.next == 0 then bs[i + 2..] else [bs[i + 2].(prev := grown.at)] + bs[i + 3..];
    bs[..i] + [grown] + rest
  }

  /** `merge_blocks`: takes over a free neighbour, and in any case repairs the back link. */
  function Merge(bs: seq<Block>, i: nat): (r: seq<Block>)
    requires i < |bs| && (bs[i].next != 0 ==> i + 1 < |bs| && (bs[i + 1].next != 0 ==> i + 2 < |bs|))
  {
    if bs[i].next == 0 then bs
    else if bs[i + 1].free then Absorb(bs, i)
    else bs[i + 1 := bs[i + 1].(prev := bs[i].at)]
  }

  /** `extend_heap`: a new block at the break, hung onto the last one if there is a chain. */
  function Extend(bs: seq<Block>, brk: nat, s: nat, linked: bool): (r: seq<Block>)
    requires linked ==> bs != []
    ensures |r| == |bs| + 1
  {
    (if linked then bs[|bs| - 1 := bs[|bs| - 1].(next := brk)] else bs) + [Block(brk, false, s, 0, 0)]
  }

  /** Unlinking the last block from its predecessor. */
  function Unlink(bs: seq<Block>): (r: seq<Block>)
    requires 2 <= |bs|
    ensures |r| == |bs| - 1
  {
    bs[..|bs| - 2] + [bs[|bs| - 2].(next := 0)]
  }

  // -------------------------------------------------------------------------
  // Each step keeps the invariant

  lemma SplitAt(bs: seq<Block>, i: nat, s: nat)
    requires i < |bs| && s + META_BLOCK_SIZE <= bs[i].size
    requires bs[i].next != 0 ==> i + 1 < |bs|
    ensures var r, b := Split(bs, i, s), bs[i];
            var cut := b.Data() + s;
            && r[i] == b.(size := s, next := cut)
            && r[i + 1] == Block(cut, true, b.size - s - META_BLOCK_SIZE, b.next, b.at)
            && (forall k {:trigger r[k]} :: 0 <= k < i ==> r[k] == bs[k])
            && (forall k {:trigger r[k]} :: i + 1 < k < |r| ==>
                  r[k] == if k == i + 2 && b.next != 0 then bs[k - 1].(prev := cut) else bs[k - 1])
  {
  }

  lemma SplitInv(bs: seq<Block>, start: nat, brk: nat, base: nat, cur: nat, i: nat, s: nat)
    requires Inv(bs, start, brk, base, cur) && i < |bs| && s + META_BLOCK_SIZE <= bs[i].size
    ensures NextOk(bs, i)
    ensures Inv(Split(bs, i, s), start, brk, base, if i < cur then cur + 1 else cur)
  {
    assert NextOk(bs, i) && Apart(bs, i) && bs[i].Inside(start, brk);
    assert i + 1 < |bs| ==> bs[i + 1].Inside(start, brk);
    SplitAt(bs, i, s);
    hide Split;
    var r := Split(bs, i, s);
    forall k {:trigger r[k].Inside(start, brk)} | 0 <= k < |r|
      ensures r[k].Inside(start, brk)
    {
      assert k < i ==> bs[k].Inside(start, brk);
      assert i + 1 < k ==> bs[k - 1].Inside(start, brk);
    }
    forall k: nat {:trigger Apart(r, k)} | k < |r|
      ensures Apart(r, k)
    {
      assert k < i ==> Apart(bs, k);
      assert i < k ==> Apart(bs, k - 1);
    }
    forall k: nat {:trigger NextOk(r, k)} | k < |r|
      ensures NextOk(r, k)
    {
      assert k < i ==> NextOk(bs, k);
      assert i < k ==> NextOk(bs, k - 1);
    }
    forall k: nat {:trigger PrevOk(r, k)} | k < |r|
      ensures PrevOk(r, k)
    {
      assert k <= i ==> PrevOk(bs, k);
      assert i + 1 < k ==> PrevOk(bs, k - 1);
    }
    forall k: nat {:trigger GoesOn(r, k)} | (if i < cur then cur + 1 else cur) <= k < |r|
      ensures GoesOn(r, k)
    {
      assert k < i ==> GoesOn(bs, k);
      assert i < k ==> GoesOn(bs, k - 1);
    }
  }

  lemma AbsorbAt(bs: seq<Block>, i: nat)
    requires i + 1 < |bs| && (bs[i + 1].next != 0 ==> i + 2 < |bs|)
    ensures var r, b, c := Absorb(bs, i), bs[i], bs[i + 1];
            && r[i] == b.(size := b.size + META_BLOCK_SIZE + c.size, next := c.next)
            && (forall k {:trigger r[k]} :: 0 <= k < i ==> r[k] == bs[k])
            && (forall k {:trigger r[k]} :: i < k < |r| ==>
                  r[k] == if k == i + 1 && c.next != 0 then bs[k + 1].(prev := b.at) else bs[k + 1])
  {
  }

  lemma AbsorbInv(bs: seq<Block>, start: nat, brk: nat, base: nat, cur: nat, i: nat)
    requires Inv(bs, start, brk, base, cur) && i < |bs| && bs[i].next != 0
    ensures NextOk(bs, i) && NextOk(bs, i + 1)
    ensures Inv(Absorb(bs, i), start, brk, base, if i < cur then cur - 1 else cur)
  {
    assert NextOk(bs, i) && Apart(bs, i) && bs[i].Inside(start, brk);
    assert NextOk(bs, i + 1) && Apart(bs, i + 1) && bs[i + 1].Inside(start, brk);
    assert i + 2 < |bs| ==> bs[i + 2].Inside(start, brk) && PrevOk(bs, i + 2);
    AbsorbAt(bs, i);
    hide Absorb;
    var r := Absorb(bs, i);
    forall k {:trigger r[k].Inside(start, brk)} | 0 <= k < |r|
      ensures r[k].Inside(start, brk)
    {
      assert k < i ==> bs[k].Inside(start, brk);
      assert i < k ==> bs[k + 1].Inside(start, brk);
    }
    forall k: nat {:trigger Apart(r, k)} | k < |r|
      ensures Apart(r, k)
    {
      assert k < i ==> Apart(bs, k);
      assert i < k ==> Apart(bs, k + 1);
    }
    forall k: nat {:trigger NextOk(r, k)} | k < |r|
      ensures NextOk(r, k)
    {
      assert k < i ==> NextOk(bs, k);
      assert i < k ==> NextOk(bs, k + 1);
    }
    forall k: nat {:trigger PrevOk(r, k)} | k < |r|
      ensures PrevOk(r, k)
    {
      assert k <= i ==> PrevOk(bs, k);
      assert i < k ==> PrevOk(bs, k + 1);
    }
    forall k: nat {:trigger GoesOn(r, k)} | (if i < cur then cur - 1 else cur) <= k < |r|
      ensures GoesOn(r, k)
    {
      assert k < i ==> GoesOn(bs, k);
      assert i <= k ==> GoesOn(bs, k + 1);
    }
  }

  /** The free flags play no part in the invariant, and a back link may be repaired. */
  lemma Relabelled(bs: seq<Block>, r: seq<Block>, start: nat, brk: nat, base: nat, cur: nat)
    requires Inv(bs, start, brk, base, cur) && |r| == |bs|
    requires forall k {:trigger r[k]} :: 0 <= k < |bs| ==>
      && r[k].at == bs[k].at && r[k].size == bs[k].size && r[k].next == bs[k].next
      && (r[k].prev == bs[k].prev || (0 < k && r[k].prev == bs[k - 1].at && bs[k - 1].next == bs[k].at))
    ensures Inv(r, start, brk, base, cur)
  {
    forall k {:trigger r[k].Inside(start, brk)} | 0 <= k < |r|
      ensures r[k].Inside(start, brk)
    {
      assert bs[k].Inside(start, brk);
    }
    forall k: nat {:trigger Apart(r, k)} | k < |r|
      ensures Apart(r, k)
    {
      assert Apart(bs, k);
    }
    forall k: nat {:trigger NextOk(r, k)} | k < |r|
      ensures NextOk(r, k)
    {
      assert NextOk(bs, k);
    }
    forall k: nat {:trigger PrevOk(r, k)} | k < |r|
      ensures PrevOk(r, k)
    {
      assert PrevOk(bs, k);
    }
    forall k: nat {:trigger GoesOn(r, k)} | cur <= k < |r|
      ensures GoesOn(r, k)
    {
      assert GoesOn(bs, k);
    }
  }

  lemma SetFreeInv(bs: seq<Block>, start: nat, brk: nat, base: nat, cur: nat, i: nat, free: bool)
    requires Inv(bs, start, brk, base, cur) && i < |bs|
    ensures Inv(bs[i := bs[i].(free := free)], start, brk, base, cur)
  {
    hide Inv;
    Relabelled(bs, bs[i := bs[i].(free := free)], start, brk, base, cur);
  }

  lemma RelinkInv(bs: seq<Block>, start: nat, brk: nat, base: nat, cur: nat, i: nat)
    requires Inv(bs, start, brk, base, cur) && i < |bs| && bs[i].next != 0
    ensures NextOk(bs, i)
    ensures Inv(bs[i + 1 := bs[i + 1].(prev := bs[i].at)], start, brk, base, cur)
  {
    assert NextOk(bs, i);
    hide Inv;
    Relabelled(bs, bs[i + 1 := bs[i + 1].(prev := bs[i].at)], start, brk, base, cur);
  }

  lemma ExtendAt(bs: seq<Block>, brk: nat, s: nat, linked: bool)
    requires linked ==> bs != []
    ensures var r := Extend(bs, brk, s, linked);
            && r[|bs|] == Block(brk, false, s, 0, 0)
            && (forall k {:trigger r[k]} :: 0 <= k < |bs| ==>
                  r[k] == if linked && k == |bs| - 1 then bs[k].(next := brk) else bs[k])
  {
  }

  lemma ExtendInv(bs: seq<Block>, start: nat, brk: nat, base: nat, cur: nat, s: nat)
    requires Inv(bs, start, brk, base, cur) && start <= brk
    ensures Inv(Extend(bs, brk, s, base != 0), start, brk + META_BLOCK_SIZE + s, if base == 0 then brk else base, cur)
  {
    ExtendAt(bs, brk, s, base != 0);
    hide Extend;
    var r, brk' := Extend(bs, brk, s, base != 0), brk + META_BLOCK_SIZE + s;
    forall k {:trigger r[k].Inside(start, brk')} | 0 <= k < |r|
      ensures r[k].Inside(start, brk')
    {
      assert k < |bs| ==> bs[k].Inside(start, brk);
    }
    forall k: nat {:trigger Apart(r, k)} | k < |r|
      ensures Apart(r, k)
    {
      assert k < |bs| ==> Apart(bs, k) && bs[k].Inside(start, brk);
    }
    forall k: nat {:trigger NextOk(r, k)} | k < |r|
      ensures NextOk(r, k)
    {
      assert k < |bs| ==> NextOk(bs, k);
    }
    forall k: nat {:trigger PrevOk(r, k)} | k < |r|
      ensures PrevOk(r, k)
    {
      assert k < |bs| ==> PrevOk(bs, k);
    }
    forall k: nat {:trigger GoesOn(r, k)} | cur <= k < |r|
      ensures GoesOn(r, k)
    {
      assert k < |bs| ==> GoesOn(bs, k);
    }
  }

  lemma UnlinkAt(bs: seq<Block>)
    requires 2 <= |bs|
    ensures var r := Unlink(bs);
            forall k {:trigger r[k]} :: 0 <= k < |r| ==> r[k] == if k == |bs| - 2 then bs[k].(next := 0) else bs[k]
  {
  }

  lemma UnlinkInv(bs: seq<Block>, start: nat, brk: nat, base: nat, cur: nat)
    requires Inv(bs, start, brk, base, cur) && cur + 2 <= |bs|
    ensures Inv(Unlink(bs), start, brk, base, cur)
  {
    UnlinkAt(bs);
    hide Unlink;
    var r := Unlink(bs);
    forall k {:trigger r[k].Inside(start, brk)} | 0 <= k < |r|
      ensures r[k].Inside(start, brk)
    {
      assert bs[k].Inside(start, brk);
    }
    forall k: nat {:trigger Apart(r, k)} | k < |r|
      ensures Apart(r, k)
    {
      assert Apart(bs, k);
    }
    forall k: nat {:trigger NextOk(r, k)} | k < |r|
      ensures NextOk(r, k)
    {
      assert NextOk(bs, k);
    }
    forall k: nat {:trigger PrevOk(r, k)} | k < |r|
      ensures PrevOk(r, k)
    {
      assert PrevOk(bs, k);
    }
    forall k: nat {:trigger GoesOn(r, k)} | cur <= k < |r|
      ensures GoesOn(r, k)
    {
      assert GoesOn(bs, k);
    }
  }

  lemma GiveUpInv(bs: seq<Block>, start: nat, brk: nat, base: nat, cur: nat)
    requires Inv(bs, start, brk, base, cur)
    ensures Inv(bs, start, brk, 0, |bs|)
  {
    if 0 < |bs| {
      assert NextOk(bs, |bs| - 1);
    }
  }
}
