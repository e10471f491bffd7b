/**
 The kernel heap (src/kmem/kmalloc.c, kfree.c and krealloc.c). Headers live among the data in
 one byte array; the callers' view is a map from pointers to the bytes behind them.
 */
module Heap {
  import opened Arith
  import opened HeapMemory
  import opened HeapList

  const HEAP_SIZE: nat := 16 * 1024 * 1024
  const NULL: nat := 0

  /** The header in memory is that of the block. */
  ghost predicate HeaderIs(m: Mem, b: Block) {
    && m.Holds(b.at, META_BLOCK_SIZE)
    && ReadHeader(m, b.at) == Header(if b.free then 1 else 0, b.size, b.next, b.prev, b.Data())
  }

  ghost predicate HeadersAre(m: Mem, bs: seq<Block>) {
    forall i {:trigger HeaderIs(m, bs[i])} :: 0 <= i < |bs| ==> HeaderIs(m, bs[i])
  }

  /** Two headers that do not overlap. */
  ghost predicate Clear(a: nat, b: nat) {
    a + META_BLOCK_SIZE <= b || b + META_BLOCK_SIZE <= a
  }

  ghost predicate HeadersApart(bs: seq<Block>) {
    forall i, k {:trigger Clear(bs[i].at, bs[k].at)} :: 0 <= i < |bs| && 0 <= k < |bs| && i != k ==>
      Clear(bs[i].at, bs[k].at)
  }

  lemma SpacedHeaders(bs: seq<Block>, start: nat, brk: nat)
    requires Spaced(bs, start, brk)
    ensures HeadersApart(bs)
  {
    forall i, k | 0 <= i < |bs| && 0 <= k < |bs| && i != k
      ensures Clear(bs[i].at, bs[k].at)
    {
      if i < k {
        SpacedPair(bs, start, brk, i, k);
      } else {
        SpacedPair(bs, start, brk, k, i);
      }
    }
  }

  /** Rewriting one header leaves the others as they were. */
  lemma HeaderUpdated(m: Mem, m': Mem, bs: seq<Block>, i: nat, b: Block)
    requires HeadersAre(m, bs) && HeadersApart(bs) && i < |bs| && b.at == bs[i].at
    requires SameOutside(m, m', b.at, META_BLOCK_SIZE) && HeaderIs(m', b)
    ensures HeadersAre(m', bs[i := b]) && HeadersApart(bs[i := b])
  {
    hide ReadHeader;
    var r := bs[i := b];
    forall k {:trigger HeaderIs(m', r[k])} | 0 <= k < |r|
      ensures HeaderIs(m', r[k])
    {
      if k != i {
        assert Clear(bs[i].at, bs[k].at) && HeaderIs(m, bs[k]);
        HeaderKept(m, m', b.at, META_BLOCK_SIZE, bs[k].at);
      }
    }
    forall j, k {:trigger Clear(r[j].at, r[k].at)} | 0 <= j < |r| && 0 <= k < |r| && j != k
      ensures Clear(r[j].at, r[k].at)
    {
      assert Clear(bs[j].at, bs[k].at);
    }
  }

  lemma HeaderInserted(m: Mem, m': Mem, bs: seq<Block>, i: nat, b: Block)
    requires HeadersAre(m, bs) && HeadersApart(bs) && i <= |bs|
    requires SameOutside(m, m', b.at, META_BLOCK_SIZE) && HeaderIs(m', b)
    requires forall k {:trigger Clear(bs[k].at, b.at)} :: 0 <= k < |bs| ==> Clear(bs[k].at, b.at)
    ensures HeadersAre(m', bs[..i] + [b] + bs[i..]) && HeadersApart(bs[..i] + [b] + bs[i..])
  {
    hide ReadHeader;
    var r := bs[..i] + [b] + bs[i..];
    forall k {:trigger HeaderIs(m', r[k])} | 0 <= k < |r|
      ensures HeaderIs(m', r[k])
    {
      if k != i {
        var k' := if k < i then k else k - 1;
        assert r[k] == bs[k'];
        assert Clear(bs[k'].at, b.at) && HeaderIs(m, bs[k']);
        HeaderKept(m, m', b.at, META_BLOCK_SIZE, bs[k'].at);
      }
    }
    forall j, k {:trigger Clear(r[j].at, r[k].at)} | 0 <= j < |r| && 0 <= k < |r| && j != k
      ensures Clear(r[j].at, r[k].at)
    {
      var j', k' := if j < i then j else j - 1, if k < i then k else k - 1;
      assert j != i ==> r[j] == bs[j'] && Clear(bs[j'].at, b.at);
      assert k != i ==> r[k] == bs[k'] && Clear(bs[k'].at, b.at);
      assert j != i && k != i ==> Clear(bs[j'].at, bs[k'].at);
    }
  }

  /** A place for a header inside the data of block `i`, or after all blocks, clears every header. */
  lemma InsideClear(bs: seq<Block>, start: nat, brk: nat, i: nat, h: nat)
    requires Spaced(bs, start, brk) && i <= |bs|
    requires if i < |bs| then bs[i].Data() <= h && h + META_BLOCK_SIZE <= bs[i].End() else brk <= h
    ensures forall k {:trigger Clear(bs[k].at, h)} :: 0 <= k < |bs| ==> Clear(bs[k].at, h)
  {
    forall k {:trigger Clear(bs[k].at, h)} | 0 <= k < |bs|
      ensures Clear(bs[k].at, h)
    {
      assert bs[k].Inside(start, brk);
      if k < i < |bs| {
        SpacedPair(bs, start, brk, k, i);
      } else if i < k {
        SpacedPair(bs, start, brk, i, k);
      }
    }
  }

  lemma HeaderRemoved(m: Mem, bs: seq<Block>, i: nat)
    requires HeadersAre(m, bs) && HeadersApart(bs) && i < |bs|
    ensures HeadersAre(m, bs[..i] + bs[i + 1..]) && HeadersApart(bs[..i] + bs[i + 1..])
  {
    hide ReadHeader;
    var r := bs[..i] + bs[i + 1..];
    forall k {:trigger HeaderIs(m, r[k])} | 0 <= k < |r|
      ensures HeaderIs(m, r[k])
    {
      assert HeaderIs(m, bs[if k < i then k else k + 1]);
    }
    forall j, k {:trigger Clear(r[j].at, r[k].at)} | 0 <= j < |r| && 0 <= k < |r| && j != k
      ensures Clear(r[j].at, r[k].at)
    {
      assert Clear(bs[if j < i then j else j + 1].at, bs[if k < i then k else k + 1].at);
    }
  }

  lemma WithinHeader(m: Mem, m': Mem, h: nat, offset: nat, n: nat)
    requires SameOutside(m, m', h + offset, n) && offset + n <= META_BLOCK_SIZE
    ensures SameOutside(m, m', h, META_BLOCK_SIZE)
  {
  }

  lemma SameTrans(m0: Mem, m1: Mem, m2: Mem, h: nat)
    requires SameOutside(m0, m1, h, META_BLOCK_SIZE) && SameOutside(m1, m2, h, META_BLOCK_SIZE)
    ensures SameOutside(m0, m2, h, META_BLOCK_SIZE)
  {
  }

  /** The block at index `i` is in use and its `n` bytes of data are at `p`. */
  ghost predicate InUse(bs: seq<Block>, i: int, p: nat, n: nat) {
    0 <= i < |bs| && bs[i].Data() == p && !bs[i].free && bs[i].size == n
  }

  /** Every pointer the callers hold is the data of a block in use. */
  ghost predicate Owned(bs: seq<Block>, contents: map<nat, seq<octet>>) {
    forall p :: p in contents ==> exists i :: InUse(bs, i, p, |contents[p]|)
  }

  /** The bytes behind a pointer. */
  ghost predicate DataIs(m: Mem, p: nat, c: seq<octet>) {
    m.Holds(p, |c|) && m.Slice(p, |c|) == c
  }

  ghost predicate Stored(m: Mem, contents: map<nat, seq<octet>>) {
    forall p {:trigger p in contents} :: p in contents ==> DataIs(m, p, contents[p])
  }

  /** The `META_BLOCK_SIZE` bytes at `h` are not behind any pointer the callers hold. */
  ghost predicate Away(h: nat, contents: map<nat, seq<octet>>) {
    forall p {:trigger p in contents} :: p in contents ==> p + |contents[p]| <= h || h + META_BLOCK_SIZE <= p
  }

  lemma StoredKept(m: Mem, m': Mem, h: nat, contents: map<nat, seq<octet>>)
    requires Stored(m, contents) && SameOutside(m, m', h, META_BLOCK_SIZE) && Away(h, contents)
    ensures Stored(m', contents)
  {
    forall p {:trigger p in contents} | p in contents
      ensures DataIs(m', p, contents[p])
    {
      assert DataIs(m, p, contents[p]);
      SliceKept(m, m', h, META_BLOCK_SIZE, p, |contents[p]|);
    }
  }

  /** No header of the list is behind a pointer the callers hold. */
  lemma OwnedAway(bs: seq<Block>, start: nat, brk: nat, contents: map<nat, seq<octet>>, k: nat)
    requires Spaced(bs, start, brk) && Owned(bs, contents) && k < |bs|
    ensures Away(bs[k].at, contents)
  {
    forall p {:trigger p in contents} | p in contents
      ensures p + |contents[p]| <= bs[k].at || bs[k].at + META_BLOCK_SIZE <= p
    {
      var i :| InUse(bs, i, p, |contents[p]|);
      if i < k {
        SpacedPair(bs, start, brk, i, k);
      } else if k < i {
        SpacedPair(bs, start, brk, k, i);
      }
    }
  }

  /** Neither is any place inside a block that is not in use. */
  lemma UnusedAway(bs: seq<Block>, start: nat, brk: nat, contents: map<nat, seq<octet>>, k: nat, h: nat)
    requires Spaced(bs, start, brk) && Owned(bs, contents) && k < |bs|
    requires bs[k].Data() <= h && h + META_BLOCK_SIZE <= bs[k].End()
    requires bs[k].Data() in contents ==> bs[k].Data() + |contents[bs[k].Data()]| <= h
    ensures Away(h, contents)
  {
    forall p {:trigger p in contents} | p in contents
      ensures p + |contents[p]| <= h || h + META_BLOCK_SIZE <= p
    {
      var i :| InUse(bs, i, p, |contents[p]|);
      if i < k {
        SpacedPair(bs, start, brk, i, k);
      } else if k < i {
        SpacedPair(bs, start, brk, k, i);
      }
    }
  }

  lemma AwayAfterSplit(bs: seq<Block>, contents: map<nat, seq<octet>>, i: nat, s: nat)
    requires i < |bs| && s + META_BLOCK_SIZE <= bs[i].size && (bs[i].next != 0 ==> i + 1 < |bs|)
    requires forall k {:trigger Away(bs[k].at, contents)} :: 0 <= k < |bs| ==> Away(bs[k].at, contents)
    requires Away(bs[i].Data() + s, contents)
    ensures var r := Split(bs, i, s);
            forall k {:trigger Away(r[k].at, contents)} :: 0 <= k < |r| ==> Away(r[k].at, contents)
  {
    hide Away, Split;
    SplitAt(bs, i, s);
    var r := Split(bs, i, s);
    forall k {:trigger Away(r[k].at, contents)} | 0 <= k < |r|
      ensures Away(r[k].at, contents)
    {
      assert k <= i ==> Away(bs[k].at, contents);
      assert i + 1 < k ==> Away(bs[k - 1].at, contents);
    }
  }

  lemma AwayAfterAbsorb(bs: seq<Block>, contents: map<nat, seq<octet>>, i: nat)
    requires i + 1 < |bs| && (bs[i + 1].next != 0 ==> i + 2 < |bs|)
    requires forall k {:trigger Away(bs[k].at, contents)} :: 0 <= k < |bs| ==> Away(bs[k].at, contents)
    ensures var r := Absorb(bs, i);
            forall k {:trigger Away(r[k].at, contents)} :: 0 <= k < |r| ==> Away(r[k].at, contents)
  {
    hide Away, Absorb;
    AbsorbAt(bs, i);
    var r := Absorb(bs, i);
    forall k {:trigger Away(r[k].at, contents)} | 0 <= k < |r|
      ensures Away(r[k].at, contents)
    {
      assert k <= i ==> Away(bs[k].at, contents);
      assert i < k ==> Away(bs[k + 1].at, contents);
    }
  }

  lemma AddressPositive(bs: seq<Block>, start: nat, brk: nat, i: nat)
    requires Spaced(bs, start, brk) && 0 < start
    ensures i < |bs| ==> 0 < bs[i].at
  {
    if i < |bs| {
      assert bs[i].Inside(start, brk);
    }
  }

  /** A new header at the break is behind no pointer. */
  lemma BreakAway(bs: seq<Block>, start: nat, brk: nat, contents: map<nat, seq<octet>>)
    requires Spaced(bs, start, brk) && Owned(bs, contents)
    ensures Away(brk, contents)
  {
    forall p {:trigger p in contents} | p in contents
      ensures p + |contents[p]| <= brk
    {
      var i :| InUse(bs, i, p, |contents[p]|);
      assert bs[i].Inside(start, brk);
    }
  }

  lemma ExtendCarried(bs: seq<Block>, brk: nat, s: nat, linked: bool)
    requires linked ==> bs != []
    ensures Carried(bs, Extend(bs, brk, s, linked), -1, k => k)
  {
    ExtendAt(bs, brk, s, linked);
  }

  /** Blocks in use, all but `skip`, are found again in the list `r`, block `k` at `f(k)`. */
  ghost predicate Carried(bs: seq<Block>, r: seq<Block>, skip: int, f: nat -> nat) {
    forall k: nat {:trigger f(k)} :: k < |bs| && k != skip && !bs[k].free ==>
      f(k) < |r| && r[f(k)].at == bs[k].at && r[f(k)].size == bs[k].size && !r[f(k)].free
  }

  lemma OwnedCarried(bs: seq<Block>, r: seq<Block>, skip: int, f: nat -> nat, contents: map<nat, seq<octet>>)
    requires Owned(bs, contents) && Carried(bs, r, skip, f)
    requires 0 <= skip < |bs| ==> bs[skip].Data() !in contents
    ensures Owned(r, contents)
  {
    forall p | p in contents
      ensures exists i :: InUse(r, i, p, |contents[p]|)
    {
      var k :| InUse(bs, k, p, |contents[p]|);
      assert InUse(r, f(k), p, |contents[p]|);
    }
  }

  /** A pointer the callers hold is never that of a free block. */
  lemma FreeNotOwned(bs: seq<Block>, start: nat, brk: nat, contents: map<nat, seq<octet>>, i: nat)
    requires Spaced(bs, start, brk) && Owned(bs, contents) && i < |bs| && bs[i].free
    ensures bs[i].Data() !in contents
  {
    var p := bs[i].Data();
    if p in contents {
      var k :| InUse(bs, k, p, |contents[p]|);
      if i < k {
        SpacedPair(bs, start, brk, i, k);
      } else if k < i {
        SpacedPair(bs, start, brk, k, i);
      }
    }
  }

  lemma OwnedRelabelled(bs: seq<Block>, r: seq<Block>, skip: int, contents: map<nat, seq<octet>>)
    requires Owned(bs, contents) && |r| == |bs|
    requires forall k {:trigger r[k]} :: 0 <= k < |bs| && k != skip ==>
      r[k].at == bs[k].at && r[k].size == bs[k].size && r[k].free == bs[k].free
    requires 0 <= skip < |bs| ==> bs[skip].Data() !in contents
    ensures Owned(r, contents)
  {
    OwnedCarried(bs, r, skip, k => k, contents);
  }

  lemma UnlinkCarried(bs: seq<Block>)
    requires 2 <= |bs|
    ensures Carried(bs, Unlink(bs), |bs| - 1, k => k)
  {
    UnlinkAt(bs);
  }

  lemma SplitCarried(bs: seq<Block>, i: nat, s: nat)
    requires i < |bs| && s + META_BLOCK_SIZE <= bs[i].size && (bs[i].next != 0 ==> i + 1 < |bs|)
    ensures Carried(bs, Split(bs, i, s), i, k => if k <= i then k else k + 1)
  {
    SplitAt(bs, i, s);
  }

  lemma AbsorbCarried(bs: seq<Block>, i: nat)
    requires i + 1 < |bs| && (bs[i + 1].next != 0 ==> i + 2 < |bs|) && bs[i + 1].free
    ensures Carried(bs, Absorb(bs, i), i, k => if k <= i then k else k - 1)
  {
    AbsorbAt(bs, i);
  }

  /** `align4`, in 64-bit arithmetic. */
  function Align4(x: nat): (s: nat)
    requires x < WORD
  {
    ((x + WORD - 1) % WORD / 4 * 4 + 4) % WORD
  }

  /** The size a request comes to before the arithmetic wraps. */
  function RoundUp4(x: nat): (s: nat)
    ensures x <= s < x + 4 && s % 4 == 0
  {
    (x + 3) / 4 * 4
  }

  lemma Align4RoundsUp(x: nat)
    requires x < WORD
    ensures Align4(x) == RoundUp4(x) % WORD
  {
    if x == 0 {
      assert (0 + WORD - 1) % WORD == WORD - 1;
    } else {
      assert (x + WORD - 1) % WORD == x - 1;
    }
  }

  lemma OwnedPlus(bs: seq<Block>, i: nat, contents: map<nat, seq<octet>>, c: seq<octet>)
    requires Owned(bs, contents) && i < |bs| && !bs[i].free && |c| == bs[i].size
    ensures Owned(bs, contents[bs[i].Data() := c])
  {
    var p := bs[i].Data();
    assert InUse(bs, i, p, |c|);
  }

  lemma StoredMinus(m: Mem, contents: map<nat, seq<octet>>, p: nat)
    requires Stored(m, contents)
    ensures Stored(m, contents - {p})
  {
  }

  lemma OwnedMinus(bs: seq<Block>, contents: map<nat, seq<octet>>, p: nat)
    requires Owned(bs, contents)
    ensures Owned(bs, contents - {p})
  {
    forall q | q in contents - {p}
      ensures exists i :: InUse(bs, i, q, |(contents - {p})[q]|)
    {
      var i :| InUse(bs, i, q, |contents[q]|);
      assert InUse(bs, i, q, |(contents - {p})[q]|);
    }
  }

  /** Merging a free block with a freed successor leaves a free block in the same place. */
  lemma MergedIntoPrev(bs: seq<Block>, b: nat)
    requires 0 < b < |bs| && bs[b - 1].next != 0 && bs[b].free && bs[b - 1].free
    requires bs[b].next != 0 ==> b + 1 < |bs|
    ensures var r := Merge(bs, b - 1);
            b - 1 < |r| && r[b - 1].at == bs[b - 1].at && r[b - 1].free
  {
    AbsorbAt(bs, b - 1);
  }

  /** A request is rounded up, not down, exactly when it is not one of the three largest numbers. */
  lemma Align4Covers(size: nat)
    requires size < WORD
    ensures Align4(size) >= size <==> size <= WORD - 4
    ensures Align4(WORD - 1) == 0
  {
    hide Align4, RoundUp4;
    Align4RoundsUp(size);
    Align4RoundsUp(WORD - 1);
  }

  /** The number of bytes `extend_heap` asks `sbrk` for. */
  function Asked(size: nat): (n: nat)
    requires size < WORD
  {
    (META_BLOCK_SIZE + Align4(size)) % WORD
  }

  /** `sbrk` grants a request when the new break, as a 64-bit number, is not past the end. */
  predicate Granted(brk: nat, end: nat, n: nat) {
    n == 0 || (brk + n) % WORD <= end
  }

  /**
   What `sbrk` grants covers header and data exactly when the sizes add up without wrapping; or
   they wrap, and what is left of them does not fit either.
   */
  lemma GrantCovers(brk: nat, end: nat, size: nat)
    requires size < WORD && brk <= end && end + HEAP_SIZE + 2 * META_BLOCK_SIZE <= WORD
    ensures (Granted(brk, end, Asked(size)) ==> brk + META_BLOCK_SIZE + size <= (brk + Asked(size)) % WORD <= end)
       <==> (brk + META_BLOCK_SIZE + RoundUp4(size) < WORD ||
             (Asked(size) != 0 && brk + Asked(size) > end && META_BLOCK_SIZE + RoundUp4(size) >= WORD))
  {
    hide Align4, RoundUp4;
    Align4RoundsUp(size);
    var s, n := RoundUp4(size), Asked(size);
    if META_BLOCK_SIZE + s < WORD {
      assert n == META_BLOCK_SIZE + s;
      assert (brk + n) % WORD == if brk + n < WORD then brk + n else brk + n - WORD;
    } else {
      assert n == if s < WORD then META_BLOCK_SIZE + s - WORD else META_BLOCK_SIZE;
      assert (brk + n) % WORD == brk + n;
    }
  }

  /** Cutting what is behind one pointer makes room for a header. */
  lemma CutAway(bs: seq<Block>, start: nat, brk: nat, contents: map<nat, seq<octet>>, i: nat, p: nat, s: nat)
    requires Spaced(bs, start, brk) && Owned(bs, contents) && p in contents && InUse(bs, i, p, |contents[p]|)
    requires s + META_BLOCK_SIZE <= |contents[p]|
    ensures Away(p + s, contents[p := contents[p][..s]])
  {
    var cut := contents[p := contents[p][..s]];
    forall q {:trigger q in cut} | q in cut
      ensures q + |cut[q]| <= p + s || p + s + META_BLOCK_SIZE <= q
    {
      if q != p {
        var k :| InUse(bs, k, q, |contents[q]|);
        if i < k {
          SpacedPair(bs, start, brk, i, k);
        } else if k < i {
          SpacedPair(bs, start, brk, k, i);
        }
      }
    }
  }

  lemma AwayCut(h: nat, contents: map<nat, seq<octet>>, p: nat, s: nat)
    requires Away(h, contents) && p in contents && s <= |contents[p]|
    ensures Away(h, contents[p := contents[p][..s]])
  {
    var cut := contents[p := contents[p][..s]];
    forall q {:trigger q in cut} | q in cut
      ensures q + |cut[q]| <= h || h + META_BLOCK_SIZE <= q
    {
      assert q in contents;
    }
  }

  lemma StoredCut(m: Mem, contents: map<nat, seq<octet>>, p: nat, s: nat)
    requires Stored(m, contents) && p in contents && s <= |contents[p]|
    ensures Stored(m, contents[p := contents[p][..s]])
  {
    assert DataIs(m, p, contents[p]);
    var cut := contents[p := contents[p][..s]];
    SlicePrefix(m, p, |contents[p]|, s);
    assert cut[p] == contents[p][..s] && |cut[p]| == s;
    forall q {:trigger q in cut} | q in cut
      ensures DataIs(m, q, cut[q])
    {
      assert q in contents;
    }
  }

  /** More bytes behind one pointer: what was there is a prefix. */
  lemma Regrant(m: Mem, contents: map<nat, seq<octet>>, p: nat, c: seq<octet>)
    requires Stored(m, contents) && p in contents && |contents[p]| <= |c| && DataIs(m, p, c)
    ensures Stored(m, contents[p := c]) && contents[p] <= c
  {
    assert DataIs(m, p, contents[p]);
    SlicePrefix(m, p, |c|, |contents[p]|);
    var grown := contents[p := c];
    forall q {:trigger q in grown} | q in grown
      ensures DataIs(m, q, grown[q])
    {
      assert q in contents;
    }
  }

  /** The bytes with the one at `k` replaced. */
  function Poke(c: seq<octet>, k: nat, v: octet): (r: seq<octet>)
    requires k < |c|
    ensures |r| == |c|
  {
    c[..k] + [v] + c[k + 1..]
  }

  /** Two blocks apart. */
  lemma BlocksApart(bs: seq<Block>, start: nat, brk: nat, i: nat, j: nat)
    requires Spaced(bs, start, brk) && i < |bs| && j < |bs| && i != j
    ensures bs[i].End() <= bs[j].at || bs[j].End() <= bs[i].at
  {
    if i < j {
      SpacedPair(bs, start, brk, i, j);
    } else {
      SpacedPair(bs, start, brk, j, i);
    }
  }

  lemma PokedData(m: Mem, m': Mem, p: nat, data: seq<octet>, k: nat, v: octet)
    requires DataIs(m, p, data) && k < |data| && SameOutside(m, m', p + k, 1)
    requires m.Holds(p + k, 1) && m'.bytes[p + k - m.start] == v
    ensures DataIs(m', p, Poke(data, k, v))
  {
    SlicePoke(m, m', p, |data|, k, Poke(data, k, v));
  }

  lemma KeptData(m: Mem, m': Mem, a: nat, q: nat, data: seq<octet>)
    requires DataIs(m, q, data) && SameOutside(m, m', a, 1) && (q + |data| <= a || a + 1 <= q)
    ensures DataIs(m', q, data)
  {
    SliceKept(m, m', a, 1, q, |data|);
  }

  /** A byte behind one pointer is in no header and behind no other pointer. */
  lemma ByteWritten(m: Mem, m': Mem, bs: seq<Block>, start: nat, brk: nat, contents: map<nat, seq<octet>>,
                    p: nat, k: nat, v: octet)
    requires Spaced(bs, start, brk) && HeadersAre(m, bs) && Owned(bs, contents) && Stored(m, contents)
    requires p in contents && k < |contents[p]|
    requires SameOutside(m, m', p + k, 1) && m.Holds(p + k, 1) && m'.bytes[p + k - m.start] == v
    ensures HeadersAre(m', bs) && Owned(bs, contents[p := Poke(contents[p], k, v)])
    ensures Stored(m', contents[p := Poke(contents[p], k, v)])
  {
    var i :| InUse(bs, i, p, |contents[p]|);
    hide ReadHeader, SameOutside, Poke, Spaced;
    var after := contents[p := Poke(contents[p], k, v)];
    forall j {:trigger HeaderIs(m', bs[j])} | 0 <= j < |bs|
      ensures HeaderIs(m', bs[j])
    {
      assert HeaderIs(m, bs[j]);
      if i != j {
        BlocksApart(bs, start, brk, i, j);
      }
      HeaderKept(m, m', p + k, 1, bs[j].at);
    }
    hide DataIs;
    forall q | q in after
      ensures exists j :: InUse(bs, j, q, |after[q]|)
      ensures DataIs(m', q, after[q])
    {
      assert DataIs(m, q, contents[q]);
      var j :| InUse(bs, j, q, |contents[q]|);
      assert InUse(bs, j, q, |after[q]|);
      if q == p {
        PokedData(m, m', p, contents[p], k, v);
      } else {
        BlocksApart(bs, start, brk, i, j);
        KeptData(m, m', p + k, q, contents[q]);
      }
    }
  }

  class Heap {
    const start: nat
    /** The heap, and as much of the memory before and after it as a header takes. */
    const mem: array<octet>
    const first: nat
    var brk: nat
    var base: nat
    ghost var blocks: seq<Block>
    ghost var cur: nat
    ghost var contents: map<nat, seq<octet>>

    function M(): Mem
      reads mem
    {
      Mem(first, mem[..])
    }

    /** The array fits its address space with as much room again above it, as a linked kernel has. */
    ghost predicate Placed() {
      start == first + META_BLOCK_SIZE && mem.Length == HEAP_SIZE + 2 * META_BLOCK_SIZE &&
        start + 2 * HEAP_SIZE + 2 * META_BLOCK_SIZE <= WORD
    }

    ghost predicate Valid()
      reads this, mem
    {
      ValidFrom(base)
    }

    /** Valid when `root` is taken for the start of the current chain. */
    ghost predicate ValidFrom(root: nat)
      reads this, mem
    {
      start <= brk <= start + HEAP_SIZE && Listed(root, brk)
    }

    /** The list of blocks up to `top`, wherever the break is, and everything callers hold. */
    ghost predicate Listed(root: nat, top: nat)
      reads this, mem
    {
      && Placed()
      && Inv(blocks, start, top, root, cur)
      && HeadersAre(M(), blocks)
      && Owned(blocks, contents)
      && Stored(M(), contents)
    }

    ghost predicate HeadersAway()
      reads this
    {
      forall k {:trigger Away(blocks[k].at, contents)} :: 0 <= k < |blocks| ==> Away(blocks[k].at, contents)
    }

    /** What holds even while the size behind one pointer is being changed. */
    ghost predicate Sound()
      reads this, mem
    {
      && Placed()
      && start <= brk <= start + HEAP_SIZE
      && Inv(blocks, start, brk, base, cur)
      && HeadersAre(M(), blocks)
      && Stored(M(), contents)
      && HeadersAway()
    }

    lemma ValidSound()
      requires Valid()
      ensures Sound()
    {
      forall k {:trigger Away(blocks[k].at, contents)} | 0 <= k < |blocks|
        ensures Away(blocks[k].at, contents)
      {
        OwnedAway(blocks, start, brk, contents, k);
      }
    }

    /** What soundness says about one block. */
    lemma BlockFacts(i: nat)
      requires Sound() && i < |blocks|
      ensures HeadersApart(blocks) && HeaderIs(M(), blocks[i])
      ensures blocks[i].Inside(start, brk) && Apart(blocks, i) && NextOk(blocks, i) && PrevOk(blocks, i)
      ensures Away(blocks[i].at, contents)
    {
      SpacedHeaders(blocks, start, brk);
      assert HeaderIs(M(), blocks[i]) && blocks[i].Inside(start, brk);
      assert Apart(blocks, i) && NextOk(blocks, i) && PrevOk(blocks, i);
    }

    // -----------------------------------------------------------------------
    // Memory access

    method Store(a: nat, n: nat, v: nat)
      requires M().Holds(a, n)
      modifies mem
      ensures M() == old(M()).Store(a, n, v)
    {
      ghost var bytes := LeBytes(v, n);
      var at, i, x := a - first, 0, v;
      while i < n
        invariant 0 <= i <= n
        invariant bytes[i..] == LeBytes(x, n - i)
        invariant forall k {:trigger mem[k]} :: 0 <= k < mem.Length ==>
          mem[k] == if at <= k < at + i then bytes[k - at] else old(mem[k])
      {
        mem[at + i] := x % 256;
        assert bytes[i] == bytes[i..][0] == x % 256;
        assert bytes[i + 1..] == bytes[i..][1..] == LeBytes(x / 256, n - i - 1);
        i, x := i + 1, x / 256;
      }
      assert mem[..] == old(M()).Put(a, bytes).bytes;
    }

    method SetFree(h: nat, v: bool, ghost i: nat)
      requires Placed() && HeadersAre(M(), blocks) && HeadersApart(blocks)
      requires i < |blocks| && blocks[i].at == h
      requires Stored(M(), contents) && Away(h, contents)
      modifies mem, `blocks
      ensures blocks == old(blocks)[i := old(blocks)[i].(free := v)]
      ensures HeadersAre(M(), blocks) && HeadersApart(blocks)
      ensures Stored(M(), contents)
    {
      hide ReadHeader, Mem.Store, SameOutside;
      ghost var m := M();
      assert HeaderIs(m, blocks[i]);
      StoreHeader(m, h, (if v then 1 else 0));
      StoreOutside(m, h, 4, (if v then 1 else 0));
      Store(h, 4, (if v then 1 else 0));
      WithinHeader(m, M(), h, 0, 4);
      HeaderUpdated(m, M(), blocks, i, blocks[i].(free := v));
      StoredKept(m, M(), h, contents);
      blocks := blocks[i := blocks[i].(free := v)];
    }

    method SetSize(h: nat, v: nat, ghost i: nat)
      requires Placed() && HeadersAre(M(), blocks) && HeadersApart(blocks) && v < WORD
      requires i < |blocks| && blocks[i].at == h
      requires Stored(M(), contents) && Away(h, contents)
      modifies mem, `blocks
      ensures blocks == old(blocks)[i := old(blocks)[i].(size := v)]
      ensures HeadersAre(M(), blocks) && HeadersApart(blocks)
      ensures Stored(M(), contents)
    {
      hide ReadHeader, Mem.Store, SameOutside;
      ghost var m := M();
      assert HeaderIs(m, blocks[i]);
      StoreHeader(m, h, v);
      StoreOutside(m, h + 8, 8, v);
      Store(h + 8, 8, v);
      WithinHeader(m, M(), h, 8, 8);
      HeaderUpdated(m, M(), blocks, i, blocks[i].(size := v));
      StoredKept(m, M(), h, contents);
      blocks := blocks[i := blocks[i].(size := v)];
    }

    method SetNext(h: nat, v: nat, ghost i: nat)
      requires Placed() && HeadersAre(M(), blocks) && HeadersApart(blocks) && v < WORD
      requires i < |blocks| && blocks[i].at == h
      requires Stored(M(), contents) && Away(h, contents)
      modifies mem, `blocks
      ensures blocks == old(blocks)[i := old(blocks)[i].(next := v)]
      ensures HeadersAre(M(), blocks) && HeadersApart(blocks)
      ensures Stored(M(), contents)
    {
      hide ReadHeader, Mem.Store, SameOutside;
      ghost var m := M();
      assert HeaderIs(m, blocks[i]);
      StoreHeader(m, h, v);
      StoreOutside(m, h + 16, 8, v);
      Store(h + 16, 8, v);
      WithinHeader(m, M(), h, 16, 8);
      HeaderUpdated(m, M(), blocks, i, blocks[i].(next := v));
      StoredKept(m, M(), h, contents);
      blocks := blocks[i := blocks[i].(next := v)];
    }

    method SetPrev(h: nat, v: nat, ghost i: nat)
      requires Placed() && HeadersAre(M(), blocks) && HeadersApart(blocks) && v < WORD
      requires i < |blocks| && blocks[i].at == h
      requires Stored(M(), contents) && Away(h, contents)
      modifies mem, `blocks
      ensures blocks == old(blocks)[i := old(blocks)[i].(prev := v)]
      ensures HeadersAre(M(), blocks) && HeadersApart(blocks)
      ensures Stored(M(), contents)
    {
      hide ReadHeader, Mem.Store, SameOutside;
      ghost var m := M();
      assert HeaderIs(m, blocks[i]);
      StoreHeader(m, h, v);
      StoreOutside(m, h + 24, 8, v);
      Store(h + 24, 8, v);
      WithinHeader(m, M(), h, 24, 8);
      HeaderUpdated(m, M(), blocks, i, blocks[i].(prev := v));
      StoredKept(m, M(), h, contents);
      blocks := blocks[i := blocks[i].(prev := v)];
    }

    /** Fills in the header of a new block. */
    method InitHeader(b: Block)
      requires Placed() && M().Holds(b.at, META_BLOCK_SIZE)
      requires b.size < WORD && b.next < WORD && b.prev < WORD && b.Data() < WORD
      requires Stored(M(), contents) && Away(b.at, contents)
      modifies mem
      ensures HeaderIs(M(), b) && Stored(M(), contents)
      ensures SameOutside(old(M()), M(), b.at, META_BLOCK_SIZE)
    {
      hide ReadHeader, Mem.Store, SameOutside;
      var h := b.at;
      ghost var m0 := M();
      StoreHeader(m0, h, b.size);
      StoreOutside(m0, h + 8, 8, b.size);
      Store(h + 8, 8, b.size);
      ghost var m1 := M();
      StoreHeader(m1, h, b.next);
      StoreOutside(m1, h + 16, 8, b.next);
      Store(h + 16, 8, b.next);
      ghost var m2 := M();
      StoreHeader(m2, h, if b.free then 1 else 0);
      StoreOutside(m2, h, 4, if b.free then 1 else 0);
      Store(h, 4, if b.free then 1 else 0);
      ghost var m3 := M();
      StoreHeader(m3, h, b.Data());
      StoreOutside(m3, h + 32, 8, b.Data());
      Store(h + 32, 8, b.Data());
      ghost var m4 := M();
      StoreHeader(m4, h, b.prev);
      StoreOutside(m4, h + 24, 8, b.prev);
      Store(h + 24, 8, b.prev);
      WithinHeader(m0, m1, h, 8, 8);
      WithinHeader(m1, m2, h, 16, 8);
      WithinHeader(m2, m3, h, 0, 4);
      WithinHeader(m3, m4, h, 32, 8);
      WithinHeader(m4, M(), h, 24, 8);
      SameTrans(m0, m1, m2, h);
      SameTrans(m0, m2, m3, h);
      SameTrans(m0, m3, m4, h);
      SameTrans(m0, m4, M(), h);
      StoredKept(m0, M(), h, contents);
    }

    // -----------------------------------------------------------------------
    // Cutting and joining blocks

    lemma SplitFacts(i: nat, s: nat, cut: nat)
      requires Sound() && i < |blocks| && s + META_BLOCK_SIZE <= blocks[i].size
      requires cut == blocks[i].Data() + s && Away(cut, contents)
      ensures NextOk(blocks, i)
      ensures Inv(Split(blocks, i, s), start, brk, base, if i < cur then cur + 1 else cur)
      ensures var r := Split(blocks, i, s);
              forall k {:trigger Away(r[k].at, contents)} :: 0 <= k < |r| ==> Away(r[k].at, contents)
      ensures forall k {:trigger Clear(blocks[k].at, cut)} :: 0 <= k < |blocks| ==> Clear(blocks[k].at, cut)
      ensures blocks[i].next != 0 ==> blocks[i].next < WORD && Away(blocks[i].next, contents)
    {
      SplitInv(blocks, start, brk, base, cur, i, s);
      InsideClear(blocks, start, brk, i, cut);
      AwayAfterSplit(blocks, contents, i, s);
      if i + 1 < |blocks| {
        BlockFacts(i + 1);
      }
    }

    /** `split` */
    method SplitBlock(h: nat, s: nat, ghost i: nat)
      requires Sound() && i < |blocks| && blocks[i].at == h && s + META_BLOCK_SIZE <= blocks[i].size
      requires Away(h + META_BLOCK_SIZE + s, contents)
      modifies mem, `blocks, `cur
      ensures Sound()
      ensures NextOk(old(blocks), i) && blocks == Split(old(blocks), i, s)
    {
      hide ReadHeader, Inv, HeadersAre, Stored, Away, HeadersApart, SameOutside;
      ghost var bs, m := blocks, M();
      BlockFacts(i);
      var cut := h + META_BLOCK_SIZE + s;
      SplitFacts(i, s, cut);
      var hd := ReadHeader(M(), h);
      var newblock := Block(cut, true, hd.size - s - META_BLOCK_SIZE, hd.next, h);
      InitHeader(newblock);
      HeaderInserted(m, M(), bs, i + 1, newblock);
      blocks := bs[..i + 1] + [newblock] + bs[i + 1..];
      SetNext(h, newblock.at, i);
      SetSize(h, s, i);
      if hd.next != NULL {
        SetPrev(hd.next, newblock.at, i + 2);
      }
      cur := if i < cur then cur + 1 else cur;
      assert blocks == Split(bs, i, s);
    }

    lemma AbsorbFacts(i: nat)
      requires Sound() && i < |blocks| && blocks[i].next != 0
      ensures NextOk(blocks, i) && NextOk(blocks, i + 1)
      ensures Inv(Absorb(blocks, i), start, brk, base, if i < cur then cur - 1 else cur)
      ensures var r := Absorb(blocks, i);
              forall k {:trigger Away(r[k].at, contents)} :: 0 <= k < |r| ==> Away(r[k].at, contents)
      ensures HeaderIs(M(), blocks[i + 1]) && blocks[i].End() <= blocks[i + 1].at && blocks[i + 1].Inside(start, brk)
      ensures blocks[i + 1].next != 0 ==> blocks[i + 1].next < WORD && Away(blocks[i + 1].next, contents)
    {
      hide Inv, Away, Absorb, ReadHeader, Stored, HeadersAre, HeadersApart;
      AbsorbInv(blocks, start, brk, base, cur, i);
      AwayAfterAbsorb(blocks, contents, i);
      BlockFacts(i);
      BlockFacts(i + 1);
      if i + 2 < |blocks| {
        BlockFacts(i + 2);
      }
    }

    /** The block at `h` takes over its neighbour (src/kmem/kfree.c:7-12, src/kmem/krealloc.c:30-37). */
    method AbsorbNext(h: nat, ghost i: nat)
      requires Sound() && i < |blocks| && blocks[i].at == h && blocks[i].next != 0
      modifies mem, `blocks, `cur
      ensures Sound()
      ensures NextOk(old(blocks), i) && NextOk(old(blocks), i + 1) && blocks == Absorb(old(blocks), i)
      ensures cur == if i < old(cur) then old(cur) - 1 else old(cur)
    {
      hide ReadHeader, Inv, HeadersAre, Stored, Away, HeadersApart, SameOutside;
      ghost var bs := blocks;
      BlockFacts(i);
      AbsorbFacts(i);
      var hd := ReadHeader(M(), h);
      var next := ReadHeader(M(), hd.next);
      SetSize(h, hd.size + META_BLOCK_SIZE + next.size, i);
      SetNext(h, next.next, i);
      HeaderRemoved(M(), blocks, i + 1);
      blocks := blocks[..i + 1] + blocks[i + 2..];
      if next.next != NULL {
        SetPrev(next.next, h, i + 1);
      }
      cur := if i < cur then cur - 1 else cur;
      assert blocks == Absorb(bs, i);
    }

    lemma FreeUnheld(i: nat)
      requires Valid() && i < |blocks| && blocks[i].free
      ensures blocks[i].Data() !in contents
    {
      FreeNotOwned(blocks, start, brk, contents, i);
    }

    /** `merge_blocks` */
    method MergeBlocks(h: nat, ghost i: nat)
      requires Valid() && i < |blocks| && blocks[i].at == h && blocks[i].free
      modifies mem, `blocks, `cur
      ensures Valid()
      ensures NextOk(old(blocks), i) && (i + 1 < |old(blocks)| ==> NextOk(old(blocks), i + 1))
      ensures blocks == Merge(old(blocks), i)
      ensures old(cur) <= i ==> cur == old(cur)
    {
      hide ReadHeader, Inv, HeadersAre, Stored, Away, HeadersApart, SameOutside, Owned, Carried, Absorb;
      ValidSound();
      BlockFacts(i);
      ghost var bs := blocks;
      if i + 1 < |bs| {
        BlockFacts(i + 1);
      }
      var hd := ReadHeader(M(), h);
      if hd.next != NULL {
        if ReadHeader(M(), hd.next).free != 0 {
          FreeUnheld(i);
          AbsorbNext(h, i);
          AbsorbCarried(bs, i);
          OwnedCarried(bs, blocks, i, k => if k <= i then k else k - 1, contents);
        } else {
          RelinkInv(bs, start, brk, base, cur, i);
          SetPrev(hd.next, h, i + 1);
          OwnedRelabelled(bs, blocks, -1, contents);
        }
      }
    }

    // -----------------------------------------------------------------------
    // Walking the chain and moving the break

    /** Where the chain goes from block `i`. */
    lemma ChainStep(i: nat)
      requires Sound() && base != 0 && cur <= i < |blocks|
      ensures HeaderIs(M(), blocks[i]) && 0 < blocks[i].at && blocks[cur].at == base
      ensures blocks[i].next == if i + 1 < |blocks| then blocks[i + 1].at else 0
    {
      BlockFacts(i);
      assert GoesOn(blocks, i);
    }

    /** `find_block`: the first free block of the chain with room for `s` bytes, and the last one passed. */
    method FindBlock(s: nat) returns (b: nat, last: nat, ghost i: nat)
      requires Sound() && base != 0
      ensures cur <= i <= |blocks|
      ensures forall k {:trigger blocks[k]} :: cur <= k < i ==> !(blocks[k].free && s <= blocks[k].size)
      ensures i < |blocks| ==> b == blocks[i].at != 0 && blocks[i].free && s <= blocks[i].size
      ensures i == |blocks| ==> b == 0 && last == blocks[|blocks| - 1].at
      ensures b == 0 <==>
              forall k {:trigger blocks[k]} :: cur <= k < |blocks| ==> !(blocks[k].free && s <= blocks[k].size)
    {
      hide ReadHeader, Inv, HeadersAre, Stored, Away;
      b, last, i := base, base, cur;
      RootFacts();
      while b != NULL && (ReadHeader(M(), b).free == 0 || ReadHeader(M(), b).size < s)
        invariant cur <= i <= |blocks|
        invariant b == if i < |blocks| then blocks[i].at else 0
        invariant i < |blocks| ==> b != 0 && HeaderIs(M(), blocks[i])
        invariant i > cur ==> last == blocks[i - 1].at
        invariant i == cur ==> cur < |blocks|
        invariant forall k {:trigger blocks[k]} :: cur <= k < i ==> !(blocks[k].free && s <= blocks[k].size)
        decreases |blocks| - i
      {
        last := b;
        b := ReadHeader(M(), b).next;
        ChainStep(i);
        i := i + 1;
        if i < |blocks| {
          ChainStep(i);
        }
      }
    }

    lemma RootFacts()
      requires Sound() && base != 0
      ensures cur < |blocks| && blocks[cur].at == base && HeaderIs(M(), blocks[cur])
    {
      BlockFacts(cur);
    }

    /** `get_last_block` */
    method GetLastBlock() returns (b: nat)
      requires Sound()
      ensures base == 0 ==> b == 0
      ensures base != 0 ==> cur < |blocks| && b == blocks[|blocks| - 1].at
    {
      hide ReadHeader, Inv, HeadersAre, Stored, Away;
      b := base;
      if base != 0 {
        RootFacts();
        ChainStep(cur);
      }
      ghost var i := cur;
      while b != NULL && ReadHeader(M(), b).next != NULL
        invariant base == 0 ==> b == 0
        invariant base != 0 ==> cur <= i < |blocks| && b == blocks[i].at && HeaderIs(M(), blocks[i]) && b != 0
        invariant base != 0 ==> blocks[i].next == if i + 1 < |blocks| then blocks[i + 1].at else 0
        decreases |blocks| - i
      {
        b := ReadHeader(M(), b).next;
        i := i + 1;
        ChainStep(i);
      }
      if base != 0 && i + 1 < |blocks| {
        BlockFacts(i + 1);
      }
    }

    /** `sbrk`: all ones when the break would pass the end of the heap. */
    method Sbrk(size: nat) returns (r: nat)
      requires size < WORD
      modifies `brk
      ensures size == 0 ==> r == old(brk) && brk == old(brk)
      ensures 0 < size && (old(brk) + size) % WORD > start + HEAP_SIZE ==> r == WORD - 1 && brk == old(brk)
      ensures 0 < size && (old(brk) + size) % WORD <= start + HEAP_SIZE ==>
              r == old(brk) && brk == (old(brk) + size) % WORD
    {
      if size == 0 {
        return brk;
      }
      if (brk + size) % WORD > start + HEAP_SIZE {
        return WORD - 1;
      }
      r := brk;
      brk := (brk + size) % WORD;
    }

    lemma ExtendFacts(s: nat)
      requires Valid()
      ensures HeadersApart(blocks) && Away(brk, contents)
      ensures forall k {:trigger Clear(blocks[k].at, brk)} :: 0 <= k < |blocks| ==> Clear(blocks[k].at, brk)
      ensures base != 0 ==> blocks != [] && 0 < blocks[|blocks| - 1].at && Away(blocks[|blocks| - 1].at, contents)
      ensures Inv(Extend(blocks, brk, s, base != 0), start, brk + META_BLOCK_SIZE + s, if base == 0 then brk else base,
                  cur)
      ensures Owned(Extend(blocks, brk, s, base != 0), contents)
    {
      hide Away, Carried, Owned, Extend, Clear;
      SpacedHeaders(blocks, start, brk);
      BreakAway(blocks, start, brk, contents);
      InsideClear(blocks, start, brk, |blocks|, brk);
      ExtendInv(blocks, start, brk, base, cur, s);
      ExtendCarried(blocks, brk, s, base != 0);
      OwnedCarried(blocks, Extend(blocks, brk, s, base != 0), -1, k => k, contents);
      if base != 0 {
        OwnedAway(blocks, start, brk, contents, |blocks| - 1);
        assert blocks[|blocks| - 1].Inside(start, brk);
      }
    }

    /**
     `extend_heap`: null when `sbrk` does not grant the room above the break. Otherwise there is one more block in the
     list and in memory, and what callers hold is still there; if the size wraps, only the break is not at the end of
     that block.
     */
    method ExtendHeap(last: nat, s: nat) returns (b: nat)
      requires Valid() && s < WORD
      requires last == if base == 0 then 0 else blocks[|blocks| - 1].at
      modifies mem, `brk, `blocks
      ensures b == 0 <==> !Granted(old(brk), start + HEAP_SIZE, (META_BLOCK_SIZE + s) % WORD)
      ensures b == 0 ==> Valid() && brk == old(brk) && blocks == old(blocks)
      ensures b != 0 ==> b == old(brk) && brk == (old(brk) + (META_BLOCK_SIZE + s) % WORD) % WORD
      ensures b != 0 ==>
        && blocks == Extend(old(blocks), b, s, base != 0)
        && Listed(if base == 0 then b else base, b + META_BLOCK_SIZE + s)
      ensures b != 0 && old(brk) + META_BLOCK_SIZE + s < WORD ==> ValidFrom(if base == 0 then b else base)
    {
      hide ReadHeader, Inv, HeadersAre, Stored, Away, HeadersApart, SameOutside, Owned;
      ExtendFacts(s);
      ghost var bs, m := blocks, M();
      b := Sbrk(0);
      var newBreak := Sbrk((META_BLOCK_SIZE + s) % WORD);
      if newBreak == WORD - 1 {
        return NULL;
      }
      GrantedRoom(b, s);
      var block := Block(b, false, s, NULL, NULL);
      InitHeader(block);
      HeaderInserted(m, M(), bs, |bs|, block);
      assert bs[..|bs|] + [block] + bs[|bs|..] == bs + [block];
      blocks := bs + [block];
      if last != NULL {
        SetNext(last, b, |bs| - 1);
      }
      assert blocks == Extend(bs, b, s, base != 0);
    }

    /** Without wrapping, what `sbrk` grants has room for a header. */
    lemma GrantedRoom(b: nat, s: nat)
      requires Placed() && start <= b <= start + HEAP_SIZE && s < WORD
      ensures b + META_BLOCK_SIZE + s < WORD && Granted(b, start + HEAP_SIZE, (META_BLOCK_SIZE + s) % WORD) ==>
                b + META_BLOCK_SIZE + s <= start + HEAP_SIZE &&
                  (b + (META_BLOCK_SIZE + s) % WORD) % WORD == b + META_BLOCK_SIZE + s
    {
    }

    // -----------------------------------------------------------------------
    // The allocator's interface

    /** The request can be placed above the break without leaving the address space. */
    ghost predicate Representable(size: nat)
      reads this
    {
      brk + META_BLOCK_SIZE + RoundUp4(size) < WORD
    }

    /** The request, rounded up, is a number, but the place of its end above the break is none. */
    ghost predicate Wraps(size: nat)
      reads this
    {
      size <= WORD - 4 && !Representable(size)
    }

    /** No free block of the current chain has room for `s` bytes. */
    ghost predicate NoneFits(s: nat)
      reads this
    {
      base == 0 || forall k {:trigger blocks[k]} :: cur <= k < |blocks| ==> !(blocks[k].free && s <= blocks[k].size)
    }

    /** A pointer with at least `size` bytes behind it. */
    ghost predicate Covers(p: nat, size: nat)
      reads this
    {
      p in contents && size <= |contents[p]|
    }

    /** No block is as large as a request that wraps. */
    lemma WrapsFitsNone(size: nat)
      requires Valid() && size < WORD && Wraps(size)
      ensures Align4(size) == RoundUp4(size) > HEAP_SIZE && NoneFits(Align4(size))
    {
      Align4RoundsUp(size);
      hide Align4;
      forall k {:trigger blocks[k]} | cur <= k < |blocks|
        ensures !(blocks[k].free && Align4(size) <= blocks[k].size)
      {
        assert blocks[k].Inside(start, brk);
      }
    }

    /** Nothing held is as large as the heap. */
    lemma HeldSmall(p: nat)
      requires Valid() && p in contents
      ensures |contents[p]| < HEAP_SIZE
    {
      HeldBelowBreak(p);
    }

    lemma FoundFacts(i: nat, s: nat)
      requires Valid() && i < |blocks| && blocks[i].free && s <= blocks[i].size
      ensures blocks[i].Data() !in contents
      ensures s + META_BLOCK_SIZE <= blocks[i].size ==> Away(blocks[i].Data() + s, contents)
    {
      FreeNotOwned(blocks, start, brk, contents, i);
      if s + META_BLOCK_SIZE <= blocks[i].size {
        UnusedAway(blocks, start, brk, contents, i, blocks[i].Data() + s);
      }
    }

    /** Puts a free block of the chain to use, cutting off what is not needed. */
    method TakeBlock(h: nat, s: nat, ghost i: nat)
      requires Valid() && i < |blocks| && blocks[i].at == h && blocks[i].free && s <= blocks[i].size
      modifies mem, `blocks, `cur
      ensures Valid() && i < |blocks| && blocks[i].at == h && !blocks[i].free && s <= blocks[i].size
      ensures h + META_BLOCK_SIZE !in contents
    {
      hide ReadHeader, Inv, HeadersAre, Stored, Away, HeadersApart, SameOutside, Owned, Carried, Split;
      ghost var bs := blocks;
      ValidSound();
      BlockFacts(i);
      FoundFacts(i, s);
      if ReadHeader(M(), h).size - s >= META_BLOCK_SIZE + 4 {
        SplitBlock(h, s, i);
        SplitCarried(bs, i, s);
        OwnedCarried(bs, blocks, i, k => if k <= i then k else k + 1, contents);
        SplitAt(bs, i, s);
      }
      ghost var mid := blocks;
      ValidSound();
      BlockFacts(i);
      SetFreeInv(mid, start, brk, base, cur, i, false);
      SetFree(h, false, i);
      OwnedRelabelled(mid, blocks, i, contents);
    }

    /** Hands the data of a block in use to the callers. */
    ghost method Grant(i: nat)
      requires Valid() && i < |blocks| && !blocks[i].free && blocks[i].Data() !in contents
      modifies `contents
      ensures Valid()
      ensures blocks[i].Data() in contents && |contents[blocks[i].Data()]| == blocks[i].size
      ensures contents == old(contents)[blocks[i].Data() := contents[blocks[i].Data()]]
    {
      assert blocks[i].Inside(start, brk);
      var c := M().Slice(blocks[i].Data(), blocks[i].size);
      OwnedPlus(blocks, i, contents, c);
      contents := contents[blocks[i].Data() := c];
    }

    /** All data handed out ends below the break. */
    lemma HeldBelowBreak(p: nat)
      requires Valid() && p in contents
      ensures start + META_BLOCK_SIZE <= p && p + |contents[p]| <= brk
    {
      var i :| InUse(blocks, i, p, |contents[p]|);
      assert blocks[i].Inside(start, brk);
    }

    /**
     `kmalloc`: null exactly if no free block fits and `sbrk` does not grant the rest. Another result covers the
     request if and only if its end above the break is a number of 64 bits. What is behind the pointers already held
     stays as it is, and the heap stays valid unless the request wraps: such a request is larger than the heap, and
     then only the break is not where the blocks end.
     */
    method Kmalloc(size: nat) returns (p: nat)
      requires Valid() && size < WORD
      modifies `brk, `base, `blocks, `cur, `contents, mem
      ensures p == 0 <==> old(NoneFits(Align4(size))) && !Granted(old(brk), start + HEAP_SIZE, Asked(size))
      ensures p == 0 ==> Valid() && contents == old(contents) && brk == old(brk)
      ensures p != 0 ==> p !in old(contents) && (Covers(p, size) <==> old(Representable(size)))
      ensures !old(Wraps(size)) ==> Valid() && brk >= old(brk)
      ensures !old(Wraps(size)) && p != 0 ==> p in contents && contents == old(contents)[p := contents[p]]
      ensures old(Wraps(size)) && p != 0 ==>
        && p == old(brk) + META_BLOCK_SIZE && brk == (old(brk) + Asked(size)) % WORD && HEAP_SIZE < size <= Align4(size)
        && Listed(base, p + Align4(size)) && contents == old(contents)
    {
      hide ReadHeader, Inv, HeadersAre, Stored, Owned, Align4, RoundUp4, Placed, NoneFits, Granted;
      RequestFacts(size);
      HeldAllBelow();
      ghost var wraps := Wraps(size);
      var block;
      ghost var i;
      block, i := PlaceBlock(Align4(size));
      if block == NULL {
        return NULL;
      }
      p := block + META_BLOCK_SIZE;
      if !wraps {
        Grant(i);
        HeldSmall(p);
      }
    }

    /**
     A request that does not wrap asks for what can be placed; it is covered if it was not rounded down to nothing.
     */
    lemma RequestFacts(size: nat)
      requires Valid() && size < WORD
      ensures Align4(size) < WORD && Asked(size) == (META_BLOCK_SIZE + Align4(size)) % WORD
      ensures Wraps(size) ==>
              HEAP_SIZE < size <= Align4(size) && NoneFits(Align4(size)) && brk + META_BLOCK_SIZE + Align4(size) >= WORD
      ensures !Wraps(size) ==> brk + META_BLOCK_SIZE + Align4(size) < WORD
      ensures Representable(size) ==> size <= Align4(size)
      ensures !Wraps(size) && !Representable(size) ==> size > HEAP_SIZE
    {
      hide Inv, HeadersAre, Stored, Owned, Align4, RoundUp4, NoneFits;
      Align4RoundsUp(size);
      RoundUpBounds(size);
      if Wraps(size) {
        WrapsFitsNone(size);
      }
    }

    lemma HeldAllBelow()
      requires Valid()
      ensures brk + META_BLOCK_SIZE !in contents
    {
      if brk + META_BLOCK_SIZE in contents {
        HeldBelowBreak(brk + META_BLOCK_SIZE);
      }
    }

    /** A free block of the chain, or a new one above the break. */
    method PlaceBlock(s: nat) returns (block: nat, ghost i: nat)
      requires Valid() && s < WORD
      modifies `brk, `base, `blocks, `cur, mem
      ensures block == 0 <==> old(NoneFits(s)) && !Granted(old(brk), start + HEAP_SIZE, (META_BLOCK_SIZE + s) % WORD)
      ensures block == 0 ==> Valid() && brk == old(brk)
      ensures block != 0 && old(NoneFits(s)) ==>
        && block == old(brk) && brk == (old(brk) + (META_BLOCK_SIZE + s) % WORD) % WORD
        && Listed(base, block + META_BLOCK_SIZE + s)
      ensures block != 0 && (old(NoneFits(s)) ==> old(brk) + META_BLOCK_SIZE + s < WORD) ==>
        && Valid() && brk >= old(brk) && i < |blocks| && blocks[i].at == block && !blocks[i].free && s <= blocks[i].size
        && block + META_BLOCK_SIZE !in contents
    {
      hide ReadHeader, Inv, HeadersAre, Stored, Owned;
      HeldAllBelow();
      i := |blocks|;
      if base != 0 {
        var last;
        ValidSound();
        block, last, i := FindBlock(s);
        if block != NULL {
          TakeBlock(block, s, i);
        } else {
          block := ExtendHeap(last, s);
        }
      } else {
        block := ExtendHeap(NULL, s);
        if block != NULL {
          base := block;
        }
      }
    }

    lemma RoundUpBounds(size: nat)
      requires size < WORD
      ensures size <= RoundUp4(size) && (RoundUp4(size) <= WORD - 4 <==> size <= WORD - 4) && RoundUp4(size) <= WORD
    {
    }

    /** `is_addr_valid` */
    method IsAddrValid(p: nat) returns (valid: bool)
      requires Valid()
      ensures valid <==> base != 0 && base < p < brk && HeaderBefore(p)
      ensures p in contents ==> (valid <==> base != 0 && base < p < brk)
      ensures p in contents && valid ==> exists i :: cur <= i && InUse(blocks, i, p, |contents[p]|)
    {
      hide Inv, HeadersAre, Stored, Owned, ReadHeader;
      if base != 0 {
        BaseInside();
        if p > base && p < brk {
          if p in contents {
            ghost var i := HeldAbove(p);
          }
          return p == ReadHeader(M(), p - META_BLOCK_SIZE).ptr;
        }
      }
      return false;
    }

    /** The bytes before an address are a header that says so. */
    ghost predicate HeaderBefore(p: nat)
      reads mem
    {
      p >= META_BLOCK_SIZE && M().Holds(p - META_BLOCK_SIZE, META_BLOCK_SIZE) &&
        ReadHeader(M(), p - META_BLOCK_SIZE).ptr == p
    }

    lemma BaseInside()
      requires Valid() && base != 0
      ensures start <= base
    {
      assert blocks[cur].Inside(start, brk);
    }

    /** A pointer above the start of the current chain belongs to a block of it. */
    lemma HeldAbove(p: nat) returns (i: nat)
      requires Valid() && p in contents && base != 0 && base < p
      ensures cur <= i && InUse(blocks, i, p, |contents[p]|) && HeaderIs(M(), blocks[i])
    {
      i :| InUse(blocks, i, p, |contents[p]|);
      assert HeaderIs(M(), blocks[i]);
      if i < cur {
        SpacedPair(blocks, start, brk, i, cur);
      }
    }

    /** Takes a pointer back from the callers and marks its block free. */
    method MarkFree(h: nat, ghost i: nat)
      requires Valid() && h + META_BLOCK_SIZE in contents
      requires InUse(blocks, i, h + META_BLOCK_SIZE, |contents[h + META_BLOCK_SIZE]|)
      modifies `blocks, `contents, mem
      ensures Valid() && contents == old(contents) - {h + META_BLOCK_SIZE}
      ensures blocks == old(blocks)[i := old(blocks)[i].(free := true)]
    {
      hide ReadHeader, Inv, HeadersAre, Stored, Owned, Away;
      ghost var bs, p := blocks, h + META_BLOCK_SIZE;
      OwnedMinus(blocks, contents, p);
      StoredMinus(M(), contents, p);
      contents := contents - {p};
      ValidSound();
      BlockFacts(i);
      SetFreeInv(bs, start, brk, base, cur, i, true);
      SetFree(h, true, i);
      OwnedRelabelled(bs, blocks, i, contents);
    }

    /** A block of the current chain without a successor is the last of all blocks. */
    lemma LastFacts(b: nat)
      requires Valid() && base != 0 && cur <= b < |blocks| && blocks[b].next == 0
      ensures b == |blocks| - 1 && 0 < blocks[b].at
      ensures blocks[b].prev != 0 ==>
        && cur + 2 <= |blocks| && blocks[b].prev == blocks[b - 1].at < blocks[b].at
        && Inv(Unlink(blocks), start, brk, base, cur)
    {
      assert GoesOn(blocks, b) && PrevOk(blocks, b) && blocks[b].Inside(start, brk);
      AddressPositive(blocks, start, brk, b + 1);
      if blocks[b].prev != 0 {
        SpacedPair(blocks, start, brk, b - 1, b);
        UnlinkInv(blocks, start, brk, base, cur);
      }
    }

    /** Drops a freed last block: unlinks it, or gives the whole chain up (src/kmem/kfree.c:60-66). */
    method DropLast(h: nat, ghost b: nat)
      requires Valid() && base != 0 && cur <= b < |blocks|
      requires blocks[b].at == h && blocks[b].free && blocks[b].next == 0
      modifies `base, `blocks, `cur, mem
      ensures Valid()
      ensures base != 0 ==> blocks != [] && blocks[|blocks| - 1].at < h
    {
      hide ReadHeader, Inv, HeadersAre, Stored, Owned, Away, Carried, Unlink;
      ghost var bs := blocks;
      LastFacts(b);
      FreeUnheld(b);
      ValidSound();
      BlockFacts(b);
      var prev := ReadHeader(M(), h).prev;
      if prev != NULL {
        BlockFacts(b - 1);
        UnlinkCarried(bs);
        OwnedCarried(bs, Unlink(bs), b, k => k, contents);
        UnlinkAt(bs);
        SetNext(prev, NULL, b - 1);
        HeaderRemoved(M(), blocks, b);
        blocks := blocks[..b] + blocks[b + 1..];
        assert blocks == Unlink(bs);
      } else {
        GiveUpInv(blocks, start, brk, base, cur);
        base := NULL;
        cur := |blocks|;
      }
    }

    /** `kfree`: the pointer is no longer held; everything else the callers hold stays as it is. */
    method Kfree(p: nat)
      requires Valid() && (p == 0 || p in contents)
      modifies `brk, `base, `blocks, `cur, `contents, mem
      ensures Valid() && brk == old(brk)
      ensures contents == old(contents) - {p}
    {
      hide ReadHeader, Inv, HeadersAre, Stored, Owned, Merge;
      if p != 0 {
        HeldBelowBreak(p);
      }
      var valid := IsAddrValid(p);
      if !valid {
        OwnedMinus(blocks, contents, p);
        StoredMinus(M(), contents, p);
        contents := contents - {p};
        return;
      }
      ghost var b :| cur <= b && InUse(blocks, b, p, |contents[p]|);
      var block := p - META_BLOCK_SIZE;
      MarkFree(block, b);
      ValidSound();
      BlockFacts(b);
      var prev := ReadHeader(M(), block).prev;
      if prev != NULL {
        BlockFacts(b - 1);
        if ReadHeader(M(), prev).free != 0 {
          ghost var bs := blocks;
          PrevInChain(b);
          MergeBlocks(prev, b - 1);
          MergedIntoPrev(bs, b);
          block, b := prev, b - 1;
        }
      }
      ValidSound();
      BlockFacts(b);
      if ReadHeader(M(), block).next != NULL {
        MergeBlocks(block, b);
      } else {
        DropLast(block, b);
        ValidSound();
        var last := GetLastBlock();
        if block == last {
          // The source would call `cbrk` here, but the dropped block is never the last one left.
          assert false;
        }
      }
    }

    lemma PrevInChain(b: nat)
      requires Valid() && cur <= b < |blocks| && blocks[b].prev != 0
      ensures cur < b && blocks[b - 1].next == blocks[b].at != 0
    {
      assert PrevOk(blocks, b) && blocks[b].Inside(start, brk);
    }

    lemma CutSound(i: nat, p: nat, s: nat)
      requires Valid() && p in contents && InUse(blocks, i, p, |contents[p]|) && s + META_BLOCK_SIZE <= |contents[p]|
      ensures var cut := contents[p := contents[p][..s]];
              && Stored(M(), cut) && Away(p + s, cut)
              && forall k {:trigger Away(blocks[k].at, cut)} :: 0 <= k < |blocks| ==> Away(blocks[k].at, cut)
    {
      hide Away, Owned, InUse;
      var cut := contents[p := contents[p][..s]];
      StoredCut(M(), contents, p, s);
      CutAway(blocks, start, brk, contents, i, p, s);
      forall k {:trigger Away(blocks[k].at, cut)} | 0 <= k < |blocks|
        ensures Away(blocks[k].at, cut)
      {
        OwnedAway(blocks, start, brk, contents, k);
        AwayCut(blocks[k].at, contents, p, s);
      }
    }

    /** Cuts a block the callers hold down to its first `s` bytes. */
    method ShrinkTo(h: nat, s: nat, ghost i: nat)
      requires Valid() && h + META_BLOCK_SIZE in contents
      requires InUse(blocks, i, h + META_BLOCK_SIZE, |contents[h + META_BLOCK_SIZE]|)
      requires s + META_BLOCK_SIZE <= |contents[h + META_BLOCK_SIZE]|
      modifies `blocks, `cur, `contents, mem
      ensures Valid()
      ensures contents == old(contents)[h + META_BLOCK_SIZE := old(contents)[h + META_BLOCK_SIZE][..s]]
    {
      hide ReadHeader, Inv, HeadersAre, Stored, Owned, Away, Carried, Split;
      ghost var bs, p, held := blocks, h + META_BLOCK_SIZE, contents;
      CutSound(i, p, s);
      contents := held[p := held[p][..s]];
      SplitBlock(h, s, i);
      OwnedMinus(bs, held, p);
      SplitCarried(bs, i, s);
      OwnedCarried(bs, blocks, i, k => if k <= i then k else k + 1, held - {p});
      SplitAt(bs, i, s);
      OwnedPlus(blocks, i, held - {p}, held[p][..s]);
      assert contents == (held - {p})[p := held[p][..s]];
    }

    /** A block the callers hold takes over its free neighbour. */
    method GrowIntoNext(h: nat, ghost i: nat)
      requires Valid() && h + META_BLOCK_SIZE in contents
      requires InUse(blocks, i, h + META_BLOCK_SIZE, |contents[h + META_BLOCK_SIZE]|)
      requires blocks[i].next != 0 && i + 1 < |blocks| && blocks[i + 1].free
      modifies `blocks, `cur, `contents, mem
      ensures Valid() && h + META_BLOCK_SIZE in contents
      ensures InUse(blocks, i, h + META_BLOCK_SIZE, |contents[h + META_BLOCK_SIZE]|)
      ensures contents == old(contents)[h + META_BLOCK_SIZE := contents[h + META_BLOCK_SIZE]]
      ensures |contents[h + META_BLOCK_SIZE]|
           == |old(contents)[h + META_BLOCK_SIZE]| + META_BLOCK_SIZE + old(blocks)[i + 1].size
      ensures old(contents)[h + META_BLOCK_SIZE] <= contents[h + META_BLOCK_SIZE]
    {
      hide ReadHeader, Inv, HeadersAre, Stored, Owned, Away, Carried, Absorb;
      ghost var bs, p, held := blocks, h + META_BLOCK_SIZE, contents;
      ValidSound();
      AbsorbNext(h, i);
      OwnedMinus(bs, held, p);
      AbsorbCarried(bs, i);
      OwnedCarried(bs, blocks, i, k => if k <= i then k else k - 1, held - {p});
      AbsorbAt(bs, i);
      BlockFacts(i);
      ghost var c := M().Slice(p, blocks[i].size);
      OwnedPlus(blocks, i, held - {p}, c);
      Regrant(M(), held, p, c);
      contents := held[p := c];
      assert contents == (held - {p})[p := c];
    }

    /** A caller writes one of the bytes it holds. */
    method WriteByte(p: nat, k: nat, v: octet)
      requires Valid() && p in contents && k < |contents[p]|
      modifies mem, `contents
      ensures Valid() && contents == old(contents)[p := Poke(old(contents)[p], k, v)]
    {
      ghost var m := M();
      HeldBelowBreak(p);
      mem[p + k - first] := v;
      ByteWritten(m, M(), blocks, start, brk, contents, p, k, v);
      contents := contents[p := Poke(contents[p], k, v)];
    }

    /** A caller reads one of the bytes it holds. */
    method ReadByte(p: nat, k: nat) returns (v: octet)
      requires Valid() && p in contents && k < |contents[p]|
      ensures v == contents[p][k]
    {
      HeldBelowBreak(p);
      assert DataIs(M(), p, contents[p]);
      v := mem[p + k - first];
    }

    /** The copy loop of `krealloc`. */
    method CopyBytes(q: nat, p: nat, n: nat)
      requires Valid() && p in contents && q in contents && p != q && n <= |contents[p]| && n <= |contents[q]|
      modifies mem, `contents
      ensures Valid() && contents == old(contents)[q := old(contents)[p][..n] + old(contents)[q][n..]]
    {
      hide HeadersAre, Stored, Owned, Inv;
      ghost var held := contents;
      var i := 0;
      assert held[p][..0] + held[q][0..] == held[q] && held[q := held[q]] == held;
      while i < n
        invariant 0 <= i <= n && Valid()
        invariant contents == held[q := held[p][..i] + held[q][i..]]
      {
        var v := ReadByte(p, i);
        WriteByte(q, i, v);
        assert Poke(held[p][..i] + held[q][i..], i, v) == held[p][..i + 1] + held[q][i + 1..];
        i := i + 1;
      }
    }

    /** The part of `krealloc` that moves the block elsewhere (src/kmem/krealloc.c:45-60). */
    method MoveBlock(p: nat, size: nat) returns (r: nat)
      requires Valid() && p in contents && size < WORD
      modifies `brk, `base, `blocks, `cur, `contents, mem
      ensures r == 0 ==> Valid() && contents == old(contents)
      ensures r != 0 ==> r !in old(contents) && (Covers(r, size) <==> old(Representable(size)))
      ensures !old(Wraps(size)) ==> Valid() && brk >= old(brk)
      ensures !old(Wraps(size)) && r != 0 ==> r in contents && contents == (old(contents) - {p})[r := contents[r]]
      ensures !old(Wraps(size)) && r != 0 ==>
        var n := Least(|old(contents)[p]|, |contents[r]|);
        contents[r][..n] == old(contents)[p][..n]
    {
      hide ReadHeader, Inv, HeadersAre, Stored, Owned, RoundUp4, Granted, NoneFits, Align4;
      var wraps := size <= WORD - 4 && brk + META_BLOCK_SIZE + RoundUp4(size) >= WORD;
      r := Kmalloc(size);
      if r == NULL {
        return;
      }
      if wraps {
        // The source goes on to copy into a block that is not in the heap; nothing is said about that.
        return;
      }
      ghost var j := HeldIndex(r);
      ghost var k := HeldIndex(p);
      var oldSize, newSize := ReadHeader(M(), p - META_BLOCK_SIZE).size, ReadHeader(M(), r - META_BLOCK_SIZE).size;
      CopyBytes(r, p, Least(oldSize, newSize));
      Kfree(p);
      assert contents == (old(contents) - {p})[r := contents[r]];
    }

    /** What `krealloc` does without moving the block, if it can (src/kmem/krealloc.c:20-43). */
    method ResizeInPlace(p: nat, s: nat) returns (done: bool)
      requires Valid() && p in contents
      modifies `blocks, `cur, `contents, mem
      ensures Valid() && p in contents && contents == old(contents)[p := contents[p]]
      ensures !done ==> contents == old(contents)
      ensures done ==> s <= |contents[p]|
      ensures contents[p] <= old(contents)[p] || old(contents)[p] <= contents[p]
    {
      hide ReadHeader, Inv, HeadersAre, Stored, Owned;
      var block := p - META_BLOCK_SIZE;
      ghost var i := HeldIndex(p);
      var hd := ReadHeader(M(), block);
      if hd.size >= s {
        if hd.size - s >= META_BLOCK_SIZE + 4 {
          ShrinkTo(block, s, i);
        }
        return true;
      }
      ValidSound();
      BlockFacts(i);
      if hd.next != NULL {
        BlockFacts(i + 1);
        var next := ReadHeader(M(), hd.next);
        if next.free != 0 && hd.size + META_BLOCK_SIZE + next.size >= s {
          GrowIntoNext(block, i);
          if hd.size + META_BLOCK_SIZE + next.size - s >= META_BLOCK_SIZE + 4 {
            ShrinkTo(block, s, i);
          }
          return true;
        }
      }
      return false;
    }

    /**
     `krealloc`. A new pointer starts with the bytes that were behind the old one, and covers the request if and only if
     the end of the request above the break is a number of 64 bits; on failure nothing changes; size zero frees.
     */
    method Krealloc(p: nat, size: nat) returns (r: nat)
      requires Valid() && (p == 0 || p in contents) && size < WORD
      modifies `brk, `base, `blocks, `cur, `contents, mem
      ensures r == 0 ==> Valid() && contents == if size == 0 then old(contents) - {p} else old(contents)
      ensures p != 0 && size == 0 ==> r == 0
      ensures r != 0 ==> (r == p || r !in old(contents)) && (Covers(r, size) <==> old(Representable(size)))
      ensures !old(Wraps(size)) ==> Valid() && brk >= old(brk)
      ensures !old(Wraps(size)) && r != 0 ==> r in contents && contents == (old(contents) - {p})[r := contents[r]]
      ensures !old(Wraps(size)) && r != 0 && p != 0 ==>
        var n := Least(|old(contents)[p]|, |contents[r]|);
        contents[r][..n] == old(contents)[p][..n]
    {
      hide ReadHeader, Inv, HeadersAre, Stored, Owned, Align4, RoundUp4, Granted, NoneFits;
      NullNotHeld();
      if p == 0 {
        r := Kmalloc(size);
        return;
      }
      if size == 0 {
        NothingWraps();
        Kfree(p);
        return NULL;
      }
      RequestFacts(size);
      var done := ResizeInPlace(p, Align4(size));
      assert contents == (old(contents) - {p})[p := contents[p]];
      HeldSmall(p);
      if done {
        return p;
      }
      r := MoveBlock(p, size);
    }

    lemma NothingWraps()
      requires Valid()
      ensures !Wraps(0)
    {
    }

    lemma NullNotHeld()
      requires Valid()
      ensures 0 !in contents && contents - {0} == contents
    {
      if 0 in contents {
        HeldBelowBreak(0);
      }
    }

    lemma HeldIndex(p: nat) returns (i: nat)
      requires Valid() && p in contents
      ensures InUse(blocks, i, p, |contents[p]|) && HeaderIs(M(), blocks[i]) && META_BLOCK_SIZE < p
    {
      i :| InUse(blocks, i, p, |contents[p]|);
      assert HeaderIs(M(), blocks[i]) && blocks[i].Inside(start, brk);
    }

    // -----------------------------------------------------------------------
    // Safety

    /** `kmem_init` */
    constructor (start: nat)
      requires META_BLOCK_SIZE <= start && start + 2 * HEAP_SIZE + 2 * META_BLOCK_SIZE <= WORD
      ensures Valid() && contents == map[] && this.start == start == brk && base == 0 && fresh(mem)
    {
      this.start, first := start, start - META_BLOCK_SIZE;
      mem := new octet[HEAP_SIZE + 2 * META_BLOCK_SIZE];
      brk, base := start, NULL;
      blocks, cur, contents := [], 0, map[];
    }

    /** What two pointers hold never overlaps, and both are inside the heap. */
    lemma HeldApart(p: nat, q: nat)
      requires Valid() && p in contents && q in contents && p != q
      ensures start <= p && p + |contents[p]| <= start + HEAP_SIZE
      ensures p + |contents[p]| <= q || q + |contents[q]| <= p
    {
      HeldBelowBreak(p);
      var i :| InUse(blocks, i, p, |contents[p]|);
      var j :| InUse(blocks, j, q, |contents[q]|);
      if i < j {
        SpacedPair(blocks, start, brk, i, j);
      } else if j < i {
        SpacedPair(blocks, start, brk, j, i);
      }
    }

    /** What a pointer holds never overlaps the header of a block in any chain. */
    lemma HeldOffHeaders(p: nat, k: nat)
      requires Valid() && p in contents && k < |blocks|
      ensures p + |contents[p]| <= blocks[k].at || blocks[k].at + META_BLOCK_SIZE <= p
    {
      OwnedAway(blocks, start, brk, contents, k);
    }

    // -----------------------------------------------------------------------
    // Whole runs

    /** One call; a handle that is in use is only freed, resized or written, one that is not only allocated. */
    method Perform(call: Call, held: map<nat, nat>, plain: map<nat, Kept>)
      returns (held': map<nat, nat>, ok: bool, short: bool)
      requires Valid() && Holding(contents, held, plain) && Size(call) < WORD
      modifies `brk, `base, `blocks, `cur, `contents, mem
      ensures short ==> !old(Representable(Size(call)))
      ensures !short ==> Valid() && Holding(contents, held', After(plain, call, ok))
    {
      hide Inv, HeadersAre, Stored, Owned, Granted, NoneFits, RoundUp4, Align4, Holding, Placed, Cut;
      held', ok, short := held, false, false;
      var fits := brk + META_BLOCK_SIZE + RoundUp4(Size(call)) < WORD;
      NullNotHeld();
      HoldingKeys(contents, held, plain);
      match call {
        case Malloc(h, size) =>
          if h !in held {
            var p := Kmalloc(size);
            if p != 0 && !fits {
              short := true;
            } else if p != 0 {
              HoldMore(old(contents), held, plain, h, p, contents[p], size);
              held', ok := held[h := p], true;
            }
          }
        case Free(h) =>
          if h in held {
            Kfree(held[h]);
            HoldLess(old(contents), held, plain, h);
            held' := held - {h};
          } else {
            assert plain - {h} == plain;
          }
        case Realloc(h, size) =>
          if h in held {
            var p := Krealloc(held[h], size);
            if p != 0 && !fits {
              short := true;
            } else if p != 0 {
              HoldMoved(old(contents), held, plain, h, p, contents[p], size);
              held', ok := held[h := p], true;
            } else if size == 0 {
              HoldLess(old(contents), held, plain, h);
              held' := held - {h};
            }
          }
        case Write(h, k, v) =>
          if h in held && k < plain[h].size {
            HoldWritten(contents, held, plain, h, k, v);
            WriteByte(held[h], k, v);
          }
      }
    }

    /**
     After any calls: every handle reads back what was last written to it, and what the handles hold is as long as
     asked for, inside the heap, apart from each other, and off the headers of all blocks. The one way out of this is a
     call that is granted although break, header and size do not add up to a number of 64 bits.
     */
    method Play(calls: seq<Call>) returns (held: map<nat, nat>, oks: seq<bool>, ghost at: nat)
      requires Valid() && contents == map[] && forall i {:trigger calls[i]} :: 0 <= i < |calls| ==>
               Size(calls[i]) < WORD
      modifies `brk, `base, `blocks, `cur, `contents, mem
      ensures |oks| < |calls| ==>
              start <= at <= start + HEAP_SIZE && at + META_BLOCK_SIZE + RoundUp4(Size(calls[|oks|])) >= WORD
      ensures |oks| >= |calls| ==> |oks| == |calls| && Valid() && Holding(contents, held, AfterAll(calls, oks))
      ensures |oks| == |calls| ==>
        forall h {:trigger held[h]} :: h in held ==>
          h in AfterAll(calls, oks) && Roomy(held[h], AfterAll(calls, oks)[h].size)
      ensures |oks| == |calls| ==>
        forall g, h {:trigger held[g], held[h]} :: g in held && h in held && g != h ==>
          var plain := AfterAll(calls, oks);
          g in plain && h in plain && (held[g] + plain[g].size <= held[h] || held[h] + plain[h].size <= held[g])
    {
      hide Inv, HeadersAre, Stored, Owned;
      held, oks, at := map[], [], brk;
      var plain: map<nat, Kept> := map[];
      var i := 0;
      while i < |calls|
        invariant 0 <= i <= |calls| && |oks| == i && Valid() && plain == AfterAll(calls[..i], oks) &&
                  Holding(contents, held, plain)
      {
        at := brk;
        var ok, short;
        held, ok, short := Perform(calls[i], held, plain);
        if short {
          return;
        }
        plain := After(plain, calls[i], ok);
        AfterMore(calls[..i], oks, calls[i], ok);
        assert calls[..i] + [calls[i]] == calls[..i + 1];
        oks := oks + [ok];
        i := i + 1;
      }
      assert calls[..i] == calls;
      forall h {:trigger held[h]} | h in held
        ensures Roomy(held[h], plain[h].size)
      {
        assert Keeps(contents, held[h], plain[h]);
        HeldRoomy(held[h], plain[h].size);
      }
      forall g, h {:trigger held[g], held[h]} | g in held && h in held && g != h
        ensures held[g] + plain[g].size <= held[h] || held[h] + plain[h].size <= held[g]
      {
        assert Keeps(contents, held[g], plain[g]) && Keeps(contents, held[h], plain[h]);
        HeldApart(held[g], held[h]);
      }
    }

    /** Some bytes inside the heap and off every header. */
    ghost predicate Roomy(p: nat, size: nat)
      reads this
    {
      && start <= p && p + size <= start + HEAP_SIZE
      && forall k {:trigger blocks[k]} :: 0 <= k < |blocks| ==>
         p + size <= blocks[k].at || blocks[k].at + META_BLOCK_SIZE <= p
    }

    lemma HeldRoomy(p: nat, size: nat)
      requires Valid() && Covers(p, size)
      ensures Roomy(p, size)
    {
      HeldBelowBreak(p);
      forall k {:trigger blocks[k]} | 0 <= k < |blocks|
        ensures p + size <= blocks[k].at || blocks[k].at + META_BLOCK_SIZE <= p
      {
        HeldOffHeaders(p, k);
      }
    }
  }

  /** The largest request of all gets a block of an empty heap with next to nothing in it. */
  method ShortGrant(start: nat) returns (heap: Heap, p: nat)
    requires META_BLOCK_SIZE <= start && start + 2 * HEAP_SIZE + 2 * META_BLOCK_SIZE <= WORD
    ensures fresh(heap) && heap.Valid() && p != 0 && p in heap.contents && |heap.contents[p]| < WORD - 1
  {
    hide Inv, HeadersAre, Stored, Owned, Align4, RoundUp4;
    Align4RoundsUp(WORD - 1);
    RoundedMost();
    heap := new Heap(start);
    p := heap.Kmalloc(WORD - 1);
  }

  /** A request that wraps to nothing is granted: the break stays where it is, below the pointer that comes back. */
  method WrappedGrant(start: nat) returns (heap: Heap, p: nat)
    requires META_BLOCK_SIZE <= start && start + 2 * HEAP_SIZE + 2 * META_BLOCK_SIZE <= WORD
    ensures fresh(heap) && p != 0 && p !in heap.contents && heap.brk == heap.start < p
  {
    hide Inv, HeadersAre, Stored, Owned, Align4, RoundUp4;
    Align4RoundsUp(WORD - META_BLOCK_SIZE);
    RoundedMost();
    heap := new Heap(start);
    p := heap.Kmalloc(WORD - META_BLOCK_SIZE);
  }

  lemma RoundedMost()
    ensures RoundUp4(WORD - 1) == WORD && RoundUp4(WORD - META_BLOCK_SIZE) == WORD - META_BLOCK_SIZE
  {
  }

  datatype Call = Malloc(h: nat, size: nat) | Free(h: nat) | Realloc(h: nat, size: nat) |
    Write(h: nat, k: nat, v: octet)

  /** What callers know of a handle: how much they asked for, and what they wrote where. */
  datatype Kept = Kept(size: nat, bytes: map<nat, octet>)

  /** What is still known of it after it was resized. */
  function Cut(kept: Kept, size: nat): (r: Kept) {
    Kept(size, map k | k in kept.bytes && k < size :: kept.bytes[k])
  }

  /** One pointer, and what the callers know of it: as many bytes as they asked for, among them what they wrote. */
  ghost predicate Keeps(contents: map<nat, seq<octet>>, p: nat, kept: Kept) {
    && p in contents && kept.size <= |contents[p]|
    && forall k {:trigger kept.bytes[k]} :: k in kept.bytes ==> k < kept.size && contents[p][k] == kept.bytes[k]
  }

  /** Callers know what they hold by handles; each has its own pointer. */
  ghost predicate Holding(contents: map<nat, seq<octet>>, held: map<nat, nat>, plain: map<nat, Kept>) {
    && held.Keys == plain.Keys
    && (forall h {:trigger held[h]} :: h in held ==> Keeps(contents, held[h], plain[h]))
    && (forall g, h {:trigger held[g], held[h]} :: g in held && h in held && g != h ==> held[g] != held[h])
  }

  lemma HoldingKeys(contents: map<nat, seq<octet>>, held: map<nat, nat>, plain: map<nat, Kept>)
    requires Holding(contents, held, plain)
    ensures held.Keys == plain.Keys
    ensures forall h {:trigger held[h]} :: h in held ==> held[h] in contents && plain[h].size <= |contents[held[h]]|
  {
    assert forall h :: h in held ==> Keeps(contents, held[h], plain[h]);
  }

  lemma HoldMore(contents: map<nat, seq<octet>>, held: map<nat, nat>, plain: map<nat, Kept>, h: nat, p: nat,
                 data: seq<octet>, size: nat)
    requires Holding(contents, held, plain) && h !in held && p !in contents && size <= |data|
    ensures Holding(contents[p := data], held[h := p], plain[h := Kept(size, map[])])
  {
    HoldOthers(contents, contents[p := data], held, plain, h);
  }

  /** What other handles hold is still there. */
  lemma HoldOthers(contents: map<nat, seq<octet>>, after: map<nat, seq<octet>>, held: map<nat, nat>,
                   plain: map<nat, Kept>, h: nat)
    requires Holding(contents, held, plain)
    requires forall q {:trigger q in contents} :: q in contents && (h !in held || q != held[h]) ==>
             q in after && after[q] == contents[q]
    ensures forall g {:trigger held[g]} :: g in held && g != h ==>
            held[g] in contents && Keeps(after, held[g], plain[g])
  {
    forall g {:trigger held[g]} | g in held && g != h
      ensures held[g] in contents && Keeps(after, held[g], plain[g])
    {
      assert Keeps(contents, held[g], plain[g]);
      assert h in held ==> held[g] != held[h];
    }
  }

  lemma HoldLess(contents: map<nat, seq<octet>>, held: map<nat, nat>, plain: map<nat, Kept>, h: nat)
    requires Holding(contents, held, plain) && h in held
    ensures Holding(contents - {held[h]}, held - {h}, plain - {h})
  {
    HoldOthers(contents, contents - {held[h]}, held, plain, h);
  }

  lemma HoldMoved(contents: map<nat, seq<octet>>, held: map<nat, nat>, plain: map<nat, Kept>, h: nat, p: nat,
                  data: seq<octet>, size: nat)
    requires Holding(contents, held, plain) && h in held && held[h] in contents && (p == held[h] || p !in contents) &&
             size <= |data|
    requires var n := Least(|contents[held[h]]|, |data|); contents[held[h]][..n] == data[..n]
    ensures Holding((contents - {held[h]})[p := data], held[h := p], plain[h := Cut(plain[h], size)])
  {
    var after, kept, before := (contents - {held[h]})[p := data], plain[h], contents[held[h]];
    HoldOthers(contents, after, held, plain, h);
    assert Keeps(contents, held[h], kept);
    var n := Least(|before|, |data|);
    forall k {:trigger kept.bytes[k]} | k in kept.bytes && k < size
      ensures data[k] == kept.bytes[k]
    {
      assert before[..n][k] == data[..n][k];
    }
    assert Keeps(after, p, Cut(kept, size));
  }

  lemma HoldWritten(contents: map<nat, seq<octet>>, held: map<nat, nat>, plain: map<nat, Kept>, h: nat, k: nat,
                    v: octet)
    requires Holding(contents, held, plain) && h in held && k < plain[h].size
    ensures held[h] in contents && k < |contents[held[h]]|
    ensures Holding(contents[held[h] := Poke(contents[held[h]], k, v)], held,
                    plain[h := plain[h].(bytes := plain[h].bytes[k := v])])
  {
    assert Keeps(contents, held[h], plain[h]);
    var after := contents[held[h] := Poke(contents[held[h]], k, v)];
    HoldOthers(contents, after, held, plain, h);
    assert Keeps(after, held[h], plain[h].(bytes := plain[h].bytes[k := v]));
  }

  /** What a call, if it succeeds, makes of what the callers know. */
  function After(plain: map<nat, Kept>, call: Call, ok: bool): (r: map<nat, Kept>) {
    match call
    case Malloc(h, size) => if h !in plain && ok then plain[h := Kept(size, map[])] else plain
    case Free(h) => plain - {h}
    case Realloc(h, size) =>
      if h !in plain then plain
      else if ok then plain[h := Cut(plain[h], size)]
      else if size == 0 then plain - {h} else plain
    case Write(h, k, v) =>
      if h in plain && k < plain[h].size then plain[h := plain[h].(bytes := plain[h].bytes[k := v])] else plain
  }

  function AfterAll(calls: seq<Call>, oks: seq<bool>): (r: map<nat, Kept>)
    requires |oks| == |calls|
  {
    if calls == [] then map[]
    else After(AfterAll(calls[..|calls| - 1], oks[..|calls| - 1]), calls[|calls| - 1], oks[|calls| - 1])
  }

  lemma AfterMore(calls: seq<Call>, oks: seq<bool>, call: Call, ok: bool)
    requires |oks| == |calls|
    ensures AfterAll(calls + [call], oks + [ok]) == After(AfterAll(calls, oks), call, ok)
  {
    var c, o := calls + [call], oks + [ok];
    assert c[..|c| - 1] == calls && o[..|c| - 1] == oks;
  }

  /** How much a call asks for. */
  function Size(call: Call): (r: nat) {
    match call
    case Malloc(_, size) => size
    case Realloc(_, size) => size
    case _ => 0
  }
}
