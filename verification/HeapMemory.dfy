/**
 The heap's memory: bytes at absolute addresses, and the block headers kept among them
 (`struct meta_block`, src/include/kmem.h:8-15).
 */
module HeapMemory {
  import opened Arith

  type octet = x: int | 0 <= x < 256

  const META_BLOCK_SIZE: nat := 40

  // -------------------------------------------------------------------------
  // Little-endian numbers

  function Pow256(n: nat): (r: nat)
    ensures 0 < r
  {
    if n == 0 then 1 else 256 * Pow256(n - 1)
  }

  function LeValue(s: seq<octet>): (v: nat) {
    if s == [] then 0 else s[0] + 256 * LeValue(s[1..])
  }

  function LeBytes(v: nat, n: nat): (s: seq<octet>)
    ensures |s| == n
  {
    if n == 0 then [] else [v % 256] + LeBytes(v / 256, n - 1)
  }

  lemma {:induction false} LeRoundTrip(v: nat, n: nat)
    requires v < Pow256(n)
    ensures LeValue(LeBytes(v, n)) == v
  {
    if n != 0 {
      LeRoundTrip(v / 256, n - 1);
      assert LeBytes(v, n)[1..] == LeBytes(v / 256, n - 1);
    }
  }

  lemma Pow256Values()
    ensures Pow256(4) == 0x1_0000_0000 && Pow256(8) == WORD
  {
    assert Pow256(4) == 256 * (256 * (256 * (256 * Pow256(0))));
    assert Pow256(8) == 256 * (256 * (256 * (256 * Pow256(4))));
  }

  // -------------------------------------------------------------------------
  // Memory

  /** The bytes of the heap array, `start` being the address of the first one. */
  datatype Mem = Mem(start: nat, bytes: seq<octet>) {

    predicate Holds(a: nat, n: nat) {
      start <= a && a + n <= start + |bytes|
    }

    /** The `n` bytes at address `a`. */
    function Slice(a: nat, n: nat): (s: seq<octet>)
      requires Holds(a, n)
      ensures |s| == n
    {
      bytes[a - start..a - start + n]
    }

    function Load(a: nat, n: nat): (v: nat)
      requires Holds(a, n)
    {
      LeValue(Slice(a, n))
    }

    function Put(a: nat, s: seq<octet>): (m: Mem)
      requires Holds(a, |s|)
      ensures m.start == start && |m.bytes| == |bytes|
    {
      Mem(start, bytes[..a - start] + s + bytes[a - start + |s|..])
    }

    function Store(a: nat, n: nat, v: nat): (m: Mem)
      requires Holds(a, n)
      ensures m.start == start && |m.bytes| == |bytes|
    {
      Put(a, LeBytes(v, n))
    }
  }

  lemma PutSlice(m: Mem, a: nat, s: seq<octet>, b: nat, n: nat)
    requires m.Holds(a, |s|) && m.Holds(b, n)
    ensures b + n <= a || a + |s| <= b ==> m.Put(a, s).Slice(b, n) == m.Slice(b, n)
    ensures b == a && n == |s| ==> m.Put(a, s).Slice(b, n) == s
  {
    var m' := m.Put(a, s);
    assert m'.bytes[a - m.start..a - m.start + |s|] == s;
    if b + n <= a || a + |s| <= b {
      forall k | 0 <= k < n
        ensures m'.Slice(b, n)[k] == m.Slice(b, n)[k]
      {
      }
    }
  }

  lemma StoreLoad(m: Mem, a: nat, n: nat, v: nat, b: nat, k: nat)
    requires m.Holds(a, n) && m.Holds(b, k) && v < Pow256(n)
    ensures b == a && k == n ==> m.Store(a, n, v).Load(b, k) == v
    ensures b + k <= a || a + n <= b ==> m.Store(a, n, v).Load(b, k) == m.Load(b, k)
  {
    PutSlice(m, a, LeBytes(v, n), b, k);
    LeRoundTrip(v, n);
  }

  // -------------------------------------------------------------------------
  // Block headers

  /** A header: offsets 0, 8, 16, 24 and 32; the data starts at offset 40. */
  datatype Header = Header(free: nat, size: nat, next: nat, prev: nat, ptr: nat)

  function ReadHeader(m: Mem, h: nat): (r: Header)
    requires m.Holds(h, META_BLOCK_SIZE)
  {
    Header(m.Load(h, 4), m.Load(h + 8, 8), m.Load(h + 16, 8), m.Load(h + 24, 8), m.Load(h + 32, 8))
  }

  /** The two memories differ at most in the `n` bytes at `a`. */
  ghost predicate SameOutside(m: Mem, m': Mem, a: nat, n: nat) {
    && m'.start == m.start && |m'.bytes| == |m.bytes|
    && forall k :: 0 <= k < |m.bytes| && !(a <= m.start + k < a + n) ==> m'.bytes[k] == m.bytes[k]
  }

  lemma SliceKept(m: Mem, m': Mem, a: nat, n: nat, b: nat, k: nat)
    requires SameOutside(m, m', a, n) && m.Holds(b, k) && (b + k <= a || a + n <= b)
    ensures m'.Slice(b, k) == m.Slice(b, k)
  {
  }

  lemma SlicePrefix(m: Mem, a: nat, n: nat, k: nat)
    requires m.Holds(a, n) && k <= n
    ensures m.Slice(a, k) == m.Slice(a, n)[..k]
  {
    assert forall j :: 0 <= j < k ==> m.Slice(a, k)[j] == m.bytes[a - m.start + j];
    assert forall j :: 0 <= j < n ==> m.Slice(a, n)[j] == m.bytes[a - m.start + j];
  }

  lemma SlicePoke(m: Mem, m': Mem, a: nat, n: nat, k: nat, c: seq<octet>)
    requires m.Holds(a, n) && k < n && SameOutside(m, m', a + k, 1) && |c| == n
    requires forall j {:trigger c[j]} :: 0 <= j < n ==> c[j] == if j == k then m'.bytes[a - m.start + k]
             else m.Slice(a, n)[j]
    ensures m'.Slice(a, n) == c
  {
    forall j | 0 <= j < n
      ensures m'.Slice(a, n)[j] == c[j]
    {
      assert m.Slice(a, n)[j] == m.bytes[a - m.start + j];
    }
  }

  lemma HeaderKept(m: Mem, m': Mem, a: nat, n: nat, h: nat)
    requires SameOutside(m, m', a, n) && m.Holds(h, META_BLOCK_SIZE)
    requires h + META_BLOCK_SIZE <= a || a + n <= h
    ensures ReadHeader(m', h) == ReadHeader(m, h)
  {
    SliceKept(m, m', a, n, h, 4);
    SliceKept(m, m', a, n, h + 8, 8);
    SliceKept(m, m', a, n, h + 16, 8);
    SliceKept(m, m', a, n, h + 24, 8);
    SliceKept(m, m', a, n, h + 32, 8);
  }

  lemma StoreOutside(m: Mem, a: nat, n: nat, v: nat)
    requires m.Holds(a, n)
    ensures SameOutside(m, m.Store(a, n, v), a, n)
  {
  }

  /** Storing one member of a header changes that member and no other. */
  lemma StoreHeader(m: Mem, h: nat, v: nat)
    requires m.Holds(h, META_BLOCK_SIZE) && v < WORD
    ensures v < 0x1_0000_0000 ==> ReadHeader(m.Store(h, 4, v), h) == ReadHeader(m, h).(free := v)
    ensures ReadHeader(m.Store(h + 8, 8, v), h) == ReadHeader(m, h).(size := v)
    ensures ReadHeader(m.Store(h + 16, 8, v), h) == ReadHeader(m, h).(next := v)
    ensures ReadHeader(m.Store(h + 24, 8, v), h) == ReadHeader(m, h).(prev := v)
    ensures ReadHeader(m.Store(h + 32, 8, v), h) == ReadHeader(m, h).(ptr := v)
  {
    hide Mem.Store, Mem.Load;
    Pow256Values();
    if v < 0x1_0000_0000 {
      StoreLoad(m, h, 4, v, h, 4);
      StoreLoad(m, h, 4, v, h + 8, 8);
      StoreLoad(m, h, 4, v, h + 16, 8);
      StoreLoad(m, h, 4, v, h + 24, 8);
      StoreLoad(m, h, 4, v, h + 32, 8);
    }
    StoreMember(m, h, 8, v);
    StoreMember(m, h, 16, v);
    StoreMember(m, h, 24, v);
    StoreMember(m, h, 32, v);
  }

  lemma StoreMember(m: Mem, h: nat, at: nat, v: nat)
    requires m.Holds(h, META_BLOCK_SIZE) && v < WORD && at in {8, 16, 24, 32}
    ensures m.Store(h + at, 8, v).Load(h, 4) == m.Load(h, 4)
    ensures m.Store(h + at, 8, v).Load(h + 8, 8) == if at == 8 then v else m.Load(h + 8, 8)
    ensures m.Store(h + at, 8, v).Load(h + 16, 8) == if at == 16 then v else m.Load(h + 16, 8)
    ensures m.Store(h + at, 8, v).Load(h + 24, 8) == if at == 24 then v else m.Load(h + 24, 8)
    ensures m.Store(h + at, 8, v).Load(h + 32, 8) == if at == 32 then v else m.Load(h + 32, 8)
  {
    hide Mem.Store, Mem.Load;
    Pow256Values();
    StoreLoad(m, h + at, 8, v, h, 4);
    StoreLoad(m, h + at, 8, v, h + 8, 8);
    StoreLoad(m, h + at, 8, v, h + 16, 8);
    StoreLoad(m, h + at, 8, v, h + 24, 8);
    StoreLoad(m, h + at, 8, v, h + 32, 8);
  }
}
