/**
 The physical page allocator (src/mem/pmm.c:111-142): one bit per page, first fit with a scan
 that jumps over the pages it has already looked at.
 */
module Pmm {
  import opened Arith
  import opened Bits

  const BLOCK_SIZE: nat := 4096

  // -------------------------------------------------------------------------
  // Single bits of the bitmap

  lemma UpdateBit(data: seq<byte>, k: nat, v: byte, b: bool)
    requires k < 8 * |data| && ByteBits(v) == ByteBits(data[k / 8])[k % 8 := b]
    ensures BitsOf(data[k / 8 := v]) == BitsOf(data)[k := b]
  {
    hide ByteBits, BitsOf, Splice;
    BitsOfUpdate(data, k / 8, v);
    var before, at := ByteBits(data[k / 8]), 8 * (k / 8);
    var r, e := Splice(BitsOf(data), at, ByteBits(v)), BitsOf(data)[k := b];
    assert k == at + k % 8;
    forall j | 0 <= j < 8 * |data|
      ensures r[j] == e[j]
    {
      SpliceIndex(BitsOf(data), at, ByteBits(v), j);
      if at <= j < at + 8 {
        assert BitsOf(data)[at..at + 8][j - at] == before[j - at];
      }
    }
  }

  lemma TestedBit(data: seq<byte>, k: nat)
    requires k < 8 * |data|
    ensures (data[k / 8] & (1 << Small(k % 8)) != 0) == BitsOf(data)[k]
  {
    MaskTest(data[k / 8], Small(k % 8));
  }

  // -------------------------------------------------------------------------
  // What the scan looks for

  /** A request of `size` bytes in pages, in 64-bit arithmetic. */
  function PagesNeeded(size: nat): (n: nat) {
    (size + BLOCK_SIZE - 1) % WORD / BLOCK_SIZE
  }

  /** The pages cover the request exactly when rounding up does not wrap. */
  lemma PagesCover(size: nat)
    requires size < WORD
    ensures BLOCK_SIZE * PagesNeeded(size) >= size <==> size <= WORD - BLOCK_SIZE
    ensures 0 < PagesNeeded(size) <==> 0 < size <= WORD - BLOCK_SIZE
  {
  }

  /** Page `i` is clear and starts `n` clear pages. */
  ghost predicate FitsAt(used: bits, i: nat, n: nat) {
    i < |used| && !used[i] && i + n <= |used| && forall k :: i <= k < i + n ==> !used[k]
  }

  /** The first place that fits. */
  ghost predicate FirstFit(used: bits, i: nat, n: nat) {
    FitsAt(used, i, n) && forall j {:trigger FitsAt(used, j, n)} :: 0 <= j < i ==> !FitsAt(used, j, n)
  }

  /** The bits with the `n` from `i` on set to `b`. */
  function Mark(used: bits, i: nat, n: nat, b: bool): (r: bits)
    requires i + n <= |used|
    ensures |r| == |used|
  {
    used[..i] + seq(n, _ => b) + used[i + n..]
  }

  lemma MarkStep(used: bits, i: nat, n: nat, b: bool)
    requires i + n <= |used|
    ensures Mark(used, i, 0, b) == used
    ensures i + n < |used| ==> Mark(used, i, n, b)[i + n := b] == Mark(used, i, n + 1, b)
  {
  }

  /** How many pages are clear. */
  ghost function ClearPages(used: bits): (n: nat) {
    if used == [] then 0 else ClearPages(used[..|used| - 1]) + (if used[|used| - 1] then 0 else 1)
  }

  /** A clear page is found if there is one, and taking it leaves one less. */
  lemma {:induction false} TakeOne(used: bits, i: nat)
    ensures FitsAt(used, i, 1) ==> ClearPages(Mark(used, i, 1, true)) == ClearPages(used) - 1
    ensures ClearPages(used) > 0 ==> exists j :: FitsAt(used, j, 1)
  {
    if used != [] {
      var n := |used| - 1;
      TakeOne(used[..n], i);
      if FitsAt(used, i, 1) {
        assert i < n ==> Mark(used, i, 1, true)[..n] == Mark(used[..n], i, 1, true) && FitsAt(used[..n], i, 1);
        assert i == n ==> Mark(used, i, 1, true)[..n] == used[..n];
      }
      if ClearPages(used[..n]) > 0 {
        var j :| FitsAt(used[..n], j, 1);
        assert FitsAt(used, j, 1);
      } else {
        assert !used[n] ==> FitsAt(used, n, 1);
      }
    }
  }

  class Pages {
    const bitmap: array<byte>
    const totalPages: nat
    const base: nat

    /** The bitmap has a bit for every page, and the pages fit the address space. */
    ghost predicate Valid() {
      && totalPages <= 8 * bitmap.Length
      && base % BLOCK_SIZE == 0 && base + totalPages * BLOCK_SIZE <= WORD
    }

    /** One bit per page: in use or not. */
    ghost function Used(): (r: bits)
      requires Valid()
      reads bitmap
      ensures |r| == totalPages
    {
      BitsOf(bitmap[..])[..totalPages]
    }

    method Test(k: nat) returns (r: bool)
      requires Valid() && k < totalPages
      ensures r == Used()[k]
    {
      TestedBit(bitmap[..], k);
      r := bitmap[k / 8] & (1 << Small(k % 8)) != 0;
    }

    method Set(k: nat, b: bool)
      requires Valid() && k < totalPages
      modifies bitmap
      ensures Used() == old(Used())[k := b]
    {
      hide WithBit, ByteBits, BitsOf;
      ghost var data := bitmap[..];
      WithBitBits(data[k / 8], k % 8, b);
      var v := WithBit(bitmap[k / 8], k % 8, b);
      UpdateBit(data, k, v, b);
      bitmap[k / 8] := v;
      assert bitmap[..] == data[k / 8 := v];
      assert BitsOf(data)[k := b][..totalPages] == BitsOf(data)[..totalPages][k := b];
    }

    /**
     `pmm_alloc_page`: marks the first run of clear pages that is long enough and returns its address,
     or returns zero and marks nothing if there is none.
     */
    method AllocPage(size: nat) returns (addr: nat, ghost page: nat)
      requires Valid() && size < WORD
      modifies bitmap
      ensures var n := PagesNeeded(size);
              if exists i :: FitsAt(old(Used()), i, n) then
                && FirstFit(old(Used()), page, n) && addr == base + page * BLOCK_SIZE
                && Used() == Mark(old(Used()), page, n, true)
              else
                addr == 0 && Used() == old(Used())
    {
      hide BitsOf, PagesNeeded, Mark;
      var needed, i := PagesNeeded(size), 0;
      ghost var used := Used();
      while i < totalPages
        invariant 0 <= i
        invariant Used() == used
        invariant forall j {:trigger FitsAt(used, j, needed)} :: 0 <= j < i ==> !FitsAt(used, j, needed)
      {
        var taken := Test(i);
        if !taken {
          var j := i;
          while j < i + needed && j < totalPages
            invariant i <= j <= i + needed && j <= totalPages
            invariant Used() == used
            invariant forall k :: i <= k < j ==> !used[k]
          {
            taken := Test(j);
            if taken {
              break;
            }
            j := j + 1;
          }
          if j == i + needed {
            assert FitsAt(used, i, needed);
            MarkRange(i, needed, true);
            return base + i * BLOCK_SIZE, i;
          }
          forall i' | i <= i' <= j
            ensures !FitsAt(used, i', needed)
          {
          }
          i := j;
        }
        i := i + 1;
      }
      return 0, 0;
    }

    /** The marking loops of `pmm_alloc_page` and `pmm_free`. */
    method MarkRange(i: nat, n: nat, b: bool)
      requires Valid() && i + n <= totalPages
      modifies bitmap
      ensures Used() == Mark(old(Used()), i, n, b)
    {
      hide BitsOf, Mark;
      ghost var used := Used();
      var k := i;
      MarkStep(used, i, 0, b);
      while k < i + n
        invariant i <= k <= i + n
        invariant Used() == Mark(used, i, k - i, b)
      {
        Set(k, b);
        MarkStep(used, i, k - i, b);
        k := k + 1;
      }
    }

    /** `pmm_free`: clears the pages; address zero is ignored. */
    method Free(addr: nat, pages: nat)
      requires Valid()
      requires addr != 0 ==> base <= addr && (addr - base) / BLOCK_SIZE + pages <= totalPages
      modifies bitmap
      ensures Used() == if addr == 0 then old(Used()) else Mark(old(Used()), (addr - base) / BLOCK_SIZE, pages, false)
    {
      if addr == 0 {
        return;
      }
      MarkRange((addr - base) / BLOCK_SIZE, pages, false);
    }

    /** A call of the allocator is a step of the runs below; callers return what they were given, by its first page. */
    method Perform(e: Event, pages: nat, ghost s: State) returns (ghost t: State)
      requires Valid() && s.used == Used() && 0 < base
      requires match e
               case Alloc(size) => size < WORD
               case Release(page) => page in s.out && s.out[page] == pages && page + pages <= totalPages
      modifies bitmap
      ensures t.used == Used() && Step(s, e, t)
    {
      hide BitsOf, Mark, PagesNeeded;
      match e {
        case Alloc(size) =>
          ghost var page;
          var addr;
          addr, page := AllocPage(size);
          t := if exists i :: FitsAt(s.used, i, PagesNeeded(size)) then State(Used(), s.out[page := PagesNeeded(size)])
            else s;
        case Release(page) =>
          assert (base + page * BLOCK_SIZE - base) / BLOCK_SIZE == page;
          Free(base + page * BLOCK_SIZE, pages);
          t := State(Used(), s.out - {page});
      }
    }
  }

  // -------------------------------------------------------------------------
  // Whole runs

  /** The bitmap, and the runs of pages that callers have been given and not returned. */
  datatype State = State(used: bits, out: map<nat, nat>)

  datatype Event = Alloc(size: nat) | Release(page: nat)

  ghost predicate Apart(out: map<nat, nat>, i: nat, j: nat)
    requires i in out && j in out
  {
    i + out[i] <= j || j + out[j] <= i || out[i] == 0 || out[j] == 0
  }

  ghost predicate Taken(used: bits, i: nat, n: nat, reserved: set<nat>) {
    i + n <= |used| && forall k {:trigger used[k]} :: i <= k < i + n ==> used[k] && k !in reserved
  }

  /** Reserved pages are marked; pages given out are marked, not reserved and given out once. */
  ghost predicate Accounted(s: State, reserved: set<nat>) {
    && (forall k :: k in reserved ==> k < |s.used| && s.used[k])
    && (forall i {:trigger i in s.out} :: i in s.out ==> Taken(s.used, i, s.out[i], reserved))
    && (forall i, j {:trigger Apart(s.out, i, j)} :: i in s.out && j in s.out && i != j ==> Apart(s.out, i, j))
  }

  /** One call of the allocator; callers return only what they were given. */
  ghost predicate Step(s: State, e: Event, s': State) {
    match e
    case Alloc(size) =>
      var n := PagesNeeded(size);
      if exists i :: FitsAt(s.used, i, n) then
        exists i :: FirstFit(s.used, i, n) && s' == State(Mark(s.used, i, n, true), s.out[i := n])
      else s' == s
    case Release(page) =>
      page in s.out && page + s.out[page] <= |s.used|
      && s' == State(Mark(s.used, page, s.out[page], false), s.out - {page})
  }

  ghost predicate Run(states: seq<State>, events: seq<Event>) {
    |states| == |events| + 1 && forall t {:trigger events[t]} :: 0 <= t < |events| ==>
      Step(states[t], events[t], states[t + 1])
  }

  lemma AllocKeeps(s: State, i: nat, n: nat, reserved: set<nat>)
    requires Accounted(s, reserved) && FitsAt(s.used, i, n)
    ensures Accounted(State(Mark(s.used, i, n, true), s.out[i := n]), reserved)
  {
    var t := State(Mark(s.used, i, n, true), s.out[i := n]);
    forall j {:trigger j in t.out} | j in t.out
      ensures Taken(t.used, j, t.out[j], reserved)
    {
      if j != i {
        assert Taken(s.used, j, s.out[j], reserved);
      } else {
        forall k | i <= k < i + n
          ensures k !in reserved
        {
          assert !s.used[k];
        }
      }
    }
    forall j, k {:trigger Apart(t.out, j, k)} | j in t.out && k in t.out && j != k
      ensures Apart(t.out, j, k)
    {
      if j != i && k != i {
        assert Apart(s.out, j, k);
      } else {
        NewApart(s, i, n, reserved, if j == i then k else j);
      }
    }
  }

  /** Clear pages are not part of anything given out. */
  lemma NewApart(s: State, i: nat, n: nat, reserved: set<nat>, j: nat)
    requires Accounted(s, reserved) && FitsAt(s.used, i, n) && j in s.out
    ensures i + n <= j || j + s.out[j] <= i || n == 0 || s.out[j] == 0
  {
    assert Taken(s.used, j, s.out[j], reserved);
    var k := if i < j then j else i;
    assert i <= k < i + n ==> !s.used[k];
    assert j <= k < j + s.out[j] ==> s.used[k];
  }

  lemma ReleaseKeeps(s: State, i: nat, reserved: set<nat>)
    requires Accounted(s, reserved) && i in s.out && i + s.out[i] <= |s.used|
    ensures Accounted(State(Mark(s.used, i, s.out[i], false), s.out - {i}), reserved)
  {
    var t := State(Mark(s.used, i, s.out[i], false), s.out - {i});
    assert Taken(s.used, i, s.out[i], reserved);
    forall k | k in reserved
      ensures t.used[k]
    {
      assert s.used[k];
    }
    forall j {:trigger j in t.out} | j in t.out
      ensures Taken(t.used, j, t.out[j], reserved)
    {
      assert Taken(s.used, j, s.out[j], reserved) && Apart(s.out, i, j);
    }
    forall j, k {:trigger Apart(t.out, j, k)} | j in t.out && k in t.out && j != k
      ensures Apart(t.out, j, k)
    {
      assert Apart(s.out, j, k);
    }
  }

  /** In every run, what is given out stays disjoint and never touches a reserved page. */
  lemma {:induction false} RunKeeps(states: seq<State>, events: seq<Event>, reserved: set<nat>)
    requires Run(states, events) && Accounted(states[0], reserved)
    ensures Accounted(states[|events|], reserved)
    decreases |events|
  {
    if events != [] {
      var n := |events| - 1;
      RunKeeps(states[..|events|], events[..n], reserved);
      assert Step(states[n], events[n], states[n + 1]);
      match events[n]
      case Alloc(size) =>
        var pages := PagesNeeded(size);
        if exists i :: FitsAt(states[n].used, i, pages) {
          var i :| FirstFit(states[n].used, i, pages) &&
              states[n + 1] == State(Mark(states[n].used, i, pages, true), states[n].out[i := pages]);
          AllocKeeps(states[n], i, pages, reserved);
        }
      case Release(page) =>
        ReleaseKeeps(states[n], page, reserved);
    }
  }
}
