/**
 Four-level page tables (src/mem/paging.c:95-195; section 4.5 of the Intel SDM, volume 3A). The tables
 are pages taken from the page allocator; together they must act as one map from page to entry.
 */
module Paging {
  import opened Arith
  import opened Pmm

  const PAGE_SIZE: nat := 4096
  const VPNS: nat := 0x10_0000_0000

  /** How many frames an entry can name, and how many bytes those have. */
  const FRAMES: nat := 0x100_0000_0000
  const PHYSICAL: nat := 0x10_0000_0000_0000

  datatype Option<T> = None | Some(value: T)

  /** A physical page number, as wide as the field of an entry. */
  type frame = f: int | 0 <= f < FRAMES

  /** A table entry (`PageEntry`). */
  datatype Entry = Entry(present: bool, writable: bool, userAccessible: bool, writeThroughCaching: bool,
                         disableCache: bool, accessed: bool, dirty: bool, nullBit: bool, global: bool, avl1: nat,
                         physicalAddress: frame, avl2: nat, noExecute: bool)

  const CLEAR := Entry(false, false, false, false, false, false, false, false, false, 0, 0, 0, false)

  type Table = t: seq<Entry> | |t| == 512 witness Cleared()

  function Cleared(): (r: seq<Entry>)
    ensures |r| == 512
  {
    seq(512, _ => CLEAR)
  }

  /** `setPageTableEntry`; the flags come in eight bits, so bits 8 and 9 of them are never set. */
  function SetEntry(entry: Entry, flags: bv8, physical: nat, available: nat): (r: Entry) {
    Entry(flags & 1 != 0, flags & 2 != 0, flags & 4 != 0, flags & 8 != 0, flags & 16 != 0, false, false,
          entry.nullBit, false, available % 4, physical / PAGE_SIZE % FRAMES, available / 8, false)
  }

  // -------------------------------------------------------------------------
  // Addresses

  /** The number of the page an address is in: bits 12 to 47. */
  function Vpn(virt: nat): (n: nat)
    ensures n < VPNS
  {
    virt / PAGE_SIZE % VPNS
  }

  /** The index of an address into the table of level 4, 3, 2 or 1. */
  function Index(level: nat, virt: nat): (i: nat)
    requires 1 <= level <= 4
    ensures i < 512
  {
    match level
    case 4 => virt / 0x80_0000_0000 % 512
    case 3 => virt / 0x4000_0000 % 512
    case 2 => virt / 0x20_0000 % 512
    case 1 => virt / 0x1000 % 512
  }

  /** Addresses with the same four indices are in the same page. */
  lemma IndicesDetermine(a: nat, b: nat)
    ensures (Index(4, a) == Index(4, b) && Index(3, a) == Index(3, b) && Index(2, a) == Index(2, b) &&
             Index(1, a) == Index(1, b))
       <==> Vpn(a) == Vpn(b)
  {
    hide Index, Vpn;
    VpnDigits(a);
    VpnDigits(b);
  }

  lemma VpnDigits(a: nat)
    ensures Vpn(a) == ((Index(4, a) * 512 + Index(3, a)) * 512 + Index(2, a)) * 512 + Index(1, a)
  {
    var v := a / 0x1000;
    var q1 := v / 512;
    var q2 := q1 / 512;
    var q3 := q2 / 512;
    assert a / 0x20_0000 == q1 && a / 0x4000_0000 == q2 && a / 0x80_0000_0000 == q3;
    assert v == 512 * (512 * (512 * (512 * (q3 / 512) + q3 % 512) + q2 % 512) + q1 % 512) + v % 512;
    assert v % VPNS == v - VPNS * (q3 / 512);
  }

  // -------------------------------------------------------------------------
  // Tables in memory

  /** Physical memory, page by page, read as tables. */
  type Memory = map<frame, Table>

  /** Where a table hangs: its level and the entry that points to it. */
  datatype Slot = Slot(level: nat, parent: frame, index: nat)

  type Tree = map<frame, Slot>

  ghost predicate Whole(mem: Memory) {
    forall f: frame :: f in mem
  }

  /** An entry of an upper table is absent or points to a table that hangs there and nowhere else. */
  ghost predicate Linked(mem: Memory, tree: Tree, f: frame, i: nat)
    requires f in mem && f in tree && i < 512
  {
    2 <= tree[f].level && mem[f][i].present ==>
      var c := mem[f][i].physicalAddress; c in tree && tree[c] == Slot(tree[f].level - 1, f, i)
  }

  ghost predicate IsTree(mem: Memory, root: frame, tree: Tree) {
    && Whole(mem)
    && root in tree && tree[root].level == 4
    && (forall f :: f in tree ==> 1 <= tree[f].level <= 4)
    && (forall f, i {:trigger Linked(mem, tree, f, i)} :: f in tree && 0 <= i < 512 ==> Linked(mem, tree, f, i))
  }

  /** The table of a level that an address leads to. */
  function Node(mem: Memory, root: frame, level: nat, virt: nat): (r: Option<frame>)
    requires Whole(mem) && 1 <= level <= 4
    decreases 4 - level
  {
    if level == 4 then Some(root)
    else match Node(mem, root, level + 1, virt)
      case None => None
      case Some(f) =>
        var e := mem[f][Index(level + 1, virt)];
        if e.present then Some(e.physicalAddress) else None
  }

  /** The entry that an address leads to; a clear one where a table is missing. */
  function Leaf(mem: Memory, root: frame, virt: nat): (r: Entry)
    requires Whole(mem)
  {
    match Node(mem, root, 1, virt)
    case None => CLEAR
    case Some(f) => mem[f][Index(1, virt)]
  }

  lemma NodeInTree(mem: Memory, root: frame, tree: Tree, level: nat, virt: nat)
    requires IsTree(mem, root, tree) && 1 <= level <= 4
    ensures var n := Node(mem, root, level, virt); n.Some? ==> n.value in tree && tree[n.value].level == level
    decreases 4 - level
  {
    if level < 4 {
      NodeInTree(mem, root, tree, level + 1, virt);
      var n := Node(mem, root, level + 1, virt);
      if n.Some? {
        assert Linked(mem, tree, n.value, Index(level + 1, virt));
      }
    }
  }

  /** Addresses that lead to the same table agree on the indices above it. */
  lemma NodeUnique(mem: Memory, root: frame, tree: Tree, level: nat, a: nat, b: nat)
    requires IsTree(mem, root, tree) && 1 <= level <= 4
    requires Node(mem, root, level, a) == Node(mem, root, level, b) != None
    ensures forall k {:trigger Index(k, a)} :: level < k <= 4 ==> Index(k, a) == Index(k, b)
    decreases 4 - level
  {
    if level < 4 {
      NodeInTree(mem, root, tree, level + 1, a);
      NodeInTree(mem, root, tree, level + 1, b);
      var f, g := Node(mem, root, level + 1, a), Node(mem, root, level + 1, b);
      assert Linked(mem, tree, f.value, Index(level + 1, a));
      assert Linked(mem, tree, g.value, Index(level + 1, b));
      NodeUnique(mem, root, tree, level + 1, a, b);
    }
  }

  /** The way to a table is read from tables above it only. */
  lemma SameNode(mem: Memory, mem': Memory, root: frame, tree: Tree, level: nat, virt: nat)
    requires IsTree(mem, root, tree) && Whole(mem') && 1 <= level <= 4
    requires forall f {:trigger mem'[f]} :: f in tree && tree[f].level > level ==> mem'[f] == mem[f]
    ensures Node(mem', root, level, virt) == Node(mem, root, level, virt)
    decreases 4 - level
  {
    if level < 4 {
      SameNode(mem, mem', root, tree, level + 1, virt);
      NodeInTree(mem, root, tree, level + 1, virt);
    }
  }

  // -------------------------------------------------------------------------
  // Writing an entry of the last level

  ghost predicate Reaches(mem: Memory, root: frame, tree: Tree, level: nat, virt: nat, f: frame) {
    Whole(mem) && IsTree(mem, root, tree) && 1 <= level <= 4 && Node(mem, root, level, virt) == Some(f)
  }

  function Put(mem: Memory, f: frame, i: nat, e: Entry): (r: Memory)
    requires Whole(mem) && i < 512
    ensures Whole(r)
  {
    mem[f := mem[f][i := e]]
  }

  lemma PutLeafKeepsTree(mem: Memory, root: frame, tree: Tree, virt: nat, f: frame, e: Entry)
    requires Reaches(mem, root, tree, 1, virt, f)
    ensures IsTree(Put(mem, f, Index(1, virt), e), root, tree)
  {
    var r := Put(mem, f, Index(1, virt), e);
    NodeInTree(mem, root, tree, 1, virt);
    forall g, i {:trigger Linked(r, tree, g, i)} | g in tree && 0 <= i < 512
      ensures Linked(r, tree, g, i)
    {
      assert Linked(mem, tree, g, i);
    }
  }

  /** Writing the entry of one page changes that page and no other. */
  lemma PutLeaf(mem: Memory, root: frame, tree: Tree, virt: nat, f: frame, e: Entry, other: nat)
    requires Reaches(mem, root, tree, 1, virt, f)
    ensures Leaf(Put(mem, f, Index(1, virt), e), root, other) == if Vpn(other) == Vpn(virt) then e
            else Leaf(mem, root, other)
  {
    hide Index, Vpn, Node, IsTree;
    NodeInTree(mem, root, tree, 1, virt);
    var r := Put(mem, f, Index(1, virt), e);
    SameNode(mem, r, root, tree, 1, other);
    IndicesDetermine(virt, other);
    assert Node(r, root, 1, other) == Node(mem, root, 1, other);
    if Node(mem, root, 1, other) == Some(f) {
      NodeUnique(mem, root, tree, 1, virt, other);
      assert Index(2, virt) == Index(2, other) && Index(3, virt) == Index(3, other) &&
          Index(4, virt) == Index(4, other);
    } else if Vpn(other) == Vpn(virt) {
      SameIndices(mem, root, 1, virt, other);
      assert false;
    }
  }

  lemma SameIndices(mem: Memory, root: frame, level: nat, a: nat, b: nat)
    requires Whole(mem) && 1 <= level <= 4
    requires forall k {:trigger Index(k, a)} :: level < k <= 4 ==> Index(k, a) == Index(k, b)
    ensures Node(mem, root, level, a) == Node(mem, root, level, b)
    decreases 4 - level
  {
    if level < 4 {
      SameIndices(mem, root, level + 1, a, b);
    }
  }

  // -------------------------------------------------------------------------
  // Hanging a new table

  function Hang(mem: Memory, f: frame, i: nat, c: frame, e: Entry): (r: Memory)
    requires Whole(mem) && i < 512
    ensures Whole(r)
  {
    Put(mem[c := Cleared()], f, i, e)
  }

  ghost predicate Hangs(mem: Memory, root: frame, tree: Tree, level: nat, virt: nat, f: frame, c: frame, e: Entry) {
    && Reaches(mem, root, tree, level, virt, f) && 2 <= level
    && !mem[f][Index(level, virt)].present
    && c !in tree && e.present && e.physicalAddress == c
  }

  lemma HangKeepsTree(mem: Memory, root: frame, tree: Tree, level: nat, virt: nat, f: frame, c: frame, e: Entry)
    requires Hangs(mem, root, tree, level, virt, f, c, e)
    ensures var r := Hang(mem, f, Index(level, virt), c, e);
            IsTree(r, root, tree[c := Slot(level - 1, f, Index(level, virt))])
  {
    NodeInTree(mem, root, tree, level, virt);
    var r, t := Hang(mem, f, Index(level, virt), c, e), tree[c := Slot(level - 1, f, Index(level, virt))];
    forall g, i {:trigger Linked(r, t, g, i)} | g in t && 0 <= i < 512
      ensures Linked(r, t, g, i)
    {
      if g != c {
        assert Linked(mem, tree, g, i);
      }
    }
  }

  lemma HangReaches(mem: Memory, root: frame, tree: Tree, level: nat, virt: nat, f: frame, c: frame, e: Entry)
    requires Hangs(mem, root, tree, level, virt, f, c, e)
    ensures Node(Hang(mem, f, Index(level, virt), c, e), root, level - 1, virt) == Some(c)
  {
    hide IsTree;
    NodeInTree(mem, root, tree, level, virt);
    SameNode(mem, Hang(mem, f, Index(level, virt), c, e), root, tree, level, virt);
  }

  /** A new, clear table maps nothing: every page keeps its entry. */
  lemma HangLeaf(mem: Memory, root: frame, tree: Tree, level: nat, virt: nat, f: frame, c: frame, e: Entry, other: nat)
    requires Hangs(mem, root, tree, level, virt, f, c, e)
    ensures Leaf(Hang(mem, f, Index(level, virt), c, e), root, other) == Leaf(mem, root, other)
  {
    assert Node(mem, root, level - 1, virt) == None;
    hide Index, SameWay, Node;
    HangNode(mem, root, tree, level, virt, f, c, e, other, 1);
    NodeInTree(mem, root, tree, 1, other);
    NodeInTree(mem, root, tree, level, virt);
    if level == 2 && SameWay(1, other, virt) {
      SameWayNode(mem, root, 1, other, virt);
    }
  }

  // -------------------------------------------------------------------------
  // Which tables there are

  /** The addresses go the same way down to a table of a level. */
  ghost predicate SameWay(level: nat, a: nat, b: nat)
    requires 1 <= level <= 4
  {
    forall k {:trigger Index(k, a)} :: level < k <= 4 ==> Index(k, a) == Index(k, b)
  }

  predicate Has(mem: Memory, root: frame, level: nat, virt: nat)
    requires Whole(mem) && 1 <= level <= 4
  {
    Node(mem, root, level, virt).Some?
  }

  /** A new table is on the way of the addresses it was hung for, and no other way changes. */
  lemma HangNode(mem: Memory, root: frame, tree: Tree, level: nat, virt: nat, f: frame, c: frame, e: Entry, other: nat,
                 k: nat)
    requires Hangs(mem, root, tree, level, virt, f, c, e) && 1 <= k <= 4
    ensures Node(Hang(mem, f, Index(level, virt), c, e), root, k, other)
         == if k == level - 1 && SameWay(k, other, virt) then Some(c) else Node(mem, root, k, other)
    decreases 4 - k
  {
    hide Index, IsTree, SameWay;
    var r := Hang(mem, f, Index(level, virt), c, e);
    NodeInTree(mem, root, tree, level, virt);
    if k >= level {
      SameNode(mem, r, root, tree, k, other);
    } else {
      HangNode(mem, root, tree, level, virt, f, c, e, other, k + 1);
      NodeInTree(mem, root, tree, k + 1, other);
      if k == level - 1 {
        SameWayStep(level, other, virt);
        if SameWay(level, other, virt) {
          SameWayNode(mem, root, level, other, virt);
        }
        if Node(mem, root, level, other) == Some(f) {
          NodeSameWay(mem, root, tree, level, other, virt);
        }
      } else if k + 1 == level - 1 && SameWay(k + 1, other, virt) {
        SameWayNode(mem, root, level - 1, other, virt);
      }
    }
  }

  lemma SameWayStep(level: nat, a: nat, b: nat)
    requires 2 <= level <= 4
    ensures SameWay(level - 1, a, b) <==> SameWay(level, a, b) && Index(level, a) == Index(level, b)
  {
    hide Index;
    assert SameWay(level - 1, a, b) ==> Index(level, a) == Index(level, b);
    if SameWay(level, a, b) && Index(level, a) == Index(level, b) {
      forall k {:trigger Index(k, a)} | level - 1 < k <= 4
        ensures Index(k, a) == Index(k, b)
      {
      }
    }
  }

  lemma SameWayNode(mem: Memory, root: frame, level: nat, a: nat, b: nat)
    requires Whole(mem) && 1 <= level <= 4 && SameWay(level, a, b)
    ensures Node(mem, root, level, a) == Node(mem, root, level, b)
  {
    hide Index, Node;
    SameIndices(mem, root, level, a, b);
  }

  lemma NodeSameWay(mem: Memory, root: frame, tree: Tree, level: nat, a: nat, b: nat)
    requires IsTree(mem, root, tree) && 1 <= level <= 4
    requires Node(mem, root, level, a) == Node(mem, root, level, b) != None
    ensures SameWay(level, a, b)
  {
    hide Index, Node, IsTree;
    NodeUnique(mem, root, tree, level, a, b);
  }

  /** From one state to a later one, exactly the tables on the way of an address have been added, down to a level. */
  ghost predicate Added(m0: Memory, m1: Memory, root: frame, level: nat, virt: nat) {
    && Whole(m0) && Whole(m1) && 1 <= level <= 4
    && forall k: nat, v: nat {:trigger Has(m1, root, k, v)} :: 1 <= k <= 4 ==>
         (Has(m1, root, k, v) <==> Has(m0, root, k, v) || (level <= k && SameWay(k, v, virt)))
  }

  lemma AddedFact(m0: Memory, m1: Memory, root: frame, level: nat, virt: nat, k: nat, v: nat)
    requires Added(m0, m1, root, level, virt) && 1 <= k <= 4
    ensures Has(m1, root, k, v) <==> Has(m0, root, k, v) || (level <= k && SameWay(k, v, virt))
  {
  }

  lemma AddedNone(mem: Memory, root: frame, virt: nat)
    requires Whole(mem)
    ensures Added(mem, mem, root, 4, virt)
  {
  }

  /** How many tables are missing on the way of an address. */
  function Missing(mem: Memory, root: frame, virt: nat): (n: nat)
    requires Whole(mem)
    ensures n <= 3
  {
    (if Has(mem, root, 3, virt) then 0 else 1) + (if Has(mem, root, 2, virt) then 0 else 1) +
      (if Has(mem, root, 1, virt) then 0 else 1)
  }

  // -------------------------------------------------------------------------
  // A run of pages

  /** What a page's entry becomes when `n` pages are mapped one after the other: the last one to hit it wins. */
  ghost function After(e: Entry, page: nat, virt: nat, phys: nat, flags: bv8, n: nat): (r: Entry)
    ensures r.nullBit == e.nullBit
  {
    if n == 0 then e
    else
      var before := After(e, page, virt, phys, flags, n - 1);
      if Vpn(Nth(virt, n - 1)) == page then SetEntry(before, flags, Nth(phys, n - 1), 0) else before
  }

  /** The address of the `i`th page, in 64-bit arithmetic. */
  function Nth(address: nat, i: nat): (r: nat)
    ensures r < WORD
  {
    (address + i * PAGE_SIZE) % WORD
  }

  lemma Wrapped(x: nat)
    ensures Vpn(x % WORD) == x / PAGE_SIZE % VPNS && x % WORD % PAGE_SIZE == x % PAGE_SIZE
  {
    var q, r := x / WORD, x % WORD;
    assert x == WORD * q + r;
    assert x / PAGE_SIZE == 0x10_0000_0000_0000 * q + r / PAGE_SIZE;
  }

  lemma VpnNth(virt: nat, i: nat)
    ensures Vpn(Nth(virt, i)) == (virt / PAGE_SIZE + i) % VPNS
  {
    hide Vpn;
    Wrapped(virt + i * PAGE_SIZE);
    assert (virt + i * PAGE_SIZE) / PAGE_SIZE == virt / PAGE_SIZE + i;
  }

  /** Two pages of a run are the same page exactly when they lie a multiple of 2^36 pages apart. */
  lemma SamePage(virt: nat, i: nat, k: nat)
    requires k <= i
    ensures Vpn(Nth(virt, i)) == Vpn(Nth(virt, k)) <==> (i - k) % VPNS == 0
  {
    hide Vpn, Nth;
    VpnNth(virt, i);
    VpnNth(virt, k);
  }

  lemma {:induction false} AfterMiss(e: Entry, page: nat, virt: nat, phys: nat, flags: bv8, n: nat)
    requires forall i {:trigger Nth(virt, i)} :: 0 <= i < n ==> Vpn(Nth(virt, i)) != page
    ensures After(e, page, virt, phys, flags, n) == e
  {
    if n > 0 {
      AfterMiss(e, page, virt, phys, flags, n - 1);
    }
  }

  /** A page that no later page of the run falls on gets the entry that was made for it. */
  lemma {:induction false} AfterHit(e: Entry, virt: nat, phys: nat, flags: bv8, n: nat, k: nat)
    requires k < n <= k + VPNS
    ensures After(e, Vpn(Nth(virt, k)), virt, phys, flags, n) == SetEntry(e, flags, Nth(phys, k), 0)
  {
    hide Vpn, Nth;
    if n - 1 > k {
      SamePage(virt, n - 1, k);
      AfterHit(e, virt, phys, flags, n - 1, k);
    }
  }

  // Which tables a run needs

  /** A page before the `k`th goes the same way down to a table of a level. */
  ghost predicate Earlier(level: nat, virt: nat, v: nat, k: nat)
    requires 1 <= level <= 4
  {
    exists j {:trigger Nth(virt, j)} :: 0 <= j < k && SameWay(level, v, Nth(virt, j))
  }

  ghost function Fresh(m0: Memory, root: frame, virt: nat, k: nat, level: nat): (n: nat)
    requires Whole(m0) && 1 <= level <= 4
    ensures n <= 1
  {
    if Has(m0, root, level, Nth(virt, k)) || Earlier(level, virt, Nth(virt, k), k) then 0 else 1
  }

  /** How many tables the first `n` pages of a run are missing, each counted once. */
  ghost function Needed(m0: Memory, root: frame, virt: nat, n: nat): (r: nat)
    requires Whole(m0)
  {
    if n == 0 then 0
    else
      Needed(m0, root, virt, n - 1)
      + Fresh(m0, root, virt, n - 1, 3) + Fresh(m0, root, virt, n - 1, 2) + Fresh(m0, root, virt, n - 1, 1)
  }

  lemma {:induction false} NeededMonotone(m0: Memory, root: frame, virt: nat, i: nat, n: nat)
    requires Whole(m0) && i <= n
    ensures Needed(m0, root, virt, i) <= Needed(m0, root, virt, n)
  {
    hide Fresh;
    if i < n {
      NeededMonotone(m0, root, virt, i, n - 1);
    }
  }

  /** From one state to a later one, exactly the tables on the ways of the first `i` pages have been added. */
  ghost predicate RunAdded(m0: Memory, m1: Memory, root: frame, virt: nat, i: nat) {
    && Whole(m0) && Whole(m1)
    && forall k: nat, v: nat {:trigger Has(m1, root, k, v)} :: 1 <= k <= 4 ==>
         (Has(m1, root, k, v) <==> Has(m0, root, k, v) || Earlier(k, virt, v, i))
  }

  lemma RunAddedNone(mem: Memory, root: frame, virt: nat)
    requires Whole(mem)
    ensures RunAdded(mem, mem, root, virt, 0)
  {
  }

  lemma RunAddedStep(m0: Memory, m1: Memory, m2: Memory, root: frame, virt: nat, i: nat)
    requires RunAdded(m0, m1, root, virt, i) && Added(m1, m2, root, 1, Nth(virt, i))
    ensures RunAdded(m0, m2, root, virt, i + 1)
  {
    hide Has, SameWay, Nth;
    forall k: nat, v: nat {:trigger Has(m2, root, k, v)} | 1 <= k <= 4
      ensures Has(m2, root, k, v) <==> Has(m0, root, k, v) || Earlier(k, virt, v, i + 1)
    {
      AddedFact(m1, m2, root, 1, Nth(virt, i), k, v);
      RunAddedFact(m0, m1, root, virt, i, k, v);
      EarlierStep(k, virt, v, i);
    }
  }

  lemma EarlierStep(level: nat, virt: nat, v: nat, i: nat)
    requires 1 <= level <= 4
    ensures Earlier(level, virt, v, i + 1) <==> Earlier(level, virt, v, i) || SameWay(level, v, Nth(virt, i))
  {
    hide SameWay, Nth;
    if Earlier(level, virt, v, i) {
      var j :| 0 <= j < i && SameWay(level, v, Nth(virt, j));
      assert SameWay(level, v, Nth(virt, j));
    }
  }

  lemma RunAddedFact(m0: Memory, m1: Memory, root: frame, virt: nat, i: nat, k: nat, v: nat)
    requires RunAdded(m0, m1, root, virt, i) && 1 <= k <= 4
    ensures Has(m1, root, k, v) <==> Has(m0, root, k, v) || Earlier(k, virt, v, i)
  {
  }

  /** What the next page misses is what it is the first of the run to need. */
  lemma MissingFresh(m0: Memory, m1: Memory, root: frame, virt: nat, i: nat)
    requires RunAdded(m0, m1, root, virt, i)
    ensures Missing(m1, root, Nth(virt, i)) ==
            Fresh(m0, root, virt, i, 3) + Fresh(m0, root, virt, i, 2) + Fresh(m0, root, virt, i, 1)
  {
    hide Has, Earlier, Nth;
    RunAddedFact(m0, m1, root, virt, i, 3, Nth(virt, i));
    RunAddedFact(m0, m1, root, virt, i, 2, Nth(virt, i));
    RunAddedFact(m0, m1, root, virt, i, 1, Nth(virt, i));
  }

  // A bound on them

  /** How many pages one table of a level, and all below it, cover. */
  function Span(level: nat): (r: nat)
    requires 1 <= level <= 3
    ensures 0 < r
  {
    match level case 1 => 0x200 case 2 => 0x4_0000 case 3 => 0x800_0000
  }

  /** The page after a page goes the same way unless it starts a new table. */
  lemma NextSameWay(virt: nat, k: nat, level: nat)
    requires 1 <= level <= 3 && (virt / PAGE_SIZE + k + 1) % Span(level) != 0
    ensures SameWay(level, Nth(virt, k + 1), Nth(virt, k))
  {
    hide Nth, Index, Vpn, Span;
    var a, b, p := Nth(virt, k), Nth(virt, k + 1), virt / PAGE_SIZE + k;
    VpnNth(virt, k);
    VpnNth(virt, k + 1);
    assert p + 1 == virt / PAGE_SIZE + (k + 1);
    NextPage(p, level);
    VpnDigits(a);
    VpnDigits(b);
    SameDigits(Index(4, a), Index(3, a), Index(2, a), Index(1, a), Index(4, b), Index(3, b), Index(2, b), Index(1, b),
               level);
    forall j {:trigger Index(j, b)} | level < j <= 4
      ensures Index(j, b) == Index(j, a)
    {
    }
  }

  lemma NextPage(p: nat, level: nat)
    requires 1 <= level <= 3 && (p + 1) % Span(level) != 0
    ensures (p + 1) % VPNS / Span(level) == p % VPNS / Span(level)
  {
    var d, q, r := Span(level), p / VPNS, p % VPNS;
    var e := VPNS / d;
    assert VPNS == d * e;
    DivMod(p, VPNS);
    NotMultiple(p, d, e, q, r);
    DivModUnique(p + 1, VPNS, q, r + 1);
    QuotientStay(r + 1, d);
  }

  /** A page that starts no table is not the last of a round, and starts none within it. */
  lemma NotMultiple(p: nat, d: nat, e: nat, q: nat, r: nat)
    requires 0 < d && p == d * e * q + r && r < d * e && (p + 1) % d != 0
    ensures r + 1 < d * e && (r + 1) % d != 0
  {
    var m := d * e;
    assert d * (e * q) == m * q && d * (e * (q + 1)) == m * (q + 1);
    if r + 1 == m {
      Distribute(m, q, 1);
      DivModUnique(p + 1, d, e * (q + 1), 0);
    }
    if (r + 1) % d == 0 {
      DivMod(r + 1, d);
      Distribute(d, e * q, (r + 1) / d);
      DivModUnique(p + 1, d, e * q + (r + 1) / d, 0);
    }
  }

  lemma QuotientStay(x: nat, d: nat)
    requires 0 < d && 0 < x && x % d != 0
    ensures x / d == (x - 1) / d
  {
    DivMod(x, d);
    DivModUnique(x - 1, d, x / d, x % d - 1);
  }

  lemma SameDigits(a4: nat, a3: nat, a2: nat, a1: nat, b4: nat, b3: nat, b2: nat, b1: nat, level: nat)
    requires a4 < 512 && a3 < 512 && a2 < 512 && a1 < 512 && b4 < 512 && b3 < 512 && b2 < 512 && b1 < 512 &&
             1 <= level <= 3
    requires (((a4 * 512 + a3) * 512 + a2) * 512 + a1) / Span(level) ==
             (((b4 * 512 + b3) * 512 + b2) * 512 + b1) / Span(level)
    ensures a4 == b4 && (level <= 2 ==> a3 == b3) && (level <= 1 ==> a2 == b2)
  {
  }

  /** A run starts a new table of a level at most once per table, and at its first page. */
  lemma {:induction false} NeededFew(m0: Memory, root: frame, virt: nat, n: nat)
    requires Whole(m0)
    ensures Needed(m0, root, virt, n) <= Starts(virt, n, 3) + Starts(virt, n, 2) + Starts(virt, n, 1)
  {
    hide Nth, Has, SameWay;
    if n > 0 {
      NeededFew(m0, root, virt, n - 1);
      FreshStarts(m0, root, virt, n - 1, 3);
      FreshStarts(m0, root, virt, n - 1, 2);
      FreshStarts(m0, root, virt, n - 1, 1);
    }
  }

  /** How many of the first `n` pages of a run are its first one or start a table of a level. */
  function Starts(virt: nat, n: nat, level: nat): (r: nat)
    requires 1 <= level <= 3
  {
    if n == 0 then 0
    else Starts(virt, n - 1, level) + (if n == 1 || (virt / PAGE_SIZE + (n - 1)) % Span(level) == 0 then 1 else 0)
  }

  lemma FreshStarts(m0: Memory, root: frame, virt: nat, k: nat, level: nat)
    requires Whole(m0) && 1 <= level <= 3
    ensures Fresh(m0, root, virt, k, level) <= if k == 0 || (virt / PAGE_SIZE + k) % Span(level) == 0 then 1 else 0
  {
    hide Nth, Has, SameWay;
    if k > 0 && (virt / PAGE_SIZE + k) % Span(level) != 0 {
      NextSameWay(virt, k - 1, level);
      assert SameWay(level, Nth(virt, k), Nth(virt, k - 1));
    }
  }

  lemma {:induction false} StartsFew(virt: nat, n: nat, level: nat)
    requires 1 <= level <= 3
    ensures 0 < n ==>
            Starts(virt, n, level) <= 1 + (virt / PAGE_SIZE + (n - 1)) / Span(level) - virt / PAGE_SIZE / Span(level)
  {
    if n > 1 {
      StartsFew(virt, n - 1, level);
      QuotientStep(virt / PAGE_SIZE + (n - 1), Span(level));
    }
  }

  lemma QuotientStep(x: nat, d: nat)
    requires 0 < d && 0 < x
    ensures x / d >= (x - 1) / d && (x % d == 0 ==> x / d == (x - 1) / d + 1)
  {
    DivMod(x, d);
    DivMod(x - 1, d);
    Distribute(d, x / d, (x - 1) / d);
    if x / d < (x - 1) / d {
      MulAtLeast(d, (x - 1) / d - x / d);
      Distribute(d, (x - 1) / d, x / d);
    } else if x % d == 0 {
      DivModUnique(x - 1, d, x / d - 1, d - 1) by {
        Distribute(d, x / d, 1);
      }
    }
  }

  lemma QuotientGap(x: nat, n: nat, d: nat)
    requires 0 < d
    ensures (x + n) / d <= x / d + n / d + 1
  {
    DivMod(x, d);
    DivMod(n, d);
    DivMod(x + n, d);
    var q := x / d + n / d;
    Distribute(d, x / d, n / d);
    Distribute(d, (x + n) / d, q + 1);
    if (x + n) / d > q + 1 {
      MulAtLeast(d, (x + n) / d - (q + 1));
      Distribute(d, q, 1);
    }
  }

  /** One table for every 512 pages, one for every 512 of those, one for every 512 of those, and two of each more. */
  lemma FewTables(m0: Memory, root: frame, virt: nat, n: nat)
    requires Whole(m0)
    ensures Needed(m0, root, virt, n) <= n / 0x200 + n / 0x4_0000 + n / 0x800_0000 + 6
  {
    hide Needed, Starts;
    NeededFew(m0, root, virt, n);
    if n == 0 {
      NeededNone(m0, root, virt);
    } else {
      StartsBound(virt, n, 1);
      StartsBound(virt, n, 2);
      StartsBound(virt, n, 3);
    }
  }

  lemma NeededNone(m0: Memory, root: frame, virt: nat)
    requires Whole(m0)
    ensures Needed(m0, root, virt, 0) == 0
  {
  }

  lemma StartsBound(virt: nat, n: nat, level: nat)
    requires 1 <= level <= 3 && 0 < n
    ensures Starts(virt, n, level) <= n / Span(level) + 2
  {
    hide Starts, Span;
    StartsFew(virt, n, level);
    QuotientGap(virt / PAGE_SIZE, n - 1, Span(level));
    QuotientStep(n, Span(level));
  }

  // -------------------------------------------------------------------------
  // Translation

  /** What the hardware and `getPhysicalAddress` make of an address: absent if some level is not present. */
  ghost function Translated(leaf: Entry, virt: nat): (r: Option<nat>) {
    if leaf.present then Some(leaf.physicalAddress * PAGE_SIZE + virt % PAGE_SIZE) else None
  }

  /**
   Byte `t` of the pages of a run. If both ends lie at the same place in their page, the byte goes to the physical
   byte that far on exactly when an entry can name its frame and the run does not come back to its page, that is, when
   fewer than 2^36 pages follow, or so many that the frames have come round as well.
   */
  lemma ByteOfRun(e: Entry, virt: nat, phys: nat, flags: bv8, n: nat, t: nat)
    requires virt < WORD && virt % PAGE_SIZE == 0 && phys < WORD && phys % PAGE_SIZE == 0
    requires t < n * PAGE_SIZE && flags & 1 != 0
    ensures var a := (virt + t) % WORD;
            Translated(After(e, Vpn(a), virt, phys, flags, n), a) == Some(phys + t) <==>
              phys + t < PHYSICAL && (n - 1 - t / PAGE_SIZE) / VPNS % 16 == 0
  {
    hide Vpn, Nth, After, SetEntry, Translated;
    var a := (virt + t) % WORD;
    var k := t / PAGE_SIZE;
    PageOfByte(virt, t);
    var rounds := (n - 1 - k) / VPNS;
    var l := k + rounds * VPNS;
    assert k <= l < n <= l + VPNS;
    SamePage(virt, l, k);
    AfterHit(e, virt, phys, flags, n, l);
    TranslatedEntry(e, flags, phys, l, a);
    SameFrame(phys / PAGE_SIZE, k, rounds);
    var f := (phys / PAGE_SIZE + l) % FRAMES;
    assert f * PAGE_SIZE + a % PAGE_SIZE == phys + t <==> f == phys / PAGE_SIZE + k;
    assert phys + t < PHYSICAL <==> phys / PAGE_SIZE + k < FRAMES;
  }

  /**
   A frame some rounds of pages on is the frame itself, cut to what an entry holds, exactly if it fits and the rounds
   are full ones.
   */
  lemma SameFrame(p: nat, k: nat, rounds: nat)
    ensures (p + (k + rounds * VPNS)) % FRAMES == p + k <==> p + k < FRAMES && rounds % 16 == 0
  {
    var q, r := rounds / 16, rounds % 16;
    var s := p + k;
    DivMod(s, FRAMES);
    var h, low := s / FRAMES, s % FRAMES;
    assert p + (k + rounds * VPNS) == FRAMES * (q + h) + (low + r * VPNS);
    if low + r * VPNS < FRAMES {
      DivModUnique(p + (k + rounds * VPNS), FRAMES, q + h, low + r * VPNS);
    } else {
      DivModUnique(p + (k + rounds * VPNS), FRAMES, q + h + 1, low + r * VPNS - FRAMES);
    }
  }

  lemma PageOfByte(virt: nat, t: nat)
    requires virt % PAGE_SIZE == 0
    ensures var a := (virt + t) % WORD; Vpn(a) == Vpn(Nth(virt, t / PAGE_SIZE)) && a % PAGE_SIZE == t % PAGE_SIZE
  {
    hide Vpn, Nth;
    VpnNth(virt, t / PAGE_SIZE);
    Wrapped(virt + t);
    assert (virt + t) / PAGE_SIZE == virt / PAGE_SIZE + t / PAGE_SIZE;
  }

  lemma TranslatedEntry(e: Entry, flags: bv8, phys: nat, k: nat, a: nat)
    requires phys % PAGE_SIZE == 0 && flags & 1 != 0
    ensures Translated(SetEntry(e, flags, Nth(phys, k), 0), a) ==
            Some((phys / PAGE_SIZE + k) % FRAMES * PAGE_SIZE + a % PAGE_SIZE)
  {
    var x := phys + k * PAGE_SIZE;
    var q, r := x / WORD, x % WORD;
    DivMod(x, WORD);
    assert x / PAGE_SIZE == phys / PAGE_SIZE + k;
    assert x / PAGE_SIZE == 0x10_0000_0000_0000 * q + r / PAGE_SIZE;
    DivMod(r / PAGE_SIZE, FRAMES);
    DivModUnique(x / PAGE_SIZE, FRAMES, 0x1000 * q + r / PAGE_SIZE / FRAMES, r / PAGE_SIZE % FRAMES);
  }

  // -------------------------------------------------------------------------
  // The tables and the page allocator

  /** A page that the allocator would not hand out. */
  ghost predicate Busy(used: seq<bool>, base: nat, f: frame) {
    !(base / PAGE_SIZE <= f < base / PAGE_SIZE + |used|) || used[f - base / PAGE_SIZE]
  }

  ghost predicate Owned(tree: Tree, used: seq<bool>, base: nat) {
    forall f {:trigger f in tree} :: f in tree ==> Busy(used, base, f)
  }

  /** From one state to a later one, only tables and pages that were clear have been written. */
  ghost predicate Spares(m0: Memory, t0: Tree, u0: seq<bool>, m1: Memory, t1: Tree, u1: seq<bool>, base: nat) {
    && Whole(m0) && Whole(m1) && |u0| == |u1|
    && (forall g: frame {:trigger Busy(u1, base, g)} :: Busy(u0, base, g) ==> Busy(u1, base, g))
    && (forall g: frame {:trigger g in t1} :: g in t1 && g !in t0 ==> !Busy(u0, base, g))
    && (forall g: frame {:trigger m1[g]} :: g !in t0 && Busy(u0, base, g) ==> m1[g] == m0[g])
  }

  lemma SparesTransitive(m0: Memory, t0: Tree, u0: seq<bool>, m1: Memory, t1: Tree, u1: seq<bool>,
                         m2: Memory, t2: Tree, u2: seq<bool>, base: nat)
    requires Spares(m0, t0, u0, m1, t1, u1, base) && Spares(m1, t1, u1, m2, t2, u2, base)
    ensures Spares(m0, t0, u0, m2, t2, u2, base)
  {
    hide Busy;
    forall g: frame {:trigger g in t2} | g in t2 && g !in t0
      ensures !Busy(u0, base, g)
    {
      assert g !in t1 ==> !Busy(u1, base, g);
    }
    forall g: frame {:trigger m2[g]} | g !in t0 && Busy(u0, base, g)
      ensures m2[g] == m0[g]
    {
      assert m1[g] == m0[g] && (g in t1 ==> !Busy(u0, base, g)) && Busy(u1, base, g);
    }
    forall g: frame {:trigger Busy(u2, base, g)} | Busy(u0, base, g)
      ensures Busy(u2, base, g)
    {
      assert Busy(u1, base, g);
    }
  }

  /** Hanging a table on a page that was clear keeps everything: the tree, the mapping, other memory. */
  lemma HangClear(mem: Memory, root: frame, tree: Tree, used: seq<bool>, base: nat, level: nat, virt: nat, f: frame,
                  c: frame, e: Entry)
    requires Reaches(mem, root, tree, level, virt, f) && 2 <= level && Owned(tree, used, base)
    requires !mem[f][Index(level, virt)].present && e.present && e.physicalAddress == c
    requires !Busy(used, base, c)
    ensures var r, t := Hang(mem, f, Index(level, virt), c, e), tree[c := Slot(level - 1, f, Index(level, virt))];
            var u := Mark(used, c - base / PAGE_SIZE, 1, true);
            && Reaches(r, root, t, level - 1, virt, c) && Owned(t, u, base)
            && Spares(mem, tree, used, r, t, u, base)
            && forall v: nat {:trigger Leaf(r, root, v)} :: Leaf(r, root, v) == Leaf(mem, root, v)
  {
    hide IsTree, Index, Node, Leaf;
    assert c !in tree;
    HangKeepsTree(mem, root, tree, level, virt, f, c, e);
    HangReaches(mem, root, tree, level, virt, f, c, e);
    NodeInTree(mem, root, tree, level, virt);
    var r := Hang(mem, f, Index(level, virt), c, e);
    forall v: nat {:trigger Leaf(r, root, v)}
      ensures Leaf(r, root, v) == Leaf(mem, root, v)
    {
      HangLeaf(mem, root, tree, level, virt, f, c, e, v);
    }
  }

  lemma EmptyNode(mem: Memory, root: frame, virt: nat)
    requires Whole(mem) && mem[root] == Cleared()
    ensures Leaf(mem, root, virt) == CLEAR
  {
    assert Node(mem, root, 3, virt) == None;
    assert Node(mem, root, 2, virt) == None;
  }

  /** The page at `phys` was clear and has been taken. */
  ghost predicate Took(before: seq<bool>, after: seq<bool>, base: nat, phys: nat) {
    && phys % PAGE_SIZE == 0 && phys / PAGE_SIZE < FRAMES
    && var c: frame := phys / PAGE_SIZE;
    && !Busy(before, base, c)
    && after == Mark(before, c - base / PAGE_SIZE, 1, true)
    && ClearPages(after) == ClearPages(before) - 1
  }

  lemma TookPage(before: seq<bool>, after: seq<bool>, base: nat, page: nat)
    requires FitsAt(before, page, 1) && after == Mark(before, page, 1, true)
    requires base % PAGE_SIZE == 0 && base + |before| * PAGE_SIZE <= PHYSICAL
    ensures Took(before, after, base, base + page * PAGE_SIZE)
  {
    hide Mark, FitsAt;
    TakeOne(before, page);
    assert FitsAt(before, page, 1) ==> page < |before| && !before[page] by { FitsFirst(before, page); }
    assert (base + page * PAGE_SIZE) / PAGE_SIZE == base / PAGE_SIZE + page;
  }

  lemma FitsFirst(used: seq<bool>, i: nat)
    ensures FitsAt(used, i, 1) ==> i < |used| && !used[i]
  {
  }

  lemma FirstTable(mem: Memory, before: seq<bool>, after: seq<bool>, base: nat, phys: nat)
    requires Whole(mem) && Took(before, after, base, phys)
    ensures var c: frame := phys / PAGE_SIZE;
            var r, t := mem[c := Cleared()], map[c := Slot(4, c, 0)];
            IsTree(r, c, t) && Owned(t, after, base) && Spares(mem, map[], before, r, t, after, base)
  {
    var c: frame := phys / PAGE_SIZE;
    var r, t := mem[c := Cleared()], map[c := Slot(4, c, 0)];
    forall f, i {:trigger Linked(r, t, f, i)} | f in t && 0 <= i < 512
      ensures Linked(r, t, f, i)
    {
    }
  }

  /** A request for one page, as the tables make it. */
  method TakePage(pmm: Pages) returns (phys: nat)
    requires pmm.Valid() && pmm.base + pmm.totalPages * PAGE_SIZE <= PHYSICAL
    modifies pmm.bitmap
    ensures phys != 0 ==> Took(old(pmm.Used()), pmm.Used(), pmm.base, phys)
    ensures phys == 0 ==> pmm.base == 0 || ClearPages(old(pmm.Used())) == 0
    ensures ClearPages(pmm.Used()) <= ClearPages(old(pmm.Used()))
  {
    hide Mark, FitsAt, Took;
    ghost var page;
    phys, page := pmm.AllocPage(1);
    ghost var used := old(pmm.Used());
    TakeOne(used, page);
    assert PagesNeeded(1) == 1;
    if exists i :: FitsAt(used, i, 1) {
      TookPage(used, pmm.Used(), pmm.base, page);
    }
  }

  /** Byte `d` after the pointer is physical byte `addr + d`. */
  ghost predicate ReachesByte(mem: Memory, root: frame, pointer: nat, addr: nat, d: nat)
    requires Whole(mem)
  {
    var a := (pointer + d) % WORD;
    Translated(Leaf(mem, root, a), a) == Some(addr + d)
  }

  ghost predicate AllReach(mem: Memory, root: frame, pointer: nat, addr: nat, len: nat)
    requires Whole(mem)
  {
    forall d: nat {:trigger ReachesByte(mem, root, pointer, addr, d)} :: d < len ==>
      ReachesByte(mem, root, pointer, addr, d)
  }

  lemma AlignedSum(a: nat, b: nat)
    requires a % PAGE_SIZE == 0 && b % PAGE_SIZE == 0
    ensures (a + b) % WORD % PAGE_SIZE == 0
  {
  }

  /** No translation names a byte past what entries can hold. */
  lemma ReachesBelow(mem: Memory, root: frame, pointer: nat, addr: nat, d: nat)
    requires Whole(mem) && ReachesByte(mem, root, pointer, addr, d)
    ensures addr + d < PHYSICAL
  {
    hide Leaf;
  }

  lemma RangeReaches(m0: Memory, mem: Memory, root: frame, virt: nat, addr: nat, len: nat, n: nat)
    requires Whole(m0) && Whole(mem) && virt < WORD && virt % PAGE_SIZE == 0 && addr < WORD && len < WORD
    requires n == (addr % PAGE_SIZE + len + PAGE_SIZE - 1) % WORD / PAGE_SIZE
    requires Laid(m0, mem, root, virt, addr - addr % PAGE_SIZE, n)
    ensures AllReach(mem, root, (virt + addr % PAGE_SIZE) % WORD, addr, len) <==>
            len == 0 || (addr + len <= PHYSICAL && addr % PAGE_SIZE + len <= 0x1_0000_0000_0000)
  {
    hide Laid, ReachesByte;
    var offset := addr % PAGE_SIZE;
    var pointer := (virt + offset) % WORD;
    if len > 0 && addr + len > PHYSICAL {
      if AllReach(mem, root, pointer, addr, len) {
        assert ReachesByte(mem, root, pointer, addr, len - 1);
        ReachesBelow(mem, root, pointer, addr, len - 1);
      }
    } else if len > 0 {
      RoundsOfRange(offset, len, n);
      forall d: nat {:trigger ReachesByte(mem, root, pointer, addr, d)} | d < len
        ensures ReachesByte(mem, root, pointer, addr, d) <==> Rounds(n, offset, d) % 16 == 0
      {
        ByteReaches(m0, mem, root, virt, addr - offset, offset, n, d);
      }
      if offset + len > 0x1_0000_0000_0000 {
        var d: nat :| d < len && Rounds(n, offset, d) == 1;
        assert !ReachesByte(mem, root, pointer, addr, d);
      }
    }
  }

  /** How often a run comes back to the page of one of its bytes. */
  function Rounds(n: nat, offset: nat, d: nat): (r: int) {
    (n - 1 - (offset + d) / PAGE_SIZE) / VPNS
  }

  /** The pages of a range: every byte is in one, and the run comes back to none exactly if there are at most 2^36. */
  lemma RoundsOfRange(offset: nat, len: nat, n: nat)
    requires offset < PAGE_SIZE && 0 < len <= PHYSICAL && n == (offset + len + PAGE_SIZE - 1) % WORD / PAGE_SIZE
    ensures forall d: nat {:trigger Rounds(n, offset, d)} :: d < len ==> offset + d < n * PAGE_SIZE
    ensures if offset + len <= 0x1_0000_0000_0000
            then forall d: nat {:trigger Rounds(n, offset, d)} :: d < len ==> Rounds(n, offset, d) == 0
            else exists d: nat {:trigger Rounds(n, offset, d)} :: d < len && Rounds(n, offset, d) == 1
  {
    assert n == (offset + len + PAGE_SIZE - 1) / PAGE_SIZE;
    forall d: nat {:trigger Rounds(n, offset, d)} | d < len
      ensures offset + d < n * PAGE_SIZE && (n <= VPNS ==> Rounds(n, offset, d) == 0)
    {
    }
    if n > VPNS {
      var k := n - 1 - VPNS;
      var d := if k == 0 then 0 else k * PAGE_SIZE - offset;
      assert (offset + d) / PAGE_SIZE == k;
      assert Rounds(n, offset, d) == 1;
    }
  }

  /** The tables after a run has been laid over them. */
  ghost predicate Laid(m0: Memory, mem: Memory, root: frame, virt: nat, phys: nat, n: nat)
    requires Whole(m0) && Whole(mem)
  {
    forall v: nat {:trigger Leaf(mem, root, v)} ::
      Leaf(mem, root, v) == After(Leaf(m0, root, v), Vpn(v), virt, phys, 3, n)
  }

  lemma LaidBy(m0: Memory, mem: Memory, root: frame, virt: nat, phys: nat, n: nat)
    requires Whole(m0) && Whole(mem)
    requires forall v: nat {:trigger Leaf(mem, root, v)} ::
               Leaf(mem, root, v) == After(Leaf(m0, root, v), Vpn(v), virt, phys, (3 & 0xff as bv64) as bv8, n)
    ensures Laid(m0, mem, root, virt, phys, n)
  {
    hide Leaf, After, Vpn;
    assert (3 & 0xff as bv64) as bv8 == 3;
  }

  lemma WholePages(x: nat)
    ensures x / PAGE_SIZE * PAGE_SIZE / PAGE_SIZE == x / PAGE_SIZE
  {
    DivModUnique(x / PAGE_SIZE * PAGE_SIZE, PAGE_SIZE, x / PAGE_SIZE, 0);
  }

  lemma ByteReaches(m0: Memory, mem: Memory, root: frame, virt: nat, phys: nat, offset: nat, n: nat, d: nat)
    requires Whole(m0) && Whole(mem) && virt < WORD && virt % PAGE_SIZE == 0 && phys < WORD && phys % PAGE_SIZE == 0
    requires offset + d < n * PAGE_SIZE && phys + offset + d < PHYSICAL && Laid(m0, mem, root, virt, phys, n)
    ensures ReachesByte(mem, root, (virt + offset) % WORD, phys + offset, d) <==> Rounds(n, offset, d) % 16 == 0
  {
    hide Leaf, After, Vpn, Translated;
    var a := (virt + (offset + d)) % WORD;
    ByteOfRun(Leaf(m0, root, a), virt, phys, 3, n, offset + d);
    SumWraps(virt, offset, d);
  }

  lemma SumWraps(a: nat, b: nat, c: nat)
    ensures ((a + b) % WORD + c) % WORD == (a + (b + c)) % WORD
  {
    DivMod(a + b, WORD);
    var q, r := (a + b) / WORD, (a + b) % WORD;
    DivMod(r + c, WORD);
    DivModUnique(a + (b + c), WORD, q + (r + c) / WORD, (r + c) % WORD);
  }

  class PageTables {
    const pmm: Pages
    var mem: Memory
    const root: frame
    ghost var tree: Tree

    /** Physical memory is whole, and the allocator manages pages that entries can name. */
    ghost predicate Ready()
      reads this
    {
      Whole(mem) && pmm.Valid() && pmm.base + pmm.totalPages * PAGE_SIZE <= PHYSICAL
    }

    /** The tables form a tree and the allocator knows that their pages are taken. */
    ghost predicate Valid()
      reads this, pmm.bitmap
    {
      Ready() && IsTree(mem, root, tree) && Owned(tree, pmm.Used(), pmm.base)
    }

    /** The start of `initPML4`: one cleared table, which maps nothing. */
    constructor (pmm: Pages, mem: Memory)
      requires Whole(mem) && pmm.Valid() && pmm.base + pmm.totalPages * PAGE_SIZE <= PHYSICAL
      modifies pmm.bitmap
      ensures this.pmm == pmm
      ensures pmm.base != 0 && ClearPages(old(pmm.Used())) > 0 ==>
                && Valid() && Spares(mem, map[], old(pmm.Used()), this.mem, tree, pmm.Used(), pmm.base)
                && forall v: nat {:trigger Leaf(this.mem, root, v)} :: Leaf(this.mem, root, v) == CLEAR
    {
      hide ClearPages, Mark, Leaf, IsTree, Owned, Spares, Node;
      var phys := TakePage(pmm);
      this.pmm := pmm;
      var c: frame := if phys == 0 then 0 else phys / PAGE_SIZE;
      this.root := c;
      this.mem := mem[c := Cleared()];
      this.tree := map[c := Slot(4, c, 0)];
      new;
      if phys != 0 {
        FirstTable(mem, old(pmm.Used()), pmm.Used(), pmm.base, phys);
      }
      forall v: nat {:trigger Leaf(this.mem, root, v)}
        ensures Leaf(this.mem, root, v) == CLEAR
      {
        EmptyNode(this.mem, root, v);
      }
    }

    /** `allocateEntry`: hangs a cleared page on entry `i` of a table. */
    method AllocateEntry(f: frame, i: nat, flags: bv8) returns (phys: nat)
      requires Ready() && i < 512
      modifies this`mem, pmm.bitmap
      ensures Ready()
      ensures phys == 0 ==> mem == old(mem) && (pmm.base == 0 || ClearPages(old(pmm.Used())) == 0)
      ensures ClearPages(pmm.Used()) <= ClearPages(old(pmm.Used()))
      ensures phys != 0 ==>
                && Took(old(pmm.Used()), pmm.Used(), pmm.base, phys)
                && var c: frame := phys / PAGE_SIZE;
                mem == Hang(old(mem), f, i, c, SetEntry(old(mem)[c := Cleared()][f][i], flags | 1 | 2, phys, 0))
    {
      hide ClearPages, Mark, SetEntry;
      phys := TakePage(pmm);
      if phys == 0 {
        return;
      }
      var c: frame := phys / PAGE_SIZE;
      mem := mem[c := Cleared()];
      mem := Put(mem, f, i, SetEntry(mem[f][i], flags | 1 | 2, phys, 0));
    }

    /**
     One level of the walk in `map_page`: the table below entry `i` of a table, hung there first if it is missing.
     Without a page for it the walk goes on through whatever the entry holds.
     */
    method Descend(f: frame, i: nat, ghost level: nat, ghost virt: nat) returns (child: frame, ghost ok: bool)
      requires Ready() && i < 512
      modifies this, pmm.bitmap
      ensures Ready()
      ensures !ok ==> pmm.base == 0 || ClearPages(old(pmm.Used())) == 0
      ensures ClearPages(pmm.Used()) <= ClearPages(old(pmm.Used()))
      ensures ok && old(Valid()) && 2 <= level && Reaches(old(mem), root, old(tree), level, virt, f) &&
              i == Index(level, virt) ==>
                && Valid() && Reaches(mem, root, tree, level - 1, virt, child)
                && Spares(old(mem), old(tree), old(pmm.Used()), mem, tree, pmm.Used(), pmm.base)
                && (forall v: nat {:trigger Leaf(mem, root, v)} :: Leaf(mem, root, v) == Leaf(old(mem), root, v))
                && OneAdded(old(mem), mem, root, level - 1, virt)
                && ClearPages(old(pmm.Used())) ==
                   ClearPages(pmm.Used()) + (if Has(old(mem), root, level - 1, virt) then 0 else 1)
      ensures !ok && old(Valid()) && 2 <= level && Reaches(old(mem), root, old(tree), level, virt, f) &&
              i == Index(level, virt) ==>
                !Has(old(mem), root, level - 1, virt)
    {
      hide ClearPages, Mark, SetEntry, IsTree, Owned, Spares, Leaf, Index, OneAdded, SameWay;
      ok := true;
      if !mem[f][i].present {
        var phys := AllocateEntry(f, i, 2);
        if phys == 0 {
          ok := false;
        } else if 2 <= level <= 4 && i == Index(level, virt) && Reaches(old(mem), root, old(tree), level, virt, f) &&
          Owned(old(tree), old(pmm.Used()), pmm.base) {
          var c: frame := phys / PAGE_SIZE;
          var e := SetEntry(old(mem)[c := Cleared()][f][i], 3, phys, 0);
          TableEntry(old(mem)[c := Cleared()][f][i], phys);
          HangClear(old(mem), root, tree, old(pmm.Used()), pmm.base, level, virt, f, c, e);
          HangAdds(old(mem), root, tree, old(pmm.Used()), pmm.base, level, virt, f, c, e);
          tree := tree[c := Slot(level - 1, f, i)];
        }
      } else if 2 <= level <= 4 && i == Index(level, virt) && Reaches(mem, root, tree, level, virt, f) {
        ChildReached(mem, root, tree, level, virt, f);
        SparesItself(mem, tree, pmm.Used(), pmm.base);
        NoneAdded(mem, root, level - 1, virt);
      }
      child := mem[f][i].physicalAddress;
    }

    /**
     The three upper levels of the walk in `map_page`: it needs a page for every table that is missing, and takes no
     more.
     */
    method Walk(virt: nat) returns (pt: frame, ghost ok: bool)
      requires Ready()
      modifies this, pmm.bitmap
      ensures Ready()
      ensures ClearPages(pmm.Used()) <= ClearPages(old(pmm.Used()))
      ensures !ok ==> pmm.base == 0 || ClearPages(pmm.Used()) == 0
      ensures old(Valid()) && pmm.base != 0 ==> (ok <==> Missing(old(mem), root, virt) <= ClearPages(old(pmm.Used())))
      ensures ok && old(Valid()) ==>
                && Valid() && Reaches(mem, root, tree, 1, virt, pt)
                && Spares(old(mem), old(tree), old(pmm.Used()), mem, tree, pmm.Used(), pmm.base)
                && (forall v: nat {:trigger Leaf(mem, root, v)} :: Leaf(mem, root, v) == Leaf(old(mem), root, v))
                && Added(old(mem), mem, root, 1, virt)
                && ClearPages(old(pmm.Used())) == ClearPages(pmm.Used()) + Missing(old(mem), root, virt)
    {
      hide ClearPages, IsTree, Owned, Spares, Leaf, Index, Added, OneAdded, Has, Node;
      ghost var m0, t0, u0, b := mem, tree, pmm.Used(), pmm.base;
      RootReached(mem, root, tree, virt);
      AddedNone(m0, root, virt);
      var pdp, ok3 := Descend(root, Index(4, virt), 4, virt);
      ghost var m1, t1, u1 := mem, tree, pmm.Used();
      var pd, ok2 := Descend(pdp, Index(3, virt), 3, virt);
      ghost var m2, t2, u2 := mem, tree, pmm.Used();
      ghost var ok1;
      pt, ok1 := Descend(pd, Index(2, virt), 2, virt);
      ok := ok3 && ok2 && ok1;
      if old(Valid()) {
        MissingBelow(m0, root, virt);
        if ok3 {
          AddedNext(m0, m0, m1, root, 4, virt);
          AddedFact(m0, m1, root, 3, virt, 2, virt);
          AddedFact(m0, m1, root, 3, virt, 1, virt);
        }
        if ok3 && ok2 {
          AddedNext(m0, m1, m2, root, 3, virt);
          AddedFact(m0, m2, root, 2, virt, 1, virt);
        }
        if ok {
          AddedNext(m0, m2, mem, root, 2, virt);
          SparesTransitive(m0, t0, u0, m1, t1, u1, m2, t2, u2, b);
          SparesTransitive(m0, t0, u0, m2, t2, u2, mem, tree, pmm.Used(), b);
          forall v: nat {:trigger Leaf(mem, root, v)}
            ensures Leaf(mem, root, v) == Leaf(m0, root, v)
          {
            assert Leaf(m1, root, v) == Leaf(m0, root, v);
            assert Leaf(m2, root, v) == Leaf(m1, root, v);
          }
        }
      }
    }

    /** The body of the loop of `map_page`: one page gets a new entry, every other page keeps its own. */
    method MapOne(virt: nat, phys: nat, flags: bv8) returns (ghost ok: bool)
      requires Ready()
      modifies this, pmm.bitmap
      ensures Ready()
      ensures ClearPages(pmm.Used()) <= ClearPages(old(pmm.Used()))
      ensures !ok ==> pmm.base == 0 || ClearPages(pmm.Used()) == 0
      ensures old(Valid()) && pmm.base != 0 ==> (ok <==> Missing(old(mem), root, virt) <= ClearPages(old(pmm.Used())))
      ensures ok && old(Valid()) ==>
                && Valid()
                && Spares(old(mem), old(tree), old(pmm.Used()), mem, tree, pmm.Used(), pmm.base)
                && (forall v: nat {:trigger Leaf(mem, root, v)} :: Leaf(mem, root, v) ==
                      if Vpn(v) == Vpn(virt) then SetEntry(Leaf(old(mem), root, v), flags, phys, 0)
                      else Leaf(old(mem), root, v))
                && Added(old(mem), mem, root, 1, virt)
                && ClearPages(old(pmm.Used())) == ClearPages(pmm.Used()) + Missing(old(mem), root, virt)
    {
      hide ClearPages, IsTree, Owned, Spares, Leaf, Index, Node, Vpn, SetEntry, Added, Missing;
      ghost var m0, t0, u0 := mem, tree, pmm.Used();
      var pt;
      pt, ok := Walk(virt);
      ghost var m1 := mem;
      var e := SetEntry(mem[pt][Index(1, virt)], flags, phys, 0);
      mem := Put(mem, pt, Index(1, virt), e);
      if ok && old(Valid()) {
        PutLeafKeepsTree(m1, root, tree, virt, pt, e);
        PutSpares(m0, t0, u0, m1, root, tree, pmm.Used(), pmm.base, virt, pt, e);
        PutAdds(m0, m1, root, tree, virt, pt, e);
        forall v: nat {:trigger Leaf(mem, root, v)}
          ensures Leaf(mem, root, v) == if Vpn(v) == Vpn(virt) then SetEntry(Leaf(m0, root, v), flags, phys, 0)
                  else Leaf(m0, root, v)
        {
          PutLeaf(m1, root, tree, virt, pt, e, v);
          LeafOfPage(m1, root, tree, virt, pt, v);
          assert Leaf(m1, root, v) == Leaf(m0, root, v);
        }
      }
    }

    /**
     `map_page`. It succeeds exactly if there is a clear page for every table the run is missing. Then the mapping
     becomes the old one with the run laid over it, later pages over earlier ones, and no other memory is touched.
     */
    method MapPage(virt: nat, phys: nat, flags: bv64, n: nat) returns (ghost ok: bool)
      requires Ready()
      modifies this, pmm.bitmap
      ensures Ready()
      ensures ClearPages(pmm.Used()) <= ClearPages(old(pmm.Used()))
      ensures !ok ==> pmm.base == 0 || ClearPages(pmm.Used()) == 0
      ensures old(Valid()) && pmm.base != 0 ==> (ok <==> Needed(old(mem), root, virt, n) <= ClearPages(old(pmm.Used())))
      ensures ok && old(Valid()) ==>
                && Valid()
                && Spares(old(mem), old(tree), old(pmm.Used()), mem, tree, pmm.Used(), pmm.base)
                && (forall v: nat {:trigger Leaf(mem, root, v)} :: Leaf(mem, root, v) ==
                      After(Leaf(old(mem), root, v), Vpn(v), virt, phys, (flags & 0xff) as bv8, n))
                && ClearPages(old(pmm.Used())) == ClearPages(pmm.Used()) + Needed(old(mem), root, virt, n)
    {
      hide ClearPages, IsTree, Owned, Spares, Leaf, Vpn, SetEntry, Nth, Added, RunAdded, Missing, Fresh;
      ghost var m0, t0, u0, low := mem, tree, pmm.Used(), (flags & 0xff) as bv8;
      SparesItself(mem, tree, pmm.Used(), pmm.base);
      RunAddedNone(mem, root, virt);
      ok := true;
      var i := 0;
      while i < n
        invariant 0 <= i <= n && Ready() && ClearPages(pmm.Used()) <= ClearPages(u0)
        invariant !ok ==> pmm.base == 0 || ClearPages(pmm.Used()) == 0
        invariant !ok && old(Valid()) && pmm.base != 0 ==> Needed(m0, root, virt, i) > ClearPages(u0)
        invariant ok && old(Valid()) ==>
            && Valid() && RunAdded(m0, mem, root, virt, i)
            && Spares(m0, t0, u0, mem, tree, pmm.Used(), pmm.base)
            && (forall v: nat {:trigger Leaf(mem, root, v)} :: Leaf(mem, root, v) ==
                  After(Leaf(m0, root, v), Vpn(v), virt, phys, low, i))
            && ClearPages(u0) == ClearPages(pmm.Used()) + Needed(m0, root, virt, i)
      {
        ghost var m1, t1, u1 := mem, tree, pmm.Used();
        if ok && old(Valid()) {
          MissingFresh(m0, m1, root, virt, i);
        }
        ghost var good := MapOne(Nth(virt, i), Nth(phys, i), (flags & 0xff) as bv8);
        ok := ok && good;
        if ok && old(Valid()) {
          RunAddedStep(m0, m1, mem, root, virt, i);
          SparesTransitive(m0, t0, u0, m1, t1, u1, mem, tree, pmm.Used(), pmm.base);
          forall v: nat {:trigger Leaf(mem, root, v)}
            ensures Leaf(mem, root, v) == After(Leaf(m0, root, v), Vpn(v), virt, phys, low, i + 1)
          {
            assert Leaf(m1, root, v) == After(Leaf(m0, root, v), Vpn(v), virt, phys, low, i);
          }
        }
        i := i + 1;
      }
    }

    /**
     `uacpi_kernel_map` (src/cpu/kernel_api.c:24-36): a byte range, wherever it starts in its page. Every byte of it
     can be reached from the returned pointer exactly when it ends by physical byte 2^52 and, with what precedes it in
     its page, spans at most 2^48 bytes.
     */
    method KernelMap(hhdm: nat, addr: nat, len: nat) returns (pointer: nat, ghost ok: bool)
      requires Ready() && hhdm < WORD && hhdm % PAGE_SIZE == 0 && addr < WORD && len < WORD
      modifies this, pmm.bitmap
      ensures Ready()
      ensures !ok ==> pmm.base == 0 || ClearPages(pmm.Used()) == 0
      ensures var n := (addr % PAGE_SIZE + len + PAGE_SIZE - 1) % WORD / PAGE_SIZE;
              old(Valid()) && pmm.base != 0 ==>
                (ok <==> Needed(old(mem), root, (hhdm + addr - addr % PAGE_SIZE) % WORD,
                                n) <= ClearPages(old(pmm.Used())))
      ensures ok && old(Valid()) ==>
                Valid() && (AllReach(mem, root, pointer, addr, len) <==>
                              len == 0 || (addr + len <= PHYSICAL && addr % PAGE_SIZE + len <= 0x1_0000_0000_0000))
    {
      hide ClearPages, IsTree, Owned, Spares, Leaf, After, Vpn, AllReach, Needed, Laid;
      WholePages((addr % PAGE_SIZE + len + PAGE_SIZE - 1) % WORD);
      var offset := addr % PAGE_SIZE;
      var aligned := addr - offset;
      var mapped := (offset + len + PAGE_SIZE - 1) % WORD / PAGE_SIZE * PAGE_SIZE;
      var n := mapped / PAGE_SIZE;
      var virt := (hhdm + aligned) % WORD;
      ghost var m0 := mem;
      ok := MapPage(virt, aligned, 3, n);
      pointer := (virt + offset) % WORD;
      if ok && old(Valid()) {
        AlignedSum(hhdm, aligned);
        LaidBy(m0, mem, root, virt, aligned, n);
        RangeReaches(m0, mem, root, virt, addr, len, n);
      }
    }

    /** `getPhysicalAddress`. */
    method GetPhysicalAddress(virt: nat) returns (r: Option<nat>)
      requires Whole(mem)
      ensures r == Translated(Leaf(mem, root, virt), virt)
    {
      if !mem[root][Index(4, virt)].present {
        assert Node(mem, root, 3, virt) == None && Node(mem, root, 2, virt) == None;
        return None;
      }
      var pdp := mem[root][Index(4, virt)].physicalAddress;
      assert Node(mem, root, 3, virt) == Some(pdp);
      if !mem[pdp][Index(3, virt)].present {
        assert Node(mem, root, 2, virt) == None;
        return None;
      }
      var pd := mem[pdp][Index(3, virt)].physicalAddress;
      assert Node(mem, root, 2, virt) == Some(pd);
      if !mem[pd][Index(2, virt)].present {
        return None;
      }
      var pt := mem[pd][Index(2, virt)].physicalAddress;
      if !mem[pt][Index(1, virt)].present {
        return None;
      }
      return Some(mem[pt][Index(1, virt)].physicalAddress * PAGE_SIZE + virt % PAGE_SIZE);
    }
  }

  /**
   From one state to a later one, exactly the table of one level on the way of an address has been added, if it was
   missing.
   */
  ghost predicate OneAdded(m0: Memory, m1: Memory, root: frame, level: nat, virt: nat) {
    && Whole(m0) && Whole(m1) && 1 <= level <= 4
    && forall k: nat, v: nat {:trigger Has(m1, root, k, v)} :: 1 <= k <= 4 ==>
         (Has(m1, root, k, v) <==> Has(m0, root, k, v) || (k == level && SameWay(k, v, virt)))
  }

  lemma HangAdds(mem: Memory, root: frame, tree: Tree, used: seq<bool>, base: nat, level: nat, virt: nat, f: frame,
                 c: frame, e: Entry)
    requires Reaches(mem, root, tree, level, virt, f) && 2 <= level && Owned(tree, used, base)
    requires !mem[f][Index(level, virt)].present && e.present && e.physicalAddress == c
    requires !Busy(used, base, c)
    ensures OneAdded(mem, Hang(mem, f, Index(level, virt), c, e), root, level - 1, virt) &&
            !Has(mem, root, level - 1, virt)
  {
    assert c !in tree;
    assert !Has(mem, root, level - 1, virt);
    hide Index, Node, IsTree, SameWay, Owned, Busy;
    var r := Hang(mem, f, Index(level, virt), c, e);
    forall k: nat, v: nat {:trigger Has(r, root, k, v)} | 1 <= k <= 4
      ensures Has(r, root, k, v) <==> Has(mem, root, k, v) || (k == level - 1 && SameWay(k, v, virt))
    {
      HangNode(mem, root, tree, level, virt, f, c, e, v, k);
    }
  }

  lemma NoneAdded(mem: Memory, root: frame, level: nat, virt: nat)
    requires Whole(mem) && 1 <= level <= 4 && Has(mem, root, level, virt)
    ensures OneAdded(mem, mem, root, level, virt)
  {
    hide Node, SameWay;
    forall v: nat {:trigger Has(mem, root, level, v)} | SameWay(level, v, virt)
      ensures Has(mem, root, level, v)
    {
      SameWayNode(mem, root, level, v, virt);
    }
  }

  lemma AddedNext(m0: Memory, m1: Memory, m2: Memory, root: frame, level: nat, virt: nat)
    requires Added(m0, m1, root, level, virt) && 2 <= level && OneAdded(m1, m2, root, level - 1, virt)
    ensures Added(m0, m2, root, level - 1, virt)
  {
    hide Has, SameWay;
    forall k: nat, v: nat {:trigger Has(m2, root, k, v)} | 1 <= k <= 4
      ensures Has(m2, root, k, v) <==> Has(m0, root, k, v) || (level - 1 <= k && SameWay(k, v, virt))
    {
      AddedFact(m0, m1, root, level, virt, k, v);
    }
  }

  lemma RootReached(mem: Memory, root: frame, tree: Tree, virt: nat)
    requires Whole(mem)
    ensures IsTree(mem, root, tree) ==> Reaches(mem, root, tree, 4, virt, root)
  {
  }

  /** Where a table is missing, so are those below it. */
  lemma MissingBelow(mem: Memory, root: frame, virt: nat)
    requires Whole(mem)
    ensures Has(mem, root, 1, virt) ==> Has(mem, root, 2, virt)
    ensures Has(mem, root, 2, virt) ==> Has(mem, root, 3, virt)
  {
  }

  lemma PutAdds(m0: Memory, m1: Memory, root: frame, tree: Tree, virt: nat, f: frame, e: Entry)
    requires Added(m0, m1, root, 1, virt) && Reaches(m1, root, tree, 1, virt, f)
    ensures Added(m0, Put(m1, f, Index(1, virt), e), root, 1, virt)
  {
    hide Index, Node, IsTree, SameWay;
    var r := Put(m1, f, Index(1, virt), e);
    NodeInTree(m1, root, tree, 1, virt);
    forall k: nat, v: nat {:trigger Has(r, root, k, v)} | 1 <= k <= 4
      ensures Has(r, root, k, v) <==> Has(m0, root, k, v) || SameWay(k, v, virt)
    {
      SameNode(m1, r, root, tree, k, v);
      AddedFact(m0, m1, root, 1, virt, k, v);
    }
  }

  lemma PutSpares(m0: Memory, t0: Tree, u0: seq<bool>, m1: Memory, root: frame, t1: Tree, u1: seq<bool>, base: nat,
                  virt: nat, f: frame, e: Entry)
    requires Spares(m0, t0, u0, m1, t1, u1, base) && Reaches(m1, root, t1, 1, virt, f)
    ensures Spares(m0, t0, u0, Put(m1, f, Index(1, virt), e), t1, u1, base)
  {
    hide Busy, Index;
    NodeInTree(m1, root, t1, 1, virt);
    assert f in t1;
  }

  /** All addresses of a page lead to the same entry. */
  lemma LeafOfPage(mem: Memory, root: frame, tree: Tree, virt: nat, f: frame, other: nat)
    requires Reaches(mem, root, tree, 1, virt, f)
    ensures Vpn(virt) == Vpn(other) ==> Leaf(mem, root, other) == mem[f][Index(1, virt)]
  {
    hide Vpn, Index;
    IndicesDetermine(virt, other);
    if Vpn(virt) == Vpn(other) {
      assert Index(2, virt) == Index(2, other) && Index(3, virt) == Index(3, other) &&
          Index(4, virt) == Index(4, other);
      SameIndices(mem, root, 1, virt, other);
    }
  }

  lemma ChildReached(mem: Memory, root: frame, tree: Tree, level: nat, virt: nat, f: frame)
    requires Reaches(mem, root, tree, level, virt, f) && 2 <= level && mem[f][Index(level, virt)].present
    ensures Reaches(mem, root, tree, level - 1, virt, mem[f][Index(level, virt)].physicalAddress)
  {
  }

  lemma SparesItself(mem: Memory, tree: Tree, used: seq<bool>, base: nat)
    requires Whole(mem)
    ensures Spares(mem, tree, used, mem, tree, used, base)
  {
  }

  lemma TableEntry(e: Entry, phys: nat)
    requires phys / PAGE_SIZE < FRAMES
    ensures var r := SetEntry(e, 2 | 1 | 2, phys, 0); r.present && r.physicalAddress == phys / PAGE_SIZE
  {
  }
}
