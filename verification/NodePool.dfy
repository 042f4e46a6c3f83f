/**
 * The pool that tree nodes are taken from (libs/libufdt/ufdt_node_pool.c): a linked list of blocks of entries, each
 * with its free entries chained through the entries themselves.  Blocks are records in a memory keyed by address.
 */
module NodePools {
  import opened Positions

  const ENTRIES_PER_BLOCK: nat := 1024

  const NONE := -1

  type Addr = nat

  /** A block: its header, and in next what each free entry holds, the index of the next free one or NONE. */
  datatype Block = Block(nextBlock: Option<Addr>, firstFree: int, next: seq<int>, allocCount: int)

  /** An entry of a block: what the pool hands out. */
  datatype Ptr = Ptr(block: Addr, entry: nat)

  type Memory = map<Addr, Block>

  // ----- The free entries of a block -----

  /** From first on, next leads through exactly the entries f. */
  ghost predicate Chain(next: seq<int>, first: int, f: seq<nat>)
    decreases |f|
  {
    if f == [] then first == NONE else
      first == f[0] < |next| && f[0] !in f[1..] && Chain(next, next[f[0]], f[1..])
  }

  /** A chain does not go through an entry that is not in it. */
  lemma {:induction false} ChainKept(next: seq<int>, first: int, f: seq<nat>, entry: nat, v: int)
    requires Chain(next, first, f) && entry < |next| && entry !in f
    ensures Chain(next[entry := v], first, f)
    decreases |f|
  {
    if f != [] {
      ChainKept(next, next[f[0]], f[1..], entry, v);
    }
  }

  /** The entries of f are distinct and there are at most as many as the block has. */
  lemma {:induction false} ChainEntries(next: seq<int>, first: int, f: seq<nat>) returns (s: set<nat>)
    requires Chain(next, first, f)
    ensures forall i :: i in s <==> i in f
    ensures (forall i | i in f :: i < |next|) && |s| == |f|
    decreases |f|
  {
    if f == [] {
      s := {};
    } else {
      var t := ChainEntries(next, next[f[0]], f[1..]);
      s := t + {f[0]};
      assert forall i :: i in f <==> i == f[0] || i in f[1..];
    }
  }

  lemma {:induction false} Below(n: nat) returns (s: set<nat>)
    ensures |s| == n && forall i: nat :: i in s <==> i < n
  {
    if n == 0 {
      s := {};
    } else {
      var t := Below(n - 1);
      s := t + {n - 1};
    }
  }

  /** A chain as long as the block has entries goes through all of them. */
  lemma ChainFull(next: seq<int>, first: int, f: seq<nat>, i: nat)
    requires Chain(next, first, f) && |f| == |next| && i < |next|
    ensures i in f
  {
    var s := ChainEntries(next, first, f);
    var t := Below(|next|);
    if i !in f {
      Subset(s, t - {i});
    }
  }

  lemma {:induction false} Subset(s: set<nat>, t: set<nat>)
    requires s <= t
    ensures |s| <= |t|
  {
    if s != {} {
      var x :| x in s;
      Subset(s - {x}, t - {x});
    }
  }

  /** The free entries of a block whose header and links are right. */
  ghost predicate BlockValid(b: Block, f: seq<nat>) {
    |b.next| == ENTRIES_PER_BLOCK && Chain(b.next, b.firstFree, f) && b.allocCount == ENTRIES_PER_BLOCK - |f|
  }

  /** The entries from i on. */
  function Count(i: nat): (f: seq<nat>)
    requires i <= ENTRIES_PER_BLOCK
    ensures |f| == ENTRIES_PER_BLOCK - i && forall k: nat :: k in f <==> i <= k < ENTRIES_PER_BLOCK
    decreases ENTRIES_PER_BLOCK - i
  {
    if i == ENTRIES_PER_BLOCK then [] else [i] + Count(i + 1)
  }

  /** A block's entries as they are linked at first. */
  lemma {:induction false} AllFree(next: seq<int>, i: nat)
    requires |next| == ENTRIES_PER_BLOCK
             && forall k | 0 <= k < |next| :: next[k] == if k + 1 < ENTRIES_PER_BLOCK then k + 1 else NONE
    requires i <= ENTRIES_PER_BLOCK
    ensures Chain(next, if i < ENTRIES_PER_BLOCK then i else NONE, Count(i))
    decreases ENTRIES_PER_BLOCK - i
  {
    if i < ENTRIES_PER_BLOCK {
      AllFree(next, i + 1);
      assert Count(i)[1..] == Count(i + 1);
    }
  }

  /** _ufdt_node_pool_create_block. */
  method CreateBlock() returns (b: Block)
    ensures BlockValid(b, Count(0)) && b.nextBlock == None
  {
    var next: seq<int> := [];
    var entry := 0;
    while entry < ENTRIES_PER_BLOCK
      invariant entry == |next| <= ENTRIES_PER_BLOCK
      invariant forall i | 0 <= i < entry :: next[i] == if i + 1 < ENTRIES_PER_BLOCK then i + 1 else NONE
    {
      next := next + [if entry + 1 < ENTRIES_PER_BLOCK then entry + 1 else NONE];
      entry := entry + 1;
    }
    AllFree(next, 0);
    b := Block(None, 0, next, 0);
  }

  /** _ufdt_node_pool_block_alloc: take the first free entry. */
  function BlockAlloc(b: Block): Block
    requires 0 <= b.firstFree < |b.next|
  {
    b.(firstFree := b.next[b.firstFree], allocCount := b.allocCount + 1)
  }

  /** _ufdt_node_pool_block_free: the entry becomes the first free one. */
  function BlockFree(b: Block, entry: nat): Block
    requires entry < |b.next|
  {
    b.(next := b.next[entry := b.firstFree], firstFree := entry, allocCount := b.allocCount - 1)
  }

  lemma AllocKeeps(b: Block, f: seq<nat>)
    requires BlockValid(b, f) && b.firstFree != NONE
    ensures f != [] && b.firstFree == f[0] < ENTRIES_PER_BLOCK && f[0] !in f[1..] && BlockValid(BlockAlloc(b), f[1..])
  {
  }

  lemma FreeKeeps(b: Block, f: seq<nat>, entry: nat)
    requires BlockValid(b, f) && entry < ENTRIES_PER_BLOCK && entry !in f
    ensures BlockValid(BlockFree(b, entry), [entry] + f)
  {
    ChainKept(b.next, b.firstFree, f, entry, b.firstFree);
    assert ([entry] + f)[1..] == f;
  }

  // ----- The list of blocks -----

  function Succ(bs: seq<Addr>, i: int): Option<Addr>
    requires -1 <= i < |bs|
  {
    if i + 1 < |bs| then Some(bs[i + 1]) else None
  }

  /** From first on, the blocks bs are linked; last is the one whose next pointer last_block_ptr points to, if any. */
  ghost predicate Linked(m: Memory, first: Option<Addr>, last: Option<Addr>, bs: seq<Addr>) {
    && (forall i :: 0 <= i < |bs| ==> bs[i] in m && m[bs[i]].nextBlock == Succ(bs, i))
    && Distinct(bs)
    && first == Succ(bs, -1)
    && last == if bs == [] then None else Some(bs[|bs| - 1])
  }

  /** _ufdt_node_pool_preppend_block. */
  lemma Prepended(m: Memory, first: Option<Addr>, last: Option<Addr>, bs: seq<Addr>, a: Addr)
    requires Linked(m, first, last, bs) && a in m && a !in bs
    ensures Linked(m[a := m[a].(nextBlock := first)], Some(a), if first.None? then Some(a) else last, [a] + bs)
  {
    var n := m[a := m[a].(nextBlock := first)];
    var cs := [a] + bs;
    forall i | 0 <= i < |cs|
      ensures cs[i] in n && n[cs[i]].nextBlock == Succ(cs, i)
    {
      if i > 0 {
        assert cs[i] == bs[i - 1] && bs[i - 1] in m && m[bs[i - 1]].nextBlock == Succ(bs, i - 1);
      }
    }
  }

  /** _ufdt_node_pool_append_block. */
  lemma Appended(m: Memory, first: Option<Addr>, last: Option<Addr>, bs: seq<Addr>, a: Addr)
    requires Linked(m, first, last, bs) && a in m && a !in bs
    ensures last.Some? ==> last.value in m && last.value != a
    ensures var n := m[a := m[a].(nextBlock := None)];
            var n' := if last.Some? then n[last.value := n[last.value].(nextBlock := Some(a))] else n;
            Linked(n', if last.Some? then first else Some(a), Some(a), bs + [a])
  {
    var n := m[a := m[a].(nextBlock := None)];
    var n' := if last.Some? then n[last.value := n[last.value].(nextBlock := Some(a))] else n;
    var cs := bs + [a];
    forall i | 0 <= i < |cs|
      ensures cs[i] in n' && n'[cs[i]].nextBlock == Succ(cs, i)
    {
      if i < |bs| {
        assert cs[i] == bs[i] && bs[i] in m && m[bs[i]].nextBlock == Succ(bs, i);
      }
    }
  }

  function Without(bs: seq<Addr>, i: nat): (cs: seq<Addr>)
    requires i < |bs|
    ensures |cs| == |bs| - 1 && forall k :: 0 <= k < |cs| ==> cs[k] == bs[if k < i then k else k + 1]
  {
    bs[..i] + bs[i + 1..]
  }

  ghost predicate Distinct(bs: seq<Addr>) {
    forall i, j :: 0 <= i < j < |bs| ==> bs[i] != bs[j]
  }

  lemma WithoutDistinct(bs: seq<Addr>, i: nat)
    requires Distinct(bs) && i < |bs|
    ensures Distinct(Without(bs, i)) && bs[i] !in Without(bs, i)
  {
  }

  /** The memory after block i has been unlinked. */
  function Unlink(m: Memory, prev: Option<Addr>, block: Addr): Memory
    requires block in m && (prev.Some? ==> prev.value in m)
  {
    var n := if prev.None? then m else m[prev.value := m[prev.value].(nextBlock := m[block].nextBlock)];
    n[block := n[block].(nextBlock := None)]
  }

  lemma UnlinkedNext(m: Memory, first: Option<Addr>, last: Option<Addr>, bs: seq<Addr>, i: nat, k: nat)
    requires Linked(m, first, last, bs) && i < |bs| && k < |bs| - 1
    ensures bs[i] in m && (i > 0 ==> bs[i - 1] in m)
    ensures var n := Unlink(m, Before(bs, i), bs[i]); var cs := Without(bs, i);
            cs[k] in n && n[cs[k]].nextBlock == Succ(cs, k)
  {
    var cs := Without(bs, i);
    var j := if k < i then k else k + 1;
    assert cs[k] == bs[j] && bs[j] in m && m[bs[j]].nextBlock == Succ(bs, j);
    assert bs[i] in m && m[bs[i]].nextBlock == Succ(bs, i);
    assert k + 1 < |cs| ==> cs[k + 1] == bs[if k + 1 < i then k + 1 else k + 2];
  }

  function Before(bs: seq<Addr>, i: nat): Option<Addr>
    requires i <= |bs|
  {
    if i == 0 then None else Some(bs[i - 1])
  }

  /**
   * _ufdt_node_pool_remove_block, block i being the one that the next pointer of block i - 1, or of the pool, points
   * to.
   */
  lemma Removed(m: Memory, first: Option<Addr>, last: Option<Addr>, bs: seq<Addr>, i: nat)
    requires Linked(m, first, last, bs) && i < |bs|
    ensures bs[i] in m && (i > 0 ==> bs[i - 1] in m)
    ensures Linked(Unlink(m, Before(bs, i), bs[i]), if i == 0 then m[bs[i]].nextBlock else first,
                   if m[bs[i]].nextBlock.None? then Before(bs, i) else last, Without(bs, i))
  {
    hide Unlink;
    assert bs[i] in m && m[bs[i]].nextBlock == Succ(bs, i);
    forall k | 0 <= k < |bs| - 1
      ensures var n := Unlink(m, Before(bs, i), bs[i]); var cs := Without(bs, i);
              cs[k] in n && n[cs[k]].nextBlock == Succ(cs, k)
    {
      UnlinkedNext(m, first, last, bs, i, k);
    }
    WithoutDistinct(bs, i);
  }

  // ----- Entries and blocks -----

  /** m and n differ in the links between blocks only. */
  ghost predicate SameEntries(m: Memory, n: Memory) {
    (forall a :: a in m <==> a in n) && forall a | a in m :: n[a] == m[a].(nextBlock := n[a].nextBlock)
  }

  /** In every block, an entry is free or live, and what is live is in a block. */
  ghost predicate Accounted(m: Memory, bs: seq<Addr>, free: map<Addr, seq<nat>>, live: set<Ptr>) {
    && (forall a | a in bs :: a in m && a in free && BlockValid(m[a], free[a]))
    && (forall p | p in live :: p.block in bs && p.entry < ENTRIES_PER_BLOCK && p.entry !in free[p.block])
    && (forall a, i: nat | a in bs && i < ENTRIES_PER_BLOCK && i !in free[a] :: Ptr(a, i) in live)
  }

  /** Blocks with free entries come before full ones. */
  ghost predicate FreeFirst(bs: seq<Addr>, free: map<Addr, seq<nat>>) {
    && (forall a | a in bs :: a in free)
    && forall i, j :: 0 <= i < j < |bs| && free[bs[i]] == [] ==> free[bs[j]] == []
  }

  /** At most one block has no live entry. */
  ghost predicate OneEmpty(bs: seq<Addr>, free: map<Addr, seq<nat>>) {
    && (forall a | a in bs :: a in free)
    && forall a, b | a in bs && b in bs && |free[a]| == ENTRIES_PER_BLOCK == |free[b]| :: a == b
  }

  lemma AccountedSame(m: Memory, n: Memory, bs: seq<Addr>, cs: seq<Addr>, free: map<Addr, seq<nat>>, live: set<Ptr>)
    requires Accounted(m, bs, free, live) && SameEntries(m, n) && forall a :: a in bs <==> a in cs
    ensures Accounted(n, cs, free, live)
  {
    hide Chain;
  }

  /** A new block, all of it free, in front of full blocks. */
  lemma NewBlock(m: Memory, bs: seq<Addr>, free: map<Addr, seq<nat>>, live: set<Ptr>, a: Addr)
    requires Accounted(m, bs, free, live) && FreeFirst(bs, free) && a in m && a !in bs && BlockValid(m[a], Count(0))
    requires forall b | b in bs :: free[b] == []
    ensures Accounted(m, [a] + bs, free[a := Count(0)], live) && FreeFirst([a] + bs, free[a := Count(0)])
    ensures OneEmpty([a] + bs, free[a := Count(0)])
  {
    hide Chain, Count;
    var g := free[a := Count(0)];
    var cs := [a] + bs;
    assert forall b | b in cs :: b == a || b in bs;
    assert forall i :: 0 < i < |cs| ==> cs[i] == bs[i - 1] && g[cs[i]] == [];
  }

  /** One more entry of block a is live. */
  lemma EntryTaken(m: Memory, bs: seq<Addr>, free: map<Addr, seq<nat>>, live: set<Ptr>, a: Addr)
    requires Accounted(m, bs, free, live) && a in bs && m[a].firstFree != NONE
    ensures a in m && a in free && free[a] != [] && m[a].firstFree == free[a][0] < ENTRIES_PER_BLOCK == |m[a].next|
    ensures var p := Ptr(a, m[a].firstFree);
            p !in live && Accounted(m[a := BlockAlloc(m[a])], bs, free[a := free[a][1..]], live + {p})
  {
    hide Chain;
    AllocKeeps(m[a], free[a]);
    var f := free[a];
    assert forall i: nat :: i in f <==> i == f[0] || i in f[1..];
  }

  /** One entry of block a is free again. */
  lemma EntryFreed(m: Memory, bs: seq<Addr>, free: map<Addr, seq<nat>>, live: set<Ptr>, p: Ptr)
    requires Accounted(m, bs, free, live) && p in live
    ensures p.block in m && p.block in free && p.entry < ENTRIES_PER_BLOCK == |m[p.block].next|
    ensures Accounted(m[p.block := BlockFree(m[p.block], p.entry)], bs, free[p.block := [p.entry] + free[p.block]],
            live - {p})
  {
    hide Chain;
    FreeKeeps(m[p.block], free[p.block], p.entry);
  }

  /** A block none of whose entries is live can go. */
  lemma BlockGone(m: Memory, bs: seq<Addr>, free: map<Addr, seq<nat>>, live: set<Ptr>, i: nat)
    requires Accounted(m, bs, free, live) && Distinct(bs) && i < |bs| && bs[i] in m && m[bs[i]].allocCount == 0
    ensures Accounted(m, Without(bs, i), free, live)
  {
    hide Chain;
    var a := bs[i];
    var cs := Without(bs, i);
    WithoutMembers(bs, i);
    assert BlockValid(m[a], free[a]);
    forall p | p in live
      ensures p.block in cs
    {
      if p.block == a {
        ChainFull(m[a].next, m[a].firstFree, free[a], p.entry);
      }
    }
  }

  lemma WithoutMembers(bs: seq<Addr>, i: nat)
    requires Distinct(bs) && i < |bs|
    ensures forall a :: a in Without(bs, i) <==> a in bs && a != bs[i]
  {
    var cs := Without(bs, i);
    forall a | a in bs && a != bs[i]
      ensures a in cs
    {
      var k :| 0 <= k < |bs| && bs[k] == a;
      assert cs[if k < i then k else k - 1] == a;
    }
    forall a | a in cs
      ensures a in bs && a != bs[i]
    {
      var k :| 0 <= k < |cs| && cs[k] == a;
    }
  }

  lemma WithoutOrder(bs: seq<Addr>, i: nat, free: map<Addr, seq<nat>>)
    requires FreeFirst(bs, free) && i < |bs|
    ensures FreeFirst(Without(bs, i), free)
  {
  }

  // ----- What the pool's operations keep -----

  lemma FirstIs(m: Memory, first: Option<Addr>, last: Option<Addr>, bs: seq<Addr>, free: map<Addr, seq<nat>>,
      live: set<Ptr>)
    requires Linked(m, first, last, bs) && Accounted(m, bs, free, live)
    ensures first == (if bs == [] then None else Some(bs[0])) && Distinct(bs)
    ensures bs != [] ==> bs[0] in m && bs[0] in free && (m[bs[0]].firstFree == NONE <==> free[bs[0]] == [])
  {
    if bs != [] {
      assert bs[0] in bs && BlockValid(m[bs[0]], free[bs[0]]);
    }
  }

  lemma HasFirst(m: Memory, first: Option<Addr>, last: Option<Addr>, bs: seq<Addr>)
    requires Linked(m, first, last, bs) && bs != []
    ensures bs[0] in m
  {
  }

  lemma AllFull(bs: seq<Addr>, free: map<Addr, seq<nat>>)
    requires FreeFirst(bs, free) && (bs != [] ==> free[bs[0]] == [])
    ensures forall b | b in bs :: b in free && free[b] == []
  {
  }

  /** A block at an address that was not in use. */
  lemma Grown(m: Memory, a: Addr, b: Block, first: Option<Addr>, last: Option<Addr>, bs: seq<Addr>, free: map<Addr,
      seq<nat>>, live: set<Ptr>)
    requires Linked(m, first, last, bs) && Accounted(m, bs, free, live) && a !in m
    ensures a !in bs && Linked(m[a := b], first, last, bs) && Accounted(m[a := b], bs, free, live)
  {
    hide BlockValid;
    var n := m[a := b];
    assert forall i :: 0 <= i < |bs| ==> bs[i] in m && n[bs[i]] == m[bs[i]];
  }

  lemma LinkedKept(m: Memory, first: Option<Addr>, last: Option<Addr>, bs: seq<Addr>, a: Addr, b: Block)
    requires Linked(m, first, last, bs) && a in m && b.nextBlock == m[a].nextBlock
    ensures Linked(m[a := b], first, last, bs)
  {
  }

  lemma SameBlock(m: Memory, n: Memory, a: Addr, f: seq<nat>)
    requires SameEntries(m, n) && a in m && BlockValid(m[a], f)
    ensures a in n && BlockValid(n[a], f)
  {
    hide Chain;
  }

  lemma SameTwice(m: Memory, n: Memory, o: Memory)
    requires SameEntries(m, n) && SameEntries(n, o)
    ensures SameEntries(m, o)
  {
  }

  /** The first block has fewer free entries: it stays where it is, or goes to the end if it has none. */
  lemma TakenOrder(bs: seq<Addr>, free: map<Addr, seq<nat>>, f: seq<nat>)
    requires FreeFirst(bs, free) && OneEmpty(bs, free) && Distinct(bs) && bs != [] && free[bs[0]] != []
             && |f| < ENTRIES_PER_BLOCK
    ensures var g := free[bs[0] := f]; var cs := bs[1..] + [bs[0]];
            && OneEmpty(bs, g) && OneEmpty(cs, g)
            && (f != [] ==> FreeFirst(bs, g)) && (f == [] ==> FreeFirst(cs, g))
            && forall a :: a in bs <==> a in cs
  {
    var g := free[bs[0] := f];
    var cs := bs[1..] + [bs[0]];
    assert forall i :: 0 <= i < |bs| - 1 ==> cs[i] == bs[i + 1] && g[cs[i]] == free[bs[i + 1]];
    assert forall a :: a in bs <==> a == bs[0] || a in bs[1..];
  }

  /** A block that has a free entry comes first. */
  lemma FreedOrder(bs: seq<Addr>, free: map<Addr, seq<nat>>, i: nat, f: seq<nat>)
    requires FreeFirst(bs, free) && OneEmpty(bs, free) && Distinct(bs) && i < |bs| && f != []
    requires |f| == ENTRIES_PER_BLOCK ==> forall b | b in bs && b != bs[i] :: free[b] == []
    ensures var g := free[bs[i] := f]; var cs := [bs[i]] + Without(bs, i);
            FreeFirst(cs, g) && OneEmpty(cs, g) && forall a :: a in bs <==> a in cs
  {
    WithoutMembers(bs, i);
    WithoutOrder(bs, i, free);
    var g := free[bs[i] := f];
    var w := Without(bs, i);
    var cs := [bs[i]] + w;
    assert forall k :: 0 < k < |cs| ==> cs[k] == w[k - 1] && cs[k] != bs[i] && g[cs[k]] == free[w[k - 1]];
    assert forall a :: a in cs <==> a == bs[i] || a in w;
  }

  /** A block that goes leaves the others in order. */
  lemma GoneOrder(bs: seq<Addr>, free: map<Addr, seq<nat>>, i: nat, f: seq<nat>)
    requires FreeFirst(bs, free) && OneEmpty(bs, free) && Distinct(bs) && i < |bs|
    ensures FreeFirst(Without(bs, i), free[bs[i] := f]) && OneEmpty(Without(bs, i), free[bs[i] := f])
  {
    WithoutMembers(bs, i);
    WithoutOrder(bs, i, free);
    assert forall k :: 0 <= k < |Without(bs, i)| ==> Without(bs, i)[k] != bs[i];
  }

  class Pool {
    var mem: Memory
    var brk: Addr                      // addresses from here on have never been used
    var firstBlock: Option<Addr>
    var lastBlock: Option<Addr>        // whose next pointer last_block_ptr points to, or none for firstBlock itself
    ghost var blocks: seq<Addr>
    ghost var free: map<Addr, seq<nat>>
    ghost var live: set<Ptr>           // the entries handed out

    ghost predicate Valid()
      reads this
    {
      && (forall a | a in mem :: a < brk)
      && Linked(mem, firstBlock, lastBlock, blocks) && Accounted(mem, blocks, free, live)
      && FreeFirst(blocks, free) && OneEmpty(blocks, free)
    }

    constructor ()
      ensures Valid() && live == {} && blocks == []
    {
      mem, brk, firstBlock, lastBlock := map[], 0, None, None;
      blocks, free, live := [], map[], {};
    }

    method Prepend(block: Addr)
      requires Linked(mem, firstBlock, lastBlock, blocks) && block in mem && block !in blocks
      modifies this`mem, this`firstBlock, this`lastBlock, this`blocks
      ensures Linked(mem, firstBlock, lastBlock, blocks) && blocks == [block] + old(blocks)
      ensures SameEntries(old(mem), mem) && mem.Keys == old(mem.Keys)
    {
      Prepended(mem, firstBlock, lastBlock, blocks, block);
      var origin := firstBlock;
      mem := mem[block := mem[block].(nextBlock := origin)];
      firstBlock := Some(block);
      if origin.None? {
        lastBlock := Some(block);
      }
      blocks := [block] + blocks;
    }

    method Append(block: Addr)
      requires Linked(mem, firstBlock, lastBlock, blocks) && block in mem && block !in blocks
      modifies this`mem, this`firstBlock, this`lastBlock, this`blocks
      ensures Linked(mem, firstBlock, lastBlock, blocks) && blocks == old(blocks) + [block]
      ensures SameEntries(old(mem), mem) && mem.Keys == old(mem.Keys)
    {
      Appended(mem, firstBlock, lastBlock, blocks, block);
      mem := mem[block := mem[block].(nextBlock := None)];
      if lastBlock.Some? {
        mem := mem[lastBlock.value := mem[lastBlock.value].(nextBlock := Some(block))];
      } else {
        firstBlock := Some(block);
      }
      lastBlock := Some(block);
      blocks := blocks + [block];
    }

    /** _ufdt_node_pool_remove_block: prev is the block whose next pointer block_ptr is, or none for the pool's own. */
    method Remove(prev: Option<Addr>, block: Addr, ghost i: nat)
      requires Linked(mem, firstBlock, lastBlock, blocks) && i < |blocks| && block == blocks[i]
               && prev == Before(blocks, i)
      modifies this`mem, this`firstBlock, this`lastBlock, this`blocks
      ensures Linked(mem, firstBlock, lastBlock, blocks) && blocks == old(Without(blocks, i))
      ensures SameEntries(old(mem), mem) && mem.Keys == old(mem.Keys)
    {
      Removed(mem, firstBlock, lastBlock, blocks, i);
      var next := mem[block].nextBlock;
      mem := Unlink(mem, prev, block);
      if prev.None? {
        firstBlock := next;
      }
      if next.None? {
        lastBlock := prev;
      }
      blocks := Without(blocks, i);
    }

    /** _ufdt_node_pool_search_block: the block that node is in, and the block before it. */
    method Search(node: Ptr) returns (prev: Option<Addr>, block: Option<Addr>, ghost i: nat)
      requires Linked(mem, firstBlock, lastBlock, blocks)
      ensures block.None? <==> node.block !in blocks
      ensures block.Some? ==> i < |blocks| && block == Some(node.block) && blocks[i] == node.block
                              && prev == Before(blocks, i)
    {
      prev, block, i := None, firstBlock, 0;
      while block.Some? && node.block != block.value
        invariant i <= |blocks| && node.block !in blocks[..i] && block == Succ(blocks, i - 1)
                  && prev == Before(blocks, i)
        decreases |blocks| - i
      {
        assert mem[blocks[i]].nextBlock == Succ(blocks, i);
        prev := block;
        block := mem[block.value].nextBlock;
        i := i + 1;
      }
      assert block.None? ==> blocks[..i] == blocks;
    }

    /** The first part of ufdt_node_pool_alloc: if no block has a free entry, there is a new first block. */
    method EnsureFree() returns (block: Addr)
      requires Valid()
      modifies this
      ensures Valid() && live == old(live)
      ensures blocks != [] && blocks[0] == block && block in mem && mem[block].firstFree != NONE
    {
      hide BlockValid, Linked, Accounted, FreeFirst, OneEmpty, SameEntries;
      FirstIs(mem, firstBlock, lastBlock, blocks, free, live);
      if firstBlock.None? || mem[firstBlock.value].firstFree == NONE {
        ghost var m, bs := mem, blocks;
        AllFull(bs, free);
        block := brk;
        var b := CreateBlock();
        Grown(m, block, b, firstBlock, lastBlock, bs, free, live);
        mem := mem[block := b];
        brk := brk + 1;
        ghost var n := mem;
        Prepend(block);
        AccountedSame(n, mem, bs, bs, free, live);
        SameBlock(n, mem, block, Count(0));
        NewBlock(mem, bs, free, live, block);
        free := free[block := Count(0)];
        FirstIs(mem, firstBlock, lastBlock, blocks, free, live);
        assert free[block] != [];
      } else {
        block := firstBlock.value;
      }
    }

    /** The last step of ufdt_node_pool_alloc, for a first block that has become full. */
    method MoveToEnd(block: Addr)
      requires Linked(mem, firstBlock, lastBlock, blocks) && Distinct(blocks) && blocks != [] && blocks[0] == block
      modifies this`mem, this`firstBlock, this`lastBlock, this`blocks
      ensures Linked(mem, firstBlock, lastBlock, blocks) && blocks == old(blocks)[1..] + [block]
      ensures SameEntries(old(mem), mem) && mem.Keys == old(mem.Keys)
    {
      hide Linked, SameEntries;
      ghost var n, bs := mem, blocks;
      HasFirst(mem, firstBlock, lastBlock, blocks);
      Remove(None, block, 0);
      ghost var n' := mem;
      WithoutMembers(bs, 0);
      assert blocks == bs[1..];
      Append(block);
      SameTwice(n, n', mem);
    }

    /** ufdt_node_pool_alloc: an entry that was not live is, and nothing else changes. */
    method Alloc() returns (node: Ptr)
      requires Valid()
      modifies this
      ensures Valid() && node !in old(live) && live == old(live) + {node}
    {
      hide BlockValid, Linked, Accounted, FreeFirst, OneEmpty, SameEntries, BlockAlloc;
      var block := EnsureFree();
      FirstIs(mem, firstBlock, lastBlock, blocks, free, live);
      EntryTaken(mem, blocks, free, live, block);
      node := Ptr(block, mem[block].firstFree);
      ghost var m, bs, f := mem, blocks, free[block][1..];
      AllocatedLink(m[block]);
      LinkedKept(m, firstBlock, lastBlock, bs, block, BlockAlloc(m[block]));
      FreeBound(m, bs, free, live, block);
      TakenOrder(bs, free, f);
      mem := mem[block := BlockAlloc(mem[block])];
      free := free[block := f];
      live := live + {node};
      FirstIs(mem, firstBlock, lastBlock, blocks, free, live);
      if mem[block].firstFree == NONE {
        ghost var n := mem;
        MoveToEnd(block);
        AccountedSame(n, mem, bs, blocks, free, live);
      }
    }

    /**
     * ufdt_node_pool_free: the entry is not live any more, and nothing else changes; what is in no block is left alone.
     */
    method Free(node: Ptr)
      requires Valid() && (node in live || node.block !in blocks)
      modifies this
      ensures Valid() && live == old(live) - {node}
    {
      hide BlockValid, Linked, Accounted, FreeFirst, OneEmpty, SameEntries, BlockFree;
      var prev, found;
      ghost var i;
      LiveBlock(mem, blocks, free, live, node);
      prev, found, i := Search(node);
      if found.None? {
        return;
      }
      var block := found.value;
      FirstIs(mem, firstBlock, lastBlock, blocks, free, live);
      EntryFreed(mem, blocks, free, live, node);
      ghost var m, bs, g, f := mem, blocks, free, [node.entry] + free[block];
      FreedLink(m[block], node.entry);
      LinkedKept(m, firstBlock, lastBlock, bs, block, BlockFree(m[block], node.entry));
      mem := mem[block := BlockFree(mem[block], node.entry)];
      free := free[block := f];
      live := live - {node};
      ghost var n := mem;
      Remove(prev, block, i);
      AccountedSame(n, mem, bs, bs, free, live);
      WithoutMembers(bs, i);
      FreeCount(mem, bs, free, live, block);
      GoneOrder(bs, g, i, f);
      if mem[block].allocCount == 0 {
        BlockGone(mem, bs, free, live, i);
        FirstIs(mem, firstBlock, lastBlock, blocks, free, live);
        if firstBlock.Some? && mem[firstBlock.value].firstFree != NONE {
          return;
        }
        AllFull(blocks, free);
      }
      FreedOrder(bs, g, i, f);
      ghost var n' := mem;
      Prepend(block);
      AccountedSame(n', mem, bs, blocks, free, live);
    }
  }

  lemma AllocatedLink(b: Block)
    requires 0 <= b.firstFree < |b.next|
    ensures BlockAlloc(b).nextBlock == b.nextBlock
  {
  }

  lemma FreedLink(b: Block, entry: nat)
    requires entry < |b.next|
    ensures BlockFree(b, entry).nextBlock == b.nextBlock
  {
  }

  lemma FreeBound(m: Memory, bs: seq<Addr>, free: map<Addr, seq<nat>>, live: set<Ptr>, a: Addr)
    requires Accounted(m, bs, free, live) && a in bs
    ensures a in free && |free[a]| <= ENTRIES_PER_BLOCK
  {
    assert BlockValid(m[a], free[a]);
    var s := ChainEntries(m[a].next, m[a].firstFree, free[a]);
    var t := Below(ENTRIES_PER_BLOCK);
    Subset(s, t);
  }

  lemma FreeCount(m: Memory, bs: seq<Addr>, free: map<Addr, seq<nat>>, live: set<Ptr>, a: Addr)
    requires Accounted(m, bs, free, live) && a in bs
    ensures a in m && a in free && (m[a].allocCount == 0 <==> |free[a]| == ENTRIES_PER_BLOCK)
  {
    assert BlockValid(m[a], free[a]);
  }

  lemma LiveBlock(m: Memory, bs: seq<Addr>, free: map<Addr, seq<nat>>, live: set<Ptr>, p: Ptr)
    requires Accounted(m, bs, free, live)
    ensures p in live ==> p.block in bs
  {
  }
}
