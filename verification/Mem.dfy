/** The allocator of kore-3.2.0/src/mem.c, over flat byte-addressed memory. */
module Mem {
  import opened Bytes
  import opened Pools

  /** KORE_MEM_BLOCKS and KORE_MEM_BLOCK_SIZE_MAX */
  const BLOCKS: nat := 11
  const BLOCK_SIZE_MAX: nat := 8192

  // ----- memory

  type Memory = nat -> byte

  function Load(m: Memory, at: nat, n: nat): (s: seq<byte>)
    ensures |s| == n
  {
    seq(n, i requires 0 <= i < n => m(at + i))
  }

  function Store(m: Memory, at: nat, s: seq<byte>): Memory {
    (a: nat) => if at <= a < at + |s| then s[a - at] else m(a)
  }

  lemma LoadStored(m: Memory, at: nat, s: seq<byte>)
    ensures Load(Store(m, at, s), at, |s|) == s
  {
  }

  lemma LoadPrefix(m: Memory, at: nat, k: nat, n: nat)
    requires k <= n
    ensures Load(m, at, k) == Load(m, at, n)[..k]
  {
  }

  lemma LoadApart(m: Memory, at: nat, s: seq<byte>, b: nat, n: nat)
    requires Apart(at, |s|, b, n)
    ensures Load(Store(m, at, s), b, n) == Load(m, b, n)
  {
  }

  // ----- size classes

  /** The payload size of the `i`-th class: 8, 16, 32, and so on. */
  function ClassSize(i: nat): (size: nat)
    ensures size > 0
  {
    if i == 0 then 8 else 2 * ClassSize(i - 1)
  }

  /** The smallest class that is large enough. */
  predicate Fits(len: nat, i: nat) {
    len <= ClassSize(i) && (i > 0 ==> ClassSize(i - 1) < len)
  }

  lemma {:induction false} ClassGrows(i: nat, j: nat)
    requires i < j
    ensures 2 * ClassSize(i) <= ClassSize(j) && ClassSize(i) >= 8
  {
    if i + 1 < j {
      ClassGrows(i, j - 1);
    } else if i > 0 {
      ClassGrows(i - 1, i);
    }
  }

  lemma FitsUnique(len: nat, i: nat, j: nat)
    requires Fits(len, i) && Fits(len, j)
    ensures i == j
  {
    if i + 1 < j {
      ClassGrows(i, j - 1);
    } else if j + 1 < i {
      ClassGrows(j, i - 1);
    }
  }

  lemma LastClass(i: nat)
    ensures ClassSize(BLOCKS - 1) == BLOCK_SIZE_MAX
    ensures i < BLOCKS ==> ClassSize(i) <= BLOCK_SIZE_MAX
    ensures i >= BLOCKS ==> ClassSize(i - 1) >= BLOCK_SIZE_MAX
  {
    assert ClassSize(2) == 32 && ClassSize(4) == 128;
    assert ClassSize(6) == 512 && ClassSize(8) == 2048;
    if i < BLOCKS - 1 {
      ClassGrows(i, BLOCKS - 1);
    } else if i > BLOCKS {
      ClassGrows(BLOCKS - 1, i - 1);
    }
  }

  /** `memblock_index`: the smallest class that fits, or none (fatal) beyond the largest. */
  method MemblockIndex(len: nat) returns (idx: Option<nat>)
    requires len <= 0x8000_0000_0000_0000
    ensures idx.Some? <==> len <= BLOCK_SIZE_MAX
    ensures idx.Some? ==> idx.value < BLOCKS && Fits(len, idx.value)
  {
    var i: nat, mlen: nat := 0, 8;
    while mlen < len
      invariant mlen == ClassSize(i) && (i > 0 ==> ClassSize(i - 1) < len)
      invariant mlen > 0
      decreases len - mlen
    {
      i, mlen := i + 1, 2 * mlen;
    }
    LastClass(i);
    if i > BLOCKS - 1 {
      return None;
    }
    return Some(i);
  }

  /** The length kore_mem_init gives the elements of a class: room for the size word, the payload
      and the trailer, rounded down to a multiple of the alignment. */
  function ElementLength(size: nat): nat {
    var mlen := 8 + size + 4 + 8;
    mlen - mlen % 8
  }

  /** How many elements kore_mem_init starts a class with: KORE_MEM_BLOCK_PREALLOC kilobytes. */
  function Prealloc(size: nat): nat
    requires size > 0
  {
    128 * 1024 / size
  }

  /** The first region of the pool for a class would be larger than any size. */
  predicate ClassTooLarge(i: nat, header: nat) {
    TooLarge(Prealloc(ClassSize(i)), ElementLength(ClassSize(i)) + header)
  }

  /** The rounding never cuts into the block. */
  lemma ElementHoldsBlock(size: nat, len: nat)
    requires len <= size
    ensures 8 + len + 4 <= ElementLength(size)
  {
  }

  /** What kore_malloc asks calloc for, in `size_t` arithmetic. */
  function Request(len: nat): nat {
    (8 + len + 4) % (SIZE_MAX + 1)
  }

  /** The request covers the block exactly if the length is at least the length of prefix and
      trailer below the largest size; otherwise it is shorter than these two alone. */
  lemma RequestCoversBlock(len: nat)
    requires len <= SIZE_MAX
    ensures Request(len) >= 8 + len + 4 <==> len <= SIZE_MAX - 12
    ensures len > SIZE_MAX - 12 ==> Request(len) < 12
  {
  }

  /** The first length for which it does not. */
  lemma RequestWraps()
    ensures Request(SIZE_MAX - 11) == 0 && Request(SIZE_MAX - 12) == SIZE_MAX
  {
  }

  // ----- the heap

  /** A block handed out: the payload's length and the pool it came from; BLOCKS for calloc. */
  datatype Block = Block(len: nat, home: nat)

  /** KORE_MEM_MAGIC after two bytes of clear flags. */
  const TRAILER: seq<byte> := [0, 0, 0xd0, 0xd0]

  /** The size word before the payload and the `struct meminfo` after it. */
  predicate Stamped(m: Memory, ptr: nat, len: nat) {
    ptr >= 8 && Load(m, ptr - 8, 8) == ToBytes(len, 8) && Load(m, ptr + len, 4) == TRAILER
  }

  /** What is taken: the areas of the address space, and the busy elements of each pool. */
  datatype View = View(header: nat, owner: map<Area, nat>, busy: seq<set<nat>>)

  /** The block lies in a busy element of the smallest class that fits, or is an area of its own. */
  ghost predicate Placed(v: View, ptr: nat, b: Block) {
    && 0 < b.len <= SIZE_MAX - 12
    && if b.home < |v.busy| then
         Fits(b.len, b.home) && ptr >= 8 + v.header && ptr - 8 - v.header in v.busy[b.home]
       else
         && b.home == BLOCKS && b.len > BLOCK_SIZE_MAX && ptr >= 8
         && Area(ptr - 8, b.len + 12) in v.owner && v.owner[Area(ptr - 8, b.len + 12)] == BLOCKS
  }

  /** Every busy element holds a live block. */
  ghost predicate BusyIsLive(v: View, live: map<nat, Block>) {
    forall i, e | 0 <= i < |v.busy| && e in v.busy[i] ::
      e + v.header + 8 in live && live[e + v.header + 8].home == i
  }

  /** Every area from calloc holds a live block. */
  ghost predicate AreasAreLive(v: View, live: map<nat, Block>) {
    forall r | r in v.owner && v.owner[r] == BLOCKS ::
      r.start + 8 in live && live[r.start + 8].home == BLOCKS && live[r.start + 8].len + 12 == r.length
  }

  /** Every live block has its place, and nothing is taken that holds no live block. */
  ghost predicate Settled(v: View, live: map<nat, Block>) {
    && |v.busy| == BLOCKS && BusyIsLive(v, live) && AreasAreLive(v, live)
    && (forall p | p in live :: Placed(v, p, live[p]))
  }

  /** What a block lies in is still taken. */
  lemma PlacedStays(v: View, w: View, p: nat, b: Block)
    requires Placed(v, p, b) && w.header == v.header && |w.busy| == |v.busy|
    requires b.home < |v.busy| && p >= 8 + v.header && p - 8 - v.header in v.busy[b.home] ==>
               p - 8 - v.header in w.busy[b.home]
    requires forall r | r in v.owner && v.owner[r] == BLOCKS && r.start + 8 == p :: r in w.owner && w.owner[r] == BLOCKS
    ensures Placed(w, p, b)
  {
  }

  lemma SettledPlaces(v: View, live: map<nat, Block>, p: nat)
    requires Settled(v, live)
    ensures p in live ==> Placed(v, p, live[p])
    ensures |v.busy| == BLOCKS
  {
  }

  /** One more busy element, and the live block in it. */
  lemma BusyMore(v: View, live: map<nat, Block>, w: View, e: nat, b: Block)
    requires BusyIsLive(v, live) && b.home < |v.busy| && e + v.header + 8 !in live
    requires w.header == v.header && w.busy == v.busy[b.home := v.busy[b.home] + {e}]
    ensures BusyIsLive(w, live[e + v.header + 8 := b])
  {
    forall i, f | 0 <= i < |w.busy| && f in w.busy[i]
      ensures f + v.header + 8 in live[e + v.header + 8 := b]
      ensures live[e + v.header + 8 := b][f + v.header + 8].home == i
    {
      if i != b.home || f != e {
        assert f in v.busy[i];
      }
    }
  }

  /** One busy element fewer, and no live block in it. */
  lemma BusyLess(v: View, live: map<nat, Block>, w: View, e: nat, k: nat)
    requires BusyIsLive(v, live) && k < |v.busy| && e in v.busy[k]
    requires w.header == v.header && w.busy == v.busy[k := v.busy[k] - {e}]
    ensures BusyIsLive(w, live - {e + v.header + 8})
  {
    assert live[e + v.header + 8].home == k;
    forall i, f | 0 <= i < |w.busy| && f in w.busy[i]
      ensures f + v.header + 8 in live - {e + v.header + 8} && live[f + v.header + 8].home == i
    {
      assert f in v.busy[i];
    }
  }

  lemma SettleSmall(v: View, live: map<nat, Block>, w: View, ptr: nat, b: Block)
    requires Settled(v, live) && ptr !in live && Placed(w, ptr, b) && b.home < BLOCKS
    requires w.header == v.header && ptr >= 8 + v.header
    requires w.busy == v.busy[b.home := v.busy[b.home] + {ptr - 8 - v.header}]
    requires forall r :: r in w.owner && w.owner[r] == BLOCKS <==> r in v.owner && v.owner[r] == BLOCKS
    ensures Settled(w, live[ptr := b])
  {
    hide BusyIsLive, Placed;
    BusyMore(v, live, w, ptr - 8 - v.header, b);
    forall p | p in live
      ensures Placed(w, p, live[p])
    {
      PlacedStays(v, w, p, live[p]);
    }
  }

  lemma SettleLarge(v: View, live: map<nat, Block>, w: View, ptr: nat, b: Block)
    requires Settled(v, live) && ptr !in live && Placed(w, ptr, b) && b.home == BLOCKS && ptr >= 8
    requires w.header == v.header && w.busy == v.busy && w.owner == v.owner[Area(ptr - 8, b.len + 12) := BLOCKS]
    ensures Settled(w, live[ptr := b])
  {
    hide BusyIsLive, Placed;
    BusySame(v, live, w, ptr, b);
    forall p | p in live
      ensures Placed(w, p, live[p])
    {
      PlacedStays(v, w, p, live[p]);
    }
  }

  lemma BusySame(v: View, live: map<nat, Block>, w: View, ptr: nat, b: Block)
    requires BusyIsLive(v, live) && w.header == v.header && w.busy == v.busy && ptr !in live
    ensures BusyIsLive(w, live[ptr := b])
  {
  }

  lemma UnsettleSmall(v: View, live: map<nat, Block>, w: View, ptr: nat, b: Block)
    requires Settled(v, live) && ptr in live && live[ptr] == b && b.home < BLOCKS
    requires w.header == v.header && w.owner == v.owner
    requires ptr >= 8 + v.header && ptr - 8 - v.header in v.busy[b.home]
    requires w.busy == v.busy[b.home := v.busy[b.home] - {ptr - 8 - v.header}]
    ensures Settled(w, live - {ptr})
  {
    hide BusyIsLive, Placed;
    BusyLess(v, live, w, ptr - 8 - v.header, b.home);
    forall p | p in live - {ptr}
      ensures Placed(w, p, live[p])
    {
      PlacedStays(v, w, p, live[p]);
    }
  }

  lemma UnsettleLarge(v: View, live: map<nat, Block>, w: View, ptr: nat, b: Block)
    requires Settled(v, live) && ptr in live && live[ptr] == b && b.home == BLOCKS && ptr >= 8
    requires w.header == v.header && w.busy == v.busy && w.owner == v.owner - {Area(ptr - 8, b.len + 12)}
    ensures Settled(w, live - {ptr})
  {
    hide Placed;
    forall p | p in live - {ptr}
      ensures Placed(w, p, live[p])
    {
      PlacedStays(v, w, p, live[p]);
    }
  }

  predicate SamePrefix(a: seq<byte>, b: seq<byte>, n: nat) {
    n <= |a| && n <= |b| && a[..n] == b[..n]
  }

  /** Writing elsewhere changes neither a block's payload nor its prefix and trailer. */
  lemma Untouched(m: Memory, at: nat, s: seq<byte>, q: nat, len: nat)
    requires q >= 8 && Apart(at, |s|, q - 8, len + 12)
    ensures Stamped(m, q, len) ==> Stamped(Store(m, at, s), q, len)
    ensures Load(Store(m, at, s), q, len) == Load(m, q, len)
  {
    LoadApart(m, at, s, q - 8, 8);
    LoadApart(m, at, s, q, len);
    LoadApart(m, at, s, q + len, 4);
  }

  /** The size word reads back. */
  lemma SizeReadsBack(m: Memory, ptr: nat, len: nat)
    requires len <= SIZE_MAX && ptr >= 8 && Load(m, ptr - 8, 8) == ToBytes(len, 8)
    ensures FromBytes(Load(m, ptr - 8, 8)) == len
  {
    assert Range(8) == SIZE_MAX + 1 by {
      assert Range(4) == 0x1_0000_0000;
    }
    BytesRoundTrip(len, 8);
  }

  lemma StampedReads(m: Memory, ptr: nat, len: nat)
    requires Stamped(m, ptr, len) && len <= SIZE_MAX
    ensures FromBytes(Load(m, ptr - 8, 8)) == len && Load(m, ptr + len + 2, 2) == [0xd0, 0xd0]
  {
    SizeReadsBack(m, ptr, len);
    assert Load(m, ptr + len + 2, 2) == Load(m, ptr + len, 4)[2..];
  }

  lemma StampedNow(m: Memory, ptr: nat, len: nat)
    requires ptr >= 8 && Load(m, ptr - 8, 8) == ToBytes(len, 8)
    ensures Stamped(Store(m, ptr + len, TRAILER), ptr, len)
  {
    LoadStored(m, ptr + len, TRAILER);
    LoadApart(m, ptr + len, TRAILER, ptr - 8, 8);
  }

  /** A write inside the payload leaves prefix and trailer alone. */
  lemma InPayload(m: Memory, ptr: nat, len: nat, offset: nat, data: seq<byte>)
    requires ptr >= 8 && offset + |data| <= len
    ensures Stamped(m, ptr, len) ==> Stamped(Store(m, ptr + offset, data), ptr, len)
    ensures Load(Store(m, ptr + offset, data), ptr, len)
              == Load(m, ptr, len)[..offset] + data + Load(m, ptr, len)[offset + |data|..]
  {
    hide ToBytes;
    LoadApart(m, ptr + offset, data, ptr - 8, 8);
    LoadApart(m, ptr + offset, data, ptr + len, 4);
    var was, now := Load(m, ptr, len), Load(Store(m, ptr + offset, data), ptr, len);
    var want := was[..offset] + data + was[offset + |data|..];
    assert forall i | 0 <= i < len :: now[i] == want[i];
  }

  /** The index computed when a block is freed is the one computed when it was handed out. */
  lemma SmallIsPooled(v: View, ptr: nat, b: Block, i: nat)
    requires Placed(v, ptr, b) && |v.busy| == BLOCKS && b.len <= BLOCK_SIZE_MAX && (b.home < BLOCKS ==> Fits(b.len, i))
    ensures b.home == i && i < BLOCKS && ptr >= 8 + v.header && ptr - 8 - v.header in v.busy[i]
  {
    FitsUnique(b.len, i, b.home);
  }

  lemma FitsHolds(len: nat, i: nat)
    requires Fits(len, i)
    ensures 8 + len + 4 <= ElementLength(ClassSize(i))
  {
    ElementHoldsBlock(ClassSize(i), len);
  }

  lemma LargeIsAnArea(v: View, ptr: nat, b: Block)
    requires Placed(v, ptr, b) && |v.busy| == BLOCKS && b.len > BLOCK_SIZE_MAX
    ensures b.home == BLOCKS && ptr >= 8
    ensures Area(ptr - 8, b.len + 12) in v.owner && v.owner[Area(ptr - 8, b.len + 12)] == BLOCKS
  {
    LastClass(b.home);
  }

  class Heap {
    const header: nat
    const space: AddressSpace
    const pools: seq<Pool>
    var memory: Memory
    /** The blocks handed out and not freed, by the address of their payload. */
    ghost var live: map<nat, Block>

    constructor (header: nat, space: AddressSpace, pools: seq<Pool>)
      ensures this.header == header && this.space == space && this.pools == pools && live == map[]
    {
      this.header, this.space, this.pools := header, space, pools;
      memory, live := (_: nat) => 0, map[];
    }

    ghost function Taken(): (v: View)
      reads space, pools
      ensures v.header == header && v.owner == space.owner && |v.busy| == |pools|
      ensures forall i | 0 <= i < |pools| :: v.busy[i] == pools[i].busy
    {
      View(header, space.owner, seq(|pools|, i requires 0 <= i < |pools| reads pools => pools[i].busy))
    }

    ghost predicate PoolsValid()
      reads space, pools
    {
      && |pools| == BLOCKS && space.Valid()
      && (forall i | 0 <= i < BLOCKS ::
            && pools[i].id == i && pools[i].header == header
            && pools[i].elen == ElementLength(ClassSize(i)) && pools[i].Valid(space.owner))
    }

    ghost predicate Valid()
      reads this, space, pools
    {
      PoolsValid() && Settled(Taken(), live) && forall p | p in live :: Stamped(memory, p, live[p].len)
    }

    /** The payload of a block. */
    ghost function Contents(ptr: nat): seq<byte>
      requires ptr in live
      reads this
    {
      Load(memory, ptr, live[ptr].len)
    }

    /** The area a block lies in. */
    lemma HomeOf(ptr: nat, b: Block) returns (r: Area)
      requires PoolsValid() && Placed(Taken(), ptr, b)
      ensures ptr >= 8 && r in space.owner && space.owner[r] == b.home
      ensures Inside(ptr - 8, b.len + 12, r)
      ensures b.home == BLOCKS ==> r == Area(ptr - 8, b.len + 12)
    {
      if b.home < BLOCKS {
        var pool := pools[b.home];
        var e := ptr - 8 - header;
        assert pool.Element(e);
        r :| r in space.owner && space.owner[r] == pool.id && Inside(e, pool.slen, r);
        ElementHoldsBlock(ClassSize(b.home), b.len);
      } else {
        r := Area(ptr - 8, b.len + 12);
      }
    }

    /** Prefix, payload and trailer of two blocks never overlap. */
    lemma BlocksApart(p: nat, b: Block, q: nat, c: Block)
      requires PoolsValid() && Placed(Taken(), p, b) && Placed(Taken(), q, c)
      requires p != q || b.home != c.home || (b.home == BLOCKS && b != c)
      ensures p >= 8 && q >= 8 && Apart(p - 8, b.len + 12, q - 8, c.len + 12)
    {
      if b.home == c.home && b.home < BLOCKS {
        ElementHoldsBlock(ClassSize(b.home), b.len);
        ElementHoldsBlock(ClassSize(b.home), c.len);
        assert Apart(p - 8 - header, pools[b.home].slen, q - 8 - header, pools[b.home].slen);
      } else {
        var r := HomeOf(p, b);
        var s := HomeOf(q, c);
        InsideApart(space, r, p - 8, b.len + 12, s, q - 8, c.len + 12);
      }
    }

    /** `kore_mem_init`; None (fatal) exactly if the first region of some class is too large. */
    static method Init(header: nat) returns (heap: Option<Heap>)
      requires header > 0
      ensures heap.Some? ==> heap.value.Valid() && heap.value.live == map[]
      ensures heap.None? <==> exists i | 0 <= i < BLOCKS :: ClassTooLarge(i, header)
      ensures heap.Some? ==> fresh(heap.value) && fresh(heap.value.space) && fresh(heap.value.pools)
    {
      var space := new AddressSpace();
      hide ElementLength, Pool.Valid, AddressSpace.Valid, Heap.Valid, ClassTooLarge;
      var pools: seq<Pool>, size: nat := [], 8;
      while |pools| < BLOCKS
        invariant |pools| <= BLOCKS && size == ClassSize(|pools|)
        invariant fresh(space) && fresh(pools) && space.Valid()
        invariant Empty(pools, header, space.owner)
        invariant forall i | 0 <= i < |pools| :: !ClassTooLarge(i, header)
        decreases BLOCKS - |pools|
      {
        var pool := AddPool(pools, header, space, size);
        if pool.None? {
          return None;
        }
        pools := pools + [pool.value];
        size := 2 * size;
      }
      var made := new Heap(header, space, pools);
      made.Unused();
      return Some(made);
    }

    static method AddPool(pools: seq<Pool>, header: nat, space: AddressSpace, size: nat) returns (pool: Option<Pool>)
      requires header > 0 && size == ClassSize(|pools|) && size > 0
      requires space.Valid() && Empty(pools, header, space.owner)
      modifies space
      ensures space.Valid() && (pool.None? <==> ClassTooLarge(|pools|, header))
      ensures pool.Some? ==> fresh(pool.value) && Empty(pools + [pool.value], header, space.owner)
    {
      hide Prealloc, TooLarge, ElementLength, Pool.Valid;
      ghost var owner := space.owner;
      pool := Pool.Init(space, |pools|, header, ElementLength(size), Prealloc(size));
      if pool.Some? {
        EmptyGrows(pools, header, owner, space.owner, pool.value);
      }
    }

    lemma Unused()
      requires |pools| == BLOCKS && live == map[] && space.Valid() && Empty(pools, header, space.owner)
      ensures Valid()
    {
    }

    /** Pools as kore_pool_init leaves them, nothing handed out yet. */
    static ghost predicate Empty(pools: seq<Pool>, header: nat, owner: map<Area, nat>)
      reads pools
    {
      && (forall i | 0 <= i < |pools| ::
            && pools[i].id == i && pools[i].header == header && pools[i].busy == {}
            && pools[i].elen == ElementLength(ClassSize(i)) && pools[i].Valid(owner))
      && (forall r | r in owner :: owner[r] < |pools|)
    }

    static lemma EmptyGrows(pools: seq<Pool>, header: nat, owner: map<Area, nat>, next: map<Area, nat>, pool: Pool)
      requires Empty(pools, header, owner)
      requires forall r | r in owner :: r in next && next[r] == owner[r]
      requires forall r | r in next && r !in owner :: next[r] == |pools|
      requires pool.id == |pools| && pool.header == header && pool.busy == {}
      requires pool.elen == ElementLength(ClassSize(|pools|)) && pool.Valid(next)
      ensures Empty(pools + [pool], header, next)
    {
      forall i | 0 <= i < |pools|
        ensures pools[i].Valid(next)
      {
        pools[i].StillValid(owner, next);
      }
    }

    /** Every pool but the `k`-th is as valid as it was. */
    lemma OthersValid(k: nat, owner: map<Area, nat>)
      requires |pools| == BLOCKS
      requires forall i | 0 <= i < BLOCKS && i != k :: pools[i].id == i && pools[i].Valid(owner)
      requires forall r | r in owner && owner[r] != BLOCKS :: r in space.owner && space.owner[r] == owner[r]
      ensures forall i | 0 <= i < BLOCKS && i != k :: pools[i].Valid(space.owner)
    {
      forall i | 0 <= i < BLOCKS && i != k
        ensures pools[i].Valid(space.owner)
      {
        pools[i].StillValid(owner, space.owner);
      }
    }

    /** An element that was not handed out holds no live block, and neither does a new area. */
    lemma NewIsNotLive(v: View, ptr: nat, b: Block)
      requires PoolsValid() && Placed(Taken(), ptr, b) && !Placed(v, ptr, b)
      requires Settled(v, live) && v.header == header
      requires ptr in live ==> Placed(v, ptr, live[ptr])
      requires forall r | r in v.owner :: r in space.owner && space.owner[r] == v.owner[r]
      requires forall i | 0 <= i < BLOCKS :: v.busy[i] <= pools[i].busy
      ensures ptr !in live
    {
      if ptr in live {
        var c := live[ptr];
        PlacedStays(v, Taken(), ptr, c);
        SamePlace(v, ptr, b, c);
        BlocksApart(ptr, b, ptr, c);
      }
    }

    /** Of two blocks at one address in the same pool, either both or none is placed. */
    lemma SamePlace(v: View, ptr: nat, b: Block, c: Block)
      requires v.header == header && |v.busy| == BLOCKS
      requires Placed(v, ptr, c) && !Placed(v, ptr, b) && Placed(Taken(), ptr, b)
      requires PoolsValid()
      ensures b.home != c.home || (b.home == BLOCKS && b != c)
    {
    }

    /** The two ways a block gets its place: an element from the pool of its class, or an area of
        its own. */
    method PlaceSmall(len: nat) returns (ptr: nat)
      requires PoolsValid() && Settled(Taken(), live) && 0 < len <= BLOCK_SIZE_MAX
      modifies this`live, space, pools
      ensures PoolsValid() && Settled(Taken(), live) && ptr !in old(live) && ptr in live
      ensures live == old(live)[ptr := live[ptr]] && live[ptr].len == len
    {
      hide Pool.Valid, AddressSpace.Valid, Pool.Element, Housed, Fits, ClassSize, ElementLength, Settled;
      ghost var v := Taken();
      var idx := MemblockIndex(len);
      ghost var b := Block(len, idx.value);
      var addr := pools[idx.value].Get(space);
      OthersValid(b.home, v.owner);
      ptr := addr + 8;
      SettledPlaces(v, live, ptr);
      NewIsNotLive(v, ptr, b);
      SettleSmall(v, live, Taken(), ptr, b);
      live := live[ptr := b];
    }

    method PlaceLarge(len: nat) returns (ptr: nat)
      requires PoolsValid() && Settled(Taken(), live) && BLOCK_SIZE_MAX < len <= SIZE_MAX - 12
      modifies this`live, space
      ensures PoolsValid() && Settled(Taken(), live) && ptr !in old(live) && ptr in live
      ensures live == old(live)[ptr := live[ptr]] && live[ptr].len == len
    {
      hide Pool.Valid, AddressSpace.Valid, Pool.Element, Housed, Fits, ClassSize, ElementLength, Settled;
      ghost var v := Taken();
      ghost var b := Block(len, BLOCKS);
      var addr := space.Obtain(8 + len + 4, BLOCKS);
      OthersValid(BLOCKS, v.owner);
      ptr := addr + 8;
      SettledPlaces(v, live, ptr);
      NewIsNotLive(v, ptr, b);
      SettleLarge(v, live, Taken(), ptr, b);
      live := live[ptr := b];
    }

    /** The block gets its place: an element from the pool of its class, or an area of its own. */
    method Place(len: nat) returns (ptr: nat)
      requires PoolsValid() && Settled(Taken(), live) && 0 < len <= SIZE_MAX - 12
      modifies this`live, space, pools
      ensures PoolsValid() && Settled(Taken(), live) && ptr !in old(live) && ptr in live
      ensures live == old(live)[ptr := live[ptr]] && live[ptr].len == len
    {
      if len <= BLOCK_SIZE_MAX {
        ptr := PlaceSmall(len);
      } else {
        ptr := PlaceLarge(len);
      }
    }

    /** KORE_MEMSIZE */
    function MemSize(ptr: nat): nat
      requires ptr >= 8
      reads this`memory
    {
      FromBytes(Load(memory, ptr - 8, 8))
    }

    /** The magic of KORE_MEMINFO is where it should be. */
    predicate MagicFound(ptr: nat)
      requires ptr >= 8
      reads this`memory
    {
      Load(memory, ptr + MemSize(ptr) + 2, 2) == [0xd0, 0xd0]
    }

    /** Both checks of kore_free and kore_realloc succeed for a live block. */
    lemma LiveBlockReads(ptr: nat)
      requires Valid() && ptr in live
      ensures ptr >= 8 && MemSize(ptr) == live[ptr].len > 0 && MagicFound(ptr)
    {
      hide PoolsValid, Settled, Load, Stamped;
      SettledPlaces(Taken(), live, ptr);
      StampedReads(memory, ptr, live[ptr].len);
    }

    /** A write inside the bounds of one block leaves every other block alone. */
    lemma OthersUntouched(ptr: nat, m: Memory, at: nat, s: seq<byte>)
      requires PoolsValid() && Settled(Taken(), live) && ptr in live
      requires ptr <= at + 8 && at + |s| <= ptr + live[ptr].len + 4
      ensures forall q | q in live && q != ptr ::
                && (Stamped(m, q, live[q].len) ==> Stamped(Store(m, at, s), q, live[q].len))
                && Load(Store(m, at, s), q, live[q].len) == Load(m, q, live[q].len)
    {
      hide *;
      hide PoolsValid, Settled, Stamped, Load, Store;
      forall q | q in live && q != ptr
        ensures Stamped(m, q, live[q].len) ==> Stamped(Store(m, at, s), q, live[q].len)
        ensures Load(Store(m, at, s), q, live[q].len) == Load(m, q, live[q].len)
      {
        LiveBlocksApart(ptr, q);
        Untouched(m, at, s, q, live[q].len);
      }
    }

    /** Prefix, payload and trailer of any two live blocks. */
    lemma LiveBlocksApart(p: nat, q: nat)
      requires PoolsValid() && Settled(Taken(), live) && p in live && q in live && p != q
      ensures p >= 8 && q >= 8 && Apart(p - 8, live[p].len + 12, q - 8, live[q].len + 12)
    {
      SettledPlaces(Taken(), live, p);
      SettledPlaces(Taken(), live, q);
      BlocksApart(p, live[p], q, live[q]);
    }

    /** Prefix and trailer of a block that just got its place. */
    method Stamp(ptr: nat, len: nat)
      requires PoolsValid() && Settled(Taken(), live) && ptr in live && live[ptr].len == len
      requires forall q | q in live && q != ptr :: Stamped(memory, q, live[q].len)
      modifies this`memory
      ensures Valid()
      ensures forall q | q in live && q != ptr :: Contents(q) == old(Contents(q))
    {
      hide PoolsValid, Settled, Stamped, Load, Store;
      SettledPlaces(Taken(), live, ptr);
      hide FromBytes, ToBytes;
      ghost var m := memory;
      OthersUntouched(ptr, m, ptr - 8, ToBytes(len, 8));
      memory := Store(memory, ptr - 8, ToBytes(len, 8));
      LoadStored(m, ptr - 8, ToBytes(len, 8));
      SizeReadsBack(memory, ptr, len);
      OthersUntouched(ptr, memory, ptr + len, TRAILER);
      StampedNow(memory, ptr, len);
      memory := Store(memory, ptr + MemSize(ptr), TRAILER);
    }

    /** `kore_malloc`: exactly if the request covers the block, a new block of at least the length
        asked for, in the space of no other, and no other block's payload changes.  Otherwise the
        size word and the trailer are written for a block that sticks out of its area. */
    method Malloc(len: nat) returns (ptr: nat, whole: bool)
      requires Valid() && len <= SIZE_MAX
      modifies this`memory, this`live, space, pools
      ensures whole <==> len <= SIZE_MAX - 12
      ensures whole ==> Valid() && ptr !in old(live) && ptr in live
      ensures whole ==> live == old(live)[ptr := live[ptr]] && live[ptr].len == (if len == 0 then 8 else len)
      ensures whole ==> forall q | q in old(live) :: Contents(q) == old(Contents(q))
      ensures !whole ==> SticksOut(ptr, len) && live == old(live)
    {
      if len <= SIZE_MAX - 12 {
        ptr := Allocate(len);
        whole := true;
      } else {
        ptr := Overrun(len);
        whole := false;
      }
    }

    /** The area at the pointer is too short for the block. */
    ghost predicate SticksOut(ptr: nat, len: nat)
      reads space
    {
      && ptr >= 8
      && exists r :: r in space.owner && r.start == ptr - 8 && r.length <= Request(len) + 1 &&
           !Inside(ptr - 8, len + 12, r)
    }

    /** kore_malloc where the request has wrapped around; an area of no bytes still has an address
        of its own. */
    method Overrun(len: nat) returns (ptr: nat)
      requires space.Valid() && SIZE_MAX - 12 < len <= SIZE_MAX
      modifies this`memory, space
      ensures SticksOut(ptr, len)
    {
      RequestCoversBlock(len);
      var room := if Request(len) == 0 then 1 else Request(len);
      var addr := space.Obtain(room, BLOCKS);
      ptr := addr + 8;
      assert Area(addr, room) in space.owner;
      memory := Store(memory, ptr - 8, ToBytes(len, 8));
      memory := Store(memory, (ptr + len) % (SIZE_MAX + 1), TRAILER);
    }

    /** kore_malloc where the request covers the block. */
    method Allocate(len: nat) returns (ptr: nat)
      requires Valid() && len <= SIZE_MAX - 12
      modifies this`memory, this`live, space, pools
      ensures Valid() && ptr !in old(live) && ptr in live
      ensures live == old(live)[ptr := live[ptr]] && live[ptr].len == (if len == 0 then 8 else len)
      ensures forall q | q in old(live) :: Contents(q) == old(Contents(q))
    {
      hide PoolsValid, Settled, Stamped, Load;
      var n := if len == 0 then 8 else len;
      ptr := Place(n);
      Stamp(ptr, n);
    }

    /** What a holder of a block may do: write inside its payload. */
    method Write(ptr: nat, offset: nat, data: seq<byte>)
      requires Valid() && ptr in live && offset + |data| <= live[ptr].len
      modifies this`memory
      ensures Valid()
      ensures Contents(ptr) == old(Contents(ptr)[..offset]) + data + old(Contents(ptr)[offset + |data|..])
      ensures forall q | q in live && q != ptr :: Contents(q) == old(Contents(q))
    {
      hide PoolsValid, Settled, Stamped, Load, Store;
      SettledPlaces(Taken(), live, ptr);
      OthersUntouched(ptr, memory, ptr + offset, data);
      InPayload(memory, ptr, live[ptr].len, offset, data);
      memory := Store(memory, ptr + offset, data);
    }

    /** `kore_free` of a live block, or of no block: neither check fails, the element goes back to
        the head of the list it came from, and nothing else happens. */
    method Free(ptr: Option<nat>) returns (ok: bool)
      requires Valid() && (ptr.Some? ==> ptr.value in live)
      modifies this`live, space, pools
      ensures ok && Valid()
      ensures live == if ptr.None? then old(live) else old(live) - {ptr.value}
      ensures forall q | q in live :: Contents(q) == old(Contents(q))
      ensures forall i | 0 <= i < BLOCKS ::
                if ptr.Some? && old(live)[ptr.value].home == i then
                  pools[i].freelist == [ptr.value - 8 - header] + old(pools[i].freelist)
                else pools[i].freelist == old(pools[i].freelist)
    {
      hide PoolsValid, Settled, Stamped, Load;
      if ptr.None? {
        return true;
      }
      ok := FreeBlock(ptr.value);
    }

    method FreeBlock(ptr: nat) returns (ok: bool)
      requires Valid() && ptr in live
      modifies this`live, space, pools
      ensures ok && Valid() && live == old(live) - {ptr}
      ensures forall i | 0 <= i < BLOCKS ::
                if old(live)[ptr].home == i then pools[i].freelist == [ptr - 8 - header] + old(pools[i].freelist)
                else pools[i].freelist == old(pools[i].freelist)
    {
      hide PoolsValid, Settled, Stamped, Load, MagicFound, MemSize;
      LiveBlockReads(ptr);
      if !MagicFound(ptr) {
        return false;
      }
      ok := GiveBack(ptr, MemSize(ptr));
    }

    method GiveBack(ptr: nat, len: nat) returns (ok: bool)
      requires PoolsValid() && Settled(Taken(), live) && ptr in live && live[ptr].len == len
      modifies this`live, space, pools
      ensures ok && PoolsValid() && Settled(Taken(), live) && live == old(live) - {ptr}
      ensures forall i | 0 <= i < BLOCKS ::
                if old(live)[ptr].home == i then pools[i].freelist == [ptr - 8 - header] + old(pools[i].freelist)
                else pools[i].freelist == old(pools[i].freelist)
    {
      assert |pools| == BLOCKS;
      hide PoolsValid, Settled;
      if len <= BLOCK_SIZE_MAX {
        ok := FreeSmall(ptr, len);
      } else {
        ok := FreeLarge(ptr, len);
      }
    }

    method FreeSmall(ptr: nat, len: nat) returns (ok: bool)
      requires PoolsValid() && Settled(Taken(), live) && ptr in live && live[ptr].len == len <= BLOCK_SIZE_MAX
      modifies this`live, pools
      ensures ok && PoolsValid() && Settled(Taken(), live)
      ensures live == old(live) - {ptr}
      ensures forall i | 0 <= i < BLOCKS ::
                if old(live)[ptr].home == i then pools[i].freelist == [ptr - 8 - header] + old(pools[i].freelist)
                else pools[i].freelist == old(pools[i].freelist)
    {
      hide Pool.Valid, AddressSpace.Valid, Housed, ClassSize, ElementLength, Settled, Fits;
      ghost var v := Taken();
      ghost var b := live[ptr];
      SettledPlaces(v, live, ptr);
      var idx := MemblockIndex(len);
      SmallIsPooled(v, ptr, b, idx.value);
      assert forall i | 0 <= i < BLOCKS && i != b.home :: pools[i] != pools[b.home];
      ok := pools[idx.value].Put(space.owner, ptr - 8);
      UnsettleSmall(v, live, Taken(), ptr, b);
      live := live - {ptr};
    }

    method FreeLarge(ptr: nat, len: nat) returns (ok: bool)
      requires PoolsValid() && Settled(Taken(), live) && ptr in live && live[ptr].len == len > BLOCK_SIZE_MAX
      modifies this`live, space
      ensures ok && PoolsValid() && Settled(Taken(), live)
      ensures live == old(live) - {ptr}
      ensures forall i | 0 <= i < BLOCKS ::
                if old(live)[ptr].home == i then pools[i].freelist == [ptr - 8 - header] + old(pools[i].freelist)
                else pools[i].freelist == old(pools[i].freelist)
    {
      hide Pool.Valid, AddressSpace.Valid, Housed, ClassSize, ElementLength, Settled, Fits;
      ghost var v := Taken();
      ghost var b := live[ptr];
      SettledPlaces(v, live, ptr);
      LargeIsAnArea(v, ptr, b);
      space.Release(Area(ptr - 8, len + 12));
      OthersValid(BLOCKS, v.owner);
      UnsettleLarge(v, live, Taken(), ptr, b);
      live := live - {ptr};
      return true;
    }

    /** `kore_realloc`; None (fatal) never happens to a live block.  The block keeps the common
        prefix, and its address too if the length does not change.  Where the request for the new
        block wraps around, the copy into it is no longer followed. */
    method Realloc(ptr: Option<nat>, len: nat) returns (moved: Option<nat>, whole: bool)
      requires Valid() && len <= SIZE_MAX && (ptr.Some? ==> ptr.value in live)
      modifies this`memory, this`live, space, pools
      ensures moved.Some? && (whole <==> len <= SIZE_MAX - 12)
      ensures whole ==> Valid() && moved.value in live && live[moved.value].len == (if len == 0 then 8 else len)
      ensures whole && ptr.Some? && old(live)[ptr.value].len == len ==>
                moved == ptr && live == old(live) && memory == old(memory)
      ensures whole && ptr.Some? && old(live)[ptr.value].len != len ==>
                moved.value !in old(live) && live == old(live)[moved.value := live[moved.value]] - {ptr.value}
      ensures whole && ptr.None? ==>
                moved.value !in old(live) && live == old(live)[moved.value := live[moved.value]]
      ensures whole && ptr.Some? ==>
                SamePrefix(Contents(moved.value), old(Contents(ptr.value)), Min(len, old(live)[ptr.value].len))
      ensures whole ==> forall q | q in old(live) && ptr != Some(q) :: q in live && Contents(q) == old(Contents(q))
      ensures !whole ==> SticksOut(moved.value, len)
    {
      if len > SIZE_MAX - 12 {
        var made := Overrun(len);
        return Some(made), false;
      }
      moved := Resize(ptr, len);
      whole := true;
    }

    method Resize(ptr: Option<nat>, len: nat) returns (moved: Option<nat>)
      requires Valid() && len <= SIZE_MAX - 12 && (ptr.Some? ==> ptr.value in live)
      modifies this`memory, this`live, space, pools
      ensures Valid() && moved.Some? && moved.value in live
      ensures live[moved.value].len == if len == 0 then 8 else len
      ensures ptr.Some? && old(live)[ptr.value].len == len ==>
                moved == ptr && live == old(live) && memory == old(memory)
      ensures ptr.Some? && old(live)[ptr.value].len != len ==>
                moved.value !in old(live) && live == old(live)[moved.value := live[moved.value]] - {ptr.value}
      ensures ptr.None? ==> moved.value !in old(live) && live == old(live)[moved.value := live[moved.value]]
      ensures ptr.Some? ==>
                SamePrefix(Contents(moved.value), old(Contents(ptr.value)), Min(len, old(live)[ptr.value].len))
      ensures forall q | q in old(live) && ptr != Some(q) :: q in live && Contents(q) == old(Contents(q))
    {
      if ptr.None? {
        var made := Allocate(len);
        return Some(made);
      }
      moved := Move(ptr.value, len);
    }

    method Move(ptr: nat, len: nat) returns (moved: Option<nat>)
      requires Valid() && len <= SIZE_MAX - 12 && ptr in live
      modifies this`memory, this`live, space, pools
      ensures Valid() && moved.Some? && moved.value in live
      ensures live[moved.value].len == if len == 0 then 8 else len
      ensures old(live)[ptr].len == len ==> moved == Some(ptr) && live == old(live) && memory == old(memory)
      ensures old(live)[ptr].len != len ==>
                moved.value !in old(live) && live == old(live)[moved.value := live[moved.value]] - {ptr}
      ensures SamePrefix(Contents(moved.value), old(Contents(ptr)), Min(len, old(live)[ptr].len))
      ensures forall q | q in old(live) && ptr != q :: q in live && Contents(q) == old(Contents(q))
    {
      hide PoolsValid, Settled, Stamped, Load;
      LiveBlockReads(ptr);
      if len == MemSize(ptr) {
        return Some(ptr);
      }
      if !MagicFound(ptr) {
        return None;
      }
      var made := Allocate(len);
      LiveBlockReads(ptr);
      ghost var was := Contents(ptr);
      var common := Load(memory, ptr, Min(len, MemSize(ptr)));
      LoadPrefix(memory, ptr, |common|, |was|);
      Write(made, 0, common);
      assert SamePrefix(Contents(made), was, |common|);
      var freed := Free(Some(ptr));
      return Some(made);
    }

    /** A small block, prefix and trailer included, lies inside one busy element of the smallest
        class that fits, behind the element's own header. */
    lemma BlockInElement(ptr: nat) returns (e: nat)
      requires Valid() && ptr in live && live[ptr].len <= BLOCK_SIZE_MAX
      ensures var b := live[ptr];
              && b.home < BLOCKS == |pools| && Fits(b.len, b.home) && e in pools[b.home].busy
              && e + header == ptr - 8 && ptr + b.len + 4 <= e + pools[b.home].slen
    {
      hide Settled, Stamped, Fits, ClassSize, ElementLength, Laid, Housed;
      var b := live[ptr];
      SettledPlaces(Taken(), live, ptr);
      SmallIsPooled(Taken(), ptr, b, b.home);
      FitsHolds(b.len, b.home);
      e := ptr - 8 - header;
    }

    /** Nothing leaks: a pool's inuse is the number of live blocks of its class, and the rest of its
        elements are on the free list. */
    lemma InuseCountsLive(k: nat)
      requires Valid() && k < BLOCKS
      ensures pools[k].inuse == |OfClass(live, k)|
      ensures pools[k].elms == pools[k].inuse + |pools[k].freelist|
    {
      SettledPlaces(Taken(), live, 0);
      hide Settled, Stamped, Fits, ClassSize, ElementLength, Laid, Housed;
      BusyCountsLive(Taken(), live, k);
    }
  }

  ghost function OfClass(live: map<nat, Block>, k: nat): set<nat> {
    set p | p in live && live[p].home == k
  }

  lemma BusyCountsLive(v: View, live: map<nat, Block>, k: nat)
    requires Settled(v, live) && k < BLOCKS == |v.busy|
    ensures |v.busy[k]| == |OfClass(live, k)|
  {
    hide Settled;
    var owners := OfClass(live, k);
    var c := v.header + 8;
    forall e | e in v.busy[k]
      ensures e + c in owners
    {
      BusyHasLive(v, live, k, e);
    }
    forall p | p in owners
      ensures p >= c && p - c in v.busy[k]
    {
      BusyAreLive(v, live, k, p);
    }
    SameSize(owners, v.busy[k], c);
  }

  /** The live blocks of class `k` are those in the busy elements of pool `k`. */
  lemma BusyAreLive(v: View, live: map<nat, Block>, k: nat, p: nat)
    requires Settled(v, live) && k < BLOCKS && p in live && live[p].home == k
    ensures p >= v.header + 8 && p - (v.header + 8) in v.busy[k]
  {
    hide Fits, BusyIsLive, AreasAreLive;
    assert Placed(v, p, live[p]);
  }

  lemma BusyHasLive(v: View, live: map<nat, Block>, k: nat, e: nat)
    requires Settled(v, live) && k < BLOCKS && e in v.busy[k]
    ensures e + (v.header + 8) in live && live[e + (v.header + 8)].home == k
  {
    hide Placed, AreasAreLive;
    assert e + v.header + 8 in live;
  }

  lemma {:induction false} SameSize(p: set<nat>, b: set<nat>, c: nat)
    requires forall e | e in b :: e + c in p
    requires forall x | x in p :: x >= c && x - c in b
    ensures |p| == |b|
    decreases b
  {
    if e :| e in b {
      var q, d := p - {e + c}, b - {e};
      assert forall f | f in d :: f + c in q;
      SameSize(q, d, c);
      assert |p| == |q| + 1 && |b| == |d| + 1;
    } else {
      assert p == {};
    }
  }
}
