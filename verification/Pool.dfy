/** The fixed-size element pools of kore-3.2.0/src/pool.c. */
module Pools {
  import opened Bytes

  datatype Area = Area(start: nat, length: nat)

  predicate Apart(a: nat, la: nat, b: nat, lb: nat) {
    a + la <= b || b + lb <= a
  }

  predicate Inside(a: nat, la: nat, area: Area) {
    area.start <= a && a + la <= area.start + area.length
  }

  /** What the system has handed out: memory areas that do not overlap, each with its owner. */
  class AddressSpace {
    var owner: map<Area, nat>
    var top: nat

    ghost predicate Valid()
      reads this
    {
      && (forall r | r in owner :: 0 < r.length && r.start + r.length <= top)
      && (forall r, s | r in owner && s in owner && r != s :: Apart(r.start, r.length, s.start, s.length))
    }

    constructor ()
      ensures Valid() && owner == map[]
    {
      owner, top := map[], 0;
    }

    /** `mmap` and `calloc`: any area that overlaps none of those in use. */
    method Obtain(length: nat, who: nat) returns (start: nat)
      requires Valid() && length > 0
      modifies this
      ensures Valid() && Area(start, length) !in old(owner)
      ensures owner == old(owner)[Area(start, length) := who]
    {
      start := *;
      if exists r | r in owner :: !Apart(start, length, r.start, r.length) {
        start := top;
      }
      if top < start + length {
        top := start + length;
      }
      assert forall r | r in owner :: Apart(start, length, r.start, r.length);
      owner := owner[Area(start, length) := who];
    }

    /** `free` of an area from calloc. */
    method Release(area: Area)
      requires Valid() && area in owner
      modifies this
      ensures Valid() && owner == old(owner) - {area}
    {
      owner := owner - {area};
    }
  }

  /** Whatever lies inside different areas is apart. */
  lemma InsideApart(space: AddressSpace, r: Area, a: nat, la: nat, s: Area, b: nat, lb: nat)
    requires space.Valid() && r in space.owner && s in space.owner && r != s
    requires Inside(a, la, r) && Inside(b, lb, s)
    ensures Apart(a, la, b, lb)
  {
  }

  /** The elements a region of `count` elements is cut into, last one first. */
  function Carve(start: nat, slen: nat, count: nat): seq<nat> {
    if count == 0 then [] else [start + (count - 1) * slen] + Carve(start, slen, count - 1)
  }

  /** The free and the busy elements of a pool: no two of them overlap, so none is listed twice and
      none is both free and busy. */
  predicate Laid(free: seq<nat>, busy: set<nat>, slen: nat) {
    && slen > 0
    && (forall i, j | 0 <= i < j < |free| :: Apart(free[i], slen, free[j], slen))
    && (forall e, f | e in busy && f in busy && e != f :: Apart(e, slen, f, slen))
    && (forall e, f | e in busy && f in free :: Apart(e, slen, f, slen))
  }

  lemma {:induction false} CarveIsInside(start: nat, slen: nat, count: nat)
    ensures |Carve(start, slen, count)| == count
    ensures forall e | e in Carve(start, slen, count) :: Inside(e, slen, Area(start, count * slen))
  {
    if count > 0 {
      CarveIsInside(start, slen, count - 1);
      assert count * slen == (count - 1) * slen + slen;
    }
  }

  lemma {:induction false} CarveIsLaid(start: nat, slen: nat, count: nat)
    requires slen > 0
    ensures Laid(Carve(start, slen, count), {}, slen)
  {
    if count > 0 {
      CarveIsLaid(start, slen, count - 1);
      CarveIsInside(start, slen, count - 1);
      LaidPush(start + (count - 1) * slen, Carve(start, slen, count - 1), slen);
    }
  }

  lemma LaidPush(e: nat, free: seq<nat>, slen: nat)
    requires Laid(free, {}, slen) && forall f | f in free :: Apart(e, slen, f, slen)
    ensures Laid([e] + free, {}, slen)
  {
  }

  lemma LaidTake(free: seq<nat>, busy: set<nat>, slen: nat)
    requires Laid(free, busy, slen) && free != []
    ensures free[0] !in busy && free[0] !in free[1..] && Laid(free[1..], busy + {free[0]}, slen)
  {
    assert free == [free[0]] + free[1..];
    assert free[0] in free;
  }

  lemma LaidGive(free: seq<nat>, busy: set<nat>, slen: nat, e: nat)
    requires Laid(free, busy, slen) && e in busy
    ensures e !in free && Laid([e] + free, busy - {e}, slen)
  {
  }

  lemma LaidJoin(more: seq<nat>, free: seq<nat>, busy: set<nat>, slen: nat)
    requires Laid(more, {}, slen) && Laid(free, busy, slen)
    requires forall e, f | e in more && f in free :: Apart(e, slen, f, slen)
    requires forall e, f | e in more && f in busy :: Apart(e, slen, f, slen)
    ensures Laid(more + free, busy, slen)
  {
  }

  /** The element lies in an area this pool has mapped. */
  ghost predicate Housed(owner: map<Area, nat>, id: nat, slen: nat, e: nat) {
    exists r :: r in owner && owner[r] == id && Inside(e, slen, r)
  }

  lemma NewIsApart(space: AddressSpace, id: nat, slen: nat, e: nat, r: Area, f: nat)
    requires space.Valid() && Housed(space.owner - {r}, id, slen, f)
    requires r in space.owner && Inside(e, slen, r)
    ensures Apart(e, slen, f, slen)
  {
    var s :| s in space.owner - {r} && Inside(f, slen, s);
    InsideApart(space, r, e, slen, s, f, slen);
  }

  /** The guard of pool_region_create is the overflow test it looks like. */
  lemma NoOverflow(elms: nat, slen: nat)
    requires elms > 0
    ensures SIZE_MAX / elms < slen <==> elms * slen > SIZE_MAX
  {
    var q, r := SIZE_MAX / elms, SIZE_MAX % elms;
    assert SIZE_MAX == q * elms + r;
    if q < slen {
      assert (q + 1) * elms <= slen * elms;
    } else {
      assert slen * elms <= q * elms;
    }
  }

  lemma QuarterFits(elms: nat, slen: nat)
    ensures elms / 4 * slen <= elms * slen
  {
    assert elms / 4 * slen <= (elms - elms / 4) * slen + elms / 4 * slen;
  }

  /** POOL_MIN_ELEMENTS */
  const MIN_ELEMENTS: nat := 16

  /** The first region of a pool would be larger than any size. */
  predicate TooLarge(elm: nat, slen: nat) {
    (if elm < MIN_ELEMENTS then MIN_ELEMENTS else elm) * slen > SIZE_MAX
  }

  /** `struct kore_pool`. An element is named by its address; the first `header` bytes of it are its
      entry, and the rest is handed out. */
  class Pool {
    const id: nat
    const header: nat
    const elen: nat
    const slen: nat
    const growth: nat
    var elms: nat
    var inuse: nat
    var freelist: seq<nat>
    /** The elements whose entry is in the state POOL_ELEMENT_BUSY. */
    var busy: set<nat>

    ghost predicate Element(e: nat)
      reads this
    {
      e in freelist || e in busy
    }

    /** The elements do not overlap, lie in areas of the pool, and are counted; and growing never
        overflows. */
    ghost predicate Valid(owner: map<Area, nat>)
      reads this
    {
      && header > 0 && growth > 0 && growth * slen <= SIZE_MAX && slen == elen + header
      && Laid(freelist, busy, slen)
      && (forall e | Element(e) :: Housed(owner, id, slen, e))
      && inuse == |busy| && elms == inuse + |freelist|
    }

    /** A pool stays valid while areas of other owners come and go. */
    lemma StillValid(owner: map<Area, nat>, next: map<Area, nat>)
      requires Valid(owner)
      requires forall r | r in owner && owner[r] == id :: r in next && next[r] == id
      ensures Valid(next)
    {
      forall e | Element(e)
        ensures Housed(next, id, slen, e)
      {
        assert Housed(owner, id, slen, e);
      }
    }

    constructor (id: nat, header: nat, len: nat, elm: nat)
      requires header > 0 && elm >= MIN_ELEMENTS
      ensures this.id == id && this.header == header && elen == len && slen == len + header && growth == elm / 4
      ensures freelist == [] && busy == {} && elms == inuse == 0
    {
      this.id, this.header, elen, slen, growth := id, header, len, len + header, elm / 4;
      elms, inuse, freelist, busy := 0, 0, [], {};
    }

    /** `kore_pool_init`; None where pool_region_create gives up. */
    static method Init(space: AddressSpace, id: nat, header: nat, len: nat, elm: nat) returns (pool: Option<Pool>)
      requires space.Valid() && header > 0
      modifies space
      ensures space.Valid()
      ensures pool.None? <==> TooLarge(elm, len + header)
      ensures forall r | r in old(space.owner) :: r in space.owner && space.owner[r] == old(space.owner)[r]
      ensures pool.Some? ==> fresh(pool.value) && pool.value.Valid(space.owner)
      ensures pool.Some? ==>
                && pool.value.busy == {} && pool.value.id == id
                && pool.value.header == header && pool.value.elen == len
      ensures pool.Some? ==> forall r | r in space.owner && r !in old(space.owner) :: space.owner[r] == id
      ensures pool.Some? ==> pool.value.elms == (if elm < MIN_ELEMENTS then MIN_ELEMENTS else elm)
      ensures pool.Some? ==> pool.value.growth == pool.value.elms / 4
    {
      var count := if elm < MIN_ELEMENTS then MIN_ELEMENTS else elm;
      var made := new Pool(id, header, len, count);
      NoOverflow(count, len + header);
      if SIZE_MAX / count < len + header {
        return None;
      }
      QuarterFits(count, made.slen);
      made.RegionCreate(space, count);
      return Some(made);
    }

    /** The loop of pool_region_create: cuts a new area into free elements. */
    method Cut(start: nat, count: nat)
      modifies this`freelist
      ensures freelist == Carve(start, slen, count) + old(freelist)
    {
      var i: nat, p := 0, start;
      while i < count
        invariant i <= count && p == start + i * slen
        invariant freelist == Carve(start, slen, i) + old(freelist)
      {
        freelist := [p] + freelist;
        p := p + slen;
        i := i + 1;
      }
    }

    /** `pool_region_create`, past its overflow check: a new area of exactly `count` elements, all
        of them put before the free ones. */
    method RegionCreate(space: AddressSpace, count: nat)
      requires space.Valid() && Valid(space.owner)
      requires count > 0 && count * slen <= SIZE_MAX
      modifies this`freelist, this`elms, space
      ensures space.Valid() && Valid(space.owner) && elms == old(elms) + count
      ensures exists start: nat ::
                && Area(start, count * slen) !in old(space.owner)
                && space.owner == old(space.owner)[Area(start, count * slen) := id]
                && freelist == Carve(start, slen, count) + old(freelist)
    {
      var length := count * slen;
      assert length > 0;
      ghost var free := freelist;
      var start := space.Obtain(length, id);
      Cut(start, count);
      elms := elms + count;
      Grown(space, old(space.owner), start, length, count, free);
    }

    lemma Grown(space: AddressSpace, owner: map<Area, nat>, start: nat, length: nat, count: nat, free: seq<nat>)
      requires space.Valid() && length == count * slen
      requires Area(start, length) !in owner && space.owner == owner[Area(start, length) := id]
      requires Laid(free, busy, slen) && freelist == Carve(start, slen, count) + free
      requires forall e | e in free || e in busy :: Housed(owner, id, slen, e)
      ensures |Carve(start, slen, count)| == count && Laid(freelist, busy, slen)
      ensures forall e | Element(e) :: Housed(space.owner, id, slen, e)
    {
      var r := Area(start, length);
      var more := Carve(start, slen, count);
      CarveIsLaid(start, slen, count);
      CarveIsInside(start, slen, count);
      forall e, f | e in more && (f in free || f in busy)
        ensures Apart(e, slen, f, slen)
      {
        assert space.owner - {r} == owner;
        NewIsApart(space, id, slen, e, r, f);
      }
      LaidJoin(more, free, busy, slen);
      forall e | Element(e)
        ensures Housed(space.owner, id, slen, e)
      {
        HousedGrows(owner, space.owner, id, slen, e, r);
      }
    }

    lemma HousedGrows(owner: map<Area, nat>, next: map<Area, nat>, id: nat, slen: nat, e: nat, r: Area)
      requires next == owner[r := id]
      requires Housed(owner, id, slen, e) || Inside(e, slen, r)
      ensures Housed(next, id, slen, e)
    {
      if Inside(e, slen, r) {
        assert next[r] == id;
      } else {
        var s :| s in owner && owner[s] == id && Inside(e, slen, s);
        assert s in next && next[s] == id;
      }
    }

    /** `kore_pool_get`: a free element, from a new region if there was none. */
    method Get(space: AddressSpace) returns (ptr: nat)
      requires space.Valid() && Valid(space.owner)
      modifies this, space
      ensures space.Valid() && Valid(space.owner)
      ensures ptr >= header && !(ptr - header in old(busy)) && busy == old(busy) + {ptr - header}
      ensures inuse == old(inuse) + 1
      ensures old(freelist) != [] ==>
                && ptr == old(freelist)[0] + header && freelist == old(freelist)[1..]
                && elms == old(elms) && space.owner == old(space.owner)
      ensures old(freelist) == [] ==> elms == old(elms) + growth
      ensures forall r | r in old(space.owner) :: r in space.owner && space.owner[r] == old(space.owner)[r]
      ensures forall r | r in space.owner && r !in old(space.owner) :: space.owner[r] == id
    {
      if freelist == [] {
        RegionCreate(space, growth);
      }
      LaidTake(freelist, busy, slen);
      var entry := freelist[0];
      freelist := freelist[1..];
      busy := busy + {entry};
      ptr := entry + header;
      inuse := inuse + 1;
    }

    /** `kore_pool_put` of an element: back to the head of the free list, unless it is not busy. */
    method Put(ghost owner: map<Area, nat>, ptr: nat) returns (ok: bool)
      requires Valid(owner) && ptr >= header && Element(ptr - header)
      modifies this
      ensures Valid(owner) && ok == (ptr - header in old(busy))
      ensures ok ==> busy == old(busy) - {ptr - header} && freelist == [ptr - header] + old(freelist)
      ensures ok ==> inuse == old(inuse) - 1
      ensures !ok ==> busy == old(busy) && freelist == old(freelist) && inuse == old(inuse)
      ensures elms == old(elms)
    {
      var entry := ptr - header;
      if entry !in busy {
        return false;
      }
      LaidGive(freelist, busy, slen, entry);
      busy := busy - {entry};
      freelist := [entry] + freelist;
      inuse := inuse - 1;
      return true;
    }
  }
}
