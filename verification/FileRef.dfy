/** The reference-counted file cache of kore-3.2.0/src/fileref.c. */
module FileRefs {
  import opened Bytes

  /** FILEREF_EXPIRATION */
  const EXPIRATION: nat := 30000

  /** `struct kore_fileref` */
  class Ref {
    const path: seq<byte>
    const mtime: nat
    var cnt: int
    /** KORE_FILEREF_SOFT_REMOVED */
    var softRemoved: bool
    var expiration: nat
    /** fileref_drop has given the memory back. */
    ghost var dropped: bool

    constructor (path: seq<byte>, mtime: nat)
      ensures this.path == path && this.mtime == mtime && cnt == 1 && !softRemoved && !dropped
    {
      this.path, this.mtime := path, mtime;
      cnt, softRemoved, expiration, dropped := 1, false, 0, false;
    }
  }

  /** The list without its `k`-th element. */
  function Without<T>(q: seq<T>, k: nat): seq<T>
    requires k < |q|
  {
    q[..k] + q[k + 1..]
  }

  predicate Distinct<T(==)>(q: seq<T>) {
    forall i, j | 0 <= i < j < |q| :: q[i] != q[j]
  }

  lemma WithoutDistinct<T>(q: seq<T>, k: nat)
    requires Distinct(q) && k < |q|
    ensures Distinct(Without(q, k)) && q[k] !in Without(q, k)
    ensures forall x :: x in q <==> x in Without(q, k) || x == q[k]
  {
    assert q == q[..k] + [q[k]] + q[k + 1..];
  }

  lemma WithoutAt<T>(q: seq<T>, k: nat)
    requires k < |q|
    ensures |Without(q, k)| == |q| - 1 && Without(q, k)[..k] == q[..k] && Without(q, k)[k..] == q[k..][1..]
  {
  }

  /** The list without these, in the same order. */
  function Leaving(q: seq<Ref>, gone: set<Ref>): seq<Ref> {
    if q == [] then []
    else Leaving(q[..|q| - 1], gone) + if q[|q| - 1] in gone then [] else [q[|q| - 1]]
  }

  lemma LeavingNothing(gone: set<Ref>)
    ensures Leaving([], gone) == []
  {
  }

  lemma LeavingSnoc(q: seq<Ref>, r: Ref, gone: set<Ref>)
    ensures Leaving(q + [r], gone) == Leaving(q, gone) + if r in gone then [] else [r]
  {
    assert (q + [r])[..|q|] == q;
  }

  predicate PathsDiffer(q: seq<Ref>) {
    forall i, j | 0 <= i < j < |q| :: q[i].path != q[j].path
  }

  lemma WithoutPath(q: seq<Ref>, k: nat)
    requires PathsDiffer(q) && k < |q|
    ensures PathsDiffer(Without(q, k))
    ensures forall i | 0 <= i < |Without(q, k)| :: Without(q, k)[i].path != q[k].path
  {
  }

  class Cache {
    /** The list `refs`, most recently used first. */
    var refs: seq<Ref>
    /** Every reference created and not yet dropped. */
    ghost var live: set<Ref>
    /** The references handed out and not yet released. */
    ghost var held: multiset<Ref>

    /** A live reference is listed exactly if it is not soft-removed, its count is the number of
        holders, and once soft-removed it is live only while somebody holds it. */
    ghost predicate Counted(r: Ref)
      reads this, r
    {
      && !r.dropped && r.cnt == held[r]
      && (r in refs <==> !r.softRemoved)
      && (r.softRemoved ==> r.cnt > 0)
    }

    ghost predicate Valid()
      reads this, live
    {
      && Distinct(refs) && PathsDiffer(refs)
      && (forall r | r in refs :: r in live)
      && (forall r | r in held :: r in live)
      && (forall r | r in live :: Counted(r))
    }

    constructor ()
      ensures Valid() && refs == [] && live == {} && held == multiset{}
    {
      refs, live, held := [], {}, multiset{};
    }

    /** After a balanced run, when everything handed out was released, whatever was created is either
        dropped or still listed with count zero, to be dropped when its time comes. */
    lemma BalancedRun(r: Ref)
      requires Valid() && held == multiset{} && r in live
      ensures r in refs && r.cnt == 0 && !r.dropped
    {
      assert Counted(r);
    }

    /** `fileref_drop`, only ever at count zero and only once. */
    method Drop(ref: Ref)
      requires ref in live && !ref.dropped && ref.cnt == 0 && held[ref] == 0
      requires Distinct(refs) && PathsDiffer(refs) && (forall r | r in refs :: r in live)
      requires forall r | r in held :: r in live
      requires forall r | r in live && r != ref :: Counted(r)
      requires ref in refs <==> !ref.softRemoved
      modifies this`refs, this`live, ref`dropped
      ensures Valid() && live == old(live) - {ref} && ref.dropped
      ensures ref !in old(refs) ==> refs == old(refs)
      ensures forall k | 0 <= k < |old(refs)| && old(refs)[k] == ref :: refs == Without(old(refs), k)
    {
      hide PathsDiffer, Without;
      if !ref.softRemoved {
        var k :| 0 <= k < |refs| && refs[k] == ref;
        WithoutDistinct(refs, k);
        WithoutPath(refs, k);
        refs := Without(refs, k);
      }
      live := live - {ref};
      ref.dropped := true;
    }

    /** `fileref_soft_remove`: off the list; dropped at once if nobody holds it. */
    method SoftRemove(ref: Ref)
      requires Valid() && ref in refs
      modifies this`refs, this`live, ref`softRemoved, ref`dropped
      ensures Valid() && ref !in refs && held == old(held)
      ensures if held[ref] == 0 then live == old(live) - {ref} && ref.dropped
              else live == old(live) && ref.softRemoved && !ref.dropped
      ensures forall k | 0 <= k < |old(refs)| && old(refs)[k] == ref :: refs == Without(old(refs), k)
      ensures !Listed(ref.path)
    {
      hide PathsDiffer, Without;
      var k :| 0 <= k < |refs| && refs[k] == ref;
      WithoutDistinct(refs, k);
      WithoutPath(refs, k);
      refs := Without(refs, k);
      ref.softRemoved := true;
      if ref.cnt == 0 {
        Drop(ref);
      }
    }

    /** The list has a reference for this path. */
    ghost predicate Listed(path: seq<byte>)
      reads this
    {
      exists i :: 0 <= i < |refs| && refs[i].path == path
    }

    /** The hit of kore_fileref_get: one holder more, and to the front of the list. */
    method Hold(ref: Ref, i: nat)
      requires Valid() && i < |refs| && refs[i] == ref
      modifies this`refs, this`held, ref`cnt
      ensures Valid() && held == old(held) + multiset{ref}
      ensures refs == [ref] + Without(old(refs), i)
    {
      WithoutDistinct(refs, i);
      WithoutPath(refs, i);
      ref.cnt := ref.cnt + 1;
      held := held + multiset{ref};
      refs := [ref] + Without(refs, i);
    }

    /** `kore_fileref_get`, with the result of stat (None if it fails): a hit is the listed
        reference for the path, is as old as the file now is, and is held once more; a reference
        that is out of date leaves the list. */
    method Get(path: seq<byte>, stat: Option<nat>) returns (ref: Ref?)
      requires Valid()
      modifies this`refs, this`live, this`held, live
      ensures Valid() && live <= old(live)
      ensures ref != null ==>
                && ref in old(refs) && ref.path == path && stat == Some(ref.mtime)
                && held == old(held) + multiset{ref} && refs != [] && refs[0] == ref && live == old(live)
      ensures ref != null ==>
                exists i | 0 <= i < |old(refs)| :: old(refs)[i] == ref && refs == [ref] + Without(old(refs), i)
      ensures ref == null ==> held == old(held) && !Listed(path)
      ensures ref == null && !old(Listed(path)) ==> refs == old(refs)
      ensures ref == null && old(Listed(path)) ==>
                exists i | 0 <= i < |old(refs)| ::
                  && old(refs)[i].path == path && stat != Some(old(refs)[i].mtime)
                  && refs == Without(old(refs), i)
      ensures forall r | r in refs :: r in old(refs)
      ensures forall r | r in old(refs) && r.path != path :: r in refs
      ensures forall r | r in old(live) :: r.dropped <==> r !in live
      ensures forall r | r in old(live) && r !in live :: old(r.cnt) == 0
    {
      var i := 0;
      while i < |refs|
        invariant 0 <= i <= |refs| && forall j | 0 <= j < i :: refs[j].path != path
      {
        if refs[i].path == path {
          ref := refs[i];
          if stat.None? || ref.mtime != stat.value {
            SoftRemove(ref);
            return null;
          }
          Hold(ref, i);
          return;
        }
        i := i + 1;
      }
      return null;
    }

    /** `kore_fileref_create`: the cached reference, or a new one at the end of the list; nothing
        for a file too large to map. */
    method Create(path: seq<byte>, size: nat, mtime: nat, stat: Option<nat>) returns (ref: Ref?)
      requires Valid()
      modifies this`refs, this`live, this`held, live
      ensures Valid() && fresh(live - old(live))
      ensures ref == null ==> size > SIZE_MAX && held == old(held)
      ensures ref != null ==> ref.path == path && ref in refs && held == old(held) + multiset{ref}
      ensures ref != null && ref in old(refs) ==> stat == Some(ref.mtime)
      ensures ref != null && ref !in old(refs) ==>
                fresh(ref) && ref.mtime == mtime && size <= SIZE_MAX && refs[|refs| - 1] == ref
      ensures forall r | r in refs :: r in old(refs) || r == ref
      ensures forall r | r in old(refs) && r.path != path :: r in refs
      ensures ref != null ==> ref in live
      ensures forall r | r in old(live) :: r.dropped <==> r !in live
      ensures forall r | r in old(live) && r !in live :: old(r.cnt) == 0
    {
      ref := Get(path, stat);
      if ref != null {
        return;
      }
      if size > SIZE_MAX {
        return null;
      }
      ref := new Ref(path, mtime);
      Adopt(ref);
    }

    /** A new reference joins the end of the list, with one holder. */
    method Adopt(ref: Ref)
      requires Valid() && ref !in live && !Listed(ref.path)
      requires ref.cnt == 1 && !ref.softRemoved && !ref.dropped
      modifies this`refs, this`live, this`held
      ensures Valid() && refs == old(refs) + [ref]
      ensures live == old(live) + {ref} && held == old(held) + multiset{ref}
    {
      hide Without;
      refs := refs + [ref];
      live := live + {ref};
      held := held + multiset{ref};
    }

    /** `kore_fileref_release` of a held reference: the count never becomes negative, and reaching
        zero starts the expiration or, for a removed one, drops it. */
    method Release(ref: Ref, now: nat)
      requires Valid() && ref in held
      modifies this`refs, this`live, this`held, ref
      ensures Valid() && held == old(held) - multiset{ref} && refs == old(refs)
      ensures ref.cnt == old(ref.cnt) - 1 >= 0
      ensures ref.dropped <==> held[ref] == 0 && old(ref.softRemoved)
      ensures live == if ref.dropped then old(live) - {ref} else old(live)
      ensures !ref.dropped && held[ref] == 0 ==> ref.expiration == now + EXPIRATION
    {
      hide Distinct, PathsDiffer, Without;
      held := held - multiset{ref};
      ref.cnt := ref.cnt - 1;
      assert forall r | r != ref :: held[r] == old(held[r]);
      assert forall r | r in live && r != ref :: Counted(r);
      if ref.cnt == 0 {
        if ref.softRemoved {
          Drop(ref);
        } else {
          ref.expiration := now + EXPIRATION;
        }
      }
    }

    lemma ListedIsLive()
      requires Valid()
      ensures forall r | r in refs :: r in live
      ensures forall r | r in live :: !r.dropped
    {
      assert forall r | r in live :: Counted(r);
    }

    /** One turn of the expiration check. */
    method CheckOne(ref: Ref, i: nat, now: nat) returns (expired: bool)
      requires Valid() && i < |refs| && ref == refs[i]
      modifies this`refs, this`live, ref`dropped
      ensures Valid() && held == old(held) && expired == ref.dropped == (ref.cnt == 0 && ref.expiration <= now)
      ensures expired ==> refs == Without(old(refs), i) && live == old(live) - {ref}
      ensures !expired ==> refs == old(refs) && live == old(live) && !ref.dropped
    {
      assert ref in live && Counted(ref);
      expired := ref.cnt == 0 && ref.expiration <= now;
      if expired {
        Drop(ref);
      }
    }

    /** `fileref_expiration_check`: drops the listed references that nobody holds and whose time
        has come, and no other. */
    method ExpirationCheck(now: nat)
      requires Valid()
      modifies this`refs, this`live, live
      ensures Valid() && held == old(held)
      ensures
        var gone := set r | r in old(refs) && old(r.cnt) == 0 && old(r.expiration) <= now;
        && refs == Leaving(old(refs), gone) && live == old(live) - gone
        && forall r | r in old(live) :: r.dropped <==> r in gone
    {
      hide Cache.Valid, Leaving, Without;
      var i := 0;
      ghost var all, n, gone, done := refs, 0, set r | r in refs && r.cnt == 0 && r.expiration <= now, {};
      LeavingNothing(gone);
      ListedIsLive();
      while i < |refs|
        invariant i <= |refs| && n <= |all| && refs[i..] == all[n..] && refs[..i] == Leaving(all[..n], gone)
        invariant forall r :: r in done <==> r in all[..n] && r in gone
        invariant Valid() && held == old(held) && live == old(live) - done
        invariant forall r | r in old(live) :: r.dropped <==> r in done
        invariant forall r | r in old(live) :: r.cnt == old(r.cnt) && r.expiration == old(r.expiration)
        decreases |all| - n
      {
        var ref := refs[i];
        assert ref == all[n] && all[..n] + [ref] == all[..n + 1];
        LeavingSnoc(all[..n], ref, gone);
        ListedIsLive();
        WithoutAt(refs, i);
        var expired := CheckOne(ref, i, now);
        if expired {
          done := done + {ref};
        } else {
          i := i + 1;
        }
        n := n + 1;
      }
      assert all[..n] == all;
    }
  }
}
