/** Bytes and machine sizes shared by every component. */
module Bytes {
  type byte = x: int | 0 <= x < 256

  /** The largest `size_t` on the 64-bit platforms the programs run on. */
  const SIZE_MAX: nat := 0xFFFF_FFFF_FFFF_FFFF

  datatype Option<+T> = None | Some(value: T)

  function Min(a: nat, b: nat): nat {
    if a <= b then a else b
  }

  lemma Associative(a: seq<byte>, b: seq<byte>, c: seq<byte>)
    ensures a + b + c == a + (b + c)
  {
  }

  function Flatten<T>(pieces: seq<seq<T>>): seq<T> {
    if pieces == [] then [] else pieces[0] + Flatten(pieces[1..])
  }

  lemma {:induction false} FlattenSnoc<T>(pieces: seq<seq<T>>, last: seq<T>)
    ensures Flatten(pieces + [last]) == Flatten(pieces) + last
    decreases pieces
  {
    var all := pieces + [last];
    if pieces == [] {
      assert all[1..] == [];
      assert last + [] == [] + last;
    } else {
      assert all[1..] == pieces[1..] + [last];
      FlattenSnoc(pieces[1..], last);
      assert pieces[0] + (Flatten(pieces[1..]) + last) == pieces[0] + Flatten(pieces[1..]) + last;
    }
  }

  // ----- scripts: what the system answers to the coming calls

  /** `rest` is what is left of the script, and what was used up of it. */
  predicate Left<T(==)>(script: seq<T>, rest: seq<T>) {
    |rest| <= |script| && rest == script[|script| - |rest|..]
  }

  function Used<T>(script: seq<T>, rest: seq<T>): seq<T>
    requires |rest| <= |script|
  {
    script[..|script| - |rest|]
  }

  lemma FirstUsed<T>(script: seq<T>)
    ensures Left(script, script) && Used(script, script) == []
    ensures script != [] ==> Left(script, script[1..]) && Used(script, script[1..]) == [script[0]]
  {
  }

  lemma UsedOneMore<T>(script: seq<T>, rest: seq<T>)
    requires Left(script, rest) && rest != []
    ensures Left(script, rest[1..]) && Used(script, rest[1..]) == Used(script, rest) + [rest[0]]
  {
  }

  // ----- integers in memory, least significant byte first

  function ToBytes(n: nat, k: nat): (s: seq<byte>)
    ensures |s| == k
    decreases k
  {
    if k == 0 then [] else [n % 256] + ToBytes(n / 256, k - 1)
  }

  function FromBytes(s: seq<byte>): nat {
    if s == [] then 0 else s[0] + 256 * FromBytes(s[1..])
  }

  /** 256 to the power of k. */
  function Range(k: nat): nat {
    if k == 0 then 1 else 256 * Range(k - 1)
  }

  lemma {:induction false} BytesRoundTrip(n: nat, k: nat)
    requires n < Range(k)
    ensures FromBytes(ToBytes(n, k)) == n
    decreases k
  {
    if k > 0 {
      BytesRoundTrip(n / 256, k - 1);
    }
  }

  // ----- network byte order

  function ToNetwork(n: nat, k: nat): (s: seq<byte>)
    ensures |s| == k
    decreases k
  {
    if k == 0 then [] else ToNetwork(n / 256, k - 1) + [n % 256]
  }

  function FromNetwork(s: seq<byte>): nat {
    if s == [] then 0 else 256 * FromNetwork(s[..|s| - 1]) + s[|s| - 1]
  }

  lemma {:induction false} NetworkRoundTrip(n: nat, k: nat)
    requires n < Range(k)
    ensures FromNetwork(ToNetwork(n, k)) == n
    decreases k
  {
    if k > 0 {
      NetworkRoundTrip(n / 256, k - 1);
      var s := ToNetwork(n, k);
      assert s[..|s| - 1] == ToNetwork(n / 256, k - 1);
    }
  }

  lemma {:induction false} NetworkReadBack(s: seq<byte>)
    ensures FromNetwork(s) < Range(|s|) && ToNetwork(FromNetwork(s), |s|) == s
    decreases s
  {
    if s != [] {
      var init, last := s[..|s| - 1], s[|s| - 1];
      NetworkReadBack(init);
      var n := FromNetwork(init);
      assert (256 * n + last) / 256 == n && (256 * n + last) % 256 == last;
      assert init + [last] == s;
    }
  }
}
