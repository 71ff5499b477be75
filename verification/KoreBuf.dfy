/** Byte buffers (kore-3.2.0/src/buf.c) and byte search (kore_mem_find of utils.c). */
module KoreBuf {
  import opened Bytes

  predicate At(s: seq<byte>, key: seq<byte>, k: nat) {
    k + |key| <= |s| && s[k..k + |key|] == key
  }

  /** `key` occurs at `k` and nowhere before. */
  ghost predicate FirstAt(s: seq<byte>, key: seq<byte>, k: nat) {
    At(s, key, k) && forall j: nat | j < k :: !At(s, key, j)
  }

  ghost predicate Absent(s: seq<byte>, key: seq<byte>) {
    forall j: nat :: !At(s, key, j)
  }

  /** An occurrence starts with the first byte of the key. */
  lemma AtFirstByte(s: seq<byte>, key: seq<byte>, k: nat)
    requires key != [] && At(s, key, k)
    ensures s[k] == key[0]
  {
    assert s[k..k + |key|][0] == s[k];
  }

  /** Occurrences of a suffix are those of the whole, shifted. */
  lemma AtSuffix(s: seq<byte>, key: seq<byte>, from: nat, k: nat)
    requires from <= |s|
    ensures At(s[from..], key, k) == At(s, key, from + k)
  {
    if from + k + |key| <= |s| {
      assert s[from..][k..k + |key|] == s[from + k..from + k + |key|];
    }
  }

  /** The position of the leftmost occurrence. */
  function IndexOf(s: seq<byte>, key: seq<byte>): (k: Option<nat>)
    ensures k.Some? ==> k.value + |key| <= |s|
    decreases |s|
  {
    if |s| < |key| then None
    else if s[..|key|] == key then Some(0)
    else if s == [] then None
    else
      match IndexOf(s[1..], key)
      case None => None
      case Some(k) => Some(k + 1)
  }

  /** What `IndexOf` finds: the first occurrence, or the proof that there is none. */
  lemma {:induction false} IndexOfIsFirst(s: seq<byte>, key: seq<byte>)
    ensures IndexOf(s, key).Some? ==> FirstAt(s, key, IndexOf(s, key).value)
    ensures IndexOf(s, key).None? ==> Absent(s, key)
    decreases |s|
  {
    if |key| <= |s| && s[..|key|] != key && s != [] {
      IndexOfIsFirst(s[1..], key);
      forall j: nat | j > 0
        ensures At(s, key, j) == At(s[1..], key, j - 1)
      {
        AtSuffix(s, key, 1, j - 1);
      }
      assert !At(s, key, 0);
    }
  }

  lemma FirstIsIndexOf(s: seq<byte>, key: seq<byte>, k: nat)
    requires FirstAt(s, key, k)
    ensures IndexOf(s, key) == Some(k)
  {
    IndexOfIsFirst(s, key);
    var found := IndexOf(s, key);
    assert At(s, key, k);
    assert At(s, key, found.value);
  }

  lemma AbsentIsIndexOf(s: seq<byte>, key: seq<byte>)
    requires Absent(s, key)
    ensures IndexOf(s, key) == None
  {
    IndexOfIsFirst(s, key);
    assert forall j: nat :: FirstAt(s, key, j) ==> At(s, key, j);
  }

  lemma SliceOfSlice(s: seq<byte>, a: nat, b: nat, i: nat, j: nat)
    requires a <= b <= |s| && i <= j <= b - a
    ensures s[a..b][i..j] == s[a + i..a + j]
  {
    var x, y := s[a..b][i..j], s[a + i..a + j];
    forall k | 0 <= k < j - i
      ensures x[k] == y[k]
    {
      assert x[k] == s[a..b][i + k] == s[a + i + k];
    }
  }

  /** `kore_mem_find` on the `slen` bytes at `from`. */
  method MemFind(src: array<byte>, from: nat, slen: nat, needle: seq<byte>) returns (found: Option<nat>)
    requires needle != [] && from + slen <= src.Length
    ensures found == IndexOf(src[from..from + slen], needle)
  {
    hide IndexOf;
    ghost var s := src[from..from + slen];
    var pos := 0;
    while pos < slen
      invariant pos <= slen
      invariant forall j: nat | j < pos :: !At(s, needle, j)
    {
      if src[from + pos] == needle[0] {
        if slen - pos < |needle| {
          AbsentIsIndexOf(s, needle);
          return None;
        }
        var same := src[from + pos..from + pos + |needle|] == needle;
        assert src[..][from..from + slen] == s;
        SliceOfSlice(src[..], from, from + slen, pos, pos + |needle|);
        assert src[..][from + pos..from + pos + |needle|] == src[from + pos..from + pos + |needle|];
        assert same == At(s, needle, pos);
        if same {
          FirstIsIndexOf(s, needle, pos);
          return Some(pos);
        }
      } else if At(s, needle, pos) {
        AtFirstByte(s, needle, pos);
      }
      pos := pos + 1;
    }
    AbsentIsIndexOf(s, needle);
    return None;
  }

  class Buf {
    var data: array<byte>
    var offset: nat

    ghost predicate Valid()
      reads this
    {
      offset <= data.Length
    }

    ghost function Contents(): seq<byte>
      requires Valid()
      reads this, data
    {
      data[..offset]
    }

    /** `kore_buf_init` */
    constructor (initial: nat)
      ensures Valid() && fresh(data) && Contents() == []
    {
      data := new byte[initial](_ => 0);
      offset := 0;
    }

    /** `kore_buf_append` */
    method Append(d: seq<byte>)
      requires Valid()
      modifies this, data
      ensures Valid() && (data == old(data) || fresh(data))
      ensures Contents() == old(Contents()) + d
    {
      ghost var was := Contents();
      if offset + |d| > data.Length {
        var grown := new byte[data.Length + |d|](_ => 0);
        forall i | 0 <= i < offset {
          grown[i] := data[i];
        }
        data := grown;
        assert data[..offset] == was;
      }
      forall i | 0 <= i < |d| {
        data[offset + i] := d[i];
      }
      offset := offset + |d|;
      assert data[..offset] == was + d;
    }

    /** `kore_buf_reset` */
    method Reset()
      requires Valid()
      modifies this`offset
      ensures Valid() && Contents() == []
    {
      offset := 0;
    }

    /** Drops the first `n` bytes: memmove of the rest to the front. */
    method Shift(n: nat)
      requires Valid() && n <= offset
      modifies this`offset, data
      ensures Valid() && Contents() == old(Contents())[n..]
    {
      ghost var was := Contents();
      var left := offset - n;
      forall i | 0 <= i < left {
        data[i] := data[n + i];
      }
      offset := left;
      assert data[..offset] == was[n..];
    }

    /** A fresh buffer with `data[at..end]` replaced by `dst`. */
    method Splice(at: nat, end: nat, dst: seq<byte>)
      requires Valid() && at <= end <= offset
      modifies this
      ensures Valid() && fresh(data)
      ensures Contents() == old(Contents())[..at] + dst + old(Contents())[end..]
    {
      ghost var was := Contents();
      var tmp := new byte[offset + |dst|](_ => 0);
      var blen := at + |dst| + (offset - end);
      ghost var left, right := was[..at], was[end..];
      CopyInto(tmp, 0, data[..at]);
      assert tmp[..at] == left;
      CopyInto(tmp, at, dst);
      assert tmp[..at] == left;
      ghost var before := tmp[..at + |dst|];
      assert before[..at] == left && before[at..] == dst;
      CopyInto(tmp, at + |dst|, data[end..offset]);
      assert tmp[..at] == before[..at];
      assert tmp[at..at + |dst|] == before[at..];
      assert tmp[at + |dst|..blen] == right;
      Assemble(tmp[..], at, |dst|, blen, was[..at], dst, was[end..]);
      data, offset := tmp, blen;
    }

    /** `kore_buf_replace_string`: replaces every occurrence. */
    method ReplaceString(key: seq<byte>, dst: seq<byte>)
      requires Valid() && key != []
      modifies this
      ensures Valid() && (data == old(data) || fresh(data))
      ensures Contents() == ReplaceAll(old(Contents()), key, dst)
    {
      hide ReplaceAll, IndexOf;
      var off: nat := 0;
      ghost var goal := ReplaceAll(Contents(), key, dst);
      assert goal == [] + goal;
      assert Contents()[0..] == Contents();
      while true
        invariant Valid() && off <= offset && (data == old(data) || fresh(data))
        invariant data == old(data) ==> Contents() == old(Contents())
        invariant goal == Contents()[..off] + ReplaceAll(Contents()[off..], key, dst)
        decreases offset - off
      {
        ghost var was := Contents();
        assert data[off..off + (offset - off)] == was[off..];
        var found := MemFind(data, off, offset - off, key);
        if found.None? {
          ReplaceNone(was[off..], key, dst);
          assert was[..off] + was[off..] == was;
          return;
        }
        var at := off + found.value;
        ReplaceStep(was, key, dst, off, found.value);
        Splice(at, at + |key|, dst);
        off := at + |dst|;
      }
    }
  }

  /** Three pieces copied one behind the other are their concatenation. */
  lemma Assemble(s: seq<byte>, i: nat, n: nat, len: nat, a: seq<byte>, b: seq<byte>, c: seq<byte>)
    requires i + n <= len <= |s|
    requires s[..i] == a && s[i..i + n] == b && s[i + n..len] == c
    ensures s[..len] == a + b + c
  {
  }

  /** `memcpy(dst + at, src, |src|)` */
  method CopyInto(dst: array<byte>, at: nat, src: seq<byte>)
    requires at + |src| <= dst.Length
    modifies dst
    ensures dst[..at] == old(dst[..at])
    ensures dst[at..at + |src|] == src
    ensures dst[at + |src|..] == old(dst[at + |src|..])
  {
    forall i | 0 <= i < |src| {
      dst[at + i] := src[i];
    }
  }

  // ----- replace-all

  /** Left to right, without overlaps, and without looking at inserted text again. */
  function ReplaceAll(s: seq<byte>, key: seq<byte>, dst: seq<byte>): seq<byte>
    requires key != []
    decreases |s|
  {
    match IndexOf(s, key)
    case None => s
    case Some(k) => s[..k] + dst + ReplaceAll(s[k + |key|..], key, dst)
  }

  lemma ReplaceNone(s: seq<byte>, key: seq<byte>, dst: seq<byte>)
    requires key != [] && IndexOf(s, key) == None
    ensures ReplaceAll(s, key, dst) == s
  {
  }

  /** One replacement in the middle of the work: the done part grows, the rest shrinks. */
  lemma ReplaceStep(was: seq<byte>, key: seq<byte>, dst: seq<byte>, off: nat, k: nat)
    requires key != [] && off <= |was| && IndexOf(was[off..], key) == Some(k)
    ensures
      var done, end := was[..off + k] + dst, off + k + |key|;
      var now := done + was[end..];
      && now[..|done|] == done && now[|done|..] == was[end..]
      && was[..off] + ReplaceAll(was[off..], key, dst) == done + ReplaceAll(was[end..], key, dst)
  {
    hide IndexOf;
    var rest := ReplaceAll(was[off + k + |key|..], key, dst);
    assert was[off..][k + |key|..] == was[off + k + |key|..];
    assert was[..off] + was[off..][..k] == was[..off + k];
    assert was[..off] + (was[off..][..k] + dst + rest) == was[..off] + was[off..][..k] + dst + rest;
  }

  function Join(pieces: seq<seq<byte>>, sep: seq<byte>): seq<byte>
    requires pieces != []
  {
    if |pieces| == 1 then pieces[0] else pieces[0] + sep + Join(pieces[1..], sep)
  }

  /** The text between the occurrences of `key`, each occurrence found leftmost in what remains. */
  ghost predicate LeftmostPieces(s: seq<byte>, key: seq<byte>, pieces: seq<seq<byte>>)
    decreases pieces
  {
    if pieces == [] then false
    else if |pieces| == 1 then pieces[0] == s && Absent(s, key)
    else
      && FirstAt(s, key, |pieces[0]|) && s[..|pieces[0]|] == pieces[0]
      && LeftmostPieces(s[|pieces[0]| + |key|..], key, pieces[1..])
  }

  /** Replace-all, described without recursion on the text: cut `s` at the leftmost,
      non-overlapping occurrences of `key` (there is exactly one way) and join the pieces with
      `dst` instead. */
  lemma {:induction false} ReplaceAllIsJoin(s: seq<byte>, key: seq<byte>, dst: seq<byte>)
    returns (pieces: seq<seq<byte>>)
    requires key != []
    ensures LeftmostPieces(s, key, pieces) && Join(pieces, key) == s
    ensures ReplaceAll(s, key, dst) == Join(pieces, dst)
    decreases |s|
  {
    hide IndexOf;
    IndexOfIsFirst(s, key);
    match IndexOf(s, key)
    case None => pieces := [s];
    case Some(k) =>
      var rest := ReplaceAllIsJoin(s[k + |key|..], key, dst);
      pieces := [s[..k]] + rest;
      assert pieces[1..] == rest;
      assert At(s, key, k);
      assert s[..k] + key + s[k + |key|..] == s;
  }

  lemma {:induction false} LeftmostPiecesUnique(s: seq<byte>, key: seq<byte>, p: seq<seq<byte>>, q: seq<seq<byte>>)
    requires key != [] && LeftmostPieces(s, key, p) && LeftmostPieces(s, key, q)
    ensures p == q
    decreases p
  {
    assert |p| > 1 ==> At(s, key, |p[0]|);
    assert |q| > 1 ==> At(s, key, |q[0]|);
    if |p| > 1 {
      LeftmostPiecesUnique(s[|p[0]| + |key|..], key, p[1..], q[1..]);
      assert p == [p[0]] + p[1..] && q == [q[0]] + q[1..];
    }
  }
}
