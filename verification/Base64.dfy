/** Base64 of kore-3.2.0/src/utils.c (section 4 of RFC 4648). */
module Base64 {
  import opened Bytes
  import opened KoreBuf

  const PAD: byte := 0x3d

  /** b64table */
  function Digit(n: nat): byte
    requires n < 64
  {
    if n < 26 then 0x41 + n else if n < 52 then 0x61 + (n - 26) else if n < 62 then 0x30 + (n - 52)
    else if n == 62 then 0x2b else 0x2f
  }

  predicate IsDigit(c: byte) {
    0x41 <= c <= 0x5a || 0x61 <= c <= 0x7a || 0x30 <= c <= 0x39 || c == 0x2b || c == 0x2f
  }

  /** The position of a character in the table. */
  function Index(c: byte): (n: nat)
    requires IsDigit(c)
    ensures n < 64 && Digit(n) == c
  {
    if 0x41 <= c <= 0x5a then c - 0x41 else if 0x61 <= c <= 0x7a then c - 0x61 + 26
    else if 0x30 <= c <= 0x39 then c - 0x30 + 52 else if c == 0x2b then 62 else 63
  }

  lemma IndexOfDigit(n: nat)
    requires n < 64
    ensures IsDigit(Digit(n)) && Index(Digit(n)) == n && Digit(n) != PAD
  {
  }

  // ----- encoding

  /** Up to three bytes in 24 bits. */
  function Bits(x: seq<byte>): nat
    requires 1 <= |x|
  {
    x[0] * 0x1_0000 + (if |x| > 1 then x[1] * 0x100 else 0) + (if |x| > 2 then x[2] as int else 0)
  }

  function Sextet(b: nat, i: nat): (n: nat)
    requires i < 4
    ensures n < 64
  {
    if i == 3 then b / 0x4_0000 % 64 else if i == 2 then b / 0x1000 % 64 else if i == 1 then b / 64 % 64 else b % 64
  }

  /** The characters for one group of one to three bytes: one more than the bytes. */
  function Group(x: seq<byte>): seq<byte>
    requires 1 <= |x|
  {
    var b := Bits(x);
    [Digit(Sextet(b, 3)), Digit(Sextet(b, 2))] +
    (if |x| > 1 then [Digit(Sextet(b, 1))] else []) + (if |x| > 2 then [Digit(Sextet(b, 0))] else [])
  }

  function Digits(x: seq<byte>): seq<byte> {
    if x == [] then [] else if |x| <= 3 then Group(x) else Group(x[..3]) + Digits(x[3..])
  }

  function Padding(n: nat): seq<byte> {
    if n % 3 == 1 then [PAD, PAD] else if n % 3 == 2 then [PAD] else []
  }

  function Encoded(x: seq<byte>): seq<byte> {
    Digits(x) + Padding(|x|)
  }

  /** The body of the encoding loop: one group of characters. */
  method AppendGroup(result: Buf, x: seq<byte>)
    requires result.Valid() && 1 <= |x| <= 3
    modifies result, result.data
    ensures result.Valid() && (result.data == old(result.data) || fresh(result.data))
    ensures result.Contents() == old(result.Contents()) + Group(x)
  {
    var bytes := Bits(x);
    ghost var was := result.Contents();
    result.Append([Digit(Sextet(bytes, 3))]);
    result.Append([Digit(Sextet(bytes, 2))]);
    if |x| > 1 {
      result.Append([Digit(Sextet(bytes, 1))]);
      if |x| > 2 {
        result.Append([Digit(Sextet(bytes, 0))]);
      }
    }
    assert result.Contents() == was + Group(x);
  }

  /** The loop of kore_base64_encode; `nb` is how many bytes the last group had. */
  method AppendGroups(result: Buf, data: seq<byte>) returns (nb: nat)
    requires result.Valid() && result.Contents() == []
    modifies result, result.data
    ensures result.Valid() && (result.data == old(result.data) || fresh(result.data))
    ensures result.Contents() == Digits(data)
    ensures nb == if data == [] then 0 else if |data| % 3 == 0 then 3 else |data| % 3
  {
    hide Group, Digits;
    var pos: nat := 0;
    nb := 0;
    assert data[0..] == data && [] + Digits(data) == Digits(data);
    while pos < |data|
      invariant pos <= |data| && result.Valid() && (result.data == old(result.data) || fresh(result.data))
      invariant result.Contents() + Digits(data[pos..]) == Digits(data)
      invariant pos < |data| ==> pos % 3 == 0
      invariant nb == if pos == 0 then 0 else if pos == |data| && |data| % 3 != 0 then |data| % 3 else 3
      decreases |data| - pos
    {
      nb := Min(|data| - pos, 3);
      DigitsAt(data, pos, nb, result.Contents());
      AppendGroup(result, data[pos..pos + nb]);
      pos := pos + nb;
    }
    NoDigits(data[pos..], result.Contents());
  }

  /** `kore_base64_encode`; it refuses the empty input. */
  method Encode(data: seq<byte>) returns (out: Option<seq<byte>>)
    ensures out == if data == [] then None else Some(Encoded(data))
  {
    hide Group, Digits;
    var result := new Buf(|data| / 3 * 4);
    var nb := AppendGroups(result, data);
    if nb == 1 {
      result.Append([PAD, PAD]);
    } else if nb == 2 {
      result.Append([PAD]);
    } else if nb != 3 {
      return None;
    } else {
      assert Digits(data) + [] == Digits(data);
    }
    out := Some(result.data[..result.offset]);
  }

  lemma NoDigits(x: seq<byte>, done: seq<byte>)
    requires x == []
    ensures done + Digits(x) == done
  {
  }

  lemma DigitsAt(data: seq<byte>, pos: nat, nb: nat, done: seq<byte>)
    requires pos < |data| && nb == Min(|data| - pos, 3)
    ensures done + Group(data[pos..pos + nb]) + Digits(data[pos + nb..]) == done + Digits(data[pos..])
  {
    hide Group, Digits;
    assert data[pos..][..nb] == data[pos..pos + nb] && data[pos..][nb..] == data[pos + nb..];
    DigitsStep(data[pos..], nb);
    var g, d := Group(data[pos..pos + nb]), Digits(data[pos + nb..]);
    assert done + g + d == done + (g + d);
  }

  lemma DigitsStep(x: seq<byte>, nb: nat)
    requires x != [] && nb == Min(|x|, 3)
    ensures Digits(x) == Group(x[..nb]) + Digits(x[nb..])
  {
    if |x| <= 3 {
      assert x[..nb] == x && x[nb..] == [];
      assert Group(x) + [] == Group(x);
    }
  }

  lemma GroupShape(x: seq<byte>)
    requires 1 <= |x| <= 3
    ensures |Group(x)| == |x| + 1
    ensures forall k | 0 <= k < |Group(x)| :: IsDigit(Group(x)[k])
  {
    hide Sextet, Bits, Digit;
    var b := Bits(x);
    IndexOfDigit(Sextet(b, 3));
    IndexOfDigit(Sextet(b, 2));
    IndexOfDigit(Sextet(b, 1));
    IndexOfDigit(Sextet(b, 0));
  }

  /** Four characters for every three bytes begun, and only the missing ones are padding. */
  lemma {:induction false} EncodedShape(x: seq<byte>)
    ensures |Encoded(x)| == (|x| + 2) / 3 * 4 && |Digits(x)| + |Padding(|x|)| == |Encoded(x)|
    ensures forall k | 0 <= k < |Digits(x)| :: IsDigit(Digits(x)[k])
    ensures |Padding(|x|)| == (3 - |x| % 3) % 3 && forall k | 0 <= k < |Padding(|x|)| :: Padding(|x|)[k] == PAD
    decreases x
  {
    hide Group;
    if x != [] {
      GroupShape(x[..Min(|x|, 3)]);
      assert |x| <= 3 ==> x[..|x|] == x;
      if |x| > 3 {
        EncodedShape(x[3..]);
      }
    }
  }

  // ----- the characters

  /** b64table, written out. */
  const UPPER: string := "ABCDEFGHIJKLMNOPQRSTUVWXYZ"
  const LOWER: string := "abcdefghijklmnopqrstuvwxyz"
  const TABLE: string := UPPER + LOWER + "0123456789+/"

  /** The code of the table's entry. */
  function TableAt(v: nat): int {
    if v < |TABLE| then TABLE[v] as int else -1
  }

  lemma UpperAt(n: nat)
    requires n < 26
    ensures |UPPER| == 26 && UPPER[n] as int == 0x41 + n
  {
  }

  lemma LowerAt(n: nat)
    requires n < 26
    ensures |LOWER| == 26 && LOWER[n] as int == 0x61 + n
  {
  }

  lemma DigitIsInTable(n: nat)
    requires n < 64
    ensures TableAt(n) == Digit(n)
  {
    UpperAt(if n < 26 then n else 0);
    LowerAt(if 26 <= n < 52 then n - 26 else 0);
  }

  /** The six bits of the message from bit 6k on, the highest bit of the first byte being bit 0;
      behind the message come zeroes. */
  function SixBits(x: seq<byte>, k: nat): (v: nat)
    requires 6 * k / 8 < |x|
    ensures v < 64
  {
    var i := 6 * k / 8;
    var pair := 256 * x[i] + (if i + 1 < |x| then x[i + 1] as int else 0);
    var below := if k % 4 == 0 then 1024 else if k % 4 == 1 then 16 else if k % 4 == 2 then 64 else 256;
    pair / below % 64
  }

  lemma GroupBits(x: seq<byte>, k: nat)
    requires 1 <= |x| <= 3 && k <= |x|
    ensures |Group(x)| == |x| + 1 && Group(x)[k] == Digit(SixBits(x, k))
  {
    SextetBits(x, k);
    hide Digit, Sextet, Bits, SixBits;
  }

  lemma SextetBits(x: seq<byte>, k: nat)
    requires 1 <= |x| <= 3 && k <= |x|
    ensures 6 * k / 8 < |x| && Sextet(Bits(x), 3 - k) == SixBits(x, k)
  {
    var a: int, b: int, c: int := x[0], if |x| > 1 then x[1] else 0, if |x| > 2 then x[2] else 0;
    SixBitsOfThree(x, k, a, b, c);
    assert Bits(x) == a * 0x1_0000 + b * 0x100 + c;
    hide Bits, SixBits;
    SextetsOfBytes(a, b, c);
  }

  lemma SixBitsOfThree(x: seq<byte>, k: nat, a: int, b: int, c: int)
    requires 1 <= |x| <= 3 && k <= |x|
    requires a == x[0] && b == (if |x| > 1 then x[1] else 0) && c == (if |x| > 2 then x[2] else 0)
    ensures 6 * k / 8 < |x|
    ensures SixBits(x, k) ==
            (if k == 0 then (256 * a + b) / 1024 else if k == 1 then (256 * a + b) / 16
             else if k == 2 then (256 * b + c) / 64 else 256 * c / 256) % 64
  {
    assert 6 * k / 8 == if k < 2 then 0 else k - 1;
  }

  lemma SextetsOfBytes(a: int, b: int, c: int)
    requires 0 <= a < 256 && 0 <= b < 256 && 0 <= c < 256
    ensures
      var n := a * 0x1_0000 + b * 0x100 + c;
      && n / 0x4_0000 % 64 == (256 * a + b) / 1024 % 64 && n / 0x1000 % 64 == (256 * a + b) / 16 % 64
      && n / 64 % 64 == (256 * b + c) / 64 % 64 && n % 64 == 256 * c / 256 % 64
  {
    var n := a * 0x1_0000 + b * 0x100 + c;
    HighBits(256 * a + b, c);
    LowBits(1024 * a, 256 * b + c);
    LastBits(1024 * a + 4 * b, c);
    assert n == 256 * (256 * a + b) + c == 64 * (1024 * a) + (256 * b + c) == 64 * (1024 * a + 4 * b) + c;
    assert 1024 * a == 64 * (16 * a);
    LastBits(16 * a, (256 * b + c) / 64);
    assert 256 * c / 256 == c;
  }

  lemma HighBits(m: int, c: int)
    requires 0 <= m && 0 <= c < 256
    ensures (256 * m + c) / 0x4_0000 == m / 1024 && (256 * m + c) / 0x1000 == m / 16
  {
  }

  lemma LowBits(m: int, c: int)
    requires 0 <= m && 0 <= c
    ensures (64 * m + c) / 64 == m + c / 64
  {
  }

  lemma LastBits(m: int, c: int)
    requires 0 <= m && 0 <= c
    ensures (64 * m + c) % 64 == c % 64
  {
  }

  /** Which characters an encoding consists of: in front of the padding, the k-th one is the entry of
      the table at the message's bits from 6k on. */
  lemma {:induction false} EncodedAt(x: seq<byte>, k: nat)
    requires k < |Encoded(x)| - |Padding(|x|)|
    ensures 6 * k / 8 < |x| && Encoded(x)[k] as int == TableAt(SixBits(x, k))
    decreases x
  {
    hide Group, Digit, SixBits;
    EncodedShape(x);
    assert Encoded(x)[k] == Digits(x)[k];
    DigitsBits(x, k);
    DigitIsInTable(SixBits(x, k));
  }

  lemma {:induction false} DigitsBits(x: seq<byte>, k: nat)
    requires k < |Digits(x)|
    ensures 6 * k / 8 < |x| && Digits(x)[k] == Digit(SixBits(x, k))
    decreases x
  {
    hide Group, Digit, SixBits;
    var head := x[..Min(|x|, 3)];
    if k < 4 {
      assert |x| <= 3 ==> head == x;
      GroupShape(head);
      GroupBits(head, k);
      HeadBits(x, head, k);
    } else {
      GroupShape(head);
      DigitsBits(x[3..], k - 4);
      TailBits(x, k);
    }
  }

  /** The bits of a group come from it alone. */
  lemma HeadBits(x: seq<byte>, head: seq<byte>, k: nat)
    requires head == x[..Min(|x|, 3)] && k <= |head| && 6 * k / 8 < |head|
    ensures SixBits(x, k) == SixBits(head, k)
  {
  }

  lemma TailBits(x: seq<byte>, k: nat)
    requires 4 <= k && |x| > 3 && 6 * (k - 4) / 8 < |x| - 3
    ensures 6 * k / 8 < |x| && SixBits(x, k) == SixBits(x[3..], k - 4)
  {
    assert 6 * k / 8 == 6 * (k - 4) / 8 + 3 && k % 4 == (k - 4) % 4;
  }

  lemma EncodesMan()
    ensures Encoded([0x4d, 0x61, 0x6e]) == [0x54, 0x57, 0x46, 0x75]
  {
    var x: seq<byte> := [0x4d, 0x61, 0x6e];
    assert Bits(x) == 0x4d616e;
    assert Sextet(0x4d616e, 3) == 19 && Sextet(0x4d616e, 2) == 22;
    assert Sextet(0x4d616e, 1) == 5 && Sextet(0x4d616e, 0) == 46;
    hide Bits, Sextet;
    assert Digits(x) == Group(x);
    assert Encoded(x) == Group(x) + [];
  }

  lemma NoNul(x: seq<byte>)
    ensures 0 !in Encoded(x)
  {
    EncodedShape(x);
  }

  // ----- decoding

  function Pow64(i: nat): nat
    requires i <= 3
  {
    if i == 0 then 1 else if i == 1 then 64 else if i == 2 then 0x1000 else 0x4_0000
  }

  /** The byte at position `i` of the 24 bits. */
  function Octet(b: nat, i: nat): byte
    requires i <= 2
  {
    if i == 2 then b / 0x1_0000 % 256 else if i == 1 then b / 256 % 256 else b % 256
  }

  /** The rest of a decoding, when `b` has been collected and `i` characters complete the group.
      A group that is neither complete nor padded is dropped. */
  function DecodedFrom(s: seq<byte>, b: nat, i: nat): Option<seq<byte>>
    requires 1 <= i <= 4
  {
    if s == [] then Some([])
    else if s[0] == PAD then
      if i > 2 then None
      else if i == 2 then Some([Octet(b, 2)])
      else Some([Octet(b, 2), Octet(b, 1)])
    else if !IsDigit(s[0]) then None
    else
      var b' := b + Index(s[0]) * Pow64(i - 1);
      if i > 1 then DecodedFrom(s[1..], b', i - 1)
      else Prepend([Octet(b', 2), Octet(b', 1), Octet(b', 0)], DecodedFrom(s[1..], 0, 4))
  }

  function Prepend(p: seq<byte>, r: Option<seq<byte>>): Option<seq<byte>> {
    match r
    case None => None
    case Some(x) => Some(p + x)
  }

  /** The table scan of kore_base64_decode: 65 entries, the terminating NUL included. */
  method Lookup(c: byte) returns (d: Option<nat>)
    requires c != 0
    ensures d == if IsDigit(c) then Some(Index(c)) else None
  {
    assert IsDigit(c) ==> Digit(Index(c)) == c;
    var o := 0;
    while o < 65
      invariant o <= 65 && forall k | 0 <= k < Min(o, 64) :: Digit(k) != c
    {
      if (if o < 64 then Digit(o) else 0) == c {
        IndexOfDigit(o);
        return Some(o);
      }
      o := o + 1;
    }
    return None;
  }

  /** The two output loops of kore_base64_decode: from the highest byte down to byte `lo`. */
  method AppendOctets(res: Buf, b: nat, lo: nat)
    requires res.Valid() && lo <= 2
    modifies res, res.data
    ensures res.Valid() && (res.data == old(res.data) || fresh(res.data))
    ensures res.Contents() == old(res.Contents()) + Octets(b, lo)
  {
    ghost var was := res.Contents();
    ghost var octets := [Octet(b, 2), Octet(b, 1), Octet(b, 0)];
    var i := 2;
    while i >= lo
      invariant lo - 1 <= i <= 2 && res.Valid() && (res.data == old(res.data) || fresh(res.data))
      invariant res.Contents() == was + octets[..2 - i]
    {
      assert octets[..3 - i] == octets[..2 - i] + [Octet(b, i)];
      res.Append([Octet(b, i)]);
      i := i - 1;
    }
    assert octets[..3 - lo] == Octets(b, lo);
  }

  function Octets(b: nat, lo: nat): seq<byte>
    requires lo <= 2
  {
    if lo == 2 then [Octet(b, 2)] else if lo == 1 then [Octet(b, 2), Octet(b, 1)]
    else [Octet(b, 2), Octet(b, 1), Octet(b, 0)]
  }

  /** `kore_base64_decode` of a C string. */
  method Decode(input: seq<byte>) returns (out: Option<seq<byte>>)
    requires 0 !in input
    ensures out == DecodedFrom(input, 0, 4)
  {
    var res := new Buf(|input|);
    var i, b: nat, idx := 4, 0, 0;
    ghost var goal := DecodedFrom(input, 0, 4);
    assert input[0..] == input;
    PrependNothing(goal);
    while idx < |input| && input[idx] != PAD
      invariant idx <= |input| && 1 <= i <= 4 && res.Valid() && fresh(res) && fresh(res.data)
      invariant Prepend(res.Contents(), DecodedFrom(input[idx..], b, i)) == goal
    {
      ghost var rest := input[idx..];
      assert rest[0] == input[idx] && rest[1..] == input[idx + 1..];
      var d := Lookup(input[idx]);
      if d.None? {
        return None;
      }
      b := b + d.value * Pow64(i - 1);
      i := i - 1;
      if i == 0 {
        ghost var was := res.Contents();
        PrependTwice(was, [Octet(b, 2), Octet(b, 1), Octet(b, 0)], DecodedFrom(input[idx + 1..], 0, 4));
        AppendOctets(res, b, 0);
        b, i := 0, 4;
      }
      idx := idx + 1;
    }
    ghost var done := res.Contents();
    if idx < |input| {
      assert input[idx..][0] == PAD;
      if i > 2 {
        return None;
      }
      AppendOctets(res, b, i);
    } else {
      assert done + [] == done;
    }
    out := Some(res.data[..res.offset]);
  }

  lemma PrependNothing(r: Option<seq<byte>>)
    ensures Prepend([], r) == r
  {
    match r
    case None =>
    case Some(x) => assert [] + x == x;
  }

  lemma PrependResult(p: seq<byte>, r: Option<seq<byte>>)
    ensures Prepend(p, r) == if r.None? then None else Some(p + r.value)
  {
  }

  lemma PrependTwice(p: seq<byte>, q: seq<byte>, r: Option<seq<byte>>)
    ensures Prepend(p, Prepend(q, r)) == Prepend(p + q, r)
  {
    if r.Some? {
      assert p + (q + r.value) == p + q + r.value;
    }
  }

  // ----- round trip

  /** Four sextets are the 24 bits they were cut from. */
  lemma SextetsSum(b: nat)
    requires b < 0x100_0000
    ensures b == Sextet(b, 3) * 0x4_0000 + Sextet(b, 2) * 0x1000 + Sextet(b, 1) * 64 + Sextet(b, 0)
  {
    var b1 := b / 64;
    var b2 := b1 / 64;
    var b3 := b2 / 64;
    assert b / 0x1000 == b2 && b / 0x4_0000 == b3 && b3 < 64;
    assert b == 64 * b1 + b % 64 && b1 == 64 * b2 + b1 % 64 && b2 == 64 * b3 + b2 % 64;
  }

  lemma OctetsOfBits(x: seq<byte>)
    requires 1 <= |x| <= 3
    ensures Bits(x) < 0x100_0000 && Octet(Bits(x), 2) == x[0]
    ensures |x| > 1 ==> Octet(Bits(x), 1) == x[1]
    ensures |x| > 2 ==> Octet(Bits(x), 0) == x[2]
  {
    ThreeBytes(x[0], if |x| > 1 then x[1] else 0, if |x| > 2 then x[2] else 0);
  }

  lemma ThreeBytes(a: byte, b: byte, c: byte)
    ensures
      var n := a as int * 0x1_0000 + b as int * 0x100 + c;
      n / 0x1_0000 % 256 == a && n / 256 % 256 == b && n % 256 == c
  {
    var n := a as int * 0x1_0000 + b as int * 0x100 + c;
    assert n == (a as int * 0x100 + b) * 0x100 + c;
    assert n / 0x100 == a as int * 0x100 + b;
    assert n / 0x1_0000 == a;
  }

  /** The characters of the sextets, decoded one after the other. */
  lemma DecodeDigit(n: nat, rest: seq<byte>, b: nat, i: nat)
    requires n < 64 && 1 <= i <= 4
    ensures
      var b' := b + n * Pow64(i - 1);
      DecodedFrom([Digit(n)] + rest, b, i) ==
      if i > 1 then DecodedFrom(rest, b', i - 1)
      else Prepend([Octet(b', 2), Octet(b', 1), Octet(b', 0)], DecodedFrom(rest, 0, 4))
  {
    IndexOfDigit(n);
    assert ([Digit(n)] + rest)[1..] == rest;
  }

  // ----- what any text decodes to

  /** The text begins with the table's entries at these values. */
  predicate Spells(t: seq<byte>, vs: seq<nat>) {
    |vs| <= |t| && forall i | 0 <= i < |vs| :: vs[i] < 64 && TableAt(vs[i]) == t[i]
  }

  predicate NotInTable(c: byte) {
    forall v | 0 <= v < 64 :: TableAt(v) != c
  }

  /** The eight bits from bit 8j on of a sequence of six-bit values. */
  function EightBits(vs: seq<nat>, j: nat): byte
    requires 4 * j / 3 + 1 < |vs|
  {
    var i := 4 * j / 3;
    var pair := 64 * vs[i] + vs[i + 1];
    (if j % 3 == 0 then pair / 16 else if j % 3 == 1 then pair / 4 else pair) % 256
  }

  /** The first `n` bytes of them. */
  function Eights(vs: seq<nat>, n: nat): seq<byte>
    requires n > 0 ==> 4 * (n - 1) / 3 + 1 < |vs|
  {
    seq(n, j requires 0 <= j < n => EightBits(vs, j))
  }

  lemma OctetsOfSextets(v0: nat, v1: nat, v2: nat, v3: nat)
    requires v0 < 64 && v1 < 64 && v2 < 64 && v3 < 64
    ensures
      var b := v0 * 0x4_0000 + v1 * 0x1000 + v2 * 64 + v3;
      && Octet(b, 2) == (64 * v0 + v1) / 16 % 256 && Octet(b, 1) == (64 * v1 + v2) / 4 % 256
      && Octet(b, 0) == (64 * v2 + v3) % 256
  {
    var b := v0 * 0x4_0000 + v1 * 0x1000 + v2 * 64 + v3;
    var high, mid, low := 64 * v0 + v1, 64 * v1 + v2, 64 * v2 + v3;
    TopOctet(high, low);
    MiddleOctet(4096 * v0 + mid, v3);
    EarlierBits(v0, mid);
    EarlierBits(high, low);
  }

  lemma TopOctet(m: nat, r: nat)
    requires r < 0x1000
    ensures (0x1000 * m + r) / 0x1_0000 == m / 16
  {
  }

  lemma MiddleOctet(m: nat, r: nat)
    requires r < 64
    ensures (64 * m + r) / 0x100 == m / 4
  {
  }

  /** Bits from the twelfth on matter neither to the last byte nor to the one two bits further up. */
  lemma EarlierBits(v: nat, m: nat)
    ensures (4096 * v + m) / 4 % 256 == m / 4 % 256 && (4096 * v + m) % 256 == m % 256
  {
    Shifted(1024 * v, m);
    Wrapped(4 * v, m / 4);
    Wrapped(16 * v, m);
  }

  lemma Shifted(v: nat, m: nat)
    ensures (4 * v + m) / 4 == v + m / 4
  {
  }

  lemma Wrapped(v: nat, m: nat)
    ensures (256 * v + m) % 256 == m % 256
  {
  }

  /** Whole groups of four characters become three bytes each; of what remains, without padding
      nothing comes, and with padding one byte from two characters, two from three, and failure from
      none or one. */
  function Meaning(vs: seq<nat>, padded: bool): Option<seq<byte>> {
    if !padded then Some(Eights(vs, |vs| / 4 * 3))
    else if |vs| % 4 < 2 then None
    else Some(Eights(vs, |vs| * 6 / 8))
  }

  /** What a text means, by its characters in front of the first padding character, if there is one. */
  lemma {:induction false} DecodeMeaning(t: seq<byte>, vs: seq<nat>)
    requires Spells(t, vs) && (|t| > |vs| ==> t[|vs|] == PAD)
    ensures |t| >= |vs| && DecodedFrom(t, 0, 4) == Meaning(vs, |t| > |vs|)
    decreases vs
  {
    hide *;
    SpellsLength(t, vs);
    if |vs| >= 4 {
      DecodeFour(t, vs);
      DecodeMeaning(t[4..], vs[4..]);
      MeaningOfFour(vs, |t| > |vs|);
    } else {
      DecodeUpToThree(t, vs, |vs|);
      PadEnds(t[|vs|..], Collected(vs, |vs|), 4 - |vs|);
      MeaningOfFew(vs, |t| > |vs|);
    }
  }

  lemma MeaningOfFour(vs: seq<nat>, padded: bool)
    requires |vs| >= 4
    ensures Meaning(vs, padded) == Prepend(Eights(vs, 3), Meaning(vs[4..], padded))
  {
    hide Eights;
    var n := |vs|;
    assert n / 4 * 3 == (n - 4) / 4 * 3 + 3 && n % 4 == (n - 4) % 4 && n * 6 / 8 == (n - 4) * 6 / 8 + 3;
    if !padded {
      EightsSplit(vs, n / 4 * 3);
    } else if n % 4 >= 2 {
      EightsSplit(vs, n * 6 / 8);
    }
  }

  lemma MeaningOfFew(vs: seq<nat>, padded: bool)
    requires |vs| < 4 && forall i | 0 <= i < |vs| :: vs[i] < 64
    ensures
      var b := Collected(vs, |vs|);
      Meaning(vs, padded) ==
      if !padded then Some([]) else if |vs| < 2 then None
      else if |vs| == 2 then Some([Octet(b, 2)]) else Some([Octet(b, 2), Octet(b, 1)])
  {
    hide Eights, Octet, Collected;
    EightsNothing(vs);
    if |vs| >= 2 {
      EightsOfFew(vs);
    }
  }

  /** A text that goes on with a character that is neither in the table nor the padding is refused. */
  lemma {:induction false} DecodeForeign(t: seq<byte>, vs: seq<nat>)
    requires Spells(t, vs) && |t| > |vs| && t[|vs|] != PAD && NotInTable(t[|vs|])
    ensures DecodedFrom(t, 0, 4) == None
    decreases vs
  {
    hide *;
    SpellsLength(t, vs);
    if |vs| >= 4 {
      DecodeFour(t, vs);
      DecodeForeign(t[4..], vs[4..]);
      PrependResult(Eights(vs, 3), None);
    } else {
      DecodeUpToThree(t, vs, |vs|);
      Refused(t[|vs|..], Collected(vs, |vs|), 4 - |vs|);
    }
  }

  lemma SpellsLength(t: seq<byte>, vs: seq<nat>)
    requires Spells(t, vs)
    ensures |vs| <= |t| && forall i | 0 <= i < |vs| :: vs[i] < 64
  {
  }

  lemma EightsNothing(vs: seq<nat>)
    ensures Eights(vs, 0) == []
  {
  }

  lemma Refused(t: seq<byte>, b: nat, i: nat)
    requires t != [] && NotInTable(t[0]) && t[0] != PAD && 1 <= i <= 4
    ensures DecodedFrom(t, b, i) == None
  {
    if IsDigit(t[0]) {
      DigitIsInTable(Index(t[0]));
    }
  }

  lemma PadEnds(t: seq<byte>, b: nat, i: nat)
    requires (t == [] || t[0] == PAD) && 1 <= i <= 4
    ensures DecodedFrom(t, b, i) ==
            if t == [] then Some([]) else if i > 2 then None
            else if i == 2 then Some([Octet(b, 2)]) else Some([Octet(b, 2), Octet(b, 1)])
  {
  }

  lemma DecodeFour(t: seq<byte>, vs: seq<nat>)
    requires Spells(t, vs) && |vs| >= 4
    ensures |t| >= 4 && Spells(t[4..], vs[4..])
    ensures DecodedFrom(t, 0, 4) == Prepend(Eights(vs, 3), DecodedFrom(t[4..], 0, 4))
  {
    hide *;
    SpellsRest(t, vs);
    SpellsLength(t, vs);
    CollectedThree(vs);
    EightsOfFour(vs);
    var c := Collected(vs, 3);
    DecodeUpToThree(t, vs, 3);
    DecodeFourth(t, vs, c);
    assert vs[0] * 0x4_0000 + vs[1] * 0x1000 + vs[2] * 64 + vs[3] == c + vs[3];
  }

  lemma SpellsRest(t: seq<byte>, vs: seq<nat>)
    requires Spells(t, vs) && |vs| >= 4
    ensures |t| >= 4 && Spells(t[4..], vs[4..])
  {
  }

  lemma DecodeFourth(t: seq<byte>, vs: seq<nat>, c: nat)
    requires Spells(t, vs) && |vs| >= 4
    ensures |t| >= 4 && vs[3] < 64
    ensures
      var b := c + vs[3];
      DecodedFrom(t[3..], c, 1) == Prepend(Octets(b, 0), DecodedFrom(t[4..], 0, 4))
  {
    hide *;
    SpelledDigit(t, vs, 3);
    PlacedIs(vs[3], 0);
    PlacedLow(vs[3]);
    OctetsAll(c + vs[3]);
    assert t[3..] == [Digit(vs[3])] + t[4..];
    DecodeDigit(vs[3], t[4..], c, 1);
  }

  lemma EightsOfFour(vs: seq<nat>)
    requires |vs| >= 4 && vs[0] < 64 && vs[1] < 64 && vs[2] < 64 && vs[3] < 64
    ensures
      var b := vs[0] * 0x4_0000 + vs[1] * 0x1000 + vs[2] * 64 + vs[3];
      Eights(vs, 3) == Octets(b, 0)
  {
    hide Octet;
    OctetsOfSextets(vs[0], vs[1], vs[2], vs[3]);
  }

  /** A value in its place of the 24 bits. */
  function Placed(v: nat, i: nat): nat
    requires i <= 3
  {
    if i == 0 then v else if i == 1 then 64 * v else if i == 2 then 0x1000 * v else 0x4_0000 * v
  }

  lemma PlacedIs(v: nat, i: nat)
    requires i <= 3
    ensures Placed(v, i) == v * Pow64(i)
  {
  }

  lemma PlacedLow(v: nat)
    ensures Placed(v, 0) == v
  {
  }

  lemma OctetsAll(b: nat)
    ensures Octets(b, 0) == [Octet(b, 2), Octet(b, 1), Octet(b, 0)]
  {
  }

  /** What the first `n` values contribute to the 24 bits. */
  function Collected(vs: seq<nat>, n: nat): nat
    requires n <= |vs| && n <= 3
  {
    if n == 0 then 0 else Collected(vs, n - 1) + Placed(vs[n - 1], 4 - n)
  }

  /** Up to three characters are collected. */
  lemma {:induction false} DecodeUpToThree(t: seq<byte>, vs: seq<nat>, n: nat)
    requires Spells(t, vs) && n <= |vs| && n <= 3
    ensures n <= |t| && DecodedFrom(t, 0, 4) == DecodedFrom(t[n..], Collected(vs, n), 4 - n)
    decreases n
  {
    hide DecodedFrom, Spells, Placed;
    if n == 0 {
      assert t[0..] == t;
    } else {
      DecodeUpToThree(t, vs, n - 1);
      DecodeNext(t, vs, n - 1, Collected(vs, n - 1));
    }
  }

  lemma DecodeNext(t: seq<byte>, vs: seq<nat>, i: nat, b: nat)
    requires Spells(t, vs) && i < |vs| && i < 3
    ensures i < |t| && vs[i] < 64
    ensures DecodedFrom(t[i..], b, 4 - i) == DecodedFrom(t[i + 1..], b + Placed(vs[i], 3 - i), 3 - i)
  {
    hide *;
    SpelledDigit(t, vs, i);
    PlacedIs(vs[i], 3 - i);
    assert t[i..] == [Digit(vs[i])] + t[i + 1..];
    DecodeDigit(vs[i], t[i + 1..], b, 4 - i);
  }

  /** The characters are those of the table. */
  lemma SpelledDigit(t: seq<byte>, vs: seq<nat>, i: nat)
    requires Spells(t, vs) && i < |vs|
    ensures i < |t| && vs[i] < 64 && t[i] == Digit(vs[i])
  {
    DigitIsInTable(vs[i]);
  }

  lemma CollectedTwo(vs: seq<nat>)
    requires |vs| >= 2
    ensures Collected(vs, 2) == vs[0] * 0x4_0000 + vs[1] * 0x1000
  {
    assert Collected(vs, 1) == vs[0] * 0x4_0000;
  }

  lemma CollectedThree(vs: seq<nat>)
    requires |vs| >= 3
    ensures Collected(vs, 1) == vs[0] * 0x4_0000 && Collected(vs, 2) == vs[0] * 0x4_0000 + vs[1] * 0x1000
    ensures Collected(vs, 3) == vs[0] * 0x4_0000 + vs[1] * 0x1000 + vs[2] * 64
  {
  }

  lemma EightsOfFew(vs: seq<nat>)
    requires 2 <= |vs| <= 3 && forall i | 0 <= i < |vs| :: vs[i] < 64
    ensures
      var b := Collected(vs, |vs|);
      Eights(vs, |vs| - 1) == if |vs| == 2 then [Octet(b, 2)] else [Octet(b, 2), Octet(b, 1)]
  {
    hide Octet, Collected;
    CollectedTwo(vs);
    if |vs| > 2 {
      CollectedThree(vs);
    }
    OctetsOfSextets(vs[0], vs[1], if |vs| > 2 then vs[2] else 0, 0);
  }

  /** The first group's three bytes, and those of the other groups. */
  lemma EightsSplit(vs: seq<nat>, n: nat)
    requires n >= 3 && |vs| >= 4 && 4 * (n - 1) / 3 + 1 < |vs|
    ensures n > 3 ==> 4 * (n - 4) / 3 + 1 < |vs| - 4
    ensures Eights(vs, n) == Eights(vs, 3) + Eights(vs[4..], n - 3)
  {
    var rest := vs[4..];
    var all, tail := Eights(vs, n), Eights(rest, n - 3);
    assert all[..3] == Eights(vs, 3);
    forall j | 0 <= j < n - 3
      ensures all[3 + j] == tail[j]
    {
      EightBitsShift(vs, j);
    }
    assert all[3..] == tail && all == all[..3] + all[3..];
  }

  lemma EightBitsShift(vs: seq<nat>, j: nat)
    requires |vs| >= 4 && 4 * j / 3 + 1 < |vs| - 4
    ensures 4 * (j + 3) / 3 + 1 < |vs| && EightBits(vs, j + 3) == EightBits(vs[4..], j)
  {
    assert 4 * (j + 3) / 3 == 4 * j / 3 + 4 && (j + 3) % 3 == j % 3;
  }

  lemma DecodeGroup(x: seq<byte>, rest: seq<byte>)
    requires |x| == 3
    ensures DecodedFrom(Group(x) + rest, 0, 4) == Prepend(x, DecodedFrom(rest, 0, 4))
  {
    hide DecodedFrom;
    var b := Bits(x);
    OctetsOfBits(x);
    SextetsSum(b);
    var n3, n2, n1, n0 := Sextet(b, 3), Sextet(b, 2), Sextet(b, 1), Sextet(b, 0);
    var r0 := [Digit(n0)] + rest;
    var r1 := [Digit(n1)] + r0;
    var r2 := [Digit(n2)] + r1;
    assert Group(x) + rest == [Digit(n3)] + r2;
    DecodeDigit(n3, r2, 0, 4);
    DecodeDigit(n2, r1, n3 * 0x4_0000, 3);
    DecodeDigit(n1, r0, n3 * 0x4_0000 + n2 * 0x1000, 2);
    DecodeDigit(n0, rest, n3 * 0x4_0000 + n2 * 0x1000 + n1 * 64, 1);
    assert [Octet(b, 2), Octet(b, 1), Octet(b, 0)] == x;
  }

  lemma DecodeOne(x: seq<byte>)
    requires |x| == 1
    ensures DecodedFrom(Group(x) + [PAD, PAD], 0, 4) == Some(x)
  {
    hide DecodedFrom, Sextet, Bits;
    var b := Bits(x);
    OctetsOfBits(x);
    LowSextets(x);
    SextetsSum(b);
    var n3, n2 := Sextet(b, 3), Sextet(b, 2);
    var tail := [PAD, PAD];
    assert Group(x) + tail == [Digit(n3)] + ([Digit(n2)] + tail);
    DecodeDigit(n3, [Digit(n2)] + tail, 0, 4);
    DecodeDigit(n2, tail, n3 * 0x4_0000, 3);
    DecodePad(tail, b, 2);
    assert [x[0]] == x;
  }

  lemma DecodeTwo(x: seq<byte>)
    requires |x| == 2
    ensures DecodedFrom(Group(x) + [PAD], 0, 4) == Some(x)
  {
    hide DecodedFrom, Sextet, Bits;
    var b := Bits(x);
    OctetsOfBits(x);
    LowSextets(x);
    SextetsSum(b);
    var n3, n2, n1 := Sextet(b, 3), Sextet(b, 2), Sextet(b, 1);
    var r1 := [Digit(n1)] + [PAD];
    var r2 := [Digit(n2)] + r1;
    assert Group(x) + [PAD] == [Digit(n3)] + r2;
    DecodeDigit(n3, r2, 0, 4);
    DecodeDigit(n2, r1, n3 * 0x4_0000, 3);
    DecodeDigit(n1, [PAD], n3 * 0x4_0000 + n2 * 0x1000, 2);
    DecodePad([PAD], b, 1);
    assert [x[0], x[1]] == x;
  }

  /** The sextets a short group does not write are zero. */
  lemma LowSextets(x: seq<byte>)
    requires 1 <= |x| <= 2
    ensures Sextet(Bits(x), 0) == 0 && (|x| == 1 ==> Sextet(Bits(x), 1) == 0)
  {
  }

  lemma DecodePad(s: seq<byte>, b: nat, i: nat)
    requires s != [] && s[0] == PAD && 1 <= i <= 2
    ensures DecodedFrom(s, b, i) == Some(if i == 2 then [Octet(b, 2)] else [Octet(b, 2), Octet(b, 1)])
  {
  }

  /** Decoding undoes encoding. */
  lemma {:induction false} RoundTrip(x: seq<byte>)
    ensures DecodedFrom(Encoded(x), 0, 4) == Some(x) && 0 !in Encoded(x)
    decreases x
  {
    hide DecodedFrom, Group;
    NoNul(x);
    if |x| >= 3 {
      RoundTrip(x[3..]);
      DigitsStep(x, 3);
      DecodeGroup(x[..3], Encoded(x[3..]));
      assert Group(x[..3]) + Digits(x[3..]) + Padding(|x|) == Group(x[..3]) + Encoded(x[3..]);
      assert x[..3] + x[3..] == x;
    } else if |x| == 2 {
      DecodeTwo(x);
    } else if |x| == 1 {
      DecodeOne(x);
    } else {
      DecodeNothing();
    }
  }

  lemma DecodeNothing()
    ensures DecodedFrom([], 0, 4) == Some([])
  {
  }
}
