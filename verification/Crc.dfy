/** The bitwise CRCs of test_crc/main.c, as remainders of polynomials over GF(2). */
module Crc {
  import opened Bytes
  import opened Gf2

  const CRC8_POLY: nat := 0x1D
  const CRC16_POLY: nat := 0x1021

  /** The polynomial without its leading term, and the register width. */
  predicate Width(n: nat, poly: nat) {
    8 <= n && poly < Pow2(n)
  }

  /** The generator, leading term included. */
  function Generator(n: nat, poly: nat): nat {
    Pow2(n) + poly
  }

  /** One turn of the inner loop: shift, and combine with the polynomial if the top bit falls out. */
  function Shift(c: nat, n: nat, poly: nat): nat
    requires n > 0
  {
    if c >= Pow2(n - 1) then Xor(2 * c, poly) % Pow2(n) else 2 * c
  }

  function Shifts(c: nat, n: nat, poly: nat, k: nat): nat
    requires n > 0
  {
    if k == 0 then c else Shift(Shifts(c, n, poly, k - 1), n, poly)
  }

  /** One turn of the outer loop. */
  function Feed(c: nat, b: byte, n: nat, poly: nat): nat
    requires n >= 8
  {
    Shifts(Xor(c, b * Pow2(n - 8)), n, poly, 8)
  }

  function Register(data: seq<byte>, n: nat, poly: nat): nat
    requires n >= 8
  {
    if data == [] then 0 else Feed(Register(data[..|data| - 1], n, poly), data[|data| - 1], n, poly)
  }

  /** The message as a polynomial: its bits, first byte first. */
  function Value(data: seq<byte>): nat {
    if data == [] then 0 else 256 * Value(data[..|data| - 1]) + data[|data| - 1]
  }

  // ----- congruence modulo the generator

  /** `a` and `b` differ by a multiple of g. */
  ghost predicate Cong(g: nat, a: nat, b: nat) {
    exists q: nat :: Xor(a, b) == Times(g, q)
  }

  lemma CongBy(g: nat, a: nat, b: nat, q: nat)
    requires Xor(a, b) == Times(g, q)
    ensures Cong(g, a, b)
  {
  }

  lemma CongRefl(g: nat, a: nat)
    ensures Cong(g, a, a)
  {
    XorSelf(a);
    CongBy(g, a, a, 0);
  }

  lemma CongTrans(g: nat, a: nat, b: nat, c: nat)
    requires Cong(g, a, b) && Cong(g, b, c)
    ensures Cong(g, a, c)
  {
    hide Xor, Times;
    var p: nat :| Xor(a, b) == Times(g, p);
    var q: nat :| Xor(b, c) == Times(g, q);
    TimesXor(g, p, q);
    XorAssoc(Xor(a, b), b, c);
    XorCancel(a, b);
    CongBy(g, a, c, Xor(p, q));
  }

  lemma CongSym(g: nat, a: nat, b: nat)
    requires Cong(g, a, b)
    ensures Cong(g, b, a)
  {
    XorComm(a, b);
  }

  lemma CongAdd(g: nat, a: nat, b: nat, c: nat, d: nat)
    requires Cong(g, a, b) && Cong(g, c, d)
    ensures Cong(g, Xor(a, c), Xor(b, d))
  {
    hide Xor, Times;
    var p: nat :| Xor(a, b) == Times(g, p);
    var q: nat :| Xor(c, d) == Times(g, q);
    TimesXor(g, p, q);
    XorSwap(a, c, b, d);
    CongBy(g, Xor(a, c), Xor(b, d), Xor(p, q));
  }

  lemma CongDouble(g: nat, a: nat, b: nat)
    requires Cong(g, a, b)
    ensures Cong(g, 2 * a, 2 * b)
  {
    hide Xor, Times;
    var q: nat :| Xor(a, b) == Times(g, q);
    XorDouble(a, b);
    TimesDouble(g, q);
    CongBy(g, 2 * a, 2 * b, 2 * q);
  }

  lemma {:induction false} CongShiftLeft(g: nat, a: nat, b: nat, k: nat)
    requires Cong(g, a, b)
    ensures Cong(g, a * Pow2(k), b * Pow2(k))
    decreases k
  {
    hide Cong;
    if k > 0 {
      CongShiftLeft(g, a, b, k - 1);
      CongDouble(g, a * Pow2(k - 1), b * Pow2(k - 1));
      TimesTwo(a, Pow2(k - 1));
      TimesTwo(b, Pow2(k - 1));
    }
  }

  /** Two residues of degree below n that are congruent are equal. */
  lemma ResidueUnique(n: nat, poly: nat, r: nat, s: nat)
    requires poly < Pow2(n) && r < Pow2(n) && s < Pow2(n) && Cong(Generator(n, poly), r, s)
    ensures r == s
  {
    hide Xor, Times;
    var g := Generator(n, poly);
    var q: nat :| Xor(r, s) == Times(g, q);
    XorBound(r, s, n);
    if q != 0 {
      TimesLarge(g, q, n);
    } else {
      TimesUnfold(g, 0);
      TimesZero(g);
      XorCancel(r, s);
      XorZero(s);
    }
  }

  lemma TimesZero(g: nat)
    ensures Times(g, 0) == 0
  {
  }

  // ----- the register holds the remainder

  lemma ShiftBound(c: nat, n: nat, poly: nat)
    requires Width(n, poly) && c < Pow2(n)
    ensures Shift(c, n, poly) < Pow2(n)
  {
  }

  /** When the top bit falls out, the truncated xor is the xor with the whole generator. */
  lemma ShiftIsXor(c: nat, n: nat, poly: nat)
    requires Width(n, poly) && Pow2(n - 1) <= c < Pow2(n)
    ensures Shift(c, n, poly) == Xor(2 * c, Generator(n, poly))
  {
    hide Xor;
    var p := Pow2(n - 1);
    assert Pow2(n) == 2 * p;
    var x := 2 * c - 2 * p;
    XorTop(x, poly, n);
    XorBound(x, poly, n);
    ModTop(Xor(x, poly), 2 * p);
  }

  lemma ModTop(y: nat, m: nat)
    requires y < m
    ensures (y + m) % m == y
  {
    assert (y + m) % m == y % m;
  }

  /** A shift multiplies by x and, if needed, takes the generator away. */
  lemma ShiftCong(c: nat, n: nat, poly: nat)
    requires Width(n, poly) && c < Pow2(n)
    ensures Cong(Generator(n, poly), 2 * c, Shift(c, n, poly))
  {
    hide Xor, Times, Cong, Pow2;
    var g := Generator(n, poly);
    if c >= Pow2(n - 1) {
      ShiftIsXor(c, n, poly);
      XorAssoc(2 * c, 2 * c, g);
      XorSelf(2 * c);
      XorZero(g);
      TimesOne(g);
      CongBy(g, 2 * c, Xor(2 * c, g), 1);
    } else {
      CongRefl(g, 2 * c);
    }
  }

  lemma TimesOne(g: nat)
    ensures Times(g, 1) == g
  {
    assert Times(g, 0) == 0;
    XorZero(g);
  }

  lemma {:induction false} ShiftsCong(c: nat, n: nat, poly: nat, k: nat)
    requires Width(n, poly) && c < Pow2(n)
    ensures Shifts(c, n, poly, k) < Pow2(n)
    ensures Cong(Generator(n, poly), c * Pow2(k), Shifts(c, n, poly, k))
    decreases k
  {
    hide Cong, Shift;
    var g := Generator(n, poly);
    if k == 0 {
      CongRefl(g, c);
    } else {
      ShiftsCong(c, n, poly, k - 1);
      var s := Shifts(c, n, poly, k - 1);
      ShiftBound(s, n, poly);
      ShiftCong(s, n, poly);
      CongDouble(g, c * Pow2(k - 1), s);
      TimesTwo(c, Pow2(k - 1));
      CongTrans(g, c * Pow2(k), 2 * s, Shift(s, n, poly));
    }
  }

  lemma ByteBound(b: byte, n: nat)
    requires n >= 8
    ensures b * Pow2(n - 8) < Pow2(n) && Pow2(n - 8) * 256 == Pow2(n) && Pow2(8) == 256
    ensures b * Pow2(n - 8) * 256 == b * Pow2(n)
  {
    assert Pow2(4) == 16;
    Pow2Add(n - 8, 8);
  }

  /** Feeding a byte into a register congruent to m * x^n makes it congruent to (m * x^8 + b) * x^n. */
  lemma FeedCong(m: nat, c: nat, b: byte, n: nat, poly: nat)
    requires Width(n, poly) && c < Pow2(n) && Cong(Generator(n, poly), m * Pow2(n), c)
    ensures Feed(c, b, n, poly) < Pow2(n)
    ensures Cong(Generator(n, poly), (256 * m + b) * Pow2(n), Feed(c, b, n, poly))
  {
    hide Cong, Shifts, Xor;
    var g := Generator(n, poly);
    var e := b * Pow2(n - 8);
    ByteBound(b, n);
    XorBound(c, e, n);
    ShiftsCong(Xor(c, e), n, poly, 8);
    CongShiftLeft(g, m * Pow2(n), c, 8);
    CongRefl(g, e * 256);
    CongAdd(g, m * Pow2(n) * 256, c * 256, e * 256, e * 256);
    XorShift(c, e, 8);
    XorShift(256 * m, b, n);
    XorDisjoint(m, b, 8);
    Rearrange(m, Pow2(n));
    CongTrans(g, (256 * m + b) * Pow2(n), Xor(c, e) * 256, Feed(c, b, n, poly));
  }

  lemma Rearrange(m: nat, p: nat)
    ensures m * p * 256 == 256 * m * p
  {
  }

  /** The loops compute the remainder of message * x^n by the generator, the only residue of degree
      below n with that property. */
  lemma {:induction false} RegisterIsRemainder(data: seq<byte>, n: nat, poly: nat)
    requires Width(n, poly)
    ensures Register(data, n, poly) < Pow2(n)
    ensures Cong(Generator(n, poly), Value(data) * Pow2(n), Register(data, n, poly))
    ensures forall r: nat | r < Pow2(n) && Cong(Generator(n, poly), Value(data) * Pow2(n), r) ::
              r == Register(data, n, poly)
    decreases data
  {
    hide Cong, Feed;
    var g := Generator(n, poly);
    if data == [] {
      CongRefl(g, 0);
    } else {
      var init := data[..|data| - 1];
      RegisterIsRemainder(init, n, poly);
      FeedCong(Value(init), Register(init, n, poly), data[|data| - 1], n, poly);
    }
    forall r: nat | r < Pow2(n) && Cong(g, Value(data) * Pow2(n), r)
      ensures r == Register(data, n, poly)
    {
      CongSym(g, Value(data) * Pow2(n), r);
      CongTrans(g, r, Value(data) * Pow2(n), Register(data, n, poly));
      ResidueUnique(n, poly, r, Register(data, n, poly));
    }
  }

  // ----- linearity

  function XorBytes(a: seq<byte>, b: seq<byte>): (r: seq<byte>)
    requires |a| == |b|
    ensures |r| == |a|
  {
    seq(|a|, i requires 0 <= i < |a| => XorOfBytes(a[i], b[i]))
  }

  function XorOfBytes(a: byte, b: byte): byte {
    ByteBound(0, 8);
    XorBound(a, b, 8);
    Xor(a, b)
  }

  lemma {:induction false} ValueXor(a: seq<byte>, b: seq<byte>)
    requires |a| == |b|
    ensures Value(XorBytes(a, b)) == Xor(Value(a), Value(b))
    decreases a
  {
    if a == [] {
      XorZero(0);
    } else {
      var n := |a| - 1;
      var c := XorBytes(a, b);
      assert c[..n] == XorBytes(a[..n], b[..n]);
      ValueXor(a[..n], b[..n]);
      AppendedXor(Value(a[..n]), a[n], Value(b[..n]), b[n]);
    }
  }

  lemma AppendedXor(m: nat, a: byte, k: nat, b: byte)
    ensures Xor(256 * m + a, 256 * k + b) == 256 * Xor(m, k) + XorOfBytes(a, b)
  {
    hide Xor;
    ByteBound(0, 8);
    XorBound(a, b, 8);
    XorDisjoint(m, a, 8);
    XorDisjoint(k, b, 8);
    XorSwap(256 * m, a, 256 * k, b);
    XorShift(m, k, 8);
    XorDisjoint(Xor(m, k), Xor(a, b), 8);
  }

  /** The CRC of the xor of two equally long messages is the xor of their CRCs. */
  lemma RegisterIsLinear(a: seq<byte>, b: seq<byte>, n: nat, poly: nat)
    requires Width(n, poly) && |a| == |b|
    ensures Register(XorBytes(a, b), n, poly) == Xor(Register(a, n, poly), Register(b, n, poly))
  {
    hide Xor, Cong, Register, Value;
    var g := Generator(n, poly);
    RegisterIsRemainder(a, n, poly);
    RegisterIsRemainder(b, n, poly);
    RegisterIsRemainder(XorBytes(a, b), n, poly);
    CongAdd(g, Value(a) * Pow2(n), Register(a, n, poly), Value(b) * Pow2(n), Register(b, n, poly));
    XorShift(Value(a), Value(b), n);
    ValueXor(a, b);
    XorBound(Register(a, n, poly), Register(b, n, poly), n);
  }

  // ----- checking

  lemma {:induction false} ValueConcat(a: seq<byte>, b: seq<byte>)
    ensures Value(a + b) == Value(a) * Pow2(8 * |b|) + Value(b)
    decreases b
  {
    if b == [] {
      assert a + b == a;
    } else {
      var n := |b| - 1;
      assert (a + b)[..|a + b| - 1] == a + b[..n];
      ValueConcat(a, b[..n]);
      Pow2Add(8, 8 * n);
      ByteBound(0, 8);
      Rearrange(Value(a), Pow2(8 * n));
      assert Value(a) * Pow2(8 * |b|) == Value(a) * (256 * Pow2(8 * n));
      MulSwap(Value(a), Pow2(8 * n));
    }
  }

  lemma MulSwap(a: nat, p: nat)
    ensures a * (256 * p) == 256 * (a * p)
  {
  }

  /** A message followed by bytes whose value is its CRC, most significant first, has CRC 0. */
  lemma AppendedCrcIsZero(data: seq<byte>, crc: seq<byte>, n: nat, poly: nat)
    requires Width(n, poly) && 8 * |crc| == n && Value(crc) == Register(data, n, poly)
    ensures Register(data + crc, n, poly) == 0
  {
    hide Xor, Cong, Register, Value;
    var g := Generator(n, poly);
    var r := Register(data, n, poly);
    RegisterIsRemainder(data, n, poly);
    RegisterIsRemainder(data + crc, n, poly);
    ValueConcat(data, crc);
    XorDisjoint(Value(data), r, n);
    CongRefl(g, r);
    CongAdd(g, Value(data) * Pow2(n), r, r, r);
    XorSelf(r);
    CongShiftLeft(g, Value(data + crc), 0, n);
  }

  /** The generators have a constant term, so x is no factor of theirs. */
  lemma {:induction false} CancelShift(g: nat, e: nat, k: nat, q: nat)
    requires g % 2 == 1 && e * Pow2(k) == Times(g, q)
    ensures exists p: nat :: e == Times(g, p)
    decreases k
  {
    hide Times;
    if k == 0 {
      assert e == Times(g, q);
    } else {
      TimesTwo(e, Pow2(k - 1));
      EvenMultiple(g, q, e * Pow2(k - 1));
      CancelShift(g, e, k - 1, q / 2);
    }
  }

  /** An even multiple of an odd polynomial is twice a multiple. */
  lemma EvenMultiple(g: nat, q: nat, half: nat)
    requires g % 2 == 1 && 2 * half == Times(g, q)
    ensures half == Times(g, q / 2)
  {
    hide Xor, Times;
    TimesUnfold(g, q);
    XorBits(if q % 2 == 1 then g else 0, 2 * Times(g, q / 2));
    XorZero(2 * Times(g, q / 2));
  }

  /** Error detection: two messages whose difference is a burst, d times some power of x with d
      non-zero and of degree below n, have different CRCs. */
  lemma BurstDetected(a: seq<byte>, b: seq<byte>, n: nat, poly: nat, d: nat, k: nat)
    requires Width(n, poly) && poly % 2 == 1 && 0 < d < Pow2(n)
    requires Xor(Value(a), Value(b)) == d * Pow2(k)
    ensures Register(a, n, poly) != Register(b, n, poly)
  {
    hide Xor, Register, Value, Times, Cong;
    var g := Generator(n, poly);
    if Register(a, n, poly) == Register(b, n, poly) {
      RegisterIsRemainder(a, n, poly);
      RegisterIsRemainder(b, n, poly);
      CongSym(g, Value(b) * Pow2(n), Register(b, n, poly));
      CongTrans(g, Value(a) * Pow2(n), Register(a, n, poly), Value(b) * Pow2(n));
      XorShift(Value(a), Value(b), n);
      MulAssoc(d, Pow2(k), Pow2(n));
      Pow2Add(k, n);
      NotDivisible(n, poly, d, k + n, Value(a) * Pow2(n), Value(b) * Pow2(n));
    }
  }

  /** The generator divides no burst. */
  lemma NotDivisible(n: nat, poly: nat, d: nat, k: nat, x: nat, y: nat)
    requires Width(n, poly) && poly % 2 == 1 && 0 < d < Pow2(n)
    requires Xor(x, y) == d * Pow2(k)
    ensures !Cong(Generator(n, poly), x, y)
  {
    OddGenerator(n, poly);
    if Cong(Generator(n, poly), x, y) {
      hide Xor, Times, Pow2, Generator, Cong;
      var p := BurstFactor(Generator(n, poly), d, k, x, y);
      NoSmallMultiple(n, poly, d, p);
    }
  }

  lemma OddGenerator(n: nat, poly: nat)
    requires n > 0 && poly % 2 == 1
    ensures Generator(n, poly) % 2 == 1
  {
    EvenPower(n);
  }

  lemma BurstFactor(g: nat, d: nat, k: nat, x: nat, y: nat) returns (p: nat)
    requires g % 2 == 1 && Cong(g, x, y) && Xor(x, y) == d * Pow2(k)
    ensures d == Times(g, p)
  {
    hide Xor, Times, Pow2;
    var q: nat :| Xor(x, y) == Times(g, q);
    CancelShift(g, d, k, q);
    p :| d == Times(g, p);
  }

  lemma EvenPower(n: nat)
    requires n > 0
    ensures Pow2(n) % 2 == 0
  {
    var half := Pow2(n - 1);
    assert Pow2(n) == 2 * half;
    hide Pow2;
  }

  lemma NoSmallMultiple(n: nat, poly: nat, d: nat, p: nat)
    requires poly < Pow2(n) && 0 < d < Pow2(n)
    ensures d != Times(Generator(n, poly), p)
  {
    if p != 0 {
      TimesLarge(Generator(n, poly), p, n);
    }
  }

  lemma MulAssoc(a: nat, b: nat, c: nat)
    ensures a * b * c == a * (b * c)
  {
  }

  // ----- the two programs

  lemma Widths()
    ensures Pow2(7) == 0x80 && Pow2(8) == 0x100 && Pow2(15) == 0x8000 && Pow2(16) == 0x1_0000
    ensures Width(8, CRC8_POLY) && Width(16, CRC16_POLY)
  {
    assert Pow2(4) == 16;
    Pow2Add(4, 3);
    Pow2Add(8, 7);
    Pow2Add(8, 8);
  }

  /** `Compute_CRC8_Simple` */
  method ComputeCrc8(data: seq<byte>) returns (crc: nat)
    requires |data| <= 255
    ensures crc == Register(data, 8, CRC8_POLY) && crc < 0x100
  {
    Widths();
    crc := 0;
    for j := 0 to |data|
      invariant crc == Register(data[..j], 8, CRC8_POLY) && crc < 0x100
    {
      ghost var fed := Xor(crc, data[j]);
      XorBound(crc, data[j], 8);
      crc := Xor(crc, data[j]);
      for i := 0 to 8
        invariant crc == Shifts(fed, 8, CRC8_POLY, i) && crc < 0x100
      {
        ShiftBound(crc, 8, CRC8_POLY);
        crc := if crc >= 0x80 then Xor(2 * crc, CRC8_POLY) % 0x100 else 2 * crc;
      }
      assert data[..j + 1][..j] == data[..j];
    }
    assert data[..|data|] == data;
  }

  /** `Compute_CRC16_Simple` */
  method ComputeCrc16(data: seq<byte>) returns (crc: nat)
    requires |data| <= 255
    ensures crc == Register(data, 16, CRC16_POLY) && crc < 0x1_0000
  {
    Widths();
    crc := 0;
    for j := 0 to |data|
      invariant crc == Register(data[..j], 16, CRC16_POLY) && crc < 0x1_0000
    {
      ghost var fed := Xor(crc, data[j] as int * 0x100);
      XorBound(crc, data[j] as int * 0x100, 16);
      crc := Xor(crc, data[j] as int * 0x100);
      for i := 0 to 8
        invariant crc == Shifts(fed, 16, CRC16_POLY, i) && crc < 0x1_0000
      {
        ShiftBound(crc, 16, CRC16_POLY);
        crc := if crc >= 0x8000 then Xor(2 * crc, CRC16_POLY) % 0x1_0000 else 2 * crc;
      }
      assert data[..j + 1][..j] == data[..j];
    }
    assert data[..|data|] == data;
  }

  /** CRC-16 tells apart any two messages that differ only within two adjacent bytes. */
  lemma AdjacentBytesDetected(left: seq<byte>, a: seq<byte>, b: seq<byte>, right: seq<byte>)
    requires |a| == |b| == 2 && a != b
    ensures Register(left + a + right, 16, CRC16_POLY) != Register(left + b + right, 16, CRC16_POLY)
  {
    hide Xor, Register, Value;
    Widths();
    var d := Xor(Value(a), Value(b));
    ValueOfTwo(a);
    ValueOfTwo(b);
    XorBound(Value(a), Value(b), 16);
    if d == 0 {
      XorCancel(Value(a), Value(b));
      XorZero(Value(b));
    }
    DifferenceOfMiddle(left, a, b, right);
    BurstDetected(left + a + right, left + b + right, 16, CRC16_POLY, d, 8 * |right|);
  }

  lemma ValueOfTwo(a: seq<byte>)
    requires |a| == 2
    ensures Value(a) == 256 * (a[0] as int) + a[1]
  {
    assert a[..1][..0] == [];
    assert Value(a[..1]) == a[0];
  }

  /** Equal ends cancel: only the middle, shifted, remains of the difference. */
  lemma DifferenceOfMiddle(left: seq<byte>, a: seq<byte>, b: seq<byte>, right: seq<byte>)
    requires |a| == |b|
    ensures Xor(Value(left + a + right), Value(left + b + right)) == Xor(Value(a), Value(b)) * Pow2(8 * |right|)
  {
    hide Xor, Value;
    ValueConcat(left + a, right);
    ValueConcat(left + b, right);
    ValueConcat(left, a);
    ValueConcat(left, b);
    ValueBound(right);
    ValueBound(a);
    ValueBound(b);
    var k, l := 8 * |right|, 8 * |a|;
    SameEnd(Value(left + a), Value(left + b), Value(right), k);
    SameStart(Value(left), Value(a), Value(b), l);
  }

  lemma {:induction false} ValueBound(a: seq<byte>)
    ensures Value(a) < Pow2(8 * |a|)
    decreases a
  {
    if a != [] {
      var n := |a| - 1;
      ValueBound(a[..n]);
      Pow2Add(8, 8 * n);
      ByteBound(0, 8);
    }
  }

  lemma SameEnd(x: nat, y: nat, r: nat, k: nat)
    requires r < Pow2(k)
    ensures Xor(x * Pow2(k) + r, y * Pow2(k) + r) == Xor(x, y) * Pow2(k)
  {
    hide Xor;
    XorDisjoint(x, r, k);
    XorDisjoint(y, r, k);
    XorSwap(x * Pow2(k), r, y * Pow2(k), r);
    XorSelf(r);
    XorZero(Xor(x * Pow2(k), y * Pow2(k)));
    XorShift(x, y, k);
  }

  lemma SameStart(x: nat, a: nat, b: nat, k: nat)
    requires a < Pow2(k) && b < Pow2(k)
    ensures Xor(x * Pow2(k) + a, x * Pow2(k) + b) == Xor(a, b)
  {
    hide Xor;
    XorDisjoint(x, a, k);
    XorDisjoint(x, b, k);
    XorSwap(x * Pow2(k), a, x * Pow2(k), b);
    XorSelf(x * Pow2(k));
    XorZero(Xor(a, b));
  }

  /** The CRC of a single 1 is the polynomial, for any width. */
  lemma CrcOfOne(n: nat, poly: nat)
    requires Width(n, poly)
    ensures Register([1], n, poly) == poly
  {
    hide Xor, Cong, Register, Times;
    var g := Generator(n, poly);
    var one: seq<byte> := [1];
    assert Value(one[..0]) == 0 && Value(one) == 1;
    RegisterIsRemainder(one, n, poly);
    XorDisjoint(1, poly, n);
    XorAssoc(Pow2(n), poly, poly);
    XorCancel(Pow2(n), poly);
    TimesOne(g);
    XorComm(g, poly);
    CongBy(g, Pow2(n), poly, 1);
  }

  /** The bytes are taken from the first one on: leading zeros change nothing. */
  lemma {:induction false} LeadingZeros(k: nat, data: seq<byte>, n: nat, poly: nat)
    requires Width(n, poly)
    ensures Register(seq(k, _ => 0) + data, n, poly) == Register(data, n, poly)
    decreases k
  {
    if k == 0 {
      assert seq(k, _ => 0) + data == data;
    } else {
      var rest := seq(k - 1, _ => 0) + data;
      LeadingZeros(k - 1, data, n, poly);
      assert seq(k, _ => 0) + data == [0] + rest;
      LeadingZero(rest, n, poly);
    }
  }

  lemma LeadingZero(data: seq<byte>, n: nat, poly: nat)
    requires Width(n, poly)
    ensures Register([0] + data, n, poly) == Register(data, n, poly)
  {
    ValueOfZero();
    hide Xor, Cong, Register, Value;
    ValueConcat([0], data);
    RegisterIsRemainder(data, n, poly);
    RegisterIsRemainder([0] + data, n, poly);
  }

  lemma ValueOfZero()
    ensures Value([0]) == 0
  {
    var zero: seq<byte> := [0];
    assert zero[..0] == [];
  }
}
