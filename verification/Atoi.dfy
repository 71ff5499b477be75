/** The string-to-integer conversion of string_to_int_atoi/main.c. */
module Atoi {
  import opened Bytes

  const INT_MAX: int := 0x7fff_ffff
  const INT_MIN: int := -0x8000_0000
  const UINT_RANGE: int := 0x1_0000_0000

  const SPACE: byte := 0x20
  const PLUS: byte := 0x2b
  const COMMA: byte := 0x2c
  const MINUS: byte := 0x2d
  const ZERO: byte := 0x30

  /** `isNumber` */
  predicate IsDigit(c: byte) {
    0x30 <= c <= 0x39
  }

  /** `isSign`: the range from plus to minus, and the comma lies in it. */
  predicate IsSign(c: byte) {
    PLUS <= c <= MINUS
  }

  predicate Digits(s: seq<byte>) {
    forall k | 0 <= k < |s| :: IsDigit(s[k])
  }

  // ----- the meaning of a decimal string

  /** How many of the first characters satisfy the test. */
  function Spaces(s: seq<byte>): (n: nat)
    ensures n <= |s|
  {
    if s == [] || s[0] != SPACE then 0 else 1 + Spaces(s[1..])
  }

  function LeadingDigits(s: seq<byte>): (n: nat)
    ensures n <= |s| && Digits(s[..n]) && (n < |s| ==> !IsDigit(s[n]))
  {
    if s == [] || !IsDigit(s[0]) then 0 else 1 + LeadingDigits(s[1..])
  }

  function Decimal(s: seq<byte>): int {
    if s == [] then 0 else 10 * Decimal(s[..|s| - 1]) + (s[|s| - 1] as int - ZERO)
  }

  function Clamp(v: int): int {
    if v > INT_MAX then INT_MAX else if v < INT_MIN then INT_MIN else v
  }

  /** Blanks, an optional sign, and the digits that follow, clamped to 32 bits.  With `comma`, a
      comma counts as a minus sign. */
  function Meaning(s: seq<byte>, comma: bool): int {
    var t := s[Spaces(s)..];
    var signed := t != [] && (t[0] == PLUS || t[0] == MINUS || (comma && t[0] == COMMA));
    var u := if signed then t[1..] else t;
    var v := Decimal(u[..LeadingDigits(u)]);
    Clamp(if signed && t[0] != PLUS then -v else v)
  }

  // ----- the digit ladder

  function Pow10(n: nat): (p: int)
    ensures p > 0
  {
    if n == 0 then 1 else 10 * Pow10(n - 1)
  }

  lemma {:induction false} DecimalBound(s: seq<byte>)
    requires Digits(s)
    ensures 0 <= Decimal(s) < Pow10(|s|)
    decreases s
  {
    if s != [] {
      DecimalBound(s[..|s| - 1]);
    }
  }

  lemma {:induction false} DecimalConcat(a: seq<byte>, b: seq<byte>)
    ensures Decimal(a + b) == Decimal(a) * Pow10(|b|) + Decimal(b)
    decreases b
  {
    if b == [] {
      assert a + b == a;
    } else {
      var n := |b| - 1;
      assert (a + b)[..|a + b| - 1] == a + b[..n];
      DecimalConcat(a, b[..n]);
      MulTen(Decimal(a), Pow10(n));
    }
  }

  lemma MulTen(a: int, p: int)
    ensures a * (10 * p) == 10 * (a * p)
  {
  }

  /** A digit-by-digit comparison with a limit: the first difference decides. */
  function Ladder(s: seq<byte>, limit: seq<byte>): bool
    requires |s| == |limit|
  {
    if s == [] then true
    else if s[0] > limit[0] then false
    else if s[0] == limit[0] then Ladder(s[1..], limit[1..])
    else true
  }

  const MAX_DIGITS: seq<byte> := [0x32, 0x31, 0x34, 0x37, 0x34, 0x38, 0x33, 0x36, 0x34, 0x37]
  const MIN_DIGITS: seq<byte> := [0x32, 0x31, 0x34, 0x37, 0x34, 0x38, 0x33, 0x36, 0x34, 0x38]

  /** `checkBigNumber`: the nested comparisons of ten digits. */
  function CheckBigNumber(s: seq<byte>, positive: bool): bool
    requires |s| == 10
  {
    Ladder(s, if positive then MAX_DIGITS else MIN_DIGITS)
  }

  /** Comparing digit by digit is comparing the numbers. */
  lemma {:induction false} LadderCompares(s: seq<byte>, limit: seq<byte>)
    requires |s| == |limit| && Digits(s) && Digits(limit)
    ensures Ladder(s, limit) <==> Decimal(s) <= Decimal(limit)
    decreases s
  {
    if s != [] {
      LadderCompares(s[1..], limit[1..]);
      assert [s[0]] + s[1..] == s && [limit[0]] + limit[1..] == limit;
      DecimalConcat([s[0]], s[1..]);
      DecimalConcat([limit[0]], limit[1..]);
      DecimalBound(s[1..]);
      DecimalBound(limit[1..]);
      OneDigit(s[0]);
      OneDigit(limit[0]);
      FirstDecides(s[0] as int - ZERO, limit[0] as int - ZERO, Pow10(|s| - 1), Decimal(s[1..]), Decimal(limit[1..]));
    }
  }

  lemma OneDigit(c: byte)
    ensures Decimal([c]) == c as int - ZERO
  {
    assert [c][..0] == [];
  }

  lemma FirstDecides(a: int, b: int, p: int, x: int, y: int)
    requires 0 <= x < p && 0 <= y < p
    ensures a < b ==> a * p + x < b * p + y
    ensures a > b ==> a * p + x > b * p + y
  {
    if a < b {
      assert (a + 1) * p <= b * p;
      assert a * p + x < (a + 1) * p;
    } else if a > b {
      assert (b + 1) * p <= a * p;
      assert b * p + y < (b + 1) * p;
    }
  }

  lemma LimitValues()
    ensures Digits(MAX_DIGITS) && Decimal(MAX_DIGITS) == INT_MAX
    ensures Digits(MIN_DIGITS) && Decimal(MIN_DIGITS) == -INT_MIN
  {
    var head := [0x32, 0x31, 0x34, 0x37, 0x34];
    var max := [0x38, 0x33, 0x36, 0x34, 0x37];
    var min := [0x38, 0x33, 0x36, 0x34, 0x38];
    assert MAX_DIGITS == head + max && MIN_DIGITS == head + min;
    FiveDigits(head);
    FiveDigits(max);
    FiveDigits(min);
    DecimalConcat(head, max);
    DecimalConcat(head, min);
    assert Pow10(3) == 1000;
  }

  lemma FiveDigits(s: seq<byte>)
    requires |s| == 5
    ensures Decimal(s) == (s[0] as int - ZERO) * 10000 + (s[1] as int - ZERO) * 1000 + (s[2] as int - ZERO) * 100 +
                          (s[3] as int - ZERO) * 10 + (s[4] as int - ZERO)
  {
    assert s[..4][..3] == s[..3] && s[..3][..2] == s[..2] && s[..2][..1] == s[..1] && s[..1][..0] == [];
    assert Decimal(s[..1]) == s[0] as int - ZERO;
    assert Decimal(s[..2]) == 10 * Decimal(s[..1]) + (s[1] as int - ZERO);
    assert Decimal(s[..3]) == 10 * Decimal(s[..2]) + (s[2] as int - ZERO);
    assert Decimal(s[..4]) == 10 * Decimal(s[..3]) + (s[3] as int - ZERO);
  }

  /** The ladder accepts exactly the ten-digit numbers within 32 bits. */
  lemma CheckBigNumberMeaning(s: seq<byte>, positive: bool)
    requires |s| == 10 && Digits(s)
    ensures CheckBigNumber(s, positive) <==> Decimal(s) <= if positive then INT_MAX else -INT_MIN
  {
    LimitValues();
    LadderCompares(s, if positive then MAX_DIGITS else MIN_DIGITS);
  }

  // ----- the conversion of a run of digits

  /** The accumulation loops of myAtoi, in unsigned 32-bit arithmetic. */
  method Accumulate(d: seq<byte>) returns (total: int)
    requires Digits(d) && |d| <= 10 && Decimal(d) < UINT_RANGE
    ensures total == Decimal(d)
  {
    total := 0;
    NoDigits(d[..0], Pow10(|d|));
    hide Decimal, Pow10;
    for i := 0 to |d|
      invariant total == Decimal(d[..i]) * Pow10(|d| - i)
    {
      var multiplier := Multiplier(|d| - i - 1);
      var toMult := d[i] as int - ZERO;
      NextTotal(d, i, total, multiplier);
      total := (total + toMult * multiplier) % UINT_RANGE;
    }
    assert d[..|d|] == d;
    OnesPlace(Decimal(d));
  }

  lemma NextTotal(d: seq<byte>, i: nat, total: int, multiplier: int)
    requires Digits(d) && i < |d| && Decimal(d) < UINT_RANGE
    requires total == Decimal(d[..i]) * Pow10(|d| - i) && multiplier == Pow10(|d| - i - 1)
    ensures (total + (d[i] as int - ZERO) * multiplier) % UINT_RANGE == Decimal(d[..i + 1]) * Pow10(|d| - (i + 1))
  {
    PartialSum(d, i);
    hide Decimal, Pow10, Digits;
  }

  /** The inner loop. */
  method Multiplier(n: nat) returns (multiplier: int)
    requires n <= 9
    ensures multiplier == Pow10(n)
  {
    multiplier := 1;
    for j := 0 to n
      invariant multiplier == Pow10(j)
    {
      MultiplierFits(j + 1);
      multiplier := multiplier * 10 % UINT_RANGE;
    }
  }

  lemma NoDigits(s: seq<byte>, p: int)
    requires s == []
    ensures Decimal(s) * p == 0
  {
  }

  lemma OnesPlace(v: int)
    ensures v * Pow10(0) == v
  {
  }

  lemma MultiplierFits(n: nat)
    requires n <= 9
    ensures Pow10(n) < UINT_RANGE
  {
    TenDigits();
    Pow10Grows(n, 9);
  }

  /** One more digit in its place; the sums stay below the whole number. */
  lemma PartialSum(d: seq<byte>, i: nat)
    requires Digits(d) && i < |d|
    ensures
      var p := Pow10(|d| - i - 1);
      var sum := Decimal(d[..i]) * Pow10(|d| - i) + (d[i] as int - ZERO) * p;
      sum == Decimal(d[..i + 1]) * p && 0 <= sum <= Decimal(d)
  {
    var a := d[..i + 1];
    assert a[..i] == d[..i];
    AddDigit(Decimal(d[..i]), d[i] as int - ZERO, Pow10(|d| - i - 1));
    PrefixBelow(d, i + 1);
  }

  lemma AddDigit(v: int, c: int, p: int)
    ensures v * (10 * p) + c * p == (10 * v + c) * p
  {
    MulTen(v, p);
    Distribute(10 * v, c, p);
    assert 10 * (v * p) == 10 * v * p;
  }

  lemma PrefixBelow(d: seq<byte>, i: nat)
    requires Digits(d) && i <= |d|
    ensures 0 <= Decimal(d[..i]) * Pow10(|d| - i) <= Decimal(d)
  {
    var a, b := d[..i], d[i..];
    assert a + b == d;
    DecimalConcat(a, b);
    DecimalBound(a);
    DecimalBound(b);
    NonNegative(Decimal(a), Pow10(|b|));
  }

  lemma NonNegative(a: int, b: int)
    requires a >= 0 && b >= 0
    ensures a * b >= 0
  {
  }

  lemma Distribute(a: int, b: int, p: int)
    ensures (a + b) * p == a * p + b * p
  {
  }

  /** The last part of myAtoi: size checks, accumulation, negation in unsigned arithmetic and the
      conversion to int. */
  method Convert(d: seq<byte>, positive: bool) returns (r: int)
    requires Digits(d) && d != [] && d[0] != ZERO
    ensures r == Clamp(if positive then Decimal(d) else -Decimal(d))
  {
    DecimalLower(d);
    DecimalBound(d);
    if |d| > 10 {
      Pow10Grows(10, |d| - 1);
      TenDigits();
      return if positive then INT_MAX else INT_MIN;
    }
    if |d| == 10 {
      CheckBigNumberMeaning(d, positive);
      if positive {
        if !CheckBigNumber(d, true) {
          return INT_MAX;
        }
      } else {
        if !CheckBigNumber(d, false) {
          return INT_MIN;
        }
      }
    } else {
      Pow10Grows(|d|, 9);
      TenDigits();
    }
    var total := Accumulate(d);
    var retVal := if positive then total else (UINT_RANGE - total) % UINT_RANGE;
    r := if retVal > INT_MAX then retVal - UINT_RANGE else retVal;
  }

  lemma TenDigits()
    ensures Pow10(9) == 1000000000 && Pow10(10) == 10000000000
  {
    assert Pow10(3) == 1000;
    assert Pow10(5) == 100000;
    assert Pow10(7) == 10000000;
  }

  lemma {:induction false} Pow10Grows(m: nat, n: nat)
    requires m <= n
    ensures Pow10(m) <= Pow10(n)
    decreases n
  {
    if m < n {
      Pow10Grows(m, n - 1);
    }
  }

  lemma {:induction false} DecimalLower(d: seq<byte>)
    requires Digits(d) && d != [] && d[0] != ZERO
    ensures Decimal(d) >= Pow10(|d| - 1) && Decimal(d) >= 1
    decreases d
  {
    if |d| > 1 {
      DecimalLower(d[..|d| - 1]);
    } else {
      assert d[..0] == [];
    }
  }

  // ----- scanning

  lemma {:induction false} SpacesIs(s: seq<byte>, n: nat)
    requires n <= |s| && (forall k | 0 <= k < n :: s[k] == SPACE) && (n < |s| ==> s[n] != SPACE)
    ensures Spaces(s) == n
    decreases n
  {
    if n > 0 {
      SpacesIs(s[1..], n - 1);
    }
  }

  lemma {:induction false} LeadingDigitsIs(s: seq<byte>, n: nat)
    requires n <= |s| && Digits(s[..n]) && (n < |s| ==> !IsDigit(s[n]))
    ensures LeadingDigits(s) == n
    decreases n
  {
    if n > 0 {
      assert s[..n][0] == s[0] && s[1..][..n - 1] == s[..n][1..];
      LeadingDigitsIs(s[1..], n - 1);
    }
  }

  lemma {:induction false} LeadingZeroes(s: seq<byte>, n: nat)
    requires n <= |s| && forall k | 0 <= k < n :: s[k] == ZERO
    ensures Decimal(s) == Decimal(s[n..])
    decreases n
  {
    assert s[..n] + s[n..] == s;
    DecimalConcat(s[..n], s[n..]);
    ZeroValue(s[..n]);
  }

  lemma {:induction false} ZeroValue(s: seq<byte>)
    requires forall k | 0 <= k < |s| :: s[k] == ZERO
    ensures Decimal(s) == 0
    decreases s
  {
    if s != [] {
      ZeroValue(s[..|s| - 1]);
    }
  }

  /** The scan so far: blanks, then (with `sign` at least 0) a sign, then at `st` the number. */
  predicate Lead(s: seq<byte>, sign: int, st: nat) {
    && st <= |s| && -1 <= sign < st + (if sign < 0 then 1 else 0)
    && (if sign < 0 then forall k | 0 <= k < st :: s[k] == SPACE
        else st == sign + 1 && IsSign(s[sign]) && forall k | 0 <= k < sign :: s[k] == SPACE)
  }

  function Negative(s: seq<byte>, sign: int): bool
    requires sign < |s|
  {
    sign >= 0 && s[sign] != PLUS
  }

  lemma SliceFrom(s: seq<byte>, st: nat, n: nat)
    requires st + n <= |s|
    ensures |s[st..]| == |s| - st && s[st..][..n] == s[st..st + n]
    ensures st + n < |s| ==> s[st..][n] == s[st + n]
  {
  }

  /** What the scanned lead and the digits behind it mean. */
  lemma LeadMeaning(s: seq<byte>, sign: int, st: nat, n: nat)
    requires Lead(s, sign, st) && st + n <= |s| && Digits(s[st..st + n])
    requires st + n < |s| ==> !IsDigit(s[st + n])
    requires sign < 0 && st < |s| ==> s[st] != SPACE && !IsSign(s[st])
    ensures Meaning(s, true) ==
            Clamp(if Negative(s, sign) then -Decimal(s[st..st + n]) else Decimal(s[st..st + n]))
  {
    SpacesIs(s, if sign < 0 then st else sign);
    hide Spaces, LeadingDigits, Decimal;
    var u := s[st..];
    SliceFrom(s, st, n);
    if sign >= 0 {
      SliceFrom(s, sign, 0);
      assert s[sign..][1..] == u;
    }
    LeadingDigitsIs(u, n);
  }

  /** A lead followed by `n` zeroes and no further digit means 0. */
  lemma MeansZero(s: seq<byte>, sign: int, st: nat, n: nat)
    requires Lead(s, sign, st) && st + n <= |s| && forall k | st <= k < st + n :: s[k] == ZERO
    requires st + n < |s| ==> !IsDigit(s[st + n])
    requires sign < 0 && st < |s| ==> s[st] != SPACE && !IsSign(s[st])
    ensures Meaning(s, true) == 0
  {
    var zeroes := s[st..st + n];
    assert forall k | 0 <= k < n :: zeroes[k] == ZERO;
    ZeroValue(zeroes);
    hide Decimal, Meaning, Lead, Spaces, LeadingDigits;
    LeadMeaning(s, sign, st, n);
  }

  /** A lead, zeroes, and digits from `at` on. */
  lemma MeansNumber(s: seq<byte>, sign: int, st: nat, at: nat, len: nat)
    requires Lead(s, sign, st) && st <= at < at + len <= |s| && forall k | st <= k < at :: s[k] == ZERO
    requires Digits(s[at..at + len]) && (at + len < |s| ==> !IsDigit(s[at + len]))
    ensures Meaning(s, true) ==
            Clamp(if Negative(s, sign) then -Decimal(s[at..at + len]) else Decimal(s[at..at + len]))
  {
    var n := at + len - st;
    assert forall k | st <= k < st + n :: k >= at ==> s[k] == s[at..at + len][k - at];
    assert IsDigit(s[st]) by {
      assert st == at ==> s[st] == s[at..at + len][0];
    }
    LeadMeaning(s, sign, st, n);
    LeadingZeroes(s[st..st + n], at - st);
    assert s[st..st + n][at - st..] == s[at..at + len];
  }

  datatype Scan = NoNumber | Number(at: nat, len: nat, sign: int)

  /** The first loop of myAtoi. */
  method ScanNumber(str: seq<byte>) returns (r: Scan)
    ensures r.NoNumber? ==> Meaning(str, true) == 0
    ensures r.Number? ==>
              && -1 <= r.sign < |str| && 0 < r.len && r.at + r.len <= |str|
              && Digits(str[r.at..r.at + r.len]) && str[r.at] != ZERO
              && Meaning(str, true) ==
                 Clamp(if Negative(str, r.sign) then -Decimal(str[r.at..r.at + r.len])
                       else Decimal(str[r.at..r.at + r.len]))
  {
    hide Meaning, Decimal, Negative, Clamp;
    var numberIndex: int, signIndex: int, numberLen: int, someZeroes := -1, -1, 0, false;
    var i := 0;
    ghost var st := 0;
    while i < |str|
      invariant 0 <= i <= |str| + 1 && 0 <= st && Lead(str, signIndex, st)
      invariant numberIndex < 0 ==> i <= |str| && st <= i && forall k | st <= k < i :: str[k] == ZERO
      invariant numberIndex < 0 ==> numberLen == 0 && (someZeroes <==> st < i)
      invariant numberIndex >= 0 ==>
                  && st <= numberIndex && 0 < numberLen && numberIndex + numberLen <= |str|
                  && (forall k | st <= k < numberIndex :: str[k] == ZERO) && str[numberIndex] != ZERO
                  && (forall k | numberIndex <= k < numberIndex + numberLen :: IsDigit(str[k]))
                  && (i == numberIndex + numberLen ||
                      (i == |str| + 1 && numberIndex + numberLen < |str| && !IsDigit(str[numberIndex + numberLen])))
      decreases |str| + 1 - i
    {
      var c := str[i];
      if numberIndex < 0 {
        if IsDigit(c) {
          someZeroes := true;
          if c != ZERO {
            numberIndex := i;
            numberLen := numberLen + 1;
          }
        } else if IsSign(c) && !someZeroes {
          if signIndex >= 0 {
            MeansZero(str, signIndex, st, 0);
            return NoNumber;
          }
          signIndex := i;
          st := i + 1;
        } else if c != SPACE || someZeroes || signIndex >= 0 {
          MeansZero(str, signIndex, st, i - st);
          return NoNumber;
        } else {
          st := i + 1;
        }
      } else if IsDigit(c) {
        numberLen := numberLen + 1;
      } else {
        i := |str|;
      }
      i := i + 1;
    }
    if numberIndex < 0 {
      MeansZero(str, signIndex, st, |str| - st);
      return NoNumber;
    }
    MeansNumber(str, signIndex, st, numberIndex, numberLen);
    return Number(numberIndex, numberLen, signIndex);
  }

  /** `myAtoi` */
  method MyAtoi(str: seq<byte>) returns (r: int)
    ensures r == Meaning(str, true)
  {
    var scan := ScanNumber(str);
    if scan.NoNumber? {
      return 0;
    }
    var isPositive := scan.sign < 0 || str[scan.sign] == PLUS;
    r := Convert(str[scan.at..scan.at + scan.len], isPositive);
  }

  /** The value of a run of digits, limited to 32 bits. */
  predicate Limited(v: int, r: int) {
    r == if v > 0x7fff_ffff then 0x7fff_ffff else if v < -0x8000_0000 then -0x8000_0000 else v
  }

  function Blanks(n: nat): seq<byte> {
    seq(n, _ => SPACE)
  }

  /** Blanks, a plus, a minus or no sign, and digits that are followed by something else: the value
      of the digits, negative exactly for a minus. */
  lemma SignedNumber(n: nat, sign: seq<byte>, d: seq<byte>, rest: seq<byte>)
    requires sign == [] || sign == [PLUS] || sign == [MINUS]
    requires d != [] && Digits(d) && (rest == [] || !IsDigit(rest[0]))
    ensures Limited(if sign == [MINUS] then -Decimal(d) else Decimal(d), Meaning(Blanks(n) + sign + d + rest, true))
  {
    hide Decimal, Meaning, Spaces, LeadingDigits;
    var s := Blanks(n) + sign + d + rest;
    var st := n + |sign|;
    assert s[st..st + |d|] == d;
    assert forall k | 0 <= k < n :: s[k] == SPACE;
    assert sign != [] ==> s[n] == sign[0];
    assert s[st] == d[0];
    assert st + |d| < |s| ==> s[st + |d|] == rest[0];
    LeadMeaning(s, if sign == [] then -1 else n, st, |d|);
  }

  /** Anything else behind the blanks and an optional sign is 0. */
  lemma NoDigitsMeanZero(n: nat, sign: seq<byte>, rest: seq<byte>)
    requires sign == [] || sign == [PLUS] || sign == [MINUS]
    requires rest == [] || (!IsDigit(rest[0]) && (sign == [] ==> rest[0] != SPACE && !IsSign(rest[0])))
    ensures Meaning(Blanks(n) + sign + rest, true) == 0
  {
    hide Decimal, Meaning, Spaces, LeadingDigits;
    var s := Blanks(n) + sign + rest;
    var st := n + |sign|;
    assert forall k | 0 <= k < n :: s[k] == SPACE;
    assert sign != [] ==> s[n] == sign[0];
    assert st < |s| ==> s[st] == rest[0];
    MeansZero(s, if sign == [] then -1 else n, st, 0);
  }

  /** " -42" is -42. */
  lemma Minus42()
    ensures Meaning([SPACE, MINUS, 0x34, 0x32], true) == -42
  {
    hide Meaning;
    OneDigit(0x34);
    OneDigit(0x32);
    DecimalConcat([0x34], [0x32]);
    assert [0x34] + [0x32] == [0x34, 0x32] && Pow10(1) == 10;
    assert Blanks(1) + [MINUS] + [0x34, 0x32] + [] == [SPACE, MINUS, 0x34, 0x32];
    SignedNumber(1, [MINUS], [0x34, 0x32], []);
  }

  /** What a reader expects, with plus and minus as the only signs, is what myAtoi returns, except
      exactly when the first character behind the blanks is a comma and a non-zero number follows. */
  lemma CommaCounts(s: seq<byte>)
    ensures
      var n := Spaces(s);
      Meaning(s, true) == Meaning(s, false) <==>
      !(n < |s| && s[n] == COMMA && Decimal(s[n + 1..][..LeadingDigits(s[n + 1..])]) != 0)
  {
    hide Decimal, LeadingDigits, Spaces, Meaning, Clamp;
    var n := Spaces(s);
    if n < |s| && s[n] == COMMA {
      CommaNegates(s);
    } else {
      OtherwiseSame(s);
    }
  }

  /** A comma behind the blanks. */
  lemma CommaNegates(s: seq<byte>)
    requires Spaces(s) < |s| && s[Spaces(s)] == COMMA
    ensures
      var v := Decimal(s[Spaces(s) + 1..][..LeadingDigits(s[Spaces(s) + 1..])]);
      Meaning(s, true) == Clamp(-v) && Meaning(s, false) == 0 && (Clamp(-v) == 0 <==> v == 0)
  {
    hide Decimal, LeadingDigits, Spaces, Pow10, Digits;
    var t := s[Spaces(s)..];
    assert t[1..] == s[Spaces(s) + 1..];
    DecimalBound(t[1..][..LeadingDigits(t[1..])]);
    NotANumber(t);
  }

  lemma OtherwiseSame(s: seq<byte>)
    requires Spaces(s) < |s| ==> s[Spaces(s)] != COMMA
    ensures Meaning(s, true) == Meaning(s, false)
  {
    hide Decimal, LeadingDigits, Spaces;
    var t := s[Spaces(s)..];
    assert t != [] ==> t[0] == s[Spaces(s)];
  }

  lemma NotANumber(t: seq<byte>)
    requires t != [] && !IsDigit(t[0])
    ensures Decimal(t[..LeadingDigits(t)]) == 0
  {
    assert t[..0] == [];
  }

  /** A comma and a five. */
  lemma CommaExample()
    ensures Meaning([COMMA, 0x35], true) == -5 && Meaning([COMMA, 0x35], false) == 0
  {
    var s: seq<byte> := [COMMA, 0x35];
    assert s[0..] == s && s[1..] == [0x35];
    OneDigit(0x35);
    assert LeadingDigits(s[1..]) == 1 && s[1..][..1] == [0x35];
    assert LeadingDigits(s) == 0 && s[..0] == [];
  }

  /** On any string without a comma. */
  lemma CommaFree(s: seq<byte>)
    requires COMMA !in s
    ensures Meaning(s, true) == Meaning(s, false)
  {
    CommaCounts(s);
  }
}
