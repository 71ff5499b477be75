/** The velocity-form PID controller of test_dsp/main.c, in 16-bit arithmetic. */
module Pid {

  /** Division as C does it: towards zero. */
  function Div128(a: int): (q: int)
    ensures -127 <= 128 * q - a <= 127
    ensures a >= 0 ==> 0 <= 128 * q <= a
    ensures a <= 0 ==> a <= 128 * q <= 0
  {
    if a >= 0 then a / 128 else -(-a / 128)
  }

  /** Conversion to `short`. */
  function Short(x: int): int {
    (x + 0x8000) % 0x1_0000 - 0x8000
  }

  /** Conversion to `unsigned short`. */
  function UShort(x: int): int {
    x % 0x1_0000
  }

  predicate FitsShort(x: int) {
    -0x8000 <= x <= 0x7fff
  }

  type u16 = x: int | 0 <= x <= 0xffff
  type s16 = x: int | FitsShort(x)

  /** The controller constants do not overflow when k1 and k2 are formed. */
  predicate GainsFit(kp: int, ki: int, kd: int) {
    kp + ki + kd <= 0xffff && kp + kd + kd <= 0xffff
  }

  /** All intermediate values of one call fit their 16-bit variables. */
  predicate StepFits(kp: int, ki: int, kd: int, error: int, z1: int, z2: int, last: int) {
    && GainsFit(kp, ki, kd) && FitsShort(error)
    && FitsShort(Div128((kp + ki + kd) * error))
    && FitsShort(Div128((kp + kd + kd) * z1))
    && FitsShort(Div128(kd * z2))
    && FitsShort(NextOutput(kp, ki, kd, error, z1, z2, last))
  }

  function NextOutput(kp: int, ki: int, kd: int, error: int, z1: int, z2: int, last: int): int {
    last + Div128((kp + ki + kd) * error) - Div128((kp + kd + kd) * z1) + Div128(kd * z2)
  }

  // ----- runs

  /** The error `i` steps before the end; zero before the beginning. */
  function Back(e: seq<int>, i: nat): int {
    if i < |e| then e[|e| - 1 - i] else 0
  }

  function Sum(e: seq<int>): int {
    if e == [] then 0 else Sum(e[..|e| - 1]) + e[|e| - 1]
  }

  /** The outputs of a flushed controller fed with these errors, in exact arithmetic. */
  function Output(kp: int, ki: int, kd: int, e: seq<int>): int {
    if e == [] then 0
    else
      NextOutput(kp, ki, kd, Back(e, 0), Back(e, 1), Back(e, 2), Output(kp, ki, kd, e[..|e| - 1]))
  }

  /** No 16-bit value overflows anywhere in the run. */
  predicate RunFits(kp: int, ki: int, kd: int, e: seq<int>) {
    if e == [] then true
    else
      && RunFits(kp, ki, kd, e[..|e| - 1])
      && StepFits(kp, ki, kd, Back(e, 0), Back(e, 1), Back(e, 2), Output(kp, ki, kd, e[..|e| - 1]))
  }

  /** 128 times the ideal controller's output: proportional, integral and differential part of the
      position form. */
  function Ideal(kp: int, ki: int, kd: int, e: seq<int>): int {
    kp * Back(e, 0) + ki * Sum(e) + kd * (Back(e, 0) - Back(e, 1))
  }

  lemma Telescope(kp: int, ki: int, kd: int, e0: int, e1: int, e2: int, sum: int)
    ensures kp * e0 + ki * (sum + e0) + kd * (e0 - e1) - (kp * e1 + ki * sum + kd * (e1 - e2)) ==
            (kp + ki + kd) * e0 - (kp + kd + kd) * e1 + kd * e2
  {
  }

  /** The velocity form tracks the position form: after n steps the truncations of the three
      divisions per step have added up to at most 381 n. */
  lemma {:induction false} TracksIdeal(kp: int, ki: int, kd: int, e: seq<int>)
    ensures -381 * |e| <= 128 * Output(kp, ki, kd, e) - Ideal(kp, ki, kd, e) <= 381 * |e|
    decreases e
  {
    if e != [] {
      var init := e[..|e| - 1];
      TracksIdeal(kp, ki, kd, init);
      assert Back(init, 0) == Back(e, 1) && Back(init, 1) == Back(e, 2);
      Telescope(kp, ki, kd, Back(e, 0), Back(e, 1), Back(e, 2), Sum(init));
    }
  }

  lemma ShortOf(x: int)
    ensures FitsShort(Short(x)) && (FitsShort(x) ==> Short(x) == x)
  {
  }

  lemma UShortOf(x: int)
    ensures 0 <= x <= 0xffff ==> UShort(x) == x
  {
  }

  // ----- the program

  /** `pid_data_obj_t`; the gains stay as they were set. */
  class PidData {
    const kp: u16
    const ki: u16
    const kd: u16
    var setpoint: s16
    var sample: s16
    var lastD: s16
    var errorZ1: s16
    var errorZ2: s16
    /** The errors of all calls since the last flush. */
    ghost var errors: seq<int>

    /** As long as nothing overflows the object holds the exact state of the run. */
    ghost predicate Valid()
      reads this
    {
      RunFits(kp, ki, kd, errors) ==>
        && lastD == Output(kp, ki, kd, errors)
        && errorZ1 == Back(errors, 0) && errorZ2 == Back(errors, 1)
    }

    constructor (kp: u16, ki: u16, kd: u16, setpoint: s16)
      ensures this.kp == kp && this.ki == ki && this.kd == kd && this.setpoint == setpoint
      ensures Valid() && errors == []
    {
      this.kp, this.ki, this.kd, this.setpoint := kp, ki, kd, setpoint;
      sample, lastD, errorZ1, errorZ2, errors := 0, 0, 0, 0, [];
    }

    /** `PID_Flush_Errors` */
    method FlushErrors()
      modifies this`lastD, this`errorZ1, this`errorZ2, this`errors
      ensures Valid() && errors == [] && lastD == 0
    {
      lastD, errorZ1, errorZ2, errors := 0, 0, 0, [];
    }

    /** The arithmetic of `PID`: every assignment truncates to the width of its variable; when
        nothing overflows the result is the exact next output. */
    method Compute(error: s16) returns (d: s16)
      ensures StepFits(kp, ki, kd, error, errorZ1, errorZ2, lastD) ==>
                d == NextOutput(kp, ki, kd, error, errorZ1, errorZ2, lastD)
    {
      hide Short, UShort, Div128;
      UShortOf(kp as int + ki + kd);
      UShortOf(kp as int + kd + kd);
      var k1 := UShort(kp as int + ki + kd);
      var k2 := UShort(kp as int + kd + kd);
      var k3 := kd;
      var acc := Div128(k1 * error);
      ShortOf(acc);
      var valK1 := Short(acc);
      acc := Div128(k2 * errorZ1);
      ShortOf(acc);
      var valK2 := Short(acc);
      acc := Div128(k3 as int * errorZ2);
      ShortOf(acc);
      var valK3 := Short(acc);
      ShortOf(lastD + valK1 - valK2 + valK3);
      d := Short(lastD + valK1 - valK2 + valK3);
    }

    /** `PID`: the output of n calls that never overflow is within 381 n / 128 of the ideal. */
    method Step() returns (d: s16)
      requires Valid()
      modifies this`lastD, this`errorZ1, this`errorZ2, this`errors
      ensures Valid() && errors == old(errors) + [setpoint as int - sample]
      ensures errorZ2 == old(errorZ1) && errorZ1 == Short(setpoint as int - sample) && lastD == d
      ensures RunFits(kp, ki, kd, errors) ==>
                -381 * |errors| <= 128 * (d as int) - Ideal(kp, ki, kd, errors) <= 381 * |errors|
    {
      hide NextOutput, StepFits, Short, Ideal, Div128;
      ShortOf(setpoint as int - sample);
      var error: s16 := Short(setpoint as int - sample);
      d := Compute(error);
      ghost var was := errors;
      errors := errors + [setpoint as int - sample];
      assert errors[..|errors| - 1] == was;
      if RunFits(kp, ki, kd, errors) {
        StepErrorFits(kp, ki, kd, errors);
        assert Back(was, 0) == Back(errors, 1) && Back(was, 1) == Back(errors, 2);
      }
      TracksIdeal(kp, ki, kd, errors);
      errorZ2 := errorZ1;
      errorZ1 := error;
      lastD := d;
    }
  }

  lemma StepErrorFits(kp: int, ki: int, kd: int, e: seq<int>)
    requires e != [] && RunFits(kp, ki, kd, e)
    ensures FitsShort(Back(e, 0))
  {
  }
}
