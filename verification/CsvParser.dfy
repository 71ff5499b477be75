/** The parser object of test_csv/libcsv.c, with its growing entry buffer. */
module CsvParserObject {
  import opened Bytes
  import opened CsvModel

  datatype Status = Success | EParse | ENoMem | ETooBig

  const MEM_BLK_SIZE: nat := 128

  /** `n` halved k times. */
  function Halved(n: nat, k: nat): (h: nat)
    ensures h <= n
  {
    if k == 0 then n else Halved(n, k - 1) / 2
  }

  /** The answers of an allocator that grants the (k+1)-th request and none before it. */
  predicate GrantsAfter(answers: seq<bool>, k: nat) {
    (forall i | 0 <= i < k && i < |answers| :: !answers[i]) && k <= |answers| && (k < |answers| ==> answers[k])
  }

  class CsvParser {
    const cfg: Config
    const blkSize: nat
    var pstate: PState
    var quoted: bool
    var spaces: nat
    var entryBuf: array?<byte>
    var entryPos: nat
    var status: Status
    /** What the allocator answers to the coming requests; it grants those after them. */
    var grants: seq<bool>

    /** The state as the model sees it: the live part of the buffer is the entry. */
    ghost function Abs(): State
      requires entryBuf != null ==> entryPos <= entryBuf.Length
      reads this, entryBuf
    {
      State(pstate, quoted, spaces, if entryBuf == null then [] else entryBuf[..entryPos])
    }

    /** Buffer safety: the entry fits, and under CSV_APPEND_NULL so does its terminating NUL. */
    ghost predicate Valid()
      reads this, entryBuf
    {
      && blkSize <= SIZE_MAX
      && (entryBuf == null ==> entryPos == 0 && pstate.RowNotBegun?)
      && (entryBuf != null ==>
            && 0 < entryBuf.Length <= SIZE_MAX
            && entryPos <= (if cfg.opts.appendNull then entryBuf.Length - 1 else entryBuf.Length))
      && WellFormed(Abs())
    }

    /** entry_size */
    function Size(): nat
      reads this`entryBuf
    {
      if entryBuf == null then 0 else entryBuf.Length
    }

    /** The step the buffer should grow by. */
    function Wanted(): nat
      reads this`entryBuf
    {
      if blkSize + Size() <= SIZE_MAX then blkSize else SIZE_MAX - Min(Size(), SIZE_MAX)
    }

    /** Of `script`, the last answers were refusals of the wanted step and of every half of it. */
    ghost predicate OutOfMemory(script: seq<bool>)
      reads this`entryBuf, this`grants
    {
      Left(script, grants) && exists k | 0 < k <= |Used(script, grants)| ::
        Halved(Wanted(), k) == 0 && forall i | |Used(script, grants)| - k <= i < |Used(script, grants)| :: !script[i]
    }

    /** Growth failed for a reason: the allocator refused every step, or there is none to grow by. */
    ghost predicate GrowthFailed(script: seq<bool>)
      reads this
    {
      (status == ENoMem && OutOfMemory(script)) || (status == ETooBig && Wanted() == 0)
    }

    lemma LongerScript(script: seq<bool>, rest: seq<bool>)
      requires Left(script, rest) && Left(rest, grants) && GrowthFailed(rest)
      ensures Left(script, grants) && GrowthFailed(script)
    {
      if OutOfMemory(rest) {
        var k :| 0 < k <= |Used(rest, grants)| && Halved(Wanted(), k) == 0
          && forall i | |Used(rest, grants)| - k <= i < |Used(rest, grants)| :: !rest[i];
        var d := |script| - |rest|;
        assert forall i | |Used(script, grants)| - k <= i < |Used(script, grants)| :: script[i] == rest[i - d];
        assert Halved(Wanted(), k) == 0 && k <= |Used(script, grants)|;
      }
    }

    constructor (cfg: Config, blkSize: nat, grants: seq<bool>)
      requires blkSize <= SIZE_MAX
      ensures Valid() && Abs() == START && status == Success && this.grants == grants
      ensures this.cfg == cfg && this.blkSize == blkSize && entryBuf == null
    {
      this.cfg, this.blkSize, this.grants := cfg, blkSize, grants;
      pstate, quoted, spaces := RowNotBegun, false, 0;
      entryBuf, entryPos, status := null, 0, Success;
    }

    /** `realloc_func`: on success keeps the old contents. */
    method Realloc(size: nat) returns (vp: array?<byte>)
      requires entryBuf != null ==> entryBuf.Length <= size
      modifies this`grants
      ensures vp == null <==> old(grants) != [] && !old(grants)[0]
      ensures grants == if old(grants) == [] then [] else old(grants)[1..]
      ensures vp != null ==> fresh(vp) && vp.Length == size
      ensures vp != null && entryBuf != null ==> vp[..entryBuf.Length] == entryBuf[..]
    {
      if grants != [] {
        var granted := grants[0];
        grants := grants[1..];
        if !granted {
          return null;
        }
      }
      vp := new byte[size](_ => 0);
      if entryBuf != null {
        forall i | 0 <= i < entryBuf.Length {
          vp[i] := entryBuf[i];
        }
      }
    }

    /** The loop of csv_increase_buffer: asks for `toAdd` bytes more; as long as the allocator
        refuses, for half as much, a quarter, ..., down to a single byte. */
    method Enlarged(size: nat, first: nat) returns (vp: array?<byte>, ghost k: nat)
      requires size == Size() && 0 < first
      modifies this`grants
      ensures Left(old(grants), grants)
      ensures vp != null ==> fresh(vp) && GrantsAfter(old(grants), k) && 0 < Halved(first, k)
      ensures vp != null ==> vp.Length == size + Halved(first, k)
      ensures vp != null ==> grants == if k < |old(grants)| then old(grants)[k + 1..] else []
      ensures vp != null && entryBuf != null ==> vp[..size] == entryBuf[..]
      ensures vp == null ==> 0 < k <= |old(grants)| && Halved(first, k) == 0 && grants == old(grants)[k..]
      ensures vp == null ==> forall i | 0 <= i < k :: !old(grants)[i]
    {
      var toAdd := first;
      k := 0;
      vp := Realloc(size + toAdd);
      while vp == null
        invariant 0 < toAdd == Halved(first, k)
        invariant forall i | 0 <= i < k && i < |old(grants)| :: !old(grants)[i]
        invariant vp == null ==> k < |old(grants)| && grants == old(grants)[k + 1..] && !old(grants)[k]
        invariant vp != null ==> GrantsAfter(old(grants), k) && fresh(vp) && vp.Length == size + toAdd
        invariant vp != null ==> grants == if k < |old(grants)| then old(grants)[k + 1..] else []
        invariant vp != null && entryBuf != null ==> vp[..size] == entryBuf[..]
        decreases toAdd, vp == null
      {
        toAdd, k := toAdd / 2, k + 1;
        if toAdd == 0 {
          return;
        }
        vp := Realloc(size + toAdd);
      }
    }

    /** `csv_increase_buffer`: grows by blk_size, or to the largest size, or by the first half of
        that, quarter, ..., that the allocator grants; gives up only when no step is left. */
    method IncreaseBuffer() returns (ok: bool)
      requires Valid()
      modifies this`entryBuf, this`status, this`grants
      ensures Valid() && Abs() == old(Abs())
      ensures ok ==> entryBuf != null && fresh(entryBuf) && status == old(status)
      ensures ok ==> exists k: nat ::
                && GrantsAfter(old(grants), k) && 0 < Halved(old(Wanted()), k)
                && Size() == old(Size()) + Halved(old(Wanted()), k)
                && grants == if k < |old(grants)| then old(grants)[k + 1..] else []
      ensures !ok ==> entryBuf == old(entryBuf) && GrowthFailed(old(grants))
      ensures Left(old(grants), grants)
    {
      var size := Size();
      var toAdd := blkSize;
      if size >= SIZE_MAX - toAdd {
        toAdd := SIZE_MAX - size;
      }
      if toAdd == 0 {
        status := ETooBig;
        return false;
      }
      ghost var was := Abs();
      var vp, k := Enlarged(size, toAdd);
      if vp == null {
        status := ENoMem;
        assert Halved(Wanted(), k) == 0;
        return false;
      }
      KeepsEntry(vp, size);
      entryBuf := vp;
      assert Abs() == was;
      return true;
    }

    lemma KeepsEntry(vp: array<byte>, size: nat)
      requires size == Size() <= vp.Length && (entryBuf != null ==> vp[..size] == entryBuf[..])
      requires entryPos <= size
      ensures entryBuf != null ==> vp[..entryPos] == entryBuf[..entryPos]
    {
      if entryBuf != null {
        assert vp[..entryPos] == vp[..size][..entryPos];
      }
    }

    /** SUBMIT_CHAR. */
    method SubmitChar(c: byte)
      requires entryBuf != null && entryPos < entryBuf.Length
      modifies this`entryPos, entryBuf
      ensures entryPos == old(entryPos) + 1
      ensures entryBuf[..entryPos] == old(entryBuf[..entryPos]) + [c]
    {
      entryBuf[entryPos] := c;
      entryPos := entryPos + 1;
    }

    /** SUBMIT_FIELD: trims an unquoted field, terminates it if asked to, and reports it. */
    method SubmitField() returns (call: Call)
      requires entryBuf != null && entryPos <= entryBuf.Length
      requires !quoted ==> spaces <= entryPos
      requires cfg.opts.appendNull ==> entryPos < entryBuf.Length
      modifies this`entryPos, this`quoted, this`spaces, this`pstate, entryBuf
      ensures entryPos == 0 && Abs() == BETWEEN
      ensures call == FieldCall(cfg, old(quoted), Unquoted(old(Abs())))
      ensures
        var text := Unquoted(old(Abs()));
        && |text| <= entryBuf.Length && entryBuf[..|text|] == text
        && (cfg.opts.appendNull ==> |text| < entryBuf.Length && entryBuf[|text|] == 0)
    {
      ghost var was := Unquoted(Abs());
      if !quoted {
        entryPos := entryPos - spaces;
      }
      if cfg.opts.appendNull {
        entryBuf[entryPos] := 0;
      }
      assert entryBuf[..entryPos] == was;
      if cfg.opts.emptyIsNull && !quoted && entryPos == 0 {
        call := Field(true, []);
      } else {
        call := Field(false, entryBuf[..entryPos]);
      }
      pstate := FieldNotBegun;
      entryPos, quoted, spaces := 0, false, 0;
    }

    /** SUBMIT_ROW. */
    method SubmitRow(c: int) returns (call: Call)
      requires entryBuf != null
      modifies this`entryPos, this`quoted, this`spaces, this`pstate
      ensures entryPos == 0 && Abs() == START && call == Row(c)
    {
      call := Row(c);
      pstate := RowNotBegun;
      entryPos, quoted, spaces := 0, false, 0;
    }

    /** There is room for one more character (and the NUL after it). */
    ghost predicate HasRoom()
      reads this, entryBuf
    {
      Valid() && entryBuf != null &&
      entryPos < (if cfg.opts.appendNull then entryBuf.Length - 1 else entryBuf.Length)
    }

    /** ROW_NOT_BEGUN and FIELD_NOT_BEGUN. */
    method ConsumeOutside(c: byte) returns (calls: seq<Call>)
      requires HasRoom() && (pstate.RowNotBegun? || pstate.FieldNotBegun?)
      modifies this`entryPos, this`quoted, this`spaces, this`pstate, entryBuf
      ensures Valid() && Advance(Abs(), calls) == StepOutside(cfg, old(Abs()), c)
    {
      calls := [];
      if c in cfg.spaces && c != cfg.delim {
      } else if c in cfg.terms {
        if pstate.FieldNotBegun? {
          var field := SubmitField();
          var row := SubmitRow(c);
          calls := [field, row];
        } else if cfg.opts.repallNl {
          var row := SubmitRow(c);
          calls := [row];
        }
      } else if c == cfg.delim {
        var field := SubmitField();
        calls := [field];
      } else if c == cfg.quote {
        pstate, quoted := FieldBegun, true;
      } else {
        pstate, quoted := FieldBegun, false;
        SubmitChar(c);
      }
    }

    /** FIELD_BEGUN. */
    method ConsumeInField(c: byte) returns (ok: bool, calls: seq<Call>)
      requires HasRoom() && pstate.FieldBegun?
      modifies this`entryPos, this`quoted, this`spaces, this`pstate, this`status, entryBuf
      ensures Valid()
      ensures ok ==> Advance(Abs(), calls) == StepInField(cfg, old(Abs()), c) && status == old(status)
      ensures !ok ==> StepInField(cfg, old(Abs()), c).ParseError? && Abs() == old(Abs()) && status == EParse
    {
      ok, calls := true, [];
      if c == cfg.quote {
        if quoted {
          SubmitChar(c);
          pstate := FieldMightHaveEnded;
        } else {
          if cfg.opts.strict {
            status := EParse;
            return false, [];
          }
          SubmitChar(c);
          spaces := 0;
        }
      } else if c == cfg.delim {
        if quoted {
          SubmitChar(c);
        } else {
          var field := SubmitField();
          calls := [field];
        }
      } else if c in cfg.terms {
        if !quoted {
          var field := SubmitField();
          var row := SubmitRow(c);
          calls := [field, row];
        } else {
          SubmitChar(c);
        }
      } else if !quoted && c in cfg.spaces {
        SubmitChar(c);
        spaces := spaces + 1;
      } else {
        SubmitChar(c);
        spaces := 0;
      }
    }

    /** Drops the closing quote and the spaces behind it, then SUBMIT_FIELD. */
    method SubmitQuoted() returns (call: Call)
      requires Valid() && pstate.FieldMightHaveEnded?
      modifies this`entryPos, this`quoted, this`spaces, this`pstate, entryBuf
      ensures entryPos == 0 && Abs() == BETWEEN && call == FieldCall(cfg, true, Closed(old(Abs())))
    {
      ghost var closed := Closed(Abs());
      entryPos := entryPos - (spaces + 1);
      assert entryBuf[..entryPos] == closed;
      call := SubmitField();
    }

    /** FIELD_MIGHT_HAVE_ENDED. */
    method ConsumeAfterQuote(c: byte) returns (ok: bool, calls: seq<Call>)
      requires HasRoom() && pstate.FieldMightHaveEnded?
      modifies this`entryPos, this`quoted, this`spaces, this`pstate, this`status, entryBuf
      ensures Valid()
      ensures ok ==> Advance(Abs(), calls) == StepAfterQuote(cfg, old(Abs()), c) && status == old(status)
      ensures !ok ==> StepAfterQuote(cfg, old(Abs()), c).ParseError? && Abs() == old(Abs()) && status == EParse
    {
      ok, calls := true, [];
      if c == cfg.delim {
        var field := SubmitQuoted();
        calls := [field];
      } else if c in cfg.terms {
        var field := SubmitQuoted();
        var row := SubmitRow(c);
        calls := [field, row];
      } else if c in cfg.spaces {
        SubmitChar(c);
        spaces := spaces + 1;
      } else if c == cfg.quote {
        if spaces != 0 {
          if cfg.opts.strict {
            status := EParse;
            return false, [];
          }
          spaces := 0;
          SubmitChar(c);
        } else {
          pstate := FieldBegun;
        }
      } else {
        if cfg.opts.strict {
          status := EParse;
          return false, [];
        }
        pstate := FieldBegun;
        spaces := 0;
        SubmitChar(c);
      }
    }

    /** The body of csv_parse's switch. */
    method Consume(c: byte) returns (ok: bool, calls: seq<Call>)
      requires HasRoom()
      modifies this`entryPos, this`quoted, this`spaces, this`pstate, this`status, entryBuf
      ensures Valid()
      ensures ok ==> Advance(Abs(), calls) == Step(cfg, old(Abs()), c) && status == old(status)
      ensures !ok ==> Step(cfg, old(Abs()), c).ParseError? && Abs() == old(Abs()) && status == EParse
    {
      match pstate
      case FieldBegun => ok, calls := ConsumeInField(c);
      case FieldMightHaveEnded => ok, calls := ConsumeAfterQuote(c);
      case _ =>
        calls := ConsumeOutside(c);
        ok := true;
    }

    /** Growth, when the buffer is missing or full. */
    method MakeRoom() returns (ok: bool)
      requires Valid()
      modifies this`entryBuf, this`status, this`grants
      ensures Valid() && Abs() == old(Abs())
      ensures entryBuf == old(entryBuf) || fresh(entryBuf)
      ensures ok ==> HasRoom() && status == old(status)
      ensures Left(old(grants), grants) && (!ok ==> GrowthFailed(old(grants)))
    {
      ok := true;
      if entryBuf == null {
        ok := IncreaseBuffer();
        if !ok {
          return;
        }
      }
      ghost var rest := grants;
      if entryPos == (if cfg.opts.appendNull then entryBuf.Length - 1 else entryBuf.Length) {
        ok := IncreaseBuffer();
        if !ok {
          LongerScript(old(grants), rest);
        }
      }
    }

    /** `csv_parse`: returns how many bytes were consumed and the callbacks made on the way.  It
        stops early only for a strict error at `s[pos]` or for a failed growth, and in both cases
        the object holds exactly the state of the consumed prefix. */
    method Parse(s: seq<byte>) returns (pos: nat, calls: seq<Call>)
      requires Valid()
      modifies this, entryBuf
      ensures Valid() && (entryBuf == old(entryBuf) || fresh(entryBuf))
      ensures pos <= |s| && Run(cfg, old(Abs()), s[..pos]).Is(Abs(), calls, true)
      ensures pos == |s| ==> status == old(status)
      ensures pos < |s| ==>
                || (status == EParse && Step(cfg, Abs(), s[pos]).ParseError?)
                || GrowthFailed(old(grants))
      ensures Left(old(grants), grants)
    {
      hide Step, Run, CsvParser.GrowthFailed, CsvParser.HasRoom, WellFormed;
      pos, calls := 0, [];
      ghost var st0 := Abs();
      RunNothing(cfg, st0);
      while pos < |s|
        invariant Valid() && (entryBuf == old(entryBuf) || fresh(entryBuf))
        invariant pos <= |s| && status == old(status) && Left(old(grants), grants)
        invariant Run(cfg, st0, s[..pos]).Is(Abs(), calls, true)
      {
        ghost var rest := grants;
        var room := MakeRoom();
        if !room {
          LongerScript(old(grants), rest);
          return;
        }
        RunSnoc(cfg, st0, s[..pos], s[pos]);
        assert s[..pos] + [s[pos]] == s[..pos + 1];
        var ok, reported := Consume(s[pos]);
        if !ok {
          return;
        }
        pos, calls := pos + 1, calls + reported;
      }
    }

    /** `csv_fini`: 0 (ok) or -1, with the last field and row reported. */
    method Finish() returns (ok: bool, calls: seq<Call>)
      requires Valid()
      modifies this, entryBuf
      ensures Valid() && entryBuf == old(entryBuf) && grants == old(grants)
      ensures ok ==> Fini(cfg, old(Abs())) == Some(calls) && Abs() == START && status == Success
      ensures !ok ==> Fini(cfg, old(Abs())) == None && Abs() == old(Abs()) && status == EParse
    {
      ok, calls := true, [];
      if pstate.FieldBegun? && quoted && cfg.opts.strict && cfg.opts.strictFini {
        status := EParse;
        return false, [];
      }
      if !pstate.RowNotBegun? {
        var field;
        if pstate.FieldMightHaveEnded? {
          field := SubmitQuoted();
        } else {
          field := SubmitField();
        }
        var row := SubmitRow(-1);
        calls := [field, row];
      }
      spaces, quoted, entryPos, status := 0, false, 0, Success;
      pstate := RowNotBegun;
    }
  }
}
