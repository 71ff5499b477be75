/** The csv parser of test_csv/libcsv.c as a state machine over bytes: what one character does
    (`Step`), what a whole input does (`Run`) and what the end of the input does (`Fini`). */
module CsvModel {
  import opened Bytes

  const CSV_TAB: byte := 0x09
  const CSV_SPACE: byte := 0x20
  const CSV_CR: byte := 0x0d
  const CSV_LF: byte := 0x0a
  const CSV_COMMA: byte := 0x2c
  const CSV_QUOTE: byte := 0x22

  datatype PState = RowNotBegun | FieldNotBegun | FieldBegun | FieldMightHaveEnded

  /** The option bits of csv.h, one flag each. */
  datatype Options = Options(strict: bool, repallNl: bool, strictFini: bool, appendNull: bool, emptyIsNull: bool)

  /** Everything of the parser object that a run does not change.  The `is_space` and `is_term`
      callbacks are given by the bytes they accept. */
  datatype Config = Config(opts: Options, quote: byte, delim: byte, spaces: set<byte>, terms: set<byte>)

  const NO_OPTIONS := Options(false, false, false, false, false)

  function DefaultConfig(opts: Options): Config {
    Config(opts, CSV_QUOTE, CSV_COMMA, {CSV_SPACE, CSV_TAB}, {CSV_CR, CSV_LF})
  }

  datatype State = State(pstate: PState, quoted: bool, spaces: nat, entry: seq<byte>)

  /** One invocation of `cb1` (a field) or `cb2` (the end of a row). */
  datatype Call = Field(isNull: bool, text: seq<byte>) | Row(c: int)

  const START := State(RowNotBegun, false, 0, [])

  /** The bookkeeping of spaces: `entry_pos - spaces` and `entry_pos - (spaces + 1)` never wrap. */
  predicate WellFormed(st: State) {
    match st.pstate
    case RowNotBegun => st == START
    case FieldNotBegun => st == State(FieldNotBegun, false, 0, [])
    case FieldBegun => if st.quoted then st.spaces == 0 else st.spaces <= |st.entry|
    case FieldMightHaveEnded => st.quoted && st.spaces + 1 <= |st.entry|
  }

  /** The field reported when the current entry ends (SUBMIT_FIELD). */
  function FieldCall(cfg: Config, quoted: bool, entry: seq<byte>): Call {
    Field(cfg.opts.emptyIsNull && !quoted && entry == [], entry)
  }

  function Unquoted(st: State): seq<byte>
    requires !st.quoted ==> st.spaces <= |st.entry|
  {
    if st.quoted then st.entry else st.entry[..|st.entry| - st.spaces]
  }

  /** The entry without the closing quote and the spaces after it. */
  function Closed(st: State): seq<byte>
    requires st.spaces + 1 <= |st.entry|
  {
    st.entry[..|st.entry| - (st.spaces + 1)]
  }

  datatype StepResult = Advance(st: State, calls: seq<Call>) | ParseError

  const BETWEEN := State(FieldNotBegun, false, 0, [])

  function EndField(cfg: Config, quoted: bool, entry: seq<byte>): StepResult {
    Advance(BETWEEN, [FieldCall(cfg, quoted, entry)])
  }

  function EndRow(cfg: Config, quoted: bool, entry: seq<byte>, c: int): StepResult {
    Advance(START, [FieldCall(cfg, quoted, entry), Row(c)])
  }

  function Keep(st: State, pstate: PState, spaces: nat, c: byte): StepResult {
    Advance(State(pstate, st.quoted, spaces, st.entry + [c]), [])
  }

  function StepOutside(cfg: Config, st: State, c: byte): StepResult
    requires st.pstate.RowNotBegun? || st.pstate.FieldNotBegun?
  {
    if c in cfg.spaces && c != cfg.delim then Advance(st, [])
    else if c in cfg.terms then
      if st.pstate.FieldNotBegun? then EndRow(cfg, false, [], c)
      else if cfg.opts.repallNl then Advance(START, [Row(c)])
      else Advance(st, [])
    else if c == cfg.delim then EndField(cfg, false, [])
    else if c == cfg.quote then Advance(State(FieldBegun, true, 0, []), [])
    else Advance(State(FieldBegun, false, 0, [c]), [])
  }

  function StepInField(cfg: Config, st: State, c: byte): StepResult
    requires WellFormed(st) && st.pstate.FieldBegun?
  {
    if c == cfg.quote then
      if st.quoted then Keep(st, FieldMightHaveEnded, st.spaces, c)
      else if cfg.opts.strict then ParseError
      else Keep(st, FieldBegun, 0, c)
    else if c == cfg.delim then
      if st.quoted then Keep(st, FieldBegun, st.spaces, c) else EndField(cfg, false, Unquoted(st))
    else if c in cfg.terms then
      if st.quoted then Keep(st, FieldBegun, st.spaces, c) else EndRow(cfg, false, Unquoted(st), c)
    else if !st.quoted && c in cfg.spaces then Keep(st, FieldBegun, st.spaces + 1, c)
    else Keep(st, FieldBegun, 0, c)
  }

  function StepAfterQuote(cfg: Config, st: State, c: byte): StepResult
    requires WellFormed(st) && st.pstate.FieldMightHaveEnded?
  {
    if c == cfg.delim then EndField(cfg, true, Closed(st))
    else if c in cfg.terms then EndRow(cfg, true, Closed(st), c)
    else if c in cfg.spaces then Keep(st, FieldMightHaveEnded, st.spaces + 1, c)
    else if c == cfg.quote then
      if st.spaces == 0 then Advance(st.(pstate := FieldBegun), [])
      else if cfg.opts.strict then ParseError
      else Keep(st, FieldMightHaveEnded, 0, c)
    else if cfg.opts.strict then ParseError
    else Keep(st, FieldBegun, 0, c)
  }

  function Step(cfg: Config, st: State, c: byte): (r: StepResult)
    requires WellFormed(st)
    ensures r.Advance? ==> WellFormed(r.st)
  {
    match st.pstate
    case FieldBegun => StepInField(cfg, st, c)
    case FieldMightHaveEnded => StepAfterQuote(cfg, st, c)
    case _ => StepOutside(cfg, st, c)
  }

  /** The state in which a run ends, what it reported, and whether it met no strict error. */
  datatype Outcome = Outcome(st: State, calls: seq<Call>, ok: bool)
  {
    predicate Is(st: State, calls: seq<Call>, ok: bool) {
      this.st == st && this.calls == calls && this.ok == ok
    }
  }

  /** A run over `s`; it stops in front of the first character that is a strict error. */
  function Run(cfg: Config, st: State, s: seq<byte>): (r: Outcome)
    requires WellFormed(st)
    ensures WellFormed(r.st)
    decreases s
  {
    if s == [] then Outcome(st, [], true)
    else
      match Step(cfg, st, s[0])
      case ParseError => Outcome(st, [], false)
      case Advance(next, calls) =>
        var rest := Run(cfg, next, s[1..]);
        Outcome(rest.st, calls + rest.calls, rest.ok)
  }

  /** `csv_fini`: the calls it makes, or None when it reports CSV_EPARSE. */
  function Fini(cfg: Config, st: State): Option<seq<Call>>
    requires WellFormed(st)
  {
    if st.pstate.FieldBegun? && st.quoted && cfg.opts.strict && cfg.opts.strictFini then None
    else
      match st.pstate
      case RowNotBegun => Some([])
      case FieldMightHaveEnded => Some([FieldCall(cfg, true, Closed(st)), Row(-1)])
      case _ => Some([FieldCall(cfg, st.quoted, Unquoted(st)), Row(-1)])
  }

  /** Parsing `a` and then `b` is parsing `a + b`; a strict error in `a` hides `b`. */
  lemma {:induction false} RunConcat(cfg: Config, st: State, a: seq<byte>, b: seq<byte>)
    requires WellFormed(st)
    ensures
      var ra := Run(cfg, st, a);
      var rb := Run(cfg, ra.st, b);
      if ra.ok then Run(cfg, st, a + b).Is(rb.st, ra.calls + rb.calls, rb.ok)
      else Run(cfg, st, a + b) == ra
    decreases a
  {
    if a == [] {
      assert a + b == b;
      var rb := Run(cfg, st, b);
      assert [] + rb.calls == rb.calls;
    } else {
      assert (a + b)[0] == a[0] && (a + b)[1..] == a[1..] + b;
      var step := Step(cfg, st, a[0]);
      if step.Advance? {
        RunConcat(cfg, step.st, a[1..], b);
        var ra := Run(cfg, step.st, a[1..]);
        var rb := Run(cfg, ra.st, b);
        assert step.calls + (ra.calls + rb.calls) == (step.calls + ra.calls) + rb.calls;
      }
    }
  }

  lemma RunNothing(cfg: Config, st: State)
    requires WellFormed(st)
    ensures Run(cfg, st, []).Is(st, [], true)
  {
  }

  /** One more character. */
  lemma RunSnoc(cfg: Config, st: State, a: seq<byte>, c: byte)
    requires WellFormed(st) && Run(cfg, st, a).ok
    ensures
      var ra := Run(cfg, st, a);
      match Step(cfg, ra.st, c)
      case ParseError => Run(cfg, st, a + [c]).Is(ra.st, ra.calls, false)
      case Advance(next, calls) => Run(cfg, st, a + [c]).Is(next, ra.calls + calls, true)
  {
    RunConcat(cfg, st, a, [c]);
    var ra := Run(cfg, st, a);
    match Step(cfg, ra.st, c)
    case ParseError => assert ra.calls + [] == ra.calls;
    case Advance(next, calls) =>
      assert [c][1..] == [];
      assert calls + [] == calls;
  }

  /** Feeding the pieces one after the other, each from the state the previous one left. */
  function RunPieces(cfg: Config, st: State, pieces: seq<seq<byte>>): (r: Outcome)
    requires WellFormed(st)
    ensures WellFormed(r.st)
    decreases pieces
  {
    if pieces == [] then Outcome(st, [], true)
    else
      var head := Run(cfg, st, pieces[0]);
      if !head.ok then head
      else
        var rest := RunPieces(cfg, head.st, pieces[1..]);
        Outcome(rest.st, head.calls + rest.calls, rest.ok)
  }

  /** Cutting the input into pieces, in any way, changes neither the calls nor the final state
      nor whether there is a strict error. */
  lemma {:induction false} ChunkIndependence(cfg: Config, st: State, pieces: seq<seq<byte>>)
    requires WellFormed(st)
    ensures RunPieces(cfg, st, pieces) == Run(cfg, st, Flatten(pieces))
    decreases pieces
  {
    if pieces != [] {
      RunConcat(cfg, st, pieces[0], Flatten(pieces[1..]));
      var head := Run(cfg, st, pieces[0]);
      if head.ok {
        ChunkIndependence(cfg, head.st, pieces[1..]);
      }
    }
  }

  /** A parse that stopped early (growth failed) and was resumed with the rest of the input
      agrees with one uninterrupted parse. */
  lemma ResumeAgrees(cfg: Config, st: State, s: seq<byte>, stop: nat)
    requires WellFormed(st) && stop <= |s| && Run(cfg, st, s[..stop]).ok
    ensures
      var first := Run(cfg, st, s[..stop]);
      var second := Run(cfg, first.st, s[stop..]);
      Run(cfg, st, s).Is(second.st, first.calls + second.calls, second.ok)
  {
    assert s[..stop] + s[stop..] == s;
    RunConcat(cfg, st, s[..stop], s[stop..]);
  }

  /** Without CSV_STRICT there are no parse errors. */
  lemma {:induction false} LenientConsumesAll(cfg: Config, st: State, s: seq<byte>)
    requires WellFormed(st) && !cfg.opts.strict
    ensures Run(cfg, st, s).ok
    decreases s
  {
    if s != [] {
      LenientConsumesAll(cfg, Step(cfg, st, s[0]).st, s[1..]);
    }
  }
}
