/** What text csv fields have, told by the characters of the input and without the parser's states:
    unquoted and quoted fields with blanks around them, empty fields, and what strictness refuses. */
module CsvText {
  import opened Bytes
  import opened CsvModel
  import opened CsvPrinter

  /** A space that is not also a quote, the delimiter or a line end. */
  predicate Blank(cfg: Config, c: byte) {
    c in cfg.spaces && c != cfg.quote && c != cfg.delim && c !in cfg.terms
  }

  predicate Blanks(cfg: Config, b: seq<byte>) {
    forall i | 0 <= i < |b| :: Blank(cfg, b[i])
  }

  /** What may stand inside an unquoted field; without CSV_STRICT a quote may. */
  predicate Inner(cfg: Config, c: byte) {
    c != cfg.delim && c !in cfg.terms && (c == cfg.quote ==> !cfg.opts.strict && c !in cfg.spaces)
  }

  /** The text of an unquoted field: it begins with no quote and no space and does not end in one. */
  predicate PlainText(cfg: Config, t: seq<byte>) {
    && t != [] && (forall i | 0 <= i < |t| :: Inner(cfg, t[i]))
    && t[0] != cfg.quote && t[0] !in cfg.spaces && t[|t| - 1] !in cfg.spaces
  }

  /** What ends a field: the delimiter, or a line end that is not the quote. */
  predicate EndsField(cfg: Config, c: byte) {
    c == cfg.delim || (c in cfg.terms && c != cfg.quote)
  }

  /** The end of a field with this call: behind a delimiter the row goes on. */
  predicate FieldEnds(cfg: Config, r: Outcome, call: Call, last: byte) {
    if last == cfg.delim then r.Is(BETWEEN, [call], true) else r.Is(START, [call, Row(last)], true)
  }

  predicate Outside(st: State) {
    st == START || st == BETWEEN
  }

  // ----- unquoted fields

  /** An unquoted field was read up to here; the last `spaces` characters are spaces. */
  function Pending(text: seq<byte>, spaces: nat): State {
    State(FieldBegun, false, spaces, text)
  }

  function TrailingSpaces(cfg: Config, t: seq<byte>): (n: nat)
    ensures n <= |t|
  {
    if t == [] || t[|t| - 1] !in cfg.spaces then 0 else 1 + TrailingSpaces(cfg, t[..|t| - 1])
  }

  lemma {:induction false} SkipBlanks(cfg: Config, st: State, b: seq<byte>)
    requires Outside(st) && Blanks(cfg, b)
    ensures Run(cfg, st, b).Is(st, [], true)
    decreases b
  {
    if b != [] {
      SkipBlanks(cfg, st, b[1..]);
    }
  }

  /** A prefix of a plain text, and blanks behind it, are kept. */
  lemma {:induction false} ReadText(cfg: Config, st: State, t: seq<byte>)
    requires Outside(st) && t != [] && (forall i | 0 <= i < |t| :: Inner(cfg, t[i]))
    requires t[0] != cfg.quote && t[0] !in cfg.spaces
    ensures TrailingSpaces(cfg, t) < |t| && Run(cfg, st, t).Is(Pending(t, TrailingSpaces(cfg, t)), [], true)
    decreases t
  {
    var n := |t| - 1;
    var init, c := t[..n], t[n];
    assert t == init + [c];
    if n == 0 {
      RunSnoc(cfg, st, [], c);
      assert [] + [c] == [c];
    } else {
      ReadText(cfg, st, init);
      RunSnoc(cfg, st, init, c);
      assert Inner(cfg, c);
    }
  }

  lemma {:induction false} SpacesBehind(cfg: Config, t: seq<byte>, b: seq<byte>)
    requires t != [] && t[|t| - 1] !in cfg.spaces && Blanks(cfg, b)
    ensures TrailingSpaces(cfg, t + b) == |b|
    decreases b
  {
    if b == [] {
      assert t + b == t;
    } else {
      var all := t + b;
      assert all[..|all| - 1] == t + b[..|b| - 1];
      SpacesBehind(cfg, t, b[..|b| - 1]);
    }
  }

  /** Blanks, a plain text and blanks leave the text pending, without the blanks before it. */
  lemma ReadField(cfg: Config, st: State, b0: seq<byte>, t: seq<byte>, b: seq<byte>)
    requires Outside(st) && Blanks(cfg, b0) && PlainText(cfg, t) && Blanks(cfg, b)
    ensures Run(cfg, st, b0 + (t + b)).Is(Pending(t + b, |b|), [], true)
  {
    hide Run;
    SkipBlanks(cfg, st, b0);
    forall i | 0 <= i < |t + b|
      ensures Inner(cfg, (t + b)[i])
    {
      if i >= |t| {
        assert Blank(cfg, b[i - |t|]);
      }
    }
    ReadText(cfg, st, t + b);
    SpacesBehind(cfg, t, b);
    RunThen(cfg, st, b0, st, t + b);
  }

  /** An unquoted field is its text, without the blanks around it. */
  lemma UnquotedField(cfg: Config, st: State, b0: seq<byte>, t: seq<byte>, b: seq<byte>, last: byte)
    requires Outside(st) && Blanks(cfg, b0) && PlainText(cfg, t) && Blanks(cfg, b)
    requires EndsField(cfg, last) && last != cfg.quote
    ensures FieldEnds(cfg, Run(cfg, st, b0 + (t + b) + [last]), Field(false, t), last)
  {
    ReadField(cfg, st, b0, t, b);
    RunSnoc(cfg, st, b0 + (t + b), last);
    assert (t + b)[..|t + b| - |b|] == t;
    assert Step(cfg, Pending(t + b, |b|), last) ==
           if last == cfg.delim then Advance(BETWEEN, [Field(false, t)])
           else Advance(START, [Field(false, t), Row(last)]);
    hide Step, Run;
  }

  /** At the end of the input too. */
  lemma UnquotedAtEnd(cfg: Config, st: State, b0: seq<byte>, t: seq<byte>, b: seq<byte>)
    requires Outside(st) && Blanks(cfg, b0) && PlainText(cfg, t) && Blanks(cfg, b)
    ensures
      var r := Run(cfg, st, b0 + (t + b));
      r.ok && r.calls == [] && Fini(cfg, r.st) == Some([Field(false, t), Row(-1)])
  {
    hide Run, Step;
    ReadField(cfg, st, b0, t, b);
    assert (t + b)[..|t + b| - |b|] == t;
  }

  /** Strict parsing stops in front of a quote inside an unquoted field. */
  lemma StrictQuote(cfg: Config, st: State, b0: seq<byte>, t: seq<byte>, b: seq<byte>)
    requires Outside(st) && Blanks(cfg, b0) && PlainText(cfg, t) && Blanks(cfg, b) && cfg.opts.strict
    ensures Run(cfg, st, b0 + (t + b) + [cfg.quote]).Is(Pending(t + b, |b|), [], false)
  {
    ReadField(cfg, st, b0, t, b);
    RunSnoc(cfg, st, b0 + (t + b), cfg.quote);
    hide Run;
  }

  /** Otherwise the quote is text like any other, and so are the blanks in front of it. */
  lemma LenientQuote(cfg: Config, st: State, b0: seq<byte>, t: seq<byte>, b: seq<byte>)
    requires Outside(st) && Blanks(cfg, b0) && PlainText(cfg, t) && Blanks(cfg, b) && !cfg.opts.strict
    ensures Run(cfg, st, b0 + (t + b) + [cfg.quote]).Is(Pending(t + b + [cfg.quote], 0), [], true)
  {
    ReadField(cfg, st, b0, t, b);
    RunSnoc(cfg, st, b0 + (t + b), cfg.quote);
  }

  // ----- empty fields and empty lines

  /** The call for a field without quotes and without text. */
  function EmptyField(cfg: Config): Call {
    Field(cfg.opts.emptyIsNull, [])
  }

  /** Nothing but blanks in front of a delimiter is an empty field. */
  lemma EmptyBeforeDelimiter(cfg: Config, st: State, b0: seq<byte>)
    requires Outside(st) && Blanks(cfg, b0) && cfg.delim !in cfg.terms
    ensures Run(cfg, st, b0 + [cfg.delim]).Is(BETWEEN, [EmptyField(cfg)], true)
  {
    SkipBlanks(cfg, st, b0);
    RunSnoc(cfg, st, b0, cfg.delim);
    hide Run;
  }

  /** So is nothing but blanks between a delimiter and a line end. */
  lemma EmptyBeforeLineEnd(cfg: Config, b0: seq<byte>, last: byte)
    requires Blanks(cfg, b0) && last in cfg.terms && last !in cfg.spaces
    ensures Run(cfg, BETWEEN, b0 + [last]).Is(START, [EmptyField(cfg), Row(last)], true)
  {
    SkipBlanks(cfg, BETWEEN, b0);
    RunSnoc(cfg, BETWEEN, b0, last);
    hide Run;
  }

  /** A line of blanks is no row, except under CSV_REPALL_NL an empty one. */
  lemma EmptyLine(cfg: Config, b0: seq<byte>, last: byte)
    requires Blanks(cfg, b0) && last in cfg.terms && last !in cfg.spaces
    ensures Run(cfg, START, b0 + [last]).Is(START, if cfg.opts.repallNl then [Row(last)] else [], true)
  {
    SkipBlanks(cfg, START, b0);
    RunSnoc(cfg, START, b0, last);
    hide Run;
  }

  /** At the end of the input: behind a delimiter an empty field, behind a line end nothing. */
  lemma EmptyAtEnd(cfg: Config, b0: seq<byte>)
    requires Blanks(cfg, b0)
    ensures Fini(cfg, Run(cfg, BETWEEN, b0).st) == Some([EmptyField(cfg), Row(-1)])
    ensures Fini(cfg, Run(cfg, START, b0).st) == Some([])
  {
    hide Run;
    SkipBlanks(cfg, BETWEEN, b0);
    SkipBlanks(cfg, START, b0);
  }

  // ----- quoted fields

  /** Behind a closing quote and blanks. */
  function Behind(cfg: Config, src: seq<byte>, b: seq<byte>): State {
    State(FieldMightHaveEnded, true, |b|, src + [cfg.quote] + b)
  }

  lemma {:induction false} BlanksBehind(cfg: Config, src: seq<byte>, b: seq<byte>)
    requires Blanks(cfg, b)
    ensures Run(cfg, AtClosingQuote(src, cfg.quote), b).Is(Behind(cfg, src, b), [], true)
    decreases b
  {
    if b == [] {
      assert src + [cfg.quote] + [] == src + [cfg.quote];
    } else {
      var n := |b| - 1;
      BlanksBehind(cfg, src, b[..n]);
      assert b == b[..n] + [b[n]] && Blank(cfg, b[n]);
      RunSnoc(cfg, AtClosingQuote(src, cfg.quote), b[..n], b[n]);
      assert src + [cfg.quote] + b[..n] + [b[n]] == src + [cfg.quote] + b;
      hide Run;
    }
  }

  /** Blanks, a quoted text and blanks. */
  lemma ReadQuoted(cfg: Config, st: State, b0: seq<byte>, src: seq<byte>, b: seq<byte>)
    requires Separable(cfg) && Outside(st) && Blanks(cfg, b0) && Blanks(cfg, b)
    ensures Run(cfg, st, b0 + (Quoted(src, cfg.quote) + b)).Is(Behind(cfg, src, b), [], true)
  {
    hide Run, Quoted;
    SkipBlanks(cfg, st, b0);
    ParseQuoted(cfg, st, src);
    BlanksBehind(cfg, src, b);
    RunThen(cfg, st, Quoted(src, cfg.quote), AtClosingQuote(src, cfg.quote), b);
    RunThen(cfg, st, b0, st, Quoted(src, cfg.quote) + b);
  }

  lemma BehindIsClosed(cfg: Config, src: seq<byte>, b: seq<byte>)
    ensures WellFormed(Behind(cfg, src, b)) && Closed(Behind(cfg, src, b)) == src
  {
    var all := src + [cfg.quote] + b;
    assert all[..|all| - (|b| + 1)] == src;
  }

  /** A quoted field is what stands between its quotes, without the blanks around them. */
  lemma QuotedField(cfg: Config, st: State, b0: seq<byte>, src: seq<byte>, b: seq<byte>, last: byte)
    requires Separable(cfg) && Outside(st) && Blanks(cfg, b0) && Blanks(cfg, b) && EndsField(cfg, last)
    ensures FieldEnds(cfg, Run(cfg, st, b0 + (Quoted(src, cfg.quote) + b) + [last]), Field(false, src), last)
  {
    ReadQuoted(cfg, st, b0, src, b);
    BehindIsClosed(cfg, src, b);
    RunSnoc(cfg, st, b0 + (Quoted(src, cfg.quote) + b), last);
    hide Run, Quoted, Closed;
  }

  lemma QuotedAtEnd(cfg: Config, st: State, b0: seq<byte>, src: seq<byte>, b: seq<byte>)
    requires Separable(cfg) && Outside(st) && Blanks(cfg, b0) && Blanks(cfg, b)
    ensures
      var r := Run(cfg, st, b0 + (Quoted(src, cfg.quote) + b));
      r.ok && r.calls == [] && Fini(cfg, r.st) == Some([Field(false, src), Row(-1)])
  {
    hide Run, Quoted, Closed, Step;
    ReadQuoted(cfg, st, b0, src, b);
    BehindIsClosed(cfg, src, b);
  }

  /** A field whose quote is never closed ends with the input, or is the error of CSV_STRICT_FINI. */
  lemma UnclosedAtEnd(cfg: Config, st: State, b0: seq<byte>, src: seq<byte>)
    requires Separable(cfg) && Outside(st) && Blanks(cfg, b0)
    ensures
      var r := Run(cfg, st, b0 + ([cfg.quote] + Doubled(src, cfg.quote)));
      && r.ok && r.calls == []
      && Fini(cfg, r.st) ==
         if cfg.opts.strict && cfg.opts.strictFini then None else Some([Field(false, src), Row(-1)])
  {
    var q := cfg.quote;
    SkipBlanks(cfg, st, b0);
    RunSnoc(cfg, st, [], q);
    assert [] + [q] == [q];
    hide Run, Doubled;
    ParseDoubled(cfg, [], src);
    assert [] + src == src;
    RunThen(cfg, st, [q], InQuotes([]), Doubled(src, q));
    RunThen(cfg, st, b0, st, [q] + Doubled(src, q));
  }

  /** Behind a closing quote only blanks, the delimiter, a line end and, if it comes at once, another
      quote are allowed: anything else stops a strict parse, and otherwise shows that the quote
      belonged to the text. */
  lemma JunkBehindQuote(cfg: Config, st: State, b0: seq<byte>, src: seq<byte>, b: seq<byte>, c: byte)
    requires Separable(cfg) && Outside(st) && Blanks(cfg, b0) && Blanks(cfg, b)
    requires c != cfg.delim && c !in cfg.terms && c !in cfg.spaces && (c == cfg.quote ==> b != [])
    ensures
      var r := Run(cfg, st, b0 + (Quoted(src, cfg.quote) + b) + [c]);
      var text := src + [cfg.quote] + b + [c];
      if cfg.opts.strict then r.Is(Behind(cfg, src, b), [], false)
      else r.Is(State(if c == cfg.quote then FieldMightHaveEnded else FieldBegun, true, 0, text), [], true)
  {
    ReadQuoted(cfg, st, b0, src, b);
    RunSnoc(cfg, st, b0 + (Quoted(src, cfg.quote) + b), c);
    hide Run, Quoted;
  }

  // ----- lines without quotes

  /** An unquoted field as it stands in a line. */
  datatype Written = Written(before: seq<byte>, text: seq<byte>, after: seq<byte>)

  predicate Plain(cfg: Config, fields: seq<Written>) {
    forall i | 0 <= i < |fields| ::
      Blanks(cfg, fields[i].before) && PlainText(cfg, fields[i].text) && Blanks(cfg, fields[i].after)
  }

  /** A line: the fields, separated by delimiters and ended by a line feed. */
  function Line(fields: seq<Written>, delim: byte): seq<byte>
    requires fields != []
  {
    fields[0].before + (fields[0].text + fields[0].after) +
    if |fields| == 1 then [CSV_LF] else [delim] + Line(fields[1..], delim)
  }

  function Texts(fields: seq<Written>): seq<seq<byte>> {
    seq(|fields|, i requires 0 <= i < |fields| => fields[i].text)
  }

  /** A line of plain fields is a row of exactly their texts. */
  lemma {:induction false} PlainLine(cfg: Config, st: State, fields: seq<Written>)
    requires Separable(cfg) && Outside(st) && fields != [] && Plain(cfg, fields)
    ensures Run(cfg, st, Line(fields, cfg.delim)).Is(START, RowCalls(Texts(fields)), true)
    decreases fields
  {
    hide Run, PlainText, Blanks;
    var f := fields[0];
    var last := if |fields| == 1 then CSV_LF else cfg.delim;
    var head := f.before + (f.text + f.after) + [last];
    UnquotedField(cfg, st, f.before, f.text, f.after, last);
    assert Texts(fields)[0] == f.text && Texts(fields)[1..] == Texts(fields[1..]);
    if |fields| == 1 {
      assert Texts(fields[1..]) == [];
      assert RowCalls(Texts(fields)) == [Field(false, f.text)] + [Row(CSV_LF as int)];
    } else {
      var rest := Line(fields[1..], cfg.delim);
      PlainLine(cfg, BETWEEN, fields[1..]);
      RunConcat(cfg, st, head, rest);
      assert head + rest == f.before + (f.text + f.after) + ([cfg.delim] + rest);
    }
  }

  function Lines(rows: seq<seq<Written>>, delim: byte): seq<byte>
    requires forall i | 0 <= i < |rows| :: rows[i] != []
  {
    if rows == [] then [] else Line(rows[0], delim) + Lines(rows[1..], delim)
  }

  function AllTexts(rows: seq<seq<Written>>): seq<seq<seq<byte>>> {
    seq(|rows|, i requires 0 <= i < |rows| => Texts(rows[i]))
  }

  /** Lines of plain fields are the rows of their texts. */
  lemma {:induction false} PlainLines(cfg: Config, rows: seq<seq<Written>>)
    requires Separable(cfg) && forall i | 0 <= i < |rows| :: rows[i] != [] && Plain(cfg, rows[i])
    ensures Run(cfg, START, Lines(rows, cfg.delim)).Is(START, PrintedCalls(AllTexts(rows)), true)
    decreases rows
  {
    hide Run, Plain;
    if rows == [] {
      SkipBlanks(cfg, START, []);
    } else {
      PlainLine(cfg, START, rows[0]);
      PlainLines(cfg, rows[1..]);
      RunConcat(cfg, START, Line(rows[0], cfg.delim), Lines(rows[1..], cfg.delim));
      assert AllTexts(rows)[0] == Texts(rows[0]) && AllTexts(rows)[1..] == AllTexts(rows[1..]);
    }
  }
}
