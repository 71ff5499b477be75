/** The csv printer of test_csv/libcsv.c and its round trip through the parser. */
module CsvPrinter {
  import opened Bytes
  import opened CsvModel

  function Escaped(c: byte, quote: byte): seq<byte> {
    if c == quote then [quote, quote] else [c]
  }

  /** The field with every quote character doubled. */
  function Doubled(src: seq<byte>, quote: byte): seq<byte> {
    if src == [] then []
    else Escaped(src[0], quote) + Doubled(src[1..], quote)
  }

  function Quoted(src: seq<byte>, quote: byte): seq<byte> {
    [quote] + Doubled(src, quote) + [quote]
  }

  lemma {:induction false} QuotedLength(src: seq<byte>, quote: byte)
    ensures |Quoted(src, quote)| <= 2 * |src| + 2
  {
    if src != [] {
      QuotedLength(src[1..], quote);
    }
  }

  lemma {:induction false} DoubledConcat(a: seq<byte>, b: seq<byte>, quote: byte)
    ensures Doubled(a + b, quote) == Doubled(a, quote) + Doubled(b, quote)
    decreases a
  {
    if a == [] {
      assert a + b == b;
    } else {
      assert (a + b)[0] == a[0] && (a + b)[1..] == a[1..] + b;
      DoubledConcat(a[1..], b, quote);
    }
  }

  lemma {:induction false} DoubledPlain(src: seq<byte>, quote: byte)
    requires forall i | 0 <= i < |src| :: src[i] != quote
    ensures Doubled(src, quote) == src
  {
    if src != [] {
      DoubledPlain(src[1..], quote);
      assert [src[0]] + src[1..] == src;
    }
  }

  /** What is printed: a field without quotes between two quotes, and each quote in it twice. */
  lemma PrintedText(a: seq<byte>, b: seq<byte>, quote: byte)
    requires forall i | 0 <= i < |a| :: a[i] != quote
    ensures Quoted(a, quote) == [quote] + a + [quote]
    ensures Quoted(a + [quote] + b, quote) == [quote] + a + [quote] + Quoted(b, quote)
  {
    DoubledPlain(a, quote);
    DoubledSnoc(a, quote, quote);
    DoubledConcat(a + [quote], b, quote);
    assert [quote] + (a + [quote, quote] + Doubled(b, quote)) + [quote] ==
           [quote] + a + [quote] + ([quote] + Doubled(b, quote) + [quote]);
  }

  lemma DoubledSnoc(a: seq<byte>, c: byte, quote: byte)
    ensures Doubled(a + [c], quote) == Doubled(a, quote) + Escaped(c, quote)
  {
    DoubledConcat(a, [c], quote);
    assert [c][1..] == [];
    assert Escaped(c, quote) + [] == Escaped(c, quote);
  }

  /** One guarded store of csv_write2: `*cdest++ = c` if there is room, then count the character. */
  method Put(dest: array?<byte>, destSize: nat, c: byte, ghost written: seq<byte>, chars: nat)
    returns (next: nat)
    requires destSize <= SIZE_MAX && chars == Min(|written|, SIZE_MAX)
    requires if dest == null then destSize == 0 else destSize <= dest.Length
    requires dest != null ==> dest[..Min(|written|, destSize)] == written[..Min(|written|, destSize)]
    modifies dest
    ensures next == Min(|written| + 1, SIZE_MAX)
    ensures dest != null ==>
              && var w := written + [c];
              && dest[..Min(|w|, destSize)] == w[..Min(|w|, destSize)]
              && dest[destSize..] == old(dest[destSize..])
  {
    if destSize > chars {
      dest[chars] := c;
    }
    next := if chars < SIZE_MAX then chars + 1 else chars;
  }

  /** `csv_write2`: writes as much of the quoted field as fits and returns the size of all of it
      (saturating); nothing beyond `destSize` is touched.  A null source yields 0. */
  method Write2(dest: array?<byte>, destSize: nat, src: array?<byte>, quote: byte) returns (chars: nat)
    requires destSize <= SIZE_MAX && (dest != null ==> destSize <= dest.Length)
    requires dest != src || dest == null
    modifies dest
    ensures src == null ==> chars == 0 && (dest != null ==> dest[..] == old(dest[..]))
    ensures src != null ==> chars == Min(|Quoted(src[..], quote)|, SIZE_MAX)
    ensures src != null && dest != null ==>
              && var fits := Min(|Quoted(src[..], quote)|, destSize);
              && dest[..fits] == Quoted(src[..], quote)[..fits]
              && dest[destSize..] == old(dest[destSize..])
  {
    if src == null {
      return 0;
    }
    var room := if dest == null then 0 else destSize;
    ghost var written: seq<byte> := [];
    chars := Put(dest, room, quote, written, 0);
    written := [quote];
    var i := 0;
    while i < src.Length
      invariant i <= src.Length && src[..] == old(src[..])
      invariant written == [quote] + Doubled(src[..i], quote)
      invariant chars == Min(|written|, SIZE_MAX)
      invariant dest != null ==> dest[..Min(|written|, room)] == written[..Min(|written|, room)]
      invariant dest != null ==> dest[room..] == old(dest[room..])
    {
      assert src[..i + 1] == src[..i] + [src[i]];
      DoubledSnoc(src[..i], src[i], quote);
      if src[i] == quote {
        chars := Put(dest, room, quote, written, chars);
        written := written + [quote];
      }
      chars := Put(dest, room, src[i], written, chars);
      written := written + [src[i]];
      i := i + 1;
    }
    assert src[..i] == src[..];
    chars := Put(dest, room, quote, written, chars);
    written := written + [quote];
    assert written == Quoted(src[..], quote);
  }

  /** A stream that accepts `room` characters more before fputc fails. */
  class Stream {
    var room: nat
    var out: seq<byte>

    constructor (room: nat)
      ensures this.room == room && out == []
    {
      this.room, out := room, [];
    }

    /** `fputc` */
    method Fputc(c: byte) returns (ok: bool)
      modifies this
      ensures ok == (old(room) > 0)
      ensures if ok then room == old(room) - 1 && out == old(out) + [c] else room == 0 && out == old(out)
    {
      if room == 0 {
        return false;
      }
      room, out := room - 1, out + [c];
      return true;
    }
  }

  /** `csv_fwrite2`: the same text, appended to a stream; it stops at the first character the stream
      refuses and reports EOF.  Without a source nothing is written. */
  method Fwrite2(stream: Stream, src: Option<seq<byte>>, quote: byte) returns (ok: bool)
    modifies stream
    ensures
      var full := if src.None? then [] else Quoted(src.value, quote);
      && ok == (|full| <= old(stream.room))
      && stream.out == old(stream.out) + full[..Min(|full|, old(stream.room))]
  {
    hide Quoted, Doubled;
    if src.None? {
      assert stream.out == stream.out + [];
      return true;
    }
    var s := src.value;
    ghost var full, was, room := Quoted(s, quote), stream.out, stream.room;
    ghost var n: nat := 0;
    QuotedHead(s, quote);
    assert full[..0] == [] && was + [] == was;
    ok := FputNext(stream, quote, full, was, room, n);
    if !ok {
      return;
    }
    n := 1;
    for i := 0 to |s|
      invariant n + stream.room == room && n <= |full|
      invariant stream.out == was + full[..n]
      invariant full[n..] == Doubled(s[i..], quote) + [quote]
    {
      DoubledHead(s, i, quote);
      ok, n := FputEscaped(stream, s[i], quote, full, was, room, n, Doubled(s[i + 1..], quote) + [quote]);
      if !ok {
        return;
      }
    }
    DoubledEnd(s, quote);
    ok := FputNext(stream, quote, full, was, room, n);
    assert n + 1 == |full| && full[..|full|] == full;
  }

  lemma QuotedHead(s: seq<byte>, quote: byte)
    ensures Quoted(s, quote) != [] && Quoted(s, quote)[0] == quote
    ensures Quoted(s, quote)[1..] == Doubled(s[0..], quote) + [quote]
  {
    assert s[0..] == s;
  }

  /** The body of the loop: the quote is written twice. */
  method FputEscaped(stream: Stream, c: byte, quote: byte, ghost full: seq<byte>, ghost was: seq<byte>, ghost room: nat,
                     ghost n: nat, ghost tail: seq<byte>)
    returns (ok: bool, ghost m: nat)
    requires n <= |full| && full[n..] == Escaped(c, quote) + tail
    requires n + stream.room == room && stream.out == was + full[..n]
    modifies stream
    ensures if ok then m <= |full| && m + stream.room == room && full[m..] == tail else m == room < |full|
    ensures stream.out == was + full[..m]
  {
    Rest(full, n, Escaped(c, quote), tail);
    m := n;
    if c == quote {
      ok := FputNext(stream, quote, full, was, room, m);
      if !ok {
        return;
      }
      m := m + 1;
    }
    ok := FputNext(stream, c, full, was, room, m);
    if ok {
      m := m + 1;
    }
  }

  /** fputc of the next character of the text. */
  method FputNext(stream: Stream, c: byte, ghost full: seq<byte>, ghost was: seq<byte>, ghost room: nat, ghost n: nat)
    returns (ok: bool)
    requires n < |full| && full[n] == c && n + stream.room == room && stream.out == was + full[..n]
    modifies stream
    ensures if ok then n + 1 + stream.room == room && stream.out == was + full[..n + 1]
            else n == room && stream.out == was + full[..n]
  {
    ok := stream.Fputc(c);
    Snoc(was, full, n);
  }

  lemma Snoc(was: seq<byte>, full: seq<byte>, n: nat)
    requires n < |full|
    ensures was + full[..n] + [full[n]] == was + full[..n + 1]
  {
  }

  lemma DoubledHead(s: seq<byte>, i: nat, quote: byte)
    requires i < |s|
    ensures Doubled(s[i..], quote) + [quote] == Escaped(s[i], quote) + (Doubled(s[i + 1..], quote) + [quote])
  {
    assert s[i..][1..] == s[i + 1..];
  }

  lemma DoubledEnd(s: seq<byte>, quote: byte)
    ensures Doubled(s[|s|..], quote) + [quote] == [quote]
  {
  }

  /** What comes at `n`: one or two characters, and then the rest. */
  lemma Rest(full: seq<byte>, n: nat, head: seq<byte>, tail: seq<byte>)
    requires n <= |full| && full[n..] == head + tail
    ensures n + |head| <= |full| && full[n + |head|..] == tail
    ensures forall k | 0 <= k < |head| :: full[n + k] == head[k]
  {
    assert full[n..][|head|..] == full[n + |head|..];
    assert forall k | 0 <= k < |head| :: full[n..][k] == full[n + k];
  }

  // ----- printing rows and parsing them back

  /** A row: its fields quoted, separated by `delim` and ended by a line feed. */
  function PrintRow(row: seq<seq<byte>>, quote: byte, delim: byte): seq<byte>
    requires row != []
  {
    Quoted(row[0], quote) +
    if |row| == 1 then [CSV_LF] else [delim] + PrintRow(row[1..], quote, delim)
  }

  predicate NonEmptyRows(rows: seq<seq<seq<byte>>>) {
    forall i | 0 <= i < |rows| :: rows[i] != []
  }

  function Print(rows: seq<seq<seq<byte>>>, quote: byte, delim: byte): seq<byte>
    requires NonEmptyRows(rows)
  {
    if rows == [] then [] else PrintRow(rows[0], quote, delim) + Print(rows[1..], quote, delim)
  }

  function RowCalls(row: seq<seq<byte>>): seq<Call> {
    if row == [] then [Row(CSV_LF as int)] else [Field(false, row[0])] + RowCalls(row[1..])
  }

  function PrintedCalls(rows: seq<seq<seq<byte>>>): seq<Call> {
    if rows == [] then [] else RowCalls(rows[0]) + PrintedCalls(rows[1..])
  }

  /** The quote is neither a space, a line end nor the delimiter, and a line feed ends a line. */
  predicate Separable(cfg: Config) {
    && cfg.quote !in cfg.spaces && cfg.quote !in cfg.terms && cfg.quote != cfg.delim
    && CSV_LF in cfg.terms && CSV_LF != cfg.delim
  }

  /** A run of `a + b`, when `a` is consumed silently. */
  lemma RunThen(cfg: Config, st: State, a: seq<byte>, mid: State, b: seq<byte>)
    requires WellFormed(st) && WellFormed(mid) && Run(cfg, st, a).Is(mid, [], true)
    ensures Run(cfg, st, a + b) == Run(cfg, mid, b)
  {
    RunConcat(cfg, st, a, b);
    assert [] + Run(cfg, mid, b).calls == Run(cfg, mid, b).calls;
  }

  function InQuotes(e: seq<byte>): State {
    State(FieldBegun, true, 0, e)
  }

  function AtClosingQuote(e: seq<byte>, quote: byte): State {
    State(FieldMightHaveEnded, true, 0, e + [quote])
  }

  /** One character of a quoted field, doubled if it is the quote. */
  lemma ParseEscaped(cfg: Config, e: seq<byte>, c: byte)
    requires Separable(cfg)
    ensures Run(cfg, InQuotes(e), Escaped(c, cfg.quote)).Is(InQuotes(e + [c]), [], true)
  {
    RunSnoc(cfg, InQuotes(e), [], c);
    assert [] + [c] == [c];
    if c == cfg.quote {
      RunSnoc(cfg, InQuotes(e), [c], c);
      assert [c] + [c] == [c, c];
    }
  }

  /** Inside quotes a doubled text is collected as the text, under every option. */
  lemma {:induction false} ParseDoubled(cfg: Config, e: seq<byte>, src: seq<byte>)
    requires Separable(cfg)
    ensures Run(cfg, InQuotes(e), Doubled(src, cfg.quote)).Is(InQuotes(e + src), [], true)
    decreases src
  {
    if src == [] {
      assert e + [] == e;
    } else {
      var longer, total := e + [src[0]], e + src;
      OneLonger(e, src);
      hide Run, Escaped, Separable, InQuotes;
      ParseDoubled(cfg, longer, src[1..]);
      ParseEscapedThen(cfg, e, src[0], Doubled(src[1..], cfg.quote), InQuotes(total));
    }
  }

  lemma OneLonger(e: seq<byte>, src: seq<byte>)
    requires src != []
    ensures e + [src[0]] + src[1..] == e + src
  {
  }

  lemma ParseEscapedThen(cfg: Config, e: seq<byte>, c: byte, rest: seq<byte>, end: State)
    requires Separable(cfg) && Run(cfg, InQuotes(e + [c]), rest).Is(end, [], true)
    ensures Run(cfg, InQuotes(e), Escaped(c, cfg.quote) + rest).Is(end, [], true)
  {
    ParseEscaped(cfg, e, c);
    hide Run;
    RunThen(cfg, InQuotes(e), Escaped(c, cfg.quote), InQuotes(e + [c]), rest);
  }

  /** A quoted field leaves the parser just behind its closing quote. */
  lemma ParseQuoted(cfg: Config, st: State, src: seq<byte>)
    requires Separable(cfg) && (st == START || st == BETWEEN)
    ensures Run(cfg, st, Quoted(src, cfg.quote)).Is(AtClosingQuote(src, cfg.quote), [], true)
  {
    var q := cfg.quote;
    var body := Doubled(src, q);
    RunSnoc(cfg, st, [], q);
    assert [] + [q] == [q];
    RunThen(cfg, st, [q], InQuotes([]), body);
    ParseDoubled(cfg, [], src);
    assert [] + src == src;
    RunSnoc(cfg, st, [q] + body, q);
  }

  /** Behind the closing quote, a delimiter or a line feed reports the field. */
  lemma StepAtClosingQuote(cfg: Config, src: seq<byte>, last: byte)
    requires Separable(cfg) && (last == cfg.delim || last == CSV_LF)
    ensures Step(cfg, AtClosingQuote(src, cfg.quote), last) ==
            if last == cfg.delim then Advance(BETWEEN, [Field(false, src)])
            else Advance(START, [Field(false, src), Row(last)])
  {
    assert Closed(AtClosingQuote(src, cfg.quote)) == src;
  }

  /** A quoted field and the character that ends it: a delimiter or a line feed. */
  lemma ParseField(cfg: Config, st: State, src: seq<byte>, last: byte)
    requires Separable(cfg) && (st == START || st == BETWEEN)
    requires last == cfg.delim || last == CSV_LF
    ensures Run(cfg, st, Quoted(src, cfg.quote) + [last]).Is(
              if last == cfg.delim then BETWEEN else START,
              if last == cfg.delim then [Field(false, src)] else [Field(false, src), Row(last)],
              true)
  {
    hide Step, Run;
    ParseQuoted(cfg, st, src);
    StepAtClosingQuote(cfg, src, last);
    RunSnoc(cfg, st, Quoted(src, cfg.quote), last);
  }

  lemma {:induction false} ParseRow(cfg: Config, st: State, row: seq<seq<byte>>)
    requires Separable(cfg) && row != [] && (st == START || st == BETWEEN)
    ensures Run(cfg, st, PrintRow(row, cfg.quote, cfg.delim)).Is(START, RowCalls(row), true)
    decreases row
  {
    hide Step, Run, Quoted;
    var head := Quoted(row[0], cfg.quote);
    if |row| == 1 {
      ParseField(cfg, st, row[0], CSV_LF);
      assert RowCalls(row[1..]) == [Row(CSV_LF as int)];
    } else {
      var rest := PrintRow(row[1..], cfg.quote, cfg.delim);
      ParseField(cfg, st, row[0], cfg.delim);
      RunConcat(cfg, st, head + [cfg.delim], rest);
      ParseRow(cfg, BETWEEN, row[1..]);
      assert head + ([cfg.delim] + rest) == head + [cfg.delim] + rest;
    }
  }

  /** Round trip, under every combination of options: printed rows parse back to exactly their
      fields and row ends, without a strict error, and leave nothing for csv_fini. */
  lemma {:induction false} PrintThenParse(cfg: Config, rows: seq<seq<seq<byte>>>)
    requires Separable(cfg) && NonEmptyRows(rows)
    ensures
      var text := Print(rows, cfg.quote, cfg.delim);
      Run(cfg, START, text).Is(START, PrintedCalls(rows), true)
    ensures Fini(cfg, START) == Some([])
    decreases rows
  {
    if rows != [] {
      ParseRow(cfg, START, rows[0]);
      PrintThenParse(cfg, rows[1..]);
      RunConcat(cfg, START, PrintRow(rows[0], cfg.quote, cfg.delim), Print(rows[1..], cfg.quote, cfg.delim));
    }
  }
}
