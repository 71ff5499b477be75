/** The canonicaliser of test_csv/main.c: parse a file with no options, print what was parsed. */
module CsvFix {
  import opened Bytes
  import opened CsvModel
  import opened CsvPrinter
  import opened CsvText
  import opened CsvParserObject

  const BLOCK: nat := 1024

  const FIX_CONFIG := DefaultConfig(NO_OPTIONS)

  /** All callbacks of a complete parse, csv_fini included. */
  function Calls(x: seq<byte>): seq<Call> {
    var r := Run(FIX_CONFIG, START, x);
    r.calls + Fini(FIX_CONFIG, r.st).value
  }

  /** `cb1` and `cb2`: append a quoted field and a comma; seek one back and overwrite. */
  function Emit(out: seq<byte>, call: Call): seq<byte> {
    match call
    case Field(isNull, text) =>
      out + (if isNull then [] else Quoted(text, CSV_QUOTE)) + [CSV_COMMA]
    case Row(_) => (if out == [] then [] else out[..|out| - 1]) + [CSV_LF]
  }

  function EmitAll(out: seq<byte>, calls: seq<Call>): seq<byte>
    decreases calls
  {
    if calls == [] then out else EmitAll(Emit(out, calls[0]), calls[1..])
  }

  /** The file the program writes. */
  function Fix(x: seq<byte>): seq<byte> {
    EmitAll([], Calls(x))
  }

  lemma {:induction false} EmitAllConcat(out: seq<byte>, a: seq<Call>, b: seq<Call>)
    ensures EmitAll(out, a + b) == EmitAll(EmitAll(out, a), b)
    decreases a
  {
    if a == [] {
      assert a + b == b;
    } else {
      assert (a + b)[0] == a[0] && (a + b)[1..] == a[1..] + b;
      EmitAllConcat(Emit(out, a[0]), a[1..], b);
    }
  }

  // ----- the rows a list of callbacks reports

  /** Rows reported by `calls`, when the fields `open` were reported before. */
  function Group(calls: seq<Call>, open: seq<seq<byte>>): seq<seq<seq<byte>>>
    decreases calls
  {
    if calls == [] then []
    else
      match calls[0]
      case Field(_, text) => Group(calls[1..], open + [text])
      case Row(_) => [open] + Group(calls[1..], [])
  }

  function Rows(x: seq<byte>): seq<seq<seq<byte>>> {
    Group(Calls(x), [])
  }

  /** Every row has a field, no field is a null pointer, and `open` says whether fields are
      pending before the calls; at the end none are. */
  predicate Proper(calls: seq<Call>, open: bool)
    decreases calls
  {
    if calls == [] then !open
    else
      match calls[0]
      case Field(isNull, _) => !isNull && Proper(calls[1..], true)
      case Row(_) => open && Proper(calls[1..], false)
  }

  /** What one character can report with options 0. */
  lemma StepCalls(st: State, c: byte)
    requires WellFormed(st)
    ensures
      var r := Step(FIX_CONFIG, st, c);
      && r.Advance?
      && (r.calls == [] ==> (st.pstate.RowNotBegun? || !r.st.pstate.RowNotBegun?))
      && (r.calls != [] ==> r.calls[0].Field? && !r.calls[0].isNull)
      && (|r.calls| == 1 ==> !r.st.pstate.RowNotBegun?)
      && (|r.calls| > 1 ==> |r.calls| == 2 && r.calls[1].Row?)
  {
  }

  /** Calls of that shape in front of proper ones. */
  lemma ProperPrefix(calls: seq<Call>, rest: seq<Call>, open: bool)
    requires calls != [] ==> calls[0].Field? && !calls[0].isNull
    requires |calls| > 1 ==> |calls| == 2 && calls[1].Row?
    ensures Proper(calls + rest, open) == Proper(rest, if calls == [] then open else |calls| == 1)
  {
    if calls == [] {
      assert calls + rest == rest;
    } else if |calls| == 1 {
      assert (calls + rest)[1..] == rest;
    } else {
      assert (calls + rest)[1..] == [calls[1]] + rest;
      assert ([calls[1]] + rest)[1..] == rest;
    }
  }

  /** With options 0 no row is reported without a field and none stays open after csv_fini. */
  lemma {:induction false} CallsAreProper(st: State, x: seq<byte>, open: bool)
    requires WellFormed(st) && (open ==> !st.pstate.RowNotBegun?)
    ensures
      var r := Run(FIX_CONFIG, st, x);
      Proper(r.calls + Fini(FIX_CONFIG, r.st).value, open)
    decreases x
  {
    hide Step;
    var r := Run(FIX_CONFIG, st, x);
    var last := Fini(FIX_CONFIG, r.st).value;
    if x == [] {
      ProperPrefix(last, [], open);
      assert [] + last == last + [];
    } else {
      var step := Step(FIX_CONFIG, st, x[0]);
      StepCalls(st, x[0]);
      var rest := Run(FIX_CONFIG, step.st, x[1..]);
      var still := if step.calls == [] then open else |step.calls| == 1;
      CallsAreProper(step.st, x[1..], still);
      ProperPrefix(step.calls, rest.calls + last, open);
      assert r.calls + last == step.calls + (rest.calls + last);
    }
  }

  /** The text of the pending fields, each followed by a comma. */
  function Pending(open: seq<seq<byte>>): seq<byte> {
    if open == [] then [] else Pending(open[..|open| - 1]) + Quoted(open[|open| - 1], CSV_QUOTE) + [CSV_COMMA]
  }

  /** Overwriting the comma after the last pending field completes the row. */
  lemma {:induction false} PendingBecomesRow(open: seq<seq<byte>>)
    requires open != []
    ensures Pending(open) != []
    ensures Pending(open)[..|Pending(open)| - 1] + [CSV_LF] == PrintRow(open, CSV_QUOTE, CSV_COMMA)
    decreases open
  {
    hide Quoted;
    PendingFront(open);
    if |open| > 1 {
      var head := Quoted(open[0], CSV_QUOTE) + [CSV_COMMA];
      var rest := Pending(open[1..]);
      PendingBecomesRow(open[1..]);
      assert Pending(open) == head + rest;
      assert (head + rest)[..|head + rest| - 1] + [CSV_LF] == head + (rest[..|rest| - 1] + [CSV_LF]);
    } else {
      assert Pending(open[1..]) == [];
      var head := Quoted(open[0], CSV_QUOTE);
      assert Pending(open) == head + [CSV_COMMA];
      assert Pending(open)[..|Pending(open)| - 1] == head;
    }
  }

  lemma Regroup(a: seq<byte>, b: seq<byte>, c: seq<byte>, d: seq<byte>)
    ensures a + b + c + d == a + (b + c + d)
  {
  }

  lemma {:induction false} PendingFront(open: seq<seq<byte>>)
    requires open != []
    ensures Pending(open) == Quoted(open[0], CSV_QUOTE) + [CSV_COMMA] + Pending(open[1..])
    decreases open
  {
    var n := |open| - 1;
    if n == 0 {
      assert open[..n] == [] && open[1..] == [];
      var text := Quoted(open[0], CSV_QUOTE) + [CSV_COMMA];
      assert [] + Quoted(open[0], CSV_QUOTE) + [CSV_COMMA] == text + [];
    } else {
      PendingFront(open[..n]);
      var init, tail := open[..n], open[1..];
      assert init[1..] == tail[..n - 1] && tail[n - 1] == open[n];
      Regroup(Quoted(open[0], CSV_QUOTE) + [CSV_COMMA], Pending(init[1..]), Quoted(open[n], CSV_QUOTE), [CSV_COMMA]);
    }
  }

  /** A callback turns the pending fields into more pending fields or into a finished row. */
  lemma EmitPending(pre: seq<byte>, open: seq<seq<byte>>, call: Call)
    requires call.Row? ==> open != []
    requires call.Field? ==> !call.isNull
    ensures Emit(pre + Pending(open), call) ==
            if call.Field? then pre + Pending(open + [call.text])
            else pre + PrintRow(open, CSV_QUOTE, CSV_COMMA)
  {
    hide Quoted, PrintRow;
    if call.Field? {
      assert (open + [call.text])[..|open|] == open;
      var text := Quoted(call.text, CSV_QUOTE);
      assert pre + Pending(open) + text + [CSV_COMMA] == pre + (Pending(open) + text + [CSV_COMMA]);
    } else {
      PendingBecomesRow(open);
      var p := Pending(open);
      assert (pre + p)[..|pre + p| - 1] + [CSV_LF] == pre + (p[..|p| - 1] + [CSV_LF]);
    }
  }

  /** Printing through the callbacks, comma overwriting included, prints the grouped rows. */
  lemma {:induction false} EmitPrintsRows(pre: seq<byte>, open: seq<seq<byte>>, calls: seq<Call>)
    requires Proper(calls, open != [])
    ensures NonEmptyRows(Group(calls, open))
    ensures EmitAll(pre + Pending(open), calls) == pre + Print(Group(calls, open), CSV_QUOTE, CSV_COMMA)
    decreases calls
  {
    hide PrintRow, Emit, Quoted;
    if calls != [] {
      EmitPending(pre, open, calls[0]);
      if calls[0].Field? {
        EmitPrintsRows(pre, open + [calls[0].text], calls[1..]);
      } else {
        var row := PrintRow(open, CSV_QUOTE, CSV_COMMA);
        EmitPrintsRows(pre + row, [], calls[1..]);
        PrintCons(pre, open, Group(calls[1..], []));
      }
    }
  }

  lemma PrintCons(pre: seq<byte>, row: seq<seq<byte>>, rows: seq<seq<seq<byte>>>)
    requires row != [] && NonEmptyRows(rows)
    ensures NonEmptyRows([row] + rows)
    ensures pre + Print([row] + rows, CSV_QUOTE, CSV_COMMA) ==
            pre + PrintRow(row, CSV_QUOTE, CSV_COMMA) + Print(rows, CSV_QUOTE, CSV_COMMA)
    ensures pre + PrintRow(row, CSV_QUOTE, CSV_COMMA) + Pending([]) == pre + PrintRow(row, CSV_QUOTE, CSV_COMMA)
  {
    hide PrintRow;
    assert ([row] + rows)[1..] == rows;
  }

  /** The output is the printed form of the rows of the input. */
  lemma FixPrintsRows(x: seq<byte>)
    ensures NonEmptyRows(Rows(x)) && Fix(x) == Print(Rows(x), CSV_QUOTE, CSV_COMMA)
  {
    CallsAreProper(START, x, false);
    EmitPrintsRows([], [], Calls(x));
    assert [] + Pending([]) == [];
    var text := Print(Rows(x), CSV_QUOTE, CSV_COMMA);
    assert [] + text == text;
  }

  lemma {:induction false} GroupRow(row: seq<seq<byte>>, open: seq<seq<byte>>, rest: seq<Call>)
    ensures Group(RowCalls(row) + rest, open) == [open + row] + Group(rest, [])
    decreases row
  {
    var calls := RowCalls(row) + rest;
    if row == [] {
      assert calls[1..] == rest && open + row == open;
    } else {
      assert calls[1..] == RowCalls(row[1..]) + rest;
      GroupRow(row[1..], open + [row[0]], rest);
      assert open + [row[0]] + row[1..] == open + row;
    }
  }

  lemma {:induction false} GroupPrinted(rows: seq<seq<seq<byte>>>)
    ensures Group(PrintedCalls(rows), []) == rows
    decreases rows
  {
    if rows != [] {
      GroupRow(rows[0], [], PrintedCalls(rows[1..]));
      GroupPrinted(rows[1..]);
      assert [] + rows[0] == rows[0];
    }
  }

  /** The canonical file has the same rows of fields as the original one. */
  lemma FixPreservesRows(x: seq<byte>)
    ensures Rows(Fix(x)) == Rows(x)
  {
    FixPrintsRows(x);
    PrintThenParse(FIX_CONFIG, Rows(x));
    GroupPrinted(Rows(x));
    assert Calls(Fix(x)) == PrintedCalls(Rows(x));
  }

  /** Canonicalising twice is canonicalising once. */
  lemma FixIdempotent(x: seq<byte>)
    ensures Fix(Fix(x)) == Fix(x)
  {
    FixPreservesRows(x);
    FixPrintsRows(x);
    FixPrintsRows(Fix(x));
  }

  /** Two files have the same canonical form exactly when they have the same rows. */
  lemma FixIsCanonical(x: seq<byte>, y: seq<byte>)
    ensures Fix(x) == Fix(y) <==> Rows(x) == Rows(y)
  {
    FixPrintsRows(x);
    FixPrintsRows(y);
    FixPreservesRows(x);
    FixPreservesRows(y);
  }

  /** A file of plain fields, with or without blanks around them, becomes exactly their texts, quoted. */
  lemma FixPlainFile(rows: seq<seq<Written>>)
    requires forall i | 0 <= i < |rows| :: rows[i] != [] && Plain(FIX_CONFIG, rows[i])
    ensures
      var x := Lines(rows, CSV_COMMA);
      Rows(x) == AllTexts(rows) && NonEmptyRows(Rows(x)) && Fix(x) == Print(AllTexts(rows), CSV_QUOTE, CSV_COMMA)
  {
    hide Run, Group, Print, Fix, EmitAll;
    PlainLines(FIX_CONFIG, rows);
    var x := Lines(rows, CSV_COMMA);
    GroupPrinted(AllTexts(rows));
    assert Calls(x) == PrintedCalls(AllTexts(rows));
    FixPrintsRows(x);
  }

  /** `a ,b` and a line feed become `"a","b"` and a line feed. */
  lemma FixExample()
    ensures Fix([0x61, CSV_SPACE, CSV_COMMA, 0x62, CSV_LF]) ==
            [CSV_QUOTE, 0x61, CSV_QUOTE, CSV_COMMA, CSV_QUOTE, 0x62, CSV_QUOTE, CSV_LF]
  {
    hide Run, Group, Fix, EmitAll, Quoted;
    var a, b := Written([], [0x61], [CSV_SPACE]), Written([], [0x62], []);
    var line := [a, b];
    var rows := [line];
    FixPlainFile(rows);
    assert line[1..] == [b] && rows[1..] == [];
    assert Line([b], CSV_COMMA) == [0x62, CSV_LF];
    assert Line(line, CSV_COMMA) == [0x61, CSV_SPACE, CSV_COMMA, 0x62, CSV_LF];
    assert Lines(rows, CSV_COMMA) == Line(line, CSV_COMMA) + [] == [0x61, CSV_SPACE, CSV_COMMA, 0x62, CSV_LF];
    var row: seq<seq<byte>> := [[0x61], [0x62]];
    assert Texts(line) == row && AllTexts(rows) == [row] && [row][1..] == [] && row[1..] == [[0x62]];
    QuotedLetter(0x61);
    QuotedLetter(0x62);
    assert PrintRow(row[1..], CSV_QUOTE, CSV_COMMA) == [CSV_QUOTE, 0x62, CSV_QUOTE, CSV_LF];
    assert PrintRow(row, CSV_QUOTE, CSV_COMMA) ==
           [CSV_QUOTE, 0x61, CSV_QUOTE, CSV_COMMA, CSV_QUOTE, 0x62, CSV_QUOTE, CSV_LF];
    assert Print([row], CSV_QUOTE, CSV_COMMA) == PrintRow(row, CSV_QUOTE, CSV_COMMA) + []
        == PrintRow(row, CSV_QUOTE, CSV_COMMA);
    assert Fix(Lines(rows, CSV_COMMA)) == Print([row], CSV_QUOTE, CSV_COMMA);
  }

  lemma QuotedLetter(c: byte)
    requires c != CSV_QUOTE
    ensures Quoted([c], CSV_QUOTE) == [CSV_QUOTE, c, CSV_QUOTE]
  {
    assert [c][1..] == [] && Doubled([], CSV_QUOTE) == [];
    assert Doubled([c], CSV_QUOTE) == [c] + [];
  }

  // ----- the program

  /** The output file; the position is always at the end. */
  class OutFile {
    var data: seq<byte>

    constructor ()
      ensures data == []
    {
      data := [];
    }

    /** `cb1` */
    method FieldCallback(isNull: bool, text: seq<byte>)
      modifies this
      ensures data == Emit(old(data), Field(isNull, text))
    {
      if !isNull {
        var stream := new Stream(2 * |text| + 2);
        QuotedLength(text, CSV_QUOTE);
        var ok := Fwrite2(stream, Some(text), CSV_QUOTE);
        assert stream.out == Quoted(text, CSV_QUOTE);
        data := data + stream.out;
      }
      data := data + [CSV_COMMA];
    }

    /** `cb2`: a seek to before the beginning fails and leaves the position alone. */
    method RowCallback(c: int)
      modifies this
      ensures data == Emit(old(data), Row(c))
    {
      if |data| >= 1 {
        data := data[..|data| - 1] + [CSV_LF];
      } else {
        data := data + [CSV_LF];
      }
    }

    method Callbacks(calls: seq<Call>)
      modifies this
      ensures data == EmitAll(old(data), calls)
    {
      for i := 0 to |calls|
        invariant EmitAll(data, calls[i..]) == EmitAll(old(data), calls)
      {
        match calls[i]
        case Field(isNull, text) => FieldCallback(isNull, text);
        case Row(c) => RowCallback(c);
      }
    }
  }

  /** The parser has consumed `x` and the file holds what its callbacks wrote. */
  ghost predicate InSync(p: CsvParser, outfile: OutFile, x: seq<byte>)
    reads p, p.entryBuf, outfile
  {
    && p.Valid() && p.cfg == FIX_CONFIG
    && var r := Run(FIX_CONFIG, START, x);
    && r.ok && p.Abs() == r.st && outfile.data == EmitAll([], r.calls)
  }

  /** One successful csv_parse call with its callbacks. */
  lemma SyncBlock(x: seq<byte>, block: seq<byte>)
    ensures
      var r := Run(FIX_CONFIG, START, x);
      var more := Run(FIX_CONFIG, r.st, block);
      var all := Run(FIX_CONFIG, START, x + block);
      && r.ok && more.ok && all.ok && all.st == more.st
      && EmitAll([], all.calls) == EmitAll(EmitAll([], r.calls), more.calls)
  {
    LenientConsumesAll(FIX_CONFIG, START, x);
    var r := Run(FIX_CONFIG, START, x);
    LenientConsumesAll(FIX_CONFIG, r.st, block);
    RunConcat(FIX_CONFIG, START, x, block);
    EmitAllConcat([], r.calls, Run(FIX_CONFIG, r.st, block).calls);
  }

  lemma NothingRead(p: CsvParser, outfile: OutFile)
    requires p.Valid() && p.cfg == FIX_CONFIG && p.Abs() == START && outfile.data == []
    ensures InSync(p, outfile, [])
  {
  }

  /** The parse and callbacks of one block read from the input. */
  method ParseBlock(p: CsvParser, outfile: OutFile, block: seq<byte>, ghost x: seq<byte>) returns (ok: bool)
    requires InSync(p, outfile, x)
    modifies p, p.entryBuf, outfile
    ensures p.entryBuf == old(p.entryBuf) || fresh(p.entryBuf)
    ensures ok ==> InSync(p, outfile, x + block)
    ensures Left(old(p.grants), p.grants) && (!ok ==> p.GrowthFailed(old(p.grants)))
  {
    SyncBlock(x, block);
    var used, reported := p.Parse(block);
    outfile.Callbacks(reported);
    ok := used == |block|;
    if ok {
      assert block[..used] == block;
    } else {
      StepCalls(p.Abs(), block[used]);
    }
  }

  /** csv_fini with its callbacks completes the file. */
  method FinishFile(p: CsvParser, outfile: OutFile, ghost x: seq<byte>)
    requires InSync(p, outfile, x)
    modifies p, p.entryBuf, outfile
    ensures outfile.data == Fix(x)
  {
    hide Step, Run;
    ghost var r := Run(FIX_CONFIG, START, x);
    var ok, last := p.Finish();
    EmitAllConcat([], r.calls, last);
    outfile.Callbacks(last);
  }

  /** The input file; `faults` says which of the coming reads meet an error, before or after some
      bytes. */
  class InFile {
    const data: seq<byte>
    var pos: nat
    /** What ferror reports. */
    var error: bool
    var faults: seq<bool>

    constructor (data: seq<byte>, faults: seq<bool>)
      ensures this.data == data && pos == 0 && !error && this.faults == faults
    {
      this.data, this.faults, pos, error := data, faults, 0, false;
    }

    /** `fread`: nothing only at the end or after an error. */
    method Fread(len: nat) returns (block: seq<byte>)
      requires pos <= |data| && len > 0
      modifies this
      ensures old(pos) <= pos <= |data| && block == data[old(pos)..pos] && |block| <= len
      ensures error == (old(error) || (old(faults) != [] && old(faults)[0]))
      ensures faults == if old(faults) == [] then [] else old(faults)[1..]
      ensures block == [] ==> error || pos == |data|
    {
      if faults != [] {
        error, faults := error || faults[0], faults[1..];
      }
      var most := Min(len, |data| - pos);
      assert most == 0 ==> pos == |data|;
      var n: nat :| n <= most && (n == 0 ==> error || most == 0);
      block := data[pos..pos + n];
      pos := pos + n;
    }
  }

  /** Why the program gives up: the parser stopped early, or the input could not be read. */
  datatype Failure = ParseFailed(status: Status) | ReadFailed

  /** `main`: reads blocks of any size up to 1024 and feeds them to the parser.  The program fails
      if a read failed, and otherwise only if the allocator refused every step down to a single
      byte or the entry cannot grow, and then removes its output; otherwise the output is the
      canonical form, however the input was read. */
  method FixFile(infile: InFile, grants: seq<bool>)
    returns (outfile: OutFile?, failure: Option<Failure>, ghost p: CsvParser)
    requires infile.pos == 0 && !infile.error
    modifies infile
    ensures outfile == null <==> failure.Some?
    ensures outfile != null ==> outfile.data == Fix(infile.data) && !infile.error
    ensures failure == Some(ReadFailed) ==> infile.error
    ensures failure.Some? && failure.value.ParseFailed? ==>
              p.GrowthFailed(grants) && failure.value.status == p.status
    ensures Left(old(infile.faults), infile.faults)
    ensures infile.error <==> true in Used(old(infile.faults), infile.faults)
  {
    hide Step, Fix, Run, EmitAll, Fini, InSync, CsvParser.Valid, CsvParser.GrowthFailed, Used;
    var parser := new CsvParser(FIX_CONFIG, MEM_BLK_SIZE, grants);
    p := parser;
    var output := new OutFile();
    NothingRead(parser, output);
    assert infile.data[..0] == [];
    ghost var faults := infile.faults;
    var block := infile.Fread(BLOCK);
    FirstUsed(faults);
    ghost var done: nat := 0;
    while block != []
      invariant done <= infile.pos <= |infile.data| && block == infile.data[done..infile.pos]
      invariant block == [] ==> infile.error || infile.pos == |infile.data|
      invariant fresh(p) && fresh(output) && p == parser && (p.entryBuf != null ==> fresh(p.entryBuf))
      invariant InSync(p, output, infile.data[..done]) && Left(grants, p.grants)
      invariant Left(old(infile.faults), infile.faults)
      invariant infile.error <==> true in Used(old(infile.faults), infile.faults)
      decreases |infile.data| - done
    {
      assert infile.data[..infile.pos] == infile.data[..done] + block;
      ghost var rest, unread := p.grants, infile.faults;
      var ok := ParseBlock(parser, output, block, infile.data[..done]);
      if !ok {
        p.LongerScript(grants, rest);
        return null, Some(ParseFailed(parser.status)), p;
      }
      done := infile.pos;
      block := infile.Fread(BLOCK);
      if unread != [] {
        UsedOneMore(old(infile.faults), unread);
      }
    }
    FinishFile(parser, output, infile.data[..done]);
    if infile.error {
      return null, Some(ReadFailed), p;
    }
    assert infile.data[..done] == infile.data;
    return output, None, p;
  }
}
