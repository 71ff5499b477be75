/** The text of a multipart body: what `http_populate_multipart_form` of kore-3.2.0/src/http.c finds
    in it if no system call fails, and what that is for a well-formed form. */
module FormText {
  import opened Bytes
  import opened KoreBuf

  const CRLF: seq<byte> := [0x0d, 0x0a]
  const CRLFCRLF: seq<byte> := [0x0d, 0x0a, 0x0d, 0x0a]
  const DASHES: seq<byte> := [0x2d, 0x2d]

  /** What a header line of a part asks for. */
  datatype Line = Upload | FormField | Other

  /** The header lines in the text of a part's headers; how they are told apart is not modelled. */
  type Lines = seq<byte> -> seq<Line>

  datatype Slice = Slice(position: nat, length: nat)

  /** What was found: uploads as slices of the text, and the values of form fields. */
  datatype Form = Form(uploads: seq<Slice>, fields: seq<seq<byte>>)

  const NOTHING: Form := Form([], [])

  /** A line that found the next boundary `n` bytes from `k` on; the value ends two bytes before it
      and is recorded unless it is empty. */
  function Noted(form: Form, line: Line, text: seq<byte>, k: nat, n: nat): Form
    requires k + n <= |text|
  {
    if n < 3 then form
    else if line.Upload? then form.(uploads := form.uploads + [Slice(k, n - 2)])
    else form.(fields := form.fields + [text[k..k + n - 2]])
  }

  /** What is found in the end, if `form` was found before `k` and these header lines of the part
      that begins there are still to be looked at. */
  function Found(text: seq<byte>, boundary: seq<byte>, lines: Lines, k: nat, pending: seq<Line>, form: Form): Form
    requires k <= |text|
    decreases |text| - k, |pending|
  {
    if pending != [] then
      if pending[0].Other? then Found(text, boundary, lines, k, pending[1..], form)
      else
        match IndexOf(text[k..], boundary)
        case None => form
        case Some(n) =>
          Found(text, boundary, lines, k + n + |boundary|, pending[1..], Noted(form, pending[0], text, k, n))
    else
      match IndexOf(text[k..], CRLF)
      case None => form
      case Some(i) => FoundInPart(text, boundary, lines, k + i + 2, form)
  }

  /** The same from behind the line end of a boundary line on. */
  function FoundInPart(text: seq<byte>, boundary: seq<byte>, lines: Lines, k: nat, form: Form): Form
    requires k <= |text|
    decreases |text| - k, 0
  {
    match IndexOf(text[k..], CRLFCRLF)
    case None => form
    case Some(j) => Found(text, boundary, lines, k + j + 4, lines(text[k..k + j]), form)
  }

  lemma NextLine(text: seq<byte>, boundary: seq<byte>, lines: Lines, k: nat, form: Form)
    requires k <= |text|
    ensures Found(text, boundary, lines, k, [], form) ==
            match IndexOf(text[k..], CRLF)
            case None => form
            case Some(i) => FoundInPart(text, boundary, lines, k + i + 2, form)
  {
  }

  lemma HeadersFound(text: seq<byte>, boundary: seq<byte>, lines: Lines, k: nat, form: Form)
    requires k <= |text|
    ensures FoundInPart(text, boundary, lines, k, form) ==
            match IndexOf(text[k..], CRLFCRLF)
            case None => form
            case Some(j) => Found(text, boundary, lines, k + j + 4, lines(text[k..k + j]), form)
  {
  }

  /** Without another boundary nothing more is found. */
  lemma {:induction false} NothingMore(text: seq<byte>, boundary: seq<byte>, lines: Lines, k: nat,
                                       pending: seq<Line>, form: Form)
    requires k <= |text| && IndexOf(text[k..], boundary) == None
    ensures Found(text, boundary, lines, k, pending, form) == form
    decreases |text| - k, |pending|
  {
    hide IndexOf;
    if pending != [] {
      if pending[0].Other? {
        NothingMore(text, boundary, lines, k, pending[1..], form);
      }
    } else if IndexOf(text[k..], CRLF).Some? {
      var h := k + IndexOf(text[k..], CRLF).value + 2;
      if IndexOf(text[h..], CRLFCRLF).Some? {
        var j := IndexOf(text[h..], CRLFCRLF).value;
        NoneBehind(text, boundary, k, h + j + 4 - k);
        NothingMore(text, boundary, lines, h + j + 4, lines(text[h..h + j]), form);
      }
    }
  }

  lemma NoneBehind(text: seq<byte>, needle: seq<byte>, start: nat, n: nat)
    requires start + n <= |text| && IndexOf(text[start..], needle) == None
    ensures IndexOf(text[start + n..], needle) == None
  {
    IndexOfIsFirst(text[start..], needle);
    hide IndexOf;
    var rest := text[start + n..];
    assert text[start..][n..] == rest;
    forall j | 0 <= j < |rest|
      ensures !At(rest, needle, j)
    {
      AtSuffix(text[start..], needle, n, j);
    }
    AbsentIsIndexOf(rest, needle);
  }

  // ----- a well-formed form

  datatype Part = Part(head: seq<byte>, content: seq<byte>)

  /** The header lines that count. */
  function Significant(ls: seq<Line>): seq<Line> {
    if ls == [] then []
    else (if ls[0].Other? then [] else [ls[0]]) + Significant(ls[1..])
  }

  /** A part that is an upload or a field, whose headers hold no empty line and whose content, with
      the line end behind it, holds no boundary. */
  ghost predicate WellFormed(part: Part, boundary: seq<byte>, lines: Lines) {
    && Significant(lines(part.head)) in [[Upload], [FormField]]
    && FirstAt(part.head + CRLFCRLF, CRLFCRLF, |part.head|)
    && FirstAt(part.content + CRLF + boundary, boundary, |part.content| + 2)
  }

  ghost predicate AllWellFormed(parts: seq<Part>, boundary: seq<byte>, lines: Lines) {
    forall i | 0 <= i < |parts| :: WellFormed(parts[i], boundary, lines)
  }

  /** What follows the first boundary of a form (section 4.1 of RFC 7578). */
  function AfterBoundary(parts: seq<Part>, boundary: seq<byte>): seq<byte> {
    if parts == [] then DASHES + CRLF
    else
      CRLF + parts[0].head + CRLFCRLF + parts[0].content + CRLF + boundary + AfterBoundary(parts[1..], boundary)
  }

  /** The contents of the parts of this kind, without the empty ones. */
  function ContentsOf(parts: seq<Part>, lines: Lines, kind: Line): seq<seq<byte>> {
    if parts == [] then []
    else
      (if Significant(lines(parts[0].head)) == [kind] && parts[0].content != [] then [parts[0].content] else []) +
      ContentsOf(parts[1..], lines, kind)
  }

  function SliceText(text: seq<byte>, s: Slice): seq<byte> {
    if s.position + s.length <= |text| then text[s.position..s.position + s.length] else []
  }

  /** The bytes of the uploads. */
  function Texts(text: seq<byte>, slices: seq<Slice>): (t: seq<seq<byte>>)
    ensures |t| == |slices|
  {
    seq(|slices|, i requires 0 <= i < |slices| => SliceText(text, slices[i]))
  }

  lemma {:induction false} OnlyOthers(text: seq<byte>, boundary: seq<byte>, lines: Lines, k: nat,
                                      pending: seq<Line>, form: Form)
    requires k <= |text| && Significant(pending) == []
    ensures Found(text, boundary, lines, k, pending, form) == Found(text, boundary, lines, k, [], form)
    decreases pending
  {
    hide IndexOf;
    if pending != [] {
      OnlyOthers(text, boundary, lines, k, pending[1..], form);
    }
  }

  /** The one header line that counts. */
  lemma {:induction false} OneLine(text: seq<byte>, boundary: seq<byte>, lines: Lines, k: nat,
                                   pending: seq<Line>, form: Form, line: Line, n: nat)
    requires k <= |text| && Significant(pending) == [line] && IndexOf(text[k..], boundary) == Some(n)
    ensures Found(text, boundary, lines, k, pending, form) ==
            Found(text, boundary, lines, k + n + |boundary|, [], Noted(form, line, text, k, n))
    decreases pending
  {
    hide IndexOf, Noted;
    if pending[0].Other? {
      assert [] + Significant(pending[1..]) == Significant(pending[1..]);
      OneLine(text, boundary, lines, k, pending[1..], form, line, n);
    } else {
      var more := Significant(pending[1..]);
      assert Significant(pending) == [pending[0]] + more;
      assert |[pending[0]] + more| == 1 && ([pending[0]] + more)[0] == pending[0];
      OnlyOthers(text, boundary, lines, k + n + |boundary|, pending[1..], Noted(form, line, text, k, n));
    }
  }

  lemma FirstInPrefix(s: seq<byte>, key: seq<byte>, n: nat, rest: seq<byte>)
    requires FirstAt(s, key, n) && |s| == n + |key|
    ensures IndexOf(s + rest, key) == Some(n)
  {
    var t := s + rest;
    assert t[n..n + |key|] == s[n..n + |key|];
    forall j: nat | j < n
      ensures !At(t, key, j)
    {
      assert t[j..j + |key|] == s[j..j + |key|];
      assert !At(s, key, j);
    }
    FirstIsIndexOf(t, key, n);
  }

  lemma Cut(text: seq<byte>, k: nat, a: seq<byte>, rest: seq<byte>)
    requires k <= |text| && text[k..] == a + rest
    ensures k + |a| <= |text| && text[k + |a|..] == rest && text[k..k + |a|] == a
  {
    assert text[k..][..|a|] == a && text[k..][|a|..] == rest;
  }

  lemma FirstOfAll(key: seq<byte>, rest: seq<byte>)
    ensures IndexOf(key + rest, key) == Some(0)
  {
    assert (key + rest)[0..|key|] == key;
    FirstIsIndexOf(key + rest, key, 0);
  }

  /** One part: its content is recorded, and the search goes on behind the next boundary. */
  lemma OnePart(text: seq<byte>, boundary: seq<byte>, lines: Lines, k: nat, part: Part, rest: seq<byte>,
                form: Form) returns (start: nat, end: nat, line: Line)
    requires k <= |text| && WellFormed(part, boundary, lines)
    requires text[k..] == CRLF + part.head + CRLFCRLF + part.content + CRLF + boundary + rest
    ensures Significant(lines(part.head)) == [line] && !line.Other? && start + |part.content| + 2 <= end <= |text|
    ensures text[start..start + |part.content|] == part.content && text[end..] == rest
    ensures Found(text, boundary, lines, k, [], form) ==
            Found(text, boundary, lines, end, [], Noted(form, line, text, start, |part.content| + 2))
  {
    hide IndexOf, Noted, FirstAt, Significant, Found, FoundInPart;
    var head, value := part.head + CRLFCRLF, part.content + CRLF + boundary;
    assert text[k..] == CRLF + (head + (value + rest));
    Cut(text, k, CRLF, head + (value + rest));
    FirstOfAll(CRLF, head + (value + rest));
    Cut(text, k + 2, head, value + rest);
    FirstInPrefix(head, CRLFCRLF, |part.head|, value + rest);
    assert text[k + 2..k + 2 + |part.head|] == head[..|part.head|] == part.head;
    start, line := k + 2 + |head|, Significant(lines(part.head))[0];
    Cut(text, start, value, rest);
    assert text[start..start + |part.content|] == value[..|part.content|] == part.content;
    FirstInPrefix(value, boundary, |part.content| + 2, rest);
    end := start + |value|;
    NextLine(text, boundary, lines, k, form);
    HeadersFound(text, boundary, lines, k + 2, form);
    OneLine(text, boundary, lines, start, lines(part.head), form, line, |part.content| + 2);
  }

  lemma ClosingLine(text: seq<byte>, boundary: seq<byte>, lines: Lines, k: nat, form: Form)
    requires k <= |text| && text[k..] == DASHES + CRLF
    ensures Found(text, boundary, lines, k, [], form) == form
  {
    hide IndexOf;
    IndexOfIsFirst(text[k..], CRLF);
    assert text[k..] == [0x2d, 0x2d, 0x0d, 0x0a];
    assert At(text[k..], CRLF, 2);
  }

  /** In a well-formed form exactly the contents of the parts are found, in order. */
  lemma {:induction false} FormIsFound(text: seq<byte>, boundary: seq<byte>, lines: Lines, k: nat, parts: seq<Part>,
                                       form: Form)
    requires k <= |text| && AllWellFormed(parts, boundary, lines) && text[k..] == AfterBoundary(parts, boundary)
    ensures
      var found := Found(text, boundary, lines, k, [], form);
      && Texts(text, found.uploads) == Texts(text, form.uploads) + ContentsOf(parts, lines, Upload)
      && found.fields == form.fields + ContentsOf(parts, lines, FormField)
    decreases parts
  {
    hide Found, WellFormed, IndexOf, Noted, Significant;
    if parts == [] {
      ClosingLine(text, boundary, lines, k, form);
    } else {
      var part := parts[0];
      var start, end, line := OnePart(text, boundary, lines, k, part, AfterBoundary(parts[1..], boundary), form);
      var more := Noted(form, line, text, start, |part.content| + 2);
      FormIsFound(text, boundary, lines, end, parts[1..], more);
      NotedTexts(form, line, text, start, part.content);
      OnePartContents(parts, lines, line);
      hide Texts, ContentsOf, AfterBoundary, AllWellFormed;
      var value := if part.content == [] then [] else [part.content];
      Joined(Texts(text, form.uploads), if line.Upload? then value else [], ContentsOf(parts[1..], lines, Upload));
      Joined(form.fields, if line.Upload? then [] else value, ContentsOf(parts[1..], lines, FormField));
    }
  }

  lemma Joined(a: seq<seq<byte>>, b: seq<seq<byte>>, c: seq<seq<byte>>)
    ensures a + b + c == a + (b + c)
  {
  }

  lemma NotedTexts(form: Form, line: Line, text: seq<byte>, k: nat, content: seq<byte>)
    requires k + |content| + 2 <= |text| && text[k..k + |content|] == content && !line.Other?
    ensures
      var more := Noted(form, line, text, k, |content| + 2);
      var value := if content == [] then [] else [content];
      && Texts(text, more.uploads) == Texts(text, form.uploads) + (if line.Upload? then value else [])
      && more.fields == form.fields + (if line.Upload? then [] else value)
  {
  }

  lemma OnePartContents(parts: seq<Part>, lines: Lines, line: Line)
    requires parts != [] && Significant(lines(parts[0].head)) == [line]
    ensures
      var value := if parts[0].content == [] then [] else [parts[0].content];
      forall kind :: ContentsOf(parts, lines, kind) ==
                     (if kind == line then value else []) + ContentsOf(parts[1..], lines, kind)
  {
  }

  /** What is found by a reader that has read so far: the search starts behind the first boundary. */
  function FormOf(text: seq<byte>, boundary: seq<byte>, lines: Lines, k: nat): Form
    requires k <= |text|
  {
    match IndexOf(text[k..], boundary)
    case None => NOTHING
    case Some(n) => Found(text, boundary, lines, k + n + |boundary|, [], NOTHING)
  }

  /** A well-formed form, behind any preamble without a boundary, is read back. */
  lemma FormReadBack(preamble: seq<byte>, parts: seq<Part>, boundary: seq<byte>, lines: Lines)
    requires AllWellFormed(parts, boundary, lines) && FirstAt(preamble + boundary, boundary, |preamble|)
    ensures
      var text := preamble + boundary + AfterBoundary(parts, boundary);
      var form := FormOf(text, boundary, lines, 0);
      && Texts(text, form.uploads) == ContentsOf(parts, lines, Upload)
      && form.fields == ContentsOf(parts, lines, FormField)
  {
    hide Found, ContentsOf, AfterBoundary, AllWellFormed, IndexOf, FirstAt;
    var start := preamble + boundary;
    var text := start + AfterBoundary(parts, boundary);
    FirstInPrefix(start, boundary, |preamble|, AfterBoundary(parts, boundary));
    assert text[0..] == text;
    assert text[|start|..] == AfterBoundary(parts, boundary);
    FormIsFound(text, boundary, lines, |start|, parts, NOTHING);
  }
}
