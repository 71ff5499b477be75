/** Multipart bodies of kore-3.2.0/src/http.c: a search over a body that is only partly in memory,
    and the uploads it delimits. */
module Multipart {
  import opened Bytes
  import opened KoreBuf
  import opened FormText

  /** Where the request body is kept. */
  datatype Store = InFile | InMemory | Missing

  const READ_BLOCK: nat := 4096
  /** What the kernel answers to lseek and to read: an error, or at most so many bytes. */
  datatype Answer = Fails | Gives(n: nat)

  /** At most `len` bytes from `at` on. */
  function Window(body: seq<byte>, at: nat, len: nat): seq<byte>
    requires at <= |body|
  {
    body[at..Min(at + len, |body|)]
  }

  lemma WindowSplit(body: seq<byte>, at: nat, len: nat, n: nat)
    requires at + n <= |body| && n <= len
    ensures Window(body, at, len) == body[at..at + n] + Window(body, at + n, len - n)
  {
  }

  lemma WindowEmpty(body: seq<byte>, at: nat, len: nat)
    requires at <= |body| && (len == 0 || at == |body|)
    ensures Window(body, at, len) == []
  {
  }

  class Request {
    const body: seq<byte>
    const store: Store
    var bodyOffset: nat
    var bodyLength: nat
    /** Where the descriptor of the body file stands; it is shared with every `struct http_file`. */
    var filePos: nat
    /** The answers to the coming system calls; those after them give all that is asked for. */
    var answers: seq<Answer>
    /** How many system calls have failed, or found the file shorter than the body. */
    ghost var faults: nat

    ghost predicate Valid()
      reads this`bodyOffset, this`bodyLength, this`filePos
    {
      bodyOffset + bodyLength == |body| <= SIZE_MAX && filePos <= |body|
    }

    /** There is a body, and no coming call fails or comes back empty-handed. */
    ghost predicate Healthy()
      reads this`answers
    {
      !store.Missing? && forall i | 0 <= i < |answers| :: answers[i].Gives? && answers[i].n > 0
    }

    /** Calls may have failed since there were so many faults, but not if the request was healthy. */
    ghost predicate Since(faults: nat, healthy: bool)
      reads this`answers, this`faults
    {
      faults <= this.faults && (healthy ==> Healthy() && faults == this.faults)
    }

    /** Where the next read continues. */
    function Cursor(): nat
      reads this`bodyOffset, this`filePos
    {
      if store.InFile? then filePos else bodyOffset
    }

    /** The descriptor stands where the counters say. */
    predicate InStep()
      reads this`bodyOffset, this`filePos
    {
      Cursor() == bodyOffset
    }

    /** By how much it is ahead of them. */
    ghost function Skew(): int
      reads this`bodyOffset, this`filePos
    {
      Cursor() - bodyOffset
    }

    /** What the reads to come will return: from the cursor on, as many bytes as the counters allow. */
    ghost function Unread(): seq<byte>
      requires Valid()
      reads this`bodyOffset, this`bodyLength, this`filePos
    {
      Window(body, Cursor(), bodyLength)
    }

    /** Reception is over: nothing was read yet, and a file stands behind the last byte written. */
    constructor (body: seq<byte>, store: Store, answers: seq<Answer>)
      requires |body| <= SIZE_MAX
      ensures Valid() && this.body == body && this.store == store && this.answers == answers
      ensures bodyOffset == 0 && faults == 0 && (store.InFile? ==> filePos == |body|)
    {
      this.body, this.store, this.answers := body, store, answers;
      bodyOffset, bodyLength, filePos, faults := 0, |body|, |body|, 0;
    }

    /** `http_body_rewind`; the seek may fail, and then nothing changes. */
    method Rewind() returns (ok: bool)
      requires Valid()
      modifies this
      ensures Valid() && Since(old(faults), old(Healthy()))
      ensures ok ==> InStep() && bodyOffset == 0 && Unread() == body && faults == old(faults)
      ensures !ok ==>
                && store.InFile? && faults == old(faults) + 1
                && bodyOffset == old(bodyOffset) && bodyLength == old(bodyLength) && filePos == old(filePos)
    {
      if store.InFile? {
        ok := Seek(0);
        if !ok {
          return;
        }
      }
      bodyOffset := 0;
      bodyLength := |body|;
      return true;
    }

    lemma NoFailures()
      requires !store.Missing? && answers == []
      ensures Healthy()
    {
    }

    method Answered() returns (a: Option<Answer>)
      modifies this`answers
      ensures a == if old(answers) == [] then None else Some(old(answers)[0])
      ensures answers == if old(answers) == [] then [] else old(answers)[1..]
    {
      if answers == [] {
        return None;
      }
      a, answers := Some(answers[0]), answers[1..];
    }

    /** `lseek(2)` */
    method Seek(at: nat) returns (ok: bool)
      requires at <= |body|
      modifies this`filePos, this`faults, this`answers
      ensures Since(old(faults), old(Healthy()))
      ensures if ok then filePos == at && faults == old(faults)
              else filePos == old(filePos) && faults == old(faults) + 1
    {
      var a := Answered();
      ok := a != Some(Fails);
      if ok {
        filePos := at;
      } else {
        faults := faults + 1;
      }
    }

    /** `http_body_read`: from a file any non-empty prefix, from memory all that fits. */
    method BodyRead(len: nat) returns (ret: int, out: seq<byte>)
      requires Valid()
      modifies this
      ensures Valid() && Since(old(faults), old(Healthy())) && Skew() == old(Skew())
      ensures ret > 0 ==>
                && ret == |out| <= len && faults == old(faults)
                && old(Unread()) == out + Unread() && bodyOffset == old(bodyOffset) + ret
      ensures ret <= 0 ==>
                && bodyOffset == old(bodyOffset) && Unread() == old(Unread())
                && (faults > old(faults) || len == 0 || Unread() == [])
    {
      var toread := Min(bodyLength, len);
      hide Window;
      if toread == 0 {
        if bodyLength == 0 {
          WindowEmpty(body, Cursor(), 0);
        }
        return 0, [];
      }
      ret, out := Fetch(toread);
      if ret <= 0 {
        if Cursor() == |body| {
          WindowEmpty(body, Cursor(), bodyLength);
        }
        return;
      }
      WindowSplit(body, old(Cursor()), bodyLength, ret);
      bodyLength := bodyLength - ret;
      bodyOffset := bodyOffset + ret;
    }

    /** The bytes at the cursor, from wherever the body is. */
    method Fetch(toread: nat) returns (ret: int, out: seq<byte>)
      requires Valid() && 0 < toread <= bodyLength
      modifies this`filePos, this`faults, this`answers
      ensures Valid() && ret <= toread && Since(old(faults), old(Healthy()))
      ensures ret > 0 ==>
                && old(Cursor()) + ret <= |body| && out == body[old(Cursor())..old(Cursor()) + ret]
                && filePos == old(filePos) + (if store.InFile? then ret else 0) && faults == old(faults)
      ensures ret <= 0 ==>
                && filePos == old(filePos) && (faults > old(faults) || Cursor() == |body|)
    {
      match store {
        case InFile =>
          ret, out := ReadFile(toread);
        case InMemory =>
          ret, out := toread, body[bodyOffset..bodyOffset + toread];
        case Missing =>
          faults := faults + 1;
          return -1, [];
      }
    }

    /** `read(2)`: an error, the end of the file, or some of the bytes. */
    method ReadFile(toread: nat) returns (ret: int, out: seq<byte>)
      requires toread > 0 && filePos <= |body|
      modifies this`filePos, this`faults, this`answers
      ensures Since(old(faults), old(Healthy()))
      ensures -1 <= ret <= Min(toread, |body| - old(filePos))
      ensures ret > 0 ==> filePos == old(filePos) + ret && out == body[old(filePos)..filePos] && faults == old(faults)
      ensures ret <= 0 ==> out == [] && filePos == old(filePos)
      ensures ret <= 0 ==> faults == old(faults) + (if ret == 0 && filePos == |body| then 0 else 1)
    {
      var a := Answered();
      ret := Min(toread, |body| - filePos);
      match a {
        case None =>
        case Some(Fails) => ret := -1;
        case Some(Gives(n)) => ret := Min(n, ret);
      }
      if ret <= 0 {
        if ret == -1 || filePos < |body| {
          faults := faults + 1;
        }
        return ret, [];
      }
      out := body[filePos..filePos + ret];
      filePos := filePos + ret;
    }

    /** Where reading will end. */
    lemma EndOfReading()
      requires Valid()
      ensures bodyOffset + |Unread()| == |body| - (if Skew() > 0 then Skew() else 0)
    {
    }

    /** The body as its readers take it: what the counters say was read, and what will be. */
    ghost function Text(): seq<byte>
      requires Valid()
      reads this`bodyOffset, this`bodyLength, this`filePos
    {
      body[..bodyOffset] + Unread()
    }

    /** In step, readers take the body for what it is.  Out of step by d bytes they take the bytes
        at each position from here on for those d further on. */
    lemma TextIsBody()
      requires Valid()
      ensures |Text()| == |body| - (if Skew() > 0 then Skew() else 0)
      ensures InStep() ==> Text() == body && Unread() == body[bodyOffset..]
      ensures forall k | bodyOffset <= k < |Text()| :: 0 <= k + Skew() < |body| && Text()[k] == body[k + Skew()]
    {
    }
  }

  // ----- searching a partly read body

  /** Nothing of `t` before `n` starts an occurrence. */
  ghost predicate Scanned(t: seq<byte>, needle: seq<byte>, n: nat) {
    forall j: nat | j < n :: !At(t, needle, j)
  }

  /** The bytes not yet passed: buffered, then unread. */
  ghost function Ahead(input: Buf, req: Request): seq<byte>
    requires input.Valid() && req.Valid()
    reads input, input.data, req`bodyOffset, req`bodyLength, req`filePos
  {
    input.Contents() + req.Unread()
  }

  /** No occurrence starts where the first byte of the needle is not. */
  lemma SkipOthers(t: seq<byte>, needle: seq<byte>, n: nat, buffered: seq<byte>, m: nat)
    requires needle != [] && Scanned(t, needle, n) && m <= |buffered| && n <= |t| && buffered <= t[n..]
    requires needle[0] !in buffered[..m]
    ensures Scanned(t, needle, n + m)
  {
    forall j: nat | n <= j < n + m
      ensures !At(t, needle, j)
    {
      assert buffered[..m][j - n] == t[j];
      if At(t, needle, j) {
        AtFirstByte(t, needle, j);
      }
    }
  }

  /** `IndexOf` for a one-byte needle. */
  lemma FirstByteIndex(s: seq<byte>, b: byte)
    ensures
      match IndexOf(s, [b])
      case None => b !in s
      case Some(k) => s[k] == b && b !in s[..k]
  {
    IndexOfIsFirst(s, [b]);
    forall j | 0 <= j < |s|
      ensures At(s, [b], j) == (s[j] == b)
    {
      assert s[j..j + 1] == [s[j]];
    }
  }

  /** The two buffers share nothing. */
  ghost predicate Apart(input: Buf, out: Buf?)
    reads input, out
  {
    input.Valid() && (out != null ==> out.Valid() && out != input && out.data != input.data)
  }

  ghost function DataOf(out: Buf?): set<object>
    reads out
  {
    if out == null then {} else {out.data}
  }

  /** The search over `t` has passed `n` bytes: they were copied to `out` and `drop` bytes are
      gone from what lies ahead. */
  ghost predicate Passed(input: Buf, out: Buf?, req: Request, t: seq<byte>, copied: seq<byte>, n: nat, drop: nat)
    reads input, input.data, out, DataOf(out), req`bodyOffset, req`bodyLength, req`filePos
  {
    && Apart(input, out) && req.Valid() && n <= drop <= |t|
    && Ahead(input, req) == t[drop..]
    && (out != null ==> out.Contents() == copied + t[..n])
  }

  lemma PassedNothing(input: Buf, out: Buf?, req: Request)
    requires Apart(input, out) && req.Valid()
    ensures Passed(input, out, req, Ahead(input, req), if out == null then [] else out.Contents(), 0, 0)
  {
    var t := Ahead(input, req);
    assert t[0..] == t;
    assert out != null ==> out.Contents() + t[..0] == out.Contents();
  }

  lemma PassedOn(t: seq<byte>, copied: seq<byte>, done: nat, buffered: seq<byte>, unread: seq<byte>, n: nat, drop: nat)
    requires done <= |t| && buffered + unread == t[done..] && n <= drop <= |buffered|
    ensures buffered[drop..] + unread == t[done + drop..]
    ensures copied + t[..done] + buffered[..n] == copied + t[..done + n]
  {
    assert buffered[..n] == t[done..][..n];
    assert buffered[drop..] + unread == (buffered + unread)[drop..];
    assert t[..done] + t[done..][..n] == t[..done + n];
  }

  /** Copies the first `n` buffered bytes to `out` (if there is one) and drops `drop` of them. */
  method Consume(input: Buf, out: Buf?, req: Request, ghost t: seq<byte>, ghost copied: seq<byte>,
                 ghost done: nat, n: nat, drop: nat)
    requires Passed(input, out, req, t, copied, done, done) && n <= drop <= input.offset
    modifies input, input.data, out, DataOf(out)
    ensures Passed(input, out, req, t, copied, done + n, done + drop)
    ensures input.data == old(input.data) && input.offset == old(input.offset) - drop
    ensures out != null ==> out.data == old(out.data) || fresh(out.data)
  {
    ghost var was := input.Contents();
    PassedOn(t, copied, done, was, req.Unread(), n, drop);
    hide Request.Unread;
    if out != null {
      assert input.data[..n] == was[..n];
      out.Append(input.data[..n]);
    }
    assert input.Contents() == was;
    input.Shift(drop);
  }

  /** Reads one block and appends it to the buffer. */
  method Refill(input: Buf, out: Buf?, req: Request, ghost t: seq<byte>, ghost copied: seq<byte>, ghost done: nat)
    returns (ret: int)
    requires Passed(input, out, req, t, copied, done, done)
    modifies input, input.data, req
    ensures Passed(input, out, req, t, copied, done, done)
    ensures input.data == old(input.data) || fresh(input.data)
    ensures req.Since(old(req.faults), old(req.Healthy()))
    ensures req.Skew() == old(req.Skew())
    ensures ret > 0 ==> req.bodyLength < old(req.bodyLength)
    ensures ret <= 0 ==> req.faults > old(req.faults) || |t| == done + old(input.offset)
  {
    hide Request.Healthy;
    ghost var was := input.Contents();
    assert was + req.Unread() == t[done..];
    var data;
    ret, data := req.BodyRead(READ_BLOCK);
    if ret > 0 {
      input.Append(data);
      assert was + data + req.Unread() == was + (data + req.Unread());
    }
  }

  lemma ScannedNothing(t: seq<byte>, needle: seq<byte>)
    ensures Scanned(t, needle, 0)
  {
  }

  lemma ScanOne(t: seq<byte>, needle: seq<byte>, n: nat)
    requires Scanned(t, needle, n)
    ensures At(t, needle, n) ==> FirstAt(t, needle, n)
    ensures !At(t, needle, n) ==> Scanned(t, needle, n + 1)
  {
  }

  /** Too little is left for an occurrence. */
  lemma NothingFits(t: seq<byte>, needle: seq<byte>, n: nat)
    requires Scanned(t, needle, n) && |t| < n + |needle|
    ensures Absent(t, needle)
  {
  }

  /** `t` continues with the buffered bytes at `n`. */
  lemma BufferedAt(t: seq<byte>, n: nat, buffered: seq<byte>, unread: seq<byte>, i: nat, j: nat)
    requires n <= |t| && t[n..] == buffered + unread && i <= j <= |buffered|
    ensures buffered <= t[n..] && n + j <= |t| && t[n + i..n + j] == buffered[i..j]
  {
    assert t[n..][i..j] == t[n + i..n + j];
  }

  /** The branches of the loop body of multipart_find_data: how many buffered bytes can be passed,
      and whether the needle follows them. */
  method Locate(input: Buf, needle: seq<byte>, ghost t: seq<byte>, ghost done: nat, ghost unread: seq<byte>)
    returns (found: bool, n: nat)
    requires input.Valid() && 0 < |needle| <= input.offset
    requires done <= |t| && t[done..] == input.Contents() + unread && Scanned(t, needle, done)
    ensures Scanned(t, needle, done + n)
    ensures if found then n + |needle| <= input.offset && At(t, needle, done + n) else 0 < n <= input.offset
  {
    hide IndexOf, Scanned, FirstAt;
    ghost var buffered := input.Contents();
    assert input.data[0..0 + input.offset] == buffered;
    FirstByteIndex(buffered, needle[0]);
    BufferedAt(t, done, buffered, unread, 0, 0);
    var p := MemFind(input.data, 0, input.offset, [needle[0]]);
    n := if p.None? then input.offset else p.value;
    SkipOthers(t, needle, done, buffered, n);
    if p.None? || input.offset - n < |needle| {
      return false, n;
    }
    BufferedAt(t, done, buffered, unread, n, n + |needle|);
    var bytes := input.data[..input.offset];
    found := bytes[n..n + |needle|] == needle;
    ScanOne(t, needle, done + n);
    assert found == At(t, needle, done + n);
    n := if found then n else n + 1;
  }

  /** One pass over the buffered bytes. */
  method Examine(input: Buf, out: Buf?, req: Request, needle: seq<byte>,
                 ghost t: seq<byte>, ghost copied: seq<byte>, ghost done: nat)
    returns (found: bool, n: nat)
    requires Passed(input, out, req, t, copied, done, done) && Scanned(t, needle, done)
    requires 0 < |needle| <= input.offset
    modifies input, input.data, out, DataOf(out)
    ensures Passed(input, out, req, t, copied, done + n, if found then done + n + |needle| else done + n)
    ensures Scanned(t, needle, done + n)
    ensures found ==> At(t, needle, done + n)
    ensures !found ==> input.offset < old(input.offset)
    ensures input.data == old(input.data)
    ensures out != null ==> out.data == old(out.data) || fresh(out.data)
  {
    hide Scanned, At;
    found, n := Locate(input, needle, t, done, req.Unread());
    Consume(input, out, req, t, copied, done, n, if found then n + |needle| else n);
  }

  /** `multipart_find_data`: finds the first occurrence of the needle in what lies ahead, however
      the body arrives.  On success `out` has received exactly the bytes before it and exactly the
      bytes behind it remain; on failure nothing is lost, and unless a read failed there is no
      occurrence at all. */
  method FindData(input: Buf, out: Buf?, req: Request, needle: seq<byte>) returns (ok: bool, olen: nat)
    requires Apart(input, out) && req.Valid() && needle != []
    modifies input, input.data, out, DataOf(out), req
    ensures input.data == old(input.data) || fresh(input.data)
    ensures out != null ==> out.data == old(out.data) || fresh(out.data)
    ensures req.Since(old(req.faults), old(req.Healthy())) && req.Skew() == old(req.Skew())
    ensures
      var copied := old(if out == null then [] else out.Contents());
      Passed(input, out, req, old(Ahead(input, req)), copied, olen, if ok then olen + |needle| else olen)
    ensures ok ==> FirstAt(old(Ahead(input, req)), needle, olen)
    ensures !ok ==> req.faults > old(req.faults) || Absent(old(Ahead(input, req)), needle)
  {
    hide Scanned, FirstAt, Absent, At, Passed, Request.Healthy;
    ghost var t := Ahead(input, req);
    ghost var copied := if out == null then [] else out.Contents();
    olen := 0;
    ScannedNothing(t, needle);
    PassedNothing(input, out, req);
    while true
      invariant Passed(input, out, req, t, copied, olen, olen)
      invariant Scanned(t, needle, olen)
      invariant input.data == old(input.data) || fresh(input.data)
      invariant out != null ==> out.data == old(out.data) || fresh(out.data)
      invariant req.Since(old(req.faults), old(req.Healthy())) && req.Skew() == old(req.Skew())
      decreases req.bodyLength, input.offset
    {
      if input.offset < |needle| {
        var ret := Refill(input, out, req, t, copied, olen);
        if ret <= 0 {
          if req.faults == old(req.faults) {
            NothingFits(t, needle, olen);
          }
          return false, olen;
        }
      } else {
        var found, n := Examine(input, out, req, needle, t, copied, olen);
        olen := olen + n;
        if found {
          ScanOne(t, needle, olen);
          return true, olen;
        }
      }
    }
  }

  // ----- uploads

  /** The buffered bytes are the last ones read of `text`, and the rest of it is ahead. */
  ghost predicate Aligned(input: Buf, req: Request, text: seq<byte>)
    reads input, input.data, req`bodyOffset, req`bodyLength, req`filePos
  {
    && input.Valid() && req.Valid() && input.offset <= req.bodyOffset <= |text|
    && input.Contents() == text[req.bodyOffset - input.offset..req.bodyOffset]
    && req.Unread() == text[req.bodyOffset..]
  }

  /** Being aligned is having a suffix of the text ahead, and the offsets tell which. */
  lemma AlignedIsSuffix(input: Buf, req: Request, text: seq<byte>, k: nat)
    requires input.Valid() && req.Valid() && |text| == req.bodyOffset + |req.Unread()|
    ensures Aligned(input, req, text) && req.bodyOffset - input.offset == k <==>
            k <= |text| && Ahead(input, req) == text[k..]
  {
    if Aligned(input, req, text) && req.bodyOffset - input.offset == k {
      assert text[k..req.bodyOffset] + text[req.bodyOffset..] == text[k..];
    }
    if k <= |text| && Ahead(input, req) == text[k..] {
      assert |input.Contents()| + |req.Unread()| == |text| - k;
      assert text[k..][..input.offset] == text[k..req.bodyOffset];
      assert text[k..][input.offset..] == text[req.bodyOffset..];
      assert Ahead(input, req)[..input.offset] == input.Contents();
      assert Ahead(input, req)[input.offset..] == req.Unread();
    }
  }

  predicate EndsIn(s: seq<byte>, tail: seq<byte>) {
    |tail| <= |s| && s[|s| - |tail|..] == tail
  }

  /** Where a search for the needle leaves off: right behind an occurrence, or in front of a rest
      that holds none. */
  predicate Behind(text: seq<byte>, needle: seq<byte>, found: bool, k: nat) {
    k <= |text| && if found then EndsIn(text[..k], needle) else IndexOf(text[k..], needle) == None
  }

  /** A search for the boundary from `start` on passes it, or there is none and it stops somewhere
      on the way. */
  predicate Passes(text: seq<byte>, boundary: seq<byte>, start: nat, k: nat) {
    && start <= k <= |text|
    && match IndexOf(text[start..], boundary)
       case None => IndexOf(text[k..], boundary) == None
       case Some(n) => k == start + n + |boundary|
  }

  lemma Placed(input: Buf, req: Request, text: seq<byte>)
    requires Aligned(input, req, text)
    ensures 0 <= req.bodyOffset - input.offset <= req.bodyOffset <= |text|
  {
  }

  lemma FoundIsBehind(text: seq<byte>, needle: seq<byte>, start: nat, n: nat)
    requires start <= |text| && IndexOf(text[start..], needle) == Some(n)
    ensures Behind(text, needle, true, start + n + |needle|)
  {
    hide IndexOf;
    IndexOfIsFirst(text[start..], needle);
    AtSuffix(text, needle, start, n);
    var head := text[..start + n + |needle|];
    assert head[start + n..] == text[start + n..start + n + |needle|];
  }

  lemma NoneIsBehind(text: seq<byte>, needle: seq<byte>, start: nat, n: nat)
    requires start + n <= |text| && IndexOf(text[start..], needle) == None
    ensures Behind(text, needle, false, start + n)
  {
    NoneBehind(text, needle, start, n);
  }

  /** What lies ahead at the start of a search, and where reading will end. */
  lemma TakeOff(input: Buf, req: Request, text: seq<byte>, start: nat)
    requires Aligned(input, req, text) && req.bodyOffset - input.offset == start
    ensures start <= |text| == |req.body| - (if req.Skew() > 0 then req.Skew() else 0)
    ensures Ahead(input, req) == text[start..]
  {
    AlignedIsSuffix(input, req, text, start);
    req.EndOfReading();
  }

  /** A search that dropped so many bytes leaves off aligned. */
  lemma Land(input: Buf, req: Request, text: seq<byte>, start: nat, drop: nat)
    requires input.Valid() && req.Valid() && start + drop <= |text|
    requires |text| == |req.body| - (if req.Skew() > 0 then req.Skew() else 0)
    requires Ahead(input, req) == text[start..][drop..]
    ensures Aligned(input, req, text) && req.bodyOffset - input.offset == start + drop
  {
    req.EndOfReading();
    assert text[start..][drop..] == text[start + drop..];
    AlignedIsSuffix(input, req, text, start + drop);
  }

  /** A search from an aligned state: the length found is the distance to the first boundary and
      the state is aligned behind it. */
  method FindAligned(input: Buf, out: Buf?, req: Request, ghost text: seq<byte>, needle: seq<byte>)
    returns (ok: bool, olen: nat)
    requires Apart(input, out) && Aligned(input, req, text) && needle != []
    modifies input, input.data, out, DataOf(out), req
    ensures Apart(input, out) && Aligned(input, req, text)
    ensures input.data == old(input.data) || fresh(input.data)
    ensures out != null ==> out.data == old(out.data) || fresh(out.data)
    ensures req.Since(old(req.faults), old(req.Healthy())) && req.Skew() == old(req.Skew())
    ensures
      var start := old(req.bodyOffset - input.offset);
      var rest := text[start..];
      && olen <= |rest|
      && req.bodyOffset - input.offset == start + olen + (if ok then |needle| else 0)
      && (ok ==> IndexOf(rest, needle) == Some(olen))
      && (!ok ==> req.faults > old(req.faults) || IndexOf(rest, needle) == None)
      && (out != null ==> out.Contents() == old(if out == null then [] else out.Contents()) + rest[..olen])
    ensures ok || req.faults == old(req.faults) ==> Behind(text, needle, ok, req.bodyOffset - input.offset)
  {
    hide IndexOf, FirstAt, Absent, At, Behind, Request.Healthy;
    ghost var start := req.bodyOffset - input.offset;
    ghost var rest := text[start..];
    TakeOff(input, req, text, start);
    hide Aligned, Request.Unread, Request.Skew, Ahead;
    ok, olen := FindData(input, out, req, needle);
    ghost var drop := if ok then olen + |needle| else olen;
    Land(input, req, text, start, drop);
    if ok {
      FirstIsIndexOf(rest, needle, olen);
      FoundIsBehind(text, needle, start, olen);
    } else if req.faults == old(req.faults) {
      AbsentIsIndexOf(rest, needle);
      NoneIsBehind(text, needle, start, olen);
    }
  }

  /** `struct http_file`: a slice of the body and a read position in it. */
  class HttpFile {
    const req: Request
    const position: nat
    const length: nat
    var offset: nat
    /** What the reads since the last rewind have returned. */
    ghost var delivered: seq<byte>

    ghost function Bytes(): seq<byte>
      requires position + length <= |req.body|
    {
      req.body[position..position + length]
    }

    ghost predicate Valid()
      reads this
    {
      && position + length <= |req.body| <= SIZE_MAX && offset <= length
      && delivered == Bytes()[..offset]
    }

    constructor (req: Request, position: nat, length: nat)
      requires position + length <= |req.body| <= SIZE_MAX
      ensures Valid() && offset == 0
      ensures this.req == req && this.position == position && this.length == length
    {
      this.req, this.position, this.length := req, position, length;
      offset, delivered := 0, [];
    }

    /** The first checks of http_file_read, in `size_t` arithmetic. */
    predicate Refuses(len: nat)
      reads this`offset
    {
      || length < offset || (offset + len) % (SIZE_MAX + 1) < offset
      || (position + offset) % (SIZE_MAX + 1) < position
    }

    /** Of these only the size overflow of the second can occur. */
    lemma RefusesExactly(len: nat)
      requires Valid() && len <= SIZE_MAX
      ensures Refuses(len) <==> offset + len > SIZE_MAX
    {
    }

    /** `http_file_read`: each call hands out the next bytes of the upload, and it runs dry only at
        the end of it or when a call fails.  It leaves the descriptor of a body file behind the
        bytes it returned, so the body's own reader is in step afterwards exactly if it had read
        as far as that. */
    method Read(len: nat) returns (ret: int, out: seq<byte>)
      requires Valid() && len <= SIZE_MAX
      modifies this, req`filePos, req`faults, req`answers
      ensures Valid() && delivered == old(delivered) + out && req.Since(old(req.faults), old(req.Healthy()))
      ensures ret >= -1 && (ret > 0 ==> ret == |out| <= len && offset == old(offset) + ret)
      ensures ret <= 0 ==> out == [] && offset == old(offset)
      ensures ret == 0 ==> len == 0 || offset == length || req.faults > old(req.faults)
      ensures ret == -1 ==> old(offset) + len > SIZE_MAX || req.faults > old(req.faults)
      ensures old(offset) + len > SIZE_MAX ==> ret == -1 && req.filePos == old(req.filePos)
      ensures req.store.InMemory? && old(offset) + len <= SIZE_MAX ==> ret == Min(len, length - old(offset))
      ensures req.filePos == old(req.filePos) || (req.store.InFile? && req.filePos == position + offset)
      ensures ret > 0 && req.store.InFile? ==> req.filePos == position + old(offset) + ret
      ensures ret > 0 && req.store.InFile? ==> (req.InStep() <==> position + old(offset) + ret == req.bodyOffset)
      ensures ret > 0 && req.store.InFile? && position + old(offset) >= req.bodyOffset ==> !req.InStep()
    {
      RefusesExactly(len);
      if Refuses(len) {
        return -1, [];
      }
      var off := position + offset;
      var toread := Min(len, length - offset);
      if toread == 0 {
        return 0, [];
      }
      match req.store {
        case InFile =>
          var ok := req.Seek(off);
          if !ok {
            return -1, [];
          }
          ret, out := req.ReadFile(toread);
          if ret <= 0 {
            return;
          }
        case InMemory =>
          ret, out := toread, req.body[off..off + toread];
        case Missing =>
          req.faults := req.faults + 1;
          return -1, [];
      }
      NextBytes(req.body, position, length, offset, ret);
      offset := offset + ret;
      delivered := delivered + out;
    }

    /** `http_file_rewind` */
    method Rewind()
      requires Valid()
      modifies this
      ensures Valid() && offset == 0 && delivered == []
    {
      offset, delivered := 0, [];
    }
  }

  lemma NextBytes(body: seq<byte>, position: nat, length: nat, offset: nat, n: nat)
    requires position + length <= |body| && offset + n <= length
    ensures
      var slice := body[position..position + length];
      slice[..offset] + body[position + offset..position + offset + n] == slice[..offset + n]
  {
    var slice := body[position..position + length];
    SliceOfSlice(body, position, position + length, offset, offset + n);
    assert slice[..offset + n] == slice[..offset] + slice[offset..offset + n];
  }

  /** A file-backed body that was rewound, one byte read of an upload in it, and then the first byte
      read of the body: it is the second one. */
  method ReadsSkipAfterFileRead() returns (rewound: bool, fromFile: int, fromBody: int, out: seq<byte>)
    ensures rewound && fromFile == 1 && fromBody == 1 && out == [8]
  {
    hide Request.Healthy, Request.Unread, Request.Skew, Request.InStep, Request.Text;
    var req := new Request([7, 8, 9], InFile, []);
    req.NoFailures();
    rewound := req.Rewind();
    var file := new HttpFile(req, 0, 3);
    var first;
    fromFile, first := file.Read(1);
    OutOfStepExample(req);
    fromBody, out := req.BodyRead(1);
    assert [8, 9][0] == (out + req.Unread())[0] == out[0];
  }

  /** The state after the first two of these calls: the reader takes the body for a shorter one. */
  lemma OutOfStepExample(req: Request)
    requires req.body == [7, 8, 9] && req.store == InFile
    requires req.bodyOffset == 0 && req.bodyLength == 3 && req.filePos == 1
    ensures req.Valid() && !req.InStep() && req.Unread() == [8, 9] && req.Text() == [8, 9]
  {
    assert req.Unread() == req.body[1..3];
  }

  /** With one byte left of an upload, a buffer of the largest size is refused. */
  method RefusesLargestBuffer() returns (first: int, ret: int, left: nat)
    ensures first == 1 && ret == -1 && left == 1
  {
    var req := new Request([7, 8], InMemory, []);
    var file := new HttpFile(req, 0, 2);
    var out;
    first, out := file.Read(1);
    ret, out := file.Read(SIZE_MAX);
    left := file.length - file.offset;
  }

  /** An upload covers the bytes from its position up to two (the line end) before the boundary. */
  predicate IsUpload(text: seq<byte>, boundary: seq<byte>, f: HttpFile) {
    && f.position <= |text| && f.length > 0
    && IndexOf(text[f.position..], boundary) == Some(f.length + 2)
  }

  /** `multipart_file_add` */
  method FileAdd(req: Request, input: Buf, ghost text: seq<byte>, boundary: seq<byte>) returns (file: HttpFile?)
    requires Aligned(input, req, text) && boundary != [] && |text| <= |req.body|
    modifies input, input.data, req
    ensures Aligned(input, req, text) && (input.data == old(input.data) || fresh(input.data))
    ensures req.Since(old(req.faults), old(req.Healthy())) && req.Skew() == old(req.Skew())
    ensures
      var start := old(req.bodyOffset - input.offset);
      var distance := IndexOf(text[start..], boundary);
      && (file != null ==>
            && fresh(file) && file.Valid() && file.req == req && file.offset == 0
            && file.position == start && IsUpload(text, boundary, file)
            && req.bodyOffset - input.offset == start + file.length + 2 + |boundary|)
      && (file == null ==> req.faults > old(req.faults) || distance == None || distance.value < 3)
      && start <= req.bodyOffset - input.offset
      && (req.faults == old(req.faults) ==> Passes(text, boundary, start, req.bodyOffset - input.offset))
    ensures req.faults == old(req.faults) ==> AtLine(text, boundary, req.bodyOffset - input.offset)
  {
    hide IndexOf, Request.Healthy;
    var position := req.bodyOffset - input.offset;
    var ok, len := FindAligned(input, null, req, text, boundary);
    BehindIsAtLine(text, boundary, ok, req.bodyOffset - input.offset);
    if !ok || len < 3 {
      return null;
    }
    file := new HttpFile(req, position, len - 2);
  }

  /** `multipart_add_field`: the value of a form field, delimited the same way. */
  method AddField(req: Request, input: Buf, ghost text: seq<byte>, boundary: seq<byte>)
    returns (value: Option<seq<byte>>)
    requires Aligned(input, req, text) && boundary != []
    modifies input, input.data, req
    ensures Aligned(input, req, text) && (input.data == old(input.data) || fresh(input.data))
    ensures req.Since(old(req.faults), old(req.Healthy())) && req.Skew() == old(req.Skew())
    ensures
      var start := old(req.bodyOffset - input.offset);
      var rest := text[start..];
      var distance := IndexOf(rest, boundary);
      && (value.Some? ==> distance.Some? && 3 <= distance.value && value.value == rest[..distance.value - 2])
      && (value.None? ==> req.faults > old(req.faults) || distance == None || distance.value < 3)
      && start <= req.bodyOffset - input.offset
      && (req.faults == old(req.faults) ==> Passes(text, boundary, start, req.bodyOffset - input.offset))
    ensures req.faults == old(req.faults) ==> AtLine(text, boundary, req.bodyOffset - input.offset)
  {
    hide IndexOf, AtLine, StartsPart, Request.Healthy;
    var data := new Buf(128);
    ghost var rest := text[req.bodyOffset - input.offset..];
    var ok, len := FindAligned(input, data, req, text, boundary);
    BehindIsAtLine(text, boundary, ok, req.bodyOffset - input.offset);
    assert [] + rest[..len] == rest[..len];
    if !ok || data.offset < 3 {
      return None;
    }
    data.offset := data.offset - 2;
    return Some(data.data[..data.offset]);
  }

  // ----- where uploads start and end

  /** Right behind the empty line after the headers of a part, or right behind a boundary. */
  predicate StartsPart(text: seq<byte>, boundary: seq<byte>, k: nat) {
    k <= |text| && (EndsIn(text[..k], CRLFCRLF) || EndsIn(text[..k], boundary))
  }

  /** Where a header line of a part leaves the search: nothing behind it is an upload, or it would
      start a part. */
  predicate AtLine(text: seq<byte>, boundary: seq<byte>, k: nat) {
    k <= |text| && (StartsPart(text, boundary, k) || IndexOf(text[k..], boundary) == None)
  }

  lemma BehindIsAtLine(text: seq<byte>, boundary: seq<byte>, found: bool, k: nat)
    ensures Behind(text, boundary, found, k) ==> AtLine(text, boundary, k)
  {
  }

  lemma HeadersEnd(text: seq<byte>, boundary: seq<byte>, k: nat)
    ensures Behind(text, CRLFCRLF, true, k) ==> AtLine(text, boundary, k)
  {
  }

  /** Uploads in the order of their positions, each ending before the next begins. */
  predicate Disjoint(boundary: seq<byte>, files: seq<HttpFile>, limit: nat) {
    && (forall i | 0 <= i < |files| :: files[i].position + files[i].length + 2 + |boundary| <= limit)
    && (forall i, j | 0 <= i < j < |files| ::
          files[i].position + files[i].length + 2 + |boundary| <= files[j].position)
  }

  predicate AllUploads(text: seq<byte>, boundary: seq<byte>, files: seq<HttpFile>) {
    forall i | 0 <= i < |files| :: IsUpload(text, boundary, files[i])
  }

  predicate AllStart(text: seq<byte>, boundary: seq<byte>, files: seq<HttpFile>) {
    forall i | 0 <= i < |files| :: StartsPart(text, boundary, files[i].position)
  }

  /** The uploads belong to the request, and nothing of them was read yet. */
  ghost predicate Readable(req: Request, files: seq<HttpFile>)
    reads files
  {
    forall f | f in files :: f.req == req && f.Valid() && f.offset == 0
  }

  lemma OneMoreReadable(req: Request, files: seq<HttpFile>, f: HttpFile)
    requires Readable(req, files) && f.req == req && f.Valid() && f.offset == 0
    ensures Readable(req, files + [f])
  {
  }

  /** One upload more, from the line the search had reached. */
  lemma OneMoreUpload(text: seq<byte>, boundary: seq<byte>, files: seq<HttpFile>, f: HttpFile, start: nat, sound: bool)
    requires AllUploads(text, boundary, files) && Disjoint(boundary, files, start)
    requires f.position == start && IsUpload(text, boundary, f)
    requires sound ==> AllStart(text, boundary, files) && AtLine(text, boundary, start)
    ensures AllUploads(text, boundary, files + [f])
    ensures Disjoint(boundary, files + [f], start + f.length + 2 + |boundary|)
    ensures sound ==> AllStart(text, boundary, files + [f])
  {
    hide IndexOf, StartsPart;
  }

  /** What a search may assume and must keep: `text` is being read, `files` were recorded in it
      before the place it has reached, and unless a call has failed since `faults` failures had been
      counted, each starts where a part or a line of one does. */
  ghost predicate Recording(req: Request, input: Buf, text: seq<byte>, boundary: seq<byte>, files: seq<HttpFile>,
                            faults: nat)
    reads input, input.data, req, files
  {
    && Aligned(input, req, text) && |text| <= |req.body| && faults <= req.faults
    && AllUploads(text, boundary, files) && Disjoint(boundary, files, req.bodyOffset - input.offset)
    && (req.faults == faults ==> AllStart(text, boundary, files)) && Readable(req, files)
  }

  // ----- what is found, if no call fails

  function SlicesOf(files: seq<HttpFile>): (slices: seq<Slice>)
    ensures |slices| == |files|
  {
    seq(|files|, i requires 0 <= i < |files| => Slice(files[i].position, files[i].length))
  }

  /** From `k` on, with these header lines pending, the rest of what is to be found will be found. */
  predicate OnCourse(text: seq<byte>, boundary: seq<byte>, lines: Lines, k: int, pending: seq<Line>,
                     files: seq<HttpFile>, fields: seq<seq<byte>>, goal: Form) {
    0 <= k <= |text| && Found(text, boundary, lines, k, pending, Form(SlicesOf(files), fields)) == goal
  }

  /** The same for a request in which no call has failed since: the search stands at such a line. */
  ghost predicate AtLines(req: Request, input: Buf, text: seq<byte>, boundary: seq<byte>, lines: Lines,
                          pending: seq<Line>, files: seq<HttpFile>, fields: seq<seq<byte>>, goal: Form, faults: nat)
    reads req, input
  {
    req.faults == faults && req.bodyOffset >= input.offset ==>
      && AtLine(text, boundary, req.bodyOffset - input.offset)
      && OnCourse(text, boundary, lines, req.bodyOffset - input.offset, pending, files, fields, goal)
  }

  ghost predicate Cleared(out: Buf)
    reads out, out.data
  {
    out.Valid() && out.Contents() == []
  }

  predicate Done(files: seq<HttpFile>, fields: seq<seq<byte>>, goal: Form) {
    Form(SlicesOf(files), fields) == goal
  }

  lemma RecordingPlaced(req: Request, input: Buf, text: seq<byte>, boundary: seq<byte>, files: seq<HttpFile>,
                        faults: nat)
    requires Recording(req, input, text, boundary, files, faults)
    ensures 0 <= req.bodyOffset - input.offset <= req.bodyOffset <= |text| && faults <= req.faults && input.Valid()
  {
  }

  /** A header line that asks for nothing. */
  lemma LineSkipped(text: seq<byte>, boundary: seq<byte>, lines: Lines, k: nat, pending: seq<Line>,
                    files: seq<HttpFile>, fields: seq<seq<byte>>, goal: Form)
    requires OnCourse(text, boundary, lines, k, pending, files, fields, goal)
    requires pending != [] && pending[0].Other?
    ensures OnCourse(text, boundary, lines, k, pending[1..], files, fields, goal)
  {
  }

  /** An upload line, behind which the next boundary was looked for. */
  lemma UploadDone(text: seq<byte>, boundary: seq<byte>, lines: Lines, k: nat, pending: seq<Line>,
                   files: seq<HttpFile>, fields: seq<seq<byte>>, goal: Form, end: nat, file: HttpFile?)
    requires OnCourse(text, boundary, lines, k, pending, files, fields, goal)
    requires pending != [] && pending[0].Upload? && Passes(text, boundary, k, end)
    requires file != null ==> file.position == k && IsUpload(text, boundary, file)
    requires file == null ==> IndexOf(text[k..], boundary) == None || IndexOf(text[k..], boundary).value < 3
    ensures OnCourse(text, boundary, lines, end, pending[1..], if file == null then files else files + [file],
                     fields, goal)
  {
    hide IndexOf;
    if IndexOf(text[k..], boundary) == None {
      NothingMore(text, boundary, lines, end, pending[1..], Form(SlicesOf(files), fields));
    } else if file != null {
      assert SlicesOf(files + [file]) == SlicesOf(files) + [Slice(k, file.length)];
    }
  }

  /** A field line. */
  lemma FieldDone(text: seq<byte>, boundary: seq<byte>, lines: Lines, k: nat, pending: seq<Line>,
                  files: seq<HttpFile>, fields: seq<seq<byte>>, goal: Form, end: nat, value: Option<seq<byte>>)
    requires OnCourse(text, boundary, lines, k, pending, files, fields, goal)
    requires pending != [] && pending[0].FormField? && Passes(text, boundary, k, end)
    requires
      var distance := IndexOf(text[k..], boundary);
      if value.Some? then distance.Some? && distance.value >= 3 && value.value == text[k..][..distance.value - 2]
      else distance == None || distance.value < 3
    ensures OnCourse(text, boundary, lines, end, pending[1..], files,
                     if value.Some? then fields + [value.value] else fields, goal)
  {
    hide IndexOf;
    if IndexOf(text[k..], boundary) == None {
      NothingMore(text, boundary, lines, end, pending[1..], Form(SlicesOf(files), fields));
    } else if value.Some? {
      var n := IndexOf(text[k..], boundary).value;
      assert value.value == text[k..k + n - 2];
    }
  }

  /** The effect of `multipart_parse_headers`: the header lines in `head`, one after the other, may
      each open an upload, a field or nothing. */
  method ParsePart(req: Request, input: Buf, head: seq<byte>, ghost text: seq<byte>, boundary: seq<byte>,
                   lines: Lines, files: seq<HttpFile>, fields: seq<seq<byte>>, ghost goal: Form, ghost faults: nat)
    returns (more: seq<HttpFile>, values: seq<seq<byte>>)
    requires Recording(req, input, text, boundary, files, faults) && boundary != []
    requires AtLines(req, input, text, boundary, lines, lines(head), files, fields, goal, faults)
    modifies input, input.data, req
    ensures Recording(req, input, text, boundary, more, faults) && files <= more
    ensures AtLines(req, input, text, boundary, lines, [], more, values, goal, faults)
    ensures forall f | f in more :: f in files || fresh(f)
    ensures input.data == old(input.data) || fresh(input.data)
    ensures req.Skew() == old(req.Skew()) && req.Since(old(req.faults), old(req.Healthy()))
    ensures old(req.bodyOffset - input.offset) <= req.bodyOffset - input.offset
  {
    hide AllUploads, AllStart, Disjoint, AtLines, Aligned, Readable, Request.Healthy;
    more, values := files, fields;
    var pending := lines(head);
    while pending != []
      invariant Recording(req, input, text, boundary, more, faults) && files <= more
      invariant AtLines(req, input, text, boundary, lines, pending, more, values, goal, faults)
      invariant forall f | f in more :: f in files || fresh(f)
      invariant input.data == old(input.data) || fresh(input.data)
      invariant req.Skew() == old(req.Skew()) && req.Since(old(req.faults), old(req.Healthy()))
      invariant old(req.bodyOffset - input.offset) <= req.bodyOffset - input.offset
      decreases |pending|
    {
      more, values := HeaderLine(req, input, text, boundary, lines, pending, more, values, goal, faults);
      pending := pending[1..];
    }
  }

  /** One header line of a part. */
  method HeaderLine(req: Request, input: Buf, ghost text: seq<byte>, boundary: seq<byte>, ghost lines: Lines,
                    pending: seq<Line>, files: seq<HttpFile>, fields: seq<seq<byte>>, ghost goal: Form,
                    ghost faults: nat)
    returns (more: seq<HttpFile>, values: seq<seq<byte>>)
    requires Recording(req, input, text, boundary, files, faults) && boundary != [] && pending != []
    requires AtLines(req, input, text, boundary, lines, pending, files, fields, goal, faults)
    modifies input, input.data, req
    ensures Recording(req, input, text, boundary, more, faults) && files <= more
    ensures AtLines(req, input, text, boundary, lines, pending[1..], more, values, goal, faults)
    ensures forall f | f in more :: f in files || fresh(f)
    ensures input.data == old(input.data) || fresh(input.data)
    ensures req.Skew() == old(req.Skew()) && req.Since(old(req.faults), old(req.Healthy()))
    ensures old(req.bodyOffset - input.offset) <= req.bodyOffset - input.offset
  {
    hide IndexOf, IsUpload, AllUploads, AllStart, Aligned, AtLine, Readable, OnCourse, Request.Healthy;
    Placed(input, req, text);
    more, values := files, fields;
    match pending[0] {
      case Upload =>
        more := UploadLine(req, input, text, boundary, lines, pending, files, fields, goal, faults);
      case FormField =>
        values := FieldLine(req, input, text, boundary, lines, pending, files, fields, goal, faults);
      case Other =>
        if req.faults == faults {
          LineSkipped(text, boundary, lines, req.bodyOffset - input.offset, pending, files, fields, goal);
        }
    }
  }

  method UploadLine(req: Request, input: Buf, ghost text: seq<byte>, boundary: seq<byte>, ghost lines: Lines,
                    ghost pending: seq<Line>, files: seq<HttpFile>, ghost fields: seq<seq<byte>>, ghost goal: Form,
                    ghost faults: nat)
    returns (more: seq<HttpFile>)
    requires Recording(req, input, text, boundary, files, faults) && boundary != []
    requires pending != [] && pending[0].Upload?
    requires AtLines(req, input, text, boundary, lines, pending, files, fields, goal, faults)
    modifies input, input.data, req
    ensures Recording(req, input, text, boundary, more, faults) && files <= more
    ensures AtLines(req, input, text, boundary, lines, pending[1..], more, fields, goal, faults)
    ensures forall f | f in more :: f in files || fresh(f)
    ensures input.data == old(input.data) || fresh(input.data)
    ensures req.Skew() == old(req.Skew()) && req.Since(old(req.faults), old(req.Healthy()))
    ensures old(req.bodyOffset - input.offset) <= req.bodyOffset - input.offset
  {
    hide IndexOf, IsUpload, AllUploads, AllStart, Aligned, AtLine, Readable, OnCourse, Passes, Request.Healthy;
    Placed(input, req, text);
    more := files;
    ghost var start, sound := req.bodyOffset - input.offset, req.faults == faults;
    var file := FileAdd(req, input, text, boundary);
    Placed(input, req, text);
    if file != null {
      OneMoreUpload(text, boundary, files, file, start, sound);
      OneMoreReadable(req, files, file);
      more := more + [file];
    }
    if req.faults == faults {
      UploadDone(text, boundary, lines, start, pending, files, fields, goal, req.bodyOffset - input.offset, file);
    }
  }

  method FieldLine(req: Request, input: Buf, ghost text: seq<byte>, boundary: seq<byte>, ghost lines: Lines,
                   ghost pending: seq<Line>, ghost files: seq<HttpFile>, fields: seq<seq<byte>>, ghost goal: Form,
                   ghost faults: nat)
    returns (values: seq<seq<byte>>)
    requires Recording(req, input, text, boundary, files, faults) && boundary != []
    requires pending != [] && pending[0].FormField?
    requires AtLines(req, input, text, boundary, lines, pending, files, fields, goal, faults)
    modifies input, input.data, req
    ensures Recording(req, input, text, boundary, files, faults)
    ensures AtLines(req, input, text, boundary, lines, pending[1..], files, values, goal, faults)
    ensures input.data == old(input.data) || fresh(input.data)
    ensures req.Skew() == old(req.Skew()) && req.Since(old(req.faults), old(req.Healthy()))
    ensures old(req.bodyOffset - input.offset) <= req.bodyOffset - input.offset
  {
    hide IndexOf, IsUpload, AllUploads, AllStart, Aligned, AtLine, Readable, OnCourse, Passes, Request.Healthy;
    Placed(input, req, text);
    ghost var start := req.bodyOffset - input.offset;
    var value := AddField(req, input, text, boundary);
    Placed(input, req, text);
    values := if value.Some? then fields + [value.value] else fields;
    if req.faults == faults {
      FieldDone(text, boundary, lines, start, pending, files, fields, goal, req.bodyOffset - input.offset, value);
    }
  }

  /** A search between uploads: what was recorded stays. */
  method Advance(req: Request, input: Buf, out: Buf?, ghost text: seq<byte>, needle: seq<byte>,
                 ghost boundary: seq<byte>, ghost files: seq<HttpFile>, ghost faults: nat)
    returns (ok: bool, ghost n: nat)
    requires Recording(req, input, text, boundary, files, faults) && Apart(input, out) && needle != []
    modifies input, input.data, out, DataOf(out), req
    ensures Recording(req, input, text, boundary, files, faults) && Apart(input, out)
    ensures input.data == old(input.data) || fresh(input.data)
    ensures out != null ==> out.data == old(out.data) || fresh(out.data)
    ensures req.Skew() == old(req.Skew()) && req.Since(old(req.faults), old(req.Healthy()))
    ensures
      var start := old(req.bodyOffset - input.offset);
      && start + n <= |text|
      && req.bodyOffset - input.offset == start + n + (if ok then |needle| else 0)
      && (ok ==> IndexOf(text[start..], needle) == Some(n))
      && (!ok ==> req.faults > old(req.faults) || IndexOf(text[start..], needle) == None)
      && (out != null && old(out.Contents()) == [] ==> out.Contents() == text[start..start + n])
    ensures ok ==> Behind(text, needle, true, req.bodyOffset - input.offset)
  {
    hide IndexOf, IsUpload, AllUploads, AllStart, Readable, Behind, Aligned, Request.Healthy;
    Placed(input, req, text);
    ghost var start := req.bodyOffset - input.offset;
    TakeOff(input, req, text, start);
    ok, n := FindAligned(input, out, req, text, needle);
    assert text[start..][..n] == text[start..start + n];
  }

  /** With everything read and fewer than four bytes buffered, there are no more headers. */
  lemma TooShort(req: Request, input: Buf, text: seq<byte>, boundary: seq<byte>, lines: Lines, form: Form)
    requires Aligned(input, req, text) && req.bodyLength == 0
    requires input.offset < 4
    ensures FoundInPart(text, boundary, lines, req.bodyOffset - input.offset, form) == form
  {
    assert |req.Unread()| <= req.bodyLength;
    assert |text| == req.bodyOffset;
  }

  /** One turn of the part loop of `http_populate_multipart_form`; `last` ends it. */
  method NextPart(req: Request, input: Buf, out: Buf, ghost text: seq<byte>, boundary: seq<byte>, lines: Lines,
                  files: seq<HttpFile>, fields: seq<seq<byte>>, ghost goal: Form, ghost faults: nat)
    returns (last: bool, more: seq<HttpFile>, values: seq<seq<byte>>)
    requires Recording(req, input, text, boundary, files, faults) && Apart(input, out) && boundary != []
    requires Cleared(out)
    requires req.faults == faults ==>
               OnCourse(text, boundary, lines, req.bodyOffset - input.offset, [], files, fields, goal)
    modifies input, input.data, out, out.data, req
    ensures Recording(req, input, text, boundary, more, faults) && Apart(input, out)
    ensures forall f | f in more :: f in files || fresh(f)
    ensures input.data == old(input.data) || fresh(input.data)
    ensures out.data == old(out.data) || fresh(out.data)
    ensures req.Skew() == old(req.Skew()) && req.Since(old(req.faults), old(req.Healthy()))
    ensures !last ==> old(req.bodyOffset - input.offset) < req.bodyOffset - input.offset <= |text|
    ensures !last ==> Cleared(out)
    ensures req.faults == faults ==>
              if last then Done(more, values, goal)
              else OnCourse(text, boundary, lines, req.bodyOffset - input.offset, [], more, values, goal)
  {
    hide IndexOf, AllUploads, AllStart, Disjoint, Readable, Behind, EndsIn, SlicesOf, Found, FoundInPart;
    hide Request.Healthy;
    Placed(input, req, text);
    more, values := files, fields;
    ghost var k, form := req.bodyOffset - input.offset, Form(SlicesOf(files), fields);
    var ok, i := Advance(req, input, null, text, CRLF, boundary, files, faults);
    Placed(input, req, text);
    if req.faults == faults {
      NextLine(text, boundary, lines, k, form);
    }
    if !ok {
      return true, more, values;
    }
    if input.offset < 4 && req.bodyLength == 0 {
      TooShort(req, input, text, boundary, lines, form);
      return true, more, values;
    }
    last, more, values := Headers(req, input, out, text, boundary, lines, files, fields, goal, faults);
  }

  /** The rest of that turn, behind the line end of the boundary line. */
  method Headers(req: Request, input: Buf, out: Buf, ghost text: seq<byte>, boundary: seq<byte>, lines: Lines,
                 files: seq<HttpFile>, fields: seq<seq<byte>>, ghost goal: Form, ghost faults: nat)
    returns (last: bool, more: seq<HttpFile>, values: seq<seq<byte>>)
    requires Recording(req, input, text, boundary, files, faults) && Apart(input, out) && boundary != []
    requires Cleared(out) && 0 <= req.bodyOffset - input.offset <= |text|
    requires req.faults == faults ==>
               FoundInPart(text, boundary, lines, req.bodyOffset - input.offset, Form(SlicesOf(files), fields)) == goal
    modifies input, input.data, out, out.data, req
    ensures Recording(req, input, text, boundary, more, faults) && Apart(input, out)
    ensures forall f | f in more :: f in files || fresh(f)
    ensures input.data == old(input.data) || fresh(input.data)
    ensures out.data == old(out.data) || fresh(out.data)
    ensures req.Skew() == old(req.Skew()) && req.Since(old(req.faults), old(req.Healthy()))
    ensures old(req.bodyOffset - input.offset) <= req.bodyOffset - input.offset <= |text|
    ensures !last ==> Cleared(out)
    ensures req.faults == faults ==>
              if last then Done(more, values, goal)
              else OnCourse(text, boundary, lines, req.bodyOffset - input.offset, [], more, values, goal)
  {
    hide IndexOf, AllUploads, AllStart, Disjoint, Readable, Behind, EndsIn, SlicesOf, Found, FoundInPart;
    hide Request.Healthy, IsUpload, AtLine, StartsPart, Recording, Aligned;
    RecordingPlaced(req, input, text, boundary, files, faults);
    more, values := files, fields;
    ghost var k, form := req.bodyOffset - input.offset, Form(SlicesOf(files), fields);
    HeadersFound(text, boundary, lines, k, form);
    var ok, j := Advance(req, input, out, text, CRLFCRLF, boundary, files, faults);
    RecordingPlaced(req, input, text, boundary, files, faults);
    if !ok {
      return true, more, values;
    }
    HeadersEnd(text, boundary, req.bodyOffset - input.offset);
    var head := out.data[..out.offset];
    more, values := ParsePart(req, input, head, text, boundary, lines, files, fields, goal, faults);
    RecordingPlaced(req, input, text, boundary, more, faults);
    out.Reset();
    last := false;
  }

  /** The part loop of `http_populate_multipart_form`. */
  method Parts(req: Request, input: Buf, out: Buf, ghost text: seq<byte>, boundary: seq<byte>, lines: Lines,
               ghost goal: Form, ghost faults: nat)
    returns (files: seq<HttpFile>, fields: seq<seq<byte>>)
    requires Recording(req, input, text, boundary, [], faults) && Apart(input, out) && boundary != []
    requires Cleared(out)
    requires req.faults == faults ==>
               OnCourse(text, boundary, lines, req.bodyOffset - input.offset, [], [], [], goal)
    modifies input, input.data, out, out.data, req
    ensures Recorded(req, text, boundary, files, faults)
    ensures req.Skew() == old(req.Skew()) && req.Since(old(req.faults), old(req.Healthy()))
    ensures req.faults == faults ==> Done(files, fields, goal)
    ensures forall f | f in files :: fresh(f)
  {
    hide IndexOf, Found, Aligned, AllUploads, AllStart, Disjoint, Recording, Readable, Recorded, OnCourse;
    hide Request.Healthy;
    hide Apart, Done, Cleared, Request.Unread, Request.Valid, Request.Skew, SlicesOf;
    files, fields := [], [];
    var last := false;
    while !last
      invariant Recording(req, input, text, boundary, files, faults) && Apart(input, out)
      invariant !last ==> Cleared(out)
      invariant req.faults == faults ==>
                  if last then Done(files, fields, goal)
                  else OnCourse(text, boundary, lines, req.bodyOffset - input.offset, [], files, fields, goal)
      invariant forall f | f in files :: fresh(f)
      invariant input.data == old(input.data) || fresh(input.data)
      invariant out.data == old(out.data) || fresh(out.data)
      invariant req.Skew() == old(req.Skew()) && req.Since(old(req.faults), old(req.Healthy()))
      decreases !last, |text| - (req.bodyOffset - input.offset)
    {
      last, files, fields := NextPart(req, input, out, text, boundary, lines, files, fields, goal, faults);
    }
    WithinText(req, input, text, boundary, files, faults);
  }

  /** What a run has recorded. */
  ghost predicate Recorded(req: Request, text: seq<byte>, boundary: seq<byte>, files: seq<HttpFile>, faults: nat)
    reads req, files
  {
    && req.Valid() && faults <= req.faults && Readable(req, files)
    && AllUploads(text, boundary, files) && Disjoint(boundary, files, |text|)
    && (req.faults == faults ==> AllStart(text, boundary, files))
  }

  lemma WithinText(req: Request, input: Buf, text: seq<byte>, boundary: seq<byte>, files: seq<HttpFile>, faults: nat)
    requires Recording(req, input, text, boundary, files, faults)
    ensures Recorded(req, text, boundary, files, faults)
  {
    hide AllUploads, AllStart;
  }

  /** With an empty buffer a search begins where the body's reader is. */
  lemma NothingBuffered(req: Request, input: Buf, boundary: seq<byte>)
    requires req.Valid() && input.Valid() && input.Contents() == []
    ensures Aligned(input, req, req.Text()) && Apart(input, null) && |req.Text()| <= |req.body|
  {
    req.TextIsBody();
  }

  lemma NothingRecorded(req: Request, input: Buf, text: seq<byte>, boundary: seq<byte>, faults: nat)
    requires Aligned(input, req, text) && |text| <= |req.body| && faults <= req.faults
    ensures Recording(req, input, text, boundary, [], faults)
    ensures Recorded(req, text, boundary, [], faults)
  {
  }

  /** `http_populate_multipart_form`: every upload it records in the text the reader takes for the
      body ends two bytes before the first boundary behind its start, no two overlap, and unless a
      call fails each starts right behind the headers of a part or, for a further line of the same
      part, right behind a boundary, and everything there is to find was found.  All of them can be
      read from their first byte.  In step that text is the body. */
  method Populate(req: Request, boundary: seq<byte>, lines: Lines)
    returns (files: seq<HttpFile>, fields: seq<seq<byte>>)
    requires req.Valid() && boundary != []
    modifies req
    ensures Recorded(req, old(req.Text()), boundary, files, old(req.faults))
    ensures req.faults == old(req.faults) ==>
              Form(SlicesOf(files), fields) == FormOf(old(req.Text()), boundary, lines, old(req.bodyOffset))
    ensures forall f | f in files :: fresh(f)
    ensures req.Skew() == old(req.Skew()) && req.Since(old(req.faults), old(req.Healthy()))
    ensures old(req.InStep()) ==> old(req.Text()) == req.body
  {
    hide IndexOf, AllUploads, AllStart, Disjoint, Recording, Recorded, Aligned, Behind, Request.Healthy;
    ghost var text, faults := req.Text(), req.faults;
    req.TextIsBody();
    var input := new Buf(128);
    NothingBuffered(req, input, boundary);
    assert SlicesOf([]) == [];
    ghost var goal := FormOf(text, boundary, lines, req.bodyOffset);
    var ok, n := FindAligned(input, null, req, text, boundary);
    NothingRecorded(req, input, text, boundary, faults);
    if !ok {
      return [], [];
    }
    var out := new Buf(128);
    files, fields := Parts(req, input, out, text, boundary, lines, goal, faults);
  }

  /** The slices of the uploads found in the body are what they will return. */
  lemma SlicesAreBytes(req: Request, boundary: seq<byte>, files: seq<HttpFile>)
    requires AllUploads(req.body, boundary, files) && Readable(req, files)
    ensures forall i | 0 <= i < |files| ::
              && files[i].req == req && files[i].Valid()
              && files[i].Bytes() == Texts(req.body, SlicesOf(files))[i]
  {
    hide IndexOf;
    forall i | 0 <= i < |files|
      ensures files[i].req == req && files[i].Valid() && files[i].Bytes() == Texts(req.body, SlicesOf(files))[i]
    {
      assert files[i] in files;
    }
  }

  /** A well-formed form, unread and in step, whose system calls do not fail but may return as little
      as they like: the uploads are exactly the non-empty contents of the upload parts, and the
      fields those of the others, in order. */
  method PopulateForm(req: Request, boundary: seq<byte>, lines: Lines, ghost preamble: seq<byte>,
                      ghost parts: seq<Part>)
    returns (files: seq<HttpFile>, fields: seq<seq<byte>>)
    requires req.Valid() && req.InStep() && req.bodyOffset == 0 && req.Healthy() && boundary != []
    requires req.body == preamble + boundary + AfterBoundary(parts, boundary)
    requires AllWellFormed(parts, boundary, lines) && FirstAt(preamble + boundary, boundary, |preamble|)
    modifies req
    ensures |files| == |ContentsOf(parts, lines, Upload)|
    ensures forall i | 0 <= i < |files| ::
              && files[i].req == req && files[i].Valid() && files[i].offset == 0
              && files[i].Bytes() == ContentsOf(parts, lines, Upload)[i]
    ensures fields == ContentsOf(parts, lines, FormField)
  {
    hide IndexOf, AllUploads, AllStart, Disjoint, AllWellFormed, FirstAt, ContentsOf, FormOf, AfterBoundary, SlicesOf;
    hide Request.Healthy;
    files, fields := Populate(req, boundary, lines);
    FormReadBack(preamble, parts, boundary, lines);
    SlicesAreBytes(req, boundary, files);
  }

  /** Reads of these sizes, one after the other. */
  method ReadAll(f: HttpFile, sizes: seq<nat>) returns (out: seq<byte>)
    requires f.Valid() && f.offset == 0 && forall i | 0 <= i < |sizes| :: sizes[i] <= SIZE_MAX
    modifies f, f.req`filePos, f.req`faults, f.req`answers
    ensures f.Valid() && out == f.delivered && f.req.Since(old(f.req.faults), old(f.req.Healthy()))
    ensures f.req.faults == old(f.req.faults) && AllServed(sizes, f.length) ==> f.offset >= Min(|sizes|, f.length)
  {
    out := [];
    for i := 0 to |sizes|
      invariant f.Valid() && out == f.delivered && f.req.Since(old(f.req.faults), old(f.req.Healthy()))
      invariant f.req.faults == old(f.req.faults) && AllServed(sizes, f.length) ==> f.offset >= Min(i, f.length)
    {
      var ret, bytes := f.Read(sizes[i]);
      out := out + bytes;
    }
  }

  /** Every read asks for something, and none is refused. */
  predicate AllServed(sizes: seq<nat>, length: nat) {
    forall i | 0 <= i < |sizes| :: 0 < sizes[i] && length + sizes[i] <= SIZE_MAX
  }

  /** Upload extraction end to end: from a request in step, reads of any sizes from the `k`-th upload
      found return the bytes between its start and two before the next boundary, from the first
      one on and in order; if no call fails, there are as many as reads, until there are no more. */
  method Extract(req: Request, boundary: seq<byte>, lines: Lines, k: nat, sizes: seq<nat>)
    returns (files: seq<HttpFile>, fields: seq<seq<byte>>, out: seq<byte>)
    requires req.Valid() && req.InStep() && boundary != []
    requires forall i | 0 <= i < |sizes| :: sizes[i] <= SIZE_MAX
    modifies req
    ensures k < |files| ==>
              && IsUpload(req.body, boundary, files[k]) && files[k].position + files[k].length <= |req.body|
              && out <= req.body[files[k].position..files[k].position + files[k].length]
    ensures k < |files| && req.faults == old(req.faults) && AllServed(sizes, files[k].length) ==>
              |out| >= Min(|sizes|, files[k].length)
  {
    hide IsUpload, AllStart, Disjoint, Min, AllServed;
    files, fields := Populate(req, boundary, lines);
    out := [];
    if k < |files| {
      var f := files[k];
      assert f in files;
      out := ReadAll(f, sizes);
    }
  }
}
