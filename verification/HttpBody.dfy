/** Reception of a request body of known length in kore-3.2.0/src/http.c, into memory or a file. */
module HttpBody {
  import opened Bytes
  import opened Net
  import opened Multipart

  class Reception {
    /** The content-length header. */
    const total: nat
    const store: Store
    /** http_header_max */
    const headerMax: nat
    const recv: Receiver
    /** What the kernel will answer to the calls that seek and read in the body file. */
    const answers: seq<Answer>
    /** Whether the coming writes to the body file take all they are given; those after them do. */
    var writes: seq<bool>
    /** What is still to come; `content_length` while receiving. */
    var contentLength: nat
    /** The contents of the body file or buffer. */
    var stored: seq<byte>
    /** HTTP_REQUEST_COMPLETE: the body can be read from `request`. */
    var complete: bool
    /** HTTP_REQUEST_DELETE: the request was answered with an error. */
    var deleted: bool
    var request: Request?
    /** The bytes that arrived with the headers, and how many had been read by then. */
    ghost var first: seq<byte>
    ghost var start: nat

    /** The bytes of the body received so far. */
    ghost function Arrived(): seq<byte>
      requires start <= |recv.consumed|
      reads this`first, this`start, recv`consumed
    {
      first + recv.consumed[start..]
    }

    /** Nothing can go wrong with the body. */
    ghost predicate Able()
      reads this`writes
    {
      || store.InMemory?
      || (store.InFile? && false !in writes && forall i | 0 <= i < |answers| :: answers[i].Gives? && answers[i].n > 0)
    }

    /** Between two callbacks: everything that arrived is stored, in order, and either the body is
        complete and unread, or exactly what is missing, or a part of it, has been asked for. */
    ghost predicate Valid()
      reads this, recv, request
    {
      && recv.Valid() && recv.payloadMax > 0 && start <= |recv.consumed| && !deleted
      && stored == Arrived() && total <= SIZE_MAX
      && if complete then
           && |stored| == total && request != null && request.store == store
           && request.body == stored && request.Valid() && request.InStep() && request.Unread() == stored
         else
           && |stored| + contentLength == total && contentLength > 0
           && recv.sOff == 0 && recv.bLen == Min(contentLength, recv.payloadMax)
    }

    constructor (total: nat, store: Store, headerMax: nat, recv: Receiver, writes: seq<bool>, answers: seq<Answer>)
      ensures this.total == total && this.store == store && this.recv == recv && stored == []
      ensures !complete && !deleted && this.writes == writes && this.answers == answers
    {
      this.total, this.store, this.headerMax, this.recv := total, store, headerMax, recv;
      this.writes, this.answers := writes, answers;
      contentLength, stored, complete, deleted, request := total, [], false, false, null;
      first, start := [], 0;
    }

    /** Appends to the body; a write to the file may fail or be short. */
    method StoreBytes(data: seq<byte>) returns (ok: bool)
      modifies this`stored, this`deleted, this`writes
      ensures ok <==> store.InMemory? || (store.InFile? && (old(writes) == [] || old(writes)[0]))
      ensures ok ==> stored == old(stored) + data && deleted == old(deleted)
      ensures !ok ==> deleted && stored == old(stored)
      ensures writes == if store.InFile? && old(writes) != [] then old(writes)[1..] else old(writes)
      ensures old(Able()) ==> ok && Able()
    {
      ok := !store.Missing?;
      if store.InFile? && writes != [] {
        ok, writes := writes[0], writes[1..];
      }
      if ok {
        stored := stored + data;
      } else {
        deleted := true;
      }
    }

    /** The body part of `http_header_recv`: stores what came with the headers and asks for more. */
    method Begin(data: seq<byte>) returns (ok: bool)
      requires recv.Valid() && recv.payloadMax > 0 && stored == [] && !complete && !deleted
      requires |data| <= total <= SIZE_MAX
      modifies this, recv`buf, recv`sOff, recv`bLen
      ensures recv.buf == old(recv.buf) || fresh(recv.buf)
      ensures ok ==> Valid() && Arrived() == data && (complete <==> |data| == total)
      ensures !ok ==> deleted && recv.Valid()
      ensures old(Able()) ==> ok && Able()
      ensures request == null || fresh(request)
    {
      first, start, request := data, |recv.consumed|, null;
      ok := StoreBytes(data);
      if !ok {
        return;
      }
      var bytesLeft := total - |data|;
      if bytesLeft > 0 {
        recv.Reset(Min(bytesLeft, recv.payloadMax));
        contentLength := bytesLeft;
      } else {
        ok := Complete();
      }
    }

    /** The body is there: content_length gets its first value back and reading starts over; the
        seek of http_body_rewind may fail. */
    method Complete() returns (ok: bool)
      requires recv.Valid() && recv.payloadMax > 0 && start <= |recv.consumed| && !deleted
      requires stored == Arrived() && |stored| == total <= SIZE_MAX
      modifies this`complete, this`deleted, this`request
      ensures if ok then Valid() && complete else deleted && !Able()
      ensures fresh(request)
    {
      complete := true;
      request := new Request(stored, store, answers);
      ok := request.Rewind();
      deleted := !ok;
    }

    /** `http_body_recv`, on the bytes of one read, however few. */
    method BodyRecv() returns (ok: bool)
      requires recv.Valid() && recv.payloadMax > 0 && start <= |recv.consumed| && !deleted && !complete
      requires stored + recv.Received() == Arrived() && |stored| + contentLength == total <= SIZE_MAX
      requires recv.sOff <= contentLength
      modifies this`stored, this`writes, this`contentLength, this`complete, this`deleted, this`request
      modifies recv`buf, recv`sOff, recv`bLen
      ensures recv.buf == old(recv.buf) || fresh(recv.buf)
      ensures if ok then Valid() else deleted && recv.Valid()
      ensures old(Able()) ==> ok && Able()
      ensures request == old(request) || fresh(request)
    {
      ok := StoreBytes(recv.buf[..recv.sOff]);
      if !ok {
        return;
      }
      contentLength := contentLength - recv.sOff;
      if contentLength == 0 {
        ok := Complete();
        if ok {
          recv.Reset(headerMax);
        }
      } else {
        recv.Reset(Min(contentLength, recv.payloadMax));
      }
    }

    /** One turn of net_recv_flush: a read of any outcome and, because the header netbuf is still in
        use, the callback after every one of them. */
    method Turn() returns (ok: bool)
      requires Valid() && !complete && recv.readable
      modifies this`stored, this`writes, this`contentLength, this`complete, this`deleted, this`request, recv, recv.buf
      ensures recv.buf == old(recv.buf) || fresh(recv.buf)
      ensures recv.Valid() && if ok then Valid() else recv.failed || deleted
      ensures old(Able()) ==> Able() && (!ok ==> recv.failed)
      ensures recv.consumed + recv.incoming == old(recv.consumed + recv.incoming)
      ensures ok && recv.readable ==> |recv.outcomes| < |old(recv.outcomes)|
      ensures recv.outcomes == (if old(recv.outcomes) == [] then [] else old(recv.outcomes)[1..])
      ensures ok && !recv.readable ==> old(recv.outcomes) == [] || Stops(old(recv.outcomes)[0], recv.incoming)
      ensures request == old(request) || fresh(request)
    {
      var status := recv.Read();
      match status {
        case ReadError => return false;
        case Blocked => return true;
        case Progress => ok := BodyRecv();
      }
    }

    /** `net_recv_flush` while a body is being received: under any fragmentation the body is the
        bytes that came with the headers and the next ones of the stream, as many as announced and
        none of what follows them; when it is complete, all of it can be read from the beginning. */
    method RecvFlush() returns (ok: bool)
      requires Valid() && !complete
      modifies this`stored, this`writes, this`contentLength, this`complete, this`deleted, this`request, recv, recv.buf
      ensures recv.Valid() && if ok then Valid() else recv.failed || deleted
      ensures old(Able()) ==> Able() && (!ok ==> recv.failed)
      ensures recv.consumed + recv.incoming == old(recv.consumed + recv.incoming)
      ensures ok && !complete ==> !recv.readable && (old(recv.readable) ==> recv.Paused(old(recv.outcomes)))
      ensures ok ==> (complete <==> |Arrived()| == total) && |Arrived()| <= total
    {
      ok := true;
      while recv.readable && !complete
        invariant Valid() && (old(Able()) ==> Able()) && Left(old(recv.outcomes), recv.outcomes)
        invariant old(recv.readable) && !recv.readable ==> recv.Paused(old(recv.outcomes))
        invariant recv.buf == old(recv.buf) || fresh(recv.buf)
        invariant request == old(request) || fresh(request)
        invariant recv.consumed + recv.incoming == old(recv.consumed + recv.incoming)
        decreases recv.readable, |recv.outcomes|
      {
        ghost var rest := recv.outcomes;
        ok := Turn();
        if !ok {
          return;
        }
        recv.PausedBy(old(recv.outcomes), rest);
      }
    }
  }
}
