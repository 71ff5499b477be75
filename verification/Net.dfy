/** Buffered connection I/O of kore-3.2.0/src/net.c.  What the kernel does with each write and read
    is an arbitrary finite script of outcomes; when a script is used up, the call would block. */
module Net {
  import opened Bytes

  // ----- sending

  /** A `struct netbuf` of the send queue: `b_len` is |data|, `m_len` is `room`. */
  datatype NetBufRecord = NetBuf(data: seq<byte>, sOff: nat, room: nat, isStream: bool)

  /** A buffer that is sent does not stay in the queue. */
  type NetBuf = nb: NetBufRecord |
    nb.sOff <= |nb.data| <= nb.room && (nb.data == [] || nb.sOff < |nb.data|) witness NetBuf([], 0, 0, false)

  /** The bytes still to be sent, in order. */
  function Unsent(queue: seq<NetBuf>): seq<byte>
  {
    if queue == [] then [] else queue[0].data[queue[0].sOff..] + Unsent(queue[1..])
  }

  lemma {:induction false} UnsentSnoc(queue: seq<NetBuf>, nb: NetBuf)
    ensures Unsent(queue + [nb]) == Unsent(queue) + nb.data[nb.sOff..]
    decreases queue
  {
    var whole := queue + [nb];
    if queue == [] {
      assert whole[1..] == [];
      assert nb.data[nb.sOff..] + [] == [] + nb.data[nb.sOff..];
    } else {
      assert whole[0] == queue[0] && whole[1..] == queue[1..] + [nb];
      UnsentSnoc(queue[1..], nb);
      Associative(queue[0].data[queue[0].sOff..], Unsent(queue[1..]), nb.data[nb.sOff..]);
    }
  }

  /** Growing the last buffer appends to what is unsent. */
  lemma UnsentExtend(queue: seq<NetBuf>, more: seq<byte>)
    requires queue != []
    requires |queue[|queue| - 1].data| + |more| <= queue[|queue| - 1].room
    ensures
      var last := queue[|queue| - 1];
      Unsent(queue[..|queue| - 1] + [last.(data := last.data + more)]) == Unsent(queue) + more
  {
    var init, last := queue[..|queue| - 1], queue[|queue| - 1];
    var grown := last.(data := last.data + more);
    UnsentSnoc(init, last);
    UnsentSnoc(init, grown);
    assert queue == init + [last];
    assert grown.data[grown.sOff..] == last.data[last.sOff..] + more;
    assert Unsent(init) + (last.data[last.sOff..] + more) == Unsent(init) + last.data[last.sOff..] + more;
  }

  lemma UnsentHead(queue: seq<NetBuf>)
    requires queue != []
    ensures Unsent(queue) == queue[0].data[queue[0].sOff..] + Unsent(queue[1..])
  {
  }

  /** Part of the first buffer has moved to the wire. */
  lemma WroteSome(wire: seq<byte>, data: seq<byte>, sOff: nat, len: nat, n: nat, rest: seq<byte>)
    requires n <= len && sOff + len <= |data|
    ensures data[sOff..sOff + len][..n] == data[sOff..sOff + n]
    ensures wire + data[sOff..sOff + n] + (data[sOff + n..] + rest) == wire + (data[sOff..] + rest)
  {
    assert data[sOff..] == data[sOff..sOff + n] + data[sOff + n..];
  }

  datatype WriteOutcome = Wrote(n: nat) | Interrupted | WouldBlock | Failed

  /** How many bytes these calls offer to take at most, and at least, if each has something to write. */
  function Offered(os: seq<WriteOutcome>): nat {
    if os == [] then 0
    else Offered(os[..|os| - 1]) + (if os[|os| - 1].Wrote? then os[|os| - 1].n else 0)
  }

  function Taken(os: seq<WriteOutcome>): nat {
    if os == [] then 0
    else Taken(os[..|os| - 1]) + (if os[|os| - 1].Wrote? && os[|os| - 1].n > 0 then 1 else 0)
  }

  /** The kernel takes bytes or is interrupted, but never blocks or fails. */
  predicate Willing(os: seq<WriteOutcome>) {
    forall k | 0 <= k < |os| :: os[k].Wrote? || os[k].Interrupted?
  }

  lemma OneMoreCall(os: seq<WriteOutcome>, o: WriteOutcome)
    ensures Offered(os + [o]) == Offered(os) + (if o.Wrote? then o.n else 0)
    ensures Taken(os + [o]) == Taken(os) + (if o.Wrote? && o.n > 0 then 1 else 0)
  {
    assert (os + [o])[..|os|] == os;
  }

  class Sender {
    /** NETBUF_SEND_PAYLOAD_MAX */
    const payloadMax: nat
    var queue: seq<NetBuf>
    /** KORE_EVENT_WRITE */
    var writable: bool
    /** What the coming write calls will do. */
    var outcomes: seq<WriteOutcome>
    /** Every byte the kernel has accepted. */
    var wire: seq<byte>
    /** Every byte ever queued, in order. */
    ghost var queued: seq<byte>
    /** A write call has failed. */
    ghost var failed: bool
    /** CONN_CLOSE_EMPTY: disconnect as soon as everything is sent. */
    var closeEmpty: bool
    var disconnected: bool

    /** Conservation: accepted and unsent bytes together are what was queued, in order. */
    ghost predicate Valid()
      reads this
    {
      && payloadMax > 0
      && wire + Unsent(queue) == queued
    }

    constructor (payloadMax: nat)
      requires payloadMax > 0
      ensures Valid() && queued == [] && wire == [] && queue == [] && writable && outcomes == []
      ensures !failed && !closeEmpty && !disconnected
    {
      this.payloadMax := payloadMax;
      queue, writable, outcomes, wire, queued, failed := [], true, [], [], [], false;
      closeEmpty, disconnected := false, false;
    }

    /** The event loop reports the socket as writable again. */
    method EventWrite(more: seq<WriteOutcome>)
      requires Valid()
      modifies this`writable, this`outcomes
      ensures Valid() && writable && outcomes == more
    {
      writable, outcomes := true, more;
    }

    /** Copies `d` into the free room of the last buffer. */
    method Extend(d: seq<byte>)
      requires queue != [] && |queue[|queue| - 1].data| + |d| <= queue[|queue| - 1].room
      modifies this`queue
      ensures wire + Unsent(queue) == old(wire + Unsent(queue)) + d
    {
      var n := |queue| - 1;
      UnsentExtend(queue, d);
      assert wire + Unsent(queue) + d == wire + (Unsent(queue) + d);
      queue := queue[..n] + [queue[n].(data := queue[n].data + d)];
    }

    /** `net_send_queue`: fills up the last buffer, then opens a new one. */
    method Queue(data: seq<byte>)
      requires Valid()
      modifies this`queue, this`queued
      ensures Valid() && queued == old(queued) + data
    {
      queued := queued + data;
      var d := data;
      if queue != [] {
        var nb := queue[|queue| - 1];
        if !nb.isStream && |nb.data| < nb.room {
          var avail := nb.room - |nb.data|;
          if |d| < avail {
            Extend(d);
            return;
          }
          Extend(d[..avail]);
          d := d[avail..];
          assert old(queued) + data[..avail] + d == old(queued) + data;
          if |d| == 0 {
            return;
          }
        }
      }
      Push(NetBuf(d, 0, if |d| < payloadMax then payloadMax else |d|, false));
    }

    /** TAILQ_INSERT_TAIL of a fresh netbuf. */
    method Push(nb: NetBuf)
      requires payloadMax > 0 && nb.sOff == 0
      requires wire + Unsent(queue) + nb.data == queued
      modifies this`queue
      ensures Valid()
    {
      UnsentSnoc(queue, nb);
      assert nb.data[0..] == nb.data;
      assert wire + (Unsent(queue) + nb.data) == wire + Unsent(queue) + nb.data;
      queue := queue + [nb];
    }

    /** `net_send_stream` */
    method Stream(data: seq<byte>)
      requires Valid()
      modifies this`queue, this`queued
      ensures Valid() && queued == old(queued) + data
    {
      queued := queued + data;
      Push(NetBuf(data, 0, |data|, true));
    }

    /** `net_write`: None is KORE_RESULT_ERROR; otherwise `written`, meaningless once not writable. */
    method Write(data: seq<byte>) returns (written: Option<nat>)
      requires writable
      modifies this`writable, this`outcomes, this`wire, this`failed
      ensures if written.None? then failed else failed == old(failed)
      ensures written.Some? && writable ==> written.value <= |data| && wire == old(wire) + data[..written.value]
      ensures written.None? || !writable ==> wire == old(wire)
      ensures writable <==> old(outcomes) != [] && !old(outcomes)[0].WouldBlock?
      ensures written.None? <==> old(outcomes) != [] && old(outcomes)[0].Failed?
      ensures old(outcomes) != [] && old(outcomes)[0].Wrote? ==>
                written == Some(Min(old(outcomes)[0].n, |data|))
      ensures old(outcomes) != [] && old(outcomes)[0].Interrupted? ==> written == Some(0)
      ensures outcomes == (if old(outcomes) == [] then [] else old(outcomes)[1..])
    {
      if outcomes == [] {
        writable := false;
        return Some(0);
      }
      var now := outcomes[0];
      outcomes := outcomes[1..];
      match now
      case Interrupted => return Some(0);
      case WouldBlock =>
        writable := false;
        return Some(0);
      case Failed =>
        failed := true;
        return None;
      case Wrote(n) =>
        var k := Min(n, |data|);
        wire := wire + data[..k];
        return Some(k);
    }

    /** With the first buffer sent up to `sOff`, conservation still holds. */
    ghost predicate SentTo(sOff: nat)
      requires queue != []
      reads this
    {
      && payloadMax > 0 && queue[0].sOff <= sOff <= |queue[0].data|
      && wire + (queue[0].data[sOff..] + Unsent(queue[1..])) == queued
    }

    lemma SentSoFar()
      requires Valid() && queue != []
      ensures SentTo(queue[0].sOff)
    {
      UnsentHead(queue);
    }

    /** What the first buffer hands to the next write call. */
    function Chunk(): nat
      requires queue != [] && queue[0].sOff <= |queue[0].data|
      reads this
    {
      Min(payloadMax, |queue[0].data| - queue[0].sOff)
    }

    /** The write of net_send: at most payloadMax bytes of the first buffer; `sOff` is how far it is
        sent afterwards. */
    method WriteHead() returns (ok: bool, sOff: nat)
      requires Valid() && queue != [] && writable && queue[0].data != []
      modifies this`writable, this`outcomes, this`wire, this`failed
      ensures if ok then failed == old(failed) else failed
      ensures ok && writable ==>
                && SentTo(sOff) && old(wire) <= wire && |wire| == |old(wire)| + (sOff - queue[0].sOff)
                && sOff - queue[0].sOff ==
                   (if old(outcomes) != [] && old(outcomes)[0].Wrote? then Min(old(outcomes)[0].n, Chunk()) else 0)
                && (sOff == |queue[0].data| ==> wire == old(wire) + queue[0].data[queue[0].sOff..])
      ensures !ok || !writable ==> wire == old(wire)
      ensures writable <==> old(outcomes) != [] && !old(outcomes)[0].WouldBlock?
      ensures !ok <==> old(outcomes) != [] && old(outcomes)[0].Failed?
      ensures outcomes == (if old(outcomes) == [] then [] else old(outcomes)[1..])
    {
      hide Unsent;
      SentSoFar();
      var snb := queue[0];
      sOff := snb.sOff;
      var len := Chunk();
      var r := Write(snb.data[sOff..sOff + len]);
      if r.None? {
        return false, sOff;
      }
      if writable {
        WroteSome(old(wire), snb.data, sOff, len, r.value, Unsent(queue[1..]));
        sOff := sOff + r.value;
      }
      ok := true;
    }

    /** `net_send`: one write of the first buffer, which leaves the queue when (and only when) all of
        it has been accepted. */
    method Send() returns (ok: bool)
      requires Valid() && queue != [] && writable
      modifies this`queue, this`writable, this`outcomes, this`wire, this`failed
      ensures Valid() && if ok then failed == old(failed) else failed
      ensures |queue| < |old(queue)| ==>
                && queue == old(queue)[1..]
                && wire == old(wire) + old(queue)[0].data[old(queue)[0].sOff..]
      ensures old(wire) <= wire
      ensures old(queue)[0].data == [] ==>
                && ok && writable && outcomes == old(outcomes) && |queue| < |old(queue)| && wire == old(wire)
      ensures old(queue)[0].data != [] ==>
                && (writable <==> old(outcomes) != [] && !old(outcomes)[0].WouldBlock?)
                && (!ok <==> old(outcomes) != [] && old(outcomes)[0].Failed?)
                && outcomes == (if old(outcomes) == [] then [] else old(outcomes)[1..])
                && |wire| == |old(wire)| +
                   (if old(outcomes) != [] && old(outcomes)[0].Wrote? then Min(old(outcomes)[0].n, old(Chunk())) else 0)
    {
      hide Unsent, SentTo;
      SentSoFar();
      var sOff := queue[0].sOff;
      if queue[0].data != [] {
        ok, sOff := WriteHead();
        if !ok || !writable {
          return;
        }
      } else {
        assert queue[0].data[queue[0].sOff..] == [];
      }
      Settle(sOff);
      return true;
    }

    /** The end of net_send: the first buffer leaves the queue or keeps its new offset. */
    method Settle(sOff: nat)
      requires queue != [] && SentTo(sOff)
      modifies this`queue
      ensures Valid()
      ensures if sOff == |old(queue)[0].data| then queue == old(queue)[1..] else |queue| == |old(queue)|
    {
      var snb, tail := queue[0], queue[1..];
      if sOff == |snb.data| {
        assert snb.data[sOff..] + Unsent(tail) == Unsent(tail);
        queue := tail;
      } else {
        queue := [snb.(sOff := sOff)] + tail;
        assert queue[1..] == tail;
      }
    }

    /** A flush that began with this script, and these bytes on the wire, has used up part of it:
        the calls that took something took at least a byte each and no more than they offered. */
    ghost predicate Flushed(script: seq<WriteOutcome>, before: seq<byte>)
      reads this`outcomes, this`wire
    {
      && Left(script, outcomes) && before <= wire
      && |before| + Taken(Used(script, outcomes)) <= |wire| <= |before| + Offered(Used(script, outcomes))
    }

    /** The last call the kernel answered. */
    predicate Last(script: seq<WriteOutcome>, o: WriteOutcome)
      reads this`outcomes
    {
      |outcomes| < |script| && script[|script| - |outcomes| - 1] == o
    }

    /** One turn of the flush. */
    method SendNext(ghost script: seq<WriteOutcome>, ghost before: seq<byte>) returns (ok: bool)
      requires Valid() && queue != [] && writable && Flushed(script, before)
      modifies this`queue, this`writable, this`outcomes, this`wire, this`failed
      ensures Valid() && Flushed(script, before) && if ok then failed == old(failed) else failed
      ensures ok && !writable ==> outcomes == [] || Last(script, WouldBlock)
      ensures !ok ==> Last(script, Failed)
      ensures |outcomes| < |old(outcomes)| || !writable || (outcomes == old(outcomes) && |queue| < |old(queue)|)
      ensures |outcomes| <= |old(outcomes)|
    {
      hide Unsent, Offered, Taken;
      ghost var rest, chunk := outcomes, Chunk();
      assert queue[0].data != [] ==> chunk > 0;
      ok := Send();
      if rest != [] && |outcomes| < |rest| {
        UsedOneMore(script, rest);
        OneMoreCall(Used(script, rest), rest[0]);
      }
    }

    /** `net_send_flush`: goes on until everything is sent, the kernel says that the call would block
        (or has nothing more to say), or a call fails; a connection to be closed when empty is
        disconnected exactly when everything is sent. */
    method Flush() returns (ok: bool)
      requires Valid()
      modifies this`queue, this`writable, this`outcomes, this`wire, this`failed, this`disconnected
      ensures Valid() && if ok then (queue == [] || !writable) && failed == old(failed) else failed
      ensures disconnected == (old(disconnected) || (ok && closeEmpty && queue == []))
      ensures Flushed(old(outcomes), old(wire))
      ensures old(writable) && ok && queue != [] ==> outcomes == [] || Last(old(outcomes), WouldBlock)
      ensures !ok ==> Last(old(outcomes), Failed)
      ensures old(writable) && Willing(old(outcomes)) && Taken(old(outcomes)) >= |old(Unsent(queue))| ==>
                ok && Unsent(queue) == []
    {
      hide Unsent, Offered, Taken, Flushed, Last, Willing;
      ghost var script, before := outcomes, wire;
      NothingFlushed();
      while queue != [] && writable
        invariant Valid() && failed == old(failed) && disconnected == old(disconnected)
        invariant Flushed(script, before)
        invariant old(writable) && !writable ==> outcomes == [] || Last(script, WouldBlock)
        decreases |outcomes| + (if writable then 1 else 0), |queue|
      {
        ok := SendNext(script, before);
        if !ok {
          WillingNeverEnds(script, Failed);
          return;
        }
      }
      if old(writable) {
        AllSent(script, before, |old(Unsent(queue))|);
      }
      if closeEmpty && queue == [] {
        disconnected := true;
      }
      return true;
    }

    /** A call that blocks or fails is not among the willing ones. */
    lemma WillingNeverEnds(script: seq<WriteOutcome>, o: WriteOutcome)
      requires o.WouldBlock? || o.Failed?
      ensures Last(script, o) ==> !Willing(script)
    {
    }

    /** Enough willing calls send everything. */
    lemma AllSent(script: seq<WriteOutcome>, before: seq<byte>, todo: nat)
      requires Valid() && Flushed(script, before) && |queued| == |before| + todo
      requires queue != [] ==> !writable
      requires queue == [] || outcomes == [] || Last(script, WouldBlock)
      ensures Willing(script) && Taken(script) >= todo ==> Unsent(queue) == []
    {
      hide Offered, Taken, Willing, Last;
      WillingNeverEnds(script, WouldBlock);
      assert |queued| == |wire| + |Unsent(queue)|;
      if outcomes == [] {
        assert Used(script, outcomes) == script;
      }
    }

    lemma NothingFlushed()
      ensures Flushed(outcomes, wire)
    {
    }
  }

  // ----- receiving

  datatype ReadOutcome = Got(n: nat) | ReadInterrupted | ReadWouldBlock | ReadFailed | EndOfFile

  datatype ReadStatus = ReadError | Blocked | Progress

  /** The read reports end of file, that it would block, or finds nothing. */
  predicate Stops(o: ReadOutcome, incoming: seq<byte>) {
    o.ReadWouldBlock? || o.EndOfFile? || (o.Got? && (o.n == 0 || incoming == []))
  }

  /** How many bytes a read brings. */
  function Arriving(o: ReadOutcome, wanted: nat, incoming: seq<byte>): nat {
    if o.Got? then Min(o.n, Min(wanted, |incoming|)) else 0
  }

  /** The receive netbuf of a connection: `s_off` bytes of the `b_len` asked for have arrived. */
  class Receiver {
    const payloadMax: nat
    var buf: array<byte>
    var sOff: nat
    var bLen: nat
    /** KORE_EVENT_READ */
    var readable: bool
    var disconnected: bool
    /** What has reached the socket and was not read yet. */
    var incoming: seq<byte>
    var outcomes: seq<ReadOutcome>
    /** Every byte read so far. */
    ghost var consumed: seq<byte>
    /** A read call has failed. */
    ghost var failed: bool

    ghost predicate Valid()
      reads this
    {
      sOff <= bLen <= buf.Length
    }

    ghost function Received(): seq<byte>
      requires Valid()
      reads this, buf
    {
      buf[..sOff]
    }

    /** Of this script, reading has used up a part, and it paused for a reason: there is no more of it,
        or the last call reported the end of file, that it would block, or nothing to read. */
    predicate Paused(script: seq<ReadOutcome>)
      reads this`outcomes, this`incoming
    {
      && Left(script, outcomes)
      && (outcomes == [] || (|outcomes| < |script| && Stops(script[|script| - |outcomes| - 1], incoming)))
    }

    /** One more call of the script. */
    lemma PausedBy(script: seq<ReadOutcome>, rest: seq<ReadOutcome>)
      requires Left(script, rest) && outcomes == (if rest == [] then [] else rest[1..])
      ensures Left(script, outcomes)
      ensures rest == [] || Stops(rest[0], incoming) ==> Paused(script)
    {
      if rest != [] {
        UsedOneMore(script, rest);
        assert script[|script| - |rest|] == rest[0];
      }
    }

    /** `net_recv_queue` */
    constructor (payloadMax: nat, len: nat)
      ensures Valid() && fresh(buf) && Received() == [] && bLen == len && consumed == [] && incoming == [] && !failed
    {
      this.payloadMax := payloadMax;
      buf := new byte[len](_ => 0);
      sOff, bLen, readable, disconnected := 0, len, false, false;
      incoming, outcomes, consumed, failed := [], [], [], false;
    }

    /** The event loop reports the socket as readable: more bytes, and a new script. */
    method EventRead(bytes: seq<byte>, more: seq<ReadOutcome>)
      modifies this`readable, this`incoming, this`outcomes
      ensures readable && incoming == old(incoming) + bytes && outcomes == more
    {
      readable, incoming, outcomes := true, incoming + bytes, more;
    }

    /** `net_recv_reset` */
    method Reset(len: nat)
      requires Valid()
      modifies this`buf, this`sOff, this`bLen
      ensures Valid() && Received() == [] && bLen == len
      ensures buf == old(buf) || fresh(buf)
    {
      sOff, bLen := 0, len;
      if bLen <= buf.Length && buf.Length < payloadMax / 2 {
        return;
      }
      buf := new byte[len](_ => 0);
    }

    /** `net_recv_expand`: asks for `len` bytes more and keeps what has arrived. */
    method Expand(len: nat)
      requires Valid()
      modifies this`buf, this`bLen
      ensures Valid() && Received() == old(Received()) && bLen == old(bLen) + len
      ensures fresh(buf)
    {
      var grown := new byte[bLen + len](_ => 0);
      forall i | 0 <= i < sOff {
        grown[i] := buf[i];
      }
      bLen := bLen + len;
      ghost var was := buf[..sOff];
      buf := grown;
      assert buf[..sOff] == was;
    }

    /** `net_read` and the advance of `s_off` in net_recv_flush: at most `b_len - s_off` bytes. */
    method Read() returns (status: ReadStatus)
      requires Valid() && readable && sOff < bLen
      modifies this`sOff, this`readable, this`disconnected
      modifies this`incoming, this`outcomes, this`consumed, this`failed, buf
      ensures Valid() && sOff >= old(sOff)
      ensures if status.ReadError? then failed else failed == old(failed)
      ensures Received() + incoming == old(Received() + incoming)
      ensures consumed + incoming == old(consumed + incoming)
      ensures consumed == old(consumed) + Received()[old(sOff)..]
      ensures old(Received()) == Received()[..old(sOff)]
      ensures status.Progress? <==> readable && !status.ReadError?
      ensures outcomes == (if old(outcomes) == [] then [] else old(outcomes)[1..])
      ensures status.ReadError? <==> old(outcomes) != [] && old(outcomes)[0].ReadFailed?
      ensures status.Blocked? <==> old(outcomes) == [] || Stops(old(outcomes)[0], old(incoming))
      ensures status.Progress? ==>
                sOff == old(sOff) + Arriving(old(outcomes)[0], old(bLen - sOff), old(incoming))
      ensures !status.Progress? ==> sOff == old(sOff)
      ensures |outcomes| <= |old(outcomes)| && (status.Progress? ==> |outcomes| < |old(outcomes)|)
    {
      if outcomes == [] {
        readable := false;
        return Blocked;
      }
      var now := outcomes[0];
      outcomes := outcomes[1..];
      match now
      case ReadInterrupted => return Progress;
      case ReadWouldBlock =>
        readable := false;
        return Blocked;
      case ReadFailed =>
        failed := true;
        return ReadError;
      case EndOfFile =>
        disconnected, readable := true, false;
        return Blocked;
      case Got(n) =>
        var k := Min(n, Min(bLen - sOff, |incoming|));
        if k == 0 {
          readable := false;
          return Blocked;
        }
        Take(k);
        return Progress;
    }

    /** `k` bytes move from the socket into the buffer. */
    method Take(k: nat)
      requires Valid() && k <= bLen - sOff && k <= |incoming|
      modifies this`sOff, this`incoming, this`consumed, buf
      ensures Valid() && sOff == old(sOff) + k
      ensures Received() == old(Received()) + old(incoming)[..k] && incoming == old(incoming)[k..]
      ensures consumed == old(consumed) + old(incoming)[..k]
    {
      ghost var was := Received();
      forall i | 0 <= i < k {
        buf[sOff + i] := incoming[i];
      }
      consumed := consumed + incoming[..k];
      assert buf[..sOff + k] == was + incoming[..k];
      sOff, incoming := sOff + k, incoming[k..];
    }
  }
}
