/** Messages between worker processes (kore-3.2.0/src/msg.c): a header and a payload on a byte
    stream that is written and read in arbitrary pieces, and the parent that routes them. */
module Msg {
  import opened Bytes
  import opened Net

  type u16 = x: int | 0 <= x < 0x1_0000
  type size_t = x: int | 0 <= x <= SIZE_MAX

  /** `struct kore_msg` */
  datatype Header = Header(id: byte, src: u16, dst: u16, length: size_t)

  /** How the compiler lays the header out in memory: nothing below depends on more than that an
      image has a fixed size and can be read back. */
  datatype Layout = Layout(size: nat, image: Header -> seq<byte>, read: seq<byte> -> Header)
  {
    ghost predicate Faithful() {
      size > 0 && forall h :: |image(h)| == size && read(image(h)) == h
    }
  }

  datatype Message = Message(id: byte, src: u16, dst: u16, data: seq<byte>)

  /** A message short enough for its length field. */
  predicate Sendable(m: Message) {
    |m.data| <= SIZE_MAX
  }

  function HeaderOf(m: Message): Header
    requires Sendable(m)
  {
    Header(m.id, m.src, m.dst, |m.data|)
  }

  /** The bytes of a message on the stream. */
  function Wire(l: Layout, m: Message): seq<byte>
    requires Sendable(m)
  {
    l.image(HeaderOf(m)) + m.data
  }

  predicate AllSendable(ms: seq<Message>) {
    forall i | 0 <= i < |ms| :: Sendable(ms[i])
  }

  function WireAll(l: Layout, ms: seq<Message>): seq<byte>
    requires AllSendable(ms)
  {
    if ms == [] then [] else Wire(l, ms[0]) + WireAll(l, ms[1..])
  }

  // ----- decoding

  /** A whole message: a header and as many bytes as it announces. */
  predicate Complete(l: Layout, f: seq<byte>) {
    l.size <= |f| && |f| == l.size + l.read(f[..l.size]).length
  }

  /** The beginning of a message, but not all of it. */
  predicate Incomplete(l: Layout, s: seq<byte>) {
    |s| < l.size || |s| < l.size + l.read(s[..l.size]).length
  }

  function Parse(l: Layout, f: seq<byte>): (m: Message)
    requires Complete(l, f)
    ensures Sendable(m)
  {
    var h := l.read(f[..l.size]);
    Message(h.id, h.src, h.dst, f[l.size..])
  }

  predicate AllComplete(l: Layout, frames: seq<seq<byte>>) {
    forall i | 0 <= i < |frames| :: Complete(l, frames[i])
  }

  function ParseAll(l: Layout, frames: seq<seq<byte>>): (ms: seq<Message>)
    requires AllComplete(l, frames)
    ensures |ms| == |frames| && AllSendable(ms)
  {
    seq(|frames|, i requires 0 <= i < |frames| => Parse(l, frames[i]))
  }

  /** A stream that begins with a message begins with exactly one complete frame, and with no
      incomplete one. */
  lemma FirstFrame(l: Layout, m: Message, rest: seq<byte>, f: seq<byte>, more: seq<byte>)
    requires l.Faithful() && Sendable(m) && Wire(l, m) + rest == f + more
    ensures Complete(l, f) ==> Parse(l, f) == m && rest == more
    ensures Incomplete(l, f) ==> more != []
  {
    var image := l.image(HeaderOf(m));
    assert |image| == l.size && l.read(image) == HeaderOf(m);
    var s := f + more;
    assert s == image + (m.data + rest);
    assert s[..l.size] == image;
    if l.size <= |f| {
      assert f[..l.size] == image;
      if Complete(l, f) {
        assert s[..|f|] == f && s[l.size..|f|] == f[l.size..] == m.data;
        assert s[|f|..] == more && (m.data + rest)[|m.data|..] == rest;
      }
    }
  }

  /** Unique decoding: complete frames and the beginning of another one, if they are a prefix of a
      stream of messages, are the first messages of it; if they are all of it, all of them. */
  lemma {:induction false} UniqueDecoding(l: Layout, frames: seq<seq<byte>>, tail: seq<byte>,
                                          sent: seq<Message>, later: seq<byte>)
    requires l.Faithful() && AllComplete(l, frames) && AllSendable(sent) && Incomplete(l, tail)
    requires Flatten(frames) + tail + later == WireAll(l, sent)
    ensures ParseAll(l, frames) <= sent
    ensures later == [] ==> ParseAll(l, frames) == sent && tail == []
    decreases frames
  {
    var got := ParseAll(l, frames);
    if frames == [] {
      assert WireAll(l, sent) == tail + later;
      if sent != [] {
        FirstFrame(l, sent[0], WireAll(l, sent[1..]), tail, later);
      }
    } else {
      var more := Flatten(frames[1..]) + tail + later;
      assert Flatten(frames) + tail + later == frames[0] + more;
      assert sent != [];
      FirstFrame(l, sent[0], WireAll(l, sent[1..]), frames[0], more);
      UniqueDecoding(l, frames[1..], tail, sent[1..], later);
      assert got[1..] == ParseAll(l, frames[1..]);
      assert got == [got[0]] + got[1..] && sent == [sent[0]] + sent[1..];
    }
  }

  /** `kore_msg_send`; a null payload is the empty one. */
  method Send(out: Sender, l: Layout, self: u16, dst: u16, id: byte, data: seq<byte>)
    requires out.Valid() && |data| <= SIZE_MAX
    modifies out
    ensures out.Valid() && out.queued == old(out.queued) + Wire(l, Message(id, self, dst, data))
    ensures out.queue == [] || !out.writable || out.failed
  {
    ghost var was := out.queued;
    out.Queue(l.image(Header(id, self, dst, |data|)));
    if |data| > 0 {
      out.Queue(data);
    }
    var image := l.image(Header(id, self, dst, |data|));
    assert was + image + data == was + (image + data);
    var ok := out.Flush();
  }

  // ----- receiving and routing

  /** A connection as the routing loop sees it: its protocol, the worker behind it (None once it
      disconnected) and its send queue. */
  datatype Peer = Peer(isMsg: bool, worker: Option<byte>, out: Sender)

  datatype Phase = AwaitPacket | AwaitData

  /** The ends of the message protocol: what is fixed while an end runs. */
  datatype Role = Role(
    layout: Layout,
    /** None in the parent, the worker's id in a worker. */
    self: Option<byte>,
    /** KORE_MSG_PARENT and KORE_MSG_WORKER_ALL */
    parentId: u16,
    allId: u16,
    /** The ids with a registered callback. */
    registered: set<byte>)

  /** The message for this peer, if the parent forwards `m` to it: only the destination changes. */
  function Forwarded(role: Role, p: Peer, m: Message): seq<byte>
    requires Sendable(m)
  {
    if role.self.None? && m.id !in role.registered && p.isMsg && p.worker.Some? &&
       (m.dst == role.allId || p.worker.value == m.dst)
    then Wire(role.layout, m.(dst := p.worker.value))
    else []
  }

  function ForwardedAll(role: Role, p: Peer, ms: seq<Message>): seq<byte>
    requires AllSendable(ms)
  {
    if ms == [] then []
    else ForwardedAll(role, p, ms[..|ms| - 1]) + Forwarded(role, p, ms[|ms| - 1])
  }

  /** The messages for registered callbacks. */
  function Dispatched(role: Role, ms: seq<Message>): seq<Message> {
    if ms == [] then []
    else
      var m := ms[|ms| - 1];
      Dispatched(role, ms[..|ms| - 1]) + (if m.id in role.registered then [m] else [])
  }

  lemma {:induction false} DispatchedConcat(role: Role, a: seq<Message>, b: seq<Message>)
    ensures Dispatched(role, a + b) == Dispatched(role, a) + Dispatched(role, b)
    decreases b
  {
    var ab := a + b;
    if b == [] {
      assert ab == a;
    } else {
      var n := |b| - 1;
      assert ab[..|ab| - 1] == a + b[..n] && ab[|ab| - 1] == b[n];
      DispatchedConcat(role, a, b[..n]);
    }
  }

  /** Every message with a registered id is handed to its callback, once and in order. */
  lemma {:induction false} RegisteredAreDispatched(role: Role, ms: seq<Message>)
    requires forall i | 0 <= i < |ms| :: ms[i].id in role.registered
    ensures Dispatched(role, ms) == ms
    decreases ms
  {
    if ms != [] {
      RegisteredAreDispatched(role, ms[..|ms| - 1]);
      assert ms == ms[..|ms| - 1] + [ms[|ms| - 1]];
    }
  }

  /** And no other one is. */
  lemma {:induction false} OthersAreNotDispatched(role: Role, ms: seq<Message>)
    requires forall i | 0 <= i < |ms| :: ms[i].id !in role.registered
    ensures Dispatched(role, ms) == []
    decreases ms
  {
    if ms != [] {
      OthersAreNotDispatched(role, ms[..|ms| - 1]);
    }
  }

  /** One more complete frame: one more message, and one more callback if its id is registered. */
  lemma FrameDone(role: Role, frames: seq<seq<byte>>, f: seq<byte>)
    requires AllComplete(role.layout, frames) && Complete(role.layout, f)
    ensures
      var m := Parse(role.layout, f);
      && AllComplete(role.layout, frames + [f])
      && ParseAll(role.layout, frames + [f]) == ParseAll(role.layout, frames) + [m]
      && Dispatched(role, ParseAll(role.layout, frames + [f])) ==
         Dispatched(role, ParseAll(role.layout, frames)) + (if m.id in role.registered then [m] else [])
      && Flatten(frames + [f]) == Flatten(frames) + f
  {
    FlattenSnoc(frames, f);
    var ms := ParseAll(role.layout, frames);
    assert (ms + [Parse(role.layout, f)])[..|ms|] == ms;
  }

  /** Complete frames at the start of a stream of messages: the last of them is a message of it. */
  lemma LastFrame(role: Role, frames: seq<seq<byte>>, f: seq<byte>, sent: seq<Message>, later: seq<byte>)
    requires role.layout.Faithful() && AllComplete(role.layout, frames) && Complete(role.layout, f)
    requires AllSendable(sent) && Flatten(frames) + f + later == WireAll(role.layout, sent)
    ensures |frames| < |sent| && sent[|frames|] == Parse(role.layout, f)
  {
    assert role.layout.size > 0;
    hide Layout.Faithful, Complete, Dispatched, Flatten, Parse, ParseAll, WireAll, AllSendable;
    FrameDone(role, frames, f);
    var all := frames + [f];
    assert Incomplete(role.layout, []);
    SameBytes(Flatten(frames), f, later);
    UniqueDecoding(role.layout, all, [], sent, later);
    assert ParseAll(role.layout, all) == ParseAll(role.layout, frames) + [Parse(role.layout, f)];
  }

  lemma SameBytes(a: seq<byte>, b: seq<byte>, c: seq<byte>)
    ensures a + b + [] + c == a + b + c
  {
  }

  lemma {:induction false} ForwardedConcat(role: Role, p: Peer, a: seq<Message>, b: seq<Message>)
    requires AllSendable(a) && AllSendable(b)
    ensures ForwardedAll(role, p, a + b) == ForwardedAll(role, p, a) + ForwardedAll(role, p, b)
    decreases b
  {
    hide Forwarded;
    if b == [] {
      assert a + b == a;
    } else {
      var n := |b| - 1;
      var ab := a + b;
      assert ab[..|ab| - 1] == a + b[..n] && ab[|ab| - 1] == b[n];
      ForwardedConcat(role, p, a, b[..n]);
      Associative(ForwardedAll(role, p, a), ForwardedAll(role, p, b[..n]), Forwarded(role, p, b[n]));
    }
  }

  /** Frames were added and each peer was sent exactly what those messages forward to it. */
  ghost predicate Grew(role: Role, peers: seq<Peer>, f0: seq<seq<byte>>, q0: seq<seq<byte>>,
                       f1: seq<seq<byte>>, q1: seq<seq<byte>>)
  {
    && f0 <= f1 && |q0| == |q1| == |peers| && AllComplete(role.layout, f1)
    && forall i | 0 <= i < |peers| ::
         q1[i] == q0[i] + ForwardedAll(role, peers[i], ParseAll(role.layout, f1[|f0|..]))
  }

  lemma GrewTwice(role: Role, peers: seq<Peer>, f0: seq<seq<byte>>, q0: seq<seq<byte>>,
                  f1: seq<seq<byte>>, q1: seq<seq<byte>>, f2: seq<seq<byte>>, q2: seq<seq<byte>>)
    requires Grew(role, peers, f0, q0, f1, q1) && Grew(role, peers, f1, q1, f2, q2)
    ensures Grew(role, peers, f0, q0, f2, q2)
  {
    var a, b := ParseAll(role.layout, f1[|f0|..]), ParseAll(role.layout, f2[|f1|..]);
    assert ParseAll(role.layout, f2[|f0|..]) == a + b;
    forall i | 0 <= i < |peers|
      ensures q2[i] == q0[i] + ForwardedAll(role, peers[i], a + b)
    {
      ForwardedConcat(role, peers[i], a, b);
      Associative(q0[i], ForwardedAll(role, peers[i], a), ForwardedAll(role, peers[i], b));
    }
  }

  class End {
    const role: Role
    const recv: Receiver
    const peers: seq<Peer>
    var phase: Phase
    /** Arguments of the registered callbacks, call by call. */
    var callbacks: seq<Message>
    /** The bytes of every message received so far. */
    ghost var frames: seq<seq<byte>>

    ghost predicate PhaseSane()
      requires recv.Valid()
      reads this, recv, recv.buf
    {
      if phase.AwaitPacket? then recv.bLen == role.layout.size
      else
        && role.layout.size <= recv.sOff
        && recv.bLen == role.layout.size + role.layout.read(recv.Received()[..role.layout.size]).length
    }

    /** Callbacks are made for messages to this end only. */
    ghost predicate OwnOnly()
      reads this`callbacks
    {
      forall i | 0 <= i < |callbacks| ::
        callbacks[i].dst == if role.self.None? then role.parentId else role.self.value
    }

    /** All bytes read are the complete frames and the start of one more. */
    ghost predicate Framed()
      reads this, recv, recv.buf
    {
      && role.layout.Faithful() && recv.Valid() && AllComplete(role.layout, frames)
      && recv.consumed == Flatten(frames) + recv.Received()
      && callbacks == Dispatched(role, ParseAll(role.layout, frames)) && OwnOnly()
      && PhaseSane()
    }

    /** Between callbacks: more bytes are wanted. */
    ghost predicate Valid()
      reads this, recv, recv.buf
    {
      Framed() && recv.sOff < recv.bLen
    }

    constructor (role: Role, payloadMax: nat, peers: seq<Peer>)
      requires role.layout.Faithful()
      ensures Valid() && fresh(recv) && fresh(recv.buf) && frames == [] && callbacks == []
      ensures this.role == role && this.peers == peers
    {
      this.role, this.peers := role, peers;
      recv := new Receiver(payloadMax, role.layout.size);
      phase, callbacks, frames := AwaitPacket, [], [];
      new;
      assert role.layout.Faithful();
      var h: Header := Header(0, 0, 0, 0);
      assert |role.layout.image(h)| == role.layout.size;
    }

    /** The send queues of the peers are sound and pairwise different. */
    ghost predicate PeersSane()
      reads set i | 0 <= i < |peers| :: peers[i].out
    {
      && (forall i | 0 <= i < |peers| :: peers[i].out.Valid())
      && (forall i, j | 0 <= i < j < |peers| :: peers[i].out != peers[j].out)
    }

    ghost function Outs(): set<object> {
      set i | 0 <= i < |peers| :: peers[i].out
    }

    /** The receive buffer holds this message, but for its destination. */
    ghost predicate HoldsMessage(m: Message)
      requires Sendable(m)
      reads this, recv, recv.buf
    {
      && role.layout.Faithful() && recv.Valid() && role.layout.size <= recv.sOff
      && recv.Received()[role.layout.size..] == m.data
      && role.layout.read(recv.Received()[..role.layout.size]).(dst := 0) == HeaderOf(m).(dst := 0)
    }

    /** One turn of the routing loop of msg_recv_data: rewrites the destination in the receive
        buffer and queues the buffer on the peer, if the message is for it. */
    method ForwardTo(p: Peer, destination: u16, ghost m: Message)
      requires Sendable(m) && HoldsMessage(m) && role.self.None? && m.id !in role.registered && destination == m.dst
      requires p.out.Valid()
      modifies recv.buf, p.out
      ensures p.out.Valid() && p.out.queued == old(p.out.queued) + Forwarded(role, p, m)
      ensures HoldsMessage(m)
    {
      if !p.isMsg || p.worker.None? {
        return;
      }
      if destination != role.allId && p.worker.value != destination {
        return;
      }
      var size := role.layout.size;
      ghost var h := HeaderOf(m).(dst := p.worker.value);
      var image := role.layout.image(role.layout.read(recv.buf[..size]).(dst := p.worker.value));
      assert recv.Received()[..size] == recv.buf[..size];
      assert image == role.layout.image(h) && |image| == size && role.layout.read(image) == h;
      Overwrite(image);
      assert recv.buf[..recv.sOff] == image + m.data;
      p.out.Queue(recv.buf[..recv.sOff]);
      var ok := p.out.Flush();
    }

    /** The header in the receive buffer is replaced. */
    method Overwrite(image: seq<byte>)
      requires recv.Valid() && |image| <= recv.sOff
      modifies recv.buf
      ensures recv.Received() == image + old(recv.Received())[|image|..]
    {
      ghost var was := recv.Received();
      var b := recv.buf;
      forall i | 0 <= i < |image| {
        b[i] := image[i];
      }
      assert recv.buf[..recv.sOff] == image + was[|image|..];
    }

    /** The routing loop: every peer's queue grows by exactly what is forwarded to it. */
    method Route(destination: u16, ghost m: Message)
      requires Sendable(m) && HoldsMessage(m) && role.self.None? && m.id !in role.registered && destination == m.dst
      requires PeersSane()
      modifies recv.buf, Outs()
      ensures PeersSane()
      ensures forall i | 0 <= i < |peers| ::
                peers[i].out.queued == old(peers[i].out.queued) + Forwarded(role, peers[i], m)
    {
      hide Forwarded, HoldsMessage, Sender.Valid;
      for k := 0 to |peers|
        invariant HoldsMessage(m)
        invariant PeersSane()
        invariant forall i | 0 <= i < k ::
                    peers[i].out.queued == old(peers[i].out.queued) + Forwarded(role, peers[i], m)
        invariant forall i | k <= i < |peers| :: peers[i].out.queued == old(peers[i].out.queued)
      {
        ForwardTo(peers[k], destination, m);
      }
    }

    /** A message for a registered id must be addressed to this end, else the process stops. */
    predicate Misaddressed(m: Message) {
      m.id in role.registered && m.dst != (if role.self.None? then role.parentId else role.self.value)
    }

    /** The end stopped at a message for it that is wrongly addressed. */
    ghost predicate Refused()
      reads this, recv, recv.buf
    {
      && role.layout.Faithful() && recv.Valid() && AllComplete(role.layout, frames)
      && recv.consumed == Flatten(frames) + recv.Received()
      && Complete(role.layout, recv.Received()) && Misaddressed(Parse(role.layout, recv.Received()))
    }

    /** It stops only at a message that was sent so. */
    lemma RefusedWasSent(sent: seq<Message>, later: seq<byte>)
      requires Refused() && AllSendable(sent) && recv.consumed + later == WireAll(role.layout, sent)
      ensures exists i | 0 <= i < |sent| ::
                && sent[i].id in role.registered
                && sent[i].dst != if role.self.None? then role.parentId else role.self.value
    {
      LastFrame(role, frames, recv.Received(), sent, later);
    }

    /** The first half of `msg_recv_data`: the callback, or the routing. */
    method Deliver(ghost m: Message) returns (ok: bool)
      requires role.layout.Faithful() && recv.Valid() && PeersSane()
      requires Complete(role.layout, recv.Received()) && m == Parse(role.layout, recv.Received()) && OwnOnly()
      modifies this`callbacks, recv.buf, Outs()
      ensures OwnOnly() && PeersSane() && ok == !Misaddressed(m)
      ensures !ok ==> recv.Received() == old(recv.Received())
      ensures ok ==> callbacks == old(callbacks) + (if m.id in role.registered then [m] else [])
      ensures ok ==> forall i | 0 <= i < |peers| ::
                peers[i].out.queued == old(peers[i].out.queued) + Forwarded(role, peers[i], m)
    {
      var size := role.layout.size;
      var h := role.layout.read(recv.buf[..size]);
      assert recv.Received()[..size] == recv.buf[..size];
      assert recv.Received()[size..] == recv.buf[size..recv.sOff];
      if h.id in role.registered {
        if h.dst != (if role.self.None? then role.parentId else role.self.value) {
          return false;
        }
        callbacks := callbacks + [Message(h.id, h.src, h.dst, recv.buf[size..recv.sOff])];
      } else if role.self.None? {
        Route(h.dst, m);
      }
      ok := true;
    }

    /** The second half of `msg_recv_data`: back to waiting for a header. */
    method Rearm(ghost f: seq<byte>)
      requires role.layout.Faithful() && recv.Valid()
      requires AllComplete(role.layout, frames) && Complete(role.layout, f)
      requires recv.consumed == Flatten(frames) + f
      requires callbacks == Dispatched(role, ParseAll(role.layout, frames + [f])) && OwnOnly()
      modifies this`phase, this`frames, recv`buf, recv`sOff, recv`bLen
      ensures Valid() && frames == old(frames) + [f]
      ensures recv.buf == old(recv.buf) || fresh(recv.buf)
    {
      FrameDone(role, frames, f);
      frames := frames + [f];
      phase := AwaitPacket;
      recv.Reset(role.layout.size);
      assert recv.consumed == Flatten(frames) + [];
      var any := Header(0, 0, 0, 0);
      assert |role.layout.image(any)| == role.layout.size;
    }

    /** `msg_recv_data`, on a complete message. */
    method RecvData() returns (ok: bool)
      requires Framed() && recv.sOff == recv.bLen && Complete(role.layout, recv.Received()) && PeersSane()
      modifies this`phase, this`callbacks, this`frames, recv`buf, recv`sOff, recv`bLen, recv.buf, Outs()
      ensures recv.buf == old(recv.buf) || fresh(recv.buf)
      ensures PeersSane() && ok == !Misaddressed(Parse(role.layout, old(recv.Received())))
      ensures !ok ==> Refused()
      ensures ok ==> Valid() && Advanced(old(frames), old(Queues()))
    {
      hide Dispatched, Flatten, ForwardedAll, Grew, Layout.Faithful, End.OwnOnly;
      ghost var f, m := recv.Received(), Parse(role.layout, recv.Received());
      ghost var was := Queues();
      ok := Deliver(m);
      if !ok {
        return;
      }
      FrameDone(role, frames, f);
      Rearm(f);
      OneMore(old(frames), was, f);
    }

    /** `msg_recv_packet`, on a complete header. */
    method RecvPacket() returns (ok: bool)
      requires Framed() && recv.sOff == recv.bLen && phase.AwaitPacket? && PeersSane()
      modifies this`phase, this`callbacks, this`frames, recv`buf, recv`sOff, recv`bLen, recv.buf, Outs()
      ensures recv.buf == old(recv.buf) || fresh(recv.buf)
      ensures PeersSane() && (!ok ==> Refused())
      ensures ok ==> Valid() && Advanced(old(frames), old(Queues()))
    {
      var h := role.layout.read(recv.buf[..role.layout.size]);
      assert recv.Received()[..role.layout.size] == recv.buf[..role.layout.size];
      if h.length > 0 {
        recv.Expand(h.length);
        phase := AwaitData;
        NothingNew();
        return true;
      }
      ok := RecvData();
    }

    /** What every peer has been asked to send. */
    ghost function Queues(): (q: seq<seq<byte>>)
      reads Outs()
      ensures |q| == |peers|
    {
      seq(|peers|, i requires 0 <= i < |peers| reads Outs() => peers[i].out.queued)
    }

    /** Since a state with `before` frames and queues `was`, frames were added and each peer was
        sent exactly what those messages forward to it. */
    ghost predicate Advanced(before: seq<seq<byte>>, was: seq<seq<byte>>)
      reads this, Outs()
    {
      Grew(role, peers, before, was, frames, Queues())
    }

    /** One frame more, and its message forwarded. */
    lemma OneMore(before: seq<seq<byte>>, was: seq<seq<byte>>, f: seq<byte>)
      requires frames == before + [f] && |was| == |peers| && AllComplete(role.layout, frames)
      requires forall i | 0 <= i < |peers| ::
                 peers[i].out.queued == was[i] + Forwarded(role, peers[i], Parse(role.layout, frames[|before|]))
      ensures Advanced(before, was)
    {
      var ms := ParseAll(role.layout, frames[|before|..]);
      assert frames[|before|..] == [f];
      assert ms[..0] == [] && ms == [ms[0]];
      forall i | 0 <= i < |peers|
        ensures ForwardedAll(role, peers[i], ms) == Forwarded(role, peers[i], ms[0])
      {
        assert ForwardedAll(role, peers[i], ms[..0]) == [];
      }
    }

    lemma NothingNew()
      requires AllComplete(role.layout, frames)
      ensures Advanced(frames, Queues())
    {
      assert frames[|frames|..] == [];
    }

    /** `rnb->cb`, when all requested bytes have arrived. */
    method Callback() returns (ok: bool)
      requires Framed() && recv.sOff == recv.bLen && PeersSane()
      modifies this`phase, this`callbacks, this`frames, recv`buf, recv`sOff, recv`bLen, recv.buf, Outs()
      ensures recv.buf == old(recv.buf) || fresh(recv.buf)
      ensures PeersSane() && (!ok ==> Refused())
      ensures ok ==> Valid() && Advanced(old(frames), old(Queues()))
    {
      match phase
      case AwaitPacket => ok := RecvPacket();
      case AwaitData => ok := RecvData();
    }

    /** One turn of net_recv_flush. */
    method Turn() returns (ok: bool)
      requires Valid() && PeersSane() && recv.readable
      modifies this`phase, this`callbacks, this`frames, recv, recv.buf, Outs()
      ensures PeersSane() && recv.consumed + recv.incoming == old(recv.consumed + recv.incoming)
      ensures recv.buf == old(recv.buf) || fresh(recv.buf)
      ensures if ok then recv.failed == old(recv.failed) else recv.failed || Refused()
      ensures ok ==> Valid() && Advanced(old(frames), old(Queues()))
      ensures ok ==> !recv.readable || |recv.outcomes| < |old(recv.outcomes)|
      ensures recv.outcomes == (if old(recv.outcomes) == [] then [] else old(recv.outcomes)[1..])
      ensures ok && !recv.readable ==> old(recv.outcomes) == [] || Stops(old(recv.outcomes)[0], recv.incoming)
    {
      hide Grew, Dispatched, Parse, ParseAll, Flatten, End.OwnOnly, Misaddressed, Complete, AllComplete, Refused;
      ghost var f := recv.Received();
      var status := recv.Read();
      if status.ReadError? {
        return false;
      }
      HeaderStays(f);
      if recv.readable && recv.sOff == recv.bLen {
        ok := Callback();
      } else {
        NothingNew();
        ok := true;
      }
    }

    /** Reading more of a message does not change its header. */
    lemma HeaderStays(f: seq<byte>)
      requires recv.Valid() && f <= recv.Received()
      ensures role.layout.size <= |f| ==> recv.Received()[..role.layout.size] == f[..role.layout.size]
    {
    }

    /** `net_recv_flush` on a message connection: reads in whatever pieces the kernel gives, and
        handles every message that becomes complete.  It stops early only when a read fails or a
        message for this end is wrongly addressed. */
    method RecvFlush() returns (ok: bool)
      requires Valid() && PeersSane()
      modifies this`phase, this`callbacks, this`frames, recv, recv.buf, Outs()
      ensures PeersSane() && recv.consumed + recv.incoming == old(recv.consumed + recv.incoming)
      ensures recv.buf == old(recv.buf) || fresh(recv.buf)
      ensures ok ==> Valid() && !recv.readable && Advanced(old(frames), old(Queues()))
      ensures if ok then recv.failed == old(recv.failed) else recv.failed || Refused()
      ensures ok && old(recv.readable) ==> recv.Paused(old(recv.outcomes))
    {
      NothingNew();
      while recv.readable
        invariant Valid() && PeersSane() && Advanced(old(frames), old(Queues()))
        invariant recv.failed == old(recv.failed) && Left(old(recv.outcomes), recv.outcomes)
        invariant old(recv.readable) && !recv.readable ==> recv.Paused(old(recv.outcomes))
        invariant recv.consumed + recv.incoming == old(recv.consumed + recv.incoming)
        invariant recv.buf == old(recv.buf) || fresh(recv.buf)
        decreases |recv.outcomes| + (if recv.readable then 1 else 0)
      {
        hide Grew, Receiver.Paused;
        ghost var f, q, rest := frames, Queues(), recv.outcomes;
        ok := Turn();
        if !ok {
          return;
        }
        recv.PausedBy(old(recv.outcomes), rest);
        GrewTwice(role, peers, old(frames), old(Queues()), f, q, frames, Queues());
      }
      ok := true;
    }

    /** What the end has handled so far. */
    ghost function Handled(): seq<Message>
      requires AllComplete(role.layout, frames)
      reads this
    {
      ParseAll(role.layout, frames)
    }

    /** Fidelity: of any stream of messages, read in any pieces, an end has handled a prefix of
        the messages, and all of them once all bytes were read. */
    lemma Fidelity(sent: seq<Message>, later: seq<byte>)
      requires Valid() && AllSendable(sent)
      requires recv.consumed + later == WireAll(role.layout, sent)
      ensures Handled() <= sent && callbacks == Dispatched(role, Handled()) && OwnOnly()
      ensures later == [] ==> Handled() == sent
    {
      UniqueDecoding(role.layout, frames, recv.Received(), sent, later);
    }
  }

  /** End to end: whatever was written in whatever pieces by one end and read in whatever pieces by
      the other, the receiver has handled the first messages sent, in order, and all of them once
      the sender's queue has drained and the socket is empty. */
  lemma EndToEnd(out: Sender, end: End, sent: seq<Message>)
    requires out.Valid() && end.Valid() && AllSendable(sent)
    requires out.queued == WireAll(end.role.layout, sent)
    requires end.recv.consumed + end.recv.incoming == out.wire
    ensures end.Handled() <= sent && end.callbacks == Dispatched(end.role, end.Handled())
    ensures out.queue == [] && end.recv.incoming == [] ==> end.Handled() == sent
  {
    var later := end.recv.incoming + Unsent(out.queue);
    assert end.recv.consumed + end.recv.incoming + Unsent(out.queue) == end.recv.consumed + later;
    end.Fidelity(sent, later);
  }

  // ----- through the parent to a worker

  /** The messages the parent forwards to this peer, as it forwards them. */
  function Routed(role: Role, p: Peer, ms: seq<Message>): (routed: seq<Message>)
    requires AllSendable(ms)
    ensures AllSendable(routed)
  {
    if ms == [] then []
    else
      var m := ms[|ms| - 1];
      Routed(role, p, ms[..|ms| - 1]) +
      if role.self.None? && m.id !in role.registered && p.isMsg && p.worker.Some? &&
         (m.dst == role.allId || p.worker.value == m.dst)
      then [m.(dst := p.worker.value)] else []
  }

  lemma {:induction false} WireAllSnoc(l: Layout, ms: seq<Message>, m: Message)
    requires AllSendable(ms) && Sendable(m)
    ensures WireAll(l, ms + [m]) == WireAll(l, ms) + Wire(l, m)
    decreases ms
  {
    hide Wire;
    var all := ms + [m];
    if ms == [] {
      assert all[1..] == [] && all[0] == m;
    } else {
      assert all[1..] == ms[1..] + [m];
      WireAllSnoc(l, ms[1..], m);
      Associative(Wire(l, ms[0]), WireAll(l, ms[1..]), Wire(l, m));
    }
  }

  /** What is queued on a peer is the stream of exactly those messages. */
  lemma {:induction false} ForwardedIsRouted(role: Role, p: Peer, ms: seq<Message>)
    requires AllSendable(ms)
    ensures ForwardedAll(role, p, ms) == WireAll(role.layout, Routed(role, p, ms))
    decreases ms
  {
    if ms != [] {
      var init, m := ms[..|ms| - 1], ms[|ms| - 1];
      ForwardedIsRouted(role, p, init);
      hide Wire, WireAll;
      var before := Routed(role, p, init);
      if p.worker.Some? {
        WireAllSnoc(role.layout, before, m.(dst := p.worker.value));
      }
      assert WireAll(role.layout, before) + [] == WireAll(role.layout, before);
      assert before + [] == before;
    }
  }

  predicate AddressedTo(role: Role, p: Peer, ms: seq<Message>) {
    forall i | 0 <= i < |ms| :: p.worker.Some? && ms[i].dst == p.worker.value && ms[i].id !in role.registered
  }

  lemma {:induction false} RoutedToWorker(role: Role, p: Peer, ms: seq<Message>)
    requires AllSendable(ms)
    ensures AddressedTo(role, p, Routed(role, p, ms))
    decreases ms
  {
    if ms != [] {
      var m := ms[|ms| - 1];
      RoutedToWorker(role, p, ms[..|ms| - 1]);
      var before, all := Routed(role, p, ms[..|ms| - 1]), Routed(role, p, ms);
      if p.worker.Some? {
        assert all == before || (all == before + [m.(dst := p.worker.value)] && m.id !in role.registered);
      } else {
        assert all == before;
      }
    }
  }

  // ----- the parent has one end for every worker, and all of them feed the same peers

  /** Which of the parent's ends ran, and what it handled then. */
  datatype Turn = Turn(end: nat, handled: seq<Message>)

  predicate TurnsSendable(turns: seq<Turn>) {
    forall k | 0 <= k < |turns| :: AllSendable(turns[k].handled)
  }

  /** Everything handled, in the order in which it was. */
  function Log(turns: seq<Turn>): (log: seq<Message>)
    requires TurnsSendable(turns)
    ensures AllSendable(log)
  {
    if turns == [] then [] else Log(turns[..|turns| - 1]) + turns[|turns| - 1].handled
  }

  /** What one end has handled. */
  function HandledBy(turns: seq<Turn>, end: nat): seq<Message> {
    if turns == [] then []
    else
      HandledBy(turns[..|turns| - 1], end) +
      (if turns[|turns| - 1].end == end then turns[|turns| - 1].handled else [])
  }

  lemma TurnsSnoc(turns: seq<Turn>, t: Turn)
    requires TurnsSendable(turns) && AllSendable(t.handled)
    ensures TurnsSendable(turns + [t]) && Log(turns + [t]) == Log(turns) + t.handled
    ensures forall k :: HandledBy(turns + [t], k) == HandledBy(turns, k) + (if t.end == k then t.handled else [])
  {
    assert (turns + [t])[..|turns|] == turns;
  }

  /** What the peers were asked to send is what these messages forward to them. */
  ghost predicate Fed(role: Role, peers: seq<Peer>, log: seq<Message>)
    requires AllSendable(log)
    reads set i | 0 <= i < |peers| :: peers[i].out
  {
    forall i | 0 <= i < |peers| :: peers[i].out.queued == ForwardedAll(role, peers[i], log)
  }

  /** One of the parent's ends is served, in any order with the others: it continues the log, and
      what the others have handled stays. */
  method Serve(e: End, j: nat, ghost turns: seq<Turn>) returns (ok: bool, ghost more: seq<Turn>)
    requires e.Valid() && e.PeersSane() && TurnsSendable(turns)
    requires Fed(e.role, e.peers, Log(turns)) && e.Handled() == HandledBy(turns, j)
    modifies e`phase, e`callbacks, e`frames, e.recv, e.recv.buf, e.Outs()
    ensures e.PeersSane() && (!ok ==> e.recv.failed || e.Refused())
    ensures ok ==>
              && e.Valid() && TurnsSendable(more) && turns <= more
              && Fed(e.role, e.peers, Log(more)) && e.Handled() == HandledBy(more, j)
              && forall k | k != j :: HandledBy(more, k) == HandledBy(turns, k)
  {
    hide Grew, Log, HandledBy, Parse, Complete, Dispatched, Flatten, ForwardedAll, Layout.Faithful;
    ghost var before, was := e.frames, e.Queues();
    ok := e.RecvFlush();
    if ok {
      GrewHandles(e.role, e.peers, before, was, e.frames, e.Queues(), Log(turns));
      ghost var t := Turn(j, ParseAll(e.role.layout, e.frames[|before|..]));
      more := turns + [t];
      TurnsSnoc(turns, t);
    } else {
      more := turns;
    }
  }

  lemma ParseConcat(l: Layout, a: seq<seq<byte>>, b: seq<seq<byte>>)
    requires AllComplete(l, a + b)
    ensures AllComplete(l, a) && AllComplete(l, b) && ParseAll(l, a + b) == ParseAll(l, a) + ParseAll(l, b)
  {
    hide Parse, Complete;
    assert forall i | 0 <= i < |a| :: (a + b)[i] == a[i];
    assert forall i | 0 <= i < |b| :: (a + b)[|a| + i] == b[i];
  }

  lemma GrewHandles(role: Role, peers: seq<Peer>, f0: seq<seq<byte>>, q0: seq<seq<byte>>,
                    f1: seq<seq<byte>>, q1: seq<seq<byte>>, log: seq<Message>)
    requires Grew(role, peers, f0, q0, f1, q1) && AllSendable(log)
    requires forall i | 0 <= i < |peers| :: q0[i] == ForwardedAll(role, peers[i], log)
    ensures f0 <= f1 && AllComplete(role.layout, f1) && AllComplete(role.layout, f1[|f0|..])
    ensures ParseAll(role.layout, f1) == ParseAll(role.layout, f0) + ParseAll(role.layout, f1[|f0|..])
    ensures |q1| == |peers|
    ensures forall i | 0 <= i < |peers| ::
              q1[i] == ForwardedAll(role, peers[i], log + ParseAll(role.layout, f1[|f0|..]))
  {
    var more := ParseAll(role.layout, f1[|f0|..]);
    ParseConcat(role.layout, f0, f1[|f0|..]);
    assert f0 + f1[|f0|..] == f1;
    hide ForwardedAll, Parse, Complete;
    forall i | 0 <= i < |peers|
      ensures q1[i] == ForwardedAll(role, peers[i], log + more)
    {
      ForwardedConcat(role, peers[i], log, more);
    }
  }

  lemma {:induction false} RoutedConcat(role: Role, p: Peer, a: seq<Message>, b: seq<Message>)
    requires AllSendable(a) && AllSendable(b)
    ensures Routed(role, p, a + b) == Routed(role, p, a) + Routed(role, p, b)
    decreases b
  {
    var ab := a + b;
    if b == [] {
      assert ab == a;
      assert Routed(role, p, a) + [] == Routed(role, p, a);
    } else {
      var n := |b| - 1;
      assert ab[..|ab| - 1] == a + b[..n] && ab[|ab| - 1] == b[n];
      RoutedConcat(role, p, a, b[..n]);
    }
  }

  /** The routing law: a worker on a message connection gets the messages for it and for all, in
      order, with only the destination changed, unless their id is one of the parent's own. */
  lemma {:induction false} RoutedAreItsOwn(role: Role, p: Peer, w: byte, ms: seq<Message>)
    requires AllSendable(ms) && role.self.None? && p.isMsg && p.worker == Some(w)
    requires forall i | 0 <= i < |ms| :: ms[i].id !in role.registered && (ms[i].dst == w || ms[i].dst == role.allId)
    ensures |Routed(role, p, ms)| == |ms|
    ensures forall i | 0 <= i < |ms| ::
              Routed(role, p, ms)[i] == Message(ms[i].id, ms[i].src, w, ms[i].data)
    decreases ms
  {
    if ms != [] {
      RoutedAreItsOwn(role, p, w, ms[..|ms| - 1]);
    }
  }

  /** And none of the others: none for another worker, none that the parent handles itself, and
      none at all on another kind of connection or from a worker. */
  lemma {:induction false} OthersAreNotRouted(role: Role, p: Peer, ms: seq<Message>)
    requires AllSendable(ms)
    requires forall i | 0 <= i < |ms| ::
               || role.self.Some? || !p.isMsg || p.worker.None? || ms[i].id in role.registered
               || (ms[i].dst != role.allId && ms[i].dst != p.worker.value)
    ensures Routed(role, p, ms) == []
    decreases ms
  {
    if ms != [] {
      OthersAreNotRouted(role, p, ms[..|ms| - 1]);
    }
  }

  function RoutedTurns(role: Role, p: Peer, turns: seq<Turn>): (routed: seq<Turn>)
    requires TurnsSendable(turns)
    ensures TurnsSendable(routed) && |routed| == |turns|
  {
    seq(|turns|, k requires 0 <= k < |turns| => Turn(turns[k].end, Routed(role, p, turns[k].handled)))
  }

  /** The messages for a worker are interleaved as the ends were served, and of each end they are
      those for the worker, in order. */
  lemma {:induction false} RoutedIsInterleaved(role: Role, p: Peer, turns: seq<Turn>)
    requires TurnsSendable(turns)
    ensures Routed(role, p, Log(turns)) == Log(RoutedTurns(role, p, turns))
    ensures forall j :: AllSendable(HandledBy(turns, j)) &&
              Routed(role, p, HandledBy(turns, j)) == HandledBy(RoutedTurns(role, p, turns), j)
    decreases turns
  {
    if turns != [] {
      var init, t := turns[..|turns| - 1], turns[|turns| - 1];
      RoutedIsInterleaved(role, p, init);
      RoutedConcat(role, p, Log(init), t.handled);
      assert turns == init + [t];
      TurnsSnoc(init, t);
      TurnsSnoc(RoutedTurns(role, p, init), Turn(t.end, Routed(role, p, t.handled)));
      assert RoutedTurns(role, p, turns) == RoutedTurns(role, p, init) + [Turn(t.end, Routed(role, p, t.handled))];
      forall j
        ensures AllSendable(HandledBy(turns, j))
        ensures Routed(role, p, HandledBy(turns, j)) == HandledBy(RoutedTurns(role, p, turns), j)
      {
        RoutedConcat(role, p, HandledBy(init, j), if t.end == j then t.handled else []);
      }
    }
  }

  /** A worker fed by the parent's ends, served in any order, handles exactly the messages routed to
      it, in the order in which they were handled, and all of them once the parent's queue has
      drained and the socket is empty. */
  lemma RoutedEndToEnd(role: Role, peers: seq<Peer>, i: nat, turns: seq<Turn>, worker: End)
    requires TurnsSendable(turns) && Fed(role, peers, Log(turns))
    requires i < |peers| && peers[i].out.Valid() && worker.Valid() && worker.role.layout == role.layout
    requires worker.recv.consumed + worker.recv.incoming == peers[i].out.wire
    ensures worker.Handled() <= Log(RoutedTurns(role, peers[i], turns))
    ensures worker.callbacks == Dispatched(worker.role, worker.Handled())
    ensures peers[i].out.queue == [] && worker.recv.incoming == [] ==>
              worker.Handled() == Log(RoutedTurns(role, peers[i], turns))
  {
    hide Log, RoutedTurns, Routed, ForwardedAll, WireAll, Dispatched, Layout.Faithful;
    ForwardedIsRouted(role, peers[i], Log(turns));
    RoutedIsInterleaved(role, peers[i], turns);
    EndToEnd(peers[i].out, worker, Routed(role, peers[i], Log(turns)));
  }

  /** And it never stops at one of them. */
  lemma RoutedNeverRefused(role: Role, p: Peer, turns: seq<Turn>, worker: End, later: seq<byte>)
    requires TurnsSendable(turns) && worker.recv.Valid()
    requires worker.role.layout == role.layout && worker.role.self.Some? && p.worker == worker.role.self
    requires worker.recv.consumed + later == ForwardedAll(role, p, Log(turns))
    ensures !worker.Refused()
  {
    hide Log, ForwardedAll, WireAll;
    var sent := Routed(role, p, Log(turns));
    ForwardedIsRouted(role, p, Log(turns));
    RoutedToWorker(role, p, Log(turns));
    if worker.Refused() {
      worker.RefusedWasSent(sent, later);
    }
  }

  // ----- a layout

  /** The header as a 64-bit little-endian compiler aligns it: id, src, dst and length at offsets
      0, 2, 4 and 8. */
  function NativeImage(h: Header): seq<byte> {
    [h.id, 0] + ToBytes(h.src, 2) + ToBytes(h.dst, 2) + [0, 0] + ToBytes(h.length, 8)
  }

  function NativeRead(s: seq<byte>): Header {
    if |s| < 16 then Header(0, 0, 0, 0)
    else Header(s[0], FromBytes(s[2..4]) % 0x1_0000, FromBytes(s[4..6]) % 0x1_0000,
                FromBytes(s[8..16]) % (SIZE_MAX + 1))
  }

  function NativeLayout(): Layout {
    Layout(16, NativeImage, NativeRead)
  }

  lemma FieldsReadBack(h: Header)
    ensures FromBytes(ToBytes(h.src, 2)) == h.src && FromBytes(ToBytes(h.dst, 2)) == h.dst
    ensures FromBytes(ToBytes(h.length, 8)) == h.length
  {
    hide FromBytes, ToBytes;
    assert Range(2) == 0x1_0000;
    assert Range(4) == 0x1_0000_0000;
    assert Range(8) == SIZE_MAX + 1;
    BytesRoundTrip(h.src, 2);
    BytesRoundTrip(h.dst, 2);
    BytesRoundTrip(h.length, 8);
  }

  lemma NativeReadsBack(h: Header)
    ensures |NativeImage(h)| == 16 && NativeRead(NativeImage(h)) == h
  {
    FieldsReadBack(h);
    hide FromBytes, ToBytes;
    var s := NativeImage(h);
    assert s[2..4] == ToBytes(h.src, 2) && s[4..6] == ToBytes(h.dst, 2) && s[8..16] == ToBytes(h.length, 8);
  }

  lemma NativeLayoutIsFaithful()
    ensures NativeLayout().Faithful()
  {
    hide NativeImage, NativeRead;
    forall h: Header
      ensures |NativeImage(h)| == 16 && NativeRead(NativeImage(h)) == h
    {
      NativeReadsBack(h);
    }
  }
}
