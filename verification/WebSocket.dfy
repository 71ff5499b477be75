/** WebSocket framing of kore-3.2.0/src/websocket.c (sections 5.2 and 5.3 of RFC 6455): building
    server frames, and receiving masked client frames in two phases. */
module WebSocket {
  import opened Bytes
  import opened Gf2
  import opened Net

  const WEBSOCKET_FRAME_HDR: nat := 2
  const WEBSOCKET_MASK_LEN: nat := 4
  const PAYLOAD_SINGLE: nat := 125
  const PAYLOAD_EXTEND_1: byte := 126
  const PAYLOAD_EXTEND_2: byte := 127
  const USHRT_MAX: nat := 65535

  const OP_CONT: byte := 0x0
  const OP_TEXT: byte := 0x1
  const OP_BINARY: byte := 0x2
  const OP_CLOSE: byte := 0x8
  const OP_PING: byte := 0x9
  const OP_PONG: byte := 0xa

  // ----- the length field

  /** WEBSOCKET_FRAME_LENGTH: the second byte without its mask bit. */
  function Len7(s: seq<byte>): byte
    requires |s| >= 2
  {
    s[1] % 128
  }

  function ExtLen(s: seq<byte>): nat
    requires |s| >= 2
  {
    if Len7(s) == PAYLOAD_EXTEND_1 then 2 else if Len7(s) == PAYLOAD_EXTEND_2 then 8 else 0
  }

  /** The payload length a frame announces (net_read16, net_read64). */
  function PayloadLen(s: seq<byte>): nat
    requires |s| >= 2 && |s| >= 2 + ExtLen(s)
  {
    if ExtLen(s) == 0 then Len7(s) else FromNetwork(s[2..2 + ExtLen(s)])
  }

  /** How a sender writes a length; RFC 6455 demands the shortest form. */
  datatype Form = Short | Ext16 | Ext64

  predicate Fits(form: Form, len: nat) {
    match form
    case Short => len <= PAYLOAD_SINGLE
    case Ext16 => len <= USHRT_MAX
    case Ext64 => len <= SIZE_MAX
  }

  /** The length byte (without mask bit) and the extended length. */
  function LengthField(form: Form, len: nat): (s: seq<byte>)
    requires Fits(form, len)
    ensures |s| > 0 && s[0] < 128
  {
    match form
    case Short => [len]
    case Ext16 => [PAYLOAD_EXTEND_1] + ToNetwork(len, 2)
    case Ext64 => [PAYLOAD_EXTEND_2] + ToNetwork(len, 8)
  }

  function Shortest(len: nat): (form: Form)
    requires len <= SIZE_MAX
    ensures Fits(form, len)
  {
    if len <= PAYLOAD_SINGLE then Short else if len <= USHRT_MAX then Ext16 else Ext64
  }

  lemma Ranges()
    ensures Range(2) == USHRT_MAX + 1 && Range(8) == SIZE_MAX + 1
  {
    assert Range(1) == 256;
    assert Range(4) == 0x1_0000_0000;
    assert Range(6) == 0x1_0000_0000_0000;
  }

  /** Whatever form the length is written in, with or without mask bit, the receiver reads it. */
  lemma LengthReadBack(b0: byte, form: Form, len: nat, bit: byte, rest: seq<byte>)
    requires Fits(form, len) && bit in {0, 128}
    ensures
      var field := LengthField(form, len);
      var s := [b0, field[0] + bit] + field[1..] + rest;
      && 2 + ExtLen(s) <= |s| && PayloadLen(s) == len
      && 1 + |field| == 2 + ExtLen(s)
      && (form.Short? <==> ExtLen(s) == 0) && (form.Ext16? <==> ExtLen(s) == 2)
      && s[2 + ExtLen(s)..] == rest
  {
    hide FromNetwork, ToNetwork, Range;
    var field := LengthField(form, len);
    var s := [b0, field[0] + bit] + field[1..] + rest;
    assert s[1] % 128 == field[0];
    Ranges();
    if !form.Short? {
      var k := if form.Ext16? then 2 else 8;
      NetworkRoundTrip(len, k);
      assert s[2..2 + k] == field[1..] == ToNetwork(len, k);
    }
    assert s[2 + ExtLen(s)..] == rest;
  }

  // ----- frames from the server

  /** `websocket_frame_build` */
  function Build(op: byte, data: seq<byte>): seq<byte>
    requires |data| <= SIZE_MAX
  {
    [op % 128 + 128] + LengthField(Shortest(|data|), |data|) + data
  }

  /** The frame a client decodes: final, with the opcode, unmasked, in the shortest form, and the
      payload exactly where the length says. */
  lemma BuildReadBack(op: byte, data: seq<byte>)
    requires |data| <= SIZE_MAX
    ensures
      var s := Build(op, data);
      && 2 <= |s| && 2 + ExtLen(s) <= |s|
      && s[0] >= 128 && s[0] % 128 == op % 128 && s[1] < 128
      && PayloadLen(s) == |data| && s[2 + ExtLen(s)..] == data
      && (ExtLen(s) == 2 ==> |data| > 125) && (ExtLen(s) == 8 ==> |data| > 65535)
  {
    hide FromNetwork, ToNetwork;
    var form := Shortest(|data|);
    var field := LengthField(form, |data|);
    LengthReadBack(op % 128 + 128, form, |data|, 0, data);
    assert [op % 128 + 128] + field + data == [op % 128 + 128, field[0]] + field[1..] + data;
  }

  // ----- frames from the client

  datatype Frame = Frame(fin: bool, op: byte, form: Form, mask: seq<byte>, payload: seq<byte>)

  /** Byte i is combined with byte i mod 4 of the mask. */
  function Masked(p: seq<byte>, mask: seq<byte>): (r: seq<byte>)
    requires |mask| == 4
    ensures |r| == |p|
  {
    seq(|p|, i requires 0 <= i < |p| => XorByte(p[i], mask[i % 4]))
  }

  function XorByte(a: byte, b: byte): byte {
    XorBound(a, b, 8);
    Pow8();
    Xor(a, b)
  }

  lemma Pow8()
    ensures Pow2(8) == 256
  {
    assert Pow2(4) == 16;
  }

  /** Masking is its own inverse. */
  lemma UnmaskMasked(p: seq<byte>, mask: seq<byte>)
    requires |mask| == 4
    ensures Masked(Masked(p, mask), mask) == p
  {
    forall i | 0 <= i < |p|
      ensures Masked(Masked(p, mask), mask)[i] == p[i]
    {
      XorCancel(p[i], mask[i % 4]);
    }
  }

  function FirstByte(f: Frame): byte
    requires f.op < 16
  {
    f.op + if f.fin then 128 else 0
  }

  predicate WellFormed(f: Frame) {
    |f.mask| == 4 && f.op < 16 && Fits(f.form, |f.payload|)
  }

  /** A masked frame as section 5.2 of RFC 6455 lays it out. */
  function Encode(f: Frame): seq<byte>
    requires WellFormed(f)
  {
    var field := LengthField(f.form, |f.payload|);
    [FirstByte(f), field[0] + 128] + field[1..] + (f.mask + Masked(f.payload, f.mask))
  }

  predicate Control(op: byte) {
    op == OP_CLOSE || op == OP_PING || op == OP_PONG
  }

  /** The frames the receiver takes: data frames, and control frames that are final and short.
      A data frame is taken whether or not it is final. */
  predicate Acceptable(f: Frame, maxFrame: nat) {
    && WellFormed(f) && |f.payload| <= maxFrame
    && (f.op == OP_TEXT || f.op == OP_BINARY || (Control(f.op) && f.fin && f.form.Short?))
    && LongEnough(f)
  }

  /** An extended length is accepted from 126 (two bytes) or 127 (eight bytes) on. */
  predicate LongEnough(f: Frame) {
    match f.form
    case Short => true
    case Ext16 => 126 <= |f.payload|
    case Ext64 => 127 <= |f.payload|
  }

  // ----- what the receiver computes from the bytes it has

  /** The checks of websocket_recv_opcode. */
  predicate OpcodeOk(s: seq<byte>)
    requires |s| >= 2
  {
    var op := s[0] % 16;
    && s[1] >= 128 && (s[0] / 16) % 8 == 0
    && (op == OP_CONT || op == OP_TEXT || op == OP_BINARY ||
        (Control(op) && Len7(s) <= PAYLOAD_SINGLE && s[0] >= 128))
  }

  /** WEBSOCKET_RSV tests one bit at a time. */
  lemma RsvBits(b: byte)
    ensures (b / 64) % 2 == 0 && (b / 32) % 2 == 0 && (b / 16) % 2 == 0 <==> (b / 16) % 8 == 0
  {
  }

  /** The bytes asked for once the two-byte header is there: header, length byte's worth of
      payload, extended length, mask.  The length byte itself is counted, even when it is one of
      the markers 126 and 127. */
  function FirstNeed(s: seq<byte>): nat
    requires |s| >= 2
  {
    WEBSOCKET_FRAME_HDR + Len7(s) + ExtLen(s) + WEBSOCKET_MASK_LEN
  }

  /** The size of the whole frame. */
  function Total(s: seq<byte>): nat
    requires |s| >= 2 && |s| >= 2 + ExtLen(s)
  {
    PayloadLen(s) + ExtLen(s) + WEBSOCKET_FRAME_HDR + WEBSOCKET_MASK_LEN
  }

  lemma StartOf(s: seq<byte>, rest: seq<byte>, e: seq<byte>, n: nat)
    requires s + rest == e && 2 <= n <= |s|
    ensures s[0] == e[0] && s[1] == e[1] && s[2..n] == e[2..n]
  {
  }

  /** What the first bytes of an encoded frame tell. */
  lemma EncodePrefix(f: Frame, s: seq<byte>, rest: seq<byte>)
    requires WellFormed(f) && s + rest == Encode(f) && |s| >= 2
    ensures ExtLen(s) == ExtLen(Encode(f)) && FirstNeed(s) == FirstNeed(Encode(f))
    ensures |s| >= 2 + ExtLen(s) ==> Total(s) == |Encode(f)| && PayloadLen(s) == |f.payload|
    ensures FirstNeed(s) <= |Encode(f)| <==> LongEnough(f)
    ensures s[0] == FirstByte(f) && s[1] >= 128
  {
    var e := Encode(f);
    LengthReadBack(FirstByte(f), f.form, |f.payload|, 128, f.mask + Masked(f.payload, f.mask));
    StartOf(s, rest, e, 2);
    if |s| >= 2 + ExtLen(s) {
      StartOf(s, rest, e, 2 + ExtLen(s));
    }
  }

  /** A whole frame, as the receiver accepts it. */
  predicate Complete(s: seq<byte>, maxFrame: nat) {
    && 2 <= |s| && OpcodeOk(s) && s[0] % 16 != OP_CONT
    && 2 + ExtLen(s) <= |s| && PayloadLen(s) <= maxFrame
    && FirstNeed(s) <= Total(s) == |s|
  }

  /** What makes the receiver give up: a header it does not take, or a frame that is too long, is
      shorter than the request that went out for it, or continues another. */
  predicate Unacceptable(s: seq<byte>, maxFrame: nat) {
    && |s| >= 2
    && if OpcodeOk(s) then
         && FirstNeed(s) <= |s| && 2 + ExtLen(s) <= |s|
         && (PayloadLen(s) > maxFrame || Total(s) < FirstNeed(s) || s[0] % 16 == OP_CONT)
       else |s| == 2
  }

  predicate AllComplete(frames: seq<seq<byte>>, maxFrame: nat) {
    forall i | 0 <= i < |frames| :: Complete(frames[i], maxFrame)
  }

  function Payload(s: seq<byte>, maxFrame: nat): (p: seq<byte>)
    requires Complete(s, maxFrame)
    ensures |p| <= maxFrame
  {
    var moff := 2 + ExtLen(s);
    Masked(s[moff + 4..], s[moff..moff + 4])
  }

  /** A call of the message handler. */
  datatype Delivery = Delivery(op: byte, payload: seq<byte>)

  function Deliveries(frames: seq<seq<byte>>, maxFrame: nat): seq<Delivery>
    requires AllComplete(frames, maxFrame)
  {
    if frames == [] then []
    else
      var n := |frames| - 1;
      var op := frames[n][0] % 16;
      Deliveries(frames[..n], maxFrame) +
      if op == OP_TEXT || op == OP_BINARY then [Delivery(op, Payload(frames[n], maxFrame))] else []
  }

  predicate Closed(frames: seq<seq<byte>>) {
    exists i | 0 <= i < |frames| :: |frames[i]| > 0 && frames[i][0] % 16 == OP_CLOSE
  }

  /** What a frame is answered with: a ping with a pong of the same payload, the first close with
      a close. */
  function Reply(f: seq<byte>, closed: bool, maxFrame: nat): seq<byte>
    requires Complete(f, maxFrame) && maxFrame <= SIZE_MAX
  {
    var op := f[0] % 16;
    if op == OP_PING then Build(OP_PONG, Payload(f, maxFrame))
    else if op == OP_CLOSE && !closed then Build(OP_CLOSE, [])
    else []
  }

  function Replies(frames: seq<seq<byte>>, maxFrame: nat): seq<byte>
    requires AllComplete(frames, maxFrame) && maxFrame <= SIZE_MAX
  {
    if frames == [] then []
    else
      var n := |frames| - 1;
      Replies(frames[..n], maxFrame) + Reply(frames[n], Closed(frames[..n]), maxFrame)
  }

  lemma OneMoreFrame(frames: seq<seq<byte>>, f: seq<byte>, maxFrame: nat)
    requires AllComplete(frames, maxFrame) && Complete(f, maxFrame) && maxFrame <= SIZE_MAX
    ensures AllComplete(frames + [f], maxFrame)
    ensures Deliveries(frames + [f], maxFrame) == Deliveries(frames, maxFrame) +
              if f[0] % 16 == OP_TEXT || f[0] % 16 == OP_BINARY then [Delivery(f[0] % 16, Payload(f, maxFrame))] else []
    ensures Replies(frames + [f], maxFrame) == Replies(frames, maxFrame) + Reply(f, Closed(frames), maxFrame)
    ensures Closed(frames + [f]) <==> Closed(frames) || f[0] % 16 == OP_CLOSE
    ensures Flatten(frames + [f]) == Flatten(frames) + f
  {
    hide Payload, Reply;
    var all := frames + [f];
    assert all[..|frames|] == frames && all[|frames|] == f;
    FlattenSnoc(frames, f);
    ClosedSnoc(frames, f);
  }

  lemma ClosedSnoc(frames: seq<seq<byte>>, f: seq<byte>)
    ensures Closed(frames + [f]) <==> Closed(frames) || (|f| > 0 && f[0] % 16 == OP_CLOSE)
  {
    var all := frames + [f];
    if Closed(frames) {
      var i :| 0 <= i < |frames| && |frames[i]| > 0 && frames[i][0] % 16 == OP_CLOSE;
      assert all[i] == frames[i];
    }
    assert all[|frames|] == f;
  }

  datatype Phase = AwaitOpcode | AwaitFrame

  /** The receiving end of a websocket connection. */
  class End {
    const recv: Receiver
    const out: Sender
    /** kore_websocket_maxframe */
    const maxFrame: nat
    var phase: Phase
    /** CONN_WS_CLOSE_SENT */
    var closeSent: bool
    /** The calls of the message handler. */
    var deliveries: seq<Delivery>
    /** The bytes of every frame taken so far, and what they were answered with. */
    ghost var frames: seq<seq<byte>>
    ghost var replies: seq<byte>

    /** In the second phase either the first request is out or the exact size is known. */
    ghost predicate PhaseSane()
      requires recv.Valid()
      reads this, recv, recv.buf
    {
      var s := recv.Received();
      if phase.AwaitOpcode? then recv.bLen == 2
      else
        && 2 <= recv.sOff && OpcodeOk(s)
        && (recv.bLen == FirstNeed(s) ||
            (FirstNeed(s) <= recv.sOff && FirstNeed(s) < recv.bLen == Total(s) && PayloadLen(s) <= maxFrame))
    }

    ghost predicate Framed()
      reads this, recv, recv.buf
    {
      && maxFrame <= SIZE_MAX && recv.Valid() && AllComplete(frames, maxFrame)
      && recv.consumed == Flatten(frames) + recv.Received()
      && deliveries == Deliveries(frames, maxFrame) && replies == Replies(frames, maxFrame)
      && (closeSent <==> Closed(frames))
      && PhaseSane()
    }

    ghost predicate Valid()
      reads this, recv, recv.buf
    {
      Framed() && recv.sOff < recv.bLen
    }

    constructor (payloadMax: nat, maxFrame: nat, out: Sender)
      requires maxFrame <= SIZE_MAX
      ensures Valid() && fresh(recv) && fresh(recv.buf) && frames == [] && deliveries == [] && replies == []
      ensures this.out == out && this.maxFrame == maxFrame
    {
      recv := new Receiver(payloadMax, WEBSOCKET_FRAME_HDR);
      this.out, this.maxFrame := out, maxFrame;
      phase, closeSent, deliveries, frames, replies := AwaitOpcode, false, [], [], [];
    }

    /** The end gave up on the bytes behind the frames it took. */
    ghost predicate Rejected()
      reads this, recv, recv.buf
    {
      && recv.Valid() && AllComplete(frames, maxFrame)
      && recv.consumed == Flatten(frames) + recv.Received()
      && Unacceptable(recv.Received(), maxFrame)
    }

    /** `websocket_recv_opcode` */
    method RecvOpcode() returns (ok: bool)
      requires Framed() && recv.sOff == recv.bLen && phase.AwaitOpcode?
      modifies this`phase, recv`buf, recv`bLen
      ensures recv.buf == old(recv.buf) || fresh(recv.buf)
      ensures ok == OpcodeOk(old(recv.Received()))
      ensures if ok then Valid() else Rejected()
    {
      hide PayloadLen, Total, Deliveries, Replies, Closed, AllComplete, Flatten;
      var s := recv.buf[..2];
      assert s == recv.Received();
      RsvBits(s[0]);
      if s[1] < 128 {
        return false;
      }
      if (s[0] / 64) % 2 != 0 || (s[0] / 32) % 2 != 0 || (s[0] / 16) % 2 != 0 {
        return false;
      }
      var len := Len7(s);
      var op := s[0] % 16;
      if op == OP_CONT || op == OP_TEXT || op == OP_BINARY {
      } else if op == OP_CLOSE || op == OP_PING || op == OP_PONG {
        if len > PAYLOAD_SINGLE || s[0] < 128 {
          return false;
        }
      } else {
        return false;
      }
      var need := len;
      if len == PAYLOAD_EXTEND_1 {
        need := need + 2;
      } else if len == PAYLOAD_EXTEND_2 {
        need := need + 8;
      }
      recv.Expand(need + WEBSOCKET_MASK_LEN);
      phase := AwaitFrame;
      return true;
    }

    /** The unmasking loop, in place. */
    method Unmask(moff: nat, len: nat)
      requires recv.Valid() && moff + 4 + len == recv.sOff
      modifies recv.buf
      ensures
        var s := old(recv.Received());
        recv.Received() == s[..moff + 4] + Masked(s[moff + 4..], s[moff..moff + 4])
    {
      ghost var s := recv.Received();
      ghost var mask := s[moff..moff + 4];
      var b := recv.buf;
      for i := 0 to len
        invariant forall k | 0 <= k < moff + 4 :: b[k] == s[k]
        invariant forall k | moff + 4 <= k < moff + 4 + i :: b[k] == XorByte(s[k], mask[(k - moff - 4) % 4])
        invariant forall k | moff + 4 + i <= k < moff + 4 + len :: b[k] == s[k]
      {
        b[moff + 4 + i] := XorByte(b[moff + 4 + i], b[moff + i % 4]);
      }
      assert recv.Received() == s[..moff + 4] + Masked(s[moff + 4..], mask);
    }

    /** Grows the replies and queues them on the connection (`kore_websocket_send`). */
    method SendFrame(op: byte, data: seq<byte>)
      requires out.Valid() && |data| <= SIZE_MAX
      modifies this`replies, out
      ensures out.Valid() && out.queued == old(out.queued) + Build(op, data)
      ensures out.queue == [] || !out.writable || out.failed
      ensures replies == old(replies) + Build(op, data)
    {
      replies := replies + Build(op, data);
      out.Stream(Build(op, data));
      var ok := out.Flush();
    }

    /** The switch of websocket_recv_frame on an unmasked frame. */
    method Act(op: byte, payload: seq<byte>, ghost f: seq<byte>)
      requires out.Valid() && maxFrame <= SIZE_MAX && Complete(f, maxFrame)
      requires op == f[0] % 16 && payload == Payload(f, maxFrame)
      modifies this`closeSent, this`deliveries, this`replies, recv`readable, recv`disconnected, out
      ensures out.Valid() && out.queued == old(out.queued) + Reply(f, old(closeSent), maxFrame)
      ensures replies == old(replies) + Reply(f, old(closeSent), maxFrame)
      ensures deliveries == old(deliveries) + if op == OP_TEXT || op == OP_BINARY then [Delivery(op, payload)] else []
      ensures closeSent == (old(closeSent) || op == OP_CLOSE)
      ensures recv.readable == (old(recv.readable) && op != OP_CLOSE)
      ensures recv.disconnected == (old(recv.disconnected) || op == OP_CLOSE)
    {
      if op == OP_TEXT || op == OP_BINARY {
        deliveries := deliveries + [Delivery(op, payload)];
      } else if op == OP_CLOSE {
        recv.readable := false;
        if !closeSent {
          closeSent := true;
          SendFrame(OP_CLOSE, []);
        }
        recv.disconnected := true;
      } else if op == OP_PING {
        SendFrame(OP_PONG, payload);
      }
    }

    /** The payload of a complete frame, unmasked where it lies. */
    method UnmaskFrame(ghost f: seq<byte>) returns (payload: seq<byte>)
      requires recv.Valid() && recv.Received() == f && Complete(f, maxFrame)
      modifies recv.buf
      ensures payload == Payload(f, maxFrame)
    {
      var moff := 2 + ExtLen(recv.buf[..recv.sOff]);
      Unmask(moff, recv.sOff - moff - 4);
      payload := recv.buf[moff + 4..recv.sOff];
      assert payload == recv.Received()[moff + 4..];
    }

    /** Back to the two-byte header. */
    method Rearm(ghost f: seq<byte>)
      requires recv.Valid() && maxFrame <= SIZE_MAX && AllComplete(frames + [f], maxFrame)
      requires recv.consumed == Flatten(frames + [f])
      requires deliveries == Deliveries(frames + [f], maxFrame) && replies == Replies(frames + [f], maxFrame)
      requires closeSent <==> Closed(frames + [f])
      modifies this`phase, this`frames, recv`buf, recv`sOff, recv`bLen
      ensures Valid() && frames == old(frames) + [f]
      ensures recv.buf == old(recv.buf) || fresh(recv.buf)
    {
      hide Deliveries, Replies, Closed, AllComplete, Complete, Flatten, Total, PayloadLen, OpcodeOk, FirstNeed;
      frames := frames + [f];
      phase := AwaitOpcode;
      recv.Reset(WEBSOCKET_FRAME_HDR);
      assert recv.consumed == Flatten(frames) + [];
    }

    /** A complete frame: unmask, act, back to the header. */
    method TakeFrame(ghost f: seq<byte>)
      requires Framed() && out.Valid() && recv.Received() == f && Complete(f, maxFrame)
      modifies this, recv`readable, recv`disconnected, recv`buf, recv`sOff, recv`bLen, recv.buf, out
      ensures Valid() && out.Valid() && frames == old(frames) + [f]
      ensures recv.buf == old(recv.buf) || fresh(recv.buf)
      ensures out.queued == old(out.queued) + Reply(f, Closed(old(frames)), maxFrame)
      ensures replies == old(replies) + Reply(f, Closed(old(frames)), maxFrame)
      ensures recv.readable == (old(recv.readable) && f[0] % 16 != OP_CLOSE)
    {
      hide Deliveries, Replies, Payload, Reply, Closed, Flatten;
      OneMoreFrame(frames, f, maxFrame);
      var op := recv.buf[0] % 16;
      assert op == f[0] % 16;
      var payload := UnmaskFrame(f);
      Act(op, payload, f);
      Rearm(f);
    }

    /** `websocket_recv_frame` */
    method RecvFrame() returns (ok: bool)
      requires Framed() && recv.sOff == recv.bLen && phase.AwaitFrame? && out.Valid()
      modifies this, recv`readable, recv`disconnected, recv`buf, recv`sOff, recv`bLen, recv.buf, out
      ensures out.Valid() && (recv.buf == old(recv.buf) || fresh(recv.buf))
      ensures (recv.readable ==> old(recv.readable)) && (!ok ==> Rejected())
      ensures ok && old(recv.readable) && !recv.readable ==> LastCloses()
      ensures ok ==> Valid() && Grew(old(frames), old(replies), old(out.queued))
    {
      ghost var f := recv.Received();
      var s := recv.buf[..recv.sOff];
      assert s == f;
      var len := PayloadLen(s);
      if len > maxFrame {
        return false;
      }
      var total := Total(s);
      if total > recv.bLen {
        recv.Expand(total - recv.bLen);
        assert replies[|replies|..] == [];
        return true;
      }
      if total != recv.bLen {
        return false;
      }
      if s[0] % 16 == OP_CONT {
        return false;
      }
      TakeFrame(f);
      assert replies[|old(replies)|..] == Reply(f, Closed(old(frames)), maxFrame);
      ok := true;
    }

    /** Frames were added, and exactly what they are answered with was queued. */
    ghost predicate Grew(before: seq<seq<byte>>, replied: seq<byte>, queued: seq<byte>)
      reads this, out
    {
      before <= frames && replied <= replies && out.queued == queued + replies[|replied|..]
    }

    /** The frame taken last ends the connection. */
    ghost predicate LastCloses()
      reads this`frames
    {
      frames != [] && frames[|frames| - 1] != [] && frames[|frames| - 1][0] % 16 == OP_CLOSE
    }

    /** One turn of net_recv_flush. */
    method Turn() returns (ok: bool)
      requires Valid() && out.Valid() && recv.readable
      modifies this, recv, recv.buf, out
      ensures out.Valid() && recv.consumed + recv.incoming == old(recv.consumed + recv.incoming)
      ensures recv.buf == old(recv.buf) || fresh(recv.buf)
      ensures ok ==> Valid() && Grew(old(frames), old(replies), old(out.queued))
      ensures if ok then recv.failed == old(recv.failed) else recv.failed || Rejected()
      ensures ok && recv.readable ==> |recv.outcomes| < |old(recv.outcomes)|
      ensures recv.outcomes == (if old(recv.outcomes) == [] then [] else old(recv.outcomes)[1..])
      ensures ok && !recv.readable ==>
                LastCloses() || old(recv.outcomes) == [] || Stops(old(recv.outcomes)[0], recv.incoming)
    {
      hide OpcodeOk, Total, PayloadLen, Deliveries, Replies, Closed, AllComplete, Flatten;
      ghost var f := recv.Received();
      assert replies[|replies|..] == [];
      var status := recv.Read();
      if status.ReadError? {
        return false;
      }
      MoreOfFrame(f, recv.Received(), recv.bLen);
      ok := true;
      if recv.readable && recv.sOff == recv.bLen {
        ok := Callback();
      }
    }

    /** `rnb->cb` */
    method Callback() returns (ok: bool)
      requires Framed() && recv.sOff == recv.bLen && out.Valid()
      modifies this, recv`readable, recv`disconnected, recv`buf, recv`sOff, recv`bLen, recv.buf, out
      ensures out.Valid() && (recv.buf == old(recv.buf) || fresh(recv.buf))
      ensures (recv.readable ==> old(recv.readable)) && (!ok ==> Rejected())
      ensures ok && old(recv.readable) && !recv.readable ==> LastCloses()
      ensures ok ==> Valid() && Grew(old(frames), old(replies), old(out.queued))
    {
      match phase
      case AwaitOpcode =>
        ok := RecvOpcode();
        assert replies[|replies|..] == [];
      case AwaitFrame => ok := RecvFrame();
    }

    /** `net_recv_flush` on a websocket connection. */
    method RecvFlush() returns (ok: bool)
      requires Valid() && out.Valid()
      modifies this, recv, recv.buf, out
      ensures out.Valid() && recv.consumed + recv.incoming == old(recv.consumed + recv.incoming)
      ensures recv.buf == old(recv.buf) || fresh(recv.buf)
      ensures ok ==> Valid() && !recv.readable && Grew(old(frames), old(replies), old(out.queued))
      ensures if ok then recv.failed == old(recv.failed) else recv.failed || Rejected()
      ensures ok && old(recv.readable) ==> LastCloses() || recv.Paused(old(recv.outcomes))
    {
      assert replies[|replies|..] == [];
      while recv.readable
        invariant Valid() && out.Valid() && Grew(old(frames), old(replies), old(out.queued))
        invariant recv.failed == old(recv.failed) && Left(old(recv.outcomes), recv.outcomes)
        invariant old(recv.readable) && !recv.readable ==> LastCloses() || recv.Paused(old(recv.outcomes))
        invariant recv.consumed + recv.incoming == old(recv.consumed + recv.incoming)
        invariant recv.buf == old(recv.buf) || fresh(recv.buf)
        decreases |recv.outcomes| + (if recv.readable then 1 else 0)
      {
        hide Receiver.Paused;
        ghost var was, rest := replies, recv.outcomes;
        ok := Turn();
        if !ok {
          return;
        }
        recv.PausedBy(old(recv.outcomes), rest);
        RepliesGrow(old(replies), was, replies);
      }
      ok := true;
    }

    /** Fidelity: of any stream of acceptable client frames, read in any pieces, the end has taken
        the first frames, unmasked each exactly once and delivered its payload; it holds at most
        the start of the next frame and never asks for bytes beyond that frame; and when all bytes
        are read, all frames are taken and it waits for a header again. */
    lemma Fidelity(sent: seq<Frame>, later: seq<byte>)
      requires Valid() && AllAcceptable(sent, maxFrame)
      requires recv.consumed + later == EncodeAll(sent)
      ensures |frames| <= |sent| && frames == Encodings(sent[..|frames|])
      ensures deliveries == Delivered(sent[..|frames|]) && replies == AnswerBytes(Answers(sent[..|frames|]))
      ensures |frames| < |sent| ==>
                recv.Received() < Encode(sent[|frames|]) && recv.bLen <= |Encode(sent[|frames|])|
      ensures later == [] ==> |frames| == |sent| && recv.sOff == 0 && phase.AwaitOpcode?
    {
      var tail := recv.Received();
      UniqueDecoding(frames, tail, sent, later, maxFrame);
      DeliversPayloads(sent[..|frames|], maxFrame);
      AnswersFrames(sent[..|frames|], maxFrame);
      var rest := sent[|frames|..];
      if rest != [] {
        NextFrame(rest[0], tail, later, EncodeAll(rest[1..]));
      }
    }

    /** Whatever bytes arrive, what was taken of them are acceptable frames, and only those were
        delivered and answered. */
    lemma OnlyAcceptable() returns (sent: seq<Frame>)
      requires Valid()
      ensures AllAcceptable(sent, maxFrame) && frames == Encodings(sent)
      ensures deliveries == Delivered(sent) && replies == AnswerBytes(Answers(sent))
    {
      sent := TakenAreAcceptable(frames, maxFrame);
      DeliversPayloads(sent, maxFrame);
      AnswersFrames(sent, maxFrame);
    }

    /** On a stream of acceptable frames it never gives up. */
    lemma NeverRejected(sent: seq<Frame>, later: seq<byte>)
      requires AllAcceptable(sent, maxFrame) && recv.Valid()
      requires recv.consumed + later == EncodeAll(sent)
      ensures !Rejected()
    {
      if Rejected() {
        hide AllComplete, Flatten;
        var tail := recv.Received();
        UniqueDecoding(frames, tail, sent, later, maxFrame);
        var rest := sent[|frames|..];
        NotUnacceptable(rest[0], tail, later, EncodeAll(rest[1..]), maxFrame);
      }
    }

    /** The request that is out stays inside the frame that is arriving. */
    lemma NextFrame(f: Frame, tail: seq<byte>, later: seq<byte>, rest: seq<byte>)
      requires Valid() && Acceptable(f, maxFrame) && tail == recv.Received()
      requires tail + later == Encode(f) + rest
      ensures recv.bLen <= |Encode(f)| && tail < Encode(f) && later != []
    {
      var e := Encode(f);
      EncodePrefix(f, e, []);
      assert e + [] == e;
      if |tail| >= 2 {
        SameHeader(tail, later, e, rest);
      }
      assert |tail| < |e|;
      assert (tail + later)[..|tail|] == tail == (e + rest)[..|tail|] == e[..|tail|];
    }
  }

  /** The beginning of an acceptable frame, and what may follow it, gives no reason to give up. */
  lemma NotUnacceptable(f: Frame, tail: seq<byte>, later: seq<byte>, rest: seq<byte>, maxFrame: nat)
    requires Acceptable(f, maxFrame) && tail + later == Encode(f) + rest
    ensures !Unacceptable(tail, maxFrame)
  {
    var e := Encode(f);
    EncodePrefix(f, e, []);
    assert e + [] == e;
    PayloadOfEncoding(f, maxFrame);
    if |tail| >= 2 {
      SameHeader(tail, later, e, rest);
    }
  }

  /** Two streams that agree begin with the same header, if that much is there. */
  lemma SameHeader(a: seq<byte>, more: seq<byte>, b: seq<byte>, rest: seq<byte>)
    requires a + more == b + rest && |a| >= 2 && |b| >= 2
    ensures a[0] == b[0] && a[1] == b[1] && ExtLen(a) == ExtLen(b) && FirstNeed(a) == FirstNeed(b)
    ensures |a| >= 2 + ExtLen(a) && |b| >= 2 + ExtLen(b) ==> Total(a) == Total(b) && PayloadLen(a) == PayloadLen(b)
  {
    var s := a + more;
    assert s[0] == a[0] == b[0] && s[1] == a[1] == b[1];
    if |a| >= 2 + ExtLen(a) && |b| >= 2 + ExtLen(b) {
      var k := 2 + ExtLen(a);
      assert a[2..k] == s[2..k] == b[2..k];
    }
  }

  lemma RepliesGrow(a: seq<byte>, b: seq<byte>, c: seq<byte>)
    requires a <= b <= c
    ensures c[|a|..] == b[|a|..] + c[|b|..]
    ensures forall q: seq<byte> :: q + b[|a|..] + c[|b|..] == q + c[|a|..]
  {
    forall q: seq<byte>
      ensures q + b[|a|..] + c[|b|..] == q + c[|a|..]
    {
      assert q + b[|a|..] + c[|b|..] == q + (b[|a|..] + c[|b|..]);
    }
  }

  /** Reading more of a frame keeps what its header says. */
  lemma MoreOfFrame(f: seq<byte>, s: seq<byte>, bLen: nat)
    requires f <= s
    ensures |f| >= 2 ==> ExtLen(s) == ExtLen(f) && FirstNeed(s) == FirstNeed(f) && OpcodeOk(s) == OpcodeOk(f)
    ensures |f| >= 2 && |f| >= 2 + ExtLen(f) ==> Total(s) == Total(f) && PayloadLen(s) == PayloadLen(f)
  {
    if |f| >= 2 && |f| >= 2 + ExtLen(f) {
      assert s[2..2 + ExtLen(f)] == f[2..2 + ExtLen(f)];
    }
  }

  predicate AllAcceptable(fs: seq<Frame>, maxFrame: nat) {
    forall i | 0 <= i < |fs| :: Acceptable(fs[i], maxFrame)
  }

  function Encodings(fs: seq<Frame>): seq<seq<byte>>
    requires forall i | 0 <= i < |fs| :: WellFormed(fs[i])
  {
    if fs == [] then [] else [Encode(fs[0])] + Encodings(fs[1..])
  }

  function EncodeAll(fs: seq<Frame>): seq<byte>
    requires forall i | 0 <= i < |fs| :: WellFormed(fs[i])
  {
    if fs == [] then [] else Encode(fs[0]) + EncodeAll(fs[1..])
  }

  /** The data frames, as the message handler sees them. */
  function Delivered(fs: seq<Frame>): seq<Delivery> {
    if fs == [] then []
    else
      var f := fs[|fs| - 1];
      Delivered(fs[..|fs| - 1]) + if f.op == OP_TEXT || f.op == OP_BINARY then [Delivery(f.op, f.payload)] else []
  }

  /** What frames are answered with (sections 5.5.1 and 5.5.3 of RFC 6455): each ping with a pong of
      its payload, the first close with an empty close, and nothing else with anything. */
  function Answers(fs: seq<Frame>): seq<Delivery> {
    if fs == [] then []
    else
      var n := |fs| - 1;
      Answers(fs[..n]) +
      (if fs[n].op == OP_PING then [Delivery(OP_PONG, fs[n].payload)]
       else if fs[n].op == OP_CLOSE && !HasClose(fs[..n]) then [Delivery(OP_CLOSE, [])]
       else [])
  }

  predicate HasClose(fs: seq<Frame>) {
    exists i :: 0 <= i < |fs| && fs[i].op == OP_CLOSE
  }

  /** These answers as frames: `BuildReadBack` tells what a client reads in each. */
  function AnswerBytes(answers: seq<Delivery>): seq<byte> {
    if answers == [] then []
    else
      var a := answers[|answers| - 1];
      AnswerBytes(answers[..|answers| - 1]) + if |a.payload| <= SIZE_MAX then Build(a.op, a.payload) else []
  }

  lemma AnswerBytesSnoc(answers: seq<Delivery>, a: Delivery)
    requires |a.payload| <= SIZE_MAX
    ensures AnswerBytes(answers + [a]) == AnswerBytes(answers) + Build(a.op, a.payload)
  {
    assert (answers + [a])[..|answers|] == answers;
  }

  lemma {:induction false} AnswersFrames(fs: seq<Frame>, maxFrame: nat)
    requires AllAcceptable(fs, maxFrame) && maxFrame <= SIZE_MAX
    ensures AllComplete(Encodings(fs), maxFrame) && (Closed(Encodings(fs)) <==> HasClose(fs))
    ensures Replies(Encodings(fs), maxFrame) == AnswerBytes(Answers(fs))
    decreases fs
  {
    hide Encode, Payload, Complete, Build, Closed, HasClose;
    if fs == [] {
      NoClose();
    } else {
      var n := |fs| - 1;
      var init, f := fs[..n], fs[n];
      AnswersFrames(init, maxFrame);
      assert fs == init + [f];
      EncodingsSnoc(init, f);
      PayloadOfEncoding(f, maxFrame);
      OneMoreFrame(Encodings(init), Encode(f), maxFrame);
      HasCloseSnoc(init, f);
      AnswerBytesSnoc(Answers(init), if f.op == OP_PING then Delivery(OP_PONG, f.payload) else Delivery(OP_CLOSE, []));
      assert AnswerBytes(Answers(init)) + [] == AnswerBytes(Answers(init)) && Answers(init) + [] == Answers(init);
    }
  }

  lemma NoClose()
    ensures !Closed(Encodings([])) && !HasClose([])
  {
  }

  lemma HasCloseSnoc(fs: seq<Frame>, f: Frame)
    ensures HasClose(fs + [f]) <==> HasClose(fs) || f.op == OP_CLOSE
  {
    var all := fs + [f];
    if HasClose(fs) {
      var i :| 0 <= i < |fs| && fs[i].op == OP_CLOSE;
      assert all[i].op == OP_CLOSE;
    } else if f.op == OP_CLOSE {
      assert all[|fs|].op == OP_CLOSE;
    }
  }

  // ----- the examples of section 5.7 of RFC 6455

  const HELLO: seq<byte> := [0x48, 0x65, 0x6c, 0x6c, 0x6f]

  /** A text message and an unmasked pong of the server. */
  lemma ServerExamples()
    ensures Build(OP_TEXT, HELLO) == [0x81, 0x05, 0x48, 0x65, 0x6c, 0x6c, 0x6f]
    ensures Build(OP_PONG, HELLO) == [0x8a, 0x05, 0x48, 0x65, 0x6c, 0x6c, 0x6f]
  {
  }

  /** The length fields of a message of 256 and of one of 65536 bytes. */
  lemma LengthExamples()
    ensures LengthField(Shortest(256), 256) == [0x7e, 0x01, 0x00]
    ensures LengthField(Shortest(65536), 65536) == [0x7f, 0x00, 0x00, 0x00, 0x00, 0x00, 0x01, 0x00, 0x00]
  {
    assert ToNetwork(256, 2) == ToNetwork(1, 1) + [0] && ToNetwork(1, 1) == [1];
    assert ToNetwork(0, 4) == [0, 0, 0, 0] && ToNetwork(0, 2) == [0, 0];
    assert ToNetwork(1, 6) == ToNetwork(0, 5) + [1] && ToNetwork(0, 5) == ToNetwork(0, 4) + [0];
    assert ToNetwork(65536, 8) == ToNetwork(256, 7) + [0] && ToNetwork(256, 7) == ToNetwork(1, 6) + [0];
  }

  /** One bit more. */
  lemma XorStep(a: nat, b: nat, x: nat)
    requires Xor(a / 2, b / 2) == x
    ensures Xor(a, b) == 2 * x + (a % 2 + b % 2) % 2
  {
    hide *;
    XorUnfold(a, b);
  }

  lemma XorOf(a: byte, b: byte)
    ensures XorByte(a, b) == Xor(a, b)
  {
    hide Xor;
  }

  lemma XorExample1()
    ensures XorByte(0x48, 0x37) == 0x7f
  {
    hide *;
    XorZero(0);
    XorStep(1, 0, 0);
    XorStep(2, 1, 1);
    XorStep(4, 3, 3);
    XorStep(9, 6, 7);
    XorStep(18, 13, 15);
    XorStep(36, 27, 31);
    XorStep(72, 55, 63);
    XorOf(0x48, 0x37);
  }

  lemma XorExample2()
    ensures XorByte(0x65, 0xfa) == 0x9f
  {
    hide *;
    XorZero(0);
    XorStep(0, 1, 0);
    XorStep(1, 3, 1);
    XorStep(3, 7, 2);
    XorStep(6, 15, 4);
    XorStep(12, 31, 9);
    XorStep(25, 62, 19);
    XorStep(50, 125, 39);
    XorStep(101, 250, 79);
    XorOf(0x65, 0xfa);
  }

  lemma XorExample3()
    ensures XorByte(0x6c, 0x21) == 0x4d
  {
    hide *;
    XorZero(0);
    XorStep(1, 0, 0);
    XorStep(3, 1, 1);
    XorStep(6, 2, 2);
    XorStep(13, 4, 4);
    XorStep(27, 8, 9);
    XorStep(54, 16, 19);
    XorStep(108, 33, 38);
    XorOf(0x6c, 0x21);
  }

  lemma XorExample4()
    ensures XorByte(0x6c, 0x3d) == 0x51
  {
    hide *;
    XorZero(0);
    XorStep(1, 0, 0);
    XorStep(3, 1, 1);
    XorStep(6, 3, 2);
    XorStep(13, 7, 5);
    XorStep(27, 15, 10);
    XorStep(54, 30, 20);
    XorStep(108, 61, 40);
    XorOf(0x6c, 0x3d);
  }

  lemma XorExample5()
    ensures XorByte(0x6f, 0x37) == 0x58
  {
    hide *;
    XorZero(0);
    XorStep(1, 0, 0);
    XorStep(3, 1, 1);
    XorStep(6, 3, 2);
    XorStep(13, 6, 5);
    XorStep(27, 13, 11);
    XorStep(55, 27, 22);
    XorStep(111, 55, 44);
    XorOf(0x6f, 0x37);
  }

  /** A masked text message and a masked pong of a client. */
  lemma ClientExamples()
    ensures
      var mask: seq<byte> := [0x37, 0xfa, 0x21, 0x3d];
      && Encode(Frame(true, OP_TEXT, Short, mask, HELLO)) ==
         [0x81, 0x85, 0x37, 0xfa, 0x21, 0x3d, 0x7f, 0x9f, 0x4d, 0x51, 0x58]
      && Encode(Frame(true, OP_PONG, Short, mask, HELLO)) ==
         [0x8a, 0x85, 0x37, 0xfa, 0x21, 0x3d, 0x7f, 0x9f, 0x4d, 0x51, 0x58]
  {
    hide XorByte;
    XorExample1();
    XorExample2();
    XorExample3();
    XorExample4();
    XorExample5();
  }

  /** A complete frame at the start of a stream of encoded frames is the first of them. */
  lemma FirstFrame(r: seq<byte>, more: seq<byte>, f: Frame, rest: seq<byte>, maxFrame: nat)
    requires Complete(r, maxFrame) && WellFormed(f) && r + more == Encode(f) + rest
    ensures r == Encode(f) && more == rest
  {
    var e := Encode(f);
    assert e + [] == e;
    EncodePrefix(f, e, []);
    SameHeader(r, more, e, rest);
    assert |r| == |e|;
    assert (r + more)[..|r|] == r && (e + rest)[..|e|] == e;
    assert (r + more)[|r|..] == more && (e + rest)[|e|..] == rest;
  }

  lemma FrameNotEmpty(f: seq<byte>, maxFrame: nat)
    requires Complete(f, maxFrame)
    ensures f != []
  {
  }

  lemma {:induction false} UniqueDecoding(frames: seq<seq<byte>>, tail: seq<byte>,
                                          sent: seq<Frame>, later: seq<byte>, maxFrame: nat)
    requires AllComplete(frames, maxFrame) && AllAcceptable(sent, maxFrame)
    requires Flatten(frames) + tail + later == EncodeAll(sent)
    ensures |frames| <= |sent| && frames == Encodings(sent[..|frames|])
    ensures tail + later == EncodeAll(sent[|frames|..])
    decreases frames
  {
    hide Complete, Encode;
    if frames == [] {
      assert Flatten(frames) + tail + later == tail + later;
      assert sent[0..] == sent;
    } else {
      var more := Flatten(frames[1..]) + tail + later;
      assert Flatten(frames) + tail + later == frames[0] + more;
      FrameNotEmpty(frames[0], maxFrame);
      assert sent != [];
      FirstFrame(frames[0], more, sent[0], EncodeAll(sent[1..]), maxFrame);
      UniqueDecoding(frames[1..], tail, sent[1..], later, maxFrame);
      var n := |frames|;
      assert sent[..n][1..] == sent[1..][..n - 1] && sent[1..][n - 1..] == sent[n..];
      assert frames == [frames[0]] + frames[1..];
    }
  }

  /** Unmasking an encoded frame gives its payload. */
  lemma PayloadOfEncoding(f: Frame, maxFrame: nat)
    requires Acceptable(f, maxFrame)
    ensures Complete(Encode(f), maxFrame) && Encode(f)[0] % 16 == f.op
    ensures Payload(Encode(f), maxFrame) == f.payload
  {
    hide Masked, LengthField, FromNetwork;
    var e := Encode(f);
    assert e + [] == e;
    EncodePrefix(f, e, []);
    PayloadPosition(f);
    UnmaskMasked(f.payload, f.mask);
  }

  lemma Pieces(e: seq<byte>, at: nat, a: seq<byte>, b: seq<byte>)
    requires at <= |e| && e[at..] == a + b
    ensures at + |a| <= |e| && e[at..at + |a|] == a && e[at + |a|..] == b
  {
    assert e[at..at + |a|] == e[at..][..|a|];
    assert e[at + |a|..] == e[at..][|a|..];
  }

  /** Where the mask and the masked payload are. */
  lemma PayloadPosition(f: Frame)
    requires WellFormed(f)
    ensures
      var e := Encode(f);
      var moff := 2 + ExtLen(e);
      moff + 4 <= |e| && e[moff..moff + 4] == f.mask && e[moff + 4..] == Masked(f.payload, f.mask)
  {
    var tail := f.mask + Masked(f.payload, f.mask);
    hide ExtLen, Len7, PayloadLen, LengthField, Masked, FirstByte;
    LengthReadBack(FirstByte(f), f.form, |f.payload|, 128, tail);
    var e := Encode(f);
    var field := LengthField(f.form, |f.payload|);
    assert e == [FirstByte(f), field[0] + 128] + field[1..] + tail;
    var moff := 2 + ExtLen(e);
    Pieces(e, moff, f.mask, Masked(f.payload, f.mask));
  }

  /** The length a frame announces is written in one of the three forms. */
  lemma LengthIsWritten(s: seq<byte>) returns (form: Form)
    requires 2 <= |s| && 2 + ExtLen(s) <= |s|
    ensures Fits(form, PayloadLen(s)) && |LengthField(form, PayloadLen(s))| == 1 + ExtLen(s)
    ensures LengthField(form, PayloadLen(s))[0] == Len7(s)
    ensures LengthField(form, PayloadLen(s))[1..] == s[2..2 + ExtLen(s)]
    ensures form == if ExtLen(s) == 0 then Short else if ExtLen(s) == 2 then Ext16 else Ext64
  {
    hide FromNetwork, ToNetwork, Range;
    Ranges();
    NetworkReadBack(s[2..2 + ExtLen(s)]);
    form := if ExtLen(s) == 0 then Short else if ExtLen(s) == 2 then Ext16 else Ext64;
  }

  lemma Nibbles(b: byte)
    requires (b / 16) % 8 == 0
    ensures b == b % 16 + if b >= 128 then 128 else 0
  {
  }

  /** Nothing but acceptable frames is ever taken: what the receiver takes for a whole frame is one,
      masked, without reserved bits, of a known opcode, and final and short if it is a control frame. */
  lemma TakenIsAcceptable(s: seq<byte>, maxFrame: nat) returns (f: Frame)
    requires Complete(s, maxFrame)
    ensures Acceptable(f, maxFrame) && Encode(f) == s && Payload(s, maxFrame) == f.payload
  {
    hide FromNetwork, LengthField, Masked;
    var form := LengthIsWritten(s);
    var moff := 2 + ExtLen(s);
    var mask := s[moff..moff + 4];
    Nibbles(s[0]);
    UnmaskMasked(s[moff + 4..], mask);
    f := Frame(s[0] >= 128, s[0] % 16, form, mask, Payload(s, maxFrame));
    Assembled(s, moff);
    assert FirstByte(f) == s[0];
    assert LengthField(f.form, |f.payload|)[0] + 128 == s[1];
  }

  lemma {:induction false} TakenAreAcceptable(frames: seq<seq<byte>>, maxFrame: nat) returns (fs: seq<Frame>)
    requires AllComplete(frames, maxFrame)
    ensures AllAcceptable(fs, maxFrame) && Encodings(fs) == frames
    decreases frames
  {
    hide Complete, Acceptable, Encode;
    fs := [];
    if frames != [] {
      var first := TakenIsAcceptable(frames[0], maxFrame);
      var rest := TakenAreAcceptable(frames[1..], maxFrame);
      fs := [first] + rest;
      assert fs[1..] == rest;
      AllWellFormed(fs, maxFrame);
    }
  }

  lemma AllWellFormed(fs: seq<Frame>, maxFrame: nat)
    requires AllAcceptable(fs, maxFrame)
    ensures forall i | 0 <= i < |fs| :: WellFormed(fs[i])
  {
  }

  lemma Assembled(s: seq<byte>, moff: nat)
    requires 2 <= moff && moff + 4 <= |s|
    ensures [s[0], s[1]] + s[2..moff] + (s[moff..moff + 4] + s[moff + 4..]) == s
  {
  }

  lemma {:induction false} EncodingsSnoc(fs: seq<Frame>, f: Frame)
    requires WellFormed(f) && forall i | 0 <= i < |fs| :: WellFormed(fs[i])
    ensures Encodings(fs + [f]) == Encodings(fs) + [Encode(f)]
    decreases fs
  {
    var all := fs + [f];
    if fs == [] {
      assert all[1..] == [];
    } else {
      assert all[1..] == fs[1..] + [f];
      EncodingsSnoc(fs[1..], f);
    }
  }

  lemma {:induction false} DeliversPayloads(fs: seq<Frame>, maxFrame: nat)
    requires AllAcceptable(fs, maxFrame)
    ensures AllComplete(Encodings(fs), maxFrame)
    ensures Deliveries(Encodings(fs), maxFrame) == Delivered(fs)
    decreases fs
  {
    hide Encode, Payload, Complete;
    if fs != [] {
      var n := |fs| - 1;
      var init, f := fs[..n], fs[n];
      DeliversPayloads(init, maxFrame);
      assert fs == init + [f];
      EncodingsSnoc(init, f);
      PayloadOfEncoding(f, maxFrame);
      var all := Encodings(fs);
      assert all[..|all| - 1] == Encodings(init);
    }
  }

  /** The first request after the header stays within the frame exactly when the extended length is
      at least 126 (two bytes) or 127 (eight bytes); otherwise the frame is never taken. */
  lemma FirstRequestWithinFrame(f: Frame, maxFrame: nat)
    requires WellFormed(f)
    ensures FirstNeed(Encode(f)) <= |Encode(f)| <==> LongEnough(f)
    ensures !LongEnough(f) ==> forall rest: seq<byte>, k: nat | k <= |Encode(f) + rest| ::
              !Complete((Encode(f) + rest)[..k], maxFrame)
    ensures f.form == Shortest(|f.payload|) ==> LongEnough(f)
  {
    var e := Encode(f);
    assert e + [] == e;
    EncodePrefix(f, e, []);
    if !LongEnough(f) {
      hide Encode, LongEnough, Shortest;
      forall rest: seq<byte>, k: nat | k <= |e + rest|
        ensures !Complete((e + rest)[..k], maxFrame)
      {
        NeverTaken(e, rest, k, maxFrame);
      }
    }
  }

  /** A frame that is shorter than the first request for it is never complete. */
  lemma NeverTaken(e: seq<byte>, rest: seq<byte>, k: nat, maxFrame: nat)
    requires k <= |e + rest| && |e| >= 2 && |e| >= 2 + ExtLen(e) && Total(e) == |e| < FirstNeed(e)
    ensures !Complete((e + rest)[..k], maxFrame)
  {
    var s := (e + rest)[..k];
    if Complete(s, maxFrame) {
      hide PayloadLen, Total, FirstNeed, OpcodeOk, ExtLen;
      assert s + (e + rest)[k..] == e + rest;
      SameHeader(s, (e + rest)[k..], e, rest);
    }
  }

  /** An empty frame whose length is written in the two-byte form takes eight bytes; the receiver
      asks for 134. */
  lemma LongFormReadsPast()
    ensures
      var f := Frame(true, OP_TEXT, Ext16, [1, 2, 3, 4], []);
      WellFormed(f) && |Encode(f)| == 8 && FirstNeed(Encode(f)) == 134
  {
  }
}
