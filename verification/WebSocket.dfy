/** `client::receive` of src/nxtrt/websocket.hpp: messages put together from
    fragments between which control frames may stand (sections 5.4 and 5.5 of
    RFC 6455). */
module WebSocket {
  import opened Basics
  import opened Bits
  import opened WebSocketFrames
  import Utf8

  // ----- one frame -----

  /** What lasts from frame to frame. */
  datatype State = State(fragments: Bytes, kind: Option<nat>, closeSent: bool)

  datatype Event = Data(kind: nat, data: Bytes) | Pong(data: Bytes) | Close(code: Option<nat>, reason: Bytes)

  /** A frame is an error, or has effects: perhaps an event, perhaps a reply. */
  datatype Step = Wrong | Step(state: State, events: seq<Event>, replies: seq<Out>)

  /** `close_code`. */
  predicate CloseCode(code: nat) {
    (1000 <= code <= 1014 && code != 1004 && code != 1005 && code != 1006) || 3000 <= code <= 4999
  }

  ghost predicate ClosePayload(p: Bytes) {
    p == [] || (|p| >= 2 && CloseCode(Number(p[..2])) && Utf8.WellFormed(p[2..]))
  }

  ghost function CloseEvent(p: Bytes): Event {
    if |p| < 2 then Close(None, []) else Close(Some(Number(p[..2])), p[2..])
  }

  ghost function OnFrame(s: State, f: Frame, limit: nat): Step {
    if f.opcode == 9 then Step(s, [], [Out(10, f.payload)])
    else if f.opcode == 10 then Step(s, [Pong(f.payload)], [])
    else if f.opcode == 8 then
      if !ClosePayload(f.payload) then Wrong
      else Step(State([], s.kind, true), [CloseEvent(f.payload)], if s.closeSent then [] else [Out(8, f.payload)])
    else if (f.opcode == 0 <==> s.kind.None?) || |s.fragments| + |f.payload| > limit then Wrong
    else
      var kind := if f.opcode == 0 then s.kind.value else f.opcode;
      var all := s.fragments + f.payload;
      if !f.fin then Step(State(all, Some(kind), s.closeSent), [], [])
      else if kind == 1 && !Utf8.WellFormed(all) then Wrong
      else Step(State([], None, s.closeSent), if s.closeSent then [] else [Data(kind, all)], [])
  }

  // ----- one call -----

  datatype Received = Fails | Received(event: Event, state: State, rest: Bytes, replies: seq<Out>)

  ghost function Before(replies: seq<Out>, r: Received): Received {
    if r.Fails? then Fails else r.(replies := replies + r.replies)
  }

  /** The frame in front, and what follows it. */
  ghost function FrameAt(b: Bytes): (r: Option<(Frame, Bytes)>)
    ensures r.Some? ==> |r.value.1| < |b| && KnownOpcode(r.value.0.opcode)
  {
    var head := HeadOf(b);
    if head.None? then None else
    var h := head.value;
    if |b| < h.width + h.size then None
    else Some((Frame(h.fin, h.opcode, b[h.width..h.width + h.size]), b[h.width + h.size..]))
  }

  /** A call on the bytes `b`, all at once. */
  ghost function Receives(s: State, b: Bytes, limit: nat): Received
    decreases |b|
  {
    var front := FrameAt(b);
    if front.None? then Fails else
    var (f, rest) := front.value;
    var step := OnFrame(s, f, limit);
    if step.Wrong? then Fails
    else if step.events != [] then Received(step.events[0], step.state, rest, step.replies)
    else Before(step.replies, Receives(step.state, rest, limit))
  }

  lemma ReceivesStep(replies: seq<Out>, s: State, b: Bytes, limit: nat)
    ensures Before(replies, Receives(s, b, limit)) ==
            var front := FrameAt(b);
            if front.None? then Fails else
            var (f, rest) := front.value;
            var step := OnFrame(s, f, limit);
            if step.Wrong? then Fails
            else if step.events != [] then Received(step.events[0], step.state, rest, replies + step.replies)
            else Before(replies + step.replies, Receives(step.state, rest, limit))
  {
    hide FrameAt, OnFrame;
    var front := FrameAt(b);
    if front.Some? {
      var (f, rest) := front.value;
      var step := OnFrame(s, f, limit);
      if step.Step? {
        var r := Receives(step.state, rest, limit);
        assert r.Received? ==> replies + (step.replies + r.replies) == (replies + step.replies) + r.replies;
      }
    }
  }

  /** How a call ends: nothing after Close, an exception, or an event. */
  datatype Answer = Nothing | Throws | Got(event: Event)

  class Client {
    const limit: nat
    var unread: Bytes
    var fragments: Bytes
    var kind: Option<nat>
    var closeSent: bool
    var closeReceived: bool
    var connected: bool
    var sent: seq<Bytes>

    /** What the frames sent are, as their receiver reads them. */
    ghost var log: seq<Out>

    ghost predicate Valid()
      reads this
    {
      && |fragments| <= limit
      && |sent| == |log| && forall k :: 0 <= k < |sent| ==> ServerReads(sent[k]) == Some(log[k])
    }

    ghost function Now(): State
      reads this
    {
      State(fragments, kind, closeSent)
    }

    constructor (limit: nat, bytes: Bytes)
      ensures Valid() && this.limit == limit && unread == bytes && connected && !closeReceived
      ensures Now() == State([], None, false) && log == []
    {
      this.limit, unread := limit, bytes;
      fragments, kind, closeSent, closeReceived, connected := [], None, false, false, true;
      sent, log := [], [];
    }

    /** `octet`. */
    method Octet() returns (c: Option<byte>)
      modifies `unread
      ensures old(unread) == [] ==> c.None?
      ensures old(unread) != [] ==> c == Some(old(unread)[0]) && unread == old(unread)[1..]
    {
      if |unread| == 0 {
        return None;
      }
      c := Some(unread[0]);
      unread := unread[1..];
    }

    /** `frame`, with any mask. */
    method Send(out: Out)
      requires Valid() && KnownOpcode(out.opcode) && |out.data| < Half && (Control(out.opcode) ==> |out.data| <= 125)
      modifies `sent, `log
      ensures Valid() && log == old(log) + [out]
    {
      hide ServerReads;
      var mask := Random();
      ClientFrameRead(out, mask);
      var bytes := EncodeFrame(out, mask);
      sent := sent + [bytes];
      log := log + [out];
    }

    /** An extended length, octet by octet. */
    method ReadNumber(width: nat) returns (r: Option<nat>)
      modifies `unread
      ensures r == if width <= |old(unread)| then Some(Number(old(unread)[..width])) else None
      ensures r.Some? ==> unread == old(unread)[width..]
    {
      ghost var b := unread;
      var size: nat := 0;
      for i := 0 to width
        invariant i <= |b| && unread == b[i..] && size == Number(b[..i])
      {
        var c := Octet();
        if c.None? {
          return None;
        }
        assert b[..i + 1][..i] == b[..i];
        size := size * 256 + c.value;
      }
      r := Some(size);
    }

    /** The head of a frame, octet by octet. */
    method ReadHead() returns (h: Option<Head>)
      modifies `unread
      ensures h == HeadOf(old(unread))
      ensures h.Some? ==> unread == old(unread)[h.value.width..]
    {
      hide LengthAt, Number;
      ghost var b := unread;
      var first := Octet();
      if first.None? {
        return None;
      }
      var second := Octet();
      if second.None? {
        return None;
      }
      var x: int, y: int := first.value, second.value;
      assert x == b[0] && y == b[1] && unread == b[2..];
      var fin, opcode := x >= 128, x % 16;
      if x / 16 % 8 != 0 || y >= 128 || !KnownOpcode(opcode) {
        return None;
      }
      if Control(opcode) && (!fin || y % 128 > 125) {
        return None;
      }
      LengthRead(b[1..]);
      assert b[1..][0] == y;
      if y != 126 && y != 127 {
        return Some(Head(fin, opcode, y, 2));
      }
      var width := if y == 126 then 2 else 8;
      var read := ReadNumber(width);
      assert width <= |b| - 2 ==> b[1..][1..1 + width] == b[2..][..width];
      if read.None? {
        return None;
      }
      var size := read.value;
      if (width == 2 && size < 126) || (width == 8 && (size < 65536 || size >= Half)) {
        return None;
      }
      h := Some(Head(fin, opcode, size, 2 + width));
    }

    /** The payload, in pieces of any size. */
    method ReadPayload(size: nat) returns (payload: Option<Bytes>)
      modifies `unread
      ensures payload == if size <= |old(unread)| then Some(old(unread)[..size]) else None
      ensures payload.Some? ==> unread == old(unread)[size..]
    {
      var p: Bytes := [];
      ghost var b := unread;
      while |p| < size
        invariant |p| <= size && |p| <= |b| && p == b[..|p|] && unread == b[|p|..]
        decreases size - |p|
      {
        if |unread| == 0 {
          return None;
        }
        var n: int := *;
        if n < 1 || n > size - |p| || n > |unread| {
          n := 1;
        }
        p := p + unread[..n];
        unread := unread[n..];
      }
      payload := Some(p);
    }

    /** A frame, unless it is malformed, does not fit, or is cut short. */
    method ReadFrame() returns (f: Option<Frame>)
      requires Valid()
      modifies `unread
      ensures f.None? ==> FrameAt(old(unread)).None? || OnFrame(Now(), FrameAt(old(unread)).value.0, limit).Wrong?
      ensures f.Some? ==>
                && FrameAt(old(unread)) == Some((f.value, unread)) && |unread| < |old(unread)|
                && KnownOpcode(f.value.opcode)
                && (Control(f.value.opcode) ==> |f.value.payload| <= 125)
                && (!Control(f.value.opcode) ==>
                      (f.value.opcode == 0 <==> kind.Some?) && |fragments| + |f.value.payload| <= limit)
    {
      hide HeadOf, ServerReads, OnFrame;
      ghost var b := unread;
      var head := ReadHead();
      if head.None? {
        return None;
      }
      var h := head.value;
      if h.size <= |unread| {
        Slices(b, h.width, h.size);
        FrameCases(Now(), FrameAt(b).value.0, limit);
      }
      if !Control(h.opcode) {
        if (h.opcode == 0) == kind.None? || h.size > limit - |fragments| {
          return None;
        }
      }
      var payload := ReadPayload(h.size);
      if payload.None? {
        return None;
      }
      f := Some(Frame(h.fin, h.opcode, payload.value));
    }

    /** What a Close frame does; false is an exception. */
    method TakeClose(payload: Bytes) returns (ok: bool, event: Event)
      requires Valid() && |payload| <= 125
      modifies this`fragments, this`closeSent, this`closeReceived, this`connected, this`sent, this`log
      ensures Valid() && (ok <==> ClosePayload(payload))
      ensures ok ==> event == CloseEvent(payload) && event.Close? && fragments == [] && closeSent && closeReceived && !connected
      ensures ok ==> log == old(log) + if old(closeSent) then [] else [Out(8, payload)]
    {
      hide ServerReads;
      event := Close(None, []);
      if payload != [] {
        if |payload| == 1 {
          return false, event;
        }
        var high: int, low: int := payload[0], payload[1];
        var code := high * 256 + low;
        TwoBytes(payload[..2]);
        event := Close(Some(code), payload[2..]);
        if !CloseCode(code) {
          return false, event;
        }
        var text := Utf8.Check(payload[2..]);
        if !text {
          return false, event;
        }
      }
      assert log + [] == log;
      if !closeSent {
        Send(Out(8, payload));
      }
      closeSent, closeReceived := true, true;
      fragments := [];
      connected := false;
      ok := true;
    }

    /** What a data frame does, once it is known to fit. */
    method TakeData(fin: bool, opcode: nat, payload: Bytes) returns (ok: bool, event: Option<Event>)
      requires Valid() && (opcode == 0 <==> kind.Some?) && |fragments| + |payload| <= limit
      requires KnownOpcode(opcode) && !Control(opcode)
      modifies this`fragments, this`kind
      ensures Valid()
      ensures var step := OnFrame(old(Now()), Frame(fin, opcode, payload), limit);
              && (ok <==> step.Step?)
              && (ok ==> Now() == step.state && step.replies == []
                         && step.events == if event.Some? then [event.value] else [])
      ensures event.Some? ==> event.value.Data?
    {
      hide ServerReads;
      event := None;
      if opcode != 0 {
        kind := Some(opcode);
      }
      fragments := fragments + payload;
      if !fin {
        return true, event;
      }
      var whole := Data(kind.value, fragments);
      fragments := [];
      kind := None;
      if whole.kind == 1 {
        var text := Utf8.Check(whole.data);
        if !text {
          return false, event;
        }
      }
      if !closeSent {
        event := Some(whole);
      }
      ok := true;
    }

    /** `receive`. The answer is a function of the bytes, however they arrive. */
    method Receive() returns (r: Answer)
      requires Valid()
      modifies this
      ensures Valid()
      ensures old(closeReceived) ==> r == Nothing && Now() == old(Now()) && unread == old(unread) && log == old(log)
      ensures !old(closeReceived) && !old(connected) ==> r == Throws && log == old(log)
      ensures !old(closeReceived) && old(connected) ==>
                match Receives(old(Now()), old(unread), limit)
                case Fails => r == Throws && !connected
                case Received(event, state, rest, replies) =>
                  && r == Got(event) && Now() == state && unread == rest && log == old(log) + replies
                  && connected == !event.Close? && closeReceived == event.Close?
    {
      hide Receives, FrameAt, ServerReads, OnFrame, ClosePayload, CloseEvent, HeadOf, Utf8.WellFormed;
      if closeReceived {
        return Nothing;
      }
      if !connected {
        return Throws;
      }
      ghost var goal := Receives(Now(), unread, limit);
      ghost var replies: seq<Out> := [];
      BeforeNone(goal);
      while true
        invariant Valid() && connected && !closeReceived && log == old(log) + replies
        invariant Before(replies, Receives(Now(), unread, limit)) == goal
        decreases |unread|
      {
        ReceivesStep(replies, Now(), unread, limit);
        var front := ReadFrame();
        if front.None? {
          connected := false;
          return Throws;
        }
        var f := front.value;
        FrameCases(Now(), f, limit);
        if f.opcode == 9 {
          Send(Out(10, f.payload));
          replies := replies + [Out(10, f.payload)];
          continue;
        }
        if f.opcode == 10 {
          assert replies + [] == replies;
          return Got(Pong(f.payload));
        }
        if f.opcode == 8 {
          var ok, event := TakeClose(f.payload);
          if !ok {
            connected := false;
            return Throws;
          }
          return Got(event);
        }
        var ok, event := TakeData(f.fin, f.opcode, f.payload);
        if !ok {
          connected := false;
          return Throws;
        }
        assert replies + [] == replies;
        if event.Some? {
          return Got(event.value);
        }
      }
    }
  }

  lemma Slices(b: Bytes, w: nat, n: nat)
    requires w + n <= |b|
    ensures b[w..][..n] == b[w..w + n] && b[w..][n..] == b[w + n..]
  {
  }

  lemma FrameCases(s: State, f: Frame, limit: nat)
    requires KnownOpcode(f.opcode)
    ensures f.opcode == 9 ==> OnFrame(s, f, limit) == Step(s, [], [Out(10, f.payload)])
    ensures f.opcode == 10 ==> OnFrame(s, f, limit) == Step(s, [Pong(f.payload)], [])
    ensures f.opcode == 8 ==>
              OnFrame(s, f, limit) ==
              if !ClosePayload(f.payload) then Wrong
              else Step(State([], s.kind, true), [CloseEvent(f.payload)], if s.closeSent then [] else [Out(8, f.payload)])
    ensures !Control(f.opcode) && ((f.opcode == 0) == s.kind.None? || |f.payload| > limit - |s.fragments|) ==>
              OnFrame(s, f, limit).Wrong?
  {
    hide ClosePayload, CloseEvent;
  }

  lemma BeforeNone(r: Received)
    ensures Before([], r) == r
  {
    assert r.Received? ==> [] + r.replies == r.replies;
  }

  lemma TwoBytes(p: Bytes)
    requires |p| == 2
    ensures var high: int, low: int := p[0], p[1]; Number(p) == high * 256 + low
  {
    assert p[..1][..0] == [];
    assert Number(p[..1]) == p[0];
  }

  lemma LengthRead(b: Bytes)
    requires |b| > 0 && b[0] < 128
    ensures b[0] == 126 ==> LengthAt(b) == if |b| < 3 || Number(b[1..3]) < 126 then None else Some((Number(b[1..3]), 3))
    ensures b[0] == 127 ==> LengthAt(b) == if |b| < 9 || Number(b[1..9]) < 65536 || Number(b[1..9]) >= Half then None
                                           else Some((Number(b[1..9]), 9))
    ensures b[0] < 126 ==> LengthAt(b) == Some((b[0] as nat, 1))
  {
    hide Number;
  }

  /** Any four bytes. */
  method Random() returns (mask: Bytes)
    ensures |mask| == 4
  {
    mask := [];
    for i := 0 to 4
      invariant |mask| == i
    {
      var x: int := *;
      mask := mask + [x % 256];
    }
  }
}
