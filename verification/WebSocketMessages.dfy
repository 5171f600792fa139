/** Legal frame streams, and what a client that has not sent Close gets from them:
    the messages are the groups of data frames, whatever control frames stand
    between, and every ping is answered once. */
module WebSocketMessages {
  import opened Basics
  import opened Bits
  import opened WebSocketFrames
  import opened WebSocket
  import Utf8

  // ----- messages, said without the client's state -----

  ghost function DataFrames(fs: seq<Frame>): seq<Frame> {
    if fs == [] then []
    else if Control(fs[0].opcode) then DataFrames(fs[1..])
    else [fs[0]] + DataFrames(fs[1..])
  }

  /** How many frames the first message has: up to the first final one, or all. */
  ghost function GroupLen(ds: seq<Frame>): (n: nat)
    ensures n <= |ds| && (ds != [] ==> n > 0)
    ensures forall k :: 0 <= k < n - 1 ==> !ds[k].fin
    ensures 0 < n < |ds| ==> ds[n - 1].fin
  {
    if ds == [] then 0 else if ds[0].fin then 1
    else
      var n := GroupLen(ds[1..]);
      assert forall k :: 0 < k < n ==> ds[k] == ds[1..][k - 1];
      1 + n
  }

  ghost function Joined(ds: seq<Frame>): Bytes {
    if ds == [] then [] else Joined(ds[..|ds| - 1]) + ds[|ds| - 1].payload
  }

  /** The complete messages of a sequence of data frames. */
  ghost function Messages(ds: seq<Frame>): seq<Event>
    decreases |ds|
  {
    var n := GroupLen(ds);
    if n == 0 || !ds[n - 1].fin then []
    else [Data(ds[0].opcode, Joined(ds[..n]))] + Messages(ds[n..])
  }

  /** A message: a text or binary frame and continuations, within the limit, and
      valid UTF-8 if it is a complete text. */
  ghost predicate GroupOk(g: seq<Frame>, limit: nat) {
    && g != [] && (g[0].opcode == 1 || g[0].opcode == 2)
    && (forall k :: 0 < k < |g| ==> g[k].opcode == 0)
    && |Joined(g)| <= limit
    && (g[|g| - 1].fin && g[0].opcode == 1 ==> Utf8.WellFormed(Joined(g)))
  }

  ghost predicate DataLegal(ds: seq<Frame>, limit: nat)
    decreases |ds|
  {
    ds == [] || (GroupOk(ds[..GroupLen(ds)], limit) && DataLegal(ds[GroupLen(ds)..], limit))
  }

  /** Frames a server may send before Close. */
  ghost predicate Legal(fs: seq<Frame>, limit: nat) {
    && (forall k :: 0 <= k < |fs| ==> FrameOk(fs[k]) && fs[k].opcode != 8)
    && DataLegal(DataFrames(fs), limit)
  }

  /** Every ping is answered with its own payload. */
  ghost function Answer(f: Frame): seq<Out> {
    if f.opcode == 9 then [Out(10, f.payload)] else []
  }

  ghost function Answers(fs: seq<Frame>): seq<Out> {
    if fs == [] then [] else Answer(fs[0]) + Answers(fs[1..])
  }

  ghost function DataEvents(es: seq<Event>): seq<Event> {
    if es == [] then [] else (if es[0].Data? then [es[0]] else []) + DataEvents(es[1..])
  }

  // ----- the client's state, frame by frame -----

  datatype Run = Run(state: State, events: seq<Event>, replies: seq<Out>)

  ghost function Fold(s: State, fs: seq<Frame>, limit: nat): Option<Run>
    decreases |fs|
  {
    if fs == [] then Some(Run(s, [], [])) else
    var step := OnFrame(s, fs[0], limit);
    if step.Wrong? then None else
    var more := Fold(step.state, fs[1..], limit);
    if more.None? then None
    else Some(Run(more.value.state, step.events + more.value.events, step.replies + more.value.replies))
  }

  /** The state inside a message whose frames so far are `acc`. */
  ghost predicate Inside(s: State, acc: seq<Frame>) {
    && !s.closeSent && s.fragments == Joined(acc)
    && s.kind == (if acc == [] then None else Some(acc[0].opcode))
    && forall k :: 0 <= k < |acc| ==> !acc[k].fin
  }

  lemma {:induction false} GroupOpen(acc: seq<Frame>, f: Frame, rest: seq<Frame>)
    requires forall k :: 0 <= k < |acc| ==> !acc[k].fin
    ensures f.fin ==> GroupLen(acc + ([f] + rest)) == |acc| + 1
    ensures !f.fin ==> GroupLen(acc + ([f] + rest)) >= |acc| + 1
  {
    var ds := acc + ([f] + rest);
    if acc != [] {
      assert ds[1..] == acc[1..] + ([f] + rest);
      GroupOpen(acc[1..], f, rest);
    }
  }

  lemma {:induction false} JoinedGrows(ds: seq<Frame>, n: nat, m: nat)
    requires n <= m <= |ds|
    ensures |Joined(ds[..n])| <= |Joined(ds[..m])|
    decreases m
  {
    if n < m {
      JoinedGrows(ds, n, m - 1);
      assert ds[..m][..m - 1] == ds[..m - 1];
    }
  }

  /** A data frame of a legal stream is taken, and ends a message if it is final. */
  lemma DataTaken(s: State, acc: seq<Frame>, f: Frame, rest: seq<Frame>, limit: nat)
    requires Inside(s, acc) && FrameOk(f) && !Control(f.opcode) && DataLegal(acc + ([f] + rest), limit)
    ensures var step := OnFrame(s, f, limit);
            && step.Step? && step.replies == []
            && (if f.fin then
                  Inside(step.state, []) && step.events == [Data((acc + [f])[0].opcode, Joined(acc + [f]))]
                else Inside(step.state, acc + [f]) && step.events == [])
  {
    hide DataLegal, GroupOk, OnFrame, Inside, Joined, Utf8.WellFormed, GroupLen;
    var ds := acc + ([f] + rest);
    var n := GroupLen(ds);
    LegalGroup(ds, limit);
    InsideOpen(s, acc);
    GroupOpen(acc, f, rest);
    Front(acc, f, rest, n);
    GroupFront(ds[..n], acc, f, limit);
    TakenIs(s, acc, f, limit);
  }

  lemma InsideOpen(s: State, acc: seq<Frame>)
    requires Inside(s, acc)
    ensures forall k :: 0 <= k < |acc| ==> !acc[k].fin
  {
  }

  lemma Front(acc: seq<Frame>, f: Frame, rest: seq<Frame>, n: nat)
    requires |acc| < n <= |acc| + 1 + |rest|
    ensures acc + [f] <= (acc + ([f] + rest))[..n]
  {
  }

  /** What a legal group says of its first frames. */
  lemma GroupFront(g: seq<Frame>, acc: seq<Frame>, f: Frame, limit: nat)
    requires GroupOk(g, limit) && acc + [f] <= g && (f.fin ==> |g| == |acc| + 1)
    ensures |Joined(acc + [f])| <= limit
    ensures if acc == [] then f.opcode == 1 || f.opcode == 2 else f.opcode == 0
    ensures f.fin && (acc + [f])[0].opcode == 1 ==> Utf8.WellFormed(Joined(acc + [f]))
  {
    hide Utf8.WellFormed;
    var here := acc + [f];
    assert here == g[..|here|] && g[..|g|] == g;
    JoinedGrows(g, |here|, |g|);
    assert g[|acc|] == f && g[0] == here[0];
  }

  lemma TakenIs(s: State, acc: seq<Frame>, f: Frame, limit: nat)
    requires Inside(s, acc) && !Control(f.opcode) && |Joined(acc + [f])| <= limit
    requires if acc == [] then f.opcode == 1 || f.opcode == 2 else f.opcode == 0
    requires f.fin && (acc + [f])[0].opcode == 1 ==> Utf8.WellFormed(Joined(acc + [f]))
    ensures var step := OnFrame(s, f, limit);
            && step.Step? && step.replies == []
            && (if f.fin then
                  Inside(step.state, []) && step.events == [Data((acc + [f])[0].opcode, Joined(acc + [f]))]
                else Inside(step.state, acc + [f]) && step.events == [])
  {
    hide Utf8.WellFormed;
    var here := acc + [f];
    assert here[..|acc|] == acc;
  }

  lemma LegalGroup(ds: seq<Frame>, limit: nat)
    requires DataLegal(ds, limit) && ds != []
    ensures GroupOk(ds[..GroupLen(ds)], limit) && DataLegal(ds[GroupLen(ds)..], limit)
  {
  }

  /** Over a legal stream nothing is refused, the data events are the messages
      and the replies are the answers to the pings. */
  lemma {:induction false} FoldLegal(s: State, acc: seq<Frame>, fs: seq<Frame>, limit: nat)
    requires Inside(s, acc) && DataLegal(acc + DataFrames(fs), limit)
    requires forall k :: 0 <= k < |fs| ==> FrameOk(fs[k]) && fs[k].opcode != 8
    ensures var run := Fold(s, fs, limit);
            && run.Some?
            && DataEvents(run.value.events) == Messages(acc + DataFrames(fs))
            && run.value.replies == Answers(fs)
    decreases |fs|
  {
    hide OnFrame, DataLegal, Inside, Messages;
    if fs == [] {
      assert acc + [] == acc;
      Unfinished(s, acc);
    } else {
      var f, more := fs[0], fs[1..];
      var ds := DataFrames(more);
      var step := OnFrame(s, f, limit);
      if Control(f.opcode) {
        ControlTaken(s, f, limit);
        FoldLegal(s, acc, more, limit);
      } else {
        DataTaken(s, acc, f, ds, limit);
        if f.fin {
          Finished(s, acc, f, ds, limit);
          FoldLegal(step.state, [], more, limit);
        } else {
          assert acc + ([f] + ds) == (acc + [f]) + ds;
          FoldLegal(step.state, acc + [f], more, limit);
        }
      }
      EventsSplit(step.events, Fold(step.state, more, limit).value.events);
    }
  }

  lemma ControlTaken(s: State, f: Frame, limit: nat)
    requires FrameOk(f) && Control(f.opcode) && f.opcode != 8
    ensures var step := OnFrame(s, f, limit);
            && step.Step? && step.state == s && DataEvents(step.events) == []
            && step.replies == if f.opcode == 9 then [Out(10, f.payload)] else []
  {
  }

  lemma Unfinished(s: State, acc: seq<Frame>)
    requires Inside(s, acc)
    ensures Messages(acc) == []
  {
  }

  lemma Finished(s: State, acc: seq<Frame>, f: Frame, ds: seq<Frame>, limit: nat)
    requires f.fin && Inside(s, acc) && DataLegal(acc + ([f] + ds), limit)
    ensures DataLegal([] + ds, limit)
    ensures Messages(acc + ([f] + ds)) == [Data((acc + [f])[0].opcode, Joined(acc + [f]))] + Messages([] + ds)
  {
    hide DataLegal, GroupLen;
    var all := acc + ([f] + ds);
    GroupOpen(acc, f, ds);
    LegalGroup(all, limit);
    assert all[..|acc| + 1] == acc + [f] && all[|acc| + 1..] == ds && [] + ds == ds;
  }

  lemma {:induction false} EventsSplit(a: seq<Event>, b: seq<Event>)
    ensures DataEvents(a + b) == DataEvents(a) + DataEvents(b)
  {
    if a == [] {
      assert a + b == b;
    } else {
      var first := if a[0].Data? then [a[0]] else [];
      assert (a + b)[1..] == a[1..] + b && (a + b)[0] == a[0];
      EventsSplit(a[1..], b);
      assert (first + DataEvents(a[1..])) + DataEvents(b) == first + (DataEvents(a[1..]) + DataEvents(b));
    }
  }

  // ----- from frames to calls -----

  ghost function StreamBytes(fs: seq<Frame>): Bytes
    requires forall k :: 0 <= k < |fs| ==> FrameOk(fs[k])
  {
    if fs == [] then [] else FrameBytes(fs[0]) + StreamBytes(fs[1..])
  }

  lemma FrontFrame(f: Frame, rest: Bytes)
    requires FrameOk(f)
    ensures FrameAt(FrameBytes(f) + rest) == Some((f, rest))
  {
    hide HeadOf, FrameBytes;
    FrameRead(f, rest);
  }

  /** A call on a stream that holds an event returns the first one, having taken
      the frames up to it and answered the pings among them. */
  lemma {:induction false} FirstEvent(s: State, fs: seq<Frame>, after: Bytes, limit: nat) returns (n: nat, t: State)
    requires forall k :: 0 <= k < |fs| ==> FrameOk(fs[k])
    requires Fold(s, fs, limit).Some? && Fold(s, fs, limit).value.events != []
    ensures 0 < n <= |fs| && Fold(t, fs[n..], limit).Some?
    ensures var run, more := Fold(s, fs, limit).value, Fold(t, fs[n..], limit).value;
            && |run.replies| >= |more.replies|
            && run.events == [run.events[0]] + more.events
            && run.replies == run.replies[..|run.replies| - |more.replies|] + more.replies
            && Receives(s, StreamBytes(fs) + after, limit)
               == Received(run.events[0], t, StreamBytes(fs[n..]) + after,
                           run.replies[..|run.replies| - |more.replies|])
    decreases |fs|
  {
    hide OnFrame, FrameBytes, FrameAt;
    var f, rest := fs[0], fs[1..];
    var step := OnFrame(s, f, limit);
    var bytes := StreamBytes(rest) + after;
    FrontFrame(f, bytes);
    assert StreamBytes(fs) + after == FrameBytes(f) + bytes;
    var later := Fold(step.state, rest, limit).value;
    OneEvent(s, f, limit);
    if step.events != [] {
      n, t := 1, step.state;
      assert step.events == [step.events[0]];
      assert (step.replies + later.replies)[..|step.replies|] == step.replies;
    } else {
      assert [] + later.events == later.events;
      var m;
      m, t := FirstEvent(step.state, rest, after, limit);
      n := m + 1;
      assert rest[m..] == fs[n..];
      var more := Fold(t, fs[n..], limit).value;
      RepliesSplit(step.replies, later.replies, |later.replies| - |more.replies|);
    }
  }

  lemma RepliesSplit(a: seq<Out>, b: seq<Out>, n: nat)
    requires n <= |b|
    ensures (a + b)[..|a| + n] == a + b[..n] && a + b == (a + b[..n]) + b[n..]
    ensures b == b[..n] + b[n..]
  {
  }

  lemma OneEvent(s: State, f: Frame, limit: nat)
    ensures OnFrame(s, f, limit).Step? ==> |OnFrame(s, f, limit).events| <= 1
  {
  }

  // ----- a sequence of calls -----

  ghost predicate Plain(fs: seq<Frame>) {
    forall k :: 0 <= k < |fs| ==> FrameOk(fs[k]) && fs[k].opcode != 8
  }

  /** Without Close frames there is no Close event, and the replies are the answers. */
  lemma {:induction false} FoldPlain(s: State, fs: seq<Frame>, limit: nat)
    requires Plain(fs) && Fold(s, fs, limit).Some?
    ensures var run := Fold(s, fs, limit).value;
            run.replies == Answers(fs) && forall k :: 0 <= k < |run.events| ==> !run.events[k].Close?
    decreases |fs|
  {
    hide OnFrame;
    if fs != [] {
      PlainFrame(s, fs[0], limit);
      FoldPlain(OnFrame(s, fs[0], limit).state, fs[1..], limit);
    }
  }

  lemma PlainFrame(s: State, f: Frame, limit: nat)
    requires FrameOk(f) && f.opcode != 8 && OnFrame(s, f, limit).Step?
    ensures var step := OnFrame(s, f, limit);
            && step.replies == (if f.opcode == 9 then [Out(10, f.payload)] else [])
            && forall k :: 0 <= k < |step.events| ==> !step.events[k].Close?
  {
  }

  lemma {:induction false} AnswersSplit(a: seq<Frame>, b: seq<Frame>)
    ensures Answers(a + b) == Answers(a) + Answers(b)
  {
    hide Answer;
    if a == [] {
      assert a + b == b;
    } else {
      assert (a + b)[1..] == a[1..] + b && (a + b)[0] == a[0];
      AnswersSplit(a[1..], b);
      assert (Answer(a[0]) + Answers(a[1..])) + Answers(b) == Answer(a[0]) + (Answers(a[1..]) + Answers(b));
    }
  }

  /** The answers given during one call. */
  lemma AnswersBetween(fs: seq<Frame>, i: nat, n: nat, log: seq<Out>)
    requires i + n <= |fs|
    ensures var all, more := Answers(fs[i..]), Answers(fs[i..][n..]);
            && |more| <= |all|
            && (log + Answers(fs[..i])) + all[..|all| - |more|] == log + Answers(fs[..i + n])
  {
    var mid := fs[i..][..n];
    AnswersSplit(mid, fs[i..][n..]);
    assert fs[i..] == mid + fs[i..][n..];
    AnswersSplit(fs[..i], mid);
    assert fs[..i + n] == fs[..i] + mid;
    var a, m, r := Answers(fs[..i]), Answers(mid), Answers(fs[i..][n..]);
    assert (m + r)[..|m|] == m;
    assert (log + a) + m == log + (a + m);
  }

  /** What is left of a run after `i` frames and `events`. */
  ghost predicate Remains(s: State, fs: seq<Frame>, i: nat, events: seq<Event>, all: seq<Event>, limit: nat) {
    && i <= |fs| && Fold(s, fs[i..], limit).Some?
    && events + Fold(s, fs[i..], limit).value.events == all
  }

  /** However often `receive` is called on a legal stream, up to its last event, the
      calls return its events in order: the messages are its first messages, and in
      the end all of them; each ping passed is answered once, with its own payload. */
  method ReceiveAll(client: Client, ghost fs: seq<Frame>, ghost after: Bytes, calls: nat) returns (events: seq<Event>)
    requires client.Valid() && client.connected && !client.closeReceived && client.Now() == State([], None, false)
    requires Legal(fs, client.limit) && client.unread == StreamBytes(fs) + after
    requires Fold(client.Now(), fs, client.limit).Some? && calls <= |Fold(client.Now(), fs, client.limit).value.events|
    modifies client
    ensures client.Valid() && events == Fold(old(client.Now()), fs, client.limit).value.events[..calls]
    ensures DataEvents(events) <= Messages(DataFrames(fs))
    ensures calls == |Fold(old(client.Now()), fs, client.limit).value.events| ==>
              DataEvents(events) == Messages(DataFrames(fs))
    ensures exists n :: 0 <= n <= |fs| && client.log == old(client.log) + Answers(fs[..n])
                        && client.unread == StreamBytes(fs[n..]) + after
  {
    hide Fold, Receives, Messages, DataEvents, Answers, StreamBytes, Client.Valid;
    ghost var limit := client.limit;
    ghost var all := Fold(client.Now(), fs, limit).value.events;
    LegalRun(client.Now(), fs, limit);
    events := [];
    ghost var i := 0;
    assert fs[0..] == fs && [] + all == all;
    StartAnswers(fs, client.log);
    while |events| < calls
      invariant client.Valid() && client.connected && !client.closeReceived
      invariant Remains(client.Now(), fs, i, events, all, limit) && |events| <= calls <= |all|
      invariant client.unread == StreamBytes(fs[i..]) + after
      invariant client.log == old(client.log) + Answers(fs[..i])
      decreases calls - |events|
    {
      ghost var run := Fold(client.Now(), fs[i..], limit).value;
      ghost var n, t := FirstEvent(client.Now(), fs[i..], after, limit);
      FoldPlain(client.Now(), fs[i..], limit);
      FoldPlain(t, fs[i..][n..], limit);
      AnswersBetween(fs, i, n, old(client.log));
      var r := client.Receive();
      assert r == Got(run.events[0]);
      assert fs[i..][n..] == fs[i + n..];
      ghost var more := Fold(t, fs[i + n..], limit).value;
      assert events + ([run.events[0]] + more.events) == (events + [run.events[0]]) + more.events;
      events := events + [r.event];
      i := i + n;
    }
    assert all == events + all[calls..] && events == all[..calls];
    EventsSplit(events, all[calls..]);
    assert calls == |all| ==> events == all;
  }

  lemma StartAnswers(fs: seq<Frame>, log: seq<Out>)
    ensures log + Answers(fs[..0]) == log
  {
  }

  lemma LegalRun(s: State, fs: seq<Frame>, limit: nat)
    requires s == State([], None, false) && Legal(fs, limit)
    ensures Fold(s, fs, limit).Some?
    ensures DataEvents(Fold(s, fs, limit).value.events) == Messages(DataFrames(fs))
    ensures Fold(s, fs, limit).value.replies == Answers(fs)
  {
    hide Fold, DataLegal;
    assert [] + DataFrames(fs) == DataFrames(fs);
    FoldLegal(s, [], fs, limit);
  }

  // ----- nothing else is taken -----

  /** What the client takes for a frame is exactly what a server would send for it. */
  lemma FrameAtIff(b: Bytes, f: Frame, rest: Bytes)
    ensures FrameAt(b) == Some((f, rest)) <==> FrameOk(f) && b == FrameBytes(f) + rest
  {
    hide HeadOf, LengthForm;
    if FrameOk(f) && b == FrameBytes(f) + rest {
      FrontFrame(f, rest);
    }
    if FrameAt(b) == Some((f, rest)) {
      HeadBytes(b);
      var h := HeadOf(b).value;
      var head, payload := b[..h.width], b[h.width..h.width + h.size];
      assert b == (head + payload) + rest;
    }
  }

  /** The bytes of an accepted head. */
  lemma HeadBytes(b: Bytes)
    requires HeadOf(b).Some?
    ensures var h := HeadOf(b).value;
            && h.size < Half && b[..h.width] == [(if h.fin then 128 else 0) + h.opcode] + LengthForm(h.size)
  {
    hide LengthForm, LengthAt;
    var h := HeadOf(b).value;
    LengthCanonical(b[1..], h.size);
    assert b[1..][..h.width - 1] == LengthForm(h.size);
    assert b[..h.width] == [b[0]] + b[1..][..h.width - 1];
  }

  /** The frames of a message so far are fit to go on. */
  ghost predicate Open(acc: seq<Frame>, limit: nat) {
    acc != [] ==>
      && (acc[0].opcode == 1 || acc[0].opcode == 2)
      && (forall k :: 0 < k < |acc| ==> acc[k].opcode == 0)
      && |Joined(acc)| <= limit
  }

  lemma {:induction false} OpenLegal(s: State, acc: seq<Frame>, limit: nat)
    requires Inside(s, acc) && Open(acc, limit)
    ensures DataLegal(acc, limit)
  {
    if acc != [] {
      assert GroupLen(acc) == |acc| by {
        AllOpen(acc);
      }
      assert acc[..|acc|] == acc && acc[|acc|..] == [];
    }
  }

  lemma {:induction false} AllOpen(acc: seq<Frame>)
    requires forall k :: 0 <= k < |acc| ==> !acc[k].fin
    ensures GroupLen(acc) == |acc|
  {
    if acc != [] {
      AllOpen(acc[1..]);
    }
  }

  /** A data frame the client takes leaves the group open or ends a legal one. */
  lemma TakenOnlyLegal(s: State, acc: seq<Frame>, f: Frame, limit: nat)
    requires Inside(s, acc) && Open(acc, limit) && FrameOk(f) && !Control(f.opcode) && OnFrame(s, f, limit).Step?
    ensures var step := OnFrame(s, f, limit);
            if f.fin then Inside(step.state, []) && GroupOk(acc + [f], limit)
            else Inside(step.state, acc + [f]) && Open(acc + [f], limit)
  {
    hide Utf8.WellFormed, OnFrame;
    DataStep(s, f, limit);
    var here := acc + [f];
    assert here[..|acc|] == acc;
  }

  /** What the client checks of a data frame, and what it remembers. */
  lemma DataStep(s: State, f: Frame, limit: nat)
    requires FrameOk(f) && !Control(f.opcode) && OnFrame(s, f, limit).Step?
    ensures f.opcode == 0 <==> s.kind.Some?
    ensures var kind := if f.opcode == 0 then s.kind.value else f.opcode;
            var all := s.fragments + f.payload;
            && |all| <= limit && (f.fin && kind == 1 ==> Utf8.WellFormed(all))
            && OnFrame(s, f, limit).state
               == if f.fin then State([], None, s.closeSent) else State(all, Some(kind), s.closeSent)
  {
    hide Utf8.WellFormed;
  }

  /** Frames, without Close, that the client takes without an error are a legal stream. */
  lemma {:induction false} FoldOnlyLegal(s: State, acc: seq<Frame>, fs: seq<Frame>, limit: nat)
    requires Inside(s, acc) && Open(acc, limit) && Plain(fs) && Fold(s, fs, limit).Some?
    ensures DataLegal(acc + DataFrames(fs), limit)
    decreases |fs|
  {
    hide OnFrame, DataLegal, Inside, Open, GroupOk;
    if fs == [] {
      assert acc + [] == acc;
      OpenLegal(s, acc, limit);
    } else {
      var f, more := fs[0], fs[1..];
      var ds := DataFrames(more);
      var step := OnFrame(s, f, limit);
      if Control(f.opcode) {
        ControlTaken(s, f, limit);
        FoldOnlyLegal(s, acc, more, limit);
      } else {
        TakenOnlyLegal(s, acc, f, limit);
        if f.fin {
          NothingOpen(limit);
          FoldOnlyLegal(step.state, [], more, limit);
          ClosedLegal(s, acc, f, ds, limit);
        } else {
          FoldOnlyLegal(step.state, acc + [f], more, limit);
          assert acc + ([f] + ds) == (acc + [f]) + ds;
        }
      }
    }
  }

  lemma NothingOpen(limit: nat)
    ensures Open([], limit)
  {
  }

  lemma ClosedLegal(s: State, acc: seq<Frame>, f: Frame, ds: seq<Frame>, limit: nat)
    requires Inside(s, acc) && f.fin && GroupOk(acc + [f], limit) && DataLegal([] + ds, limit)
    ensures DataLegal(acc + ([f] + ds), limit)
  {
    hide GroupOk, GroupLen;
    var all := acc + ([f] + ds);
    GroupOpen(acc, f, ds);
    assert all[..|acc| + 1] == acc + [f] && all[|acc| + 1..] == ds && [] + ds == ds;
  }

  /** The client refuses nothing legal and takes nothing else. */
  lemma LegalIff(fs: seq<Frame>, limit: nat)
    requires Plain(fs)
    ensures Fold(State([], None, false), fs, limit).Some? <==> Legal(fs, limit)
  {
    hide Fold, DataLegal;
    var s := State([], None, false);
    assert [] + DataFrames(fs) == DataFrames(fs);
    if Fold(s, fs, limit).Some? {
      FoldOnlyLegal(s, [], fs, limit);
    }
    if Legal(fs, limit) {
      FoldLegal(s, [], fs, limit);
    }
  }

  // ----- the end of a connection -----

  /** Codes a Close frame may carry (section 7.4 of RFC 6455, and registered since). */
  const Codes: set<nat> := {1000, 1001, 1002, 1003, 1007, 1008, 1009, 1010, 1011, 1012, 1013, 1014}

  /** What a Close frame says. */
  ghost predicate Says(p: Bytes, e: Event) {
    || (p == [] && e == Close(None, []))
    || (e.Close? && e.code.Some? && (e.code.value in Codes || 3000 <= e.code.value < 5000)
        && Utf8.WellFormed(e.reason) && p == BigEndian(e.code.value, 2) + e.reason)
  }

  /** A Close frame is taken, as this event, exactly when it is empty or a code that may
      be sent, the most significant byte first, and text. */
  lemma CloseIs(s: State, f: Frame, e: Event, limit: nat)
    requires f.opcode == 8
    ensures OnFrame(s, f, limit).Step? && OnFrame(s, f, limit).events == [e] <==> Says(f.payload, e)
  {
    hide Utf8.WellFormed;
    var p := f.payload;
    if |p| >= 2 {
      BigEndianOf(p[..2]);
      assert p == p[..2] + p[2..];
    }
    if Says(p, e) && e.code.Some? {
      assert p[..2] == BigEndian(e.code.value, 2) && p[2..] == e.reason;
      TwoByteCode(e.code.value);
    }
  }

  lemma TwoByteCode(code: nat)
    requires code < 5000
    ensures Number(BigEndian(code, 2)) == code
  {
    assert Shifted(code, 1) < 256;
    NumberOf(code, 2);
  }

  ghost function Closings(replies: seq<Out>): seq<Out> {
    if replies == [] then [] else (if replies[0].opcode == 8 then [replies[0]] else []) + Closings(replies[1..])
  }

  /** The echo of the first Close. */
  ghost function Echo(fs: seq<Frame>): seq<Out> {
    if fs == [] then [] else if fs[0].opcode == 8 then [Out(8, fs[0].payload)] else Echo(fs[1..])
  }

  /** The first Close is echoed unless one was sent already, no other ever is, and
      no message is given out any more once one was sent. */
  lemma {:induction false} ClosesOnce(s: State, fs: seq<Frame>, limit: nat)
    requires Fold(s, fs, limit).Some?
    ensures var run := Fold(s, fs, limit).value;
            && Closings(run.replies) == (if s.closeSent then [] else Echo(fs))
            && run.state.closeSent == (s.closeSent || Echo(fs) != [])
            && (s.closeSent ==> DataEvents(run.events) == [])
    decreases |fs|
  {
    if fs != [] {
      var step := OnFrame(s, fs[0], limit);
      var more := Fold(step.state, fs[1..], limit).value;
      ClosesOnce(step.state, fs[1..], limit);
      OneClose(s, fs[0], limit);
      hide OnFrame;
      ClosingsFront(step.replies, more.replies);
      EventsFront(step.events, more.events);
    }
  }

  lemma OneClose(s: State, f: Frame, limit: nat)
    requires OnFrame(s, f, limit).Step?
    ensures var step := OnFrame(s, f, limit);
            && |step.replies| <= 1 && |step.events| <= 1
            && step.state.closeSent == (s.closeSent || f.opcode == 8)
            && Closings(step.replies) == (if f.opcode == 8 && !s.closeSent then [Out(8, f.payload)] else [])
            && (s.closeSent ==> DataEvents(step.events) == [])
  {
    hide Utf8.WellFormed, ClosePayload;
    var step := OnFrame(s, f, limit);
    if step.replies != [] {
      assert step.replies[1..] == [];
    }
    if step.events != [] {
      assert step.events[1..] == [];
    }
  }

  lemma ClosingsFront(front: seq<Out>, rest: seq<Out>)
    requires |front| <= 1
    ensures Closings(front + rest) == Closings(front) + Closings(rest)
  {
    if front == [] {
      assert front + rest == rest && [] + Closings(rest) == Closings(rest);
    } else {
      assert (front + rest)[1..] == rest && front[1..] == [];
    }
  }

  lemma EventsFront(front: seq<Event>, rest: seq<Event>)
    requires |front| <= 1
    ensures DataEvents(front + rest) == DataEvents(front) + DataEvents(rest)
  {
    if front == [] {
      assert front + rest == rest && [] + DataEvents(rest) == DataEvents(rest);
    } else {
      assert (front + rest)[1..] == rest && front[1..] == [];
    }
  }

  /** The frames there are: a continuation, text, binary; close, ping, pong, which are
      whole and short (section 5 of RFC 6455). */
  lemma FrameKinds(f: Frame)
    ensures FrameOk(f) <==>
            && f.opcode in {0x0, 0x1, 0x2, 0x8, 0x9, 0xA} && |f.payload| < 0x8000_0000_0000_0000
            && (f.opcode in {0x8, 0x9, 0xA} ==> f.fin && |f.payload| < 126)
  {
  }
}
