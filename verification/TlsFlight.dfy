/** The server's handshake flight, src/nxtrt/tls.cpp: reassembled from records, it
    is accepted exactly when it is the four authenticating messages of section
    4.4 of RFC 8446 and a record ends right behind the last of them. */
module TlsFlight {
  import opened Basics
  import opened TlsMessages

  datatype Record = Record(kind: byte, version: nat, payload: Bytes)

  datatype Plain = Plain(inner: byte, content: Bytes)

  /** What the model does not look into: opening the record with the sequence
      number given, reading and verifying the certificate, the signature over
      the transcript, and the transcript's MAC. */
  datatype Checks = Checks(
    open: (nat, Record) -> Option<Plain>,
    certificate: Bytes -> Option<Bytes>,
    signature: (Bytes, Bytes, Bytes) -> bool,
    finished: (Bytes, Bytes) -> bool)

  // ----- what an accepted flight is -----

  /** EncryptedExtensions, Certificate, CertificateVerify and Finished, once each
      and in order, the last two good for exactly the transcript before them. */
  ghost predicate Flight(start: Bytes, a: Bytes, b: Bytes, c: Bytes, d: Bytes, checks: Checks) {
    && Message(a, 8) && Message(b, 11) && Message(c, 15) && Message(d, 20)
    && checks.certificate(b).Some?
    && checks.signature(checks.certificate(b).value, start + a + b, c)
    && checks.finished(start + a + b + c, d)
  }

  ghost predicate Authentic(flat: Bytes, start: Bytes, checks: Checks) {
    exists a, b, c, d :: Flight(start, a, b, c, d, checks) && flat == a + b + c + d
  }

  /** A record that is skipped. */
  predicate Ccs(r: Record) {
    r.kind == 20 && r.version == 0x0303 && r.payload == [1]
  }

  function Sealed(rs: seq<Record>): nat {
    if rs == [] then 0 else Sealed(rs[..|rs| - 1]) + if rs[|rs| - 1].kind == 20 then 0 else 1
  }

  /** The handshake bytes of these records, unless one of them is refused. */
  ghost function Flat(rs: seq<Record>, checks: Checks): Option<Bytes> {
    if rs == [] then Some([]) else
    var front, r := rs[..|rs| - 1], rs[|rs| - 1];
    var before := Flat(front, checks);
    if before.None? then None
    else if r.kind == 20 then if Ccs(r) then before else None
    else if r.kind != 23 then None
    else
      var p := checks.open(Sealed(front), r);
      if p.Some? && p.value.inner == 22 then Some(before.value + p.value.content) else None
  }

  /** The first `k` records are an authentic flight. */
  ghost predicate Accepted(rs: seq<Record>, k: nat, start: Bytes, checks: Checks) {
    && k <= |rs| && Flat(rs[..k], checks).Some?
    && Authentic(Flat(rs[..k], checks).value, start, checks)
  }

  // ----- the message loop -----

  datatype State = State(transcript: Bytes, next: nat, key: Option<Bytes>, flight: Bytes)

  function Expected(next: nat): byte
    requires next < 4
  {
    [8, 11, 15, 20][next]
  }

  /** One complete message `m`, taken. */
  ghost function Take(s: State, m: Bytes, checks: Checks): Option<State>
    requires |m| >= 4
  {
    var next := s.(transcript := s.transcript + m, next := s.next + 1);
    if s.next >= 4 || m[0] != Expected(s.next) then None
    else if m[0] == 11 then
      var key := checks.certificate(m);
      if key.Some? then Some(next.(key := key)) else None
    else if m[0] == 15 then
      if s.key.Some? && checks.signature(s.key.value, s.transcript, m) then Some(next) else None
    else if m[0] == 20 then
      if checks.finished(s.transcript, m) then Some(next) else None
    else Some(next)
  }

  /** A message is complete at the front of the flight, or there is none yet. */
  ghost predicate Whole(f: Bytes) {
    |f| >= 4 && Size(f) <= Max && Size(f) <= |f|
  }

  ghost predicate TooLarge(f: Bytes) {
    |f| >= 4 && Size(f) > Max
  }

  /** All complete messages of the flight, taken. */
  ghost function Walk(s: State, checks: Checks): Option<State>
    decreases |s.flight|
  {
    var f := s.flight;
    if TooLarge(f) then None
    else if !Whole(f) then Some(s)
    else
      var t := Take(s, f[..Size(f)], checks);
      if t.None? then None else Walk(t.value.(flight := f[Size(f)..]), checks)
  }

  function Start(start: Bytes, flat: Bytes): State {
    State(start, 0, None, flat)
  }

  // ----- messages arrive piece by piece -----

  lemma FrontStays(f: Bytes, g: Bytes)
    requires |f| >= 4
    ensures Size(f + g) == Size(f)
    ensures TooLarge(f) <==> TooLarge(f + g)
    ensures Whole(f) ==> Whole(f + g) && (f + g)[..Size(f)] == f[..Size(f)] && (f + g)[Size(f)..] == f[Size(f)..] + g
  {
  }

  /** Taking what has arrived first changes nothing. */
  lemma {:induction false} WalkAppend(s: State, f: Bytes, g: Bytes, checks: Checks)
    ensures Walk(s.(flight := f + g), checks)
            == var t := Walk(s.(flight := f), checks);
               if t.None? then None else Walk(t.value.(flight := t.value.flight + g), checks)
    decreases |f|
  {
    hide Take;
    if |f| >= 4 {
      FrontStays(f, g);
      if Whole(f) {
        var t := Take(s, f[..Size(f)], checks);
        TakeIgnoresFlight(s, f + g, f, f[..Size(f)], checks);
        if t.Some? {
          WalkAppend(t.value, f[Size(f)..], g, checks);
        }
      }
    }
  }

  lemma TakeIgnoresFlight(s: State, f: Bytes, g: Bytes, m: Bytes, checks: Checks)
    requires |m| >= 4
    ensures var a, b, c := Take(s, m, checks), Take(s.(flight := f), m, checks), Take(s.(flight := g), m, checks);
            && (a.None? <==> b.None?) && (a.None? <==> c.None?)
            && (a.Some? ==> b == Some(a.value.(flight := f)) && c == Some(a.value.(flight := g)))
  {
  }

  /** A whole message in front is taken first. */
  lemma WalkOne(s: State, m: Bytes, rest: Bytes, kind: byte, checks: Checks)
    requires s.flight == m + rest && Message(m, kind) && Take(s, m, checks).Some?
    ensures Walk(s, checks) == Walk(Take(s, m, checks).value.(flight := rest), checks)
  {
    hide Take, Message;
    MessageIs(m, kind);
    FrontStays(m, rest);
    assert m[..|m|] == m && m[|m|..] + rest == rest;
  }

  // ----- the loop accepts the authentic flights -----

  lemma AuthenticWalks(start: Bytes, a: Bytes, b: Bytes, c: Bytes, d: Bytes, checks: Checks)
    requires Flight(start, a, b, c, d, checks)
    ensures var r := Walk(Start(start, a + b + c + d), checks);
            r.Some? && r.value.next == 4 && r.value.flight == [] && r.value.transcript == start + (a + b + c + d)
  {
    hide Walk;
    var s0 := Start(start, a + b + c + d);
    assert a + b + c + d == a + (b + c + d);
    WalkOne(s0, a, b + c + d, 8, checks);
    var s1 := Take(s0, a, checks).value.(flight := b + c + d);
    assert b + c + d == b + (c + d);
    WalkOne(s1, b, c + d, 11, checks);
    var s2 := Take(s1, b, checks).value.(flight := c + d);
    WalkOne(s2, c, d, 15, checks);
    var s3 := Take(s2, c, checks).value.(flight := d);
    assert d == d + [];
    WalkOne(s3, d, [], 20, checks);
    var s4 := Take(s3, d, checks).value.(flight := []);
    WalkEmpty(s4, checks);
    assert start + a + b + c + d == start + (a + b + c + d);
  }

  lemma WalkEmpty(s: State, checks: Checks)
    requires s.flight == []
    ensures Walk(s, checks) == Some(s)
  {
  }

  /** The loop went on, so a whole message stood in front. */
  lemma FirstMessage(s: State, r: State, checks: Checks) returns (m: Bytes, t: State)
    requires Walk(s, checks) == Some(r) && r.next > s.next
    ensures s.next < 4 && Message(m, Expected(s.next)) && m + t.flight == s.flight
    ensures Walk(t, checks) == Some(r)
    ensures t.next == s.next + 1 && t.transcript == s.transcript + m
    ensures s.next == 1 ==> t.key.Some? && t.key == checks.certificate(m)
    ensures s.next == 2 ==> s.key.Some? && checks.signature(s.key.value, s.transcript, m)
    ensures s.next == 3 ==> checks.finished(s.transcript, m)
  {
    var f := s.flight;
    m := f[..Size(f)];
    MessageIs(m, m[0]);
    t := Take(s, m, checks).value.(flight := f[Size(f)..]);
    assert f == m + f[Size(f)..];
  }

  lemma {:induction false} WalkCounts(s: State, checks: Checks)
    requires Walk(s, checks).Some?
    ensures Walk(s, checks).value.next >= s.next
    ensures s.next >= 4 ==> Walk(s, checks) == Some(s)
    decreases |s.flight|
  {
    if Whole(s.flight) {
      var m := s.flight[..Size(s.flight)];
      WalkCounts(Take(s, m, checks).value.(flight := s.flight[Size(s.flight)..]), checks);
    }
  }

  lemma WalkAuthentic(start: Bytes, flat: Bytes, checks: Checks)
    requires var r := Walk(Start(start, flat), checks); r.Some? && r.value.next == 4 && r.value.flight == []
    ensures Authentic(flat, start, checks)
  {
    var s0 := Start(start, flat);
    var r := Walk(s0, checks).value;
    hide Walk, Take, Message;
    var a, s1 := FirstMessage(s0, r, checks);
    var b, s2 := FirstMessage(s1, r, checks);
    var c, s3 := FirstMessage(s2, r, checks);
    var d, s4 := FirstMessage(s3, r, checks);
    WalkCounts(s4, checks);
    assert s4.flight == [];
    FourParts(flat, a, b, c, d, s1.flight, s2.flight, s3.flight);
    assert Flight(start, a, b, c, d, checks);
  }

  lemma FourParts(flat: Bytes, a: Bytes, b: Bytes, c: Bytes, d: Bytes, x: Bytes, y: Bytes, z: Bytes)
    requires flat == a + x && x == b + y && y == c + z && z == d + []
    ensures flat == a + b + c + d
  {
  }

  ghost predicate Complete(start: Bytes, flat: Bytes, checks: Checks) {
    var r := Walk(Start(start, flat), checks);
    r.Some? && r.value.next == 4 && r.value.flight == []
  }

  /** The message loop finishes exactly on the authentic flights, and has then
      added exactly the flight to the transcript. */
  lemma LoopIsFlight(start: Bytes, flat: Bytes, checks: Checks)
    ensures Authentic(flat, start, checks) <==> Complete(start, flat, checks)
    ensures Complete(start, flat, checks) ==> Walk(Start(start, flat), checks).value.transcript == start + flat
  {
    hide Walk, Flight;
    if Authentic(flat, start, checks) {
      var a, b, c, d :| Flight(start, a, b, c, d, checks) && flat == a + b + c + d;
      AuthenticWalks(start, a, b, c, d, checks);
    }
    if Complete(start, flat, checks) {
      WalkAuthentic(start, flat, checks);
      var a, b, c, d :| Flight(start, a, b, c, d, checks) && flat == a + b + c + d;
      AuthenticWalks(start, a, b, c, d, checks);
    }
  }

  // ----- bytes behind Finished -----

  /** Once Finished is taken and bytes are left, no further bytes help. */
  lemma Stuck(s: State, g: Bytes, checks: Checks)
    requires s.next >= 4 && s.flight != []
    ensures var r := Walk(s.(flight := s.flight + g), checks); r.Some? ==> r.value.flight != []
  {
    var t := s.(flight := s.flight + g);
    if Walk(t, checks).Some? {
      WalkCounts(t, checks);
    }
  }

  /** No authentic flight continues another. */
  lemma OneFlight(a: Bytes, b: Bytes, start: Bytes, checks: Checks)
    requires a <= b && Authentic(a, start, checks) && Authentic(b, start, checks)
    ensures a == b
  {
    hide Walk, Authentic;
    LoopIsFlight(start, a, checks);
    LoopIsFlight(start, b, checks);
    var g := b[|a|..];
    assert b == a + g;
    var s := Walk(Start(start, a), checks).value;
    WalkAppend(Start(start, a), a, g, checks);
    assert s.flight + g == g;
    Beyond(s.(flight := g), checks);
  }

  lemma Beyond(s: State, checks: Checks)
    requires s.next >= 4 && Walk(s, checks).Some?
    ensures Walk(s, checks).value.flight == s.flight
  {
    WalkCounts(s, checks);
  }

  // ----- the client -----

  /** The message loop: takes the complete messages off the flight. */
  method TakeMessages(s: State, checks: Checks) returns (r: Option<State>)
    requires |s.flight| <= Max
    ensures r == Walk(s, checks)
    ensures r.Some? ==> |r.value.flight| <= |s.flight|
  {
    hide Walk, Size;
    var flight, consumed: nat := s.flight, 0;
    var transcript, next, key := s.transcript, s.next, s.key;
    ghost var goal := Walk(s, checks);
    assert flight[0..] == flight;
    while |flight| - consumed >= 4
      invariant consumed <= |flight|
      invariant goal == Walk(State(transcript, next, key, flight[consumed..]), checks)
    {
      var remaining := flight[consumed..];
      ghost var here := State(transcript, next, key, remaining);
      WalkStep(here, checks);
      var size := Size(remaining);
      if size > Max {
        return None;
      }
      if |remaining| < size {
        break;
      }
      var message := remaining[..size];
      assert message[0] == remaining[0];
      var kind := message[0];
      if next >= 4 || kind != Expected(next) {
        return None;
      }
      if kind == 11 {
        key := checks.certificate(message);
        if key.None? {
          return None;
        }
      } else if kind == 15 {
        if key.None? || !checks.signature(key.value, transcript, message) {
          return None;
        }
      } else if kind == 20 {
        if !checks.finished(transcript, message) {
          return None;
        }
      }
      transcript := transcript + message;
      assert remaining[size..] == flight[consumed + size..];
      consumed := consumed + size;
      next := next + 1;
    }
    WalkStep(State(transcript, next, key, flight[consumed..]), checks);
    r := Some(State(transcript, next, key, flight[consumed..]));
  }

  lemma WalkStep(s: State, checks: Checks)
    ensures Walk(s, checks) ==
            if TooLarge(s.flight) then None
            else if !Whole(s.flight) then Some(s)
            else
              var t := Take(s, s.flight[..Size(s.flight)], checks);
              if t.None? then None else Walk(t.value.(flight := s.flight[Size(s.flight)..]), checks)
  {
  }

  class Session {
    var handshaken: bool

    constructor ()
      ensures !handshaken
    {
      handshaken := false;
    }

    /** The flight loop of `handshake`, on the records that arrive. The transcript
        starts with both hellos. Whatever the records are, success means an
        authentic flight; and for flights within the bound, the other way round. */
    method Handshake(records: seq<Record>, start: Bytes, checks: Checks) returns (ok: bool, transcript: Bytes)
      modifies this
      ensures handshaken == ok
      ensures ok ==> exists k: nat :: Accepted(records, k, start, checks)
                                 && transcript == start + Flat(records[..k], checks).value
      ensures Bounded(records, checks) ==> (ok <==> exists k: nat :: Accepted(records, k, start, checks))
    {
      hide Walk, Flat, Accepted;
      handshaken := false;
      var s := Start(start, []);
      var i, sequence := 0, 0;
      ghost var seen: Bytes := [];
      NothingYet(records, start, checks);
      while s.next < 4
        invariant i <= |records| && sequence == Sealed(records[..i])
        invariant Flat(records[..i], checks) == Some(seen)
        invariant Walk(Start(start, seen), checks) == Some(s)
        invariant |s.flight| <= Max && !handshaken
        invariant s.next < 4 ==> forall k | 0 <= k <= i :: !Accepted(records, k, start, checks)
        invariant s.next >= 4 ==> s.flight == []
        decreases |records| - i
      {
        if i == |records| {
          NoneAfter(records, i, start, checks);
          return false, s.transcript;
        }
        var r := records[i];
        FlatStep(records, i, checks);
        i := i + 1;
        if r.kind == 20 {
          if !(r.version == 0x0303 && r.payload == [1]) {
            Refused(records, i, start, checks);
            return false, s.transcript;
          }
          NotYet(records, i, start, checks, seen, s);
          continue;
        }
        if r.kind != 23 {
          Refused(records, i, start, checks);
          return false, s.transcript;
        }
        var plain := checks.open(sequence, r);
        sequence := sequence + 1;
        if plain.None? || plain.value.inner != 22 {
          Refused(records, i, start, checks);
          return false, s.transcript;
        }
        var content := plain.value.content;
        if |content| > Max - |s.flight| {
          OverBound(records, i, checks, start, seen, s, content);
          return false, s.transcript;
        }
        ghost var before := s;
        WalkAppend(Start(start, seen), seen, content, checks);
        seen := seen + content;
        s := s.(flight := s.flight + content);
        var t := TakeMessages(s, checks);
        if t.None? {
          Dead(records, i, start, checks, seen);
          return false, s.transcript;
        }
        s := t.value;
        if s.next >= 4 && s.flight != [] {
          Overrun(records, i, start, checks, seen, s);
          return false, s.transcript;
        }
        if s.next < 4 {
          NotYet(records, i, start, checks, seen, s);
        }
      }
      Done(records, i, start, checks, seen, s);
      handshaken := true;
      ok, transcript := true, s.transcript;
    }
  }

  /** No more than the bound of handshake bytes comes, before a bad record. */
  ghost predicate Bounded(records: seq<Record>, checks: Checks) {
    forall k | 0 <= k <= |records| :: Flat(records[..k], checks).Some? ==> |Flat(records[..k], checks).value| <= Max
  }

  lemma NothingYet(records: seq<Record>, start: Bytes, checks: Checks)
    ensures Flat(records[..0], checks) == Some([]) && Sealed(records[..0]) == 0
    ensures Walk(Start(start, []), checks) == Some(Start(start, []))
    ensures !Accepted(records, 0, start, checks)
  {
    LoopIsFlight(start, [], checks);
  }

  lemma FlatStep(records: seq<Record>, i: nat, checks: Checks)
    requires i < |records|
    ensures Sealed(records[..i + 1]) == Sealed(records[..i]) + if records[i].kind == 20 then 0 else 1
    ensures var before, r := Flat(records[..i], checks), records[i];
            Flat(records[..i + 1], checks) ==
            if before.None? then None
            else if r.kind == 20 then if Ccs(r) then before else None
            else if r.kind != 23 then None
            else
              var p := checks.open(Sealed(records[..i]), r);
              if p.Some? && p.value.inner == 22 then Some(before.value + p.value.content) else None
  {
    assert records[..i + 1][..i] == records[..i];
  }

  /** What comes later only adds bytes. */
  lemma {:induction false} FlatGrows(records: seq<Record>, i: nat, k: nat, checks: Checks)
    requires i <= k <= |records| && Flat(records[..k], checks).Some?
    ensures Flat(records[..i], checks).Some? && Flat(records[..i], checks).value <= Flat(records[..k], checks).value
    decreases k - i
  {
    if i < k {
      FlatStep(records, k - 1, checks);
      FlatGrows(records, i, k - 1, checks);
    }
  }

  lemma NoneAfter(records: seq<Record>, i: nat, start: Bytes, checks: Checks)
    requires i == |records| && forall k | 0 <= k <= i :: !Accepted(records, k, start, checks)
    ensures forall k: nat :: !Accepted(records, k, start, checks)
  {
  }

  lemma NotYet(records: seq<Record>, i: nat, start: Bytes, checks: Checks, seen: Bytes, s: State)
    requires i <= |records| && Flat(records[..i], checks) == Some(seen) && Walk(Start(start, seen), checks) == Some(s)
    requires s.next < 4
    ensures !Accepted(records, i, start, checks)
  {
    hide Walk, Flat;
    LoopIsFlight(start, seen, checks);
  }

  lemma Done(records: seq<Record>, i: nat, start: Bytes, checks: Checks, seen: Bytes, s: State)
    requires i <= |records| && Flat(records[..i], checks) == Some(seen) && Walk(Start(start, seen), checks) == Some(s)
    requires s.next >= 4 && s.flight == []
    ensures Accepted(records, i, start, checks) && s.transcript == start + seen
  {
    hide Walk, Flat;
    NextAtMost(Start(start, seen), checks);
    LoopIsFlight(start, seen, checks);
  }

  lemma {:induction false} NextAtMost(s: State, checks: Checks)
    requires Walk(s, checks).Some? && s.next <= 4
    ensures Walk(s, checks).value.next <= 4
    decreases |s.flight|
  {
    if Whole(s.flight) {
      var m := s.flight[..Size(s.flight)];
      NextAtMost(Take(s, m, checks).value.(flight := s.flight[Size(s.flight)..]), checks);
    }
  }

  lemma Refused(records: seq<Record>, i: nat, start: Bytes, checks: Checks)
    requires i <= |records| && Flat(records[..i], checks).None?
    requires forall k | 0 <= k < i :: !Accepted(records, k, start, checks)
    ensures forall k: nat :: !Accepted(records, k, start, checks)
  {
    hide Flat, Authentic;
    forall k: nat | i <= k <= |records|
      ensures !Accepted(records, k, start, checks)
    {
      if Flat(records[..k], checks).Some? {
        FlatGrows(records, i, k, checks);
      }
    }
  }

  /** The loop failed on these bytes, so no longer ones are a flight. */
  lemma Dead(records: seq<Record>, i: nat, start: Bytes, checks: Checks, seen: Bytes)
    requires i <= |records| && Flat(records[..i], checks) == Some(seen) && Walk(Start(start, seen), checks).None?
    requires forall k | 0 <= k < i :: !Accepted(records, k, start, checks)
    ensures forall k: nat :: !Accepted(records, k, start, checks)
  {
    hide Flat, Authentic, Walk;
    forall k: nat | i <= k <= |records|
      ensures !Accepted(records, k, start, checks)
    {
      if Flat(records[..k], checks).Some? {
        FlatGrows(records, i, k, checks);
        var flat := Flat(records[..k], checks).value;
        var g := flat[|seen|..];
        assert flat == seen + g;
        WalkAppend(Start(start, seen), seen, g, checks);
        LoopIsFlight(start, flat, checks);
      }
    }
  }

  lemma Overrun(records: seq<Record>, i: nat, start: Bytes, checks: Checks, seen: Bytes, s: State)
    requires i <= |records| && Flat(records[..i], checks) == Some(seen) && Walk(Start(start, seen), checks) == Some(s)
    requires s.next >= 4 && s.flight != []
    requires forall k | 0 <= k < i :: !Accepted(records, k, start, checks)
    ensures forall k: nat :: !Accepted(records, k, start, checks)
  {
    hide Flat, Authentic, Walk;
    forall k: nat | i <= k <= |records|
      ensures !Accepted(records, k, start, checks)
    {
      if Flat(records[..k], checks).Some? {
        FlatGrows(records, i, k, checks);
        var flat := Flat(records[..k], checks).value;
        var g := flat[|seen|..];
        assert flat == seen + g;
        WalkAppend(Start(start, seen), seen, g, checks);
        Stuck(s, g, checks);
        LoopIsFlight(start, flat, checks);
      }
    }
  }

  /** The bound only bites on flights that exceed it. */
  lemma OverBound(records: seq<Record>, i: nat, checks: Checks, start: Bytes, seen: Bytes, s: State, content: Bytes)
    requires i <= |records| && Flat(records[..i], checks) == Some(seen + content)
    requires Walk(Start(start, seen), checks) == Some(s) && |content| > Max - |s.flight|
    ensures !Bounded(records, checks)
  {
    hide Walk, Flat;
    WalkShrinks(Start(start, seen), checks);
    assert |seen + content| > Max;
  }

  lemma {:induction false} WalkShrinks(s: State, checks: Checks)
    requires Walk(s, checks).Some?
    ensures |Walk(s, checks).value.flight| <= |s.flight|
    decreases |s.flight|
  {
    if Whole(s.flight) {
      var m := s.flight[..Size(s.flight)];
      WalkShrinks(Take(s, m, checks).value.(flight := s.flight[Size(s.flight)..]), checks);
    }
  }

  // ----- how the flight is cut into records -----

  ghost predicate Succeeds(records: seq<Record>, start: Bytes, checks: Checks) {
    exists k: nat :: Accepted(records, k, start, checks)
  }

  /** If no flight ends inside these bytes, the decision depends on the bytes
      alone: neither on where the records cut them nor on the records skipped. */
  lemma CutIndependent(records: seq<Record>, flat: Bytes, start: Bytes, checks: Checks)
    requires Flat(records, checks) == Some(flat)
    requires forall n | 0 <= n < |flat| :: !Authentic(flat[..n], start, checks)
    ensures Succeeds(records, start, checks) <==> Authentic(flat, start, checks)
  {
    hide Flat, Authentic;
    assert records[..|records|] == records;
    if Authentic(flat, start, checks) {
      assert Accepted(records, |records|, start, checks);
    }
    if k: nat :| Accepted(records, k, start, checks) {
      FlatGrows(records, k, |records|, checks);
      var f := Flat(records[..k], checks).value;
      assert f == flat[..|f|];
      assert |f| == |flat| ==> f == flat;
    }
  }

  /** If a flight ends inside them, it is accepted exactly when a record ends there. */
  lemma BoundaryDecides(records: seq<Record>, flight: Bytes, more: Bytes, start: Bytes, checks: Checks)
    requires Flat(records, checks) == Some(flight + more) && Authentic(flight, start, checks)
    ensures Succeeds(records, start, checks)
            <==> exists k: nat :: k <= |records| && Flat(records[..k], checks) == Some(flight)
  {
    hide Flat, Authentic;
    if k: nat :| k <= |records| && Flat(records[..k], checks) == Some(flight) {
      assert Accepted(records, k, start, checks);
    }
    if k: nat :| Accepted(records, k, start, checks) {
      assert records[..|records|] == records;
      FlatGrows(records, k, |records|, checks);
      var f := Flat(records[..k], checks).value;
      var all := flight + more;
      assert f == all[..|f|] && flight == all[..|flight|];
      if |f| <= |flight| {
        assert f <= flight;
        OneFlight(f, flight, start, checks);
      } else {
        assert flight <= f;
        OneFlight(flight, f, start, checks);
      }
    }
  }

  /** A sender that can seal any handshake bytes under any sequence number. */
  ghost predicate Seals(seal: (nat, Bytes) -> Record, checks: Checks) {
    forall n, c :: seal(n, c).kind == 23 && checks.open(n, seal(n, c)) == Some(Plain(22, c))
  }

  /** For every authentic flight, however its first part `front` was sent, with the
      rest `last` and any bytes behind it: sent in two records it is accepted, and
      the same bytes in one record are refused. */
  lemma CutMatters(sent: seq<Record>, front: Bytes, last: Bytes, more: Bytes, start: Bytes, checks: Checks,
                   seal: (nat, Bytes) -> Record)
    returns (apart: seq<Record>, together: seq<Record>)
    requires Seals(seal, checks) && Flat(sent, checks) == Some(front) && last != [] && more != []
    requires Authentic(front + last, start, checks)
    ensures Flat(apart, checks) == Some((front + last) + more) && Flat(together, checks) == Some((front + last) + more)
    ensures Succeeds(apart, start, checks) && !Succeeds(together, start, checks)
  {
    hide Flat, Authentic, Sealed;
    var n := Sealed(sent);
    var one := sent + [seal(n, last)];
    FlatMore(sent, front, last, checks, seal);
    FlatMore(one, front + last, more, checks, seal);
    apart := one + [seal(n + 1, more)];
    assert apart[..|one|] == one;
    assert Accepted(apart, |one|, start, checks);
    together := sent + [seal(n, last + more)];
    FlatMore(sent, front, last + more, checks, seal);
    assert front + (last + more) == (front + last) + more;
    BoundaryDecides(together, front + last, more, start, checks);
    forall k: nat | k <= |together|
      ensures Flat(together[..k], checks) != Some(front + last)
    {
      assert together[..|sent|] == sent && together[..|together|] == together;
      if k <= |sent| && Flat(together[..k], checks) == Some(front + last) {
        FlatGrows(together, k, |sent|, checks);
      }
    }
  }

  /** One such pair of cuts written out: four short messages, one byte behind them,
      records whose payload is their plaintext, and checks that all pass. */
  lemma CutWitness() returns (apart: seq<Record>, together: seq<Record>, checks: Checks)
    ensures Flat(apart, checks) == Flat(together, checks)
    ensures Succeeds(apart, [], checks) && !Succeeds(together, [], checks)
  {
    var a, b, c, d := Handshake(8, [0, 0]), Handshake(11, []), Handshake(15, [1]), Handshake(20, []);
    checks := Checks((n: nat, r: Record) => Some(Plain(22, r.payload)), _ => Some([]), (_, _, _) => true, (_, _) => true);
    assert Message(a, 8) && Message(b, 11) && Message(c, 15) && Message(d, 20);
    assert Flight([], a, b, c, d, checks);
    var flight := a + b + c + d;
    assert Authentic(flight, [], checks) && [] + flight == flight;
    apart, together := CutMatters([], [], flight, [0], [], checks, (n: nat, p: Bytes) => Record(23, 0x0303, p));
  }

  lemma FlatMore(rs: seq<Record>, front: Bytes, c: Bytes, checks: Checks, seal: (nat, Bytes) -> Record)
    requires Seals(seal, checks) && Flat(rs, checks) == Some(front)
    ensures var more := rs + [seal(Sealed(rs), c)];
            Flat(more, checks) == Some(front + c) && Sealed(more) == Sealed(rs) + 1
  {
    var more := rs + [seal(Sealed(rs), c)];
    assert more[..|rs|] == rs && more[..|rs| + 1] == more;
    FlatStep(more, |rs|, checks);
  }
}
