/** `write_all` and the KeyUpdate handling of `next_event`, src/nxtrt/tls.cpp, and
    a peer that reads what they write. */
module TlsSession {
  import opened Basics
  import opened TlsMessages
  import opened TlsRecords

  // ----- the peer -----

  /** The peer's read keys, and the application bytes it has got. */
  datatype Peer = Peer(secret: Bytes, sequence: nat, received: Bytes)

  /** The message a KeyUpdate is, asking for one in return or not. */
  function KeyUpdate(request: bool): Bytes {
    [24, 0, 0, 1, if request then 1 else 0]
  }

  /** The peer takes what a record held: data, or a change of keys. */
  ghost function Takes(suite: Suite, p: Peer, plain: Plain): Option<Peer> {
    var next := (p.sequence + 1) % Wrap;
    if plain.inner == 23 then Some(Peer(p.secret, next, p.received + plain.content))
    else if plain.inner == 22 && (plain.content == KeyUpdate(false) || plain.content == KeyUpdate(true)) then
      Some(Peer(suite.next(p.secret), 0, p.received))
    else None
  }

  /** The peer opens one record and takes what it held. */
  ghost function ReadsOne(suite: Suite, p: Peer, record: Bytes): Option<Peer>
    requires Lawful(suite) && |record| >= 5
  {
    var version: int := record[1];
    var plain := Opened(suite, p.secret, p.sequence, record[0], version * 256 + record[2], record[5..]);
    if plain.None? then None else Takes(suite, p, plain.value)
  }

  /** A whole record stands in front. */
  ghost predicate Framed(wire: Bytes) {
    |wire| >= 5 && |wire| >= 5 + LengthField(wire)
  }

  /** The peer reads a whole stream, record after record by their length fields. */
  ghost function Reads(suite: Suite, p: Peer, wire: Bytes): Option<Peer>
    requires Lawful(suite)
    decreases |wire|
  {
    if wire == [] then Some(p)
    else if !Framed(wire) then None
    else
      var n := 5 + LengthField(wire);
      var q := ReadsOne(suite, p, wire[..n]);
      if q.None? then None else Reads(suite, q.value, wire[n..])
  }

  lemma FramedMore(wire: Bytes, more: Bytes)
    requires Framed(wire)
    ensures Framed(wire + more) && LengthField(wire + more) == LengthField(wire)
    ensures var n := 5 + LengthField(wire);
            (wire + more)[..n] == wire[..n] && (wire + more)[n..] == wire[n..] + more
  {
  }

  /** One more record at the end. */
  lemma {:induction false} ReadsOneMore(suite: Suite, p: Peer, wire: Bytes, plain: Plain)
    requires Lawful(suite) && plain.inner != 0 && |plain.content| <= 16384 && Reads(suite, p, wire).Some?
    ensures var q := Reads(suite, p, wire).value;
            var r := SealedRecord(suite, q.secret, q.sequence, plain);
            Reads(suite, p, wire + r) == Takes(suite, q, plain)
    decreases |wire|
  {
    hide Opened, SealedRecord, Takes, ReadsOne, LengthField;
    var q := Reads(suite, p, wire).value;
    var r := SealedRecord(suite, q.secret, q.sequence, plain);
    if wire == [] {
      assert wire + r == r;
      ReadsRecord(suite, p, plain);
    } else {
      var n := 5 + LengthField(wire);
      FramedMore(wire, r);
      ReadsOneMore(suite, ReadsOne(suite, p, wire[..n]).value, wire[n..], plain);
    }
  }

  lemma ReadsRecord(suite: Suite, p: Peer, plain: Plain)
    requires Lawful(suite) && plain.inner != 0 && |plain.content| <= 16384
    ensures Reads(suite, p, SealedRecord(suite, p.secret, p.sequence, plain)) == Takes(suite, p, plain)
  {
    hide Opened, Takes;
    var r := SealedRecord(suite, p.secret, p.sequence, plain);
    LengthExact(suite, p.secret, p.sequence, plain);
    OpenSealed(suite, p.secret, p.sequence, plain);
    assert r[1] == 3 && r[2] == 3;
    assert r[..|r|] == r;
    assert r[|r|..] == [];
  }

  // ----- the client's post-handshake messages -----

  /** What is left of the buffer, and the updates asked for in it. */
  datatype Scanned = Scanned(rest: Bytes, updates: seq<bool>)

  /** All complete messages read: a KeyUpdate must be the last thing there. */
  ghost function Scan(buffer: Bytes): (r: Option<Scanned>)
    ensures r.Some? ==> |r.value.updates| <= 1 && |r.value.rest| <= |buffer|
    decreases |buffer|
  {
    if |buffer| < 4 then Some(Scanned(buffer, []))
    else if Size(buffer) > Max then None
    else if |buffer| < Size(buffer) then Some(Scanned(buffer, []))
    else if buffer[0] != 24 then Scan(buffer[Size(buffer)..])
    else if buffer == KeyUpdate(false) then Some(Scanned([], [false]))
    else if buffer == KeyUpdate(true) then Some(Scanned([], [true]))
    else None
  }

  // ----- the records of an epoch -----

  /** One record as it was sealed: the nonce used and what it holds. */
  datatype Sent = Sent(nonce: Bytes, plain: Plain)

  /** The records sealed under one traffic secret, in order. */
  datatype Epoch = Epoch(secret: Bytes, sent: seq<Sent>)

  ghost function EpochBytes(suite: Suite, e: Epoch): Bytes
    decreases |e.sent|
  {
    if e.sent == [] then []
    else
      var last := e.sent[|e.sent| - 1];
      EpochBytes(suite, e.(sent := e.sent[..|e.sent| - 1])) + RecordWith(suite, e.secret, last.nonce, last.plain)
  }

  /** The bytes of all epochs' records. */
  ghost function EpochsBytes(suite: Suite, es: seq<Epoch>): Bytes {
    if es == [] then [] else EpochsBytes(suite, es[..|es| - 1]) + EpochBytes(suite, es[|es| - 1])
  }

  /** Record `k` of an epoch has the nonce of counter `k`, modulo two to the 64, and
      holds no more than a record may (section 5.1 of RFC 8446). */
  ghost predicate Counted(suite: Suite, e: Epoch) {
    && |suite.iv(e.secret)| == 12
    && (forall k :: 0 <= k < |e.sent| ==> e.sent[k].nonce == NonceOf(suite.iv(e.secret), k % Wrap))
    && (forall k :: 0 <= k < |e.sent| ==> |e.sent[k].plain.content| <= 0x4000)
  }

  /** The wire is these epochs' records: each epoch counts from zero, and each
      begins with the secret that follows the one before. */
  ghost predicate Logged(suite: Suite, first: Bytes, es: seq<Epoch>, wire: Bytes) {
    && es != [] && es[0].secret == first
    && (forall e :: 0 <= e < |es| ==> Counted(suite, es[e]))
    && (forall e :: 0 < e < |es| ==> es[e].secret == suite.next(es[e - 1].secret))
    && wire == EpochsBytes(suite, es)
  }

  /** The last epoch is the one being written. */
  ghost predicate Current(es: seq<Epoch>, secret: Bytes, sequence: nat) {
    es != [] && es[|es| - 1].secret == secret && sequence == |es[|es| - 1].sent| % Wrap
  }

  /** Two records of an epoch have one nonce exactly when they are a multiple of two
      to the 64 records apart: never before the counter wraps, and then they do. */
  lemma NonceReuse(suite: Suite, e: Epoch, i: nat, j: nat)
    requires Counted(suite, e) && i < |e.sent| && j < |e.sent|
    ensures e.sent[i].nonce == e.sent[j].nonce <==> i % Wrap == j % Wrap
  {
    hide NonceOf;
    if e.sent[i].nonce == e.sent[j].nonce {
      NonceInjective(suite.iv(e.secret), i % Wrap, j % Wrap);
    }
  }

  lemma LogStart(suite: Suite, first: Bytes)
    requires Lawful(suite)
    ensures Logged(suite, first, [Epoch(first, [])], []) && Current([Epoch(first, [])], first, 0)
  {
  }

  /** The log with one more record in its last epoch. */
  ghost function LogWith(es: seq<Epoch>, sent: Sent): seq<Epoch>
    requires es != []
  {
    var n := |es| - 1;
    es[..n] + [es[n].(sent := es[n].sent + [sent])]
  }

  lemma LogSend(suite: Suite, first: Bytes, es: seq<Epoch>, wire: Bytes, secret: Bytes, sequence: nat, sent: Sent)
    requires Logged(suite, first, es, wire) && Current(es, secret, sequence)
    requires |suite.iv(secret)| == 12 && sent.nonce == NonceOf(suite.iv(secret), sequence)
    requires |sent.plain.content| <= 0x4000
    ensures Logged(suite, first, LogWith(es, sent), wire + RecordWith(suite, secret, sent.nonce, sent.plain))
    ensures Current(LogWith(es, sent), secret, (sequence + 1) % Wrap)
  {
    hide NonceOf, RecordWith, Counted, EpochBytes;
    var n := |es| - 1;
    var log := LogWith(es, sent);
    EpochSend(suite, es[n], sent);
    assert log[..n] == es[..n];
    assert forall e :: 0 <= e < n ==> log[e] == es[e];
    var front, last, record := EpochsBytes(suite, es[..n]), EpochBytes(suite, es[n]), RecordWith(suite, secret, sent.nonce, sent.plain);
    assert (front + last) + record == front + (last + record);
  }

  lemma EpochSend(suite: Suite, e: Epoch, sent: Sent)
    requires Counted(suite, e) && |suite.iv(e.secret)| == 12
    requires sent.nonce == NonceOf(suite.iv(e.secret), |e.sent| % Wrap) && |sent.plain.content| <= 0x4000
    ensures var more := e.(sent := e.sent + [sent]);
            && Counted(suite, more)
            && EpochBytes(suite, more) == EpochBytes(suite, e) + RecordWith(suite, e.secret, sent.nonce, sent.plain)
  {
    hide NonceOf, RecordWith;
    assert (e.sent + [sent])[..|e.sent|] == e.sent;
  }

  lemma LogTurn(suite: Suite, first: Bytes, es: seq<Epoch>, wire: Bytes, secret: Bytes, sequence: nat)
    requires Lawful(suite) && Logged(suite, first, es, wire) && Current(es, secret, sequence)
    ensures var log := es + [Epoch(suite.next(secret), [])];
            Logged(suite, first, log, wire) && Current(log, suite.next(secret), 0)
  {
    var log := es + [Epoch(suite.next(secret), [])];
    assert log[..|es|] == es;
    assert EpochBytes(suite, log[|es|]) == [];
    assert EpochsBytes(suite, es) + [] == EpochsBytes(suite, es);
  }

  class Session {
    const suite: Suite
    const client: TrafficKeys
    const server: TrafficKeys
    const first: Bytes
    var wire: Bytes
    var pending: Bytes

    ghost var written: Bytes
    ghost var epochs: seq<Epoch>

    /** A peer that has read the wire knows the client's keys and has its bytes,
        and the log is what was sealed onto the wire. */
    ghost predicate Valid()
      reads this, client, server
    {
      && Lawful(suite) && client != server && |pending| <= Max
      && Reads(suite, Peer(first, 0, []), wire) == Some(Peer(client.secret, client.sequence, written))
      && Logged(suite, first, epochs, wire) && Current(epochs, client.secret, client.sequence)
    }

    /** After the handshake, with fresh traffic keys. */
    constructor (suite: Suite, clientSecret: Bytes, serverSecret: Bytes)
      requires Lawful(suite)
      ensures Valid() && fresh(client) && fresh(server)
      ensures this.suite == suite && first == clientSecret && server.secret == serverSecret
      ensures wire == [] && pending == [] && written == [] && epochs == [Epoch(clientSecret, [])]
    {
      LogStart(suite, clientSecret);
      this.suite, first := suite, clientSecret;
      client := new TrafficKeys(clientSecret);
      server := new TrafficKeys(serverSecret);
      wire, pending, written := [], [], [];
      epochs := [Epoch(clientSecret, [])];
    }

    /** Seals one record and puts it on the wire. */
    method Send(plain: Plain)
      requires Valid() && plain.inner != 0 && |plain.content| <= 16384
      modifies this`wire, this`epochs, client`sequence
      ensures client.sequence == (old(client.sequence) + 1) % Wrap
      ensures Logged(suite, first, epochs, wire) && Current(epochs, client.secret, client.sequence)
      ensures epochs == LogWith(old(epochs), Sent(NonceOf(suite.iv(client.secret), old(client.sequence)), plain))
      ensures wire == old(wire) + SealedRecord(suite, client.secret, old(client.sequence), plain)
      ensures Reads(suite, Peer(first, 0, []), wire)
              == Takes(suite, Peer(client.secret, old(client.sequence), written), plain)
    {
      hide Reads, Takes, RecordWith, Logged, Current, NonceOf;
      ReadsOneMore(suite, Peer(first, 0, []), wire, plain);
      var record, nonce := client.Seal(suite, plain);
      LogSend(suite, first, epochs, wire, client.secret, old(client.sequence), Sent(nonce, plain));
      LogSome(epochs, client.secret, old(client.sequence));
      epochs := LogWith(epochs, Sent(nonce, plain));
      wire := wire + record;
    }

    /** `write_all`: in fragments of at most two to the 14 bytes. */
    method WriteAll(bytes: Bytes)
      requires Valid()
      modifies this`wire, this`written, this`epochs, client`sequence
      ensures Valid() && written == old(written) + bytes
    {
      hide Reads, Lawful, Logged, Current, LogWith, NonceOf;
      var rest := bytes;
      assert written + [] == written;
      while rest != []
        invariant Valid() && written + rest == old(written) + bytes
        decreases |rest|
      {
        var count := if |rest| < 16384 then |rest| else 16384;
        Send(Plain(23, rest[..count]));
        ghost var more := written + rest[..count];
        assert written + rest == more + rest[count..];
        written := more;
        rest := rest[count..];
      }
      assert written + [] == written;
    }

    /** The answer to a KeyUpdate request: the last record under the old keys. */
    method Reply()
      requires Valid()
      modifies this`wire, this`epochs, client
      ensures Valid()
      ensures wire == old(wire) + SealedRecord(suite, old(client.secret), old(client.sequence), Plain(22, KeyUpdate(false)))
      ensures client.secret == suite.next(old(client.secret)) && client.sequence == 0
    {
      hide Reads, Lawful, SealedRecord, Logged, Current, LogWith, NonceOf;
      Send(Plain(22, KeyUpdate(false)));
      LogTurn(suite, first, epochs, wire, client.secret, client.sequence);
      epochs := epochs + [Epoch(suite.next(client.secret), [])];
      client.secret := suite.next(client.secret);
      client.sequence := 0;
    }

    /** The handshake branch of `next_event`, on the content of one record. */
    method PostHandshake(content: Bytes) returns (ok: bool, again: bool)
      requires Valid()
      modifies this`wire, this`pending, this`epochs, client, server
      ensures Valid()
      ensures var scan := Scan(old(pending) + content);
              ok <==> content != [] && |content| <= Max - |old(pending)| && scan.Some?
      ensures ok ==>
                var s := Scan(old(pending) + content).value;
                && pending == s.rest
                && (again <==> s.updates != [] || s.rest != [])
                && (if s.updates == [] then server.secret == old(server.secret) && server.sequence == old(server.sequence)
                    else server.secret == suite.next(old(server.secret)) && server.sequence == 0)
                && (if s.updates == [true] then
                      && client.secret == suite.next(old(client.secret)) && client.sequence == 0
                      && wire == old(wire) + SealedRecord(suite, old(client.secret), old(client.sequence),
                                                          Plain(22, KeyUpdate(false)))
                    else
                      wire == old(wire) && client.secret == old(client.secret) && client.sequence == old(client.sequence))
    {
      hide Reads, SealedRecord, Logged, Current, Scan, Size, Lawful;
      LawfulIv(suite, client.secret);
      if content == [] || |content| > Max - |pending| {
        return false, false;
      }
      pending := pending + content;
      var consumed: nat, updated, requested := 0, false, false;
      ghost var buffer := pending;
      ghost var goal := Scan(buffer);
      assert buffer[0..] == buffer;
      while |pending| - consumed >= 4
        invariant Valid() && pending == buffer && consumed <= |buffer|
        invariant if updated then consumed == |buffer| && goal == Some(Scanned([], [requested]))
                  else !requested && goal == Scan(buffer[consumed..])
        invariant if updated then server.secret == suite.next(old(server.secret)) && server.sequence == 0
                  else server.secret == old(server.secret) && server.sequence == old(server.sequence)
        invariant if requested then
                    && client.secret == suite.next(old(client.secret)) && client.sequence == 0
                    && wire == old(wire) + SealedRecord(suite, old(client.secret), old(client.sequence),
                                                        Plain(22, KeyUpdate(false)))
                  else
                    wire == old(wire) && client.secret == old(client.secret) && client.sequence == old(client.sequence)
      {
        var message := pending[consumed..];
        ScanStep(message);
        var size := Size(message);
        if size > Max {
          return false, false;
        }
        if |message| < size {
          break;
        }
        consumed := consumed + size;
        if message[0] != 24 {
          assert message[size..] == buffer[consumed..];
          continue;
        }
        if size != 5 || |message| != 5 || (message[4] != 0 && message[4] != 1) {
          NoUpdate(message);
          return false, false;
        }
        requested := message[4] == 1;
        IsUpdate(message);
        server.secret, server.sequence := suite.next(server.secret), 0;
        if requested {
          Reply();
        }
        updated := true;
      }
      ScanStep(pending[consumed..]);
      pending := pending[consumed..];
      ok, again := true, updated || pending != [];
    }
  }

  lemma LawfulIv(suite: Suite, secret: Bytes)
    requires Lawful(suite)
    ensures |suite.iv(secret)| == 12
  {
  }

  lemma ScanStep(buffer: Bytes)
    ensures Scan(buffer) ==
            if |buffer| < 4 then Some(Scanned(buffer, []))
            else if Size(buffer) > Max then None
            else if |buffer| < Size(buffer) then Some(Scanned(buffer, []))
            else if buffer[0] != 24 then Scan(buffer[Size(buffer)..])
            else if buffer == KeyUpdate(false) then Some(Scanned([], [false]))
            else if buffer == KeyUpdate(true) then Some(Scanned([], [true]))
            else None
  {
    hide Size;
  }

  lemma LogSome(es: seq<Epoch>, secret: Bytes, sequence: nat)
    requires Current(es, secret, sequence)
    ensures es != []
  {
  }

  lemma IsUpdate(m: Bytes)
    requires |m| == 5 && m[0] == 24 && Size(m) == 5 && (m[4] == 0 || m[4] == 1)
    ensures m == KeyUpdate(m[4] == 1)
  {
  }

  lemma NoUpdate(m: Bytes)
    requires |m| >= 4 && (Size(m) != 5 || |m| != 5 || (m[4] != 0 && m[4] != 1))
    ensures m != KeyUpdate(false) && m != KeyUpdate(true)
  {
  }

  // ----- whole conversations -----

  datatype Op = Write(bytes: Bytes) | Handshake(content: Bytes)

  ghost function Written(ops: seq<Op>): Bytes {
    if ops == [] then []
    else Written(ops[..|ops| - 1]) + if ops[|ops| - 1].Write? then ops[|ops| - 1].bytes else []
  }

  /** Within every epoch: one nonce exactly a multiple of two to the 64 apart. */
  ghost predicate NoncesFresh(es: seq<Epoch>) {
    forall e, i, j :: 0 <= e < |es| && 0 <= i < |es[e].sent| && 0 <= j < |es[e].sent| ==>
                        (es[e].sent[i].nonce == es[e].sent[j].nonce <==> i % Wrap == j % Wrap)
  }

  lemma LoggedFresh(suite: Suite, first: Bytes, es: seq<Epoch>, wire: Bytes)
    requires Logged(suite, first, es, wire)
    ensures NoncesFresh(es)
  {
    hide Counted;
    forall e, i, j | 0 <= e < |es| && 0 <= i < |es[e].sent| && 0 <= j < |es[e].sent|
      ensures es[e].sent[i].nonce == es[e].sent[j].nonce <==> i % Wrap == j % Wrap
    {
      NonceReuse(suite, es[e], i, j);
    }
  }

  /** Over any conversation a peer that opens the client's records in order, and
      changes keys when told, gets exactly the bytes written, up to the first
      message that is refused. The wire is the records of the epochs in the log,
      and no two records of an epoch share a nonce until its counter wraps. */
  method Converse(suite: Suite, clientSecret: Bytes, serverSecret: Bytes, ops: seq<Op>)
    returns (done: nat, wire: Bytes, ghost epochs: seq<Epoch>)
    requires Lawful(suite)
    ensures done <= |ops|
    ensures var peer := Reads(suite, Peer(clientSecret, 0, []), wire);
            peer.Some? && peer.value.received == Written(ops[..done])
    ensures Logged(suite, clientSecret, epochs, wire) && NoncesFresh(epochs)
  {
    hide Reads, Lawful, Scan, Logged, Current, NoncesFresh;
    var session := new Session(suite, clientSecret, serverSecret);
    done := 0;
    while done < |ops|
      invariant done <= |ops| && session.Valid() && fresh(session) && fresh(session.client) && fresh(session.server)
      invariant session.suite == suite && session.first == clientSecret
      invariant session.written == Written(ops[..done])
      decreases |ops| - done
    {
      assert ops[..done + 1][..done] == ops[..done];
      match ops[done] {
        case Write(bytes) =>
          session.WriteAll(bytes);
        case Handshake(content) =>
          var ok, again := session.PostHandshake(content);
          if !ok {
            LoggedFresh(suite, clientSecret, session.epochs, session.wire);
            return done, session.wire, session.epochs;
          }
          assert session.written + [] == session.written;
      }
      done := done + 1;
    }
    LoggedFresh(suite, clientSecret, session.epochs, session.wire);
    wire, epochs := session.wire, session.epochs;
  }

  // ----- which buffers are taken -----

  ghost function Concat(ms: seq<Bytes>): Bytes {
    if ms == [] then [] else ms[0] + Concat(ms[1..])
  }

  /** Whole messages of other types. */
  ghost predicate Ignored(ms: seq<Bytes>) {
    forall k :: 0 <= k < |ms| ==> Other(ms[k])
  }

  ghost predicate Other(m: Bytes) {
    exists kind: byte :: kind != 24 && Message(m, kind)
  }

  /** The beginning of a message that is not all there. */
  ghost predicate Partial(b: Bytes) {
    |b| < 4 || (|b| < Size(b) <= Max)
  }

  /** How a buffer of whole messages ends: with part of a message, or with a KeyUpdate. */
  ghost predicate Tail(b: Bytes, s: Scanned) {
    || (Partial(b) && s == Scanned(b, []))
    || (exists request :: b == KeyUpdate(request) && s == Scanned([], [request]))
  }

  /** A buffer is taken exactly when it is whole messages that are no KeyUpdate and
      then part of a message, or a KeyUpdate as its last five bytes. */
  lemma ScanIs(buffer: Bytes, s: Scanned)
    ensures Scan(buffer) == Some(s) <==> exists ms, b :: Ignored(ms) && Tail(b, s) && buffer == Concat(ms) + b
  {
    hide Scan, Ignored, Tail;
    if Scan(buffer) == Some(s) {
      var ms, b := ScanFound(buffer);
    }
    if ms, b :| Ignored(ms) && Tail(b, s) && buffer == Concat(ms) + b {
      ScanRead(ms, b, s);
    }
  }

  lemma {:induction false} ScanFound(buffer: Bytes) returns (ms: seq<Bytes>, b: Bytes)
    requires Scan(buffer).Some?
    ensures Ignored(ms) && Tail(b, Scan(buffer).value) && buffer == Concat(ms) + b
    decreases |buffer|
  {
    hide Scan, Size, Ignored, Tail, Concat;
    ScanStep(buffer);
    if |buffer| >= 4 && Size(buffer) <= |buffer| && buffer[0] != 24 {
      var n := Size(buffer);
      var more;
      more, b := ScanFound(buffer[n..]);
      OneMore(buffer, more, b);
      ms := [buffer[..n]] + more;
    } else {
      ms, b := [], buffer;
      NoneIgnored(buffer);
      TailFound(buffer);
    }
  }

  lemma NoneIgnored(b: Bytes)
    ensures Ignored([]) && b == Concat([]) + b
  {
  }

  lemma OneMore(buffer: Bytes, more: seq<Bytes>, b: Bytes)
    requires |buffer| >= 4 && Size(buffer) <= |buffer| && Size(buffer) <= Max && buffer[0] != 24
    requires Ignored(more) && buffer[Size(buffer)..] == Concat(more) + b
    ensures var ms := [buffer[..Size(buffer)]] + more;
            Ignored(ms) && buffer == Concat(ms) + b
  {
    hide Size, Message;
    var m := buffer[..Size(buffer)];
    SizeOfFront(buffer);
    MessageIs(m, m[0]);
    assert Other(m);
    var ms := [m] + more;
    assert ms[1..] == more;
    assert buffer == m + (Concat(more) + b);
    assert m + (Concat(more) + b) == (m + Concat(more)) + b;
  }

  lemma TailFound(b: Bytes)
    requires Scan(b).Some? && (|b| < 4 || |b| < Size(b) || b[0] == 24)
    ensures Tail(b, Scan(b).value)
  {
    hide Size, Scan;
    ScanStep(b);
    assert b == KeyUpdate(false) ==> Scan(b).value == Scanned([], [false]) || Partial(b);
  }

  lemma SizeOfFront(b: Bytes)
    requires |b| >= 4 && Size(b) <= |b|
    ensures Size(b[..Size(b)]) == Size(b) && b[..Size(b)][0] == b[0]
  {
  }

  lemma {:induction false} ScanRead(ms: seq<Bytes>, b: Bytes, s: Scanned)
    requires Ignored(ms) && Tail(b, s)
    ensures Scan(Concat(ms) + b) == Some(s)
    decreases |ms|
  {
    hide Scan, Message;
    var buffer := Concat(ms) + b;
    ScanStep(buffer);
    if ms == [] {
      assert buffer == b;
      TailScan(b, s);
    } else {
      assert Other(ms[0]);
      var kind: byte :| kind != 24 && Message(ms[0], kind);
      MessageIs(ms[0], kind);
      assert Ignored(ms[1..]) by {
        assert forall k :: 0 <= k < |ms| - 1 ==> ms[1..][k] == ms[k + 1];
      }
      ScanRead(ms[1..], b, s);
      assert buffer == ms[0] + (Concat(ms[1..]) + b);
      assert buffer[|ms[0]|..] == Concat(ms[1..]) + b;
    }
  }

  lemma TailScan(b: Bytes, s: Scanned)
    requires Tail(b, s)
    ensures Scan(b) == Some(s)
  {
    if request :| b == KeyUpdate(request) && s == Scanned([], [request]) {
      assert Size(b) == 5;
    }
  }
}
