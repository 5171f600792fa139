/** Reading pipelined HTTP/1.1 requests, src/nxtrt/http-server.cpp: what the bytes
    of a connection mean, and readers that get those bytes in pieces. */
module HttpText {
  import opened Basics
  import opened HttpChunks

  // ----- searching -----

  ghost predicate Occurs(s: string, k: nat, pat: string) {
    k + |pat| <= |s| && s[k..k + |pat|] == pat
  }

  /** `find`: the first occurrence at or after `i`. */
  function FindFrom(s: string, i: nat, pat: string): (r: Option<nat>)
    requires i <= |s|
    ensures r.Some? ==> i <= r.value && Occurs(s, r.value, pat)
    ensures forall k :: i <= k && (r.Some? ==> k < r.value) ==> !Occurs(s, k, pat)
    decreases |s| - i
  {
    if |s| < i + |pat| then None
    else if s[i..i + |pat|] == pat then Some(i)
    else if i == |s| then None
    else FindFrom(s, i + 1, pat)
  }

  function Find(s: string, pat: string): (r: Option<nat>)
    ensures r.Some? ==> Occurs(s, r.value, pat)
    ensures forall k: nat :: (r.Some? ==> k < r.value) ==> !Occurs(s, k, pat)
  {
    FindFrom(s, 0, pat)
  }

  /** What is found in the bytes that have arrived is found in all of them, and
      the other way round if it lies in what has arrived. */
  lemma FindArrived(p: string, u: string, pat: string)
    ensures Find(p, pat).Some? ==> Find(p + u, pat) == Find(p, pat)
    ensures Find(p, pat).None? && Find(p + u, pat).Some? ==> |p| < Find(p + u, pat).value + |pat|
  {
    forall k: nat | k + |pat| <= |p|
      ensures Occurs(p, k, pat) <==> Occurs(p + u, k, pat)
    {
      assert (p + u)[k..k + |pat|] == p[k..k + |pat|];
    }
    var a, b := Find(p, pat), Find(p + u, pat);
    if a.Some? {
      assert Occurs(p + u, a.value, pat);
    }
  }

  // ----- trailer fields -----

  function Lower(c: char): char {
    if 'A' <= c <= 'Z' then c - 'A' + 'a' else c
  }

  /** `iequals`. */
  predicate SameName(a: string, b: string) {
    |a| == |b| && forall k :: 0 <= k < |a| ==> Lower(a[k]) == Lower(b[k])
  }

  /** `parse_field`: the name of a field line, if it is one. */
  function FieldName(line: string): Option<string> {
    var colon := Find(line, ":");
    if colon.None? || colon.value == 0 then None
    else
      var name, value := line[..colon.value], line[colon.value + 1..];
      if (forall k :: 0 <= k < |name| ==> TokenChar(name[k])) && (forall k :: 0 <= k < |value| ==> FieldChar(value[k]))
      then Some(name) else None
  }

  /** A field line that may stand in a trailer. */
  predicate TrailerField(line: string) {
    var name := FieldName(line);
    name.Some? && !SameName(name.value, "Content-Length") && !SameName(name.value, "Transfer-Encoding")
  }

  // ----- what the bytes mean -----

  datatype Limits = Limits(header: nat, body: nat, wire: nat, requests: nat)

  /** `request_head`, with the text it was parsed from for everything else in it. */
  datatype Head = Head(text: string, length: nat, chunked: bool, keepAlive: bool)

  /** A line that fits both budgets. */
  ghost function LineOf(flat: string, wire: nat, limit: nat): (r: Option<string>)
    ensures r.Some? ==> |r.value| + 2 <= |flat| && |r.value| + 2 <= wire && |r.value| + 2 <= limit
    ensures r.Some? ==> flat == r.value + ("\r\n" + flat[|r.value| + 2..])
  {
    var end := Find(flat, "\r\n");
    if end.Some? && end.value + 2 <= wire && end.value + 2 <= limit then
      assert flat[end.value..end.value + 2] == "\r\n";
      Some(flat[..end.value])
    else None
  }

  /** The size a chunk line states. */
  ghost function ChunkSize(line: string): (r: Option<nat>)
    ensures r.Some? ==> IsChunkLine(line, r.value)
    ensures r.None? ==> forall size: nat :: !IsChunkLine(line, size)
  {
    if size: nat :| IsChunkLine(line, size) then Some(size) else None
  }

  datatype Rest = Rest(body: string, flat: string, wire: nat)

  /** The chunks, up to and with the last one's line. */
  ghost function Chunks(flat: string, wire: nat, body: string, limits: Limits): (r: Option<Rest>)
    requires |body| <= limits.body
    ensures r.Some? ==> r.value.wire <= wire && |body| <= |r.value.body| <= limits.body
    decreases |flat|
  {
    var line := LineOf(flat, wire, limits.header);
    if line.None? then None else
    var size := ChunkSize(line.value);
    var data, left := flat[|line.value| + 2..], wire - |line.value| - 2;
    if size.None? then None
    else if size.value == 0 then Some(Rest(body, data, left))
    else if size.value > limits.body - |body| || size.value > left || size.value > |data| then None
    else
      var tail := data[size.value..];
      if left - size.value < 2 || |tail| < 2 || tail[..2] != "\r\n" then None
      else Chunks(tail[2..], left - size.value - 2, body + data[..size.value], limits)
  }

  /** One chunk, in the order the loop looks at it. */
  lemma ChunksStep(flat: string, wire: nat, body: string, limits: Limits)
    requires |body| <= limits.body
    ensures Chunks(flat, wire, body, limits) ==
            var line := LineOf(flat, wire, limits.header);
            if line.None? then None else
            var size := ChunkSize(line.value);
            var data, left := flat[|line.value| + 2..], wire - |line.value| - 2;
            if size.None? then None
            else if size.value == 0 then Some(Rest(body, data, left))
            else if size.value > limits.body - |body| || size.value > left || size.value > |data| then None
            else
              var tail := data[size.value..];
              if left - size.value < 2 || |tail| < 2 || tail[..2] != "\r\n" then None
              else Chunks(tail[2..], left - size.value - 2, body + data[..size.value], limits)
  {
    hide LineOf, ChunkSize;
  }

  /** The trailer section and the empty line. */
  ghost function Trailers(flat: string, wire: nat, budget: nat): (r: Option<string>)
    decreases |flat|
  {
    var line := LineOf(flat, wire, budget);
    if line.None? then None else
    var n := |line.value| + 2;
    if line.value == "" then Some(flat[n..])
    else if TrailerField(line.value) then Trailers(flat[n..], wire - n, budget - n)
    else None
  }

  /** The bytes left when the chunk loop refuses: it stops at what it refuses, and
      data that is cut short has all been read. */
  ghost function ChunksLeft(flat: string, wire: nat, body: string, limits: Limits): string
    requires |body| <= limits.body
    decreases |flat|
  {
    var line := LineOf(flat, wire, limits.header);
    if line.None? then flat else
    var size := ChunkSize(line.value);
    var data, left := flat[|line.value| + 2..], wire - |line.value| - 2;
    if size.None? || size.value == 0 || size.value > limits.body - |body| || size.value > left then data
    else if size.value > |data| then ""
    else
      var tail := data[size.value..];
      if left - size.value < 2 || |tail| < 2 || tail[..2] != "\r\n" then tail
      else ChunksLeft(tail[2..], left - size.value - 2, body + data[..size.value], limits)
  }

  lemma ChunksLeftStep(flat: string, wire: nat, body: string, limits: Limits)
    requires |body| <= limits.body
    ensures ChunksLeft(flat, wire, body, limits) ==
            var line := LineOf(flat, wire, limits.header);
            if line.None? then flat else
            var size := ChunkSize(line.value);
            var data, left := flat[|line.value| + 2..], wire - |line.value| - 2;
            if size.None? || size.value == 0 || size.value > limits.body - |body| || size.value > left then data
            else if size.value > |data| then ""
            else
              var tail := data[size.value..];
              if left - size.value < 2 || |tail| < 2 || tail[..2] != "\r\n" then tail
              else ChunksLeft(tail[2..], left - size.value - 2, body + data[..size.value], limits)
  {
    hide LineOf, ChunkSize;
  }

  /** The bytes left when the trailer loop refuses. */
  ghost function TrailersLeft(flat: string, wire: nat, budget: nat): string
    decreases |flat|
  {
    var line := LineOf(flat, wire, budget);
    if line.None? then flat else
    var n := |line.value| + 2;
    if line.value != "" && TrailerField(line.value) then TrailersLeft(flat[n..], wire - n, budget - n) else flat[n..]
  }

  datatype Message = Message(body: string, flat: string)

  /** The bytes left when the body behind a head is refused. */
  ghost function BodyLeft(flat: string, head: Head, size: nat, limits: Limits): string
    requires size <= limits.header
  {
    if head.length > limits.body || head.length > limits.wire then flat
    else if head.chunked then
      var chunks := Chunks(flat, limits.wire, "", limits);
      if chunks.None? then ChunksLeft(flat, limits.wire, "", limits)
      else TrailersLeft(chunks.value.flat, chunks.value.wire, limits.header - size + 2)
    else ""
  }

  /** The body behind a head of `size` bytes. */
  ghost function BodyOf(flat: string, head: Head, size: nat, limits: Limits): Option<Message>
    requires size <= limits.header
  {
    if head.length > limits.body || head.length > limits.wire then None
    else if head.chunked then
      var chunks := Chunks(flat, limits.wire, "", limits);
      if chunks.None? then None else
      var rest := Trailers(chunks.value.flat, chunks.value.wire, limits.header - size + 2);
      if rest.Some? then Some(Message(chunks.value.body, rest.value)) else None
    else if head.length > |flat| then None
    else Some(Message(flat[..head.length], flat[head.length..]))
  }

  /** Nothing there, a refused request, or an accepted one. */
  datatype Arrival = Closed | Refused | Request(head: Head, body: string)

  ghost function HeadSize(flat: string, limits: Limits): (r: Option<nat>)
    ensures r.Some? ==> r.value <= |flat| && r.value <= limits.header
  {
    var end := Find(flat, "\r\n\r\n");
    if end.Some? && end.value + 4 <= limits.header then Some(end.value + 4) else None
  }

  /** The first request of the bytes `flat`, and the bytes left behind it, accepted
      or not. A limit of zero refuses even the end of input. */
  ghost function RequestOf(flat: string, limits: Limits, parse: string -> Option<Head>): (Arrival, string) {
    if flat == "" && limits.header > 0 then (Closed, "") else
    var size := HeadSize(flat, limits);
    if size.None? then (Refused, flat) else
    var head := parse(flat[..size.value]);
    if head.None? then (Refused, flat) else
    var rest := flat[size.value..];
    var m := BodyOf(rest, head.value, size.value, limits);
    if m.None? then (Refused, BodyLeft(rest, head.value, size.value, limits))
    else (Request(head.value, m.value.body), m.value.flat)
  }
}

module Http {
  import opened Basics
  import opened HttpChunks
  import opened HttpText

  /** How `append_input` ends: a rejection, the end of input, or more bytes. */
  datatype Progress = Full | Ended | More

  /** How `read_head` ends: no more input, a rejection, or a head and its size. */
  datatype HeadRead = NoMore | BadHead | GotHead(head: Head, size: nat)

  /** A connection's input: `pending` has been read and not used, `unread` has not
      arrived. A read takes a nonempty piece of any size up to what was asked. */
  class Stream {
    var pending: string
    var unread: string

    ghost function Flat(): string
      reads this
    {
      pending + unread
    }

    constructor (bytes: string)
      ensures pending == "" && unread == bytes && Flat() == bytes
    {
      pending, unread := "", bytes;
      new;
      assert "" + bytes == bytes;
    }

    /** `take_some`. */
    method TakeSome(limit: nat) returns (piece: Option<string>)
      requires limit > 0
      modifies `unread
      ensures piece.None? ==> unread == old(unread) == ""
      ensures piece.Some? ==> 0 < |piece.value| <= limit && old(unread) == piece.value + unread
    {
      if |unread| == 0 {
        return None;
      }
      var n: int := *;
      if n < 1 || n > limit || n > |unread| {
        n := 1;
      }
      piece := Some(unread[..n]);
      unread := unread[n..];
    }

    /** `append_input`. */
    method AppendInput(limit: nat) returns (r: Progress)
      modifies this
      ensures Flat() == old(Flat()) && old(pending) <= pending
      ensures r.Full? <==> |old(pending)| >= limit
      ensures !r.More? ==> pending == old(pending) && unread == old(unread)
      ensures r.Ended? ==> unread == "" && Flat() == pending
      ensures r.More? ==> |unread| < |old(unread)| && |pending| <= limit
    {
      if |pending| >= limit {
        return Full;
      }
      var want := if limit - |pending| < 4096 then limit - |pending| else 4096;
      var bytes := TakeSome(want);
      if bytes.None? {
        assert pending + "" == pending;
        return Ended;
      }
      assert (pending + bytes.value) + unread == pending + (bytes.value + unread);
      pending := pending + bytes.value;
      r := More;
    }

    /** `pending.erase(0, n)`. */
    method Erase(n: nat)
      requires n <= |pending|
      modifies `pending
      ensures pending == old(pending)[n..] && Flat() == old(Flat())[n..]
    {
      pending := pending[n..];
      assert pending + unread == old(pending + unread)[n..];
    }

    /** Up to `limit` bytes off the front of `pending`. */
    method Move(limit: nat) returns (piece: string)
      modifies `pending
      ensures |piece| <= limit && |piece| <= |old(Flat())| && piece == old(Flat())[..|piece|]
      ensures Flat() == old(Flat())[|piece|..]
      ensures old(pending) != "" && limit > 0 ==> |piece| > 0
    {
      var count := if limit < |pending| then limit else |pending|;
      piece := pending[..count];
      assert piece == Flat()[..count];
      Erase(count);
    }

    /** Reads until `pat` is in `pending`, within `bound` bytes. */
    method ReadUntil(pat: string, bound: nat) returns (end: Option<nat>)
      requires pat != ""
      modifies this
      ensures Flat() == old(Flat())
      ensures end.Some? ==> Find(Flat(), pat) == end && end.value + |pat| <= |pending|
      ensures end.None? ==> Find(Flat(), pat).None? || Find(Flat(), pat).value + |pat| > bound
      ensures end.None? ==> bound > 0 && pending == "" ==> Flat() == ""
    {
      end := Find(pending, pat);
      FindArrived(pending, unread, pat);
      while end.None?
        invariant Flat() == old(Flat())
        invariant end == Find(pending, pat)
        decreases |unread|
      {
        FindArrived(pending, unread, pat);
        var more := AppendInput(bound);
        if !more.More? {
          assert more.Ended? ==> pending + unread == pending;
          return None;
        }
        end := Find(pending, pat);
      }
      FindArrived(pending, unread, pat);
    }

    /** `read_head`; only an accepted head is taken off the bytes. */
    method ReadHead(limits: Limits, parse: string -> Option<Head>) returns (r: HeadRead)
      modifies this
      ensures r.NoMore? <==> old(Flat()) == "" && limits.header > 0
      ensures !r.GotHead? ==> Flat() == old(Flat())
      ensures !r.NoMore? ==>
                var size := HeadSize(old(Flat()), limits);
                r == (if size.None? || parse(old(Flat())[..size.value]).None? then BadHead
                      else GotHead(parse(old(Flat())[..size.value]).value, size.value))
      ensures r.GotHead? ==> r.size <= |old(Flat())| && Flat() == old(Flat())[r.size..]
    {
      hide Find;
      var end := ReadUntil("\r\n\r\n", limits.header);
      if end.None? {
        NoHead(Flat(), limits);
        return if |pending| == 0 && limits.header > 0 then NoMore else BadHead;
      }
      assert |Flat()| > 0;
      var size := end.value + 4;
      if size > limits.header {
        return BadHead;
      }
      assert pending[..size] == Flat()[..size];
      var head := parse(pending[..size]);
      if head.None? {
        return BadHead;
      }
      Erase(size);
      r := GotHead(head.value, size);
    }

    /** `read_line`: `wire` is what is left of its budget. */
    method ReadLine(wire: nat, limit: nat) returns (line: Option<string>, left: nat)
      modifies this
      ensures line == LineOf(old(Flat()), wire, limit)
      ensures line.Some? ==> Flat() == old(Flat())[|line.value| + 2..] && left == wire - |line.value| - 2
      ensures line.None? ==> Flat() == old(Flat())
    {
      hide Find;
      left := wire;
      var end := ReadUntil("\r\n", if wire < limit then wire else limit);
      if end.None? {
        return None, left;
      }
      var size := end.value + 2;
      if size > wire || size > limit {
        return None, left;
      }
      line := Some(pending[..end.value]);
      assert pending[..end.value] == Flat()[..end.value];
      Erase(size);
      left := wire - size;
    }

    /** `read_payload`: appends to the body, within what is left of both budgets. */
    method ReadPayload(body: string, length: nat, wire: nat, limit: nat)
      returns (ok: bool, whole: string, left: nat)
      requires |body| <= limit
      modifies this
      ensures ok <==> length <= limit - |body| && length <= wire && length <= |old(Flat())|
      ensures ok ==> whole == body + old(Flat())[..length] && Flat() == old(Flat())[length..] && left == wire - length
      ensures !ok ==> Flat() == if length > limit - |body| || length > wire then old(Flat()) else ""
    {
      whole, left := body, wire;
      if length > limit - |body| || length > wire {
        return false, whole, left;
      }
      hide Copied, Stream.Flat;
      var due: nat := length;
      ghost var flat := Flat();
      CopyStart(body, flat);
      while due > 0
        invariant due <= length && left == wire - (length - due) && 0 <= left
        invariant Copied(body, flat, length - due, whole, Flat())
        decreases due, |unread|
      {
        if |pending| == 0 {
          var more := AppendInput(if due < 4096 then due else 4096);
          if more.Ended? {
            CopyDone(body, flat, length - due, whole, Flat());
            return false, whole, left;
          }
        }
        ghost var here := Flat();
        var piece := Move(due);
        CopyStep(body, flat, length - due, whole, here, |piece|);
        whole := whole + piece;
        due := due - |piece|;
        left := left - |piece|;
      }
      CopyDone(body, flat, length, whole, Flat());
      ok := true;
    }

    /** The CRLF behind a chunk's data. */
    method ReadCrlf(wire: nat) returns (ok: bool, left: nat)
      modifies this
      ensures ok <==> wire >= 2 && |old(Flat())| >= 2 && old(Flat())[..2] == "\r\n"
      ensures ok ==> Flat() == old(Flat())[2..] && left == wire - 2
      ensures !ok ==> Flat() == old(Flat())
    {
      left := wire;
      if wire < 2 {
        return false, left;
      }
      while |pending| < 2
        invariant Flat() == old(Flat())
        decreases |unread|
      {
        var more := AppendInput(2);
        if more.Ended? {
          return false, left;
        }
      }
      assert pending[..2] == Flat()[..2];
      if pending[..2] != "\r\n" {
        return false, left;
      }
      Erase(2);
      ok, left := true, wire - 2;
    }

    /** The chunk loop of `read_body`. */
    method ReadChunks(limits: Limits) returns (ok: bool, body: string, wire: nat)
      modifies this
      ensures ok <==> Chunks(old(Flat()), limits.wire, "", limits).Some?
      ensures ok ==> Chunks(old(Flat()), limits.wire, "", limits) == Some(Rest(body, Flat(), wire))
      ensures !ok ==> Flat() == ChunksLeft(old(Flat()), limits.wire, "", limits)
    {
      hide LineOf, ChunkSize, Chunks, ChunksLeft, Stream.Flat;
      wire, body := limits.wire, "";
      ghost var goal, left0 := Chunks(Flat(), wire, body, limits), ChunksLeft(Flat(), wire, body, limits);
      while true
        invariant 0 <= wire && |body| <= limits.body
        invariant Chunks(Flat(), wire, body, limits) == goal && ChunksLeft(Flat(), wire, body, limits) == left0
        decreases |Flat()|
      {
        ChunksStep(Flat(), wire, body, limits);
        ChunksLeftStep(Flat(), wire, body, limits);
        var line, left := ReadLine(wire, limits.header);
        if line.None? {
          return false, body, wire;
        }
        var size := ReadSize(line.value);
        if size.None? {
          return false, body, wire;
        }
        if size.value == 0 {
          return true, body, left;
        }
        ok, body, left := ReadPayload(body, size.value, left, limits.body);
        if !ok {
          return false, body, wire;
        }
        ok, wire := ReadCrlf(left);
        if !ok {
          return false, body, wire;
        }
      }
    }

    /** The trailer loop of `read_body`. */
    method ReadTrailers(wire: nat, budget: nat) returns (ok: bool)
      modifies this
      ensures ok <==> Trailers(old(Flat()), wire, budget).Some?
      ensures ok ==> Flat() == Trailers(old(Flat()), wire, budget).value
      ensures !ok ==> Flat() == TrailersLeft(old(Flat()), wire, budget)
    {
      hide LineOf, Stream.Flat, TrailerField;
      var w, b := wire, budget;
      ghost var goal, left0 := Trailers(Flat(), wire, budget), TrailersLeft(Flat(), wire, budget);
      while true
        invariant 0 <= w && 0 <= b && Trailers(Flat(), w, b) == goal && TrailersLeft(Flat(), w, b) == left0
        decreases |Flat()|
      {
        var line;
        line, w := ReadLine(w, b);
        if line.None? {
          return false;
        }
        b := b - (|line.value| + 2);
        if |line.value| == 0 {
          return true;
        }
        if !TrailerField(line.value) {
          return false;
        }
      }
    }

    /** One request: `read_head`, the length check and `read_body` of `connection`.
        The answer is a function of the bytes, however they arrive. */
    method ReadRequest(limits: Limits, parse: string -> Option<Head>) returns (r: Arrival)
      modifies this
      ensures (r, Flat()) == RequestOf(old(Flat()), limits, parse)
    {
      hide Chunks, Trailers, ChunksLeft, TrailersLeft, HeadSize, Stream.Flat;
      var read := ReadHead(limits, parse);
      match read {
        case NoMore =>
          r := Closed;
        case BadHead =>
          r := Refused;
        case GotHead(head, size) =>
          r := ReadBody(head, size, limits);
      }
    }

    /** The length check of `connection`, and `read_body`. */
    method ReadBody(head: Head, size: nat, limits: Limits) returns (r: Arrival)
      requires size <= limits.header
      modifies this
      ensures var m := BodyOf(old(Flat()), head, size, limits);
              if m.Some? then r == Request(head, m.value.body) && Flat() == m.value.flat
              else r == Refused && Flat() == BodyLeft(old(Flat()), head, size, limits)
    {
      hide Chunks, Trailers, ChunksLeft, TrailersLeft, Stream.Flat;
      if head.length > limits.body || head.length > limits.wire {
        return Refused;
      }
      if head.chunked {
        var ok, body, wire := ReadChunks(limits);
        if !ok {
          return Refused;
        }
        ok := ReadTrailers(wire, limits.header - size + 2);
        return if ok then Request(head, body) else Refused;
      }
      var ok, body, left := ReadPayload("", head.length, limits.wire, limits.body);
      r := if ok then Request(head, body) else Refused;
    }
  }

  /** The size a chunk line states, or a rejection. */
  method ReadSize(line: string) returns (r: Option<nat>)
    ensures r == ChunkSize(line)
  {
    hide IsChunkLine;
    r := ChunkLength(line);
  }

  /** `done` bytes of `flat` are behind the body, the others are to come. */
  ghost predicate Copied(body: string, flat: string, done: nat, whole: string, rest: string) {
    done <= |flat| && rest == flat[done..] && whole == body + flat[..done]
  }

  lemma CopyStart(body: string, flat: string)
    ensures Copied(body, flat, 0, body, flat)
  {
  }

  lemma CopyStep(body: string, flat: string, done: nat, whole: string, rest: string, count: nat)
    requires Copied(body, flat, done, whole, rest) && count <= |rest|
    ensures Copied(body, flat, done + count, whole + rest[..count], rest[count..])
  {
    assert rest[..count] == flat[done..done + count];
    assert flat[..done] + flat[done..done + count] == flat[..done + count];
    assert (body + flat[..done]) + rest[..count] == body + (flat[..done] + rest[..count]);
  }

  lemma CopyDone(body: string, flat: string, done: nat, whole: string, rest: string)
    requires Copied(body, flat, done, whole, rest)
    ensures done <= |flat| && rest == flat[done..] && whole == body + flat[..done]
    ensures rest == "" ==> done == |flat|
  {
  }

  lemma NoHead(flat: string, limits: Limits)
    requires Find(flat, "\r\n\r\n").None? || Find(flat, "\r\n\r\n").value + 4 > limits.header
    ensures HeadSize(flat, limits).None?
  {
    hide Find;
  }

  // ----- a connection -----

  datatype Accepted = Accepted(head: Head, body: string)

  /** What a connection served, how it ended and which bytes it left. */
  datatype Session = Session(log: seq<Accepted>, refused: bool, rest: string)

  /** `connection`, on all the bytes at once. `respond` says whether the handler's
      answer to a request was turned into a response. */
  ghost function Serve(flat: string, count: nat, limits: Limits, parse: string -> Option<Head>,
                       respond: Accepted -> bool): Session
    decreases limits.requests - count
  {
    if count >= limits.requests then Session([], false, flat) else
    var (first, rest) := RequestOf(flat, limits, parse);
    match first
    case Closed => Session([], false, rest)
    case Refused => Session([], true, rest)
    case Request(head, body) =>
      var here := Accepted(head, body);
      if head.keepAlive && count + 1 < limits.requests && respond(here) then
        var more := Serve(rest, count + 1, limits, parse, respond);
        more.(log := [here] + more.log)
      else Session([here], false, rest)
  }

  /** `connection`: the requests handed to the handler, whether the last one was
      refused, and the bytes left over in either case depend only on the bytes sent. */
  method Connection(input: Stream, limits: Limits, parse: string -> Option<Head>, respond: Accepted -> bool)
    returns (log: seq<Accepted>, refused: bool)
    modifies input
    ensures Session(log, refused, input.Flat()) == Serve(old(input.Flat()), 0, limits, parse, respond)
  {
    hide RequestOf, Stream.Flat, Serve;
    log := [];
    ghost var goal := Serve(input.Flat(), 0, limits, parse, respond);
    Extended([], goal);
    for count := 0 to limits.requests
      invariant goal == After(log, Serve(input.Flat(), count, limits, parse, respond))
    {
      ServeStep(log, input.Flat(), count, limits, parse, respond);
      var r := input.ReadRequest(limits, parse);
      match r {
        case Closed =>
          return log, false;
        case Refused =>
          return log, true;
        case Request(head, body) =>
          var here := Accepted(head, body);
          log := log + [here];
          if !(head.keepAlive && count + 1 < limits.requests && respond(here)) {
            return log, false;
          }
      }
    }
    ServeStep(log, input.Flat(), limits.requests, limits, parse, respond);
    refused := false;
  }

  /** A session with earlier requests in front. */
  ghost function After(log: seq<Accepted>, s: Session): Session {
    s.(log := log + s.log)
  }

  lemma Extended(log: seq<Accepted>, s: Session)
    ensures log == [] ==> After(log, s) == s
  {
    assert [] + s.log == s.log;
  }

  lemma ServeStep(log: seq<Accepted>, flat: string, count: nat, limits: Limits, parse: string -> Option<Head>,
                  respond: Accepted -> bool)
    ensures After(log, Serve(flat, count, limits, parse, respond)) ==
            if count >= limits.requests then Session(log, false, flat) else
            var (first, rest) := RequestOf(flat, limits, parse);
            match first
            case Closed => Session(log, false, rest)
            case Refused => Session(log, true, rest)
            case Request(head, body) =>
              var here := Accepted(head, body);
              if head.keepAlive && count + 1 < limits.requests && respond(here) then
                After(log + [here], Serve(rest, count + 1, limits, parse, respond))
              else Session(log + [here], false, rest)
  {
    hide RequestOf;
    assert log + [] == log;
    if count < limits.requests {
      var (first, rest) := RequestOf(flat, limits, parse);
      if first.Request? {
        var here := Accepted(first.head, first.body);
        var more := Serve(rest, count + 1, limits, parse, respond);
        assert log + ([here] + more.log) == (log + [here]) + more.log;
      }
    }
  }

  // ----- a session, said request by request -----

  /** The connection is kept after this request, the `k`th from zero. */
  ghost predicate GoesOn(a: Accepted, k: nat, limits: Limits, respond: Accepted -> bool) {
    a.head.keepAlive && k + 1 < limits.requests && respond(a)
  }

  /** From the bytes `at[k]` the request `log[k]` is accepted, and `at[k + 1]` is left. */
  ghost predicate Taken(at: seq<string>, log: seq<Accepted>, k: nat, limits: Limits, parse: string -> Option<Head>)
    requires k < |log| && |at| == |log| + 1
  {
    RequestOf(at[k], limits, parse) == (Request(log[k].head, log[k].body), at[k + 1])
  }

  /** Why a session is over with the bytes `end` before request `k`. */
  ghost predicate Over(end: string, s: Session, k: nat, limits: Limits, parse: string -> Option<Head>,
                       respond: Accepted -> bool)
    requires k >= |s.log|
  {
    var n := |s.log|;
    if k >= limits.requests || (n > 0 && !GoesOn(s.log[n - 1], k - 1, limits, respond))
    then !s.refused && s.rest == end
    else
      var (last, rest) := RequestOf(end, limits, parse);
      !last.Request? && s.rest == rest && s.refused == last.Refused?
  }

  lemma OverRest(end: string, s: Session, k: nat, limits: Limits, parse: string -> Option<Head>,
                 respond: Accepted -> bool)
    requires k >= |s.log| && s.log != [] && (|s.log| == 1 ==> GoesOn(s.log[0], k - 1, limits, respond))
    ensures Over(end, s, k, limits, parse, respond) <==>
            Over(end, s.(log := s.log[1..]), k, limits, parse, respond)
  {
    hide RequestOf, GoesOn;
    if |s.log| > 1 {
      assert s.log[1..][|s.log| - 2] == s.log[|s.log| - 1];
    }
  }

  /** `at[k]` are the bytes before request `k` of a session that begins with request
      `count`: each accepted request leaves the bytes of the next, all but perhaps the
      last keep the connection, and what ends it is the last one, the count, the end
      of input, or a refusal. */
  ghost predicate Chain(at: seq<string>, s: Session, count: nat, limits: Limits, parse: string -> Option<Head>,
                        respond: Accepted -> bool) {
    && |at| == |s.log| + 1
    && (s.log != [] ==> count + |s.log| <= limits.requests)
    && (forall k :: 0 <= k < |s.log| ==> Taken(at, s.log, k, limits, parse))
    && (forall k :: 0 <= k < |s.log| - 1 ==> GoesOn(s.log[k], count + k, limits, respond))
    && Over(at[|s.log|], s, count + |s.log|, limits, parse, respond)
  }

  lemma {:induction false} ServedInOrder(flat: string, count: nat, limits: Limits, parse: string -> Option<Head>,
                                         respond: Accepted -> bool) returns (at: seq<string>)
    ensures Chain(at, Serve(flat, count, limits, parse, respond), count, limits, parse, respond) && at[0] == flat
    decreases limits.requests - count
  {
    hide RequestOf, GoesOn;
    at := [flat];
    if count < limits.requests {
      var (first, rest) := RequestOf(flat, limits, parse);
      if first.Request? {
        var here := Accepted(first.head, first.body);
        KeptIf(here, count, limits, respond);
        if GoesOn(here, count, limits, respond) {
          var more := ServedInOrder(rest, count + 1, limits, parse, respond);
          at := [flat] + more;
          var tail := Serve(rest, count + 1, limits, parse, respond);
          ChainStep(flat, here, more, tail, count, limits, parse, respond);
        } else {
          at := [flat, rest];
        }
      }
    }
  }

  lemma KeptIf(a: Accepted, k: nat, limits: Limits, respond: Accepted -> bool)
    ensures GoesOn(a, k, limits, respond) <==> a.head.keepAlive && k + 1 < limits.requests && respond(a)
  {
  }

  lemma ChainStep(flat: string, here: Accepted, more: seq<string>, tail: Session, count: nat, limits: Limits,
                  parse: string -> Option<Head>, respond: Accepted -> bool)
    requires Chain(more, tail, count + 1, limits, parse, respond) && GoesOn(here, count, limits, respond)
    requires RequestOf(flat, limits, parse) == (Request(here.head, here.body), more[0]) && count < limits.requests
    ensures Chain([flat] + more, tail.(log := [here] + tail.log), count, limits, parse, respond)
  {
    hide RequestOf, GoesOn;
    var log, at := [here] + tail.log, [flat] + more;
    assert at[|log|] == more[|tail.log|];
    assert Taken(at, log, 0, limits, parse);
    forall k | 0 < k < |log|
      ensures Taken(at, log, k, limits, parse)
    {
      assert Taken(more, tail.log, k - 1, limits, parse);
    }
    forall k | 0 < k < |log| - 1
      ensures GoesOn(log[k], count + k, limits, respond)
    {
      assert GoesOn(tail.log[k - 1], count + 1 + (k - 1), limits, respond);
    }
    var s := tail.(log := log);
    assert s.log[1..] == tail.log && s.(log := s.log[1..]) == tail;
    OverRest(at[|log|], s, count + |log|, limits, parse, respond);
  }

  /** There is only one such session, the one `connection` serves. */
  lemma {:induction false} OnlyServed(at: seq<string>, s: Session, count: nat, limits: Limits,
                                      parse: string -> Option<Head>, respond: Accepted -> bool)
    requires Chain(at, s, count, limits, parse, respond)
    ensures s == Serve(at[0], count, limits, parse, respond)
    decreases |s.log|
  {
    hide RequestOf, GoesOn;
    if s.log == [] {
      assert Over(at[0], s, count, limits, parse, respond);
      if count < limits.requests {
        var (last, rest) := RequestOf(at[0], limits, parse);
        assert !last.Request? && Serve(at[0], count, limits, parse, respond).rest == rest;
      }
    } else {
      var here := s.log[0];
      assert Taken(at, s.log, 0, limits, parse);
      KeptIf(here, count, limits, respond);
      if GoesOn(here, count, limits, respond) {
        var tail := s.(log := s.log[1..]);
        ChainRest(at, s, count, limits, parse, respond);
        OnlyServed(at[1..], tail, count + 1, limits, parse, respond);
        assert s.log == [here] + tail.log;
      } else {
        assert |s.log| == 1;
        assert s.log == [here];
      }
    }
  }

  lemma ChainRest(at: seq<string>, s: Session, count: nat, limits: Limits, parse: string -> Option<Head>,
                  respond: Accepted -> bool)
    requires Chain(at, s, count, limits, parse, respond) && s.log != []
    requires GoesOn(s.log[0], count, limits, respond)
    ensures Chain(at[1..], s.(log := s.log[1..]), count + 1, limits, parse, respond)
  {
    hide RequestOf, GoesOn;
    var log, rest := s.log[1..], at[1..];
    assert rest[|log|] == at[|s.log|];
    forall k | 0 <= k < |log|
      ensures Taken(rest, log, k, limits, parse)
    {
      assert Taken(at, s.log, k + 1, limits, parse);
    }
    forall k | 0 <= k < |log| - 1
      ensures GoesOn(log[k], count + 1 + k, limits, respond)
    {
      assert GoesOn(s.log[k + 1], count + (k + 1), limits, respond);
    }
    OverRest(at[|s.log|], s, count + |s.log|, limits, parse, respond);
  }
}
