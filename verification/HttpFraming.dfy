/** The chunked bodies that are accepted, as section 7.1 of RFC 9112 writes them:
    chunks, a last chunk, trailer fields, and an empty line. */
module HttpFraming {
  import opened Basics
  import opened HttpChunks
  import opened HttpText

  datatype Chunk = Chunk(line: string, data: string)

  datatype Framing = Framing(chunks: seq<Chunk>, last: string, trailers: seq<string>)

  /** The text of chunks, with what follows them. */
  ghost function ChunksText(cs: seq<Chunk>, after: string): string {
    if cs == [] then after
    else cs[0].line + ("\r\n" + (cs[0].data + ("\r\n" + ChunksText(cs[1..], after))))
  }

  ghost function TrailersText(ts: seq<string>, after: string): string {
    if ts == [] then "\r\n" + after else ts[0] + ("\r\n" + TrailersText(ts[1..], after))
  }

  ghost function Text(f: Framing, after: string): string {
    ChunksText(f.chunks, f.last + ("\r\n" + TrailersText(f.trailers, after)))
  }

  ghost function Data(cs: seq<Chunk>): string {
    if cs == [] then "" else cs[0].data + Data(cs[1..])
  }

  ghost function ChunksCost(cs: seq<Chunk>): nat {
    if cs == [] then 0 else |cs[0].line| + 2 + |cs[0].data| + 2 + ChunksCost(cs[1..])
  }

  ghost function TrailersCost(ts: seq<string>): nat {
    if ts == [] then 2 else |ts[0]| + 2 + TrailersCost(ts[1..])
  }

  ghost predicate NoCrlf(line: string) {
    forall k: nat :: !Occurs(line, k, "\r\n")
  }

  /** A chunk, whose line states its size, within the line limit. */
  ghost predicate ChunkOk(c: Chunk, limit: nat) {
    NoCrlf(c.line) && IsChunkLine(c.line, |c.data|) && |c.data| > 0 && |c.line| + 2 <= limit
  }

  ghost predicate ChunksOk(cs: seq<Chunk>, limit: nat) {
    forall k :: 0 <= k < |cs| ==> ChunkOk(cs[k], limit)
  }

  ghost predicate LastOk(last: string, limit: nat) {
    NoCrlf(last) && IsChunkLine(last, 0) && |last| + 2 <= limit
  }

  ghost predicate TrailersOk(ts: seq<string>) {
    forall k :: 0 <= k < |ts| ==> ts[k] != "" && NoCrlf(ts[k]) && TrailerField(ts[k])
  }

  /** Well formed, and within every budget of a request whose head took `size`. */
  ghost predicate Fits(f: Framing, size: nat, limits: Limits)
    requires size <= limits.header
  {
    && ChunksOk(f.chunks, limits.header) && LastOk(f.last, limits.header) && TrailersOk(f.trailers)
    && |Data(f.chunks)| <= limits.body
    && ChunksCost(f.chunks) + |f.last| + 2 + TrailersCost(f.trailers) <= limits.wire
    && TrailersCost(f.trailers) <= limits.header - size + 2
  }

  // ----- lines -----

  /** A line ends at the first CRLF. */
  lemma LineEnds(line: string, after: string)
    requires NoCrlf(line)
    ensures Find(line + ("\r\n" + after), "\r\n") == Some(|line|)
  {
    var s := line + ("\r\n" + after);
    assert s[|line|..|line| + 2] == "\r\n";
    assert Occurs(s, |line|, "\r\n");
    forall k: nat | k < |line|
      ensures !Occurs(s, k, "\r\n")
    {
      if k + 2 <= |line| {
        assert !Occurs(line, k, "\r\n");
        assert s[k..k + 2] == line[k..k + 2];
      } else {
        assert s[k + 1] == '\r';
        assert s[k..k + 2][1] == '\r';
      }
    }
  }

  lemma LineRead(line: string, after: string, wire: nat, limit: nat)
    requires NoCrlf(line) && |line| + 2 <= wire && |line| + 2 <= limit
    ensures LineOf(line + ("\r\n" + after), wire, limit) == Some(line)
    ensures (line + ("\r\n" + after))[|line| + 2..] == after
  {
    hide Find, NoCrlf;
    LineEnds(line, after);
  }

  lemma LineHasNone(flat: string, wire: nat, limit: nat)
    requires LineOf(flat, wire, limit).Some?
    ensures NoCrlf(LineOf(flat, wire, limit).value)
  {
    var line := LineOf(flat, wire, limit).value;
    forall k: nat
      ensures !Occurs(line, k, "\r\n")
    {
      if k + 2 <= |line| {
        assert !Occurs(flat, k, "\r\n");
        assert line[k..k + 2] == flat[k..k + 2];
      }
    }
  }

  lemma SizeIs(line: string, size: nat)
    requires IsChunkLine(line, size)
    ensures ChunkSize(line) == Some(size)
  {
    hide IsExts, HexNumber;
    forall n | 0 < n <= |line| && HexDigits(line[..n]) && IsExts(line[n..])
      ensures n == HexLen(line, 0)
    {
      DigitsEnd(line, n);
    }
  }

  // ----- printing a framing and reading it -----

  lemma {:induction false} ChunksRead(cs: seq<Chunk>, last: string, after: string, wire: nat, body: string, limits: Limits)
    requires ChunksOk(cs, limits.header) && LastOk(last, limits.header)
    requires |body| + |Data(cs)| <= limits.body && ChunksCost(cs) + |last| + 2 <= wire
    ensures Chunks(ChunksText(cs, last + ("\r\n" + after)), wire, body, limits)
            == Some(Rest(body + Data(cs), after, wire - ChunksCost(cs) - |last| - 2))
    decreases |cs|
  {
    hide Chunks, LineOf, IsChunkLine, NoCrlf;
    var flat := ChunksText(cs, last + ("\r\n" + after));
    ChunksStep(flat, wire, body, limits);
    if cs == [] {
      LineRead(last, after, wire, limits.header);
      SizeIs(last, 0);
      assert body + "" == body;
    } else {
      var c, more := cs[0], ChunksText(cs[1..], last + ("\r\n" + after));
      var tail := "\r\n" + more;
      assert ChunkOk(c, limits.header);
      LineRead(c.line, c.data + tail, wire, limits.header);
      SizeIs(c.line, |c.data|);
      assert (c.data + tail)[|c.data|..] == tail && (c.data + tail)[..|c.data|] == c.data;
      assert tail[..2] == "\r\n" && tail[2..] == more;
      assert |Data(cs)| == |c.data| + |Data(cs[1..])|;
      assert ChunksOk(cs[1..], limits.header);
      ChunksRead(cs[1..], last, after, wire - |c.line| - 2 - |c.data| - 2, body + c.data, limits);
      assert (body + c.data) + Data(cs[1..]) == body + Data(cs);
    }
  }

  lemma {:induction false} TrailersRead(ts: seq<string>, after: string, wire: nat, budget: nat)
    requires TrailersOk(ts) && TrailersCost(ts) <= wire && TrailersCost(ts) <= budget
    ensures Trailers(TrailersText(ts, after), wire, budget) == Some(after)
    decreases |ts|
  {
    hide LineOf, NoCrlf, TrailerField;
    if ts == [] {
      NoCrlfInNothing();
      LineRead("", after, wire, budget);
      assert "" + ("\r\n" + after) == "\r\n" + after;
    } else {
      assert ts[0] != "" && NoCrlf(ts[0]) && TrailerField(ts[0]);
      CostPositive(ts[1..]);
      LineRead(ts[0], TrailersText(ts[1..], after), wire, budget);
      TrailersRead(ts[1..], after, wire - |ts[0]| - 2, budget - |ts[0]| - 2);
    }
  }

  lemma NoCrlfInNothing()
    ensures NoCrlf("")
  {
  }

  lemma CostPositive(ts: seq<string>)
    ensures TrailersCost(ts) >= 2
  {
  }

  // ----- reading a body and finding its framing -----

  lemma {:induction false} ChunksFound(flat: string, wire: nat, body: string, limits: Limits)
    returns (cs: seq<Chunk>, last: string)
    requires |body| <= limits.body && Chunks(flat, wire, body, limits).Some?
    ensures var r := Chunks(flat, wire, body, limits).value;
            && ChunksOk(cs, limits.header) && LastOk(last, limits.header)
            && flat == ChunksText(cs, last + ("\r\n" + r.flat))
            && r.body == body + Data(cs)
            && r.wire == wire - ChunksCost(cs) - |last| - 2
    decreases |flat|
  {
    hide Chunks, LineOf, IsChunkLine, NoCrlf;
    ChunksStep(flat, wire, body, limits);
    var line := LineOf(flat, wire, limits.header).value;
    var size := ChunkSize(line).value;
    LineHasNone(flat, wire, limits.header);
    if size == 0 {
      cs, last := [], line;
      assert body + "" == body;
    } else {
      var data := flat[|line| + 2..];
      var tail := data[size..];
      var rest;
      rest, last := ChunksFound(tail[2..], wire - |line| - 2 - size - 2, body + data[..size], limits);
      var c := Chunk(line, data[..size]);
      cs := [c] + rest;
      assert cs[1..] == rest;
      assert tail == "\r\n" + tail[2..];
      assert data == data[..size] + tail;
      assert (body + data[..size]) + Data(rest) == body + Data(cs);
    }
  }

  lemma {:induction false} TrailersFound(flat: string, wire: nat, budget: nat) returns (ts: seq<string>)
    requires Trailers(flat, wire, budget).Some?
    ensures TrailersOk(ts) && flat == TrailersText(ts, Trailers(flat, wire, budget).value)
    ensures TrailersCost(ts) <= wire && TrailersCost(ts) <= budget
    decreases |flat|
  {
    hide LineOf, TrailerField, NoCrlf;
    var line := LineOf(flat, wire, budget).value;
    var n := |line| + 2;
    LineHasNone(flat, wire, budget);
    if line == "" {
      ts := [];
      assert line + ("\r\n" + flat[n..]) == "\r\n" + flat[n..];
    } else {
      var rest := TrailersFound(flat[n..], wire - n, budget - n);
      ts := [line] + rest;
      assert ts[1..] == rest;
    }
  }

  /** A chunked body is accepted exactly when it is a framing within the limits,
      and it is the concatenation of its chunks' data. */
  lemma AcceptedBodies(flat: string, head: Head, size: nat, limits: Limits, body: string, rest: string)
    requires size <= limits.header && head.chunked && head.length == 0
    ensures BodyOf(flat, head, size, limits) == Some(Message(body, rest))
            <==> exists f :: Fits(f, size, limits) && Text(f, rest) == flat && Data(f.chunks) == body
  {
    hide Chunks, Trailers, ChunksOk, LastOk, TrailersOk, ChunksText, TrailersText, Data;
    if BodyOf(flat, head, size, limits) == Some(Message(body, rest)) {
      var cs, last := ChunksFound(flat, limits.wire, "", limits);
      var r := Chunks(flat, limits.wire, "", limits).value;
      var ts := TrailersFound(r.flat, r.wire, limits.header - size + 2);
      var f := Framing(cs, last, ts);
      assert "" + Data(cs) == Data(cs);
      assert Fits(f, size, limits) && Text(f, rest) == flat && Data(f.chunks) == body;
    }
    if f :| Fits(f, size, limits) && Text(f, rest) == flat && Data(f.chunks) == body {
      var after := TrailersText(f.trailers, rest);
      ChunksRead(f.chunks, f.last, after, limits.wire, "", limits);
      assert "" + Data(f.chunks) == body;
      TrailersRead(f.trailers, rest, limits.wire - ChunksCost(f.chunks) - |f.last| - 2, limits.header - size + 2);
    }
  }

  lemma {:induction false} ChunksLength(cs: seq<Chunk>, after: string)
    ensures |ChunksText(cs, after)| == ChunksCost(cs) + |after|
  {
    if cs != [] {
      ChunksLength(cs[1..], after);
    }
  }

  lemma {:induction false} TrailersLength(ts: seq<string>, after: string)
    ensures |TrailersText(ts, after)| == TrailersCost(ts) + |after|
  {
    if ts != [] {
      TrailersLength(ts[1..], after);
    }
  }

  /** Every accepted body, and all the bytes it took, are within the limits. */
  lemma WithinLimits(flat: string, head: Head, size: nat, limits: Limits)
    requires size <= limits.header && BodyOf(flat, head, size, limits).Some?
    ensures var m := BodyOf(flat, head, size, limits).value;
            |m.body| <= limits.body && |m.flat| <= |flat| <= |m.flat| + limits.wire
  {
    hide Chunks, Trailers, ChunksText, TrailersText, Data, ChunksOk, TrailersOk, LastOk, ChunksCost, TrailersCost;
    if head.chunked {
      var cs, last := ChunksFound(flat, limits.wire, "", limits);
      var r := Chunks(flat, limits.wire, "", limits).value;
      var ts := TrailersFound(r.flat, r.wire, limits.header - size + 2);
      var rest := BodyOf(flat, head, size, limits).value.flat;
      ChunksLength(cs, last + ("\r\n" + r.flat));
      TrailersLength(ts, rest);
      assert |last + ("\r\n" + r.flat)| == |last| + 2 + |r.flat|;
    }
  }

  // ----- bodies of stated length, fields, whole requests -----

  /** A body of stated length is accepted exactly when it is that many of the bytes,
      within both limits. */
  lemma StatedBodies(flat: string, head: Head, size: nat, limits: Limits, body: string, rest: string)
    requires size <= limits.header && !head.chunked
    ensures BodyOf(flat, head, size, limits) == Some(Message(body, rest))
            <==> flat == body + rest && |body| == head.length <= limits.body && head.length <= limits.wire
  {
    if flat == body + rest && |body| == head.length {
      assert flat[..head.length] == body && flat[head.length..] == rest;
    }
    if |flat| >= head.length {
      assert flat == flat[..head.length] + flat[head.length..];
    }
  }

  /** A field line is a token, a colon and a value without controls (section 5 of RFC 9112). */
  lemma FieldIs(line: string, name: string)
    ensures FieldName(line) == Some(name)
            <==> exists value :: line == name + (":" + value) && Token(name) && All(value, FieldChar)
  {
    if FieldName(line) == Some(name) {
      var k := Find(line, ":").value;
      var value := line[k + 1..];
      assert line[k..k + 1] == ":";
      assert line == name + (":" + value);
    }
    if value :| line == name + (":" + value) && Token(name) && All(value, FieldChar) {
      NoColon(name, value);
      assert line[..|name|] == name && line[|name| + 1..] == value;
    }
  }

  lemma NoColon(name: string, value: string)
    requires Token(name)
    ensures Find(name + (":" + value), ":") == Some(|name|)
  {
    var line := name + (":" + value);
    assert line[|name|..|name| + 1] == ":";
    assert Occurs(line, |name|, ":");
    forall k: nat | k < |name|
      ensures !Occurs(line, k, ":")
    {
      assert line[k..k + 1] == [name[k]] && TokenChar(name[k]);
    }
  }

  /** A head ends with the first empty line, within the limit. */
  ghost predicate HeadText(text: string, limits: Limits) {
    4 <= |text| <= limits.header && Find(text, "\r\n\r\n") == Some(|text| - 4)
  }

  lemma HeadIs(flat: string, limits: Limits, text: string, rest: string)
    requires flat == text + rest
    ensures HeadSize(flat, limits) == Some(|text|) <==> HeadText(text, limits)
  {
    hide Find;
    FindArrived(text, rest, "\r\n\r\n");
    if HeadSize(flat, limits) == Some(|text|) {
      FoundWithin(text, rest, "\r\n\r\n");
    }
  }

  lemma FoundWithin(p: string, u: string, pat: string)
    requires Find(p + u, pat).Some? && Find(p + u, pat).value + |pat| <= |p|
    ensures Find(p, pat) == Find(p + u, pat)
  {
    hide Find;
    FindArrived(p, u, pat);
  }

  /** A request is accepted exactly when the bytes are a head the parser takes, then a
      body accepted behind it, then the bytes left. */
  lemma RequestIs(flat: string, limits: Limits, parse: string -> Option<Head>, head: Head, body: string, rest: string)
    ensures RequestOf(flat, limits, parse) == (Request(head, body), rest)
            <==> exists text, more ::
                   && flat == text + more && HeadText(text, limits) && parse(text) == Some(head)
                   && BodyOf(more, head, |text|, limits) == Some(Message(body, rest))
  {
    hide BodyOf, BodyLeft, HeadSize, Find;
    if RequestOf(flat, limits, parse) == (Request(head, body), rest) {
      var n := HeadSize(flat, limits).value;
      var text, more := flat[..n], flat[n..];
      assert flat == text + more;
      HeadIs(flat, limits, text, more);
      HeadFits(text, limits);
    }
    if text, more :| flat == text + more && HeadText(text, limits) && parse(text) == Some(head)
                     && BodyOf(more, head, |text|, limits) == Some(Message(body, rest)) {
      HeadIs(flat, limits, text, more);
      HeadFits(text, limits);
      assert flat[..|text|] == text && flat[|text|..] == more;
    }
  }

  lemma HeadFits(text: string, limits: Limits)
    requires HeadText(text, limits)
    ensures |text| <= limits.header && |text| >= 4
  {
  }

  // ----- trailers -----

  const Capitals: string := "ABCDEFGHIJKLMNOPQRSTUVWXYZ"
  const Smalls: string := "abcdefghijklmnopqrstuvwxyz"

  /** `small` is the name in small letters. */
  ghost predicate InSmalls(name: string, small: string) {
    |name| == |small| && forall k :: 0 <= k < |name| ==> SmallOf(name[k], small[k])
  }

  ghost predicate SmallOf(c: char, small: char) {
    (exists k :: 0 <= k < 26 && c == Capitals[k] && small == Smalls[k]) || (c !in Capitals && small == c)
  }

  lemma SmallIs(c: char, small: char)
    ensures SmallOf(c, small) <==> small == Lower(c)
  {
    if 'A' <= c <= 'Z' {
      var k := c as int - 'A' as int;
      LetterAt(k);
    }
    forall k | 0 <= k < 26
      ensures Capitals[k] as int == 'A' as int + k && Smalls[k] as int == 'a' as int + k
    {
      LetterAt(k);
    }
  }

  lemma LetterAt(k: nat)
    requires k < 26
    ensures Capitals[k] as int == 'A' as int + k && Smalls[k] as int == 'a' as int + k
  {
  }

  /** A trailer line is a field that is none of the two that frame the message, in
      whatever letters they are spelled. */
  lemma TrailerIs(line: string)
    ensures TrailerField(line) <==>
            exists name, value :: && line == name + (":" + value) && Token(name) && All(value, FieldChar)
                                  && !InSmalls(name, "content-length") && !InSmalls(name, "transfer-encoding")
  {
    hide FieldName, SameName, InSmalls, Token;
    if TrailerField(line) {
      var name := FieldName(line).value;
      FieldIs(line, name);
      FramingNames(name);
    }
    if name, value :| && line == name + (":" + value) && Token(name) && All(value, FieldChar)
                      && !InSmalls(name, "content-length") && !InSmalls(name, "transfer-encoding") {
      FieldIs(line, name);
      FramingNames(name);
    }
  }

  lemma FramingNames(name: string)
    ensures SameName(name, "Content-Length") <==> InSmalls(name, "content-length")
    ensures SameName(name, "Transfer-Encoding") <==> InSmalls(name, "transfer-encoding")
  {
    Spelled(name, "Content-Length", "content-length");
    Spelled(name, "Transfer-Encoding", "transfer-encoding");
  }

  lemma Spelled(name: string, a: string, small: string)
    requires |a| == |small| && forall k :: 0 <= k < |a| ==> Lower(a[k]) == small[k]
    ensures SameName(name, a) <==> InSmalls(name, small)
  {
    hide SmallOf;
    forall k | 0 <= k < |name| && |name| == |a|
      ensures SmallOf(name[k], small[k]) <==> Lower(name[k]) == Lower(a[k])
    {
      SmallIs(name[k], small[k]);
    }
  }
}
