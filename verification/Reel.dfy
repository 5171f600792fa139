/** Borrowed chunk views, src/nxtrt/buffer-core.hpp: read as one sequence. */
module Chunks {
  import opened Basics

  ghost function Flat<T>(chunks: seq<seq<T>>): seq<T> {
    if chunks == [] then [] else chunks[0] + Flat(chunks[1..])
  }

  /** As the views keep them: nothing empty among them. */
  ghost predicate Kept<T>(chunks: seq<seq<T>>) {
    forall k :: 0 <= k < |chunks| ==> chunks[k] != []
  }

  lemma {:induction false} FlatSplit<T>(a: seq<seq<T>>, b: seq<seq<T>>)
    ensures Flat(a + b) == Flat(a) + Flat(b)
  {
    if a == [] {
      assert a + b == b;
    } else {
      assert (a + b)[1..] == a[1..] + b;
      FlatSplit(a[1..], b);
    }
  }

  lemma FlatSnoc<T>(chunks: seq<seq<T>>, i: nat)
    requires i < |chunks|
    ensures Flat(chunks[..i + 1]) == Flat(chunks[..i]) + chunks[i]
    ensures Flat(chunks) == Flat(chunks[..i]) + (chunks[i] + Flat(chunks[i + 1..]))
  {
    FlatSplit(chunks[..i], [chunks[i]]);
    assert chunks[..i + 1] == chunks[..i] + [chunks[i]];
    FlatOne(chunks[i]);
    FlatSplit(chunks[..i], chunks[i..]);
    assert chunks == chunks[..i] + chunks[i..];
    assert chunks[i..][1..] == chunks[i + 1..];
  }

  lemma FlatOne<T>(c: seq<T>)
    ensures Flat([c]) == c
  {
    assert [c][1..] == [];
    assert c + [] == c;
  }

  /** `append`: an empty chunk is dropped. */
  method Append<T(==)>(chunks: seq<seq<T>>, chunk: seq<T>) returns (r: seq<seq<T>>)
    requires Kept(chunks)
    ensures Kept(r) && Flat(r) == Flat(chunks) + chunk && |chunks| <= |r| <= |chunks| + 1
  {
    if |chunk| == 0 {
      assert Flat(chunks) + chunk == Flat(chunks);
      return chunks;
    }
    FlatSplit(chunks, [chunk]);
    FlatOne(chunk);
    r := chunks + [chunk];
  }

  method Size<T>(chunks: seq<seq<T>>) returns (total: nat)
    ensures total == |Flat(chunks)|
  {
    total := 0;
    for i := 0 to |chunks|
      invariant total == |Flat(chunks[..i])|
    {
      FlatSnoc(chunks, i);
      total := total + |chunks[i]|;
    }
    assert chunks[..|chunks|] == chunks;
  }

  /** `tls_chunk_u8` and `abridged_u8`: the value at an index, if it is there. */
  method At<T>(chunks: seq<seq<T>>, index: nat) returns (c: Option<T>)
    ensures c == if index < |Flat(chunks)| then Some(Flat(chunks)[index]) else None
  {
    var left: nat := index;
    for i := 0 to |chunks|
      invariant left + |Flat(chunks[..i])| == index
    {
      FlatSnoc(chunks, i);
      if left < |chunks[i]| {
        return Some(chunks[i][left]);
      }
      left := left - |chunks[i]|;
    }
    assert chunks[..|chunks|] == chunks;
    c := None;
  }

  function Min(a: nat, b: nat): nat {
    if a < b then a else b
  }

  /** `subspan`: never more chunks than there were. */
  method Subspan<T(==)>(chunks: seq<seq<T>>, offset: nat, count: nat) returns (out: seq<seq<T>>)
    requires Kept(chunks)
    ensures Kept(out) && |out| <= |chunks|
    ensures var flat := Flat(chunks);
            var from := Min(offset, |flat|);
            Flat(out) == flat[from..Min(from + count, |flat|)]
  {
    hide Flat;
    out := [];
    var skip: nat, due: nat := offset, count;
    ghost var flat := Flat(chunks);
    FlatNone(chunks);
    for i := 0 to |chunks|
      invariant Kept(out) && |out| <= i && |Flat(chunks[..i])| <= |flat|
      invariant Taken(flat, |Flat(chunks[..i])|, offset, count, skip, due, Flat(out))
    {
      FlatSnoc(chunks, i);
      ghost var n := |Flat(chunks[..i])|;
      var chunk := chunks[i];
      InPlace(flat, Flat(chunks[..i]), chunk, Flat(chunks[i + 1..]));
      if skip >= |chunk| {
        skip := skip - |chunk|;
        continue;
      }
      var rest := chunk[skip..];
      var take := Min(due, |rest|);
      More(flat, n, chunk, offset, count, skip, due, Flat(out));
      skip := 0;
      out := Append(out, rest[..take]);
      due := due - take;
      if due == 0 {
        return;
      }
    }
    assert chunks[..|chunks|] == chunks;
  }

  /** What `out` holds once the first `n` values have been passed. */
  ghost predicate Taken<T>(flat: seq<T>, n: nat, offset: nat, count: nat, skip: nat, due: nat, out: seq<T>) {
    && n <= |flat|
    && if n <= offset then skip == offset - n && due == count && out == []
       else skip == 0 && due <= count && offset + (count - due) == n && out == flat[offset..n]
  }

  lemma FlatNone<T>(chunks: seq<seq<T>>)
    ensures Flat(chunks[..0]) == [] && Flat<T>([]) == []
  {
  }

  lemma InPlace<T>(flat: seq<T>, before: seq<T>, chunk: seq<T>, after: seq<T>)
    requires flat == before + (chunk + after)
    ensures |before| + |chunk| <= |flat| && flat[|before|..|before| + |chunk|] == chunk
  {
  }

  lemma More<T>(flat: seq<T>, n: nat, chunk: seq<T>, offset: nat, count: nat, skip: nat, due: nat, out: seq<T>)
    requires n + |chunk| <= |flat| && flat[n..n + |chunk|] == chunk && skip < |chunk|
    requires Taken(flat, n, offset, count, skip, due, out)
    ensures var take := Min(due, |chunk| - skip);
            var got := out + chunk[skip..][..take];
            && (take == due ==> offset + count <= |flat| && got == flat[offset..offset + count])
            && (take < due ==> Taken(flat, n + |chunk|, offset, count, 0, due - take, got))
  {
    var take := Min(due, |chunk| - skip);
    SliceOf(flat, n, n + |chunk|, skip, take);
    if n > offset {
      Adjacent(flat, offset, n, n + take);
    }
  }

  lemma SliceOf<T>(s: seq<T>, a: nat, b: nat, skip: nat, take: nat)
    requires a <= b <= |s| && skip + take <= b - a
    ensures s[a..b][skip..][..take] == s[a + skip..a + skip + take]
  {
    var x, y := s[a..b][skip..][..take], s[a + skip..a + skip + take];
    assert |x| == |y| == take;
    forall k | 0 <= k < take
      ensures x[k] == y[k]
    {
      assert x[k] == s[a..b][skip + k] == s[a + (skip + k)];
      assert y[k] == s[a + skip + k];
    }
  }

  lemma Adjacent<T>(s: seq<T>, a: nat, b: nat, c: nat)
    requires a <= b <= c <= |s|
    ensures s[a..b] + s[b..c] == s[a..c]
  {
  }
}

/** Frames cut off the front of a stream, src/nxtrt/buffers.hpp. */
module Reels {
  import opened Basics

  /** `chop_scan_result`: a frame and its extent, or how much must be visible. */
  datatype Scan<F> = Frame(extent: nat, frame: F) | NeedMore(minimum: nat)

  /** What a reel relies on: a frame is recognised from its own bytes on, whatever
      follows them, and an incomplete one never asks for more than it is. */
  ghost predicate Honest<T(!new), F(!new)>(scan: seq<T> -> Scan<F>) {
    && (forall b :: scan(b).Frame? ==> 0 < scan(b).extent <= |b|)
    && (forall b, c | b <= c :: scan(b).Frame? ==> scan(c) == scan(b))
    && (forall b, c | b <= c :: scan(c).Frame? && scan(c).extent <= |b| ==> scan(b) == scan(c))
    && (forall b, c | b <= c :: scan(b).NeedMore? && scan(c).Frame? ==> scan(b).minimum <= scan(c).extent)
  }

  lemma HonestAt<T(!new), F(!new)>(scan: seq<T> -> Scan<F>, b: seq<T>)
    requires Honest(scan)
    ensures scan(b).Frame? ==> 0 < scan(b).extent <= |b|
  {
  }

  lemma HonestMore<T(!new), F(!new)>(scan: seq<T> -> Scan<F>, b: seq<T>, more: seq<T>)
    requires Honest(scan)
    ensures var s, t := scan(b), scan(b + more);
            && (s.Frame? ==> t == s)
            && (t.Frame? && t.extent <= |b| ==> s == t)
            && (s.NeedMore? && t.Frame? ==> |b| < t.extent && s.minimum <= t.extent)
  {
    assert b <= b + more;
  }

  /** The frames of a stream. */
  ghost function Frames<T, F>(scan: seq<T> -> Scan<F>, flat: seq<T>): seq<F>
    decreases |flat|
  {
    if flat == [] || !scan(flat).Frame? || !(0 < scan(flat).extent <= |flat|) then []
    else [scan(flat).frame] + Frames(scan, flat[scan(flat).extent..])
  }

  /** Where the first `n` of them end. */
  ghost function End<T, F>(scan: seq<T> -> Scan<F>, flat: seq<T>, n: nat): (e: nat)
    requires n <= |Frames(scan, flat)|
    ensures e <= |flat|
    decreases n
  {
    if n == 0 then 0 else scan(flat).extent + End(scan, flat[scan(flat).extent..], n - 1)
  }

  lemma Prefix<T>(b: seq<T>, more: seq<T>, i: nat)
    requires i <= |b|
    ensures b <= b + more && b[i..] + more == (b + more)[i..]
  {
  }

  /** Frames that are visible are frames of the stream. */
  lemma {:induction false} VisibleFrames<T(!new), F(!new)>(scan: seq<T> -> Scan<F>, b: seq<T>, more: seq<T>)
    requires Honest(scan)
    ensures Frames(scan, b) <= Frames(scan, b + more)
    ensures End(scan, b, |Frames(scan, b)|) == End(scan, b + more, |Frames(scan, b)|)
    decreases |b|
  {
    hide Honest;
    if b != [] && scan(b).Frame? {
      var e := scan(b).extent;
      HonestAt(scan, b);
      HonestMore(scan, b, more);
      Prefix(b, more, e);
      VisibleFrames(scan, b[e..], more);
    }
  }

  lemma {:induction false} AfterFrames<T, F>(scan: seq<T> -> Scan<F>, flat: seq<T>, n: nat)
    requires n <= |Frames(scan, flat)|
    ensures Frames(scan, flat[End(scan, flat, n)..]) == Frames(scan, flat)[n..]
    decreases n
  {
    if n > 0 {
      var rest := flat[scan(flat).extent..];
      AfterFrames(scan, rest, n - 1);
      assert flat[End(scan, flat, n)..] == rest[End(scan, rest, n - 1)..];
    }
  }

  lemma {:induction false} EndStep<T, F>(scan: seq<T> -> Scan<F>, flat: seq<T>, n: nat)
    requires n < |Frames(scan, flat)|
    ensures var rest := flat[End(scan, flat, n)..];
            && rest != [] && scan(rest).Frame? && 0 < scan(rest).extent <= |rest|
            && End(scan, flat, n + 1) == End(scan, flat, n) + scan(rest).extent
    decreases n
  {
    if n > 0 {
      var rest := flat[scan(flat).extent..];
      EndStep(scan, rest, n - 1);
      assert flat[End(scan, flat, n)..] == rest[End(scan, rest, n - 1)..];
    }
  }

  /** A feed with its buffer, and what has not arrived. */
  class Feed<T> {
    const capacity: nat
    var buffered: seq<T>
    var unread: seq<T>

    ghost predicate Valid()
      reads this
    {
      |buffered| <= capacity
    }

    ghost function Flat(): seq<T>
      reads this
    {
      buffered + unread
    }

    constructor (capacity: nat, stream: seq<T>)
      ensures Valid() && this.capacity == capacity && Flat() == stream
    {
      this.capacity := capacity;
      buffered, unread := [], stream;
      new;
      assert [] + stream == stream;
    }

    /** `fill`: too much for the buffer, the end of the stream, or enough. Each
        refill brings a piece of any size the buffer has room for. */
    method Fill(n: nat) returns (r: Filled)
      requires Valid()
      modifies this
      ensures Valid() && Flat() == old(Flat()) && old(buffered) <= buffered
      ensures r.TooSmall? <==> n > capacity
      ensures r.TooSmall? ==> buffered == old(buffered) && unread == old(unread)
      ensures r.Ended? ==> unread == [] && |buffered| < n
      ensures r.Enough? ==> |buffered| >= n
    {
      if n > capacity {
        return TooSmall;
      }
      while |buffered| < n
        invariant Valid() && Flat() == old(Flat()) && old(buffered) <= buffered
        decreases |unread|
      {
        if |unread| == 0 {
          return Ended;
        }
        var k: int := *;
        if k < 1 || k > |unread| || k > capacity - |buffered| {
          k := 1;
        }
        assert (buffered + unread[..k]) + unread[k..] == buffered + unread;
        buffered, unread := buffered + unread[..k], unread[k..];
      }
      r := Enough;
    }

    /** `discard`: drops some of the front, at least one value unless it ended. */
    method Discard(limit: nat) returns (n: nat)
      requires Valid() && limit > 0
      modifies this
      ensures Valid() && n <= limit && n <= |old(Flat())| && Flat() == old(Flat())[n..]
      ensures n == 0 <==> old(Flat()) == []
    {
      if |buffered| == 0 {
        assert buffered + unread == unread;
        if |unread| == 0 {
          return 0;
        }
        var k: int := *;
        if k < 1 || k > |unread| || k > limit {
          k := 1;
        }
        unread := unread[k..];
        assert [] + unread == unread;
        return k;
      }
      n := if |buffered| < limit then |buffered| else limit;
      var k: int := *;
      if 1 <= k < n {
        n := k;
      }
      assert buffered[n..] + unread == (buffered + unread)[n..];
      buffered := buffered[n..];
    }
  }

  datatype Filled = TooSmall | Ended | Enough

  class Reel<T(==, !new), F(!new)> {
    const source: Feed<T>
    const scan: seq<T> -> Scan<F>

    constructor (source: Feed<T>, scan: seq<T> -> Scan<F>)
      ensures this.source == source && this.scan == scan
    {
      this.source, this.scan := source, scan;
    }

    /** The frames in the buffer, as iterating the chop view gives them. */
    method Visible() returns (frames: seq<F>)
      requires Honest(scan)
      ensures frames == Frames(scan, source.buffered)
    {
      hide Honest;
      var b := source.buffered;
      frames := [];
      var offset: nat := 0;
      assert b[0..] == b;
      while offset < |b|
        invariant offset <= |b| && frames + Frames(scan, b[offset..]) == Frames(scan, b)
        decreases |b| - offset
      {
        var suffix := b[offset..];
        var s := scan(suffix);
        HonestAt(scan, suffix);
        if s.NeedMore? {
          break;
        }
        assert suffix[s.extent..] == b[offset + s.extent..];
        assert frames + ([s.frame] + Frames(scan, b[offset + s.extent..]))
            == (frames + [s.frame]) + Frames(scan, b[offset + s.extent..]);
        frames := frames + [s.frame];
        offset := offset + s.extent;
      }
    }

    /** `next_fill_target`: more than is buffered, and not past the end of the
        next frame that is not visible yet. */
    method NextFillTarget() returns (target: nat)
      requires Honest(scan)
      ensures target > |source.buffered|
      ensures var n := |Frames(scan, source.buffered)|;
              forall more :: n < |Frames(scan, source.buffered + more)| ==>
                               target <= End(scan, source.buffered + more, n + 1)
    {
      hide Honest, Frames, End;
      var b := source.buffered;
      var offset: nat := 0;
      ghost var n := 0;
      EndNone(scan, b);
      assert b[0..] == b;
      while true
        invariant n <= |Frames(scan, b)| && offset == End(scan, b, n) <= |b|
        decreases |b| - offset
      {
        var suffix := b[offset..];
        HonestAt(scan, suffix);
        Stops(scan, b, n);
        if |suffix| == 0 {
          TargetBound(scan, b, offset + 1);
          return offset + 1;
        }
        var s := scan(suffix);
        if s.Frame? {
          EndStep(scan, b, n);
          n := n + 1;
          offset := offset + s.extent;
        } else {
          var requested := offset + s.minimum;
          target := if requested < |b| + 1 then |b| + 1 else requested;
          TargetBound(scan, b, target);
          return;
        }
      }
    }

    /** `peek`: false if the buffer is too small for the next frame. */
    method Peek(minimum: nat) returns (ok: bool, frames: seq<F>)
      requires source.Valid() && Honest(scan)
      modifies source
      ensures source.Valid() && source.Flat() == old(source.Flat()) && old(source.buffered) <= source.buffered
      ensures frames == Frames(scan, source.buffered) && frames <= Frames(scan, source.Flat())
      ensures ok && |frames| < minimum ==> source.unread == [] && frames == Frames(scan, source.Flat())
      ensures !ok ==>
                && |frames| < minimum
                && (|frames| < |Frames(scan, source.Flat())| ==>
                      End(scan, source.Flat(), |frames| + 1) > source.capacity)
    {
      hide Honest, Frames, End;
      frames := Visible();
      while |frames| < minimum
        invariant source.Valid() && source.Flat() == old(source.Flat()) && old(source.buffered) <= source.buffered
        invariant frames == Frames(scan, source.buffered)
        decreases |source.unread|
      {
        var target := NextFillTarget();
        ghost var more := source.unread;
        VisibleFrames(scan, source.buffered, more);
        ghost var b := source.buffered;
        var filled := source.Fill(target);
        if filled.TooSmall? {
          return false, frames;
        }
        frames := Visible();
        if filled.Ended? {
          assert source.buffered + source.unread == source.buffered;
          return true, frames;
        }
        Shorter(b, more, source.buffered, source.unread);
      }
      VisibleFrames(scan, source.buffered, source.unread);
      ok := true;
    }

    /** `discard_prefix`. */
    method DiscardPrefix(extent: nat) returns (ok: bool)
      requires source.Valid()
      modifies source
      ensures source.Valid() && (ok <==> extent <= |old(source.Flat())|)
      ensures ok ==> source.Flat() == old(source.Flat())[extent..]
    {
      var remaining: nat := extent;
      ghost var flat := source.Flat();
      while remaining != 0
        invariant source.Valid() && remaining <= extent && extent - remaining <= |flat|
        invariant source.Flat() == flat[extent - remaining..]
      {
        var n := source.Discard(remaining);
        if n == 0 {
          return false;
        }
        remaining := remaining - n;
      }
      ok := true;
    }
  }

  lemma Shorter<T>(b: seq<T>, more: seq<T>, c: seq<T>, rest: seq<T>)
    requires b + more == c + rest && |b| < |c|
    ensures |rest| < |more|
  {
    assert |b + more| == |c + rest|;
  }

  /** A target of what the suffix asks for, or one more value, is in bounds. */
  lemma TargetBound<T(!new), F(!new)>(scan: seq<T> -> Scan<F>, b: seq<T>, target: nat)
    requires Honest(scan)
    requires var offset := End(scan, b, |Frames(scan, b)|);
             target <= |b| + 1 || (scan(b[offset..]).NeedMore? && target <= offset + scan(b[offset..]).minimum)
    ensures var n := |Frames(scan, b)|;
            forall more :: n < |Frames(scan, b + more)| ==> target <= End(scan, b + more, n + 1)
  {
    hide Honest, Frames, End;
    var n := |Frames(scan, b)|;
    var offset := End(scan, b, n);
    forall more | n < |Frames(scan, b + more)|
      ensures target <= End(scan, b + more, n + 1)
    {
      VisibleFrames(scan, b, more);
      EndStep(scan, b + more, n);
      Prefix(b, more, offset);
      HonestAt(scan, b[offset..]);
      Stops(scan, b, n);
      HonestMore(scan, b[offset..], more);
      Beyond(scan, b[offset..], more);
    }
  }

  lemma EndNone<T, F>(scan: seq<T> -> Scan<F>, b: seq<T>)
    ensures End(scan, b, 0) == 0
  {
  }

  /** After `n` frames another one stands in front, or there are no more. */
  lemma Stops<T, F>(scan: seq<T> -> Scan<F>, b: seq<T>, n: nat)
    requires n <= |Frames(scan, b)|
    requires var s := scan(b[End(scan, b, n)..]); s.Frame? ==> 0 < s.extent <= |b| - End(scan, b, n)
    ensures n < |Frames(scan, b)| <==> End(scan, b, n) < |b| && scan(b[End(scan, b, n)..]).Frame?
  {
    AfterFrames(scan, b, n);
  }

  /** Where nothing was recognised, a frame found later ends past what was there. */
  lemma Beyond<T(!new), F(!new)>(scan: seq<T> -> Scan<F>, b: seq<T>, more: seq<T>)
    requires Honest(scan) && (b == [] || scan(b).NeedMore?) && scan(b + more).Frame?
    ensures |b| < scan(b + more).extent
  {
    HonestAt(scan, b + more);
    HonestMore(scan, b, more);
  }

  /** Every frame of the stream fits the buffer. */
  ghost predicate Fits<T, F>(scan: seq<T> -> Scan<F>, flat: seq<T>, capacity: nat) {
    forall n | 0 <= n < |Frames(scan, flat)| :: End(scan, flat, n + 1) - End(scan, flat, n) <= capacity
  }

  /** Peeking one frame and discarding it, over and over, gives the frames of the
      stream and nothing else, whatever pieces it arrives in: all of them, if the
      buffer holds the largest. */
  method ReadAll<T(==, !new), F(!new)>(reel: Reel<T, F>) returns (frames: seq<F>)
    requires reel.source.Valid() && Honest(reel.scan)
    modifies reel.source
    ensures frames <= Frames(reel.scan, old(reel.source.Flat()))
    ensures Fits(reel.scan, old(reel.source.Flat()), reel.source.capacity) ==>
              frames == Frames(reel.scan, old(reel.source.Flat()))
  {
    hide Honest, Frames, End;
    ghost var flat := reel.source.Flat();
    frames := [];
    EndNone(reel.scan, flat);
    var more := true;
    while more
      invariant reel.source.Valid()
      invariant |frames| <= |Frames(reel.scan, flat)| && frames == Frames(reel.scan, flat)[..|frames|]
      invariant more ==> reel.source.Flat() == flat[End(reel.scan, flat, |frames|)..]
      invariant !more && Fits(reel.scan, flat, reel.source.capacity) ==> |frames| == |Frames(reel.scan, flat)|
      decreases more, |Frames(reel.scan, flat)| - |frames|
    {
      AfterFrames(reel.scan, flat, |frames|);
      var ok, visible := reel.Peek(1);
      if |visible| == 0 {
        NoneLeft(reel.scan, flat, |frames|, reel.source.capacity);
        more := false;
      } else {
        EndStep(reel.scan, flat, |frames|);
        FirstVisible(reel.scan, reel.source.buffered, reel.source.unread);
        var s := reel.scan(reel.source.buffered);
        frames := frames + [s.frame];
        ghost var here := reel.source.Flat();
        var done := reel.DiscardPrefix(s.extent);
        assert here[s.extent..] == flat[End(reel.scan, flat, |frames|)..];
      }
    }
  }

  lemma FirstVisible<T(!new), F(!new)>(scan: seq<T> -> Scan<F>, b: seq<T>, more: seq<T>)
    requires Honest(scan) && Frames(scan, b) != []
    ensures scan(b).Frame? && scan(b) == scan(b + more) && scan(b).extent <= |b + more|
    ensures Frames(scan, b + more) != [] && Frames(scan, b + more)[0] == scan(b).frame
  {
    hide Honest;
    HonestAt(scan, b);
    HonestMore(scan, b, more);
    HonestAt(scan, b + more);
  }

  lemma NoneLeft<T(!new), F(!new)>(scan: seq<T> -> Scan<F>, flat: seq<T>, n: nat, capacity: nat)
    requires n <= |Frames(scan, flat)|
    requires var rest := flat[End(scan, flat, n)..];
             Frames(scan, rest) != [] ==> End(scan, rest, 1) > capacity
    ensures Fits(scan, flat, capacity) ==> n == |Frames(scan, flat)|
  {
    if n < |Frames(scan, flat)| {
      AfterFrames(scan, flat, n);
      EndStep(scan, flat, n);
      var rest := flat[End(scan, flat, n)..];
      assert End(scan, rest, 1) == scan(rest).extent + End(scan, rest[scan(rest).extent..], 0);
      assert !(End(scan, flat, n + 1) - End(scan, flat, n) <= capacity);
    }
  }
}

/** The scanners of TLS records, src/nxt/tls.hpp, and of MTProto abridged frames,
    src/nxtrt/mtproto.hpp: on chunk views they find what they find on the bytes
    in one piece, and there they are honest. */
module FrameScanners {
  import opened Basics
  import opened Bits
  import opened Chunks
  import opened Reels
  import TlsRecords

  type Bytes = seq<byte>

  // ----- TLS records -----

  /** `tls_record_view`; the payload is the bytes its chunks hold. */
  datatype TlsRecord = TlsRecord(kind: byte, version: nat, payload: Bytes)

  function Pair(high: byte, low: byte): nat {
    var h: int, l: int := high, low;
    h * 256 + l
  }

  function TlsScan(b: Bytes): Scan<TlsRecord> {
    if |b| < 5 then NeedMore(5) else
    var extent := 5 + Pair(b[3], b[4]);
    if |b| < extent then NeedMore(extent)
    else Frame(extent, TlsRecord(b[0], Pair(b[1], b[2]), b[5..extent]))
  }

  lemma TlsHonest()
    ensures Honest(TlsScan)
  {
    forall b: Bytes, c: Bytes | b <= c
      ensures TlsScan(b).Frame? ==> TlsScan(c) == TlsScan(b)
      ensures TlsScan(c).Frame? && TlsScan(c).extent <= |b| ==> TlsScan(b) == TlsScan(c)
    {
      if |b| >= 5 && 5 + Pair(b[3], b[4]) <= |b| {
        assert b[5..5 + Pair(b[3], b[4])] == c[5..5 + Pair(b[3], b[4])];
      }
    }
  }

  /** A sealed record, whatever follows it, is scanned as one frame: its whole length,
      its header's type and version, and the bytes behind the header. */
  lemma SealedScans(suite: TlsRecords.Suite, secret: Bytes, sequence: nat, p: TlsRecords.Plain, rest: Bytes)
    requires TlsRecords.Lawful(suite) && |p.content| + 17 < 0x1_0000
    ensures var r := TlsRecords.SealedRecord(suite, secret, sequence, p);
            |r| >= 5 && TlsScan(r + rest) == Frame(|r|, TlsRecord(23, 0x0303, r[5..]))
  {
    var r := TlsRecords.SealedRecord(suite, secret, sequence, p);
    TlsRecords.LengthExact(suite, secret, sequence, p);
    var header := TlsRecords.Header(23, 0x0303, |p.content| + 1 + 16);
    assert r[..5] == header;
    assert (r + rest)[5..|r|] == r[5..];
  }

  /** `tls_record_view::scan`, for every way the bytes are split into chunks. */
  method ScanTlsRecord(chunks: seq<Bytes>) returns (r: Scan<seq<Bytes>>, kind: byte, version: nat)
    requires Kept(chunks)
    ensures match r
            case NeedMore(n) => TlsScan(Flat(chunks)) == NeedMore(n)
            case Frame(extent, payload) =>
              && TlsScan(Flat(chunks)) == Frame(extent, TlsRecord(kind, version, Flat(payload)))
              && |payload| <= |chunks|
  {
    kind, version := 0, 0;
    var size := Size(chunks);
    if size < 5 {
      return NeedMore(5), kind, version;
    }
    var high := At(chunks, 3);
    var low := At(chunks, 4);
    var length := Pair(high.value, low.value);
    var extent := 5 + length;
    if size < extent {
      return NeedMore(extent), kind, version;
    }
    var first := At(chunks, 0);
    var major := At(chunks, 1);
    var minor := At(chunks, 2);
    var payload := Subspan(chunks, 5, length);
    r, kind, version := Frame(extent, payload), first.value, Pair(major.value, minor.value);
  }

  // ----- MTProto abridged frames -----

  datatype Abridged = QuickAck(token: nat) | Payload(bytes: Bytes)

  /** Little-endian, three bytes. */
  function Words(a: byte, b: byte, c: byte): (n: nat)
    ensures n < MaxWords
  {
    var x: int, y: int, z: int := a, b, c;
    x + y * 256 + z * 65536
  }

  const MaxWords: nat := 16_777_216

  function AbridgedScan(b: Bytes): Scan<Abridged> {
    if |b| < 1 then NeedMore(1)
    else if b[0] >= 0x80 then
      if |b| < 4 then NeedMore(4) else Frame(4, QuickAck(Number(b[..4])))
    else if b[0] == 0x7F && |b| < 4 then NeedMore(4)
    else
      var header := if b[0] == 0x7F then 4 else 1;
      var words: int := if b[0] == 0x7F then Words(b[1], b[2], b[3]) else b[0];
      var extent := header + words * 4;
      if |b| < extent then NeedMore(extent) else Frame(extent, Payload(b[header..extent]))
  }

  lemma AbridgedHonest()
    ensures Honest(AbridgedScan)
  {
    hide Number;
    forall b: Bytes, c: Bytes | b <= c
      ensures AbridgedScan(b).Frame? ==> AbridgedScan(c) == AbridgedScan(b)
      ensures AbridgedScan(c).Frame? && AbridgedScan(c).extent <= |b| ==> AbridgedScan(b) == AbridgedScan(c)
    {
      AbridgedStays(b, c);
    }
  }

  lemma AbridgedStays(b: Bytes, c: Bytes)
    requires b <= c
    ensures AbridgedScan(b).Frame? ==> AbridgedScan(c) == AbridgedScan(b)
    ensures AbridgedScan(c).Frame? && AbridgedScan(c).extent <= |b| ==> AbridgedScan(b) == AbridgedScan(c)
  {
    hide Number, Words;
    if |b| >= 4 {
      assert b[..4] == c[..4];
    }
    if AbridgedScan(b).Frame? && AbridgedScan(b).frame.Payload? {
      var e := AbridgedScan(b).extent;
      assert b[1..e] == c[1..e];
      assert e >= 4 ==> b[4..e] == c[4..e];
    }
    if AbridgedScan(c).Frame? && AbridgedScan(c).extent <= |b| && AbridgedScan(c).frame.Payload? {
      var e := AbridgedScan(c).extent;
      assert b[1..e] == c[1..e];
      assert e >= 4 ==> b[4..e] == c[4..e];
    }
  }

  /** `byte_swap32` of the token read little-endian: it was sent big-endian. */
  function Token(a: byte, b: byte, c: byte, d: byte): nat {
    var w: int, x: int, y: int, z: int := a, b, c, d;
    w * 16_777_216 + x * 65_536 + y * 256 + z
  }

  lemma TokenIs(b: Bytes)
    requires |b| == 4
    ensures Number(b) == Token(b[0], b[1], b[2], b[3])
  {
    assert b[..3][..2] == b[..2] && b[..2][..1] == b[..1] && b[..1][..0] == [];
    assert Number(b[..1]) == b[0];
    assert Number(b[..2]) == Number(b[..1]) * 256 + b[1];
    assert Number(b[..3]) == Number(b[..2]) * 256 + b[2];
  }

  /** What a scan of chunks finds. */
  datatype AbridgedView = AckView(token: nat) | PayloadView(chunks: seq<Bytes>)

  ghost function Seen(v: AbridgedView): Abridged {
    match v
    case AckView(token) => QuickAck(token)
    case PayloadView(chunks) => Payload(Flat(chunks))
  }

  /** `abridged_frame_view::scan`, for every way the bytes are split into chunks.
      It never throws: three bytes cannot state too many words. */
  method ScanAbridged(chunks: seq<Bytes>) returns (r: Scan<AbridgedView>)
    requires Kept(chunks)
    ensures match r
            case NeedMore(n) => AbridgedScan(Flat(chunks)) == NeedMore(n)
            case Frame(extent, view) =>
              && AbridgedScan(Flat(chunks)) == Frame(extent, Seen(view))
              && (view.PayloadView? ==> |view.chunks| <= |chunks|)
  {
    hide Flat, Number, Words;
    var size := Size(chunks);
    if size < 1 {
      return NeedMore(1);
    }
    var first := At(chunks, 0);
    var header, words: nat := 1, first.value;
    if first.value >= 0x80 || first.value == 0x7F {
      if size < 4 {
        return NeedMore(4);
      }
      var b := At(chunks, 1);
      var c := At(chunks, 2);
      var d := At(chunks, 3);
      if first.value >= 0x80 {
        TokenIs(Flat(chunks)[..4]);
        return Frame(4, AckView(Token(first.value, b.value, c.value, d.value)));
      }
      header, words := 4, Words(b.value, c.value, d.value);
    }
    if words >= MaxWords {
      // The source throws here.
      assert false;
    }
    var extent := header + words * 4;
    if size < extent {
      return NeedMore(extent);
    }
    var payload := Subspan(chunks, header, words * 4);
    r := Frame(extent, PayloadView(payload));
  }

  // ----- writing abridged frames -----

  function LittleEndian3(v: nat): Bytes {
    [v % 256, v / 256 % 256, v / 65536 % 256]
  }

  /** `write_abridged_frame`: the bytes written, or a refused payload. */
  function Written(payload: Bytes, quickAck: bool): Option<Bytes> {
    var words := |payload| / 4;
    if |payload| % 4 != 0 || words >= MaxWords then None
    else if words < 0x7F then Some([words + if quickAck then 0x80 else 0] + payload)
    else Some([if quickAck then 0xFF else 0x7F] + LittleEndian3(words) + payload)
  }

  /** A frame written without asking for a quick ack is scanned as its payload,
      whatever follows; one written asking for it never is. */
  lemma WrittenScans(payload: Bytes, quickAck: bool, rest: Bytes)
    requires Written(payload, quickAck).Some?
    ensures var w := Written(payload, quickAck).value;
            AbridgedScan(w + rest) == Frame(|w|, Payload(payload)) <==> !quickAck
  {
    hide Number;
    var words := |payload| / 4;
    var w := Written(payload, quickAck).value;
    var b := w + rest;
    if !quickAck {
      if words < 0x7F {
        assert b[0] == words && b[1..|w|] == payload;
      } else {
        LittleEndianWords(words);
        assert b[0] == 0x7F && b[1] == LittleEndian3(words)[0] && b[2] == LittleEndian3(words)[1] && b[3] == LittleEndian3(words)[2];
        assert b[4..|w|] == payload;
      }
    } else {
      assert b[0] >= 0x80;
    }
  }

  /** The words of a long header are little-endian: the same bytes, reversed, are the
      number the most significant first. */
  lemma WordsAre(a: byte, b: byte, c: byte)
    ensures Words(a, b, c) == Number([c, b, a])
  {
    var s: Bytes := [c, b, a];
    assert s[..2] == [c, b] && s[..2][..1] == [c] && s[..1][..0] == [];
    assert Number([c]) == c;
    assert Number([c, b]) == Number([c]) * 256 + b;
  }

  lemma LittleEndianWords(v: nat)
    requires v < MaxWords
    ensures var d := LittleEndian3(v); Words(d[0], d[1], d[2]) == v
  {
    assert v / 65536 % 256 == v / 65536;
    assert v / 256 == v / 65536 * 256 + v / 256 % 256;
  }
}
