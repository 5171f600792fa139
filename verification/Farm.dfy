/** `ring_region` of src/nxtrt/buffer-core.hpp with the buffer verbs that
    `feed` builds on it (src/nxtrt/value-buffers.hpp): a FIFO queue that wraps. */
module Rings {

  /** The slot `k` places after `seek`. */
  function Wrap(capacity: nat, seek: nat, k: nat): (i: nat)
    requires seek < capacity && k <= capacity
    ensures i < capacity
  {
    if seek + k < capacity then seek + k else seek + k - capacity
  }

  /** `ring_write_index` and the cursor step: wrapping is taking the remainder. */
  method Remainder(capacity: nat, seek: nat, k: nat) returns (i: nat)
    requires seek < capacity && k <= capacity
    ensures i == Wrap(capacity, seek, k)
  {
    i := (seek + k) % capacity;
    var q := (seek + k) / capacity;
    assert seek + k == q * capacity + i;
    if q >= 2 {
      ProductGrows(q, capacity);
    }
  }

  lemma ProductGrows(q: nat, capacity: nat)
    requires q >= 2
    ensures q * capacity >= capacity + capacity
  {
  }

  /** The `n` values from `seek` on, wrapping at the end of the storage. */
  ghost function Window<T>(d: seq<T>, seek: nat, n: nat): (w: seq<T>)
    requires n <= |d| && (|d| == 0 || seek < |d|)
    ensures |w| == n
  {
    if n == 0 then [] else if seek + n <= |d| then d[seek..seek + n] else d[seek..] + d[..seek + n - |d|]
  }

  lemma WindowAt<T>(d: seq<T>, seek: nat, n: nat, k: nat)
    requires k < n <= |d| && seek < |d|
    ensures Window(d, seek, n)[k] == d[Wrap(|d|, seek, k)]
  {
  }

  lemma WrapAdd(capacity: nat, seek: nat, n: nat, j: nat)
    requires seek < capacity && n + j <= capacity && Wrap(capacity, seek, n) + j < capacity
    ensures Wrap(capacity, seek, n + j) == Wrap(capacity, seek, n) + j
  {
  }

  lemma WindowExtend<T>(d: seq<T>, seek: nat, n: nat, m: nat)
    requires seek < |d| && n + m <= |d| && Wrap(|d|, seek, n) + m <= |d|
    ensures Window(d, seek, n + m) == Window(d, seek, n) + d[Wrap(|d|, seek, n)..Wrap(|d|, seek, n) + m]
  {
    hide Window;
    hide Wrap;
    var start := Wrap(|d|, seek, n);
    var whole, part, run := Window(d, seek, n + m), Window(d, seek, n), d[start..start + m];
    forall k | 0 <= k < |whole|
      ensures whole[k] == (part + run)[k]
    {
      WindowAt(d, seek, n + m, k);
      if k < n {
        WindowAt(d, seek, n, k);
      } else {
        WrapAdd(|d|, seek, n, k - n);
      }
    }
  }

  lemma WindowOutside<T>(d: seq<T>, seek: nat, n: nat, i: nat, v: T)
    requires n <= |d| && i < |d| && seek < |d|
    requires forall k :: 0 <= k < n ==> Wrap(|d|, seek, k) != i
    ensures Window(d[i := v], seek, n) == Window(d, seek, n)
  {
    forall k | 0 <= k < n
      ensures Window(d[i := v], seek, n)[k] == Window(d, seek, n)[k]
    {
      WindowAt(d, seek, n, k);
      WindowAt(d[i := v], seek, n, k);
    }
  }

  lemma WindowPush<T>(d: seq<T>, seek: nat, n: nat, v: T)
    requires n < |d| && seek < |d|
    ensures Window(d[Wrap(|d|, seek, n) := v], seek, n + 1) == Window(d, seek, n) + [v]
  {
    var i := Wrap(|d|, seek, n);
    WindowOutside(d, seek, n, i, v);
    WindowExtend(d[i := v], seek, n, 1);
  }

  lemma WindowDrop<T>(d: seq<T>, seek: nat, n: nat, t: nat)
    requires seek < |d| && t <= n <= |d|
    ensures Window(d, Wrap(|d|, seek, t), n - t) == Window(d, seek, n)[t..]
  {
    var rest := Window(d, Wrap(|d|, seek, t), n - t);
    forall k | 0 <= k < |rest|
      ensures rest[k] == Window(d, seek, n)[t + k]
    {
      WindowAt(d, seek, n, t + k);
      WindowAt(d, Wrap(|d|, seek, t), n - t, k);
    }
  }

  class Ring<T> {
    const data: array<T>
    var seek: nat
    var size: nat

    ghost predicate Valid()
      reads this
    {
      size <= data.Length && (data.Length == 0 || seek < data.Length)
    }

    /** The live values, oldest first. */
    ghost function Contents(): (s: seq<T>)
      requires Valid()
      reads this, data
      ensures |s| == size
    {
      Window(data[..], seek, size)
    }

    constructor (data: array<T>)
      ensures this.data == data && Valid() && size == 0 && Contents() == []
    {
      this.data, seek, size := data, 0, 0;
    }

    /** `ring_chunks`: the live values as at most two runs of the storage. */
    method Chunks() returns (first: seq<T>, second: seq<T>)
      requires Valid()
      ensures first + second == Contents()
      ensures second != [] ==> first != []
    {
      if size == 0 {
        return [], [];
      }
      var n := if size < data.Length - seek then size else data.Length - seek;
      first := data[seek..seek + n];
      second := if n == size then [] else data[..size - n];
    }

    /** `ring_unused_capacity`: the contiguous run of raw slots after the live values. */
    method UnusedCapacity() returns (start: nat, n: nat)
      requires Valid()
      ensures start + n <= data.Length && size + n <= data.Length
      ensures n == 0 <==> size == data.Length
      ensures n > 0 ==> start == Wrap(data.Length, seek, size)
    {
      if size == data.Length {
        return 0, 0;
      }
      start := Remainder(data.Length, seek, size);
      var run := if start < seek then seek - start else data.Length - start;
      n := if run < data.Length - size then run else data.Length - size;
    }

    /** `emplace`: appends a value, or reports that the buffer is full. */
    method Emplace(value: T) returns (ok: bool)
      requires Valid()
      modifies this`size, data
      ensures Valid()
      ensures ok <==> old(size) < data.Length
      ensures Contents() == if ok then old(Contents()) + [value] else old(Contents())
    {
      hide Window;
      ok := size != data.Length;
      if ok {
        WindowPush(data[..], seek, size, value);
        var i := Remainder(data.Length, seek, size);
        WriteSlot(data, i, value);
        size := size + 1;
      }
    }

    /** `advance_constructed`: counts values just written at the front of the raw run. */
    method AdvanceConstructed(start: nat, n: nat)
      requires Valid() && start + n <= data.Length && size + n <= data.Length
      requires n > 0 ==> start == Wrap(data.Length, seek, size)
      modifies this`size
      ensures Valid() && Contents() == old(Contents()) + data[start..start + n]
    {
      hide Window;
      if n > 0 {
        WindowExtend(data[..], seek, size, n);
        assert data[..][start..start + n] == data[start..start + n];
        size := size + n;
      }
    }

    /** Constructs a value in the raw run without counting it yet. */
    method WriteRaw(i: nat, value: T)
      requires Valid() && i < data.Length
      requires forall k :: 0 <= k < size ==> Wrap(data.Length, seek, k) != i
      modifies data
      ensures data[..] == old(data[..])[i := value] && Contents() == old(Contents())
    {
      hide Window;
      WindowOutside(data[..], seek, size, i, value);
      WriteSlot(data, i, value);
    }

    /** One turn of the `destroy_prefix` loop: a run that does not wrap. */
    method Advance(take: nat)
      requires Valid() && 0 < take <= size && seek + take <= data.Length
      modifies this
      ensures Valid() && Contents() == old(Contents())[take..]
    {
      hide Window;
      WindowDrop(data[..], seek, size, take);
      seek := Remainder(data.Length, seek, take);
      size := size - take;
    }

    /** `toss`: `destroy_prefix`, then `reset_if_empty`. */
    method Toss(n: nat)
      requires Valid() && n <= size
      modifies this
      ensures Valid() && Contents() == old(Contents())[n..]
      ensures size == 0 ==> seek == 0
    {
      hide Window;
      var left: nat := n;
      ghost var before := Contents();
      while left != 0
        invariant left <= n <= |before| && left <= size && Valid()
        invariant Contents() == before[n - left..]
        decreases left
      {
        var take := if left < data.Length - seek then left else data.Length - seek;
        Advance(take);
        left := left - take;
      }
      if size == 0 {
        seek := 0;
      }
    }

    /** `take_buffered`: the oldest value, consumed. */
    method TakeFront() returns (value: T)
      requires Valid() && size > 0
      modifies this
      ensures Valid() && value == old(Contents())[0] && Contents() == old(Contents())[1..]
    {
      hide Window;
      WindowAt(data[..], seek, size, 0);
      value := data[seek];
      Toss(1);
    }
  }

  method WriteSlot<T>(data: array<T>, i: nat, value: T)
    requires i < data.Length
    modifies data
    ensures data[..] == old(data[..])[i := value]
  {
    data[i] := value;
  }
}

/** `farm`: slots handed out by streaming their free indices, hot ring first,
    cold mask behind it (src/nxtrt/farm.hpp). */
module Farms {
  import opened MaskTree
  import opened Masks
  import opened Rings

  ghost function Elements(s: seq<nat>): set<nat> {
    set i | i in s
  }

  ghost predicate Distinct<T>(s: seq<T>) {
    forall i, j :: 0 <= i < j < |s| ==> s[i] != s[j]
  }

  ghost predicate Ascending(s: seq<nat>) {
    forall i, j :: 0 <= i < j < |s| ==> s[i] < s[j]
  }

  /** `low` in order, and below everything in `rest`. */
  ghost predicate LowestOf(low: seq<nat>, rest: set<nat>) {
    Ascending(low) && forall i, k :: 0 <= i < |low| && k in rest ==> low[i] < k
  }

  class Farm {
    const capacity: nat
    const hot: Ring<nat>
    const cold: Mask

    /** Everything a farm may write. */
    ghost function Repr(): set<object> {
      {hot, hot.data, cold.words}
    }

    /** No index is free twice: the hot ring has no repeats and is disjoint from the cold mask. */
    ghost predicate Valid()
      reads hot, hot.data, cold.words
    {
      && hot.Valid() && cold.Valid()
      && hot.data as object != cold.words as object
      && cold.layout.capacity == capacity
      && Distinct(hot.Contents())
      && Elements(hot.Contents()) !! cold.Contents()
      && Free() <= Indices(capacity)
    }

    /** The free indices. */
    ghost function Free(): set<nat>
      reads hot, hot.data, cold.words
    {
      if hot.Valid() && cold.Valid() then Elements(hot.Contents()) + cold.Contents() else {}
    }

    /** Every slot starts free. */
    constructor (hot: Ring<nat>, cold: Mask)
      requires hot.Valid() && hot.size == 0 && cold.Valid()
      requires hot.data as object != cold.words as object
      modifies cold.words
      ensures this.hot == hot && this.cold == cold && capacity == cold.layout.capacity
      ensures Valid() && Free() == Indices(capacity)
    {
      this.hot, this.cold, capacity := hot, cold, cold.layout.capacity;
      new;
      cold.Fill();
    }

    /** Neither the hot ring nor the cold mask has an index left. */
    method Empty() returns (b: bool)
      requires Valid()
      ensures b <==> Free() == {}
    {
      var none := cold.Empty();
      b := hot.size == 0 && none;
      if hot.size != 0 {
        assert hot.Contents()[0] in Free();
      }
    }

    /** The next free index, or none exactly when every slot is handed out. A hot
        index comes out first in, first out; otherwise the lowest cold one. */
    method TryAlloc() returns (found: bool, index: nat)
      requires Valid()
      modifies Repr()
      ensures Valid()
      ensures found <==> old(Free()) != {}
      ensures found ==> index in old(Free()) && Free() == old(Free()) - {index}
      ensures old(hot.size) > 0 ==> index == old(hot.Contents())[0] && hot.Contents() == old(hot.Contents())[1..]
      ensures found && old(hot.size) == 0 ==> IsMin(index, old(Free()))
      ensures !found ==> Free() == old(Free())
    {
      hide Window;
      hide Members;
      hide Tree;
      ghost var h, c := hot.Contents(), cold.Contents();
      if hot.size != 0 {
        index := hot.TakeFront();
        found := true;
        PopElements(h);
        assert h[0] in Elements(h);
        return;
      }
      assert h == [] && Free() == c;
      var none := cold.Empty();
      if none {
        return false, 0;
      }
      LowestIsMin(capacity, c);
      index := cold.Take();
      found := true;
      assert Free() == c - {index};
    }

    /** Returns a handed-out slot: to the hot ring if it has room, else to the cold mask. */
    method Give(index: nat)
      requires Valid() && index < capacity && index !in Free()
      modifies Repr()
      ensures Valid() && Free() == old(Free()) + {index}
      ensures hot.Contents() == old(hot.Contents()) + if old(hot.size) < hot.data.Length then [index] else []
    {
      hide Window;
      hide Members;
      hide Tree;
      ghost var h, c := hot.Contents(), cold.Contents();
      if hot.size != hot.data.Length {
        var _ := hot.Emplace(index);
        AppendElements(h, [index]);
        assert Elements([index]) == {index};
        assert Free() == Elements(h) + {index} + c;
      } else {
        cold.Give(index);
        assert h + [] == h;
        assert Free() == Elements(h) + (c + {index});
      }
    }

    /** One turn of the `stream_more` loop. */
    method MoveLowest(start: nat, n: nat)
      requires hot.Valid() && cold.Valid() && cold.Contents() != {}
      requires hot.data as object != cold.words as object
      requires hot.size + n < hot.data.Length && start + n < hot.data.Length
      requires start == Wrap(hot.data.Length, hot.seek, hot.size)
      requires LowestOf(hot.data[start..start + n], cold.Contents())
      modifies hot.data, cold.words
      ensures cold.Valid() && hot.Contents() == old(hot.Contents())
      ensures LowestOf(hot.data[start..start + n + 1], cold.Contents())
      ensures cold.Contents() + Elements(hot.data[start..start + n + 1])
              == old(cold.Contents() + Elements(hot.data[start..start + n]))
    {
      hide Window;
      hide Members;
      hide Tree;
      LowestIsMin(cold.layout.capacity, cold.Contents());
      ghost var before, rest := hot.data[start..start + n], cold.Contents();
      var index := cold.Take();
      hot.WriteRaw(start + n, index);
      assert hot.data[start..start + n + 1] == hot.data[..][start..start + n + 1] == before + [index];
      AppendLowest(before, rest, index);
    }

    /** The loop of `stream_more`: writes the lowest cold indices to a run of raw slots. */
    method DrainCold(start: nat, span: nat) returns (n: nat)
      requires hot.Valid() && cold.Valid() && start + span <= hot.data.Length
      requires hot.data as object != cold.words as object
      requires span > 0 ==> hot.size + span <= hot.data.Length && start == Wrap(hot.data.Length, hot.seek, hot.size)
      modifies hot.data, cold.words
      ensures n <= span && hot.Valid() && cold.Valid() && hot.Contents() == old(hot.Contents())
      ensures n == 0 <==> span == 0 || old(cold.Contents()) == {}
      ensures LowestOf(hot.data[start..start + n], cold.Contents())
      ensures cold.Contents() + Elements(hot.data[start..start + n]) == old(cold.Contents())
    {
      hide Window;
      hide Members;
      hide Tree;
      n := 0;
      var none := cold.Empty();
      while n < span && !none
        invariant 0 <= n <= span && cold.Valid()
        invariant hot.Contents() == old(hot.Contents())
        invariant none <==> cold.Contents() == {}
        invariant n > 0 ==> old(cold.Contents()) != {}
        invariant n == 0 ==> cold.Contents() == old(cold.Contents())
        invariant LowestOf(hot.data[start..start + n], cold.Contents())
        invariant cold.Contents() + Elements(hot.data[start..start + n]) == old(cold.Contents())
      {
        MoveLowest(start, n);
        n := n + 1;
        none := cold.Empty();
      }
    }

    /** `stream_more` into the ring's own raw run: moves the lowest cold indices,
        in order, to the back of the hot ring; the free set is unchanged. */
    method StreamMore(limit: nat) returns (n: nat, ghost moved: seq<nat>)
      requires Valid()
      modifies Repr()
      ensures Valid() && Free() == old(Free())
      ensures n == |moved| <= limit && hot.Contents() == old(hot.Contents()) + moved
      ensures n == 0 <==> limit == 0 || old(hot.size) == hot.data.Length || old(cold.Contents()) == {}
      ensures LowestOf(moved, cold.Contents())
    {
      hide Window;
      hide Members;
      hide Tree;
      hide LowestOf;
      var start, room := hot.UnusedCapacity();
      n := DrainCold(start, if limit < room then limit else room);
      hot.AdvanceConstructed(start, n);
      moved := hot.data[start..start + n];
      AppendElements(old(hot.Contents()), moved);
      AscendingDistinct(moved, cold.Contents());
    }

    /** `alloc`: the feed's `take`, refilling an empty ring from the mask; with no
        ring at all the mask feeds a one-value cell. Null exactly when nothing is free. */
    method Alloc() returns (found: bool, index: nat)
      requires Valid()
      modifies Repr()
      ensures Valid()
      ensures found <==> old(Free()) != {}
      ensures found ==> index in old(Free()) && Free() == old(Free()) - {index}
      ensures old(hot.size) > 0 ==> index == old(hot.Contents())[0] && hot.Contents() == old(hot.Contents())[1..]
      ensures found && old(hot.size) == 0 ==> IsMin(index, old(Free()))
      ensures !found ==> Free() == old(Free())
    {
      hide Window;
      hide Members;
      hide Tree;
      if hot.size != 0 || hot.data.Length == 0 {
        found, index := TryAlloc();
        return;
      }
      assert hot.Contents() == [];
      var n, moved := StreamMore(hot.data.Length);
      if n == 0 {
        return false, 0;
      }
      assert hot.Contents() == moved;
      LowestHead(moved, cold.Contents());
      found, index := TryAlloc();
    }
  }

  lemma AppendLowest(low: seq<nat>, rest: set<nat>, m: nat)
    requires LowestOf(low, rest) && IsMin(m, rest)
    ensures LowestOf(low + [m], rest - {m}) && Elements(low + [m]) == Elements(low) + {m}
  {
    AppendElements(low, [m]);
    assert Elements([m]) == {m};
  }

  lemma AscendingDistinct(low: seq<nat>, rest: set<nat>)
    requires LowestOf(low, rest)
    ensures Distinct(low) && Elements(low) !! rest
  {
  }

  lemma LowestHead(low: seq<nat>, rest: set<nat>)
    requires LowestOf(low, rest) && low != []
    ensures IsMin(low[0], Elements(low) + rest)
  {
  }

  lemma PopElements(s: seq<nat>)
    requires s != [] && Distinct(s)
    ensures Elements(s[1..]) == Elements(s) - {s[0]} && Distinct(s[1..])
  {
    assert s == [s[0]] + s[1..];
  }

  lemma AppendElements(a: seq<nat>, b: seq<nat>)
    ensures Elements(a + b) == Elements(a) + Elements(b)
    ensures Distinct(a) && Distinct(b) && Elements(a) !! Elements(b) ==> Distinct(a + b)
  {
    if Distinct(a) && Distinct(b) && Elements(a) !! Elements(b) {
      forall i, j | 0 <= i < j < |a + b|
        ensures (a + b)[i] != (a + b)[j]
      {
        if i < |a| <= j {
          assert a[i] in Elements(a) && b[j - |a|] in Elements(b);
        }
      }
    }
  }

  // ----- whole runs -----

  datatype Request = Try | Wait | Refill(limit: nat) | Return(index: nat)

  /** The free and the handed-out slots make up all the slots, none twice. */
  ghost predicate Accounted(free: set<nat>, out: set<nat>, capacity: nat) {
    free !! out && free + out == Indices(capacity)
  }

  lemma Lend(free: set<nat>, out: set<nat>, i: nat, capacity: nat)
    requires Accounted(free, out, capacity) && i in free
    ensures Accounted(free - {i}, out + {i}, capacity)
  {
  }

  lemma Restore(free: set<nat>, out: set<nat>, i: nat, capacity: nat)
    requires Accounted(free, out, capacity) && i in out
    ensures i !in free && i < capacity && Accounted(free + {i}, out - {i}, capacity)
  {
    assert i in Indices(capacity);
  }

  /** One request; a slot that is not handed out is not given back. */
  method Handle(f: Farm, request: Request, out: set<nat>) returns (out': set<nat>)
    requires f.Valid() && Accounted(f.Free(), out, f.capacity)
    modifies f.Repr()
    ensures f.Valid() && Accounted(f.Free(), out', f.capacity)
  {
    hide Farm.Valid;
    hide Farm.Free;
    hide Accounted;
    hide Rings.Ring.Contents;
    ghost var free := f.Free();
    out' := out;
    match request {
      case Try =>
        var found, i := f.TryAlloc();
        if found {
          Lend(free, out, i, f.capacity);
          out' := out + {i};
        }
      case Wait =>
        var found, i := f.Alloc();
        if found {
          Lend(free, out, i, f.capacity);
          out' := out + {i};
        }
      case Refill(limit) =>
        var _, _ := f.StreamMore(limit);
      case Return(i) =>
        if i in out {
          Restore(free, out, i, f.capacity);
          f.Give(i);
          out' := out - {i};
        }
    }
  }

  /** Any run that only gives back handed-out slots keeps the hot ring, the cold
      mask and the handed-out slots a partition of all the indices. */
  method Serve(f: Farm, requests: seq<Request>) returns (out: set<nat>)
    requires f.Valid() && f.Free() == Indices(f.capacity)
    modifies f.Repr()
    ensures f.Valid() && Accounted(f.Free(), out, f.capacity)
  {
    hide Farm.Valid;
    hide Farm.Free;
    out := {};
    var k := 0;
    while k < |requests|
      invariant 0 <= k <= |requests| && f.Valid()
      invariant Accounted(f.Free(), out, f.capacity)
    {
      out := Handle(f, requests[k], out);
      k := k + 1;
    }
  }
}
