/** The intrusive slot queues of src/nxtrt/pool.hpp: two lists threaded through
    one `next_` link per slot stand for two disjoint sequences of slots. */
module SlotQueues {
  import opened Basics
  import opened Farms

  const NULL := -1

  /** `first` and `last` and the links between them spell out `c`. */
  ghost predicate Chain(next: seq<int>, first: int, last: int, c: seq<nat>) {
    && Distinct(c)
    && (forall k :: 0 <= k < |c| ==> c[k] < |next|)
    && (c == [] ==> first == NULL && last == NULL)
    && (c != [] ==> first == c[0] && last == c[|c| - 1] && next[c[|c| - 1]] == NULL)
    && forall k :: 0 <= k < |c| - 1 ==> next[c[k]] == c[k + 1]
  }

  /** Links of other slots do not matter to a chain. */
  lemma ChainFrame(next: seq<int>, next': seq<int>, first: int, last: int, c: seq<nat>)
    requires Chain(next, first, last, c) && |next'| == |next|
    requires forall i :: i in c ==> next'[i] == next[i]
    ensures Chain(next', first, last, c)
  {
  }

  class Queue {
    const next: array<int>
    var first: int
    var last: int
    ghost var contents: seq<nat>

    ghost predicate Valid()
      reads this, next
    {
      Chain(next[..], first, last, contents)
    }

    constructor (next: array<int>)
      ensures this.next == next && Valid() && contents == []
    {
      this.next, first, last, contents := next, NULL, NULL, [];
    }

    /** `push`: the slot is in no list yet. Only its link and the old last one change. */
    method Push(slot: nat)
      requires Valid() && slot < next.Length && slot !in contents
      modifies this, next
      ensures Valid() && contents == old(contents) + [slot]
      ensures forall i :: 0 <= i < next.Length && i != slot && i !in old(contents) ==> next[i] == old(next[i])
    {
      ghost var c := contents;
      if last != NULL {
        assert last == c[|c| - 1] && last in c;
      }
      next[slot] := NULL;
      if last != NULL {
        next[last] := slot;
      } else {
        first := slot;
      }
      last := slot;
      contents := contents + [slot];
      assert forall k :: 0 <= k < |c| ==> c[k] in c;
    }

    /** `pop`: the first slot, unlinked. */
    method Pop() returns (slot: nat)
      requires Valid() && contents != []
      modifies this, next
      ensures Valid() && slot == old(contents)[0] && contents == old(contents)[1..]
      ensures slot < next.Length && next[slot] == NULL
      ensures forall i :: 0 <= i < next.Length && i != slot ==> next[i] == old(next[i])
    {
      ghost var c := contents;
      assert c[0] in c;
      slot := first;
      first := next[slot];
      if |c| > 1 {
        assert c[1] in c;
      }
      if first == NULL {
        last := NULL;
      }
      next[slot] := NULL;
      contents := contents[1..];
      assert forall k :: 1 <= k < |c| ==> c[k] in c && c[k] != c[0];
    }

    /** `completed_ = {}`: the list is dropped as it stands, links and all. */
    method Reset()
      modifies this
      ensures Valid() && contents == []
    {
      first, last, contents := NULL, NULL, [];
    }
  }

  /** `buffered_.push(completed_.pop())`: both lists stay lists, and disjoint. */
  method Publish(completed: Queue, buffered: Queue)
    requires completed != buffered && completed.next == buffered.next
    requires completed.Valid() && buffered.Valid() && completed.contents != []
    requires Elements(completed.contents) !! Elements(buffered.contents)
    modifies completed, buffered, completed.next
    ensures completed.Valid() && buffered.Valid()
    ensures completed.contents == old(completed.contents)[1..]
    ensures buffered.contents == old(buffered.contents) + [old(completed.contents)[0]]
    ensures Elements(completed.contents) !! Elements(buffered.contents)
  {
    hide Chain;
    ghost var a, b := completed.contents, buffered.contents;
    Members(completed.next[..], completed.first, completed.last, a);
    Members(completed.next[..], buffered.first, buffered.last, b);
    PopElements(a);
    AppendElements(b, [a[0]]);
    assert a[0] in Elements(a);
    ghost var next0 := completed.next[..];
    var slot := completed.Pop();
    ChainFrame(next0, completed.next[..], buffered.first, buffered.last, b);
    assert slot !in b;
    ghost var next1 := completed.next[..];
    buffered.Push(slot);
    forall i | i in completed.contents
      ensures i < |next1| && completed.next[..][i] == next1[i]
    {
      assert i in Elements(completed.contents);
      assert i in a;
    }
    ChainFrame(next1, completed.next[..], completed.first, completed.last, completed.contents);
  }

  // ----- every use the pool makes of its two queues -----

  /** A slot completes; the front of `completed_` is published; the front of
      `buffered_` is consumed and released; teardown drops `completed_`; a slot in
      neither list is released. */
  datatype Op = Complete(slot: nat) | PublishFront | ConsumeFront | Drop | Release(slot: nat)

  /** What the pool keeps: no slot enters a list that is in one, and no list is
      popped that is empty. */
  predicate Proper(op: Op, slots: nat, completed: seq<nat>, buffered: seq<nat>) {
    match op
    case Complete(i) => i < slots && i !in completed && i !in buffered
    case PublishFront => completed != []
    case ConsumeFront => buffered != []
    case Drop => true
    case Release(i) => i < slots && i !in completed && i !in buffered
  }

  /** The two sequences the pool's methods are stated over. */
  ghost function Plainly(op: Op, slots: nat, completed: seq<nat>, buffered: seq<nat>): (seq<nat>, seq<nat>)
    requires Proper(op, slots, completed, buffered)
  {
    match op
    case Complete(i) => (completed + [i], buffered)
    case PublishFront => (completed[1..], buffered + [completed[0]])
    case ConsumeFront => (completed, buffered[1..])
    case Drop => ([], buffered)
    case Release(_) => (completed, buffered)
  }

  /** Both lists are lists over the shared links, and have no slot in common. */
  ghost predicate Apart(completed: Queue, buffered: Queue)
    reads completed, buffered, completed.next, buffered.next
  {
    && completed != buffered && completed.next == buffered.next
    && completed.Valid() && buffered.Valid()
    && Elements(completed.contents) !! Elements(buffered.contents)
  }

  /** One use, over the links, is that use of the two sequences; a slot that leaves
      a list by being consumed or released has its link cleared. */
  method Use(completed: Queue, buffered: Queue, op: Op)
    requires Apart(completed, buffered) && Proper(op, completed.next.Length, completed.contents, buffered.contents)
    modifies completed, buffered, completed.next
    ensures Apart(completed, buffered)
    ensures (completed.contents, buffered.contents)
            == Plainly(op, completed.next.Length, old(completed.contents), old(buffered.contents))
    ensures op.ConsumeFront? ==> old(buffered.contents)[0] < completed.next.Length
                                 && completed.next[old(buffered.contents)[0]] == NULL
    ensures op.Release? ==> completed.next[op.slot] == NULL
  {
    hide Chain;
    match op {
      case Complete(slot) =>
        Enter(completed, buffered, slot);
      case PublishFront =>
        Publish(completed, buffered);
      case ConsumeFront =>
        Leave(buffered, completed);
      case Drop =>
        completed.Reset();
      case Release(slot) =>
        Unlink(completed, buffered, slot);
    }
  }

  method Enter(q: Queue, other: Queue, slot: nat)
    requires Apart(q, other) && slot < q.next.Length && slot !in q.contents && slot !in other.contents
    modifies q, q.next
    ensures Apart(q, other) && q.contents == old(q.contents) + [slot] && other.contents == old(other.contents)
  {
    hide Chain;
    ghost var next0 := q.next[..];
    ghost var a, b := q.contents, other.contents;
    Members(next0, other.first, other.last, b);
    AppendElements(a, [slot]);
    q.Push(slot);
    forall i | i in b
      ensures q.next[..][i] == next0[i]
    {
      assert i in Elements(b);
    }
    ChainFrame(next0, q.next[..], other.first, other.last, b);
  }

  method Leave(q: Queue, other: Queue)
    requires Apart(q, other) && q.contents != []
    modifies q, q.next
    ensures Apart(q, other) && q.contents == old(q.contents)[1..] && other.contents == old(other.contents)
    ensures old(q.contents)[0] < q.next.Length && q.next[old(q.contents)[0]] == NULL
  {
    hide Chain;
    ghost var next0 := q.next[..];
    ghost var a, b := q.contents, other.contents;
    Members(next0, other.first, other.last, b);
    Members(next0, q.first, q.last, a);
    PopElements(a);
    assert a[0] in Elements(a);
    var slot := q.Pop();
    forall i | i in b
      ensures q.next[..][i] == next0[i]
    {
      assert i in Elements(b);
    }
    ChainFrame(next0, q.next[..], other.first, other.last, b);
  }

  /** `slot.next_ = nullptr` in `release`. */
  method Unlink(q: Queue, other: Queue, slot: nat)
    requires Apart(q, other) && slot < q.next.Length && slot !in q.contents && slot !in other.contents
    modifies q.next
    ensures Apart(q, other) && q.next[slot] == NULL
  {
    hide Chain;
    ghost var next0 := q.next[..];
    Members(next0, q.first, q.last, q.contents);
    Members(next0, other.first, other.last, other.contents);
    q.next[slot] := NULL;
    ChainFrame(next0, q.next[..], q.first, q.last, q.contents);
    ChainFrame(next0, q.next[..], other.first, other.last, other.contents);
  }

  /** The sequences after these uses, if all of them are proper. */
  ghost function Sequences(slots: nat, ops: seq<Op>): Option<(seq<nat>, seq<nat>)> {
    if ops == [] then Some(([], [])) else
    var before, op := Sequences(slots, ops[..|ops| - 1]), ops[|ops| - 1];
    if before.None? || !Proper(op, slots, before.value.0, before.value.1) then None
    else Some(Plainly(op, slots, before.value.0, before.value.1))
  }

  lemma {:induction false} SequencesBefore(slots: nat, ops: seq<Op>, k: nat)
    requires k < |ops| && Sequences(slots, ops).Some?
    ensures Sequences(slots, ops[..k]).Some? && Sequences(slots, ops[..k + 1]).Some?
    decreases |ops|
  {
    if k + 1 < |ops| {
      var front := ops[..|ops| - 1];
      SequencesBefore(slots, front, k);
      assert front[..k] == ops[..k] && front[..k + 1] == ops[..k + 1];
    } else {
      assert ops[..k + 1] == ops;
    }
  }

  /** Over every sequence of proper uses the intrusive queues hold what the plain
      sequences hold, which is what the pool's own methods are stated over. */
  method Replay(next: array<int>, ops: seq<Op>) returns (completed: Queue, buffered: Queue)
    requires Sequences(next.Length, ops).Some?
    modifies next
    ensures Apart(completed, buffered) && completed.next == next
    ensures Some((completed.contents, buffered.contents)) == Sequences(next.Length, ops)
  {
    hide Chain;
    completed := new Queue(next);
    buffered := new Queue(next);
    for k := 0 to |ops|
      invariant Apart(completed, buffered) && completed.next == next && fresh(completed) && fresh(buffered)
      invariant Some((completed.contents, buffered.contents)) == Sequences(next.Length, ops[..k])
    {
      SequencesBefore(next.Length, ops, k);
      assert ops[..k + 1][..k] == ops[..k];
      Use(completed, buffered, ops[k]);
    }
    assert ops[..|ops|] == ops;
  }

  lemma Members(next: seq<int>, first: int, last: int, c: seq<nat>)
    requires Chain(next, first, last, c)
    ensures Distinct(c) && forall i :: i in c ==> i in Elements(c) && i < |next|
  {
  }
}
