/** The bookkeeping of the bounded evaluator in src/nxtrt/pool.hpp, as values. */
module PoolState {
  import opened Basics
  import opened MaskTree
  import opened Farms

  /** `task<T>`: empty, not finished, or at final suspension with a value or an exception. */
  datatype Task = NoTask | Unfinished | Finished(ok: bool)

  /** `pool_slot`; an idea is named by the order in which it was admitted. */
  datatype Slot = Slot(owned: bool, idea: Option<nat>, task: Task, ready: bool, started: bool)

  function Blank(): Slot {
    Slot(false, None, NoTask, false, false)
  }

  /** A frame the deck may still resume. */
  predicate Runs(s: Slot) {
    s.owned && s.started && s.task == Unfinished
  }

  /** A result or an exception is waiting in the slot. */
  predicate Settled(s: Slot) {
    s.ready || s.task.Finished?
  }

  /** The slot of a published, unconsumed result. */
  predicate Published(s: Slot) {
    s.owned && s.idea.Some? && s.task == NoTask && !s.ready
  }

  ghost function Owned(slots: seq<Slot>): set<nat> {
    set i: nat | i < |slots| && slots[i].owned
  }

  ghost function Running(slots: seq<Slot>): set<nat> {
    set i: nat | i < |slots| && Runs(slots[i])
  }

  /** The counters count, and the farm holds exactly the slots nobody owns, each reset. */
  ghost predicate Counted(slots: seq<Slot>, free: set<nat>, occupied: int, running: int) {
    && occupied == |Owned(slots)|
    && running == |Running(slots)|
    && (forall i: nat :: i in free <==> i < |slots| && !slots[i].owned)
    && forall i :: 0 <= i < |slots| && !slots[i].owned ==> slots[i] == Blank()
  }

  function One(b: bool): nat {
    if b then 1 else 0
  }

  lemma SizeAfter(before: set<nat>, after: set<nat>, i: nat)
    requires after - {i} == before - {i}
    ensures |after| == |before| - One(i in before) + One(i in after)
  {
    assert before == if i in before then (before - {i}) + {i} else before - {i};
    assert after == if i in after then (after - {i}) + {i} else after - {i};
  }

  lemma RecountOwned(slots: seq<Slot>, i: nat, s: Slot)
    requires i < |slots|
    ensures |Owned(slots[i := s])| == |Owned(slots)| - One(slots[i].owned) + One(s.owned)
  {
    SizeAfter(Owned(slots), Owned(slots[i := s]), i);
  }

  lemma RecountRunning(slots: seq<Slot>, i: nat, s: Slot)
    requires i < |slots|
    ensures |Running(slots[i := s])| == |Running(slots)| - One(Runs(slots[i])) + One(Runs(s))
  {
    SizeAfter(Running(slots), Running(slots[i := s]), i);
  }

  /** Rewriting one slot moves the counters by that slot alone. */
  lemma Recount(slots: seq<Slot>, free: set<nat>, occupied: int, running: int, i: nat, s: Slot)
    requires Counted(slots, free, occupied, running) && i < |slots|
    requires !s.owned ==> s == Blank()
    ensures Counted(slots[i := s], if s.owned then free - {i} else free + {i},
                    occupied - One(slots[i].owned) + One(s.owned),
                    running - One(Runs(slots[i])) + One(Runs(s)))
  {
    hide Owned, Running;
    RecountOwned(slots, i, s);
    RecountRunning(slots, i, s);
  }

  /** Both queues hold owned slots, none twice: completed ones with something to
      deliver, buffered ones with it already delivered. */
  ghost predicate Queued(slots: seq<Slot>, completed: seq<nat>, buffered: seq<nat>) {
    && Distinct(completed)
    && Distinct(buffered)
    && (forall i :: i in completed ==> i < |slots| && slots[i].owned && slots[i].idea.Some? && Settled(slots[i]))
    && forall i :: i in buffered ==> i < |slots| && Published(slots[i])
  }

  /** Result `k` in the ring belongs to buffered slot `k`. */
  ghost predicate Lockstep(slots: seq<Slot>, buffered: seq<nat>, results: seq<nat>) {
    && |results| == |buffered|
    && forall k :: 0 <= k < |buffered| ==>
         buffered[k] < |slots| && slots[buffered[k]].idea == Some(results[k])
  }

  /** The slot reserved for the input read is blank but owned; the prepared one
      holds an idea and a frame that was never started. */
  ghost predicate Held(slots: seq<Slot>, inputSlot: Option<nat>, prepared: Option<nat>) {
    && (inputSlot.Some? ==> inputSlot.value < |slots| && slots[inputSlot.value] == Blank().(owned := true))
    && (prepared.Some? ==>
          && prepared.value < |slots|
          && slots[prepared.value].owned && slots[prepared.value].idea.Some?
          && slots[prepared.value].task == Unfinished
          && !slots[prepared.value].started && !slots[prepared.value].ready)
    && forall i :: 0 <= i < |slots| && slots[i].started ==> slots[i].owned && slots[i].idea.Some? && !slots[i].ready
  }

  /** Every owned slot (but `limbo`) is in exactly one place: reserved for the
      input, prepared, running, completed or buffered; the places exclude each
      other by what the slot holds. */
  ghost predicate Placed(slots: seq<Slot>, inputSlot: Option<nat>, prepared: Option<nat>,
                         completed: seq<nat>, buffered: seq<nat>, limbo: Option<nat>) {
    forall i: nat :: i < |slots| && slots[i].owned && limbo != Some(i) ==>
      if slots[i].idea.None? then inputSlot == Some(i)
      else if Settled(slots[i]) then i in completed
      else if slots[i].task == NoTask then i in buffered
      else if !slots[i].started then prepared == Some(i)
      else Runs(slots[i])
  }

  /** Each admitted idea is accounted for once: published, completed, running,
      prepared, or (`limbo`) just admitted; what is published is what finished first. */
  ghost predicate History(slots: seq<Slot>, completed: seq<nat>, prepared: Option<nat>, running: int,
                          finished: seq<nat>, published: seq<nat>, admitted: nat, limbo: nat) {
    && |finished| == |published| + |completed|
    && finished[..|published|] == published
    && (forall k :: 0 <= k < |completed| ==>
          completed[k] < |slots| && slots[completed[k]].idea == Some(finished[|published| + k]))
    && Distinct(finished)
    && (forall d :: d in finished ==> d < admitted)
    && (forall i :: 0 <= i < |slots| && slots[i].idea.Some? ==> slots[i].idea.value < admitted)
    && (forall i, j :: 0 <= i < j < |slots| && slots[i].idea.Some? ==> slots[i].idea != slots[j].idea)
    && (forall i :: 0 <= i < |slots| && slots[i].idea.Some? && slots[i].task == Unfinished ==>
          slots[i].idea.value !in finished)
    && |finished| + running + One(prepared.Some?) + limbo == admitted
  }

  /** What a slot holds of an idea agrees with how its job ended: an exception for
      the ideas in `failed`, and for no others. */
  predicate EndedRight(s: Slot, failed: set<nat>) {
    s.idea.Some? ==>
      && (s.ready || s.task == Finished(true) || s.task == Unfinished ==> s.idea.value !in failed)
      && (s.task == Finished(false) ==> s.idea.value in failed)
  }

  /** Its result has left the slot. */
  predicate Emptied(s: Slot) {
    s.task == NoTask && !s.ready
  }

  /** Every idea is in one slot at most, and nothing delivered belongs to an idea
      whose job failed. */
  ghost predicate Ideas(slots: seq<Slot>, admitted: nat, delivered: seq<nat>, failed: set<nat>) {
    && (forall i :: 0 <= i < |slots| && slots[i].idea.Some? ==> slots[i].idea.value < admitted)
    && (forall i, j :: 0 <= i < j < |slots| && slots[i].idea.Some? ==> slots[i].idea != slots[j].idea)
    && (forall i :: 0 <= i < |slots| ==> EndedRight(slots[i], failed))
    && (forall i :: 0 <= i < |slots| && slots[i].idea.Some? && slots[i].idea.value in delivered ==> Emptied(slots[i]))
    && (forall d :: d in delivered ==> d < admitted && d !in failed)
    && (forall d :: d in failed ==> d < admitted)
  }

  /** What the input feed has answered so far: how many ideas, whether it said it had
      ended, and whether it threw. */
  datatype Feed = Feed(offered: nat, ended: bool, threw: bool)

  // ----- rewriting one slot -----

  lemma IdeasRewrite(slots: seq<Slot>, admitted: nat, delivered: seq<nat>, failed: set<nat>, i: nat, s: Slot)
    requires Ideas(slots, admitted, delivered, failed) && i < |slots| && EndedRight(s, failed)
    requires s.idea.None? || (s.idea == slots[i].idea && (s.idea.value in delivered ==> Emptied(s)))
    ensures Ideas(slots[i := s], admitted, delivered, failed)
  {
  }

  lemma IdeasFail(slots: seq<Slot>, admitted: nat, delivered: seq<nat>, failed: set<nat>, i: nat, s: Slot)
    requires Ideas(slots, admitted, delivered, failed) && i < |slots| && slots[i].idea.Some? && s.idea == slots[i].idea
    requires slots[i].idea.value !in delivered && !s.ready && s.task != Finished(true) && s.task != Unfinished
    ensures Ideas(slots[i := s], admitted, delivered, failed + {s.idea.value})
  {
  }

  lemma IdeasAdmit(slots: seq<Slot>, admitted: nat, delivered: seq<nat>, failed: set<nat>, i: nat, s: Slot)
    requires Ideas(slots, admitted, delivered, failed) && i < |slots|
    requires s.idea == Some(admitted) && Emptied(s)
    ensures Ideas(slots[i := s], admitted + 1, delivered, failed)
    ensures admitted !in delivered
  {
  }

  lemma IdeasPublish(slots: seq<Slot>, admitted: nat, delivered: seq<nat>, failed: set<nat>, i: nat, s: Slot)
    requires Ideas(slots, admitted, delivered, failed) && i < |slots| && slots[i].idea.Some? && s.idea == slots[i].idea
    requires (slots[i].ready || slots[i].task == Finished(true)) && Emptied(s)
    ensures Ideas(slots[i := s], admitted, delivered + [s.idea.value], failed)
  {
  }

  lemma IdeasFewer(slots: seq<Slot>, admitted: nat, delivered: seq<nat>, fewer: seq<nat>, failed: set<nat>)
    requires Ideas(slots, admitted, delivered, failed) && forall d :: d in fewer ==> d in delivered
    ensures Ideas(slots, admitted, fewer, failed)
  {
  }

  lemma RequeueOther(slots: seq<Slot>, completed: seq<nat>, buffered: seq<nat>, i: nat, s: Slot)
    requires Queued(slots, completed, buffered) && i < |slots| && i !in completed && i !in buffered
    ensures Queued(slots[i := s], completed, buffered)
  {
  }

  lemma LockstepOther(slots: seq<Slot>, buffered: seq<nat>, results: seq<nat>, i: nat, s: Slot)
    requires Lockstep(slots, buffered, results) && i < |slots|
    requires i !in buffered || s.idea == slots[i].idea
    ensures Lockstep(slots[i := s], buffered, results)
  {
  }

  lemma HeldOther(slots: seq<Slot>, inputSlot: Option<nat>, prepared: Option<nat>, i: nat, s: Slot)
    requires Held(slots, inputSlot, prepared) && i < |slots| && inputSlot != Some(i) && prepared != Some(i)
    requires s.started ==> s.owned && s.idea.Some? && !s.ready
    ensures Held(slots[i := s], inputSlot, prepared)
  {
  }
}

/** `pool`: a controller that reads ideas, runs them in farm slots and publishes
    their results, against every behaviour of the ideas, their jobs, the input
    feed and whoever stops it. */
module Pools {
  import opened MaskTree
  import opened Farms
  import opened Basics
  import opened PoolState

  /** What the input feed answers: an idea, its end, or an exception. */
  datatype Answer = Item | End | Failure

  /** `input_task_`: none, unfinished, or finished. */
  datatype InputTask = NoInput | Waiting | Arrived(answer: Answer)

  /** The coroutine that owns the pool: none, a staged read that has not started,
      or a read or a close that is parked in `waiter_` or queued on the deck. */
  datatype Controller =
    | Idle
    | Staged(before: nat)
    | Reading(before: nat, parked: bool)
    | Closing(parked: bool)

  /** Every idea the input offered is admitted, or waits in the settled read; its end
      was believed only when it said so; what it threw is still to be rethrown. */
  ghost predicate Fed(feed: Feed, admitted: nat, inputTask: InputTask, inputEnded: bool) {
    && feed.offered == admitted + One(inputTask == Arrived(Item))
    && (feed.ended <==> inputEnded || inputTask == Arrived(End))
    && (feed.threw <==> inputTask == Arrived(Failure))
  }

  /** The input's answer is entered in what it has answered. */
  function Heard(feed: Feed, answer: Answer): Feed {
    match answer
    case Item => feed.(offered := feed.offered + 1)
    case End => feed.(ended := true)
    case Failure => feed.(threw := true)
  }

  /** The counters, the queues and the held slots agree with the slots and the farm. */
  ghost predicate Books(slots: seq<Slot>, free: set<nat>, occupied: int, running: int, completed: seq<nat>, buffered: seq<nat>,
                        inputSlot: Option<nat>, prepared: Option<nat>, inputStarted: bool, inputTask: InputTask,
                        stopping: bool, asked: set<nat>, inputAsked: bool) {
    && Counted(slots, free, occupied, running)
    && Queued(slots, completed, buffered)
    && Held(slots, inputSlot, prepared)
    && (inputStarted ==> inputTask != NoInput)
    && (inputTask != NoInput ==> inputSlot.Some?)
    && (stopping ==> Running(slots) <= asked && (inputTask == Waiting ==> inputAsked))
  }

  /** Every owned slot (but `limbo`) is in its place and every idea accounted for. */
  ghost predicate Accounts(slots: seq<Slot>, inputSlot: Option<nat>, prepared: Option<nat>, completed: seq<nat>,
                           buffered: seq<nat>, running: int, finished: seq<nat>, delivered: seq<nat>, admitted: nat,
                           inputTask: InputTask, inputEnded: bool, feed: Feed, failed: set<nat>, limbo: Option<nat>) {
    && Placed(slots, inputSlot, prepared, completed, buffered, limbo)
    && History(slots, completed, prepared, running, finished, delivered, admitted, One(limbo.Some?))
    && (inputTask == NoInput ==> inputSlot.None?)
    && (inputEnded ==> inputSlot.None?)
    && Fed(feed, admitted, inputTask, inputEnded)
    && forall d :: d in failed ==> d in finished
  }

  lemma CompleteAccounts(slots: seq<Slot>, inputSlot: Option<nat>, prepared: Option<nat>, completed: seq<nat>,
                         buffered: seq<nat>, running: int, finished: seq<nat>, delivered: seq<nat>, admitted: nat,
                         inputTask: InputTask, inputEnded: bool, feed: Feed, failed: set<nat>, limbo: Option<nat>,
                         i: nat, s: Slot, threw: bool)
    requires Accounts(slots, inputSlot, prepared, completed, buffered, running, finished, delivered, admitted,
                      inputTask, inputEnded, feed, failed, limbo)
    requires i < |slots| && Finishes(slots[i], s) && slots[i].idea.value !in finished && i !in completed
    requires (limbo == None && Runs(slots[i])) || (limbo == Some(i) && !Runs(slots[i]))
    ensures Accounts(slots[i := s], inputSlot, prepared, completed + [i], buffered, running - One(Runs(slots[i])),
                     finished + [slots[i].idea.value], delivered, admitted, inputTask, inputEnded, feed,
                     failed + if threw then {slots[i].idea.value} else {}, None)
  {
    hide Placed, History;
    CompletePlaced(slots, inputSlot, prepared, completed, buffered, limbo, i, s);
    CompleteHistory(slots, completed, prepared, running, finished, delivered, admitted, limbo, i, s);
  }

  predicate Parked(c: Controller) {
    (c.Reading? || c.Closing?) && c.parked
  }

  function Woken(c: Controller): Controller {
    if Parked(c) then c.(parked := false) else c
  }

  class Pool {
    const farm: Farm
    var slots: seq<Slot>
    var inputTask: InputTask
    var inputSlot: Option<nat>
    var prepared: Option<nat>
    var completed: seq<nat>
    var buffered: seq<nat>
    var results: seq<nat>
    var occupied: int
    var running: int
    var inputStarted: bool
    var inputEnded: bool
    var changed: bool
    var stopping: bool
    var failure: bool
    var controller: Controller
    var asked: set<nat>
    var inputAsked: bool
    var admitted: nat

    ghost var finished: seq<nat>
    /** What consumers have received, in order. */
    ghost var taken: seq<nat>
    /** The ideas whose invocation threw or whose job ended with an exception. */
    ghost var failed: set<nat>
    /** What the input has answered. */
    ghost var feed: Feed
    /** Somebody outside asked the pool to stop. */
    ghost var requested: bool
    /** A move of an idea or of a result threw, or the deck had no room. */
    ghost var trouble: bool
    ghost var wakeups: nat

    /** Something has gone wrong. */
    ghost predicate Cause()
      reads `trouble, `failed, `feed
    {
      trouble || failed != {} || feed.threw
    }

    predicate InputPending()
      reads this
    {
      inputStarted && inputTask == Waiting
    }

    /** Holds at every point of every run, whatever threw. */
    ghost predicate Core()
      reads `slots, `occupied, `running, `completed, `buffered, `inputSlot, `prepared, `inputStarted, `inputTask
      reads `stopping, `asked, `inputAsked, farm.hot, farm.hot.data, farm.cold.words
    {
      && farm.Valid() && this !in farm.Repr()
      && |slots| == farm.capacity
      && Books(slots, farm.Free(), occupied, running, completed, buffered, inputSlot, prepared,
               inputStarted, inputTask, stopping, asked, inputAsked)
    }

    /** Holds besides while nothing has thrown and nobody has stopped the pool. */
    ghost predicate Whole()
      reads `slots, `inputSlot, `prepared, `completed, `buffered, `running, `finished, `results, `admitted, `inputTask, `inputEnded, `failed, `feed, `taken
    {
      WholeAs(taken)
    }

    /** The same, had consumers received `gone`: with what is in the ring, that is
        what finished first. */
    ghost predicate WholeAs(gone: seq<nat>)
      reads `slots, `inputSlot, `prepared, `completed, `buffered, `running, `finished, `results, `admitted, `inputTask, `inputEnded, `failed, `feed
    {
      Accounts(slots, inputSlot, prepared, completed, buffered, running, finished, gone + results, admitted,
               inputTask, inputEnded, feed, failed, None)
    }

    ghost predicate Base()
      reads this, farm.hot, farm.hot.data, farm.cold.words
    {
      Core() && Lockstep(slots, buffered, results) && Ideas(slots, admitted, taken + results, failed)
    }

    /** A pool over a farm whose slots are all free; the source throws for an empty farm. */
    constructor (farm: Farm)
      requires farm.Valid() && farm.Free() == Indices(farm.capacity) && farm.capacity > 0
      ensures this.farm == farm && Base() && Whole() && controller == Idle && !stopping
      ensures admitted == 0 && taken == [] && results == [] && occupied == 0
      ensures !Cause() && failed == {} && feed == Feed(0, false, false) && !requested && !failure && !changed
    {
      hide Farm.Valid, Farm.Free, Counted, Queued, Held, Lockstep, Placed, History, Ideas, Owned, Running, Indices;
      this.farm := farm;
      slots := seq(farm.capacity, _ => Blank());
      inputTask, inputSlot, prepared := NoInput, None, None;
      completed, buffered, results := [], [], [];
      occupied, running := 0, 0;
      inputStarted, inputEnded, changed, stopping, failure := false, false, false, false, false;
      controller, asked, inputAsked := Idle, {}, false;
      admitted, finished, taken, wakeups := 0, [], [], 0;
      failed, feed, requested, trouble := {}, Feed(0, false, false), false, false;
      new;
      assert taken + results == [];
      AllBlank(slots);
    }

    lemma Bounds()
      requires Base()
      ensures 0 <= occupied <= |slots| == farm.capacity && 0 <= running && |buffered| == |results|
      ensures inputTask == NoInput ==> !inputStarted
      ensures Whole() && inputEnded ==> inputTask == NoInput
    {
      OccupiedBound(slots, farm.Free(), occupied, running);
    }

    /** `signal`: wakes the parked controller, once. */
    method Signal()
      modifies `changed, `controller, `wakeups
      ensures changed && controller == Woken(old(controller))
      ensures wakeups == old(wakeups) + if Parked(old(controller)) then 1 else 0
    {
      changed := true;
      if Parked(controller) {
        controller := controller.(parked := false);
        wakeups := wakeups + 1;
      }
    }

    /** `stop`: no further admission, and a stop request to the input read and every
        owned slot. */
    method Stop()
      requires Core()
      modifies `stopping, `asked, `inputAsked, `changed, `controller, `wakeups
      ensures Core() && stopping && changed && controller == Woken(old(controller))
      ensures wakeups == old(wakeups) + if Parked(old(controller)) then 1 else 0
      ensures Owned(slots) <= asked && (inputTask != NoInput ==> inputAsked)
    {
      hide Counted, Queued, Held, Running, Owned, Farm.Valid, Farm.Free;
      asked := AskSlots();
      inputAsked := inputTask != NoInput;
      RunningOwned(slots);
      stopping := true;
      Signal();
    }

    /** The loop of `stop`: who has been asked once every owned slot was. */
    method AskSlots() returns (all: set<nat>)
      ensures asked <= all && Owned(slots) <= all
    {
      all := asked;
      for i := 0 to |slots|
        invariant asked <= all && forall j: nat :: j < i && slots[j].owned ==> j in all
      {
        if slots[i].owned {
          all := all + {i};
        }
      }
    }

    /** `reserve`: an owned, blank slot, or none when the farm has none. */
    method Reserve() returns (r: Option<nat>)
      requires Core()
      modifies `slots, `occupied, farm.Repr()
      ensures Core()
      ensures r.None? <==> old(occupied) == |slots|
      ensures r.None? ==> slots == old(slots) && occupied == old(occupied)
      ensures r.Some? ==>
                && r.value < |slots| == |old(slots)| && !old(slots)[r.value].owned
                && slots == old(slots)[r.value := Blank().(owned := true)]
                && occupied == old(occupied) + 1
    {
      hide Farm.Valid, Farm.Free, Queued, Held, Lockstep, Running;
      FullWhenNoneFree(slots, farm.Free(), occupied, running);
      var found, i := farm.TryAlloc();
      if !found {
        return None;
      }
      ghost var s := Blank().(owned := true);
      Recount(slots, old(farm.Free()), occupied, running, i, s);
      NotQueued(slots, completed, buffered, inputSlot, prepared, i);
      RequeueOther(slots, completed, buffered, i, s);
      HeldOther(slots, inputSlot, prepared, i, s);
      RunningOther(slots, i, s);
      slots := slots[i := slots[i].(owned := true)];
      occupied := occupied + 1;
      r := Some(i);
    }

    /** `release`: resets a slot and gives it back; never one whose frame still runs. */
    method Release(i: nat)
      requires Core()
      requires i < |slots| && slots[i].owned && !Runs(slots[i])
      requires i !in completed && i !in buffered && inputSlot != Some(i) && prepared != Some(i)
      modifies `slots, `occupied, farm.Repr()
      ensures Core() && slots == old(slots)[i := Blank()] && occupied == old(occupied) - 1
    {
      hide Farm.Valid, Farm.Free, Queued, Held, Lockstep, Running;
      Recount(slots, farm.Free(), occupied, running, i, Blank());
      RequeueOther(slots, completed, buffered, i, Blank());
      HeldOther(slots, inputSlot, prepared, i, Blank());
      RunningOther(slots, i, Blank());
      slots := slots[i := Blank()];
      occupied := occupied - 1;
      farm.Give(i);
    }

    /** `toss` and the `consumed` notification behind it: the consumer takes the
        `n` oldest results and their slots go back to the farm. */
    method Toss(n: nat)
      requires Base() && n <= |results|
      modifies `slots, `occupied, `results, `buffered, farm.Repr()
      ensures Base()
      ensures results == old(results)[n..] && buffered == old(buffered)[n..]
      ensures slots == Cleared(old(slots), old(buffered)[..n])
      ensures occupied == old(occupied) - n
      ensures old(Whole()) ==> WholeAs(taken + old(results)[..n])
      ensures Ideas(slots, admitted, taken + old(results)[..n] + results, failed)
    {
      hide Counted, Queued, Lockstep, Held, Cleared, Running, Farm.Valid, Farm.Free, Placed, History, Ideas;
      ghost var whole := Whole();
      ghost var delivered := taken + results;
      assert (taken + results[..n]) + results[n..] == delivered;
      ghost var slots0, buffered0 := slots, buffered;
      SameLength(slots, buffered, results);
      results := results[n..];
      assert buffered0[..0] == [];
      ClearNone(slots0);
      var k := n;
      while k != 0
        invariant 0 <= k <= n && Core() && results == old(results)[n..]
        invariant buffered == buffered0[n - k..]
        invariant slots == Cleared(slots0, buffered0[..n - k])
        invariant occupied == old(occupied) - (n - k)
      {
        var i := buffered[0];
        assert i == buffered0[n - k];
        assert buffered0[..n - k + 1] == buffered0[..n - k] + [i];
        PopBuffered(slots, completed, buffered, inputSlot, prepared);
        ClearOne(slots0, buffered0[..n - k], i);
        buffered := buffered[1..];
        assert buffered == buffered0[n - k + 1..];
        Release(i);
        k := k - 1;
      }
      QueueDistinct(slots0, completed, buffered0);
      ClearedIdeas(slots0, buffered0[..n], admitted, delivered, delivered, failed);
      IdeasFewer(slots, admitted, delivered, taken + old(results)[n..], failed);
      ClearedLockstep(slots0, buffered0, old(results), n);
      if whole {
        ClearedPlaced(slots0, inputSlot, prepared, completed, buffered0, n);
        ClearedHistory(slots0, completed, buffered0, n, prepared, running, finished, delivered, admitted);
      }
    }

    /** The slot's idea has neither been delivered nor failed. */
    ghost predicate Fresh(i: nat)
      reads `slots, `taken, `results, `failed
    {
      i < |slots| && slots[i].idea.Some? && slots[i].idea.value !in taken + results && slots[i].idea.value !in failed
    }

    /** A slot's work ends: `completed_.push`, and the running count if it ran. */
    method Complete(i: nat, s: Slot, ghost threw: bool)
      requires Base() && i < |slots| && Finishes(slots[i], s) && Fresh(i) && (threw <==> s.task == Finished(false))
      requires i !in completed && i !in buffered && inputSlot != Some(i) && prepared != Some(i)
      modifies `slots, `running, `completed, `finished, `failed
      ensures Base() && slots == old(slots)[i := s] && completed == old(completed) + [i]
      ensures running == old(running) - One(Runs(old(slots)[i]))
      ensures finished == old(finished) + [old(slots[i].idea.value)]
      ensures failed == old(failed) + if threw then {old(slots[i].idea.value)} else {}
    {
      hide Books, Lockstep, Ideas, Finishes, Runs, Farm.Valid, Farm.Free;
      CompleteAll(slots, farm.Free(), occupied, running, completed, buffered, inputSlot, prepared, inputStarted, inputTask,
                  stopping, asked, inputAsked, results, admitted, taken + results, failed, i, s, threw);
      ghost var idea := slots[i].idea.value;
      slots, running, completed := slots[i := s], running - One(Runs(slots[i])), completed + [i];
      finished, failed := finished + [idea], failed + if threw then {idea} else {};
    }

    /** The same while nothing has stopped the pool: the accounts stay whole. */
    method CompleteWhole(i: nat, s: Slot, limbo: Option<nat>, ghost threw: bool)
      requires Base() && i < |slots| && Finishes(slots[i], s) && Fresh(i) && (threw <==> s.task == Finished(false))
      requires i !in completed && i !in buffered && inputSlot != Some(i) && prepared != Some(i)
      requires Located(limbo) && slots[i].idea.value !in finished
      requires (limbo == None && Runs(slots[i])) || (limbo == Some(i) && !Runs(slots[i]))
      modifies `slots, `running, `completed, `finished, `failed
      ensures Base() && Whole() && slots == old(slots)[i := s] && completed == old(completed) + [i]
      ensures running == old(running) - One(Runs(old(slots)[i]))
      ensures finished == old(finished) + [old(slots[i].idea.value)]
      ensures failed == old(failed) + if threw then {old(slots[i].idea.value)} else {}
    {
      hide Pool.Base, Accounts, Finishes, Runs;
      CompleteAccounts(slots, inputSlot, prepared, completed, buffered, running, finished, taken + results, admitted,
                       inputTask, inputEnded, feed, failed, limbo, i, s, threw);
      Complete(i, s, threw);
    }

    /** Every slot but `limbo` is placed, and every admitted idea accounted for. */
    ghost predicate Located(limbo: Option<nat>)
      reads `slots, `inputSlot, `prepared, `completed, `buffered, `running, `finished, `results, `admitted, `inputTask, `inputEnded, `failed, `feed, `taken
    {
      Accounts(slots, inputSlot, prepared, completed, buffered, running, finished, taken + results, admitted,
               inputTask, inputEnded, feed, failed, limbo)
    }

    /** What a parked controller relies on: something is running that will wake
        it, and nothing that already finished is waiting for it. */
    ghost predicate Watched()
      reads this
    {
      && (Parked(controller) ==> !changed && completed == [] && (running > 0 || InputPending()))
      && ((controller.Staged? || controller.Reading?) ==>
            controller.before < |slots| && (!stopping ==> |results| <= controller.before))
      && (controller.Closing? ==> stopping)
      && ((controller.Staged? || controller.Reading?) && stopping ==> requested || failure)
      && (stopping ==> requested || Cause())
    }

    /** The invariant of every state between two steps of a run. */
    ghost predicate Valid()
      reads this, farm.hot, farm.hot.data, farm.cold.words
    {
      Base() && (!stopping ==> Whole()) && Watched()
    }

    /** A running job reaches its end: `completed`, which wakes the parked controller. */
    method JobFinishes(i: nat, ok: bool)
      requires Valid() && i < |slots| && Runs(slots[i])
      modifies this
      ensures taken == old(taken) && old(finished) <= finished
      ensures Valid() && !Parked(controller)
      ensures wakeups == old(wakeups) + One(Parked(old(controller)))
      ensures slots == old(slots)[i := old(slots)[i].(task := Finished(ok))] && running == old(running) - 1
      ensures completed == old(completed) + [i] && stopping == old(stopping)
      ensures old(slots)[i].idea.Some? && finished == old(finished) + [old(slots)[i].idea.value]
      ensures failed == old(failed) + if ok then {} else {old(slots)[i].idea.value}
      ensures feed == old(feed) && requested == old(requested) && results == old(results)
    {
      hide Pool.Core, Lockstep, Ideas, Accounts, Runs, Farm.Valid, Farm.Free;
      EndJob(i, ok);
      Signal();
    }

    /** What it leaves behind. */
    method EndJob(i: nat, ok: bool)
      requires Base() && (!stopping ==> Whole()) && i < |slots| && Runs(slots[i])
      modifies `slots, `running, `completed, `finished, `failed
      ensures Base() && (!stopping ==> Whole())
      ensures slots == old(slots)[i := old(slots)[i].(task := Finished(ok))] && running == old(running) - 1
      ensures completed == old(completed) + [i]
      ensures old(slots)[i].idea.Some? && finished == old(finished) + [old(slots)[i].idea.value]
      ensures failed == old(failed) + if ok then {} else {old(slots)[i].idea.value}
    {
      hide Pool.Core, Lockstep, Ideas, Accounts, Farm.Valid, Farm.Free, Finishes;
      RunningSlot(i, ok);
      if stopping {
        Complete(i, slots[i].(task := Finished(ok)), !ok);
      } else {
        CompleteWhole(i, slots[i].(task := Finished(ok)), None, !ok);
      }
    }

    /** A running slot is in no list, and its idea has neither been delivered nor failed. */
    lemma RunningSlot(i: nat, ok: bool)
      requires Base() && (!stopping ==> Whole()) && i < |slots| && Runs(slots[i])
      ensures Fresh(i) && Finishes(slots[i], slots[i].(task := Finished(ok)))
      ensures i !in completed && i !in buffered && inputSlot != Some(i) && prepared != Some(i)
      ensures !stopping ==> Located(None) && slots[i].idea.value !in finished
    {
      hide Counted, Queued, Lockstep, Held, Running, Placed, History, Ideas, Farm.Valid, Farm.Free;
      RunningElsewhere(slots, completed, buffered, inputSlot, prepared, i);
      IdeasUnfinished(slots, admitted, taken + results, failed, i);
      if !stopping {
        RunningUnfinished(slots, completed, prepared, running, finished, taken + results, admitted, i);
      }
    }

    /** The started input read settles: the same waiter is woken. */
    method InputFinishes(answer: Answer)
      requires Valid() && InputPending()
      modifies `inputTask, `changed, `controller, `wakeups, `feed
      ensures Valid() && !Parked(controller) && inputTask == Arrived(answer)
      ensures wakeups == old(wakeups) + One(Parked(old(controller)))
      ensures feed == Heard(old(feed), answer)
    {
      hide Pool.Core, Lockstep, Ideas, Accounts, Farm.Valid, Farm.Free;
      Hear(answer);
      Signal();
    }

    /** The input's task reaches its end. */
    method Hear(answer: Answer)
      requires Base() && InputPending() && (!stopping ==> Whole())
      modifies `inputTask, `feed
      ensures Base() && (!stopping ==> Whole()) && inputTask == Arrived(answer) && feed == Heard(old(feed), answer)
    {
      hide Counted, Queued, Lockstep, Held, Running, Placed, History, Ideas, Farm.Valid, Farm.Free;
      inputTask := Arrived(answer);
      feed := Heard(feed, answer);
    }

    /** A stop that began since then was asked for from outside. */
    ghost predicate Asking(requested0: bool, stopping0: bool)
      reads `requested, `stopping
    {
      (requested0 ==> requested) && (stopping0 ==> stopping) && (stopping && !stopping0 ==> requested)
    }

    /** Code the pool calls out to may call `stop` before it returns. */
    method CallOut()
      requires Core() && !Parked(controller)
      modifies `stopping, `requested, `asked, `inputAsked, `changed, `controller, `wakeups
      ensures Core() && controller == old(controller) && wakeups == old(wakeups)
      ensures old(stopping) ==> stopping
      ensures !stopping ==> changed == old(changed)
      ensures (old(requested) ==> requested) && (stopping && !old(stopping) ==> requested)
    {
      hide Pool.Core;
      var stops: bool := *;
      if stops {
        Stop();
        requested := true;
      }
    }

    /** The idea moves into its slot and is now admitted. */
    method Admit(i: nat)
      requires Base() && i < |slots| && slots[i] == Blank().(owned := true)
      requires inputSlot.None? && inputTask == NoInput && prepared != Some(i)
      modifies `slots, `admitted
      ensures Base() && slots == old(slots)[i := old(slots)[i].(idea := Some(old(admitted)))]
      ensures admitted == old(admitted) + 1
      ensures i !in completed && i !in buffered && Fresh(i)
      ensures old(Placed(slots, Some(i), prepared, completed, buffered, None)) && old(History(slots, completed, prepared,
                running, finished, taken + results, admitted, 0))
              && old(feed == Feed(admitted + 1, false, false) && !inputEnded && forall d :: d in failed ==> d in finished)
              ==> Located(Some(i)) && slots[i].idea.value !in finished
    {
      hide Counted, Queued, Lockstep, Held, Running, Placed, History, Ideas, Farm.Valid, Farm.Free;
      ghost var s := slots[i].(idea := Some(admitted));
      BlankElsewhere(slots, completed, buffered, i);
      Recount(slots, farm.Free(), occupied, running, i, s);
      FreeUnchanged(slots, farm.Free(), occupied, running, i);
      RequeueOther(slots, completed, buffered, i, s);
      LockstepOther(slots, buffered, results, i, s);
      HeldOther(slots, inputSlot, prepared, i, s);
      RunningOther(slots, i, s);
      IdeasAdmit(slots, admitted, taken + results, failed, i, s);
      IdeasBound(slots, admitted, taken + results, failed);
      if Placed(slots, Some(i), prepared, completed, buffered, None)
        && History(slots, completed, prepared, running, finished, taken + results, admitted, 0)
      {
        AdmitPlaced(slots, prepared, completed, buffered, i, s);
        AdmitHistory(slots, completed, prepared, running, finished, taken + results, admitted, i, s);
      }
      slots := slots[i := slots[i].(idea := Some(admitted))];
      admitted := admitted + 1;
    }

    /** The idea's task waits in `prepared_` for the deck. */
    method Prepare(i: nat)
      requires Base() && i < |slots| && prepared.None? && inputSlot != Some(i)
      requires i !in completed && i !in buffered && Fresh(i)
      requires slots[i].owned && slots[i].idea.Some? && slots[i].task == NoTask && !slots[i].ready && !slots[i].started
      modifies `slots, `prepared
      ensures Base() && prepared == Some(i) && slots == old(slots)[i := old(slots)[i].(task := Unfinished)]
      ensures old(Located(Some(i))) && slots[i].idea.value !in finished ==> Whole()
    {
      hide Counted, Queued, Lockstep, Held, Running, Placed, History, Ideas, Farm.Valid, Farm.Free;
      ghost var s := slots[i].(task := Unfinished);
      Recount(slots, farm.Free(), occupied, running, i, s);
      FreeUnchanged(slots, farm.Free(), occupied, running, i);
      RequeueOther(slots, completed, buffered, i, s);
      LockstepOther(slots, buffered, results, i, s);
      RunningOther(slots, i, s);
      IdeasRewrite(slots, admitted, taken + results, failed, i, s);
      PrepareHeld(slots, inputSlot, i, s);
      if Located(Some(i)) && slots[i].idea.value !in finished {
        PreparePlaced(slots, inputSlot, completed, buffered, i, s);
        PrepareHistory(slots, completed, running, finished, taken + results, admitted, i, s);
      }
      slots := slots[i := slots[i].(task := Unfinished)];
      prepared := Some(i);
    }

    /** `accept_input`: the reserved slot takes the idea, which is invoked once. A
        throw leaves the slot owned and in no queue, for the teardown to find. */
    method AcceptInput(item: bool, answer: Invocation) returns (threw: bool)
      requires Base() && !Parked(controller)
      requires inputSlot.Some? && inputTask == NoInput && !inputStarted && prepared.None?
      requires !stopping ==> !inputEnded && Placed(slots, inputSlot, prepared, completed, buffered, None)
                             && History(slots, completed, prepared, running, finished, taken + results, admitted, 0)
                             && feed == Feed(admitted + One(item), !item, false) && forall d :: d in failed ==> d in finished
      modifies this, farm.Repr()
      ensures taken == old(taken) && old(finished) <= finished
      ensures Base() && !inputStarted && inputTask == NoInput && controller == old(controller)
      ensures results == old(results) && failure == old(failure) && wakeups == old(wakeups)
      ensures running == old(running)
      ensures !stopping ==> changed == old(changed)
      ensures Asking(old(requested), old(stopping))
      ensures !stopping && !threw && item ==> !Throwing(answer) && admitted == old(admitted) + 1
      ensures !stopping && !threw ==> failed == old(failed) + if item && Bad(answer) then {old(admitted)} else {}
      ensures feed == old(feed)
      ensures (threw ==> Cause()) && (old(Cause()) ==> Cause())
      ensures !stopping && !threw ==> Whole()
      ensures !stopping && !threw ==> inputEnded == !item && occupied == old(occupied) - One(!item)
    {
      hide Pool.Core, Lockstep, Ideas, Accounts, Placed, History, Fed, Farm.Valid, Farm.Free;
      if stopping {
        return false;
      }
      if !item {
        EndInput();
        return false;
      }
      threw := AcceptItem(answer);
    }

    /** The idea moves into the reserved slot and is invoked. */
    method AcceptItem(answer: Invocation) returns (threw: bool)
      requires Base() && !stopping && !Parked(controller)
      requires inputSlot.Some? && inputTask == NoInput && !inputStarted && prepared.None? && !inputEnded
      requires Placed(slots, inputSlot, prepared, completed, buffered, None)
               && History(slots, completed, prepared, running, finished, taken + results, admitted, 0)
               && feed == Feed(admitted + 1, false, false) && forall d :: d in failed ==> d in finished
      modifies `slots, `running, `completed, `finished, `failed, `prepared, `stopping, `requested, `asked, `inputAsked
      modifies `changed, `controller, `wakeups, `inputSlot, `admitted, `trouble
      ensures running == old(running) && old(finished) <= finished
      ensures Base() && controller == old(controller) && wakeups == old(wakeups)
      ensures !stopping ==> changed == old(changed)
      ensures Asking(old(requested), false)
      ensures (threw ==> Cause()) && (old(Cause()) ==> Cause())
      ensures !stopping && !threw ==> Whole() && !Throwing(answer) && admitted == old(admitted) + 1
      ensures !stopping && !threw ==> failed == old(failed) + if Bad(answer) then {old(admitted)} else {}
    {
      hide Pool.Core, Lockstep, Ideas, Accounts, Placed, History, Farm.Valid, Farm.Free;
      var i := TakeReserved();
      var moved: bool := *;
      if !moved {
        trouble := true;
        CallOut();
        return true;
      }
      Admit(i);
      CallOut();
      if stopping {
        return false;
      }
      threw := Invoke(i, answer);
    }

    /** `std::exchange(input_slot_, nullptr)`. */
    method TakeReserved() returns (i: nat)
      requires Base() && inputSlot.Some? && inputTask == NoInput && prepared.None?
      modifies `inputSlot
      ensures Base() && inputSlot.None? && old(inputSlot) == Some(i)
      ensures i < |slots| && slots[i] == Blank().(owned := true)
    {
      hide Counted, Queued, Lockstep, Held, Running, Placed, History, Ideas, Farm.Valid, Farm.Free;
      HeldBlank(slots, inputSlot, prepared);
      HeldWithout(slots, inputSlot, prepared);
      i := inputSlot.value;
      inputSlot := None;
    }

    /** The input has ended: its reserved slot goes back. */
    method EndInput()
      requires Base() && !stopping && inputSlot.Some? && inputTask == NoInput && prepared.None?
      requires Placed(slots, inputSlot, prepared, completed, buffered, None)
      requires History(slots, completed, prepared, running, finished, taken + results, admitted, 0)
      requires feed == Feed(admitted, true, false) && forall d :: d in failed ==> d in finished
      modifies `slots, `occupied, `inputSlot, `inputEnded, farm.Repr()
      ensures Base() && Whole() && inputEnded && occupied == old(occupied) - 1
    {
      hide Counted, Queued, Lockstep, Held, Running, Placed, History, Ideas, Farm.Valid, Farm.Free;
      var i := inputSlot.value;
      HeldBlank(slots, inputSlot, prepared);
      HeldWithout(slots, inputSlot, prepared);
      BlankElsewhere(slots, completed, buffered, i);
      ClearReserved(slots, inputSlot, prepared, completed, buffered, running, finished, taken + results, admitted);
      LockstepOther(slots, buffered, results, i, Blank());
      IdeasRewrite(slots, admitted, taken + results, failed, i, Blank());
      inputSlot := None;
      inputEnded := true;
      Release(i);
    }

    /** `std::invoke` on the stored idea, and what each kind of answer does to the slot. */
    method Invoke(i: nat, answer: Invocation) returns (threw: bool)
      requires i < |slots| && slots[i].idea.Some? && slots[i] == Blank().(owned := true, idea := slots[i].idea)
      requires Base() && !stopping && !Parked(controller) && Located(Some(i)) && slots[i].idea.value !in finished
      requires i !in completed && i !in buffered && inputSlot.None? && prepared.None? && Fresh(i)
      modifies `slots, `running, `completed, `finished, `failed, `prepared, `stopping, `requested, `asked, `inputAsked, `changed, `controller, `wakeups
      ensures Base() && controller == old(controller) && wakeups == old(wakeups)
      ensures !stopping ==> changed == old(changed)
      ensures !stopping && !threw ==> Whole()
      ensures running == old(running) && old(finished) <= finished && Asking(old(requested), false)
      ensures threw <==> Throwing(answer)
      ensures failed == old(failed) + if Bad(answer) then {old(slots[i].idea.value)} else {}
    {
      hide Pool.Core, Lockstep, Ideas, Accounts, Farm.Valid, Farm.Free;
      CallOut();
      match answer {
        case Throws => threw := Fail(i);
        case EmptyTask => threw := Fail(i);
        case ReadyValue =>
          threw := false;
          Conclude(i, slots[i].(ready := true), false);
        case DoneTask(ok) =>
          threw := false;
          Conclude(i, slots[i].(task := Finished(ok)), !ok);
        case PendingTask =>
          threw := false;
          Prepare(i);
      }
    }

    /** `completed_.push` of an idea that needs no deck. */
    method Conclude(i: nat, s: Slot, ghost threw: bool)
      requires Base() && i < |slots| && Finishes(slots[i], s) && Fresh(i) && (threw <==> s.task == Finished(false))
      requires i !in completed && i !in buffered && inputSlot != Some(i) && prepared != Some(i)
      requires Located(Some(i)) && slots[i].idea.value !in finished && !Runs(slots[i])
      modifies `slots, `running, `completed, `finished, `failed
      ensures Base() && Whole() && running == old(running) && old(finished) <= finished
      ensures failed == old(failed) + if threw then {old(slots[i].idea.value)} else {}
    {
      hide Pool.Base, Accounts, Finishes, Runs;
      CompleteWhole(i, s, Some(i), threw);
    }

    /** The exception leaves `accept_input`; the slot keeps its idea. */
    method Fail(i: nat) returns (threw: bool)
      requires Base() && i < |slots| && Fresh(i) && Emptied(slots[i])
      modifies `failed
      ensures Base() && threw && failed == old(failed) + {slots[i].idea.value}
    {
      hide Counted, Queued, Lockstep, Held, Running, Placed, History, Ideas, Farm.Valid, Farm.Free;
      IdeasFail(slots, admitted, taken + results, failed, i, slots[i]);
      assert slots[i := slots[i]] == slots;
      failed := failed + {slots[i].idea.value};
      threw := true;
    }

    /** The oldest completed slot's result enters the ring; its frame is dropped. */
    method PublishOne()
      requires Base() && completed != [] && completed[0] < |slots| && slots[completed[0]].idea.Some?
      requires slots[completed[0]].task != Finished(false)
      modifies `slots, `completed, `buffered, `results
      ensures Base() && completed == old(completed)[1..]
      ensures results == old(results) + [old(slots[completed[0]].idea.value)]
      ensures old(Whole()) ==> Whole()
    {
      hide Counted, Queued, Lockstep, Held, Running, Placed, History, Ideas, Farm.Valid, Farm.Free;
      var i := completed[0];
      CompletedFront(slots, completed, buffered, inputSlot, prepared);
      ghost var s := slots[i].(task := NoTask, ready := false);
      ResultRoom(slots, completed, buffered);
      SameLength(slots, buffered, results);
      assert |results| < farm.capacity;
      Recount(slots, farm.Free(), occupied, running, i, s);
      FreeUnchanged(slots, farm.Free(), occupied, running, i);
      MoveToBuffered(slots, completed, buffered, i, s);
      PushLockstep(slots, buffered, results, i, s);
      HeldOther(slots, inputSlot, prepared, i, s);
      RunningOther(slots, i, s);
      IdeasPublish(slots, admitted, taken + results, failed, i, s);
      if Whole() {
        PublishPlaced(slots, inputSlot, prepared, completed, buffered, s);
        PublishHistory(slots, completed, prepared, running, finished, taken + results, admitted, s);
      }
      assert (taken + results) + [slots[i].idea.value] == taken + (results + [slots[i].idea.value]);
      results := results + [slots[i].idea.value];
      buffered := buffered + [i];
      completed := completed[1..];
      slots := slots[i := slots[i].(task := NoTask, ready := false)];
    }

    lemma FrontCompleted()
      requires Base() && completed != []
      ensures completed[0] < |slots| && slots[completed[0]].idea.Some?
      ensures slots[completed[0]].task == Finished(false) ==> failed != {}
    {
      CompletedFront(slots, completed, buffered, inputSlot, prepared);
    }

    /** `publish_completed`: everything that finished, in the order it finished.
        A failed job or a throwing move leaves its slot in `completed_`. */
    method PublishCompleted() returns (threw: bool)
      requires Base() && !Parked(controller) && (!stopping ==> Whole())
      modifies `slots, `completed, `buffered, `results, `stopping, `requested, `asked, `inputAsked, `changed, `controller, `wakeups, `trouble
      ensures Base() && controller == old(controller) && wakeups == old(wakeups)
      ensures old(results) <= results
      ensures (threw ==> Cause()) && (old(Cause()) ==> Cause())
      ensures !threw ==> completed == []
      ensures Asking(old(requested), old(stopping))
      ensures !stopping ==> changed == old(changed) && Whole()
    {
      hide Pool.Base, Pool.WholeAs;
      threw := false;
      while completed != []
        invariant Base() && controller == old(controller) && wakeups == old(wakeups)
        invariant old(results) <= results && (old(Cause()) ==> Cause())
        invariant Asking(old(requested), old(stopping))
        invariant !stopping ==> changed == old(changed) && Whole()
        decreases |completed|
      {
        threw := PublishNext();
        if threw {
          return;
        }
      }
    }

    /** One turn of its loop; a throwing move leaves the result where it is. */
    method PublishNext() returns (threw: bool)
      requires Base() && !Parked(controller) && (!stopping ==> Whole()) && completed != []
      modifies `slots, `completed, `buffered, `results, `stopping, `requested, `asked, `inputAsked, `changed, `controller, `wakeups, `trouble
      ensures Base() && controller == old(controller) && wakeups == old(wakeups)
      ensures old(results) <= results && Asking(old(requested), old(stopping))
      ensures (threw ==> Cause()) && (old(Cause()) ==> Cause())
      ensures !threw ==> completed == old(completed)[1..]
      ensures !stopping ==> changed == old(changed) && Whole()
    {
      hide Pool.Core, Pool.WholeAs, Lockstep, Ideas, Farm.Valid, Farm.Free;
      var moved: bool := *;
      CallOut();
      FrontCompleted();
      if !moved || slots[completed[0]].task == Finished(false) {
        trouble := trouble || !moved;
        return true;
      }
      PublishOne();
      threw := false;
    }

    /** `deck::start` of the prepared task; the deck may be full, which throws. */
    method StartPrepared() returns (threw: bool)
      requires Base() && prepared.Some? && !stopping
      modifies `slots, `prepared, `running, `trouble
      ensures Base() && (threw ==> slots == old(slots) && prepared == old(prepared) && running == old(running))
      ensures (threw ==> Cause()) && (old(Cause()) ==> Cause())
      ensures !threw ==> prepared.None? && running == old(running) + 1
      ensures !threw && old(Whole()) ==> Whole()
    {
      hide Counted, Queued, Lockstep, Held, Running, Placed, History, Ideas, Farm.Valid, Farm.Free;
      var full: bool := *;
      if full {
        trouble := true;
        return true;
      }
      var i := prepared.value;
      PreparedSlot(slots, completed, buffered, inputSlot, prepared);
      ghost var s := slots[i].(started := true);
      Recount(slots, farm.Free(), occupied, running, i, s);
      FreeUnchanged(slots, farm.Free(), occupied, running, i);
      RequeueOther(slots, completed, buffered, i, s);
      LockstepOther(slots, buffered, results, i, s);
      StartHeld(slots, inputSlot, prepared, s);
      IdeasUnfinished(slots, admitted, taken + results, failed, i);
      IdeasRewrite(slots, admitted, taken + results, failed, i, s);
      if Whole() {
        StartPlaced(slots, inputSlot, prepared, completed, buffered, s);
        StartHistory(slots, completed, prepared, running, finished, taken + results, admitted, s);
      }
      slots := slots[i := slots[i].(started := true)];
      running := running + 1;
      prepared := None;
      threw := false;
    }

    /** Reserves a slot, if there is one, and asks the input for the next idea. */
    method ReadInput(reply: Reply, answer: Invocation) returns (full: bool, threw: bool)
      requires Base() && !stopping && !Parked(controller) && Whole()
      requires inputTask == NoInput && !inputStarted && !inputEnded && prepared.None?
      modifies this, farm.Repr()
      ensures taken == old(taken) && old(finished) <= finished
      ensures (threw ==> Cause()) && (old(Cause()) ==> Cause())
      ensures Base() && controller == old(controller) && wakeups == old(wakeups)
      ensures failure == old(failure) && results == old(results)
      ensures !stopping ==> changed == old(changed)
      ensures full ==> !threw && !stopping && Whole() && occupied == |slots| && completed == old(completed)
                       && prepared.None? && inputTask == NoInput
      ensures !full && !threw && !stopping ==> Whole() && (inputEnded || occupied == old(occupied) + 1)
      ensures |slots| == |old(slots)|
      ensures Asking(old(requested), old(stopping)) && running == old(running) && inputStarted == old(inputStarted)
      ensures feed == if full || reply == Later then old(feed) else Heard(old(feed), AnswerOf(reply))
      ensures !full && reply == Fails ==> threw
      ensures !full && reply == Now(true) && !threw && !stopping ==>
                !Throwing(answer) && failed == old(failed) + if Bad(answer) then {old(admitted)} else {}
    {
      hide Pool.Core, Pool.WholeAs, Placed, History, Lockstep, Ideas, Farm.Valid, Farm.Free;
      Bounds();
      full := HoldSlot();
      if full {
        return true, false;
      }
      threw := Ask(reply, answer);
      Bounds();
    }

    /** `input_.take()` with a slot reserved for what it brings. */
    method Ask(reply: Reply, answer: Invocation) returns (threw: bool)
      requires Base() && !stopping && !Parked(controller) && inputSlot.Some?
      requires inputTask == NoInput && !inputStarted && !inputEnded && prepared.None?
      requires Placed(slots, inputSlot, prepared, completed, buffered, None)
               && History(slots, completed, prepared, running, finished, taken + results, admitted, 0)
      requires Fed(feed, admitted, inputTask, inputEnded) && forall d :: d in failed ==> d in finished
      modifies this, farm.Repr()
      ensures taken == old(taken) && old(finished) <= finished
      ensures (threw ==> Cause()) && (old(Cause()) ==> Cause())
      ensures Base() && controller == old(controller) && wakeups == old(wakeups)
      ensures failure == old(failure) && results == old(results)
      ensures !stopping ==> changed == old(changed)
      ensures !threw && !stopping ==> Whole() && (inputEnded || occupied == old(occupied))
      ensures Asking(old(requested), old(stopping)) && running == old(running) && !inputStarted
      ensures feed == if reply == Later then old(feed) else Heard(old(feed), AnswerOf(reply))
      ensures reply == Fails ==> threw
      ensures reply == Now(true) && !threw && !stopping ==>
                !Throwing(answer) && failed == old(failed) + if Bad(answer) then {old(admitted)} else {}
    {
      hide Pool.Cause, Pool.Core, Accounts, Placed, History, Lockstep, Ideas, Fed, Heard, Farm.Valid, Farm.Free;
      HearReply(reply);
      if reply == Fails {
        return true;
      }
      if stopping {
        return false;
      }
      if reply == Later {
        Await();
        return false;
      }
      threw := AcceptInput(reply == Now(true), answer);
    }

    /** The input answers; while it does, it may call `stop`. */
    method HearReply(reply: Reply)
      requires Core() && !Parked(controller) && Fed(feed, admitted, NoInput, false)
      modifies `feed, `stopping, `requested, `asked, `inputAsked, `changed, `controller, `wakeups
      ensures Core() && controller == old(controller) && wakeups == old(wakeups)
      ensures (!stopping ==> changed == old(changed)) && Asking(old(requested), old(stopping))
      ensures feed == if reply == Later then old(feed) else Heard(old(feed), AnswerOf(reply))
      ensures reply == Later ==> Fed(feed, admitted, NoInput, false)
      ensures reply.Now? ==> feed == Feed(admitted + One(reply.item), !reply.item, false)
      ensures (reply == Fails ==> Cause()) && (old(Cause()) ==> Cause())
    {
      hide Pool.Core, Fed, Heard;
      FedHeard(feed, admitted, reply);
      feed := if reply == Later then feed else Heard(feed, AnswerOf(reply));
      CallOut();
    }

    /** `input_slot_ = reserve()`. */
    method HoldSlot() returns (full: bool)
      requires Base() && !stopping && Whole() && inputTask == NoInput && prepared.None? && !inputEnded
      modifies `slots, `occupied, `inputSlot, farm.Repr()
      ensures Base() && |slots| == |old(slots)|
      ensures full ==> Whole() && occupied == |slots| && inputSlot.None?
      ensures !full ==> inputSlot.Some? && occupied == old(occupied) + 1
      ensures !full ==> Fed(feed, admitted, inputTask, inputEnded) && forall d :: d in failed ==> d in finished
      ensures !full ==> Placed(slots, inputSlot, prepared, completed, buffered, None)
                        && History(slots, completed, prepared, running, finished, taken + results, admitted, 0)
    {
      hide Counted, Queued, Lockstep, Held, Running, Placed, History, Ideas, Farm.Valid, Farm.Free;
      ghost var slots0, free0 := slots, farm.Free();
      var slot := Reserve();
      if slot.None? {
        return true;
      }
      full := false;
      var i := slot.value;
      NotQueued(slots0, completed, buffered, inputSlot, prepared, i);
      UnownedBlank(slots0, free0, old(occupied), running, i);
      ReservePlaced(slots0, prepared, completed, buffered, i);
      ReserveHistory(slots0, completed, prepared, running, finished, taken + results, admitted, i);
      LockstepOther(slots0, buffered, results, i, Blank().(owned := true));
      IdeasRewrite(slots0, admitted, taken + results, failed, i, Blank().(owned := true));
      ReserveHeld(slots, prepared, i);
      inputSlot := Some(i);
    }

    /** The pending read is kept, to be started on the deck. */
    method Await()
      requires Base() && !stopping && inputSlot.Some? && inputTask == NoInput && !inputStarted && !inputEnded
      requires Placed(slots, inputSlot, prepared, completed, buffered, None)
      requires History(slots, completed, prepared, running, finished, taken + results, admitted, 0)
      requires Fed(feed, admitted, inputTask, inputEnded) && forall d :: d in failed ==> d in finished
      modifies `inputTask, `inputAsked
      ensures Base() && Whole() && inputTask == Waiting
    {
      hide Counted, Queued, Lockstep, Held, Running, Placed, History, Ideas, Farm.Valid, Farm.Free;
      inputTask := Waiting;
      inputAsked := false;
    }

    /** Starts the pending input read if it may, and accepts what it brought if it is done. */
    method TakeInput(schedule: bool, invoked: Invocation) returns (done: bool, threw: bool)
      requires Base() && !stopping && !Parked(controller) && Whole()
      requires inputTask != NoInput && prepared.None?
      modifies this, farm.Repr()
      ensures taken == old(taken) && old(finished) <= finished
      ensures (threw ==> Cause()) && (old(Cause()) ==> Cause())
      ensures Base() && controller == old(controller) && wakeups == old(wakeups)
      ensures failure == old(failure) && results == old(results) && |slots| == |old(slots)|
      ensures !stopping ==> changed == old(changed)
      ensures done ==> !threw && !stopping && Whole() && completed == old(completed) && prepared.None?
      ensures done && schedule ==> InputPending()
      ensures Asking(old(requested), old(stopping)) && running == old(running) && feed == old(feed)
      ensures !schedule && inputStarted ==> old(inputStarted)
      ensures old(inputTask) == Arrived(Failure) && !done ==> threw
      ensures !done && !threw && !stopping ==> Whole() && inputTask == NoInput && (inputEnded || occupied == old(occupied))
    {
      hide Counted, Queued, Lockstep, Held, Running, Placed, History, Ideas, Farm.Valid, Farm.Free;
      if !inputStarted {
        if !schedule {
          return true, false;
        }
        var full: bool := *;
        if full {
          trouble := true;
          return false, true;
        }
        inputStarted := true;
      }
      if inputTask == Waiting {
        return true, false;
      }
      var answer := inputTask.answer;
      if answer == Failure {
        return false, true;
      }
      inputTask := NoInput;
      inputStarted := false;
      done := false;
      threw := AcceptInput(answer == Item, invoked);
    }

    /** One turn of the `pump` loop. */
    method PumpOnce(schedule: bool) returns (done: bool, threw: bool)
      requires Base() && !stopping && !Parked(controller) && Whole()
      modifies this, farm.Repr()
      ensures taken == old(taken) && old(finished) <= finished
      ensures (threw ==> Cause()) && (old(Cause()) ==> Cause())
      ensures Base() && controller == old(controller) && wakeups == old(wakeups)
      ensures failure == old(failure) && old(results) <= results
      ensures !stopping ==> changed == old(changed)
      ensures Asking(old(requested), old(stopping))
      ensures !schedule ==> running == old(running) && (inputStarted ==> old(inputStarted))
      ensures !stopping && !threw ==> Whole()
      ensures done && !stopping && !threw ==> completed == []
      ensures done && !stopping && !threw && schedule ==>
                && prepared.None?
                && (InputPending() || (inputTask == NoInput && (inputEnded || occupied == |slots|)))
      ensures !done && !threw && !stopping ==>
                || (inputEnded && !old(inputEnded))
                || (inputEnded == old(inputEnded) && occupied == old(occupied) && inputTask == NoInput != old(inputTask))
                || (inputEnded == old(inputEnded) && farm.capacity >= occupied > old(occupied))
    {
      hide Pool.Base, Pool.Whole, Pool.Cause;
      Bounds();
      done, threw := PublishAndStart(schedule);
      if !done {
        done, threw := PumpInput(schedule);
      }
    }

    /** The first half of a turn: what has finished is published, what is prepared started. */
    method PublishAndStart(schedule: bool) returns (done: bool, threw: bool)
      requires Base() && !stopping && !Parked(controller) && Whole()
      modifies `slots, `completed, `buffered, `results, `stopping, `requested, `asked, `inputAsked, `changed, `controller, `wakeups
      modifies `trouble, `prepared, `running
      ensures Base() && controller == old(controller) && wakeups == old(wakeups)
      ensures old(results) <= results && Asking(old(requested), old(stopping))
      ensures (threw ==> Cause()) && (old(Cause()) ==> Cause())
      ensures !stopping ==> changed == old(changed)
      ensures !stopping && !threw ==> Whole() && completed == []
      ensures !done ==> !threw && !stopping && prepared.None?
      ensures !schedule ==> running == old(running)
      ensures done && !stopping && !threw ==> !schedule
    {
      hide Pool.Base, Pool.Whole, Pool.Cause;
      threw := PublishCompleted();
      if threw || stopping {
        return true, threw;
      }
      if prepared.Some? {
        if !schedule {
          return true, false;
        }
        threw := StartPrepared();
        if threw {
          return true, true;
        }
      }
      done := false;
    }

    /** The rest of a turn: the pending input read, or a new one. */
    method PumpInput(schedule: bool) returns (done: bool, threw: bool)
      requires Base() && !stopping && !Parked(controller) && Whole() && prepared.None?
      modifies this, farm.Repr()
      ensures taken == old(taken) && old(finished) <= finished
      ensures (threw ==> Cause()) && (old(Cause()) ==> Cause())
      ensures Base() && controller == old(controller) && wakeups == old(wakeups)
      ensures failure == old(failure) && old(results) == results && running == old(running)
      ensures !stopping ==> changed == old(changed)
      ensures Asking(old(requested), old(stopping)) && (!schedule && inputStarted ==> old(inputStarted))
      ensures !stopping && !threw ==> Whole()
      ensures done && !stopping && !threw ==> completed == old(completed) && prepared.None?
      ensures done && !stopping && !threw && schedule ==>
                InputPending() || (inputTask == NoInput && (inputEnded || occupied == |slots|))
      ensures !done && !threw && !stopping ==>
                || (inputEnded && !old(inputEnded))
                || (inputEnded == old(inputEnded) && occupied == old(occupied) && inputTask == NoInput != old(inputTask))
                || (inputEnded == old(inputEnded) && farm.capacity >= occupied > old(occupied))
    {
      hide Pool.Base, Pool.Whole, Pool.Cause;
      Bounds();
      var invoked: Invocation := *;
      if inputTask != NoInput {
        done, threw := TakeInput(schedule, invoked);
      } else if inputEnded {
        return true, false;
      } else {
        var reply: Reply := *;
        done, threw := ReadInput(reply, invoked);
      }
      if !done {
        Bounds();
      }
    }

    /** `pump`: publishes, schedules and admits until it can do no more. With
        `schedule` false it stops at the first thing that needs the deck. */
    method Pump(schedule: bool) returns (threw: bool)
      requires Base() && !Parked(controller) && (!stopping ==> Whole())
      modifies this, farm.Repr()
      ensures taken == old(taken) && old(finished) <= finished
      ensures (threw ==> Cause()) && (old(Cause()) ==> Cause())
      ensures Base() && controller == old(controller) && wakeups == old(wakeups)
      ensures failure == old(failure) && old(results) <= results
      ensures Asking(old(requested), old(stopping))
      ensures !schedule ==> running == old(running) && (inputStarted ==> old(inputStarted))
      ensures !stopping ==> changed == old(changed)
      ensures !stopping && !threw ==> Whole() && completed == []
      ensures !stopping && !threw && schedule ==>
                && prepared.None?
                && (InputPending() || (inputTask == NoInput && (inputEnded || occupied == |slots|)))
    {
      hide Pool.Base, Pool.Whole, Pool.Cause;
      while !stopping
        invariant Base() && controller == old(controller) && wakeups == old(wakeups)
        invariant taken == old(taken) && old(finished) <= finished && (old(Cause()) ==> Cause())
        invariant failure == old(failure) && old(results) <= results
        invariant Asking(old(requested), old(stopping))
        invariant !schedule ==> running == old(running) && (inputStarted ==> old(inputStarted))
        invariant !stopping ==> changed == old(changed) && Whole()
        decreases One(!stopping), One(!inputEnded), farm.capacity - occupied, One(inputTask != NoInput)
      {
        var done;
        done, threw := PumpOnce(schedule);
        if done || threw {
          return;
        }
      }
      threw := false;
    }

    /** `consume_buffered_for_derived(buffered_size())`. */
    method TossAll()
      requires Base()
      modifies `slots, `occupied, `results, `buffered, farm.Repr()
      ensures Base() && results == [] && buffered == []
      ensures slots == Cleared(old(slots), old(buffered))
    {
      hide Cleared, Pool.Base, Pool.Whole;
      Bounds();
      Toss(|results|);
      assert old(buffered)[..|old(buffered)|] == old(buffered);
    }

    /** The first half of `discard_settled`: the queues, the prepared slot and a
        settled input read let go of their slots. */
    method DropSettled()
      requires Base()
      modifies `slots, `occupied, `results, `buffered, `completed, `prepared, `inputTask, `inputStarted, `inputSlot, farm.Repr()
      ensures Base() && completed == [] && buffered == [] && results == [] && prepared.None?
      ensures slots == Cleared(old(slots), old(buffered)) && InputPending() == old(InputPending())
      ensures inputSlot == if InputPending() then old(inputSlot) else None
    {
      hide Counted, Queued, Lockstep, Held, Running, Placed, History, Ideas, Farm.Valid, Farm.Free;
      hide Cleared, Pool.Whole, Pool.Core;
      TossAll();
      Forget();
    }

    /** The queues are dropped as they stand, and with them a settled input read. */
    method Forget()
      requires Base() && buffered == [] && results == []
      modifies `completed, `prepared, `inputTask, `inputStarted, `inputSlot
      ensures Base() && completed == [] && prepared.None? && InputPending() == old(InputPending())
      ensures inputSlot == if InputPending() then old(inputSlot) else None
    {
      hide Counted, Queued, Lockstep, Held, Running, Placed, History, Ideas, Farm.Valid, Farm.Free;
      HeldWithout(slots, inputSlot, prepared);
      EmptyQueues(slots, completed, buffered);
      NothingBuffered(slots);
      completed := [];
      prepared := None;
      if !inputStarted || inputTask != Waiting {
        inputTask := NoInput;
        inputStarted := false;
        inputSlot := None;
      }
    }

    /** The second half: every owned slot that is neither running nor reserved for
        the pending read is released. */
    method Sweep()
      requires Base() && completed == [] && buffered == [] && results == [] && prepared.None?
      modifies `slots, `occupied, farm.Repr()
      ensures Base() && |slots| == |old(slots)|
      ensures forall j :: 0 <= j < |slots| ==>
                slots[j] == if Kept(old(slots)[j], inputSlot == Some(j)) then old(slots)[j] else Blank()
    {
      hide Counted, Queued, Lockstep, Held, Running, Placed, History, Ideas, Farm.Valid, Farm.Free;
      ghost var slots0 := slots;
      var i := 0;
      while i < |slots|
        invariant 0 <= i <= |slots| == |slots0| && Core()
        invariant forall j :: 0 <= j < |slots| ==>
                    slots[j] == if j >= i || Kept(slots0[j], inputSlot == Some(j)) then slots0[j] else Blank()
      {
        if slots[i].owned && inputSlot != Some(i) && (!slots[i].started || slots[i].task != Unfinished) {
          Release(i);
        }
        i := i + 1;
      }
      NothingBuffered(slots);
      SweptIdeas(slots0, slots, inputSlot, admitted, taken + results, failed);
    }

    /** `discard_settled`: everything but running frames and a pending input read
        goes back to the farm; nothing that still runs is released. */
    method DiscardSettled() returns (drained: bool)
      requires Base()
      modifies `slots, `occupied, `results, `buffered, `completed, `prepared, `inputTask, `inputStarted, `inputSlot, farm.Repr()
      ensures taken == old(taken) && old(finished) <= finished
      ensures Base() && stopping == old(stopping) && completed == [] && results == []
      ensures drained <==> occupied == 0
      ensures drained ==> farm.Free() == Indices(farm.capacity) && running == 0 && !InputPending()
      ensures !drained ==> running > 0 || InputPending()
      ensures running == old(running) && InputPending() == old(InputPending())
      ensures |slots| == |old(slots)|
      ensures forall i :: 0 <= i < |slots| ==> slots[i].owned == (Runs(old(slots)[i]) || inputSlot == Some(i))
      ensures inputSlot == if InputPending() then old(inputSlot) else None
      ensures controller == old(controller) && wakeups == old(wakeups)
      ensures failure == old(failure) && changed == old(changed) && requested == old(requested)
      ensures trouble == old(trouble) && failed == old(failed) && feed == old(feed)
    {
      hide Pool.Base, Cleared, Kept, Runs, Farm.Valid, Farm.Free;
      ghost var slots0 := slots;
      ToClear();
      DropSettled();
      ghost var slots1 := slots;
      Sweep();
      drained := occupied == 0;
      Leftovers(slots0, slots1);
    }

    /** Consuming what is buffered stops nothing that runs. */
    lemma ToClear()
      requires Base()
      ensures |Cleared(slots, buffered)| == |slots| == farm.capacity
      ensures forall i :: 0 <= i < |slots| ==> Runs(Cleared(slots, buffered)[i]) == Runs(slots[i])
    {
      QueueRunning(slots, completed, buffered);
      ClearedRunning(slots, buffered);
    }

    /** What is left after sweeping: running frames and the slot of a pending read. */
    lemma Leftovers(slots0: seq<Slot>, slots1: seq<Slot>)
      requires Base() && |slots0| == |slots1| == |slots| && (inputSlot.Some? ==> InputPending())
      requires forall i :: 0 <= i < |slots| ==> Runs(slots1[i]) == Runs(slots0[i])
      requires forall i :: 0 <= i < |slots| ==>
                 slots[i] == if Kept(slots1[i], inputSlot == Some(i)) then slots1[i] else Blank()
      ensures |slots| == farm.capacity
      ensures forall i :: 0 <= i < |slots| ==> slots[i].owned == (Runs(slots0[i]) || inputSlot == Some(i))
      ensures occupied == 0 ==> farm.Free() == Indices(farm.capacity) && running == 0 && !InputPending()
      ensures occupied != 0 ==> running > 0 || InputPending()
    {
      hide Counted, Queued, Lockstep, Held, Running, Ideas, Farm.Valid, Farm.Free;
      if InputPending() {
        HeldBlank(slots, inputSlot, prepared);
      }
      SweptOwned(slots0, slots1, slots, inputSlot, farm.Free(), occupied, running);
      LastOnes(slots, farm.Free(), occupied, running, inputSlot, InputPending());
    }

    /** At the end of the feed what consumers received and what the ring still holds
        is, together, one result per idea the input offered, in the order in which they
        completed; the input has said it ended, and nothing failed. */
    ghost predicate AllDelivered()
      reads this
    {
      && taken + results == finished
      && Distinct(taken + results)
      && |taken + results| == admitted
      && (forall d :: d in taken + results ==> d < admitted)
      && failed == {} && feed == Feed(admitted, true, false)
    }

    lemma Exhausted()
      requires Base() && Whole() && completed == [] && inputEnded && occupied == |results|
      ensures AllDelivered()
    {
      hide Counted, Queued, Lockstep, Held, Running, Placed, History, Ideas, Farm.Valid, Farm.Free;
      Bounds();
      OnlyBuffered(slots, farm.Free(), occupied, running, inputSlot, prepared, completed, buffered);
      IdeasDelivered(slots, admitted, taken + results, failed);
      AllFinished(slots, finished, taken + results, admitted);
    }

    /** When the pump can do no more and there is nothing to return, something runs. */
    lemma StillRunning()
      requires Base() && Whole() && completed == [] && prepared.None?
      requires inputTask == NoInput && occupied != |results|
      ensures running > 0
    {
      hide Counted, Queued, Lockstep, Held, Running, Placed, History, Ideas, Farm.Valid, Farm.Free;
      Bounds();
      SomeRunning(slots, farm.Free(), occupied, running, completed, buffered);
    }

    /** The catch block of a read: keeps the failure, stops, and rethrows if all is settled. */
    method Abandon() returns (drained: bool)
      requires Base() && !Parked(controller) && (requested || Cause())
      modifies this, farm.Repr()
      ensures taken == old(taken) && old(finished) <= finished && Cause() == old(Cause())
      ensures Base() && stopping && results == [] && completed == []
      ensures controller == old(controller) && wakeups == old(wakeups)
      ensures requested == old(requested) && failure == !drained
      ensures drained ==> occupied == 0 && running == 0 && farm.Free() == Indices(farm.capacity)
      ensures !drained ==> running > 0 || InputPending()
    {
      hide Counted, Queued, Lockstep, Held, Running, Placed, History, Ideas, Farm.Valid, Farm.Free;
      failure := true;
      Stop();
      var kept;
      drained, kept := Drain();
    }

    /** Discards what is settled; with nothing left the failure, or the cancellation, is rethrown. */
    method Drain() returns (drained: bool, kept: bool)
      requires Base() && stopping
      modifies this, farm.Repr()
      ensures taken == old(taken) && old(finished) <= finished && Cause() == old(Cause())
      ensures Base() && stopping && results == [] && completed == []
      ensures controller == old(controller) && wakeups == old(wakeups) && changed == old(changed)
      ensures requested == old(requested) && kept == old(failure) && failure == (old(failure) && !drained)
      ensures drained ==> occupied == 0 && running == 0 && farm.Free() == Indices(farm.capacity)
      ensures !drained ==> running > 0 || InputPending()
    {
      hide Counted, Queued, Lockstep, Held, Running, Placed, History, Ideas, Farm.Valid, Farm.Free;
      kept := failure;
      drained := DiscardSettled();
      if drained {
        failure := false;
      }
    }

    method Stage(before: nat)
      requires Base() && controller == Idle && before < |slots|
      requires !stopping ==> Whole() && |results| <= before
      requires stopping ==> (requested || failure) && (requested || Cause())
      modifies `controller
      ensures Valid() && controller == Staged(before)
    {
      hide Counted, Queued, Lockstep, Held, Running, Placed, History, Ideas, Farm.Valid, Farm.Free;
      controller := Staged(before);
    }

    /** `stream_more`: the ready path of a read, then `read_slow` staged for the deck.
        The feed refills only when its ring has room. */
    method StreamMore(limit: nat) returns (o: Outcome)
      requires Valid() && controller == Idle && |results| < |slots|
      modifies this, farm.Repr()
      ensures taken == old(taken) && old(finished) <= finished
      ensures Valid() && wakeups == old(wakeups)
      ensures o == Suspended <==> controller == Staged(|old(results)|)
      ensures o != Suspended ==> controller == Idle
      ensures o == Ready && limit > 0 ==> |results| > |old(results)|
      ensures o == Eof ==> AllDelivered()
      ensures o.Raised? ==> (requested || Cause()) && o.kept && stopping && occupied == 0 && running == 0 && farm.Free() == Indices(farm.capacity)
    {
      hide Pool.Base, Pool.Whole, Pool.AllDelivered;
      if limit == 0 {
        return Ready;
      }
      Bounds();
      var before := |results|;
      var threw := stopping;
      if !threw {
        threw := Pump(false);
        threw := threw || stopping;
      }
      if !threw {
        if |results| > before {
          return Ready;
        }
        if inputEnded && occupied == |results| {
          Exhausted();
          return Eof;
        }
      } else {
        var drained := Abandon();
        if drained {
          return Raised(true);
        }
      }
      Bounds();
      Stage(before);
      o := Suspended;
    }

    /** One turn of the `read_slow` loop, up to its `co_await`. */
    method ReadTurn(before: nat) returns (over: bool, o: Outcome)
      requires Base() && controller == Reading(before, false) && before < |slots|
      requires !stopping ==> Whole() && |results| <= before
      requires stopping ==> (requested || failure) && (requested || Cause())
      modifies this, farm.Repr()
      ensures taken == old(taken) && old(finished) <= finished
      ensures Base() && |slots| == |old(slots)| && controller == old(controller) && wakeups == old(wakeups)
      ensures !stopping ==> Whole() && changed == old(changed)
      ensures old(stopping) ==> stopping && changed == old(changed)
      ensures over ==> o == Ready || o == Eof || o.Raised?
      ensures over && o == Ready ==> !stopping && |results| > before
      ensures over && o == Eof ==> !stopping && AllDelivered()
      ensures over && o.Raised? ==> (o.kept || requested) && (old(failure) ==> o.kept)
      ensures !over && stopping ==> requested || failure
      ensures stopping ==> requested || Cause()
      ensures (old(failure) ==> failure || over) && (old(requested) ==> requested)
      ensures over && o.Raised? ==>
                stopping && occupied == 0 && running == 0 && farm.Free() == Indices(farm.capacity)
      ensures !over ==> completed == [] && (running > 0 || InputPending())
      ensures !over && !stopping ==> |results| <= before
    {
      hide Pool.Base, Pool.Whole, Pool.AllDelivered, Farm.Valid, Farm.Free;
      Bounds();
      if !stopping {
        var threw := Pump(true);
        Bounds();
        if threw {
          var drained := Abandon();
          Bounds();
          return drained, Raised(true);
        }
        if !stopping {
          if |results| > before {
            return true, Ready;
          }
          if inputEnded && occupied == |results| {
            Exhausted();
            return true, Eof;
          }
          if !InputPending() {
            StillRunning();
          }
          return false, Suspended;
        }
      }
      var drained, kept := Drain();
      Bounds();
      return drained, Raised(kept);
    }

    /** `read_slow`, from its start or from a wake-up to its next park or its end.
        A parked read has nothing unpublished and something running that will wake it. */
    method RunReader() returns (o: Outcome)
      requires Valid() && (controller.Staged? || (controller.Reading? && !controller.parked))
      modifies this, farm.Repr()
      ensures taken == old(taken) && old(finished) <= finished
      ensures Valid() && wakeups == old(wakeups)
      ensures o == Suspended || o == Ready || o == Eof || o.Raised?
      ensures o.Raised? ==> (requested || Cause()) && (o.kept || requested) && (old(failure) ==> o.kept)
      ensures o == Suspended ==> controller == Reading(old(controller.before), true)
      ensures o != Suspended ==> controller == Idle
      ensures o == Ready ==> !stopping && |results| > old(controller.before)
      ensures o == Eof ==> !stopping && AllDelivered()
      ensures o.Raised? ==> stopping && occupied == 0 && running == 0 && farm.Free() == Indices(farm.capacity)
    {
      hide Pool.Core, Pool.WholeAs, Lockstep, Ideas, Pool.AllDelivered, Farm.Valid, Farm.Free;
      var before := controller.before;
      Resume(controller.Reading?, Reading(before, false));
      o := ReadLoop(before);
    }

    /** `await_resume` clears `changed_`; the coroutine now runs. */
    method Resume(clear: bool, c: Controller)
      requires Base() && !Parked(c)
      modifies `changed, `controller
      ensures Base() && controller == c && (old(Whole()) ==> Whole())
    {
      hide Counted, Queued, Lockstep, Held, Running, Placed, History, Ideas, Farm.Valid, Farm.Free;
      if clear {
        changed := false;
      }
      controller := c;
    }

    method ReadLoop(before: nat) returns (o: Outcome)
      requires Base() && controller == Reading(before, false) && before < |slots|
      requires !stopping ==> Whole() && |results| <= before
      requires stopping ==> (requested || failure) && (requested || Cause())
      modifies this, farm.Repr()
      ensures taken == old(taken) && old(finished) <= finished
      ensures Valid() && wakeups == old(wakeups)
      ensures o == Suspended || o == Ready || o == Eof || o.Raised?
      ensures o.Raised? ==> (requested || Cause()) && (o.kept || requested) && (old(failure) ==> o.kept)
      ensures o == Suspended ==> controller == Reading(before, true)
      ensures o != Suspended ==> controller == Idle
      ensures o == Ready ==> !stopping && |results| > before
      ensures o == Eof ==> !stopping && AllDelivered()
      ensures o.Raised? ==> stopping && occupied == 0 && running == 0 && farm.Free() == Indices(farm.capacity)
    {
      hide Pool.Base, Pool.Whole, Pool.AllDelivered, Farm.Valid, Farm.Free;
      while true
        invariant Base() && controller == Reading(before, false) && before < |slots| && wakeups == old(wakeups)
        invariant taken == old(taken) && old(finished) <= finished
        invariant !stopping ==> Whole() && |results| <= before
        invariant (stopping ==> (requested || failure) && (requested || Cause())) && (old(failure) ==> failure)
        decreases One(!stopping), One(changed)
      {
        var over;
        over, o := ReadTurn(before);
        if over {
          Settle(Idle);
          return;
        }
        if !changed {
          Settle(Reading(before, true));
          return Suspended;
        }
        AwaitReady();
      }
    }

    /** `await_ready`: a change since the last look means going round again at once. */
    method AwaitReady()
      requires Base() && changed
      modifies `changed
      ensures Base() && !changed && (old(Whole()) ==> Whole())
    {
      hide Counted, Queued, Lockstep, Held, Running, Placed, History, Ideas, Farm.Valid, Farm.Free;
      changed := false;
    }

    /** The coroutine parks or ends. */
    method Settle(c: Controller)
      requires Base() && (!stopping ==> Whole())
      requires Parked(c) ==> !changed && completed == [] && (running > 0 || InputPending())
      requires c.Reading? ==> c.before < |slots| && (!stopping ==> |results| <= c.before)
      requires !c.Staged? && (c.Closing? ==> stopping)
      requires c.Reading? && stopping ==> requested || failure
      requires stopping ==> requested || Cause()
      modifies `controller
      ensures Valid() && controller == c && (old(Whole()) ==> Whole()) && (old(AllDelivered()) ==> AllDelivered())
      ensures farm.Free() == old(farm.Free())
    {
      hide Counted, Queued, Lockstep, Held, Running, Placed, History, Ideas, Farm.Valid, Farm.Free;
      controller := c;
    }

    /** `close`: stop, then wait until every job and the input read have settled. */
    method Close() returns (o: Outcome)
      requires Valid() && controller == Idle
      modifies this, farm.Repr()
      ensures taken == old(taken) && old(finished) <= finished
      ensures Valid() && stopping && wakeups == old(wakeups)
      ensures o == Done || o == Suspended
      ensures o == Done ==> controller == Idle && occupied == 0 && running == 0 && farm.Free() == Indices(farm.capacity)
      ensures o == Suspended ==> controller == Closing(true)
    {
      hide Counted, Queued, Lockstep, Held, Running, Placed, History, Ideas, Farm.Valid, Farm.Free;
      Stop();
      requested := true;
      Resume(false, Closing(false));
      o := CloseLoop();
    }

    /** A woken close looks again. */
    method RunCloser() returns (o: Outcome)
      requires Valid() && controller == Closing(false)
      modifies this, farm.Repr()
      ensures taken == old(taken) && old(finished) <= finished
      ensures Valid() && stopping && wakeups == old(wakeups)
      ensures o == Done || o == Suspended
      ensures o == Done ==> controller == Idle && occupied == 0 && running == 0 && farm.Free() == Indices(farm.capacity)
      ensures o == Suspended ==> controller == Closing(true)
    {
      hide Counted, Queued, Lockstep, Held, Running, Placed, History, Ideas, Farm.Valid, Farm.Free;
      Resume(true, Closing(false));
      o := CloseLoop();
    }

    method CloseLoop() returns (o: Outcome)
      requires Base() && stopping && controller == Closing(false) && (requested || Cause())
      modifies this, farm.Repr()
      ensures taken == old(taken) && old(finished) <= finished
      ensures Valid() && stopping && wakeups == old(wakeups)
      ensures o == Done || o == Suspended
      ensures o == Done ==> controller == Idle && occupied == 0 && running == 0 && farm.Free() == Indices(farm.capacity)
      ensures o == Suspended ==> controller == Closing(true)
    {
      hide Pool.Base, Pool.Whole, Pool.AllDelivered, Farm.Valid, Farm.Free;
      while true
        invariant Base() && stopping && controller == Closing(false) && wakeups == old(wakeups)
        invariant taken == old(taken) && old(finished) <= finished && (requested || Cause())
        decreases One(changed)
      {
        var drained, _ := Drain();
        if drained {
          Settle(Idle);
          return Done;
        }
        if !changed {
          Settle(Closing(true));
          return Suspended;
        }
        AwaitReady();
      }
    }

    /** The consumer takes the `n` oldest results; no read is in progress. */
    method Consume(n: nat) returns (values: seq<nat>)
      requires Valid() && controller == Idle && n <= |results|
      modifies `slots, `occupied, `results, `buffered, `taken, farm.Repr()
      ensures Valid() && values == old(results)[..n] && results == old(results)[n..]
      ensures taken == old(taken) + values && occupied == old(occupied) - n
    {
      hide Counted, Queued, Lockstep, Held, Running, Placed, History, Ideas, Farm.Valid, Farm.Free;
      values := results[..n];
      Toss(n);
      assert taken + values + results == (taken + values) + results;
      taken := taken + values;
    }

    /** `~pool`: aborts the process while an operation is under way or anything runs;
        else every slot goes back to the farm, whether or not the pool was stopped. */
    method Destroy() returns (aborted: bool)
      requires Valid()
      modifies this, farm.Repr()
      ensures aborted <==> old(controller.Reading? || controller.Closing? || running != 0 || InputPending())
      ensures !aborted ==> occupied == 0 && farm.Free() == Indices(farm.capacity) && results == []
    {
      hide Pool.Base, Pool.Whole, Pool.AllDelivered, Farm.Valid, Farm.Free;
      if controller.Reading? || controller.Closing? || running != 0 || InputPending() {
        return true;
      }
      Bounds();
      var _ := DiscardSettled();
      aborted := false;
    }

    /** A stop request at any time, from the reading task or the owner. */
    method RequestStop()
      requires Valid()
      modifies `stopping, `requested, `asked, `inputAsked, `changed, `controller, `wakeups
      ensures Valid() && stopping && requested && Running(slots) <= asked && (InputPending() ==> inputAsked) && !Parked(controller)
      ensures wakeups == old(wakeups) + One(Parked(old(controller)))
    {
      hide Counted, Queued, Lockstep, Held, Running, Placed, History, Ideas, Farm.Valid, Farm.Free;
      Stop();
      requested := true;
    }
  }



  lemma RunningOwned(slots: seq<Slot>)
    ensures Running(slots) <= Owned(slots)
  {
  }

  lemma ClearedIdeas(slots: seq<Slot>, gone: seq<nat>, admitted: nat, delivered: seq<nat>, fewer: seq<nat>, failed: set<nat>)
    requires Ideas(slots, admitted, delivered, failed) && forall d :: d in fewer ==> d in delivered
    ensures Ideas(Cleared(slots, gone), admitted, fewer, failed)
  {
  }

  lemma SweptIdeas(slots0: seq<Slot>, slots: seq<Slot>, inputSlot: Option<nat>, admitted: nat, delivered: seq<nat>, failed: set<nat>)
    requires Ideas(slots0, admitted, delivered, failed) && |slots0| == |slots|
    requires forall j :: 0 <= j < |slots| ==>
               slots[j] == if Kept(slots0[j], inputSlot == Some(j)) then slots0[j] else Blank()
    ensures Ideas(slots, admitted, delivered, failed)
  {
    hide Kept;
  }

  /** What completing a slot does to the books. */
  lemma CompleteBooks(slots: seq<Slot>, free: set<nat>, occupied: int, running: int, completed: seq<nat>, buffered: seq<nat>,
                      inputSlot: Option<nat>, prepared: Option<nat>, inputStarted: bool, inputTask: InputTask,
                      stopping: bool, asked: set<nat>, inputAsked: bool, i: nat, s: Slot)
    requires Books(slots, free, occupied, running, completed, buffered, inputSlot, prepared, inputStarted, inputTask,
                   stopping, asked, inputAsked)
    requires i < |slots| && Finishes(slots[i], s) && i !in completed && i !in buffered
    requires inputSlot != Some(i) && prepared != Some(i)
    ensures Books(slots[i := s], free, occupied, running - One(Runs(slots[i])), completed + [i], buffered, inputSlot,
                  prepared, inputStarted, inputTask, stopping, asked, inputAsked)
  {
    hide Counted, Queued, Held, Running;
    Recount(slots, free, occupied, running, i, s);
    FreeUnchanged(slots, free, occupied, running, i);
    PushCompleted(slots, completed, buffered, i, s);
    HeldOther(slots, inputSlot, prepared, i, s);
    RunningOther(slots, i, s);
  }

  lemma CompleteAll(slots: seq<Slot>, free: set<nat>, occupied: int, running: int, completed: seq<nat>, buffered: seq<nat>,
                    inputSlot: Option<nat>, prepared: Option<nat>, inputStarted: bool, inputTask: InputTask,
                    stopping: bool, asked: set<nat>, inputAsked: bool, results: seq<nat>, admitted: nat,
                    delivered: seq<nat>, failed: set<nat>, i: nat, s: Slot, threw: bool)
    requires Books(slots, free, occupied, running, completed, buffered, inputSlot, prepared, inputStarted, inputTask,
                   stopping, asked, inputAsked)
    requires Lockstep(slots, buffered, results) && Ideas(slots, admitted, delivered, failed)
    requires i < |slots| && Finishes(slots[i], s) && i !in completed && i !in buffered
    requires inputSlot != Some(i) && prepared != Some(i) && (threw <==> s.task == Finished(false))
    requires slots[i].idea.Some? && slots[i].idea.value !in delivered && slots[i].idea.value !in failed
    ensures Books(slots[i := s], free, occupied, running - One(Runs(slots[i])), completed + [i], buffered, inputSlot,
                  prepared, inputStarted, inputTask, stopping, asked, inputAsked)
    ensures Lockstep(slots[i := s], buffered, results)
    ensures Ideas(slots[i := s], admitted, delivered, failed + if threw then {slots[i].idea.value} else {})
  {
    hide Books, Lockstep, Ideas, Runs;
    CompleteBooks(slots, free, occupied, running, completed, buffered, inputSlot, prepared, inputStarted, inputTask,
                  stopping, asked, inputAsked, i, s);
    LockstepOther(slots, buffered, results, i, s);
    IdeasComplete(slots, admitted, delivered, failed, i, s, threw);
  }

  lemma IdeasComplete(slots: seq<Slot>, admitted: nat, delivered: seq<nat>, failed: set<nat>, i: nat, s: Slot, threw: bool)
    requires Ideas(slots, admitted, delivered, failed) && i < |slots| && Finishes(slots[i], s)
    requires slots[i].idea.value !in delivered && slots[i].idea.value !in failed && (threw <==> s.task == Finished(false))
    ensures Ideas(slots[i := s], admitted, delivered, failed + if threw then {slots[i].idea.value} else {})
  {
    if threw {
      IdeasFail(slots, admitted, delivered, failed, i, s);
    } else {
      IdeasRewrite(slots, admitted, delivered, failed, i, s);
      assert failed + {} == failed;
    }
  }

  lemma IdeasUnfinished(slots: seq<Slot>, admitted: nat, delivered: seq<nat>, failed: set<nat>, i: nat)
    requires Ideas(slots, admitted, delivered, failed) && i < |slots| && slots[i].idea.Some? && slots[i].task == Unfinished
    ensures slots[i].idea.value !in delivered && slots[i].idea.value !in failed
  {
    assert EndedRight(slots[i], failed);
  }

  lemma IdeasBound(slots: seq<Slot>, admitted: nat, delivered: seq<nat>, failed: set<nat>)
    requires Ideas(slots, admitted, delivered, failed)
    ensures admitted !in delivered && admitted !in failed
  {
  }

  lemma IdeasDelivered(slots: seq<Slot>, admitted: nat, delivered: seq<nat>, failed: set<nat>)
    requires Ideas(slots, admitted, delivered, failed)
    ensures forall d :: d in delivered ==> d !in failed
  {
  }

  lemma FedHeard(feed: Feed, admitted: nat, reply: Reply)
    requires Fed(feed, admitted, NoInput, false)
    ensures reply == Later ==> Fed(feed, admitted, NoInput, false)
    ensures reply.Now? ==> Heard(feed, AnswerOf(reply)) == Feed(admitted + One(reply.item), !reply.item, false)
    ensures !feed.threw && (reply == Fails ==> Heard(feed, AnswerOf(reply)).threw)
  {
  }

  lemma FullWhenNoneFree(slots: seq<Slot>, free: set<nat>, occupied: int, running: int)
    requires Counted(slots, free, occupied, running)
    ensures free == {} <==> occupied == |slots|
  {
    var all := Indices(|slots|);
    if free == {} {
      assert Owned(slots) == all;
    } else {
      var i :| i in free;
      assert Owned(slots) <= all - {i};
      SubsetSize(Owned(slots), all - {i});
    }
  }

  lemma {:induction false} SubsetSize(a: set<nat>, b: set<nat>)
    requires a <= b
    ensures |a| <= |b|
    decreases a
  {
    if a != {} {
      var x :| x in a;
      SubsetSize(a - {x}, b - {x});
    }
  }

  lemma NotQueued(slots: seq<Slot>, completed: seq<nat>, buffered: seq<nat>,
                  inputSlot: Option<nat>, prepared: Option<nat>, i: nat)
    requires Queued(slots, completed, buffered) && Held(slots, inputSlot, prepared)
    requires i < |slots| && !slots[i].owned
    ensures i !in completed && i !in buffered && inputSlot != Some(i) && prepared != Some(i)
  {
  }

  lemma RunningOther(slots: seq<Slot>, i: nat, s: Slot)
    requires i < |slots| && !Runs(s)
    ensures Running(slots[i := s]) <= Running(slots)
  {
  }

  lemma AllBlank(slots: seq<Slot>)
    requires forall i :: 0 <= i < |slots| ==> slots[i] == Blank()
    ensures Counted(slots, Indices(|slots|), 0, 0) && Running(slots) == {}
    ensures Queued(slots, [], []) && Held(slots, None, None) && Lockstep(slots, [], [])
    ensures Placed(slots, None, None, [], [], None) && History(slots, [], None, 0, [], [], 0, 0)
    ensures Ideas(slots, 0, [], {})
  {
    hide Counted, Placed, History, Queued, Held, Lockstep, Ideas, Running;
    NoneOwned(slots);
    NoneHeld(slots);
  }

  lemma NoneOwned(slots: seq<Slot>)
    requires forall i :: 0 <= i < |slots| ==> slots[i] == Blank()
    ensures Counted(slots, Indices(|slots|), 0, 0) && Running(slots) == {}
  {
    assert Owned(slots) == {} && Running(slots) == {};
  }

  lemma NoneHeld(slots: seq<Slot>)
    requires forall i :: 0 <= i < |slots| ==> slots[i] == Blank()
    ensures Queued(slots, [], []) && Held(slots, None, None) && Lockstep(slots, [], [])
    ensures Placed(slots, None, None, [], [], None) && History(slots, [], None, 0, [], [], 0, 0)
    ensures Ideas(slots, 0, [], {})
  {
  }

  // ----- consumption -----

  /** The slots with those of `gone` reset. */
  ghost function Cleared(slots: seq<Slot>, gone: seq<nat>): (r: seq<Slot>)
    ensures |r| == |slots|
    ensures forall i :: 0 <= i < |slots| ==> r[i] == if i in gone then Blank() else slots[i]
  {
    seq(|slots|, i requires 0 <= i < |slots| => if i in gone then Blank() else slots[i])
  }

  lemma ClearNone(slots: seq<Slot>)
    ensures Cleared(slots, []) == slots
  {
  }

  lemma ClearOne(slots: seq<Slot>, gone: seq<nat>, i: nat)
    requires i < |slots|
    ensures Cleared(slots, gone + [i]) == Cleared(slots, gone)[i := Blank()]
  {
  }

  lemma PopBuffered(slots: seq<Slot>, completed: seq<nat>, buffered: seq<nat>,
                    inputSlot: Option<nat>, prepared: Option<nat>)
    requires Queued(slots, completed, buffered) && Held(slots, inputSlot, prepared) && buffered != []
    ensures Queued(slots, completed, buffered[1..])
    ensures buffered[0] < |slots| && slots[buffered[0]].owned && !Runs(slots[buffered[0]])
    ensures buffered[0] !in completed && buffered[0] !in buffered[1..]
    ensures inputSlot != Some(buffered[0]) && prepared != Some(buffered[0])
  {
    assert buffered[0] in buffered;
    assert buffered == [buffered[0]] + buffered[1..];
    forall i | i in buffered[1..]
      ensures i in buffered && i != buffered[0]
    {
      var k :| 0 <= k < |buffered| - 1 && buffered[1..][k] == i;
      assert buffered[k + 1] == i;
    }
  }

  lemma QueueDistinct(slots: seq<Slot>, completed: seq<nat>, buffered: seq<nat>)
    requires Queued(slots, completed, buffered)
    ensures Distinct(completed) && Distinct(buffered)
  {
  }

  lemma SameLength(slots: seq<Slot>, buffered: seq<nat>, results: seq<nat>)
    requires Lockstep(slots, buffered, results)
    ensures |buffered| == |results|
  {
  }

  lemma ClearedLockstep(slots: seq<Slot>, buffered: seq<nat>, results: seq<nat>, n: nat)
    requires Lockstep(slots, buffered, results) && n <= |buffered|
    requires Distinct(buffered)
    ensures Lockstep(Cleared(slots, buffered[..n]), buffered[n..], results[n..])
  {
  }

  lemma ClearedPlaced(slots: seq<Slot>, inputSlot: Option<nat>, prepared: Option<nat>,
                      completed: seq<nat>, buffered: seq<nat>, n: nat)
    requires Placed(slots, inputSlot, prepared, completed, buffered, None) && n <= |buffered|
    ensures Placed(Cleared(slots, buffered[..n]), inputSlot, prepared, completed, buffered[n..], None)
  {
    forall i | i in buffered && i !in buffered[..n]
      ensures i in buffered[n..]
    {
      assert buffered == buffered[..n] + buffered[n..];
    }
  }

  lemma ClearedHistory(slots: seq<Slot>, completed: seq<nat>, buffered: seq<nat>, n: nat, prepared: Option<nat>,
                       running: int, finished: seq<nat>, published: seq<nat>, admitted: nat)
    requires Queued(slots, completed, buffered) && n <= |buffered|
    requires History(slots, completed, prepared, running, finished, published, admitted, 0)
    ensures History(Cleared(slots, buffered[..n]), completed, prepared, running, finished, published, admitted, 0)
  {
    var slots' := Cleared(slots, buffered[..n]);
    forall k | 0 <= k < |completed|
      ensures slots'[completed[k]] == slots[completed[k]]
    {
      assert completed[k] in completed;
    }
  }

  // ----- completion -----

  /** `s` is `from` with its work over. */
  predicate Finishes(from: Slot, s: Slot) {
    && from.owned && from.idea.Some? && !Settled(from)
    && (s == from.(ready := true) || s == from.(task := Finished(true)) || s == from.(task := Finished(false)))
    && (s.ready ==> !s.started && s.task == NoTask)
    && Settled(s) && !Runs(s)
  }

  lemma FreeUnchanged(slots: seq<Slot>, free: set<nat>, occupied: int, running: int, i: nat)
    requires Counted(slots, free, occupied, running) && i < |slots| && slots[i].owned
    ensures free - {i} == free
  {
  }

  lemma PushCompleted(slots: seq<Slot>, completed: seq<nat>, buffered: seq<nat>, i: nat, s: Slot)
    requires Queued(slots, completed, buffered) && i < |slots| && Finishes(slots[i], s)
    requires i !in completed && i !in buffered
    ensures Queued(slots[i := s], completed + [i], buffered)
  {
  }

  lemma CompletePlaced(slots: seq<Slot>, inputSlot: Option<nat>, prepared: Option<nat>,
                       completed: seq<nat>, buffered: seq<nat>, limbo: Option<nat>, i: nat, s: Slot)
    requires Placed(slots, inputSlot, prepared, completed, buffered, limbo)
    requires i < |slots| && Finishes(slots[i], s) && (limbo.Some? ==> limbo.value == i)
    ensures Placed(slots[i := s], inputSlot, prepared, completed + [i], buffered, None)
  {
  }

  lemma CompleteHistory(slots: seq<Slot>, completed: seq<nat>, prepared: Option<nat>, running: int,
                        finished: seq<nat>, published: seq<nat>, admitted: nat, limbo: Option<nat>, i: nat, s: Slot)
    requires History(slots, completed, prepared, running, finished, published, admitted, One(limbo.Some?))
    requires i < |slots| && Finishes(slots[i], s) && slots[i].idea.value !in finished && i !in completed
    requires limbo.Some? <==> !Runs(slots[i])
    ensures History(slots[i := s], completed + [i], prepared, running - One(Runs(slots[i])),
                    finished + [slots[i].idea.value], published, admitted, 0)
  {
    var finished' := finished + [slots[i].idea.value];
    assert finished'[..|published|] == published;
    forall k | 0 <= k < |completed + [i]|
      ensures (completed + [i])[k] < |slots|
      ensures slots[i := s][(completed + [i])[k]].idea == Some(finished'[|published| + k])
    {
      if k < |completed| {
        assert completed[k] in completed;
      }
    }
    forall j | 0 <= j < |slots| && slots[i := s][j].idea.Some? && slots[i := s][j].task == Unfinished
      ensures slots[j].idea.value !in finished'
    {
      assert j != i ==> slots[j].idea != slots[i].idea;
    }
    forall d | d in finished'
      ensures d < admitted
    {
      assert d in finished || d == slots[i].idea.value;
    }
  }

  lemma RunningElsewhere(slots: seq<Slot>, completed: seq<nat>, buffered: seq<nat>,
                         inputSlot: Option<nat>, prepared: Option<nat>, i: nat)
    requires Queued(slots, completed, buffered) && Held(slots, inputSlot, prepared)
    requires i < |slots| && Runs(slots[i])
    ensures i !in completed && i !in buffered && inputSlot != Some(i) && prepared != Some(i)
    ensures slots[i].idea.Some? && !slots[i].ready
  {
  }

  lemma RunningUnfinished(slots: seq<Slot>, completed: seq<nat>, prepared: Option<nat>, running: int,
                          finished: seq<nat>, published: seq<nat>, admitted: nat, i: nat)
    requires History(slots, completed, prepared, running, finished, published, admitted, 0)
    requires i < |slots| && Runs(slots[i]) && slots[i].idea.Some?
    ensures slots[i].idea.value !in finished
  {
  }

  // ----- admission -----

  /** What invoking an idea gives: an exception, an empty task (an error), a ready
      hope, a task already done, or one still to run. */
  datatype Invocation = Throws | EmptyTask | ReadyValue | DoneTask(ok: bool) | PendingTask

  /** Answers that are exceptions at once. */
  predicate Throwing(answer: Invocation) {
    answer.Throws? || answer.EmptyTask?
  }

  /** Answers that are an exception, now or when the result is read. */
  predicate Bad(answer: Invocation) {
    Throwing(answer) || answer == DoneTask(false)
  }

  lemma BlankElsewhere(slots: seq<Slot>, completed: seq<nat>, buffered: seq<nat>, i: nat)
    requires Queued(slots, completed, buffered) && i < |slots| && slots[i].idea.None?
    ensures i !in completed && i !in buffered
  {
  }

  lemma HeldBlank(slots: seq<Slot>, inputSlot: Option<nat>, prepared: Option<nat>)
    requires Held(slots, inputSlot, prepared) && inputSlot.Some?
    ensures inputSlot.value < |slots| && slots[inputSlot.value] == Blank().(owned := true)
    ensures prepared != inputSlot
  {
  }

  lemma HeldWithout(slots: seq<Slot>, inputSlot: Option<nat>, prepared: Option<nat>)
    requires Held(slots, inputSlot, prepared)
    ensures Held(slots, None, prepared) && Held(slots, inputSlot, None) && Held(slots, None, None)
  {
  }

  lemma AdmitPlaced(slots: seq<Slot>, prepared: Option<nat>, completed: seq<nat>, buffered: seq<nat>, i: nat, s: Slot)
    requires Placed(slots, Some(i), prepared, completed, buffered, None) && i < |slots|
    ensures Placed(slots[i := s], None, prepared, completed, buffered, Some(i))
  {
  }

  lemma AdmitHistory(slots: seq<Slot>, completed: seq<nat>, prepared: Option<nat>, running: int,
                     finished: seq<nat>, published: seq<nat>, admitted: nat, i: nat, s: Slot)
    requires History(slots, completed, prepared, running, finished, published, admitted, 0)
    requires i < |slots| && slots[i].idea.None? && i !in completed && s == slots[i].(idea := Some(admitted))
    requires s.task == NoTask
    ensures History(slots[i := s], completed, prepared, running, finished, published, admitted + 1, 1)
    ensures admitted !in finished
  {
    forall k | 0 <= k < |completed|
      ensures completed[k] != i
    {
      assert completed[k] in completed;
    }
  }

  lemma PrepareHeld(slots: seq<Slot>, inputSlot: Option<nat>, i: nat, s: Slot)
    requires Held(slots, inputSlot, None) && i < |slots| && inputSlot != Some(i)
    requires s.owned && s.idea.Some? && s.task == Unfinished && !s.started && !s.ready
    ensures Held(slots[i := s], inputSlot, Some(i))
  {
  }

  lemma PreparePlaced(slots: seq<Slot>, inputSlot: Option<nat>, completed: seq<nat>, buffered: seq<nat>, i: nat, s: Slot)
    requires Placed(slots, inputSlot, None, completed, buffered, Some(i)) && i < |slots|
    requires s.idea.Some? && s.task == Unfinished && !s.started && !s.ready
    ensures Placed(slots[i := s], inputSlot, Some(i), completed, buffered, None)
  {
  }

  lemma PrepareHistory(slots: seq<Slot>, completed: seq<nat>, running: int,
                       finished: seq<nat>, published: seq<nat>, admitted: nat, i: nat, s: Slot)
    requires History(slots, completed, None, running, finished, published, admitted, 1)
    requires i < |slots| && s == slots[i].(task := Unfinished) && slots[i].idea.Some?
    requires slots[i].idea.value !in finished
    ensures History(slots[i := s], completed, Some(i), running, finished, published, admitted, 0)
  {
  }

  lemma ClearReserved(slots: seq<Slot>, inputSlot: Option<nat>, prepared: Option<nat>, completed: seq<nat>, buffered: seq<nat>,
                      running: int, finished: seq<nat>, published: seq<nat>, admitted: nat)
    requires inputSlot.Some? && inputSlot.value < |slots| && slots[inputSlot.value] == Blank().(owned := true)
    requires Placed(slots, inputSlot, prepared, completed, buffered, None)
    requires History(slots, completed, prepared, running, finished, published, admitted, 0)
    ensures Placed(slots[inputSlot.value := Blank()], None, prepared, completed, buffered, None)
    ensures History(slots[inputSlot.value := Blank()], completed, prepared, running, finished, published, admitted, 0)
  {
  }

  // ----- publication -----

  lemma CompletedFront(slots: seq<Slot>, completed: seq<nat>, buffered: seq<nat>,
                       inputSlot: Option<nat>, prepared: Option<nat>)
    requires Queued(slots, completed, buffered) && Held(slots, inputSlot, prepared) && completed != []
    ensures completed[0] < |slots| && slots[completed[0]].owned && slots[completed[0]].idea.Some?
    ensures Settled(slots[completed[0]]) && !Runs(slots[completed[0]])
    ensures completed[0] !in buffered && completed[0] !in completed[1..]
    ensures inputSlot != Some(completed[0]) && prepared != Some(completed[0])
  {
    assert completed[0] in completed;
  }

  /** Distinct indices below `n` are at most `n`. */
  lemma {:induction false} DistinctBound(s: seq<nat>, n: nat)
    requires Distinct(s) && forall i :: i in s ==> i < n
    ensures |s| <= n
  {
    DistinctSize(s);
    SubsetSize(Elements(s), Indices(n));
  }

  lemma {:induction false} DistinctSize(s: seq<nat>)
    requires Distinct(s)
    ensures |Elements(s)| == |s|
  {
    if s != [] {
      PopElements(s);
      DistinctSize(s[1..]);
      assert s[0] in Elements(s);
    }
  }

  /** While a slot waits in `completed_`, the result ring has room for it. */
  lemma ResultRoom(slots: seq<Slot>, completed: seq<nat>, buffered: seq<nat>)
    requires Queued(slots, completed, buffered) && completed != []
    ensures |buffered| < |slots|
  {
    var i := completed[0];
    assert i in completed;
    var all := buffered + [i];
    forall j | j in all
      ensures j < |slots|
    {
      assert j in buffered || j == i;
    }
    assert i !in buffered;
    DistinctBound(all, |slots|);
  }

  lemma MoveToBuffered(slots: seq<Slot>, completed: seq<nat>, buffered: seq<nat>, i: nat, s: Slot)
    requires Queued(slots, completed, buffered) && completed != [] && i == completed[0] < |slots|
    requires Published(s) && i !in buffered && i !in completed[1..]
    ensures Queued(slots[i := s], completed[1..], buffered + [i])
  {
    forall j | j in completed[1..]
      ensures j in completed
    {
    }
  }

  lemma PushLockstep(slots: seq<Slot>, buffered: seq<nat>, results: seq<nat>, i: nat, s: Slot)
    requires Lockstep(slots, buffered, results) && i < |slots| && slots[i].idea.Some? && s.idea == slots[i].idea
    ensures Lockstep(slots[i := s], buffered + [i], results + [slots[i].idea.value])
  {
  }

  lemma PublishPlaced(slots: seq<Slot>, inputSlot: Option<nat>, prepared: Option<nat>,
                      completed: seq<nat>, buffered: seq<nat>, s: Slot)
    requires Placed(slots, inputSlot, prepared, completed, buffered, None)
    requires completed != [] && completed[0] < |slots| && Published(s)
    ensures Placed(slots[completed[0] := s], inputSlot, prepared, completed[1..], buffered + [completed[0]], None)
  {
    assert completed == [completed[0]] + completed[1..];
  }

  lemma PublishHistory(slots: seq<Slot>, completed: seq<nat>, prepared: Option<nat>, running: int,
                       finished: seq<nat>, published: seq<nat>, admitted: nat, s: Slot)
    requires History(slots, completed, prepared, running, finished, published, admitted, 0)
    requires completed != [] && completed[0] < |slots| && slots[completed[0]].idea.Some?
    requires s == slots[completed[0]].(task := NoTask, ready := false) && completed[0] !in completed[1..]
    ensures History(slots[completed[0] := s], completed[1..], prepared, running, finished,
                    published + [slots[completed[0]].idea.value], admitted, 0)
  {
    var i := completed[0];
    assert finished[|published|] == slots[i].idea.value;
    assert finished[..|published| + 1] == published + [slots[i].idea.value];
    forall k | 0 <= k < |completed[1..]|
      ensures slots[i := s][completed[1..][k]].idea == Some(finished[|published| + 1 + k])
    {
      assert completed[1..][k] == completed[k + 1];
    }
  }

  // ----- scheduling and reading -----

  /** What `input_.take()` answers: an exception, an idea or the end at once, or a pending read. */
  datatype Reply = Fails | Now(item: bool) | Later

  /** An answer given at once. */
  function AnswerOf(reply: Reply): Answer
    requires reply != Later
  {
    if reply == Fails then Failure else if reply.item then Item else End
  }

  lemma PreparedSlot(slots: seq<Slot>, completed: seq<nat>, buffered: seq<nat>,
                     inputSlot: Option<nat>, prepared: Option<nat>)
    requires Queued(slots, completed, buffered) && Held(slots, inputSlot, prepared) && prepared.Some?
    ensures prepared.value < |slots| && slots[prepared.value].owned && slots[prepared.value].idea.Some?
    ensures slots[prepared.value].task == Unfinished && !slots[prepared.value].started && !slots[prepared.value].ready
    ensures prepared.value !in completed && prepared.value !in buffered && inputSlot != prepared
  {
  }

  lemma StartHeld(slots: seq<Slot>, inputSlot: Option<nat>, prepared: Option<nat>, s: Slot)
    requires Held(slots, inputSlot, prepared) && prepared.Some? && inputSlot != prepared
    requires s == slots[prepared.value].(started := true)
    ensures Held(slots[prepared.value := s], inputSlot, None)
  {
  }

  lemma StartPlaced(slots: seq<Slot>, inputSlot: Option<nat>, prepared: Option<nat>,
                    completed: seq<nat>, buffered: seq<nat>, s: Slot)
    requires Placed(slots, inputSlot, prepared, completed, buffered, None)
    requires prepared.Some? && prepared.value < |slots| && s.idea.Some? && !s.ready && Runs(s)
    ensures Placed(slots[prepared.value := s], inputSlot, None, completed, buffered, None)
  {
  }

  lemma StartHistory(slots: seq<Slot>, completed: seq<nat>, prepared: Option<nat>, running: int,
                     finished: seq<nat>, published: seq<nat>, admitted: nat, s: Slot)
    requires History(slots, completed, prepared, running, finished, published, admitted, 0)
    requires prepared.Some? && prepared.value < |slots| && s == slots[prepared.value].(started := true)
    ensures History(slots[prepared.value := s], completed, None, running + 1, finished, published, admitted, 0)
  {
  }

  lemma OccupiedBound(slots: seq<Slot>, free: set<nat>, occupied: int, running: int)
    requires Counted(slots, free, occupied, running)
    ensures 0 <= occupied <= |slots| && running >= 0
  {
    SubsetSize(Owned(slots), Indices(|slots|));
  }

  lemma UnownedBlank(slots: seq<Slot>, free: set<nat>, occupied: int, running: int, i: nat)
    requires Counted(slots, free, occupied, running) && i < |slots| && !slots[i].owned
    ensures slots[i] == Blank()
  {
  }

  lemma ReservePlaced(slots: seq<Slot>, prepared: Option<nat>, completed: seq<nat>, buffered: seq<nat>, i: nat)
    requires Placed(slots, None, prepared, completed, buffered, None) && i < |slots|
    ensures Placed(slots[i := Blank().(owned := true)], Some(i), prepared, completed, buffered, None)
  {
  }

  lemma ReserveHistory(slots: seq<Slot>, completed: seq<nat>, prepared: Option<nat>, running: int,
                       finished: seq<nat>, published: seq<nat>, admitted: nat, i: nat)
    requires History(slots, completed, prepared, running, finished, published, admitted, 0)
    requires i < |slots| && slots[i] == Blank() && i !in completed
    ensures History(slots[i := Blank().(owned := true)], completed, prepared, running, finished, published, admitted, 0)
  {
    forall k | 0 <= k < |completed|
      ensures completed[k] != i
    {
      assert completed[k] in completed;
    }
  }

  lemma ReserveHeld(slots: seq<Slot>, prepared: Option<nat>, i: nat)
    requires Held(slots, None, prepared) && i < |slots| && slots[i] == Blank().(owned := true)
    ensures Held(slots, Some(i), prepared)
  {
  }

  // ----- teardown -----

  /** What the teardown loop leaves alone. */
  predicate Kept(s: Slot, isInput: bool) {
    !s.owned || isInput || Runs(s)
  }

  lemma QueueRunning(slots: seq<Slot>, completed: seq<nat>, buffered: seq<nat>)
    requires Queued(slots, completed, buffered)
    ensures forall i :: i in buffered ==> i < |slots| && Published(slots[i])
  {
  }

  lemma ClearedRunning(slots: seq<Slot>, buffered: seq<nat>)
    requires forall i :: i in buffered ==> i < |slots| && Published(slots[i])
    ensures forall i :: 0 <= i < |slots| ==> Runs(Cleared(slots, buffered)[i]) == Runs(slots[i])
  {
  }

  lemma SweptOwned(slots0: seq<Slot>, slots1: seq<Slot>, slots: seq<Slot>, inputSlot: Option<nat>,
                   free: set<nat>, occupied: int, running: int)
    requires |slots0| == |slots1| == |slots|
    requires forall i :: 0 <= i < |slots| ==> Runs(slots1[i]) == Runs(slots0[i])
    requires forall i :: 0 <= i < |slots| ==>
               slots[i] == if Kept(slots1[i], inputSlot == Some(i)) then slots1[i] else Blank()
    requires inputSlot.Some? ==> inputSlot.value < |slots| && slots[inputSlot.value].owned
    ensures forall i :: 0 <= i < |slots| ==> slots[i].owned == (Runs(slots0[i]) || inputSlot == Some(i))
    ensures forall i :: 0 <= i < |slots| && slots[i].owned ==> Runs(slots[i]) || inputSlot == Some(i)
  {
  }

  lemma EmptyQueues(slots: seq<Slot>, completed: seq<nat>, buffered: seq<nat>)
    requires Queued(slots, completed, buffered)
    ensures Queued(slots, [], buffered) && Queued(slots, [], [])
  {
  }

  lemma NothingBuffered(slots: seq<Slot>)
    ensures Lockstep(slots, [], [])
  {
  }

  /** After the teardown loop, what is still owned is running or reserved for the pending read. */
  lemma LastOnes(slots: seq<Slot>, free: set<nat>, occupied: int, running: int, inputSlot: Option<nat>, pending: bool)
    requires Counted(slots, free, occupied, running)
    requires forall i :: 0 <= i < |slots| && slots[i].owned ==> Runs(slots[i]) || inputSlot == Some(i)
    requires inputSlot.Some? ==> pending
    requires pending ==> inputSlot.Some? && inputSlot.value < |slots| && slots[inputSlot.value].owned
    ensures occupied == 0 ==> free == Indices(|slots|) && running == 0 && !pending
    ensures occupied != 0 ==> running > 0 || pending
  {
    if occupied == 0 {
      assert forall i: nat :: i < |slots| && slots[i].owned ==> i in Owned(slots);
      assert Owned(slots) == {};
      assert Running(slots) == {};
    } else if !pending {
      var i :| i in Owned(slots);
      assert i in Running(slots);
    }
  }

  // ----- reading -----

  /** How a read or a close leaves the controller: with more results, at the end, with
      the failure that was kept or a cancellation, closed, or suspended. */
  datatype Outcome = Ready | Eof | Raised(kept: bool) | Done | Suspended

  lemma OnlyBuffered(slots: seq<Slot>, free: set<nat>, occupied: int, running: int, inputSlot: Option<nat>,
                     prepared: Option<nat>, completed: seq<nat>, buffered: seq<nat>)
    requires Counted(slots, free, occupied, running) && Queued(slots, completed, buffered)
    requires Held(slots, inputSlot, prepared) && occupied == |buffered|
    ensures running == 0 && prepared.None?
  {
    DistinctSize(buffered);
    assert prepared.Some? ==> prepared.value in Owned(slots);
    assert Elements(buffered) <= Owned(slots);
    SameSize(Elements(buffered), Owned(slots));
    assert forall i :: i in Owned(slots) ==> i in buffered;
    assert forall i :: i in Running(slots) ==> i in Owned(slots);
    assert Running(slots) == {};
  }

  lemma SameSize(a: set<nat>, b: set<nat>)
    requires a <= b && |a| == |b|
    ensures a == b
  {
    if b <= a {
      assert a == b;
    } else {
      var x :| x in b && x !in a;
      assert |b - {x}| == |b| - 1;
      SubsetSize(a, b - {x});
    }
  }

  lemma AllFinished(slots: seq<Slot>, finished: seq<nat>, published: seq<nat>, admitted: nat)
    requires History(slots, [], None, 0, finished, published, admitted, 0)
    ensures published == finished && Distinct(published) && |published| == admitted
    ensures forall d :: d in published ==> d < admitted
  {
    assert finished[..|published|] == finished;
  }

  lemma SomeRunning(slots: seq<Slot>, free: set<nat>, occupied: int, running: int, completed: seq<nat>, buffered: seq<nat>)
    requires Counted(slots, free, occupied, running) && Queued(slots, completed, buffered) && completed == []
    requires Placed(slots, None, None, completed, buffered, None) && occupied != |buffered|
    ensures running > 0
  {
    if forall i :: i in Owned(slots) ==> i in buffered {
      assert Owned(slots) == Elements(buffered);
      DistinctSize(buffered);
    } else {
      var i :| i in Owned(slots) && i !in buffered;
      assert i in Running(slots);
    }
  }

  // ----- whole runs -----

  /** One step of the world around a pool: the consumer, the deck resuming the
      controller, a job or the input read settling, or a stop, in any order. `got`
      is what the consumer received in it. */
  method Step(pool: Pool) returns (got: seq<nat>)
    requires pool.Valid()
    modifies pool, pool.farm.Repr()
    ensures pool.Valid() && pool.taken == old(pool.taken) + got && old(pool.finished) <= pool.finished
  {
    hide Pool.Base, Pool.Whole, Pool.Valid, Pool.AllDelivered, Farm.Valid, Farm.Free;
    got := [];
    assert pool.taken + [] == pool.taken;
    if
    case true =>
      pool.RequestStop();
    case pool.controller == Idle && |pool.results| < |pool.slots| =>
      var limit: nat := *;
      var _ := pool.StreamMore(limit);
    case pool.controller == Idle =>
      var _ := pool.Close();
    case pool.controller == Idle && pool.results != [] =>
      got := pool.Consume(1);
    case pool.controller.Staged? || (pool.controller.Reading? && !pool.controller.parked) =>
      var _ := pool.RunReader();
    case pool.controller == Closing(false) =>
      var _ := pool.RunCloser();
    case pool.InputPending() =>
      var answer: Answer := *;
      pool.InputFinishes(answer);
    case true =>
      var i: nat, ok: bool := *, *;
      if i < |pool.slots| && Runs(pool.slots[i]) {
        pool.JobFinishes(i, ok);
      }
  }

  /** Every state of every run satisfies the invariant, and `received` is what the
      consumer got over the run: nothing of an idea that failed. The completion order
      only grows. */
  method Drive(pool: Pool, steps: nat) returns (received: seq<nat>)
    requires pool.Valid()
    modifies pool, pool.farm.Repr()
    ensures pool.Valid() && pool.taken == old(pool.taken) + received && old(pool.finished) <= pool.finished
    ensures forall d :: d in received ==> d !in pool.failed
  {
    hide Pool.Base, Pool.Whole, Pool.Valid, Pool.AllDelivered, Farm.Valid, Farm.Free;
    var k := 0;
    received := [];
    assert pool.taken + [] == pool.taken;
    while k < steps
      invariant pool.Valid() && pool.taken == old(pool.taken) + received && old(pool.finished) <= pool.finished
    {
      var got := Step(pool);
      assert (old(pool.taken) + received) + got == old(pool.taken) + (received + got);
      received := received + got;
      k := k + 1;
    }
    NoneFailed(pool);
  }

  /** In every state, stopping or not, nothing a consumer received and nothing in the
      ring is the result of an idea that failed. */
  lemma NoneFailed(pool: Pool)
    requires pool.Valid()
    ensures forall d :: d in pool.taken + pool.results ==> d !in pool.failed && d < pool.admitted
  {
    hide Pool.Core, Lockstep, Accounts, Farm.Valid, Farm.Free;
  }

  /** In every state that is not stopping: what consumers received, then what is in
      the ring, is the beginning of the completion order, without a gap and without
      a repetition, and the rest of it waits in `completed_`. */
  lemma DeliveredInOrder(pool: Pool)
    requires pool.Valid() && !pool.stopping
    ensures pool.taken + pool.results <= pool.finished && Distinct(pool.taken + pool.results)
    ensures |pool.finished| == |pool.taken| + |pool.results| + |pool.completed|
  {
    hide Counted, Queued, Lockstep, Held, Running, Placed, Farm.Valid, Farm.Free;
    var delivered := pool.taken + pool.results;
    assert pool.finished[..|delivered|] == delivered;
  }

  /** A parked controller is never stuck: some frame is running, or the input read
      is, and the end of either wakes it (`JobFinishes`, `InputFinishes`). */
  lemma ParkedIsWatched(pool: Pool)
    requires pool.Valid() && Parked(pool.controller)
    ensures pool.completed == [] && !pool.changed
    ensures pool.InputPending() || exists i: nat :: i < |pool.slots| && Runs(pool.slots[i])
    ensures pool.stopping ==> forall i: nat :: i < |pool.slots| && Runs(pool.slots[i]) ==> i in pool.asked
    ensures pool.stopping && pool.InputPending() ==> pool.inputAsked
  {
    if !pool.InputPending() {
      assert |Running(pool.slots)| > 0;
      var i :| i in Running(pool.slots);
      assert Runs(pool.slots[i]);
    }
    assert forall i: nat :: i < |pool.slots| && Runs(pool.slots[i]) ==> i in Running(pool.slots);
  }
}
