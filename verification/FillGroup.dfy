/**
 Coalescing of fills: requests for the same object share one task.  Tasks are
 numbered in the order of their creation.
 */
module FillGroup {

  datatype Outcome = Completed | Unshareable | Failed | Cancelled

  datatype Task<Id(==)> = Task(id: Id, refs: nat, cancelled: bool, finished: bool)

  datatype Joined = Joined(task: nat, creator: bool) | Refused

  /** Tasks without an outcome. */
  function Unfinished<Id>(tasks: seq<Task<Id>>): nat {
    if tasks == [] then 0 else Unfinished(tasks[..|tasks| - 1]) + if tasks[|tasks| - 1].finished then 0 else 1
  }

  function References<Id>(tasks: seq<Task<Id>>): nat {
    if tasks == [] then 0 else References(tasks[..|tasks| - 1]) + tasks[|tasks| - 1].refs
  }

  lemma {:induction false} Changed<Id>(tasks: seq<Task<Id>>, t: nat, task: Task<Id>)
    requires t < |tasks|
    ensures Unfinished(tasks[t := task]) ==
            Unfinished(tasks) - (if tasks[t].finished then 0 else 1) + (if task.finished then 0 else 1)
    ensures References(tasks[t := task]) == References(tasks) - tasks[t].refs + task.refs
  {
    var n := |tasks| - 1;
    if t == n {
      assert tasks[t := task][..n] == tasks[..n];
    } else {
      Changed(tasks[..n], t, task);
      assert tasks[t := task][..n] == tasks[..n][t := task];
    }
  }

  lemma {:induction false} AtMost<Id>(tasks: seq<Task<Id>>, t: nat)
    requires t < |tasks|
    ensures !tasks[t].finished ==> Unfinished(tasks) >= 1
    ensures References(tasks) >= tasks[t].refs
  {
    if t < |tasks| - 1 {
      AtMost(tasks[..|tasks| - 1], t);
    }
  }

  lemma OneMore<Id>(tasks: seq<Task<Id>>, task: Task<Id>)
    ensures Unfinished(tasks + [task]) == Unfinished(tasks) + if task.finished then 0 else 1
    ensures References(tasks + [task]) == References(tasks) + task.refs
  {
    assert (tasks + [task])[..|tasks|] == tasks;
  }

  datatype Counters = Counters(active: nat, waiters: nat, joined: nat, completed: nat, unshareable: nat, failed: nat, cancelled: nat)

  datatype State<Id(==)> = State(current: map<Id, nat>, tasks: seq<Task<Id>>, n: Counters)

  /** Every counter is exact: no task is counted twice or lost. */
  predicate Counted<Id>(s: State<Id>) {
    && s.n.active == Unfinished(s.tasks) && s.n.waiters == References(s.tasks)
    && |s.tasks| == s.n.active + s.n.completed + s.n.unshareable + s.n.failed + s.n.cancelled
  }

  /** A task that nobody waits for or that has an outcome is cancelled. */
  predicate TaskOk<Id>(t: Task<Id>, maxWaiters: nat) {
    t.refs <= (if maxWaiters == 0 then 1 else maxWaiters) && (t.refs == 0 || t.finished ==> t.cancelled)
  }

  predicate TasksOk<Id>(tasks: seq<Task<Id>>, maxWaiters: nat) {
    forall t | 0 <= t < |tasks| :: TaskOk(tasks[t], maxWaiters)
  }

  /** A task that can be found has no outcome yet. */
  predicate Findable<Id>(current: map<Id, nat>, tasks: seq<Task<Id>>) {
    forall id | id in current :: current[id] < |tasks| && tasks[current[id]].id == id && !tasks[current[id]].finished
  }

  predicate Ok<Id>(s: State<Id>, maxWaiters: nat, maxTasks: nat) {
    Counted(s) && s.n.active <= maxTasks && TasksOk(s.tasks, maxWaiters) && Findable(s.current, s.tasks)
  }

  /** No task that everybody has left is ever joined again. */
  predicate StaysLeft<Id>(before: seq<Task<Id>>, after: seq<Task<Id>>) {
    && |before| <= |after|
    && forall t | 0 <= t < |before| ::
      && after[t].id == before[t].id && (before[t].refs == 0 ==> after[t].refs == 0)
      && (before[t].finished ==> after[t].finished) && (before[t].cancelled ==> after[t].cancelled)
  }

  /** The task is the one that is found for the object, and not cancelled. */
  predicate Running<Id>(s: State<Id>, id: Id, t: nat) {
    id in s.current && s.current[id] == t < |s.tasks| && !s.tasks[t].cancelled
  }

  /** There is a running task for the object that a request can join. */
  predicate Joinable<Id>(s: State<Id>, id: Id, usable: bool)
    requires Findable(s.current, s.tasks)
  {
    id in s.current && usable && !s.tasks[s.current[id]].cancelled
  }

  /** A request is turned away: the running task is full, or there is none to join and none can be started. */
  predicate Refuses<Id>(s: State<Id>, id: Id, stopped: bool, usable: bool, good: bool, maxWaiters: nat, maxTasks: nat)
    requires Findable(s.current, s.tasks)
  {
    stopped ||
    if Joinable(s, id, usable) then s.tasks[s.current[id]].refs >= maxWaiters
    else s.n.active >= maxTasks || !good
  }

  /** A task that cannot be joined any more is not found any more. */
  function Unlisted<Id>(s: State<Id>, id: Id): State<Id> {
    s.(current := s.current - {id})
  }

  function AfterJoin<Id>(s: State<Id>, t: nat): State<Id>
    requires t < |s.tasks|
  {
    s.(tasks := s.tasks[t := s.tasks[t].(refs := s.tasks[t].refs + 1)],
       n := s.n.(waiters := s.n.waiters + 1, joined := s.n.joined + 1))
  }

  function AfterCreate<Id>(s: State<Id>, id: Id): State<Id> {
    State(s.current[id := |s.tasks|], s.tasks + [Task(id, 1, false, false)],
          s.n.(active := s.n.active + 1, waiters := s.n.waiters + 1))
  }

  /** What a request is told. */
  function Answer<Id>(s: State<Id>, id: Id, stopped: bool, usable: bool, good: bool, maxWaiters: nat, maxTasks: nat): Joined
    requires Findable(s.current, s.tasks)
  {
    if Refuses(s, id, stopped, usable, good, maxWaiters, maxTasks) then Refused
    else if Joinable(s, id, usable) then Joined(s.current[id], false) else Joined(|s.tasks|, true)
  }

  function AfterRequest<Id>(s: State<Id>, id: Id, stopped: bool, usable: bool, good: bool, maxWaiters: nat, maxTasks: nat): State<Id>
    requires Findable(s.current, s.tasks)
  {
    if Refuses(s, id, stopped, usable, good, maxWaiters, maxTasks) then
      if stopped || Joinable(s, id, usable) then s else Unlisted(s, id)
    else if Joinable(s, id, usable) then AfterJoin(s, s.current[id]) else AfterCreate(s, id)
  }

  /** The last one to leave cancels the task. */
  function Left<Id>(t: Task<Id>): Task<Id>
    requires t.refs > 0
  {
    t.(refs := t.refs - 1, cancelled := t.cancelled || t.refs == 1)
  }

  function Ended(n: Counters, outcome: Outcome): Counters
    requires n.active > 0
  {
    var m := n.(active := n.active - 1);
    match outcome
    case Completed => m.(completed := m.completed + 1)
    case Unshareable => m.(unshareable := m.unshareable + 1)
    case Cancelled => m.(cancelled := m.cancelled + 1)
    case Failed => m.(failed := m.failed + 1)
  }

  lemma JoinKeeps<Id>(s: State<Id>, t: nat, maxWaiters: nat, maxTasks: nat)
    requires Ok(s, maxWaiters, maxTasks) && t < |s.tasks| && !s.tasks[t].cancelled && s.tasks[t].refs < maxWaiters
    ensures Ok(AfterJoin(s, t), maxWaiters, maxTasks) && StaysLeft(s.tasks, AfterJoin(s, t).tasks)
  {
    Changed(s.tasks, t, s.tasks[t].(refs := s.tasks[t].refs + 1));
  }

  lemma CreateKeeps<Id>(s: State<Id>, id: Id, maxWaiters: nat, maxTasks: nat)
    requires Ok(s, maxWaiters, maxTasks) && s.n.active < maxTasks
    ensures Ok(AfterCreate(s, id), maxWaiters, maxTasks) && StaysLeft(s.tasks, AfterCreate(s, id).tasks)
  {
    OneMore(s.tasks, Task(id, 1, false, false));
  }

  lemma FinishKeeps<Id>(s: State<Id>, t: nat, outcome: Outcome, current: map<Id, nat>, maxWaiters: nat, maxTasks: nat)
    requires Ok(s, maxWaiters, maxTasks) && t < |s.tasks| && !s.tasks[t].finished
    requires Findable(current, s.tasks) && forall id | id in current :: current[id] != t
    ensures s.n.active > 0
    ensures
      var s' := State(current, s.tasks[t := s.tasks[t].(cancelled := true, finished := true)], Ended(s.n, outcome));
      Ok(s', maxWaiters, maxTasks) && StaysLeft(s.tasks, s'.tasks)
  {
    AtMost(s.tasks, t);
    Changed(s.tasks, t, s.tasks[t].(cancelled := true, finished := true));
  }

  // ------------------------------------------------------------------- runs

  datatype Event<Id(==)> =
    | Request(id: Id, stopped: bool, usable: bool, good: bool)
    | Leaving(t: nat)
    | Finishing(t: nat, outcome: Outcome)
    | Expiring(t: nat)

  function AfterLeave<Id>(s: State<Id>, t: nat): State<Id>
    requires t < |s.tasks| && s.tasks[t].refs > 0 && s.n.waiters > 0
  {
    s.(tasks := s.tasks[t := Left(s.tasks[t])], n := s.n.(waiters := s.n.waiters - 1))
  }

  function AfterExpiry<Id>(s: State<Id>, t: nat): State<Id>
    requires t < |s.tasks|
  {
    s.(tasks := s.tasks[t := s.tasks[t].(cancelled := true)])
  }

  function AfterFinish<Id>(s: State<Id>, t: nat, outcome: Outcome): State<Id>
    requires t < |s.tasks| && s.n.active > 0
  {
    var id := s.tasks[t].id;
    State(if id in s.current && s.current[id] == t then s.current - {id} else s.current,
          s.tasks[t := s.tasks[t].(cancelled := true, finished := true)], Ended(s.n, outcome))
  }

  predicate Possible<Id>(s: State<Id>, e: Event<Id>) {
    match e
    case Request(_, _, _, _) => true
    case Leaving(t) => t < |s.tasks| && s.tasks[t].refs > 0
    case Finishing(t, _) => t < |s.tasks| && !s.tasks[t].finished
    case Expiring(t) => t < |s.tasks|
  }

  lemma LeaveKeeps<Id>(s: State<Id>, t: nat, maxWaiters: nat, maxTasks: nat)
    requires Ok(s, maxWaiters, maxTasks) && t < |s.tasks| && s.tasks[t].refs > 0
    ensures s.n.waiters > 0
    ensures Ok(AfterLeave(s, t), maxWaiters, maxTasks) && StaysLeft(s.tasks, AfterLeave(s, t).tasks)
  {
    AtMost(s.tasks, t);
    Changed(s.tasks, t, Left(s.tasks[t]));
  }

  lemma ExpiryKeeps<Id>(s: State<Id>, t: nat, maxWaiters: nat, maxTasks: nat)
    requires Ok(s, maxWaiters, maxTasks) && t < |s.tasks|
    ensures Ok(AfterExpiry(s, t), maxWaiters, maxTasks) && StaysLeft(s.tasks, AfterExpiry(s, t).tasks)
  {
    Changed(s.tasks, t, s.tasks[t].(cancelled := true));
  }

  lemma RequestKeeps<Id>(s: State<Id>, e: Event<Id>, maxWaiters: nat, maxTasks: nat)
    requires Ok(s, maxWaiters, maxTasks) && e.Request?
    ensures
      var s' := AfterRequest(s, e.id, e.stopped, e.usable, e.good, maxWaiters, maxTasks);
      Ok(s', maxWaiters, maxTasks) && StaysLeft(s.tasks, s'.tasks)
    ensures
      var s' := AfterRequest(s, e.id, e.stopped, e.usable, e.good, maxWaiters, maxTasks);
      var r := Answer(s, e.id, e.stopped, e.usable, e.good, maxWaiters, maxTasks);
      r.Joined? ==> Running(s', e.id, r.task) && s'.tasks[r.task].refs > 0
  {
    if !Refuses(s, e.id, e.stopped, e.usable, e.good, maxWaiters, maxTasks) {
      if Joinable(s, e.id, e.usable) {
        JoinKeeps(s, s.current[e.id], maxWaiters, maxTasks);
      } else {
        CreateKeeps(s, e.id, maxWaiters, maxTasks);
      }
    }
  }

  function Next<Id>(s: State<Id>, e: Event<Id>, maxWaiters: nat, maxTasks: nat): (s': State<Id>)
    requires Ok(s, maxWaiters, maxTasks) && Possible(s, e)
    ensures Ok(s', maxWaiters, maxTasks) && StaysLeft(s.tasks, s'.tasks)
  {
    match e
    case Request(id, stopped, usable, good) =>
      RequestKeeps(s, e, maxWaiters, maxTasks);
      AfterRequest(s, id, stopped, usable, good, maxWaiters, maxTasks)
    case Leaving(t) => LeaveKeeps(s, t, maxWaiters, maxTasks); AfterLeave(s, t)
    case Finishing(t, outcome) => FinishStepKeeps(s, t, outcome, maxWaiters, maxTasks); AfterFinish(s, t, outcome)
    case Expiring(t) => ExpiryKeeps(s, t, maxWaiters, maxTasks); AfterExpiry(s, t)
  }

  lemma FinishStepKeeps<Id>(s: State<Id>, t: nat, outcome: Outcome, maxWaiters: nat, maxTasks: nat)
    requires Ok(s, maxWaiters, maxTasks) && t < |s.tasks| && !s.tasks[t].finished
    ensures s.n.active > 0
    ensures Ok(AfterFinish(s, t, outcome), maxWaiters, maxTasks) && StaysLeft(s.tasks, AfterFinish(s, t, outcome).tasks)
  {
    AtMost(s.tasks, t);
    FinishKeeps(s, t, outcome, AfterFinish(s, t, outcome).current, maxWaiters, maxTasks);
  }

  predicate Happens<Id>(s: State<Id>, events: seq<Event<Id>>, maxWaiters: nat, maxTasks: nat)
    requires Ok(s, maxWaiters, maxTasks)
    decreases |events|
  {
    events == [] || (Possible(s, events[0]) && Happens(Next(s, events[0], maxWaiters, maxTasks), events[1..], maxWaiters, maxTasks))
  }

  function Run<Id>(s: State<Id>, events: seq<Event<Id>>, maxWaiters: nat, maxTasks: nat): (s': State<Id>)
    requires Ok(s, maxWaiters, maxTasks) && Happens(s, events, maxWaiters, maxTasks)
    ensures Ok(s', maxWaiters, maxTasks)
    decreases |events|
  {
    if events == [] then s else Run(Next(s, events[0], maxWaiters, maxTasks), events[1..], maxWaiters, maxTasks)
  }

  /** Every request for the object finds the token of the running task good. */
  predicate AllUsable<Id>(events: seq<Event<Id>>, id: Id) {
    forall e | e in events && e.Request? && e.id == id :: e.usable
  }

  lemma NextRunning<Id>(s: State<Id>, e: Event<Id>, id: Id, t: nat, maxWaiters: nat, maxTasks: nat)
    requires Ok(s, maxWaiters, maxTasks) && Possible(s, e) && Running(s, id, t) && (e.Request? && e.id == id ==> e.usable)
    ensures
      var s' := Next(s, e, maxWaiters, maxTasks);
      t < |s'.tasks| && (!s'.tasks[t].cancelled ==> Running(s', id, t))
  {
  }

  lemma {:induction false} RunningStays<Id>(s: State<Id>, events: seq<Event<Id>>, id: Id, t: nat, maxWaiters: nat, maxTasks: nat)
    requires Ok(s, maxWaiters, maxTasks) && Happens(s, events, maxWaiters, maxTasks) && AllUsable(events, id)
    requires t < |s.tasks| && (!s.tasks[t].cancelled ==> Running(s, id, t))
    ensures
      var s' := Run(s, events, maxWaiters, maxTasks);
      t < |s'.tasks| && (!s'.tasks[t].cancelled ==> Running(s', id, t))
    decreases |events|
  {
    if events != [] {
      var e, rest := events[0], events[1..];
      assert e in events && forall x | x in rest :: x in events;
      var s1 := Next(s, e, maxWaiters, maxTasks);
      if !s.tasks[t].cancelled { NextRunning(s, e, id, t, maxWaiters, maxTasks); }
      RunningStays(s1, rest, id, t, maxWaiters, maxTasks);
    }
  }

  /**
   Requests for one object coalesce.  After a request has been admitted, and
   whatever happens then: as long as its task is not cancelled and its token is
   good, every later request for the object that is admitted shares that task,
   and none starts another.
   */
  lemma RequestsCoalesce<Id>(s: State<Id>, first: Event<Id>, events: seq<Event<Id>>, later: Event<Id>, maxWaiters: nat, maxTasks: nat)
    requires Ok(s, maxWaiters, maxTasks) && first.Request? && later.Request? && later.id == first.id && later.usable
    requires Answer(s, first.id, first.stopped, first.usable, first.good, maxWaiters, maxTasks).Joined?
    requires Happens(Next(s, first, maxWaiters, maxTasks), events, maxWaiters, maxTasks) && AllUsable(events, first.id)
    ensures
      var t := Answer(s, first.id, first.stopped, first.usable, first.good, maxWaiters, maxTasks).task;
      var s' := Run(Next(s, first, maxWaiters, maxTasks), events, maxWaiters, maxTasks);
      && t < |s'.tasks|
      && (!s'.tasks[t].cancelled ==>
            Answer(s', later.id, later.stopped, later.usable, later.good, maxWaiters, maxTasks) in {Refused, Joined(t, false)})
  {
    var t := Answer(s, first.id, first.stopped, first.usable, first.good, maxWaiters, maxTasks).task;
    var s1 := Next(s, first, maxWaiters, maxTasks);
    assert Running(s1, first.id, t);
    RunningStays(s1, events, first.id, t, maxWaiters, maxTasks);
  }

  /** One event cancels a task only if the last one leaves it, its time is up, or it is done. */
  lemma NextCancels<Id>(s: State<Id>, e: Event<Id>, t: nat, maxWaiters: nat, maxTasks: nat)
    requires Ok(s, maxWaiters, maxTasks) && Possible(s, e) && t < |s.tasks| && !s.tasks[t].cancelled
    ensures
      var s' := Next(s, e, maxWaiters, maxTasks);
      && t < |s'.tasks|
      && (s'.tasks[t].cancelled <==> (e == Leaving(t) && s.tasks[t].refs == 1) || e == Expiring(t) || (e.Finishing? && e.t == t))
      && s'.tasks[t].refs == (if e == Leaving(t) then s.tasks[t].refs - 1
                              else if Joins(s, e, t) && s.tasks[t].refs < maxWaiters then s.tasks[t].refs + 1
                              else s.tasks[t].refs)
  {
  }

  /** The request finds the running task `t`. */
  predicate Joins<Id>(s: State<Id>, e: Event<Id>, t: nat) {
    e.Request? && !e.stopped && e.usable && e.id in s.current && s.current[e.id] == t && t < |s.tasks| && !s.tasks[t].cancelled
  }

  /** The task neither runs out of time nor ends. */
  predicate GoesOn<Id>(events: seq<Event<Id>>, t: nat) {
    forall e | e in events :: !(e.Expiring? && e.t == t) && !(e.Finishing? && e.t == t)
  }

  /**
   A request that waits is not let down by others that leave: whatever happens,
   a task that somebody still waits for is cancelled only by its time or its end.
   */
  lemma {:induction false} WaitersKeepTask<Id>(s: State<Id>, events: seq<Event<Id>>, t: nat, maxWaiters: nat, maxTasks: nat)
    requires Ok(s, maxWaiters, maxTasks) && Happens(s, events, maxWaiters, maxTasks) && GoesOn(events, t)
    requires t < |s.tasks| && !s.tasks[t].cancelled
    ensures
      var s' := Run(s, events, maxWaiters, maxTasks);
      t < |s'.tasks| && (s'.tasks[t].refs > 0 ==> !s'.tasks[t].cancelled)
    decreases |events|
  {
    if events != [] {
      var e, rest := events[0], events[1..];
      assert e in events && forall x | x in rest :: x in events;
      var s1 := Next(s, e, maxWaiters, maxTasks);
      NextCancels(s, e, t, maxWaiters, maxTasks);
      if s1.tasks[t].cancelled {
        LeftStaysLeft(s1, rest, t, maxWaiters, maxTasks);
      } else {
        WaitersKeepTask(s1, rest, t, maxWaiters, maxTasks);
      }
    }
  }

  lemma {:induction false} LeftStaysLeft<Id>(s: State<Id>, events: seq<Event<Id>>, t: nat, maxWaiters: nat, maxTasks: nat)
    requires Ok(s, maxWaiters, maxTasks) && Happens(s, events, maxWaiters, maxTasks) && t < |s.tasks| && s.tasks[t].refs == 0
    ensures var s' := Run(s, events, maxWaiters, maxTasks); t < |s'.tasks| && s'.tasks[t].refs == 0
    decreases |events|
  {
    if events != [] {
      LeftStaysLeft(Next(s, events[0], maxWaiters, maxTasks), events[1..], t, maxWaiters, maxTasks);
    }
  }

  /** A request counts as one that joined exactly if it was let into a running task. */
  lemma NextJoins<Id>(s: State<Id>, e: Event<Id>, maxWaiters: nat, maxTasks: nat)
    requires Ok(s, maxWaiters, maxTasks) && Possible(s, e)
    ensures
      Next(s, e, maxWaiters, maxTasks).n.joined
      == s.n.joined + if e.Request? && e.id in s.current && Joins(s, e, s.current[e.id]) && s.tasks[s.current[e.id]].refs < maxWaiters then 1 else 0
  {
  }

  /** How many tasks ended with the outcome. */
  function Endings<Id>(events: seq<Event<Id>>, outcome: Outcome): nat
    decreases |events|
  {
    if events == [] then 0
    else (if events[0].Finishing? && events[0].outcome == outcome then 1 else 0) + Endings(events[1..], outcome)
  }

  function CounterOf(n: Counters, outcome: Outcome): nat {
    match outcome
    case Completed => n.completed
    case Unshareable => n.unshareable
    case Failed => n.failed
    case Cancelled => n.cancelled
  }

  lemma NextCounts<Id>(s: State<Id>, e: Event<Id>, outcome: Outcome, maxWaiters: nat, maxTasks: nat)
    requires Ok(s, maxWaiters, maxTasks) && Possible(s, e)
    ensures
      CounterOf(Next(s, e, maxWaiters, maxTasks).n, outcome)
      == CounterOf(s.n, outcome) + if e.Finishing? && e.outcome == outcome then 1 else 0
  {
  }

  /** Over every run each outcome is counted under its own name, once for every task that ended with it. */
  lemma {:induction false} OutcomesAreCounted<Id>(s: State<Id>, events: seq<Event<Id>>, outcome: Outcome, maxWaiters: nat, maxTasks: nat)
    requires Ok(s, maxWaiters, maxTasks) && Happens(s, events, maxWaiters, maxTasks)
    ensures CounterOf(Run(s, events, maxWaiters, maxTasks).n, outcome) == CounterOf(s.n, outcome) + Endings(events, outcome)
    decreases |events|
  {
    if events != [] {
      NextCounts(s, events[0], outcome, maxWaiters, maxTasks);
      OutcomesAreCounted(Next(s, events[0], maxWaiters, maxTasks), events[1..], outcome, maxWaiters, maxTasks);
    }
  }

  class Group<Id(==)> {
    const maxWaiters: nat
    const maxTasks: nat
    var s: State<Id>

    ghost predicate Valid()
      reads this
    {
      Ok(s, maxWaiters, maxTasks)
    }

    constructor (waiters: nat, limit: nat)
      ensures Valid() && maxWaiters == waiters && maxTasks == limit && s.tasks == []
    {
      maxWaiters, maxTasks := waiters, limit;
      s := State(map[], [], Counters(0, 0, 0, 0, 0, 0, 0));
    }

    /** A task whose time is up, or whose group stops. */
    method Expire(t: nat)
      requires Valid() && t < |s.tasks|
      modifies this
      ensures Valid() && StaysLeft(old(s).tasks, s.tasks)
      ensures s == AfterExpiry(old(s), t)
    {
      ExpiryKeeps(s, t, maxWaiters, maxTasks);
      s := s.(tasks := s.tasks[t := s.tasks[t].(cancelled := true)]);
    }

    /**
     Join the running task, and start one only if there is none that can be
     joined; it is then the one that is found.  `stopped` says that the group is
     shutting down, `usable` that the running task's token is still good, and
     `good` that the caller's own token is.
     */
    method Join(id: Id, stopped: bool, usable: bool, good: bool) returns (r: Joined)
      requires Valid()
      modifies this
      ensures Valid() && StaysLeft(old(s).tasks, s.tasks)
      ensures r == Answer(old(s), id, stopped, usable, good, maxWaiters, maxTasks)
      ensures s == AfterRequest(old(s), id, stopped, usable, good, maxWaiters, maxTasks)
      ensures r.Joined? ==> Running(s, id, r.task) && s.tasks[r.task].refs > 0
      ensures
        var running := id in old(s).current && usable && !old(s).tasks[old(s).current[id]].cancelled;
        r == if stopped then Refused
             else if running then
               if old(s).tasks[old(s).current[id]].refs < maxWaiters then Joined(old(s).current[id], false) else Refused
             else if Unfinished(old(s).tasks) < maxTasks && good then Joined(|old(s).tasks|, true) else Refused
      ensures r == Refused ==> s.tasks == old(s).tasks && s.n == old(s).n
      ensures r == Refused && !stopped && id in s.current ==> usable && !s.tasks[s.current[id]].cancelled
    {
      RequestKeeps(s, Request(id, stopped, usable, good), maxWaiters, maxTasks);
      if stopped {
        return Refused;
      }
      if id in s.current {
        var t := s.current[id];
        if usable && !s.tasks[t].cancelled {
          if s.tasks[t].refs >= maxWaiters {
            return Refused;
          }
          s := AfterJoin(s, t);
          return Joined(t, false);
        }
        s := s.(current := s.current - {id});
      }
      assert s == Unlisted(old(s), id);
      if s.n.active >= maxTasks || !good {
        return Refused;
      }
      r := Joined(|s.tasks|, true);
      assert s.current[id := |s.tasks|] == old(s).current[id := |s.tasks|];
      s := AfterCreate(s, id);
    }

    /** One request leaves; the last one cancels the task. */
    method Leave(t: nat)
      requires Valid() && t < |s.tasks| && s.tasks[t].refs > 0
      modifies this
      ensures Valid() && StaysLeft(old(s).tasks, s.tasks)
      ensures old(s).n.waiters > 0
      ensures s == AfterLeave(old(s), t)
      ensures s.tasks[t].refs == old(s).tasks[t].refs - 1
      ensures s.tasks[t].cancelled <==> old(s).tasks[t].cancelled || s.tasks[t].refs == 0
    {
      LeaveKeeps(s, t, maxWaiters, maxTasks);
      s := s.(tasks := s.tasks[t := Left(s.tasks[t])], n := s.n.(waiters := s.n.waiters - 1));
    }

    /** A producer is done: its outcome is counted once, and a task that replaced it stays. */
    method Finish(t: nat, outcome: Outcome)
      requires Valid() && t < |s.tasks| && !s.tasks[t].finished
      modifies this
      ensures Valid() && StaysLeft(old(s).tasks, s.tasks)
      ensures old(s).n.active > 0 && s == AfterFinish(old(s), t, outcome)
      ensures forall id :: id in s.current <==> id in old(s).current && old(s).current[id] != t
    {
      var id, current := s.tasks[t].id, s.current;
      if id in current && current[id] == t {
        current := current - {id};
      }
      FinishKeeps(s, t, outcome, current, maxWaiters, maxTasks);
      s := State(current, s.tasks[t := s.tasks[t].(cancelled := true, finished := true)], Ended(s.n, outcome));
    }
  }
}
