/** The round-robin scheduler (kernel/sched.c). */
module Scheduler {

  const TASKS: int := 64

  datatype TaskState = Ready | Running | Blocked | Dead

  type States = s: seq<TaskState> | |s| == TASKS witness seq(TASKS, _ => Dead)

  /** The task table as the scheduler sees it. */
  datatype Machine = Machine(states: States, count: int, current: int)

  // ---- what a dispatch chooses ----

  /** `next` is the first ready task after `from` around the table, counting `from` itself last. */
  ghost predicate NextReady(states: States, from: int, next: int)
    requires 0 <= from < TASKS
  {
    && 0 <= next < TASKS && states[next] == Ready
    && forall t | 0 <= t < TASKS && states[t] == Ready :: (next - from - 1) % TASKS <= (t - from - 1) % TASKS
  }

  /** Places around the table, written without remainders. */
  lemma Around(a: int, b: int)
    requires 0 <= a < TASKS && 0 <= b < TASKS
    ensures (b - a) % TASKS == if a <= b then b - a else b - a + TASKS
    ensures (b - a - 1) % TASKS == if a < b then b - a - 1 else b - a - 1 + TASKS
  {
  }

  // ---- the calls as steps ----

  predicate WellFormed(m: Machine) { 0 <= m.current < TASKS }

  ghost predicate YieldStep(m: Machine, m': Machine)
    requires WellFormed(m)
  {
    if m.count <= 1 then m' == m
    else
      var released := m.states[m.current := Ready];
      && WellFormed(m')
      && NextReady(released, m.current, m'.current)
      && m' == m.(states := released[m'.current := Running], current := m'.current)
  }

  ghost predicate BlockStep(m: Machine, m': Machine)
    requires WellFormed(m)
  {
    YieldStep(m.(states := m.states[m.current := Blocked]), m')
  }

  ghost predicate UnblockStep(m: Machine, id: nat, m': Machine) {
    m' == if id < TASKS && m.states[id] == Blocked then m.(states := m.states[id := Ready]) else m
  }

  /** The first dead slot above 0 becomes ready. */
  ghost predicate CreateStep(m: Machine, slot: int, m': Machine) {
    if forall i | 1 <= i < TASKS :: m.states[i] != Dead then slot == -1 && m' == m
    else
      && 1 <= slot < TASKS && m.states[slot] == Dead
      && (forall i | 1 <= i < slot :: m.states[i] != Dead)
      && m' == m.(states := m.states[slot := Ready], count := m.count + 1)
  }

  datatype Event = Yield | Block | Tick | Unblock(id: nat) | Create(slot: int)

  predicate Dispatch(e: Event) { e.Yield? || e.Block? || e.Tick? }

  ghost predicate Step(m: Machine, e: Event, m': Machine)
    requires WellFormed(m)
  {
    match e
    case Yield => YieldStep(m, m')
    case Block => BlockStep(m, m')
    case Tick => YieldStep(m, m')
    case Unblock(id) => UnblockStep(m, id, m')
    case Create(slot) => CreateStep(m, slot, m')
  }

  function Init(): Machine { Machine(seq(TASKS, i => if i == 0 then Running else Dead), 1, 0) }

  // ---- invariant ----

  ghost function LiveTasks(states: States): set<int> { set t | 0 <= t < TASKS && states[t] != Dead }

  /** The count is the number of live tasks, the current one is live, and only it may be running. */
  ghost predicate Inv(m: Machine) {
    && WellFormed(m)
    && m.count == |LiveTasks(m.states)|
    && m.states[m.current] != Dead
    && forall t | 0 <= t < TASKS && t != m.current :: m.states[t] != Running
  }

  lemma LiveUpdate(states: States, t: int, s: TaskState)
    requires 0 <= t < TASKS && s != Dead
    ensures states[t] != Dead ==> LiveTasks(states[t := s]) == LiveTasks(states)
    ensures states[t] == Dead ==> |LiveTasks(states[t := s])| == |LiveTasks(states)| + 1
  {
    LiveAfter(states, t, s);
    if states[t] == Dead {
      hide LiveTasks;
      assert LiveTasks(states[t := s]) == LiveTasks(states) + {t};
    }
  }

  lemma LiveAfter(states: States, t: int, s: TaskState)
    requires 0 <= t < TASKS && s != Dead
    ensures LiveTasks(states[t := s]) == LiveTasks(states) + {t}
    ensures t in LiveTasks(states) <==> states[t] != Dead
  {
    var after: States := states[t := s];
    forall u ensures u in LiveTasks(after) <==> u in LiveTasks(states) + {t} {
    }
  }

  lemma InitInv()
    ensures Inv(Init()) && Init().count == 1 && Init().current == 0 && Init().states[0] == Running
    ensures forall t | 1 <= t < 64 :: Init().states[t] == Dead
  {
    assert LiveTasks(Init().states) == {0};
  }

  lemma YieldKeepsInv(m: Machine, m': Machine)
    requires Inv(m) && YieldStep(m, m')
    ensures Inv(m')
    ensures m.count > 1 ==> m'.states[m'.current] == Running
  {
    if m.count > 1 {
      var released := m.states[m.current := Ready];
      LiveUpdate(m.states, m.current, Ready);
      LiveUpdate(released, m'.current, Running);
    }
  }

  lemma StepKeepsInv(m: Machine, e: Event, m': Machine)
    requires Inv(m) && Step(m, e, m')
    ensures Inv(m')
  {
    match e
    case Yield => YieldKeepsInv(m, m');
    case Tick => YieldKeepsInv(m, m');
    case Block =>
      LiveUpdate(m.states, m.current, Blocked);
      YieldKeepsInv(m.(states := m.states[m.current := Blocked]), m');
    case Unblock(id) =>
      if id < TASKS {
        LiveUpdate(m.states, id, Ready);
      }
    case Create(slot) =>
      if slot >= 1 {
        LiveUpdate(m.states, slot, Ready);
      }
  }

  /** After a dispatch among several tasks exactly one task runs: the current one. */
  lemma OneTaskRuns(m: Machine, e: Event, m': Machine)
    requires Inv(m) && Step(m, e, m') && Dispatch(e) && m.count > 1
    ensures forall t | 0 <= t < TASKS :: m'.states[t] == Running <==> t == m'.current
  {
    StepKeepsInv(m, e, m');
    if e.Block? {
      LiveUpdate(m.states, m.current, Blocked);
      YieldKeepsInv(m.(states := m.states[m.current := Blocked]), m');
    } else {
      YieldKeepsInv(m, m');
    }
  }

  /**
   * Blocking takes the task off the processor only when it is alone: among several
   * tasks the block is undone by the yield that follows it.
   */
  lemma BlockIsYield(m: Machine, m': Machine)
    requires Inv(m)
    ensures m.count > 1 ==> (BlockStep(m, m') <==> YieldStep(m, m'))
    ensures BlockStep(m, m') ==> (m'.states[m.current] == Blocked <==> m.count <= 1)
  {
    var b := m.(states := m.states[m.current := Blocked]);
    assert b.states[b.current := Ready] == m.states[m.current := Ready];
  }

  /** A dispatch goes forward: the task `k` places on runs, and none of the tasks fewer places on was ready. */
  lemma YieldGoesForward(m: Machine, m': Machine) returns (k: int)
    requires WellFormed(m) && YieldStep(m, m') && m.count > 1
    ensures 1 <= k <= 64 && m'.current == (m.current + k) % 64
    ensures forall t | 0 <= t < 64 && 1 <= (t - m.current) % 64 < k :: m.states[t] != Ready
    ensures k < 64 ==> m.states[m'.current] == Ready
  {
    var released := m.states[m.current := Ready];
    k := (m'.current - m.current - 1) % 64 + 1;
    Around(m.current, m'.current);
    forall t | 0 <= t < 64 && 1 <= (t - m.current) % 64 < k ensures m.states[t] != Ready {
      Around(m.current, t);
      assert t != m.current && released[t] == m.states[t];
    }
  }

  // ---- bounded waiting ----

  /** Task 0 running and task 1 ready: a block of task 0 runs task 1 and leaves task 0 ready. */
  lemma BlockedTaskIsReady(m': Machine)
    requires BlockStep(Machine(Init().states[1 := Ready], 2, 0), m')
    ensures m'.current == 1 && m'.states[1] == Running && m'.states[0] == Ready
  {
    var m := Machine(Init().states[1 := Ready], 2, 0);
    assert m.states[0 := Blocked][0 := Ready][1] == Ready;
  }

  /** A ready task that is not current. */
  predicate Waiting(m: Machine, t: int) { WellFormed(m) && 0 <= t < TASKS && t != m.current && m.states[t] == Ready }

  lemma WaitingApart(m: Machine, t: int)
    requires Waiting(m, t)
    ensures 1 <= (t - m.current) % TASKS <= 63
  {
    Around(m.current, t);
  }

  lemma SeveralTasks(m: Machine, t: int)
    requires Inv(m) && Waiting(m, t)
    ensures m.count > 1
  {
    assert {t, m.current} <= LiveTasks(m.states);
    assert |LiveTasks(m.states) - {t, m.current}| >= 0;
    assert LiveTasks(m.states) == {t, m.current} + (LiveTasks(m.states) - {t, m.current});
  }

  /** A dispatch runs the waiting task or brings the current one closer to it. */
  lemma DispatchGetsCloser(m: Machine, e: Event, m': Machine, t: int)
    requires Inv(m) && Step(m, e, m') && Dispatch(e) && Waiting(m, t)
    ensures m'.current == t || (Waiting(m', t) && (t - m'.current) % TASKS < (t - m.current) % TASKS)
  {
    SeveralTasks(m, t);
    BlockIsYield(m, m');
    var released := m.states[m.current := Ready];
    assert released[t] == Ready;
    if m'.current != t {
      Closer(m.current, m'.current, t);
    }
  }

  lemma Closer(from: int, next: int, t: int)
    requires 0 <= from < TASKS && 0 <= next < TASKS && 0 <= t < TASKS && t != next && t != from
    requires (next - from - 1) % TASKS <= (t - from - 1) % TASKS
    ensures (t - next) % TASKS < (t - from) % TASKS
  {
    Around(from, next);
    Around(from, t);
    Around(next, t);
  }

  /** Other events leave it waiting where it is. */
  lemma OthersKeepWaiting(m: Machine, e: Event, m': Machine, t: int)
    requires Inv(m) && Step(m, e, m') && !Dispatch(e) && Waiting(m, t)
    ensures Waiting(m', t) && m'.current == m.current
  {
  }

  /** A create takes no slot behind a dead one, never slot 0, and fails only without a dead slot. */
  lemma CreateTakesLowest(m: Machine, slot: int, m': Machine, t: int)
    requires CreateStep(m, slot, m')
    ensures 1 <= t < 64 && m.states[t] == Dead ==>
              1 <= slot <= t && m.states[slot] == Dead && m' == Machine(m.states[slot := Ready], m.count + 1, m.current)
    ensures (forall u | 1 <= u < 64 :: m.states[u] != Dead) ==> slot == -1 && m' == m
  {
  }

  /** A created task, and an unblocked one, waits from then on. */
  lemma NewTaskWaits(m: Machine, e: Event, m': Machine, t: int)
    requires Inv(m) && Step(m, e, m') && 0 <= t < TASKS && t != m.current
    requires e == Create(t) || (e == Unblock(t) && m.states[t] == Blocked)
    ensures Waiting(m', t)
  {
  }

  ghost predicate Run(ms: seq<Machine>, events: seq<Event>) {
    && |ms| == |events| + 1
    && (forall i | 0 <= i < |ms| :: WellFormed(ms[i]))
    && forall i | 0 <= i < |events| :: Step(ms[i], events[i], ms[i + 1])
  }

  function Dispatches(events: seq<Event>): nat {
    if events == [] then 0 else (if Dispatch(events[0]) then 1 else 0) + Dispatches(events[1..])
  }

  /**
   * Bounded waiting: a ready task becomes current within as many dispatches as it is
   * places away, at most 63, whatever tasks are created and unblocked meanwhile.
   */
  lemma {:induction false} BoundedWaiting(ms: seq<Machine>, events: seq<Event>, t: int)
    requires Run(ms, events) && Inv(ms[0]) && Waiting(ms[0], t)
    requires Dispatches(events) >= (t - ms[0].current) % TASKS
    ensures exists i :: 0 <= i < |ms| && ms[i].current == t && ms[i].states[t] == Running
    ensures 1 <= (t - ms[0].current) % TASKS <= 63
    decreases |events|
  {
    hide Inv, Step;
    WaitingApart(ms[0], t);
    StepKeepsInv(ms[0], events[0], ms[1]);
    if Dispatch(events[0]) {
      DispatchGetsCloser(ms[0], events[0], ms[1], t);
      if ms[1].current == t {
        SeveralTasks(ms[0], t);
        OneTaskRuns(ms[0], events[0], ms[1]);
        return;
      }
    } else {
      OthersKeepWaiting(ms[0], events[0], ms[1], t);
    }
    BoundedWaiting(ms[1..], events[1..], t);
    var i :| 0 <= i < |ms[1..]| && ms[1..][i].current == t && ms[1..][i].states[t] == Running;
    assert ms[i + 1].current == t;
  }

  // ---- the calls ----

  /** No task on the first `i` places behind `from` is ready. */
  ghost predicate Passed(states: States, from: int, i: int) {
    forall t | 0 <= t < TASKS && states[t] == Ready :: (t - from - 1) % TASKS >= i
  }

  /** The next place, and that no other task lies there. */
  lemma OnePlaceOn(from: int, i: int, at: int, t: int)
    requires 0 <= from < TASKS && 0 <= i < TASKS && at == (from + i) % TASKS && 0 <= t < TASKS
    ensures (at + 1) % TASKS == (from + i + 1) % TASKS
    ensures (t - from - 1) % TASKS == i <==> t == (at + 1) % TASKS
  {
    Around(from, t);
    assert at == if from + i < TASKS then from + i else from + i - TASKS;
  }

  /** Its task is the next to run... */
  lemma RunsNext(states: States, from: int, i: int, at: int)
    requires 0 <= from < TASKS && 0 <= i < TASKS && at == (from + i) % TASKS && Passed(states, from, i)
    requires states[(at + 1) % TASKS] == Ready
    ensures NextReady(states, from, (at + 1) % TASKS)
  {
    OnePlaceOn(from, i, at, (at + 1) % TASKS);
  }

  /** ... or passed as well. */
  lemma PassesOn(states: States, from: int, i: int, at: int)
    requires 0 <= from < TASKS && 0 <= i < TASKS && at == (from + i) % TASKS && Passed(states, from, i)
    requires states[(at + 1) % TASKS] != Ready
    ensures Passed(states, from, i + 1)
  {
    forall t | 0 <= t < TASKS && states[t] == Ready ensures (t - from - 1) % TASKS >= i + 1 {
      OnePlaceOn(from, i, at, t);
    }
  }

  lemma NonePassed(states: States, from: int)
    ensures Passed(states, from, 0)
  {
  }

  /** A full circle passes every task. */
  lemma FullCircle(states: States, from: int)
    requires 0 <= from < TASKS && states[from] == Ready
    ensures !Passed(states, from, TASKS)
  {
    assert (from - from - 1) % TASKS < TASKS;
  }

  class Sched {
    const states: array<TaskState>
    var count: int
    var current: int

    ghost predicate Valid()
      reads this, states
    {
      states.Length == TASKS && Inv(View())
    }

    ghost function View(): Machine
      requires states.Length == TASKS
      reads this, states
    {
      Machine(states[..], count, current)
    }

    constructor ()
      ensures Valid() && fresh(states) && View() == Init()
    {
      states := new TaskState[TASKS](i => if i == 0 then Running else Dead);
      count, current := 1, 0;
      new;
      assert states[..] == Init().states;
      InitInv();
    }

    method Create() returns (slot: int)
      requires Valid()
      modifies this, states
      ensures Valid() && Step(old(View()), Event.Create(slot), View())
    {
      slot := -1;
      var i := 1;
      while i < TASKS
        invariant 1 <= i <= TASKS && slot == -1
        invariant forall k | 1 <= k < i :: states[k] != Dead
      {
        if states[i] == Dead {
          slot := i;
          break;
        }
        i := i + 1;
      }
      if slot < 0 {
        return;
      }
      states[slot] := Ready;
      count := count + 1;
      StepKeepsInv(old(View()), Event.Create(slot), View());
    }

    method Yield()
      requires states.Length == TASKS && WellFormed(View())
      modifies this, states
      ensures YieldStep(old(View()), View())
    {
      if count <= 1 {
        return;
      }
      states[current] := Ready;
      var next := Next();
      states[next] := Running;
      current := next;
    }

    /** The search of a yield, from the task behind the current one around to itself. */
    method Next() returns (next: int)
      requires states.Length == TASKS && 0 <= current < TASKS && states[current] == Ready
      ensures NextReady(states[..], current, next)
    {
      hide Passed, NextReady;
      next := current;
      var i := 0;
      NonePassed(states[..], current);
      while i < TASKS
        invariant 0 <= i <= TASKS && next == (current + i) % TASKS && Passed(states[..], current, i)
      {
        ghost var at := next;
        OnePlaceOn(current, i, at, current);
        next := (next + 1) % TASKS;
        if states[next] == Ready {
          RunsNext(states[..], current, i, at);
          return;
        }
        PassesOn(states[..], current, i, at);
        i := i + 1;
      }
      FullCircle(states[..], current);
      assert false;
    }

    method Block()
      requires Valid()
      modifies this, states
      ensures Valid() && Step(old(View()), Event.Block, View())
    {
      states[current] := Blocked;
      assert states[..] == old(states[..])[current := Blocked];
      Yield();
      StepKeepsInv(old(View()), Event.Block, View());
    }

    method Unblock(id: nat)
      requires Valid()
      modifies states
      ensures Valid() && Step(old(View()), Event.Unblock(id), View())
    {
      if id >= TASKS {
        return;
      }
      if states[id] == Blocked {
        states[id] := Ready;
      }
      StepKeepsInv(old(View()), Event.Unblock(id), View());
    }

    method Tick()
      requires Valid()
      modifies this, states
      ensures Valid() && Step(old(View()), Event.Tick, View())
    {
      Yield();
      StepKeepsInv(old(View()), Event.Tick, View());
    }
  }
}
