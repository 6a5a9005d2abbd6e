/**
  What every kernel call on tasks does, field by field and list by list: the fields it changes, the place
  where a task leaves a list and the end at which it joins one.
 */
module TaskCalls {
  import opened Basics
  import opened Scheduler
  import opened TaskSystem

  /** `l'` is `l` without its element t, in the same order. */
  ghost predicate Left(l: seq<nat>, l': seq<nat>, t: nat) {
    exists k :: 0 <= k < |l| && l[k] == t && l' == l[..k] + l[k + 1..]
  }

  lemma {:induction false} EraseAt(l: seq<nat>, t: nat) returns (k: nat)
    requires t in l
    ensures k < |l| && l[k] == t && Erase(l, t) == l[..k] + l[k + 1..]
  {
    if l[0] == t {
      k := 0;
    } else {
      var j := EraseAt(l[1..], t);
      k := j + 1;
      assert l == [l[0]] + l[1..];
      assert l[..k] == [l[0]] + l[1..][..j] && l[k + 1..] == l[1..][j + 1..];
    }
  }

  lemma ErasedLeft(l: seq<nat>, t: nat)
    requires t in l
    ensures Left(l, Erase(l, t), t)
  {
    var k := EraseAt(l, t);
  }

  lemma ListedOnce(s: System, t: nat)
    requires Shape(s) && Placed(s) && Live(s, t)
    ensures s.tasks[t].flag == READY ==> t in s.ready[s.tasks[t].priority]
    ensures s.tasks[t].flag == WAIT ==> t in s.wait
  {
    if s.tasks[t].flag == READY {
      assert Members(s.ready[s.tasks[t].priority], s.tasks, Ready(s.tasks[t].priority));
    }
    assert Members(s.wait, s.tasks, Waiting);
  }

  // ----- Priorities -----

  /**
    The task has the new priority; nothing else in the table changes.  A task that is not running and whose
    priority changes leaves the list it was in and stands last in the ready list of its new priority.
   */
  lemma PriorityChanged(s: System, t: nat, p: nat)
    requires Inv(s) && Joinable(s, t) && p < LEVELS
    ensures var (s', was) := (ChangePriority(s, t, p), s.tasks[t]);
      && s'.tasks == s.tasks[t := was.(priority := p)] && |s'.ready| == |s.ready|
      && s'.now == s.now && s'.exec == s.exec && s'.mask == s.mask && s'.exit == s.exit
      && (t == s.now || was.priority == p ==> s'.ready == s.ready && s'.wait == s.wait)
      && (t != s.now && was.priority != p && was.flag == READY ==>
            && s'.wait == s.wait && s'.ready[p] == s.ready[p] + [t]
            && Left(s.ready[was.priority], s'.ready[was.priority], t)
            && forall l :: 0 <= l < LEVELS && l != p && l != was.priority ==> s'.ready[l] == s.ready[l])
      && (t != s.now && was.priority != p && was.flag == WAIT ==>
            && Left(s.wait, s'.wait, t) && s'.ready[p] == s.ready[p] + [t]
            && forall l :: 0 <= l < LEVELS && l != p ==> s'.ready[l] == s.ready[l])
    ensures t == s.now || s.tasks[t].flag == READY || s.tasks[t].flag == WAIT
  {
    ListedOnce(s, t);
    assert s.tasks[t := s.tasks[t].(priority := s.tasks[t].priority)] == s.tasks;
    if t != s.now && s.tasks[t].priority != p {
      if s.tasks[t].flag == READY {
        ErasedLeft(s.ready[s.tasks[t].priority], t);
      } else {
        ErasedLeft(s.wait, t);
      }
    }
    hide Members, Joins, Identified, Resident, Placed, Erase, Left;
  }

  // ----- Scheduling -----

  /** With nothing ready only the counts change. */
  lemma NothingScheduled(s: System)
    requires Switching(s) && Live(s, s.now) && forall l :: 0 <= l < LEVELS ==> s.ready[l] == []
    ensures Schedule(s) == s.(exec := Schedule(s).exec)
  {
    ChooseTakes(Sizes(s.ready), s.exec);
    hide Choose;
  }

  /**
    Otherwise the front task of the level that the counts choose runs; the old one, if it was running, is
    ready again and stands last in the list of its own priority.
   */
  lemma Scheduled(s: System) returns (level: nat)
    requires Switching(s) && Live(s, s.now) && s.tasks[s.now].flag != READY
    requires exists l :: 0 <= l < LEVELS && s.ready[l] != []
    ensures level < LEVELS && s.ready[level] != [] && Choose(Sizes(s.ready), s.exec) == (Schedule(s).exec, Some(level))
    ensures Switched(s, Schedule(s), level)
    ensures Schedule(s).wait == s.wait && Schedule(s).exit == s.exit && Schedule(s).mask == s.mask
  {
    ChooseTakes(Sizes(s.ready), s.exec);
    var l :| 0 <= l < LEVELS && s.ready[l] != [];
    assert Sizes(s.ready)[l] != 0;
    var (e, c) := Choose(Sizes(s.ready), s.exec);
    level := c.value;
    ReadyIsLive(s, level, s.ready[level][0]);
    assert Schedule(s) == SwitchTo(s.(exec := e), s.ready[level][0]);
    hide Choose, Placed, Joins, Identified, Resident, OneRunning, Switched, SwitchTo;
    SwitchedTo(s, s.(exec := e), level);
  }

  lemma SwitchedTo(s: System, s1: System, level: nat)
    requires Shape(s) && s1 == s.(exec := s1.exec) && |s1.exec| == LEVELS && level < LEVELS && s.ready[level] != []
    requires var next := s.ready[level][0];
      Live(s, next) && Live(s, s.now) && next != s.now && s.tasks[next].flag == READY && s.tasks[next].priority == level
    requires s.tasks[s.now].flag != READY
    ensures var s' := SwitchTo(s1, s.ready[level][0]);
      Switched(s, s', level) && s'.exec == s1.exec && s'.wait == s.wait && s'.exit == s.exit && s'.mask == s.mask
  {
    EraseFirst(s.ready[level]);
    hide Erase;
  }

  ghost predicate Switched(s: System, s': System, level: nat)
    requires level < |s.ready| && s.ready[level] != [] && s.now < |s.tasks|
  {
    var (next, prev) := (s.ready[level][0], s.tasks[s.now]);
    var popped := s.ready[level := s.ready[level][1..]];
    && s'.now == next < |s.tasks| && |s'.tasks| == |s.tasks| && prev.priority < |popped|
    && (forall t :: 0 <= t < |s.tasks| && t != next && t != s.now ==> s'.tasks[t] == s.tasks[t])
    && s'.tasks[next] == s.tasks[next].(flag := RUNNING)
    && s'.tasks[s.now] == (if prev.flag == RUNNING then prev.(flag := READY) else prev)
    && s'.ready == if prev.flag == RUNNING then popped[prev.priority := popped[prev.priority] + [s.now]] else popped
  }

  // ----- Blocking -----

  /** The current task stands last in the wait list before another one is scheduled. */
  lemma Suspended(s: System) returns (s1: System)
    requires Inv(s) && s.now != IDLE
    ensures s1 == s.(tasks := s.tasks[s.now := s.tasks[s.now].(flag := WAIT)], wait := s.wait + [s.now])
    ensures Switching(s1) && Live(s1, s1.now) && SuspendNow(s) == Schedule(s1)
  {
    NowStopsRunning(s);
    hide Members, Joins, Identified, Resident, Schedule;
    s1 := Relocate(s, s.now, s.tasks[s.now].(flag := WAIT));
  }

  /** So it does in a join, and last in the waiter list of the task it waits for. */
  lemma Joined(s: System, x: nat) returns (s1: System)
    requires Inv(s) && Joinable(s, x) && s.now != IDLE
    ensures s1 == s.(tasks := s1.tasks, wait := s.wait + [s.now]) && |s1.tasks| == |s.tasks|
    ensures forall t: nat :: t < |s.tasks| ==>
      s1.tasks[t] == s.tasks[t].(
        waitMe := if t == x then s.tasks[t].waitMe + [s.now] else s.tasks[t].waitMe,
        waitObj := if t == s.now then Some(x) else s.tasks[t].waitObj,
        flag := if t == s.now then WAIT else s.tasks[t].flag)
    ensures Switching(s1) && Live(s1, s1.now) && Join(s, x) == Schedule(s1)
  {
    JoinSwitching(s, x);
    s1 := Blocked(s, x);
    BlockedTasks(s, x);
    hide Members, Joins, Identified, Resident, Schedule;
  }

  /** A waiting task leaves the wait list and stands last in the ready list of its priority. */
  lemma Resumed(s: System, t: nat)
    requires Inv(s) && Joinable(s, t)
    ensures s.tasks[t].flag != WAIT ==> Resume(s, t) == s
    ensures s.tasks[t].flag == WAIT ==>
      var (s', p) := (Resume(s, t), s.tasks[t].priority);
      p < LEVELS && Left(s.wait, s'.wait, t) &&
      s' == s.(tasks := s.tasks[t := s.tasks[t].(flag := READY)], wait := s'.wait, ready := s.ready[p := s.ready[p] + [t]])
  {
    ListedOnce(s, t);
    if s.tasks[t].flag == WAIT {
      ErasedLeft(s.wait, t);
    }
    hide Members, Joins, Identified, Resident, Placed, Erase, Left;
  }

  // ----- Creating and reaping -----

  /** The new task stands last in the ready list of its priority; the identifiers to come are larger. */
  lemma Created(s: System, i: nat, p: nat)
    requires Inv(s) && 2 <= i < MAX_TASK && s.tasks[i].selector == 0 && p < LEVELS
    ensures Create(s, i, p) == s.(
      tasks := s.tasks[i := Task(3 + i, READY, p, None, [], s.mask + i)],
      ready := s.ready[p := s.ready[p] + [i]], mask := s.mask + 4096)
  {
  }

  /** The slots of the exited tasks become free, and nothing else changes. */
  lemma {:induction false} Reaped(s: System)
    requires Inv(s)
    ensures var s' := Reap(s);
      && s' == s.(tasks := s'.tasks, exit := []) && |s'.tasks| == |s.tasks|
      && forall t: nat :: t < |s.tasks| ==>
           s'.tasks[t] == if t in s.exit then s.tasks[t].(selector := 0) else s.tasks[t]
    decreases |s.exit|
  {
    if s.exit != [] {
      ExitFront(s);
      ReapOne(s, s.exit[0]);
      EraseFirst(s.exit);
      var s1 := Relocate(s, s.exit[0], s.tasks[s.exit[0]].(selector := 0));
      Reaped(s1);
      hide Inv, Erase;
    }
  }

  // ----- Ending a task -----

  /** The tasks of one priority, in the order of the list. */
  ghost function OfLevel(list: seq<nat>, tasks: seq<Task>, level: nat): seq<nat> {
    if list == [] then []
    else (if list[0] < |tasks| && tasks[list[0]].priority == level then [list[0]] else [])
         + OfLevel(list[1..], tasks, level)
  }

  /** A list without some of its elements, in its order. */
  ghost function Without(list: seq<nat>, gone: seq<nat>): seq<nat> {
    if list == [] then [] else (if list[0] in gone then [] else [list[0]]) + Without(list[1..], gone)
  }

  lemma {:induction false} OfLevelKept(list: seq<nat>, tasks: seq<Task>, tasks': seq<Task>, level: nat)
    requires |tasks'| == |tasks| && forall t :: 0 <= t < |tasks| ==> tasks'[t].priority == tasks[t].priority
    ensures OfLevel(list, tasks', level) == OfLevel(list, tasks, level)
  {
    if list != [] {
      OfLevelKept(list[1..], tasks, tasks', level);
    }
  }

  lemma {:induction false} WithoutNone(list: seq<nat>)
    ensures Without(list, []) == list
  {
    if list != [] {
      WithoutNone(list[1..]);
    }
  }

  lemma {:induction false} WithoutStranger(list: seq<nat>, t: nat, gone: seq<nat>)
    requires t !in list
    ensures Without(list, [t] + gone) == Without(list, gone)
  {
    if list != [] {
      WithoutStranger(list[1..], t, gone);
    }
  }

  lemma {:induction false} WithoutErased(list: seq<nat>, t: nat, gone: seq<nat>)
    requires Distinct(list) && t in list
    ensures Without(Erase(list, t), gone) == Without(list, [t] + gone)
  {
    if list[0] == t {
      WithoutStranger(list[1..], t, gone);
    } else {
      WithoutErased(list[1..], t, gone);
      assert Erase(list, t)[1..] == Erase(list[1..], t);
    }
  }

  /** Every task in `todo` is woken: in their order they stand last in the ready lists of their priorities. */
  ghost predicate WokenInOrder(s: System, s': System, todo: seq<nat>) {
    && Woken(s, s', todo) && s'.exit == s.exit && s'.exec == s.exec
    && s'.wait == Without(s.wait, todo)
    && |s'.ready| == |s.ready| && forall l :: 0 <= l < |s.ready| ==> s'.ready[l] == s.ready[l] + OfLevel(todo, s.tasks, l)
  }

  lemma {:induction false} WokenUp(s: System, x: nat, todo: seq<nat>)
    requires Sound(s) && Ending(s, x, todo) && forall t :: t in todo ==> Live(s, t)
    ensures WokenInOrder(s, WakeAll(s, todo), todo)
    decreases |todo|
  {
    WakeAllEnds(s, x, todo);
    if todo == [] {
      WithoutNone(s.wait);
    } else {
      var w := todo[0];
      assert WaitsFor(s, w, x);
      OneWoken(s, w);
      WakeOneSound(s, w);
      WakeEnding(s, x, todo);
      TailsApart(s, x, todo);
      hide Sound, Ending, WakeOne, Woken, Erase, WokenInOrder;
      WokenUp(WakeOne(s, w), x, todo[1..]);
      WokenFirst(s, WakeOne(s, w), WakeAll(s, todo), todo);
    }
  }

  lemma WokenFirst(s: System, s1: System, s': System, todo: seq<nat>)
    requires todo != [] && todo[0] < |s.tasks| && todo[0] in s.wait && Distinct(s.wait)
    requires var (w, p) := (todo[0], s.tasks[todo[0]].priority);
      && p < |s.ready|
      && s1 == s.(tasks := s.tasks[w := s.tasks[w].(waitObj := None, flag := READY)],
                  wait := Erase(s.wait, w), ready := s.ready[p := s.ready[p] + [w]])
    requires WokenInOrder(s1, s', todo[1..]) && Woken(s, s', todo)
    ensures WokenInOrder(s, s', todo)
  {
    var w := todo[0];
    hide Woken, Erase;
    assert todo == [w] + todo[1..];
    WithoutErased(s.wait, w, todo[1..]);
    forall l | 0 <= l < |s.ready|
      ensures s'.ready[l] == s.ready[l] + OfLevel(todo, s.tasks, l)
    {
      OfLevelKept(todo[1..], s.tasks, s1.tasks, l);
      assert s.ready[l] + [w] + OfLevel(todo[1..], s.tasks, l) == s.ready[l] + ([w] + OfLevel(todo[1..], s.tasks, l));
      assert s.ready[l] + OfLevel(todo[1..], s.tasks, l) == s.ready[l] + ([] + OfLevel(todo[1..], s.tasks, l));
    }
  }

  lemma OneWoken(s: System, w: nat)
    requires Sound(s) && Live(s, w) && s.tasks[w].flag == WAIT
    ensures w in s.wait && Distinct(s.wait) && s.tasks[w].priority < |s.ready|
    ensures var p := s.tasks[w].priority;
      WakeOne(s, w) == s.(tasks := s.tasks[w := s.tasks[w].(waitObj := None, flag := READY)],
                          wait := Erase(s.wait, w), ready := s.ready[p := s.ready[p] + [w]])
  {
    ListedOnce(s, w);
    WakeIsRelocate(s, w);
    assert Members(s.wait, s.tasks, Waiting);
    hide Members, Identified, Resident, Erase;
  }

  /** A task that ends itself wakes its waiters, stands last in the exit list, and another one is scheduled. */
  lemma EndedItself(s: System) returns (woken: System, s1: System)
    requires Inv(s) && s.now != KERNEL && s.now != IDLE
    ensures WokenInOrder(s, woken, s.tasks[s.now].waitMe) && |woken.tasks| == |s.tasks|
    ensures s1 == woken.(tasks := woken.tasks[s.now := woken.tasks[s.now].(flag := WAITFOREXIT)], exit := s.exit + [s.now])
    ensures Shape(s1) && Placed(s1) && Live(s1, s1.now) && Terminate(s, s.now) == Schedule(s1)
  {
    var x := s.now;
    NotWaiting(s, x);
    EndingLive(s, x);
    EndingStarts(s, x);
    WakeAllEnds(s, x, s.tasks[x].waitMe);
    WokenUp(s, x, s.tasks[x].waitMe);
    NowDoesNotWait(s, x);
    hide Members, Ending, Joins, Placed, Identified, Resident, OneRunning, WakeAll, Schedule, OfLevel, Without;
    woken := WakeAll(s, s.tasks[x].waitMe);
    RelocatePlaced(woken, x, woken.tasks[x].(flag := WAITFOREXIT));
    s1 := Relocate(woken, x, woken.tasks[x].(flag := WAITFOREXIT));
  }

  /**
    Ending another task wakes its waiters; the task itself leaves the list it is in, and the waiter list of
    the task it waits for, and its slot is free.
   */
  lemma EndedByOther(s: System, x: nat) returns (woken: System)
    requires Inv(s) && Joinable(s, x) && x != KERNEL && x != IDLE && x != s.now && !SelfSuspended(s.tasks[x])
    ensures WokenInOrder(s, woken, s.tasks[x].waitMe) && |woken.tasks| == |s.tasks|
    ensures var s' := Terminate(s, x);
      && |s'.tasks| == |s.tasks| && |s'.ready| == |s.ready| && s'.exit == s.exit && s'.exec == s.exec
      && s'.now == s.now && s'.mask == s.mask && s'.tasks[x] == woken.tasks[x].(waitObj := None, selector := 0)
      && (forall t: nat :: t < |s.tasks| && t != x ==>
            if woken.tasks[x].waitObj == Some(t) then
              s'.tasks[t] == woken.tasks[t].(waitMe := s'.tasks[t].waitMe) && Left(woken.tasks[t].waitMe, s'.tasks[t].waitMe, x)
            else s'.tasks[t] == woken.tasks[t])
      && (forall l :: 0 <= l < |s.ready| ==>
            if woken.tasks[x].flag == READY && l == s.tasks[x].priority then Left(woken.ready[l], s'.ready[l], x)
            else s'.ready[l] == woken.ready[l])
      && if woken.tasks[x].flag == WAIT then Left(woken.wait, s'.wait, x) else s'.wait == woken.wait
  {
    EndingLive(s, x);
    EndingStarts(s, x);
    WakeAllEnds(s, x, s.tasks[x].waitMe);
    WokenUp(s, x, s.tasks[x].waitMe);
    hide Members, Ending, Joins, Identified, Resident, OneRunning, WakeAll, Schedule, OfLevel, Without, Erase, Left;
    woken := WakeAll(s, s.tasks[x].waitMe);
    StopWaitingEnds(woken, x);
    StopWaitingFields(woken, x);
    StoppedWaiting(s, woken, x);
    NotRunningThen(s, woken, x);
    FreedFrom(StopWaiting(woken, x), x);
    hide Inv, Placed, Woken, WokenInOrder, StopWaiting;
  }

  /** The waiter list of the task that x waits for loses x; every other task stays. */
  lemma StoppedWaiting(s: System, woken: System, x: nat)
    requires Inv(s) && Joinable(s, x) && Woken(s, woken, s.tasks[x].waitMe)
    ensures var s2 := StopWaiting(woken, x);
      && |s2.tasks| == |s.tasks| && s2 == woken.(tasks := s2.tasks)
      && s2.tasks[x] == woken.tasks[x].(waitObj := None)
      && forall t: nat :: t < |s.tasks| && t != x ==>
           if woken.tasks[x].waitObj == Some(t) then
             s2.tasks[t] == woken.tasks[t].(waitMe := s2.tasks[t].waitMe) && Left(woken.tasks[t].waitMe, s2.tasks[t].waitMe, x)
           else s2.tasks[t] == woken.tasks[t]
  {
    if woken.tasks[x].waitObj.Some? {
      var y := woken.tasks[x].waitObj.value;
      assert WaitsFor(s, x, y) && WaitOk(s, x, y);
      ErasedLeft(woken.tasks[y].waitMe, x);
    }
    hide Placed, Erase, Left;
  }

  lemma NotRunningThen(s: System, woken: System, x: nat)
    requires Inv(s) && Joinable(s, x) && x != s.now && Woken(s, woken, s.tasks[x].waitMe)
    ensures Live(woken, x) && (woken.tasks[x].flag == READY || woken.tasks[x].flag == WAIT)
    ensures woken.tasks[x].priority == s.tasks[x].priority
  {
  }

  /** A task that is not running leaves its list. */
  lemma FreedFrom(s: System, x: nat)
    requires Shape(s) && Placed(s) && Live(s, x) && (s.tasks[x].flag == READY || s.tasks[x].flag == WAIT)
    ensures var s' := Relocate(s, x, s.tasks[x].(selector := 0));
      && s' == s.(tasks := s.tasks[x := s.tasks[x].(selector := 0)], ready := s'.ready, wait := s'.wait)
      && |s'.ready| == |s.ready|
      && (forall l :: 0 <= l < |s.ready| ==>
            if s.tasks[x].flag == READY && l == s.tasks[x].priority then Left(s.ready[l], s'.ready[l], x)
            else s'.ready[l] == s.ready[l])
      && if s.tasks[x].flag == WAIT then Left(s.wait, s'.wait, x) else s'.wait == s.wait
  {
    ListedOnce(s, x);
    if s.tasks[x].flag == READY {
      ErasedLeft(s.ready[s.tasks[x].priority], x);
    } else {
      ErasedLeft(s.wait, x);
    }
    hide Placed, Erase, Left;
  }
}
