/**
  The kernel's task structure, updated in place.  Every method does to its fields what the function of
  the same meaning in `TaskSystem` does to the value `State()`.
 */
module TaskKernel {
  import opened Basics
  import opened Scheduler
  import opened TaskSystem

  const INVALID_ID: nat := 0xffff_ffff
  const QUANTUM: nat := 20

  /** What switching does once the new task is out of its queue. */
  ghost function Switched(s: System, next: nat): System
    requires next < |s.tasks| && s.now < |s.tasks|
    requires s.tasks[s.now].priority < |s.ready|
  {
    var prev := s.tasks[s.now];
    if prev.flag == RUNNING then
      s.(ready := s.ready[prev.priority := s.ready[prev.priority] + [s.now]],
         tasks := s.tasks[s.now := prev.(flag := READY)][next := s.tasks[next].(flag := RUNNING)],
         now := next)
    else
      s.(tasks := s.tasks[next := s.tasks[next].(flag := RUNNING)], now := next)
  }

  lemma ReadyFronts(s: System)
    requires Switching(s)
    ensures |s.ready| == |s.exec| == LEVELS
    ensures Choose(Sizes(s.ready), s.exec).1.Some? ==>
              var i := Choose(Sizes(s.ready), s.exec).1.value;
              i < LEVELS && s.ready[i] != [] && Live(s, s.ready[i][0])
  {
    ChooseTakes(Sizes(s.ready), s.exec);
    var c := Choose(Sizes(s.ready), s.exec).1;
    if c.Some? {
      ReadyIsLive(s, c.value, s.ready[c.value][0]);
    }
  }

  lemma SwitchIsSchedule(s: System, i: nat)
    requires Switching(s) && Live(s, s.now) && s.tasks[s.now].flag != READY
    requires Choose(Sizes(s.ready), s.exec).1 == Some(i)
    ensures i < |s.ready| && s.ready[i] != []
    ensures var next := s.ready[i][0];
            && next < MAX_TASK && next != s.now
            && Schedule(s) == Switched(s.(exec := Choose(Sizes(s.ready), s.exec).0, ready := s.ready[i := s.ready[i][1..]]), next)
  {
    ReadyFronts(s);
    ReadyIsLive(s, i, s.ready[i][0]);
    EraseFirst(s.ready[i]);
    hide Choose, Members, Joins, Identified, Resident;
    var next := s.ready[i][0];
    if s.tasks[s.now].flag == RUNNING {
      var t := s.tasks;
      assert t[next := t[next].(flag := RUNNING)][s.now := t[s.now].(flag := READY)]
          == t[s.now := t[s.now].(flag := READY)][next := t[next].(flag := RUNNING)];
    }
  }

  ghost predicate EndingLiveHolds(s: System, x: nat) {
    TaskSystem.Shape(s) && x < |s.tasks| && forall t :: t in s.tasks[x].waitMe ==> Live(s, t)
  }

  /** The current task after it has marked itself as ended. */
  ghost function ExitNow(s: System, x: nat): System
    requires EndingLiveHolds(s, x)
  {
    var s1 := WakeAll(s, s.tasks[x].waitMe);
    if TaskSystem.Shape(s1) && Live(s1, x) then Relocate(s1, x, s1.tasks[x].(flag := WAITFOREXIT)) else s1
  }

  /** A task that is not running: waiting for some other task, or ready. */
  ghost predicate EndsFrom(s: System, x: nat)
    requires x < |s.tasks|
  {
    match s.tasks[x].waitObj
    case Some(y) => s.tasks[x].flag == WAIT && y != x && y < |s.tasks|
    case None => s.tasks[x].flag == READY
  }

  /** That task out of all lists, its slot free. */
  ghost function Freed(s: System, x: nat): System
    requires TaskSystem.Shape(s) && Live(s, x)
  {
    var s2 := StopWaiting(s, x);
    if TaskSystem.Shape(s2) then Relocate(s2, x, s2.tasks[x].(selector := 0)) else s2
  }

  lemma TerminateParts(s: System, x: nat)
    requires Inv(s) && Joinable(s, x) && x != KERNEL && x != IDLE && !SelfSuspended(s.tasks[x])
    ensures EndingLiveHolds(s, x)
    ensures var s1 := WakeAll(s, s.tasks[x].waitMe);
            && TaskSystem.Shape(s1) && Live(s1, x) && s1.now == s.now
            && (x == s.now ==> s1.tasks[x].waitObj == None && s1.tasks[x].flag == RUNNING)
            && (x == s.now ==> Switching(ExitNow(s, x)) && ExitNow(s, x).now == x)
            && (x == s.now ==> Terminate(s, x) == Schedule(ExitNow(s, x)))
            && (x == s.now ==> ExitNow(s, x) == Relocate(s1, x, s1.tasks[x].(flag := WAITFOREXIT)))
            && (x != s.now ==> EndsFrom(s1, x) && Terminate(s, x) == Freed(s1, x))
  {
    hide Members, Ending, Joins, Placed, Identified, Resident, OneRunning;
    EndingLive(s, x);
    EndingStarts(s, x);
    var todo := s.tasks[x].waitMe;
    WakeAllEnds(s, x, todo);
    NowDoesNotWait(s, x);
    var s1 := WakeAll(s, todo);
    if x == s.now {
      SoundRelocate(s1, x, s1.tasks[x].(flag := WAITFOREXIT));
      EndedJoins(s1, ExitNow(s, x), x);
    } else {
      StopWaitingEnds(s1, x);
      NotRunning(s, s1, x);
    }
  }

  lemma NotRunning(s: System, s1: System, x: nat)
    requires Inv(s) && Joinable(s, x) && x != s.now && !SelfSuspended(s.tasks[x])
    requires Woken(s, s1, s.tasks[x].waitMe) && Ending(s1, x, [])
    ensures EndsFrom(s1, x)
  {
    hide Members, Placed, Identified, Resident;
    if s.tasks[x].waitObj.Some? {
      var y := s.tasks[x].waitObj.value;
      assert WaitsFor(s, x, y) && WaitOk(s, x, y);
    }
    if s1.tasks[x].waitObj.Some? {
      assert WaitsFor(s1, x, s1.tasks[x].waitObj.value);
    }
  }

  /** Ending a task that is not running passes the asserts exactly when it has not suspended itself. */
  lemma TerminateAssertsIff(s: System, x: nat)
    requires Inv(s) && Joinable(s, x) && x != KERNEL && x != IDLE && x != s.now
    ensures EndingLiveHolds(s, x) && x < |WakeAll(s, s.tasks[x].waitMe).tasks|
    ensures EndsFrom(WakeAll(s, s.tasks[x].waitMe), x) <==> !SelfSuspended(s.tasks[x])
  {
    hide Members, Ending, Joins, Placed, Identified, Resident, OneRunning;
    if SelfSuspended(s.tasks[x]) {
      EndingLive(s, x);
      EndingStarts(s, x);
      WakeAllEnds(s, x, s.tasks[x].waitMe);
      ExactlyWaiters(s, x, x);
    } else {
      TerminateParts(s, x);
    }
  }

  /** A task that suspends itself cannot be ended by another one: the assertion fails. */
  /** A task other than the running one is ready. */
  ghost predicate OthersReady(s: System) {
    exists l :: 0 <= l < |s.ready| && s.ready[l] != []
  }

  lemma ChoosesReady(s: System)
    requires |s.ready| == |s.exec|
    ensures Choose(Sizes(s.ready), s.exec).1.Some? <==> OthersReady(s)
  {
    ChooseTakes(Sizes(s.ready), s.exec);
    hide Choose;
    if OthersReady(s) {
      var l :| 0 <= l < |s.ready| && s.ready[l] != [];
      assert Sizes(s.ready)[l] != 0;
    }
  }

  /** Once the current task has stopped running another one is ready, so that it gets a full slice. */
  lemma StoppedMeansReady(s: System)
    requires Switching(s) && Live(s, s.now) && s.tasks[s.now].flag != RUNNING && s.now != IDLE
    ensures OthersReady(s)
  {
    SomeoneReady(s);
  }

  lemma ScheduleSwitches(s: System)
    requires Inv(s) && OthersReady(s)
    ensures Schedule(s).now != s.now
  {
    ChoosesReady(s);
    SwitchIsSchedule(s, Choose(Sizes(s.ready), s.exec).1.value);
    hide Inv, Choose, Members, Joins, Identified, Resident;
  }

  /** Whenever another task runs the idle task is ready. */
  lemma IdleIsReady(s: System)
    requires Inv(s)
    ensures s.now != IDLE ==> OthersReady(s)
  {
    if s.now != IDLE {
      assert Live(s, IDLE) && s.tasks[IDLE].flag == READY;
      assert IDLE in s.ready[s.tasks[IDLE].priority];
    }
  }

  lemma NothingReadyIsIdle(s: System)
    requires Inv(s) && !OthersReady(s)
    ensures s.now == IDLE && Schedule(s).now == IDLE
  {
    ChoosesReady(s);
    IdleIsReady(s);
    hide Choose;
  }

  /** How many timer interrupts pass until the time slice next becomes 0, in 32 bits. */
  function TicksLeft(quantum: nat): nat {
    if quantum == 0 then 0x1_0000_0000 else quantum
  }

  lemma EndingSuspendedFails(s: System)
    requires Inv(s) && s.now != KERNEL && s.now != IDLE
    ensures var s' := SuspendNow(s);
      && Inv(s') && Joinable(s', s.now) && s'.now != s.now
      && EndingLiveHolds(s', s.now) && s.now < |WakeAll(s', s'.tasks[s.now].waitMe).tasks|
      && !EndsFrom(WakeAll(s', s'.tasks[s.now].waitMe), s.now)
  {
    var t := s.now;
    var suspended := Relocate(s, t, s.tasks[t].(flag := WAIT));
    SuspendInv(s);
    NowDoesNotWait(s, t);
    NowStopsRunning(s);
    ScheduleKeeps(suspended, t);
    hide Members, Placed, Identified, Resident, Joins, Schedule;
    TerminateAssertsIff(SuspendNow(s), t);
  }

  lemma ReapFront(s: System)
    requires Inv(s) && s.exit != []
    ensures var x := s.exit[0];
            && x < |s.tasks| && Live(s, x)
            && var s' := s.(exit := s.exit[1..], tasks := s.tasks[x := s.tasks[x].(selector := 0)]);
               Inv(s') && Reap(s') == Reap(s)
  {
    ExitFront(s);
    ReapOne(s, s.exit[0]);
    EraseFirst(s.exit);
  }

  lemma CreateShape(s: System)
    requires Inv(s)
    ensures TaskSystem.Shape(s)
  {
  }

  lemma OnlyOneId(s: System, x: nat, id: nat)
    requires Inv(s) && Joinable(s, x) && s.tasks[x].id == id
    ensures forall y: nat :: Joinable(s, y) && s.tasks[y].id == id ==> y == x
  {
    hide Members, Joins, Placed;
  }

  /** The identifier in the slot that creation returns. */
  lemma Identifiers(s: System, priority: nat)
    requires Inv(s) && priority < LEVELS && s.mask <= INVALID_ID
    ensures |s.tasks| == MAX_TASK
    ensures var free := FreeSlot(s, 2);
      if free < MAX_TASK then
        var s' := Create(s, free, priority);
        && Live(s', free) && s'.tasks[free].id != INVALID_ID
        && forall t: nat :: Live(s, t) ==> s.tasks[t].id != s'.tasks[free].id
      else Live(s, MAX_TASK - 1) && s.tasks[MAX_TASK - 1].id != INVALID_ID
  {
    hide Placed, Joins, Resident, OneRunning;
    var free := FreeSlot(s, 2);
    assert s.mask % ID_UNIT == 0 && forall t: nat :: Live(s, t) ==> s.tasks[t].id < s.mask;
    if free < MAX_TASK {
      CreateInv(s, free, priority);
      MaskedId(s.mask, free);
      assert Create(s, free, priority).tasks[free].id == s.mask + free;
    } else {
      assert Live(s, MAX_TASK - 1);
    }
    hide Inv, FreeSlot, Create;
  }

  lemma MaskedId(mask: nat, i: nat)
    requires mask % ID_UNIT == 0 && mask <= INVALID_ID && i < MAX_TASK
    ensures mask + i != INVALID_ID
  {
    assert mask == ID_UNIT * (mask / ID_UNIT);
  }

  class TaskStruct {
    const tasks: array<Task>
    var readyList: seq<seq<nat>>
    var waitList: seq<nat>
    var waitForExitList: seq<nat>
    var executeCount: seq<nat>
    var pNow: nat
    var taskIdMask: nat
    var remainQuantum: nat

    ghost function State(): System
      reads this, tasks
    {
      System(tasks[..], readyList, waitList, waitForExitList, executeCount, pNow, taskIdMask)
    }

    ghost predicate Valid()
      reads this, tasks
    {
      Inv(State())
    }

    constructor ()
      ensures Valid() && State() == InitialSystem() && fresh(tasks)
      ensures tasks.Length == MAX_TASK && pNow == KERNEL && remainQuantum == QUANTUM
      ensures tasks[KERNEL].flag == RUNNING && tasks[KERNEL].priority == 1 && tasks[KERNEL].selector == 3
      ensures tasks[IDLE].flag == READY && tasks[IDLE].priority == 8 && tasks[IDLE].selector == 4
      ensures forall t :: 2 <= t < MAX_TASK ==> tasks[t].selector == 0
      ensures readyList == [[], [], [], [], [], [], [], [], [IDLE]] && waitList == waitForExitList == []
    {
      tasks := new Task[MAX_TASK](t requires 0 <= t =>
        if t == KERNEL then Task(FIRST_SELECTOR, RUNNING, 1, None, [], KERNEL)
        else if t == IDLE then Task(FIRST_SELECTOR + 1, READY, LEVELS - 1, None, [], IDLE)
        else Task(0, RUNNING, 0, None, [], 0));
      readyList := seq(LEVELS, i => if i == LEVELS - 1 then [IDLE] else []);
      waitList, waitForExitList := [], [];
      executeCount := seq(LEVELS, i => if i == 1 then 1 else 0);
      pNow := KERNEL;
      taskIdMask := ID_UNIT;
      remainQuantum := QUANTUM;
      new;
      InitialInv();
      assert tasks[..] == InitialSystem().tasks;
      assert readyList == InitialSystem().ready;
      assert executeCount == InitialSystem().exec;
    }

    // ----- Scheduling -----

    /** One pass of the loop over the priorities. */
    method SweepLevels() returns (found: bool, level: nat)
      requires |executeCount| == |readyList|
      modifies this`executeCount
      ensures |executeCount| == |readyList|
      ensures (executeCount, if found then Some(level) else None) == Sweep(Sizes(readyList), old(executeCount), 0)
    {
      level := 0;
      while level < |readyList|
        invariant level <= |readyList| == |executeCount|
        invariant Sweep(Sizes(readyList), executeCount, level) == Sweep(Sizes(readyList), old(executeCount), 0)
      {
        if executeCount[level] < |readyList[level]| {
          executeCount := executeCount[level := executeCount[level] + 1];
          return true, level;
        }
        executeCount := executeCount[level := 0];
        level := level + 1;
      }
      found := false;
    }

    /** At most two passes. */
    method PickLevel() returns (found: bool, level: nat)
      requires |executeCount| == |readyList|
      modifies this`executeCount
      ensures |executeCount| == |readyList|
      ensures (executeCount, if found then Some(level) else None) == Choose(Sizes(readyList), old(executeCount))
    {
      hide Sweep;
      found, level := SweepLevels();
      if !found {
        found, level := SweepLevels();
      }
    }

    /** `ckTaskSchedule_internal` */
    method ScheduleInternal()
      requires Switching(State()) && Live(State(), pNow)
      requires tasks[pNow].flag == RUNNING || (pNow != IDLE && tasks[pNow].flag != READY)
      modifies this`readyList, this`executeCount, this`pNow, this`remainQuantum, tasks
      ensures Valid() && State() == Schedule(old(State()))
      ensures remainQuantum == if OthersReady(old(State())) then QUANTUM else old(remainQuantum)
    {
      ghost var s := State();
      ScheduleInv(s);
      ChoosesReady(s);
      hide Inv, Switching, Choose, Members, Joins, Identified, Resident, OthersReady;
      ReadyFronts(s);
      var found, i := PickLevel();
      if found {
        SwitchIsSchedule(s, i);
        hide Schedule, Live;
        RunFirst(i);
      }
    }

    /** The first task of a level leaves its list and runs. */
    method RunFirst(level: nat)
      requires level < |readyList| == LEVELS && readyList[level] != [] && readyList[level][0] < tasks.Length
      requires pNow < tasks.Length && readyList[level][0] != pNow
      requires tasks[pNow].selector != 0 && tasks[pNow].priority < LEVELS
      modifies this`readyList, this`pNow, this`remainQuantum, tasks
      ensures remainQuantum == QUANTUM
      ensures State() == var s := old(State());
                Switched(s.(ready := s.ready[level := s.ready[level][1..]]), s.ready[level][0])
    {
      var next := readyList[level][0];
      readyList := readyList[level := readyList[level][1..]];
      SwitchContext(next);
    }

    /** Scheduling once the current task has stopped running: another task runs, on a full slice. */
    method LeaveProcessor()
      requires Switching(State()) && Live(State(), pNow) && pNow != IDLE
      requires tasks[pNow].flag != RUNNING && tasks[pNow].flag != READY
      modifies this`readyList, this`executeCount, this`pNow, this`remainQuantum, tasks
      ensures Valid() && State() == Schedule(old(State())) && remainQuantum == QUANTUM
    {
      StoppedMeansReady(State());
      hide Inv, Schedule, OthersReady;
      ScheduleInternal();
    }

    /** The second half of scheduling: the old task is queued, the new one runs. */
    method SwitchContext(next: nat)
      requires next < tasks.Length && pNow < tasks.Length && |readyList| == LEVELS
      requires tasks[pNow].selector != 0 ==> tasks[pNow].priority < LEVELS
      requires tasks[pNow].selector != 0 && next != pNow
      modifies this`readyList, this`pNow, this`remainQuantum, tasks
      ensures State() == Switched(old(State()), next) && remainQuantum == QUANTUM
    {
      var prev := pNow;
      if tasks[prev].flag == RUNNING {
        var p := tasks[prev].priority;
        readyList := readyList[p := readyList[p] + [prev]];
        tasks[prev] := tasks[prev].(flag := READY);
      }
      pNow := next;
      tasks[next] := tasks[next].(flag := RUNNING);
      remainQuantum := QUANTUM;
    }

    /** `ckTaskSchedule` */
    method DoSchedule()
      requires Valid()
      modifies this`readyList, this`executeCount, this`pNow, this`remainQuantum, tasks
      ensures Valid() && State() == Schedule(old(State()))
      ensures remainQuantum == if OthersReady(old(State())) then QUANTUM else old(remainQuantum)
    {
      ScheduleInternal();
    }

    /**
      `ckTaskScheduleOnTimerInt`: the 32-bit time slice counts down, and at 0 another task runs on a slice
      of its own.  With no other task ready the slice stays 0, and wraps at the next interrupt.
     */
    method OnTimerInt()
      requires Valid() && remainQuantum < 0x1_0000_0000
      modifies this`readyList, this`executeCount, this`pNow, this`remainQuantum, tasks
      ensures Valid()
      ensures State() == if old(remainQuantum) == 1 then Schedule(old(State())) else old(State())
      ensures remainQuantum == if old(remainQuantum) == 0 then 0xffff_ffff
                               else if old(remainQuantum) == 1 && OthersReady(old(State())) then QUANTUM
                               else old(remainQuantum) - 1
    {
      hide Members, Joins, Placed, Choose, Identified, Resident, OthersReady;
      remainQuantum := if remainQuantum == 0 then 0xffff_ffff else remainQuantum - 1;
      if remainQuantum == 0 {
        ScheduleInternal();
      }
    }

    /**
      Timer interrupts while another task is ready: the running task goes on until its slice is used up and
      is preempted then, so within 20 interrupts exactly if its slice is from 1 to 20.
     */
    method TimerInts(n: nat)
      requires Valid() && remainQuantum < 0x1_0000_0000 && OthersReady(State()) && n <= TicksLeft(remainQuantum)
      modifies this`readyList, this`executeCount, this`pNow, this`remainQuantum, tasks
      ensures Valid()
      ensures n < TicksLeft(old(remainQuantum)) ==>
        State() == old(State()) && TicksLeft(remainQuantum) == TicksLeft(old(remainQuantum)) - n
      ensures n == TicksLeft(old(remainQuantum)) ==>
        State() == Schedule(old(State())) && pNow != old(pNow) && remainQuantum == QUANTUM
    {
      ghost var s := State();
      ScheduleSwitches(s);
      hide Inv, Schedule, OthersReady;
      var k := 0;
      while k < n
        invariant k <= n && remainQuantum < 0x1_0000_0000 && Valid()
        invariant k < TicksLeft(old(remainQuantum)) ==>
          State() == s && TicksLeft(remainQuantum) == TicksLeft(old(remainQuantum)) - k
        invariant k == TicksLeft(old(remainQuantum)) ==> State() == Schedule(s) && remainQuantum == QUANTUM
      {
        OnTimerInt();
        k := k + 1;
      }
    }

    /**
      With nothing else ready the slice of the idle task runs past 0: one interrupt on it stands at the
      largest 32-bit number, and only when the idle task itself gives up the processor does a task that becomes ready then run earlier.
     */
    method SliceWraps()
      requires Valid() && remainQuantum == 1 && !OthersReady(State())
      modifies this`readyList, this`executeCount, this`pNow, this`remainQuantum, tasks
      ensures Valid() && pNow == IDLE && TicksLeft(remainQuantum) == 0xffff_ffff
    {
      NothingReadyIsIdle(State());
      hide Inv, Schedule, OthersReady;
      OnTimerInt();
      OnTimerInt();
    }

    // ----- Finding tasks -----

    /** `csGetTaskFromId`: the task with this identifier, unless it has ended. */
    method FromId(id: nat) returns (t: Option<nat>)
      requires Valid() && taskIdMask <= INVALID_ID
      ensures t.Some? ==> Joinable(State(), t.value) && tasks[t.value].id == id
      ensures t.None? ==> forall x: nat :: Joinable(State(), x) ==> tasks[x].id != id
    {
      hide Members, Joins, Placed;
      if id == INVALID_ID {
        return None;
      }
      var i := id % MAX_TASK;
      if tasks[i].selector != 0 && tasks[i].id == id && tasks[i].flag != WAITFOREXIT {
        t := Some(i);
      } else {
        t := None;
      }
    }

    // ----- Creating -----

    /**
      `ckTaskCreate_unsafe`: returns the slot it used.  When no slot is free the program leaves its
      loop with the last slot and returns that one, whose task is an old one; nothing changes then.
     */
    method CreateTask(priority: nat) returns (slot: nat)
      requires Valid() && priority < LEVELS
      modifies this`readyList, this`taskIdMask, tasks
      ensures Valid()
      ensures var free := FreeSlot(old(State()), 2);
              if free < MAX_TASK then slot == free && State() == Create(old(State()), free, priority)
              else slot == MAX_TASK - 1 && State() == old(State())
    {
      hide Inv;
      ghost var s := State();
      CreateShape(s);
      slot := 2;
      while slot < MAX_TASK && tasks[slot].selector != 0
        invariant 2 <= slot <= MAX_TASK && FreeSlot(s, slot) == FreeSlot(s, 2)
      {
        slot := slot + 1;
      }
      if slot == MAX_TASK {
        return slot - 1;
      }
      CreateInv(s, slot, priority);
      hide TaskSystem.Shape, Create;
      Install(slot, priority);
    }

    /**
      `ckTaskCreate` for a valid process: the identifier of what `ckTaskCreate_unsafe` returns.  It is a
      new one exactly when a slot is free; otherwise it is that of an old task, and never the invalid
      identifier that is promised.
     */
    method CreateForId(priority: nat) returns (id: nat)
      requires Valid() && priority < LEVELS && taskIdMask <= INVALID_ID
      modifies this`readyList, this`taskIdMask, tasks
      ensures Valid()
      ensures (forall t: nat :: Live(old(State()), t) ==> old(tasks[..])[t].id != id) <==> FreeSlot(old(State()), 2) < MAX_TASK
      ensures exists t: nat :: Live(State(), t) && tasks[..][t].id == id
      ensures id != INVALID_ID
    {
      ghost var s := State();
      Identifiers(s, priority);
      hide Inv, Create, FreeSlot;
      var slot := CreateTask(priority);
      id := tasks[slot].id;
      assert Live(State(), slot) && tasks[..][slot].id == id;
    }

    /** The new task takes its slot, its identifier and its place in the ready list. */
    method Install(slot: nat, priority: nat)
      requires WellFormed() && slot < MAX_TASK && priority < LEVELS && tasks[slot].selector == 0
      modifies this`readyList, this`taskIdMask, tasks
      ensures State() == Create(old(State()), slot, priority)
    {
      tasks[slot] := Task(FIRST_SELECTOR + slot, READY, priority, None, [], taskIdMask + slot);
      taskIdMask := taskIdMask + ID_UNIT;
      readyList := readyList[priority := readyList[priority] + [slot]];
    }

    // ----- Waiting and waking -----

    /** `ckTaskResume_byptr` */
    method ResumeByPtr(t: nat) returns (ok: bool)
      requires WellFormed() && Live(State(), t)
      modifies this`readyList, this`waitList, tasks
      ensures ok <==> old(tasks[t].flag) == WAIT
      ensures State() == Resume(old(State()), t)
    {
      ok := tasks[t].flag == WAIT;
      if ok {
        waitList := Erase(waitList, t);
        tasks[t] := tasks[t].(flag := READY);
        var p := tasks[t].priority;
        readyList := readyList[p := readyList[p] + [t]];
      }
    }

    ghost predicate WellFormed()
      reads this, tasks
    {
      TaskSystem.Shape(State())
    }

    /** `ckTaskResume` on a task that is suspended by itself; one that waits for another task must not be resumed. */
    method ResumeTask(t: nat) returns (ok: bool)
      requires Valid() && Joinable(State(), t) && tasks[t].waitObj == None
      modifies this`readyList, this`waitList, tasks
      ensures Valid() && State() == Resume(old(State()), t)
      ensures ok <==> old(tasks[t].flag) == WAIT
    {
      ResumeInvIff(State(), t);
      hide Placed, Joins, Resident, Identified, OneRunning;
      ok := ResumeByPtr(t);
    }

    /** `ckTaskSuspend_byptr` on the current task. */
    method SuspendCurrent()
      requires Valid() && pNow != IDLE
      modifies this`readyList, this`waitList, this`executeCount, this`pNow, this`remainQuantum, tasks
      ensures Valid() && State() == SuspendNow(old(State())) && remainQuantum == QUANTUM
    {
      ghost var s := State();
      NowStopsRunning(s);
      hide Switching, Members, Joins, Placed, OthersReady;
      waitList := waitList + [pNow];
      tasks[pNow] := tasks[pNow].(flag := WAIT);
      assert State() == Relocate(s, s.now, s.tasks[s.now].(flag := WAIT));
      LeaveProcessor();
    }

    /** `ckTaskJoin`: waits for the task with this identifier; one that has ended is not waited for. */
    method JoinTask(id: nat)
      requires Valid() && pNow != IDLE && taskIdMask <= INVALID_ID
      modifies this`readyList, this`waitList, this`executeCount, this`pNow, this`remainQuantum, tasks
      ensures Valid()
      ensures forall x: nat :: Joinable(old(State()), x) && old(tasks[..])[x].id == id ==>
        State() == Join(old(State()), x) && remainQuantum == QUANTUM
      ensures (forall x: nat :: Joinable(old(State()), x) ==> old(tasks[..])[x].id != id) ==>
        State() == old(State()) && remainQuantum == old(remainQuantum)
    {
      ghost var s := State();
      var t := FromId(id);
      if t.None? {
        return;
      }
      var x := t.value;
      OnlyOneId(s, x, id);
      JoinSwitching(s, x);
      hide Inv, Switching, Choose, OthersReady;
      tasks[pNow] := tasks[pNow].(waitObj := Some(x));
      tasks[x] := tasks[x].(waitMe := tasks[x].waitMe + [pNow]);
      waitList := waitList + [pNow];
      tasks[pNow] := tasks[pNow].(flag := WAIT);
      assert State() == Blocked(s, x);
      LeaveProcessor();
    }

    // ----- Priorities -----

    /** `ckTaskChangePriority`; a waiting task must not get another priority. */
    method ChangeTaskPriority(t: nat, p: nat)
      requires Valid() && Joinable(State(), t) && p < LEVELS
      modifies this`readyList, this`waitList, tasks
      ensures State() == ChangePriority(old(State()), t, p)
      ensures Valid() <==> old(tasks[t].flag) != WAIT || old(tasks[t].priority) == p
    {
      ChangePriorityInvIff(State(), t, p);
      hide Inv, Erase;
      if t == pNow {
        tasks[t] := tasks[t].(priority := p);
      } else if tasks[t].priority != p {
        // the node leaves the list it is linked in, which for a waiting task is not the ready list
        var q := tasks[t].priority;
        if tasks[t].flag == WAIT {
          waitList := Erase(waitList, t);
        } else {
          readyList := readyList[q := Erase(readyList[q], t)];
        }
        readyList := readyList[p := readyList[p] + [t]];
        tasks[t] := tasks[t].(priority := p);
      }
    }

    // ----- Ending -----

    /** One waiter no longer waits for anything and is resumed. */
    method WakeTask(w: nat)
      requires WellFormed() && Live(State(), w)
      modifies this`readyList, this`waitList, tasks
      ensures State() == WakeOne(old(State()), w)
    {
      hide Resume, Erase;
      ghost var s := State();
      tasks[w] := tasks[w].(waitObj := None);
      assert State() == s.(tasks := s.tasks[w := s.tasks[w].(waitObj := None)]);
      var ok := ResumeByPtr(w);
    }

    /** The loop over the waiter list of an ending task. */
    method WakeWaiters(x: nat)
      requires Valid() && Joinable(State(), x)
      modifies this`readyList, this`waitList, tasks
      ensures EndingLiveHolds(old(State()), x)
      ensures State() == WakeAll(old(State()), old(tasks[x].waitMe))
    {
      ghost var s := State();
      EndingLive(s, x);
      hide Inv, Resume, Erase;
      var waiters := tasks[x].waitMe;
      var k := 0;
      while k < |waiters|
        invariant 0 <= k <= |waiters|
        invariant TaskSystem.Shape(State()) && forall t :: t in waiters[k..] ==> Live(State(), t)
        invariant WakeAll(State(), waiters[k..]) == WakeAll(s, waiters)
      {
        var w := waiters[k];
        assert waiters[k..][0] == w && waiters[k..][1..] == waiters[k + 1..];
        assert w in waiters[k..];
        WakeTask(w);
        k := k + 1;
      }
    }

    /**
      `ckTaskTerminate_internal`.  The asserts of the program hold unless the target has suspended
      itself, which the caller must rule out.
     */
    method TerminateTask(x: nat)
      requires Valid() && Joinable(State(), x) && x != KERNEL && x != IDLE
      requires !SelfSuspended(tasks[x])
      modifies this`readyList, this`waitList, this`waitForExitList, this`executeCount, this`pNow, this`remainQuantum, tasks
      ensures Valid() && State() == Terminate(old(State()), x)
      ensures remainQuantum == if x == old(pNow) then QUANTUM else old(remainQuantum)
    {
      ghost var s := State();
      TerminateInv(s, x);
      TerminateParts(s, x);
      hide Inv, Terminate, Schedule, WakeAll, Erase, Switching, OthersReady;
      WakeWaiters(x);
      if x == pNow {
        EndCurrent();
      } else {
        EndOther(x);
      }
    }

    /** The running task goes to the exit list, and another one runs. */
    method EndCurrent()
      requires WellFormed() && pNow != IDLE && Live(State(), pNow)
      requires tasks[pNow].waitObj == None && tasks[pNow].flag == RUNNING
      requires Switching(Relocate(State(), pNow, tasks[pNow].(flag := WAITFOREXIT)))
      modifies this`readyList, this`waitForExitList, this`executeCount, this`pNow, this`remainQuantum, tasks
      ensures Valid() && remainQuantum == QUANTUM
      ensures State() == Schedule(Relocate(old(State()), old(pNow), old(tasks[pNow]).(flag := WAITFOREXIT)))
    {
      ghost var s := State();
      var x := pNow;
      hide Inv, Schedule, Switching, Erase, OthersReady;
      tasks[x] := tasks[x].(flag := WAITFOREXIT);
      waitForExitList := waitForExitList + [x];
      assert State() == Relocate(s, x, s.tasks[x].(flag := WAITFOREXIT));
      LeaveProcessor();
    }

    /** Takes a task that is not running out of all lists and frees its slot. */
    method EndOther(x: nat)
      requires WellFormed() && Live(State(), x) && EndsFrom(State(), x)
      modifies this`readyList, this`waitList, tasks
      ensures State() == Freed(old(State()), x)
    {
      ghost var s := State();
      hide Erase;
      match tasks[x].waitObj {
        case Some(y) =>
          tasks[y] := tasks[y].(waitMe := Erase(tasks[y].waitMe, x));
          tasks[x] := tasks[x].(waitObj := None);
          assert tasks[x].flag == WAIT;
          waitList := Erase(waitList, x);
        case None =>
          assert tasks[x].flag == READY;
          var p := tasks[x].priority;
          readyList := readyList[p := Erase(readyList[p], x)];
      }
      tasks[x] := tasks[x].(selector := 0);
    }

    /** The idle task's loop: the slots of exited tasks become free. */
    method ReapExited()
      requires Valid()
      modifies this`waitForExitList, tasks
      ensures Valid() && State() == Reap(old(State())) && waitForExitList == []
    {
      ghost var s := State();
      ReapInv(s);
      while waitForExitList != []
        invariant Valid() && Reap(State()) == Reap(s)
        decreases |waitForExitList|
      {
        ReapFront(State());
        hide Inv, Reap, Erase;
        var x := waitForExitList[0];
        waitForExitList := waitForExitList[1..];
        tasks[x] := tasks[x].(selector := 0);
      }
    }
  }
}
