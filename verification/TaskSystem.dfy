/**
  The task table with its lists, as a value: which list every task is in, who waits for whom, and what
  each kernel call does to that.  `Inv` is what every call keeps.
 */
module TaskSystem {
  import opened Basics
  import opened Scheduler

  const MAX_TASK: nat := 2048
  const LEVELS: nat := 9              // COUNT_TASK_PRIORITY
  const KERNEL: nat := 0
  const IDLE: nat := 1
  const ID_UNIT: nat := 4096          // TASK_IDMASK_UNIT

  datatype Flag = RUNNING | READY | WAIT | WAITFOREXIT

  /** `selector` 0 marks a free slot; `waitMe` lists the tasks that wait for this one to end. */
  datatype Task = Task(selector: nat, flag: Flag, priority: nat, waitObj: Option<nat>, waitMe: seq<nat>, id: nat)

  datatype System = System(tasks: seq<Task>, ready: seq<seq<nat>>, wait: seq<nat>, exit: seq<nat>,
                           exec: seq<nat>, now: nat, mask: nat)

  // ----- Lists without repetition -----

  /** Taking an element out of a list. */
  function Erase(s: seq<nat>, t: nat): seq<nat> {
    if s == [] then [] else if s[0] == t then s[1..] else [s[0]] + Erase(s[1..], t)
  }

  lemma {:induction false} EraseSpec(s: seq<nat>, t: nat)
    requires Distinct(s)
    ensures Distinct(Erase(s, t))
    ensures forall x :: x in Erase(s, t) <==> x in s && x != t
  {
    if s != [] {
      if s[0] == t {
        forall x ensures x in s <==> x == s[0] || x in s[1..] { }
      } else {
        EraseSpec(s[1..], t);
        var e := Erase(s[1..], t);
        assert s[0] !in s[1..];
        forall x ensures x in [s[0]] + e <==> x == s[0] || x in e { }
        forall x ensures x in s <==> x == s[0] || x in s[1..] { }
      }
    }
  }

  lemma AppendSpec(s: seq<nat>, t: nat)
    requires Distinct(s) && t !in s
    ensures Distinct(s + [t])
    ensures forall x :: x in s + [t] <==> x in s || x == t
  {
  }

  // ----- Where a task is listed -----

  datatype Place = Nowhere | Ready(level: nat) | Waiting | Exiting

  /** The list a task belongs in, by its fields. */
  function PlaceOf(t: Task): Place {
    if t.selector == 0 then Nowhere
    else match t.flag
      case RUNNING => Nowhere
      case READY => Ready(t.priority)
      case WAIT => Waiting
      case WAITFOREXIT => Exiting
  }

  ghost predicate Shape(s: System) {
    && |s.tasks| == MAX_TASK && |s.ready| == |s.exec| == LEVELS && s.now < MAX_TASK
    && forall t :: 0 <= t < MAX_TASK && s.tasks[t].selector != 0 ==> s.tasks[t].priority < LEVELS
  }

  ghost predicate Members(list: seq<nat>, tasks: seq<Task>, place: Place) {
    && Distinct(list)
    && forall t :: t in list <==> 0 <= t < |tasks| && PlaceOf(tasks[t]) == place
  }

  /** Every list holds exactly the tasks whose fields put them there, once each. */
  ghost predicate Placed(s: System) {
    && (forall i: nat :: i < |s.ready| ==> Members(s.ready[i], s.tasks, Ready(i)))
    && Members(s.wait, s.tasks, Waiting)
    && Members(s.exit, s.tasks, Exiting)
  }

  /** Takes task t out of the list it is in. */
  ghost function Unlisted(s: System, t: nat): System
    requires Shape(s) && t < MAX_TASK
  {
    match PlaceOf(s.tasks[t])
    case Nowhere => s
    case Ready(i) => s.(ready := s.ready[i := Erase(s.ready[i], t)])
    case Waiting => s.(wait := Erase(s.wait, t))
    case Exiting => s.(exit := Erase(s.exit, t))
  }

  /** Puts task t at the back of the list its new fields call for. */
  ghost function Listed(s: System, t: nat, task: Task): System
    requires Shape(s) && t < MAX_TASK && (task.selector != 0 ==> task.priority < LEVELS)
  {
    var s1 := s.(tasks := s.tasks[t := task]);
    match PlaceOf(task)
    case Nowhere => s1
    case Ready(i) => s1.(ready := s.ready[i := s.ready[i] + [t]])
    case Waiting => s1.(wait := s.wait + [t])
    case Exiting => s1.(exit := s.exit + [t])
  }

  ghost function Relocate(s: System, t: nat, task: Task): (s': System)
    requires Shape(s) && t < MAX_TASK && (task.selector != 0 ==> task.priority < LEVELS)
    ensures Shape(s') && s'.tasks == s.tasks[t := task] && s'.now == s.now && s'.mask == s.mask && s'.exec == s.exec
  {
    Listed(Unlisted(s, t), t, task)
  }

  lemma MembersErase(list: seq<nat>, tasks: seq<Task>, place: Place, t: nat, task: Task)
    requires Members(list, tasks, place) && t < |tasks| && PlaceOf(task) != place
    ensures Members(Erase(list, t), tasks[t := task], place)
  {
    EraseSpec(list, t);
  }

  lemma MembersAppend(list: seq<nat>, tasks: seq<Task>, place: Place, t: nat, task: Task)
    requires Members(list, tasks, place) && t < |tasks| && PlaceOf(task) == place
    ensures PlaceOf(tasks[t]) != place ==> Members(list + [t], tasks[t := task], place)
    ensures PlaceOf(tasks[t]) == place ==> Members(Erase(list, t) + [t], tasks[t := task], place)
  {
    EraseSpec(list, t);
    if PlaceOf(tasks[t]) != place {
      AppendSpec(list, t);
    } else {
      AppendSpec(Erase(list, t), t);
    }
  }

  lemma MembersKept(list: seq<nat>, tasks: seq<Task>, place: Place, t: nat, task: Task)
    requires Members(list, tasks, place) && t < |tasks|
    requires PlaceOf(tasks[t]) == place <==> PlaceOf(task) == place
    ensures Members(list, tasks[t := task], place)
  {
  }

  /** One list under a relocation. */
  function MovedList(list: seq<nat>, was: Place, goal: Place, place: Place, t: nat): seq<nat> {
    var l := if was == place then Erase(list, t) else list;
    if goal == place then l + [t] else l
  }

  lemma MembersMoved(list: seq<nat>, tasks: seq<Task>, place: Place, t: nat, task: Task)
    requires Members(list, tasks, place) && t < |tasks|
    ensures Members(MovedList(list, PlaceOf(tasks[t]), PlaceOf(task), place, t), tasks[t := task], place)
  {
    if PlaceOf(task) == place {
      MembersAppend(list, tasks, place, t, task);
    } else if PlaceOf(tasks[t]) == place {
      MembersErase(list, tasks, place, t, task);
    } else {
      MembersKept(list, tasks, place, t, task);
    }
  }

  /** Moving a task to the list of its new fields keeps every list exact. */
  lemma RelocatePlaced(s: System, t: nat, task: Task)
    requires Shape(s) && Placed(s) && t < MAX_TASK && (task.selector != 0 ==> task.priority < LEVELS)
    ensures Shape(Relocate(s, t, task)) && Placed(Relocate(s, t, task))
  {
    hide Members, Erase;
    var s' := Relocate(s, t, task);
    var was, goal := PlaceOf(s.tasks[t]), PlaceOf(task);
    forall i: nat | i < |s.ready|
      ensures Members(s'.ready[i], s'.tasks, Ready(i))
    {
      assert s'.ready[i] == MovedList(s.ready[i], was, goal, Ready(i), t);
      MembersMoved(s.ready[i], s.tasks, Ready(i), t, task);
    }
    assert s'.wait == MovedList(s.wait, was, goal, Waiting, t);
    assert s'.exit == MovedList(s.exit, was, goal, Exiting, t);
    MembersMoved(s.wait, s.tasks, Waiting, t, task);
    MembersMoved(s.exit, s.tasks, Exiting, t, task);
  }

  // ----- Who waits for whom -----

  predicate Live(s: System, t: nat) {
    t < |s.tasks| && s.tasks[t].selector != 0
  }

  /** A task others can still wait for. */
  predicate Joinable(s: System, x: nat) {
    Live(s, x) && s.tasks[x].flag != WAITFOREXIT
  }

  /** Task t waits for x, and x knows it. */
  ghost predicate WaitsFor(s: System, t: nat, x: nat) {
    Live(s, t) && s.tasks[t].waitObj == Some(x)
  }

  /** The waiter lists of live targets other than `dying` hold exactly their waiters. */
  ghost predicate Waiters(s: System, x: nat)
    requires x < |s.tasks|
  {
    Distinct(s.tasks[x].waitMe) && forall t :: t in s.tasks[x].waitMe ==> WaitsFor(s, t, x)
  }

  ghost predicate WaitOk(s: System, t: nat, x: nat) {
    t < |s.tasks| && s.tasks[t].flag == WAIT && Joinable(s, x) && t in s.tasks[x].waitMe
  }

  ghost predicate Joins(s: System) {
    && (forall t: nat, x: nat :: WaitsFor(s, t, x) ==> WaitOk(s, t, x))
    && (forall x: nat :: Joinable(s, x) ==> Waiters(s, x))
  }

  // ----- The invariant -----

  ghost predicate Identified(s: System) {
    && s.mask % ID_UNIT == 0 && s.mask >= ID_UNIT
    && forall t: nat :: Live(s, t) ==> s.tasks[t].id % MAX_TASK == t && s.tasks[t].id < s.mask
  }

  ghost predicate Resident(s: System) {
    && Joinable(s, KERNEL) && Joinable(s, IDLE)
    && s.tasks[IDLE].flag != WAIT
  }

  ghost predicate OneRunning(s: System) {
    forall t: nat :: Live(s, t) && s.tasks[t].flag == RUNNING ==> t == s.now
  }

  /** Everything but that the current task is running: what holds while a call is switching tasks. */
  ghost predicate Switching(s: System) {
    Shape(s) && Placed(s) && Joins(s) && Identified(s) && Resident(s) && OneRunning(s)
  }

  ghost predicate Inv(s: System) {
    Switching(s) && Live(s, s.now) && s.tasks[s.now].flag == RUNNING
  }

  // ----- Scheduling -----

  lemma ReadyIsLive(s: System, i: nat, t: nat)
    requires Shape(s) && Placed(s) && i < LEVELS && t in s.ready[i]
    ensures Live(s, t) && s.tasks[t].flag == READY && s.tasks[t].priority == i
  {
    assert Members(s.ready[i], s.tasks, Ready(i));
  }

  /** `ckTaskSchedule_internal` */
  ghost function Schedule(s: System): System
    requires Shape(s) && Placed(s) && Live(s, s.now)
  {
    ChooseTakes(Sizes(s.ready), s.exec);
    var (e, c) := Choose(Sizes(s.ready), s.exec);
    if c.None? then s.(exec := e)
    else
      ReadyIsLive(s, c.value, s.ready[c.value][0]);
      SwitchTo(s.(exec := e), s.ready[c.value][0])
  }

  /** Task `next` runs; the old one goes to the back of its queue if it was still running. */
  ghost function SwitchTo(s: System, next: nat): System
    requires Shape(s) && Live(s, next) && Live(s, s.now)
  {
    var s1 := Relocate(s, next, s.tasks[next].(flag := RUNNING));
    var prev := s1.tasks[s.now];
    var s2 := if prev.flag == RUNNING then Relocate(s1, s.now, prev.(flag := READY)) else s1;
    s2.(now := next)
  }

  /** Changing the flag of a task that nobody stops waiting for keeps the waiting relation. */
  lemma FlagKeepsJoins(s: System, s': System, t: nat, flag: Flag)
    requires Shape(s) && Shape(s') && Joins(s) && Live(s, t)
    requires s'.tasks == s.tasks[t := s.tasks[t].(flag := flag)]
    requires s.tasks[t].waitObj != None ==> flag == WAIT
    requires flag != WAITFOREXIT && s.tasks[t].flag != WAITFOREXIT
    ensures Joins(s')
  {
    forall u: nat, x: nat | WaitsFor(s', u, x)
      ensures WaitOk(s', u, x)
    {
      assert WaitsFor(s, u, x);
      assert WaitOk(s, u, x);
    }
    forall x: nat | Joinable(s', x)
      ensures Waiters(s', x)
    {
      assert Joinable(s, x) && Waiters(s, x);
      forall u | u in s'.tasks[x].waitMe ensures WaitsFor(s', u, x) { assert WaitsFor(s, u, x); }
    }
  }

  /** A live, unfinished task changes its flag and moves to the list that goes with it. */
  lemma FlagStep(s: System, t: nat, flag: Flag)
    requires Shape(s) && Placed(s) && Joins(s) && Identified(s) && Resident(s)
    requires Live(s, t) && s.tasks[t].flag != WAITFOREXIT && flag != WAITFOREXIT
    requires s.tasks[t].waitObj != None ==> flag == WAIT
    requires t == IDLE ==> flag != WAIT
    ensures var s' := Relocate(s, t, s.tasks[t].(flag := flag));
            Placed(s') && Joins(s') && Identified(s') && Resident(s')
  {
    hide Members, Waiters, WaitOk, Joins;
    RelocatePlaced(s, t, s.tasks[t].(flag := flag));
    FlagKeepsJoins(s, Relocate(s, t, s.tasks[t].(flag := flag)), t, flag);
  }

  lemma NotWaiting(s: System, t: nat)
    requires Shape(s) && Joins(s) && Live(s, t) && s.tasks[t].flag != WAIT
    ensures s.tasks[t].waitObj == None
  {
    if s.tasks[t].waitObj.Some? {
      assert WaitsFor(s, t, s.tasks[t].waitObj.value);
    }
  }

  /** Scheduling keeps everything, and leaves exactly one task running. */
  lemma ScheduleInv(s: System)
    requires Switching(s) && Live(s, s.now)
    requires s.tasks[s.now].flag == RUNNING || (s.now != IDLE && s.tasks[s.now].flag != READY)
    ensures Inv(Schedule(s))
  {
    hide Members, Joins, Choose;
    ChooseTakes(Sizes(s.ready), s.exec);
    var (e, c) := Choose(Sizes(s.ready), s.exec);
    SameLists(s, s.(exec := e));
    if c.Some? {
      var next := s.ready[c.value][0];
      ReadyIsLive(s, c.value, next);
      SwitchInv(s.(exec := e), next);
    } else if s.tasks[s.now].flag != RUNNING {
      SomeoneReady(s);
    }
  }

  lemma SameLists(s: System, s': System)
    requires Switching(s) && |s'.exec| == LEVELS && s' == s.(exec := s'.exec)
    ensures Switching(s')
  {
    assert forall t: nat :: Live(s', t) <==> Live(s, t);
    assert forall x: nat :: Joinable(s', x) <==> Joinable(s, x);
    assert forall t: nat, x: nat :: WaitsFor(s', t, x) <==> WaitsFor(s, t, x);
    forall t: nat, x: nat | WaitsFor(s', t, x) ensures WaitOk(s', t, x) { assert WaitOk(s, t, x); }
    forall x: nat | Joinable(s', x) ensures Waiters(s', x) { assert Waiters(s, x); }
  }

  /** When the current task is no longer running, the idle task is ready. */
  lemma SomeoneReady(s: System)
    requires Switching(s) && Live(s, s.now)
    requires s.tasks[s.now].flag != RUNNING && s.now != IDLE
    ensures exists i :: 0 <= i < LEVELS && Sizes(s.ready)[i] != 0
  {
    assert PlaceOf(s.tasks[IDLE]) == Ready(s.tasks[IDLE].priority);
    assert Members(s.ready[s.tasks[IDLE].priority], s.tasks, Ready(s.tasks[IDLE].priority));
    assert IDLE in s.ready[s.tasks[IDLE].priority];
    assert Sizes(s.ready)[s.tasks[IDLE].priority] != 0;
  }

  lemma SwitchInv(s: System, next: nat)
    requires Shape(s) && Placed(s) && Joins(s) && Identified(s) && Resident(s) && OneRunning(s)
    requires Live(s, next) && Live(s, s.now) && s.tasks[next].flag == READY && s.tasks[s.now].flag != READY
    ensures Inv(SwitchTo(s, next))
  {
    hide Members, Joins, Placed, Identified, Resident;
    NotWaiting(s, next);
    FlagStep(s, next, RUNNING);
    var s1 := Relocate(s, next, s.tasks[next].(flag := RUNNING));
    if s1.tasks[s.now].flag == RUNNING {
      NotWaiting(s1, s.now);
      FlagStep(s1, s.now, READY);
    }
    var s2 := if s1.tasks[s.now].flag == RUNNING then Relocate(s1, s.now, s1.tasks[s.now].(flag := READY)) else s1;
    NowMoved(s2, next);
  }

  lemma NowMoved(s: System, next: nat)
    requires Shape(s) && Placed(s) && Joins(s) && Identified(s) && Resident(s)
    requires Live(s, next) && s.tasks[next].flag == RUNNING
    requires forall t: nat :: Live(s, t) && s.tasks[t].flag == RUNNING ==> t == next
    ensures Inv(s.(now := next))
  {
    var s' := s.(now := next);
    assert forall t: nat :: Live(s', t) <==> Live(s, t);
    assert forall x: nat :: Joinable(s', x) <==> Joinable(s, x);
    assert forall t: nat, x: nat :: WaitsFor(s', t, x) <==> WaitsFor(s, t, x);
    forall t: nat, x: nat | WaitsFor(s', t, x) ensures WaitOk(s', t, x) { assert WaitOk(s, t, x); }
    forall x: nat | Joinable(s', x) ensures Waiters(s', x) { assert Waiters(s, x); }
  }

  // ----- Resuming -----

  /** `ckTaskResume_byptr` */
  ghost function Resume(s: System, t: nat): System
    requires Shape(s) && Live(s, t)
  {
    if s.tasks[t].flag == WAIT then Relocate(s, t, s.tasks[t].(flag := READY)) else s
  }

  /** The body of the wake-up loop of a termination: the waiter waits for nobody and becomes ready. */
  ghost function WakeOne(s: System, w: nat): (s': System)
    requires Shape(s) && Live(s, w)
    ensures Shape(s') && s'.now == s.now && s'.mask == s.mask && s'.exec == s.exec
    ensures forall t: nat :: Live(s', t) <==> Live(s, t)
  {
    Resume(s.(tasks := s.tasks[w := s.tasks[w].(waitObj := None)]), w)
  }

  // ----- Terminating -----

  /** Task x is ending: the waiters in `todo` still wait for it, nobody else does. */
  ghost predicate Ending(s: System, x: nat, todo: seq<nat>) {
    && (forall t: nat, y: nat :: WaitsFor(s, t, y) && y != x ==> WaitOk(s, t, y))
    && (forall t: nat :: WaitsFor(s, t, x) ==> t in todo && t < |s.tasks| && s.tasks[t].flag == WAIT)
    && (forall y: nat :: Joinable(s, y) && y != x ==> Waiters(s, y))
    && Distinct(todo) && (forall t :: t in todo ==> WaitsFor(s, t, x))
  }

  lemma EndingStarts(s: System, x: nat)
    requires Joins(s) && Joinable(s, x)
    ensures Ending(s, x, s.tasks[x].waitMe)
  {
    assert Waiters(s, x);
    forall t: nat | WaitsFor(s, t, x) ensures t in s.tasks[x].waitMe && s.tasks[t].flag == WAIT { assert WaitOk(s, t, x); }
  }

  lemma WakeEnding(s: System, x: nat, todo: seq<nat>)
    requires Shape(s) && Ending(s, x, todo) && todo != [] && Live(s, todo[0])
    ensures Ending(WakeOne(s, todo[0]), x, todo[1..])
  {
    var w, s' := todo[0], WakeOne(s, todo[0]);
    assert WaitsFor(s, w, x);
    assert s'.tasks == s.tasks[w := s.tasks[w].(waitObj := None, flag := READY)];
    forall t: nat, y: nat | WaitsFor(s', t, y)
      ensures WaitsFor(s, t, y) && t != w
    {
    }
    forall t: nat, y: nat | WaitsFor(s', t, y) && y != x
      ensures WaitOk(s', t, y)
    {
      assert WaitOk(s, t, y);
    }
    forall y: nat | Joinable(s', y) && y != x
      ensures Waiters(s', y)
    {
      assert Joinable(s, y) && Waiters(s, y);
      forall t | t in s'.tasks[y].waitMe ensures WaitsFor(s', t, y) { assert WaitsFor(s, t, y); }
    }
    forall t | t in todo[1..] ensures WaitsFor(s', t, x) { assert WaitsFor(s, t, x); }
    forall t: nat | WaitsFor(s', t, x) ensures t in todo[1..] { assert t in todo; }
  }

  /** The wake-up loop of a termination. */
  ghost function WakeAll(s: System, todo: seq<nat>): System
    requires Shape(s) && forall t :: t in todo ==> Live(s, t)
    decreases |todo|
  {
    if todo == [] then s else WakeAll(WakeOne(s, todo[0]), todo[1..])
  }

  lemma WakeIsRelocate(s: System, w: nat)
    requires Shape(s) && Live(s, w) && s.tasks[w].flag == WAIT
    ensures WakeOne(s, w) == Relocate(s, w, s.tasks[w].(waitObj := None, flag := READY))
  {
    assert s.tasks[w := s.tasks[w].(waitObj := None)][w := s.tasks[w].(waitObj := None, flag := READY)]
        == s.tasks[w := s.tasks[w].(waitObj := None, flag := READY)];
  }

  /** Everything but the waiting relation. */
  ghost predicate Sound(s: System) {
    Shape(s) && Placed(s) && Identified(s) && Resident(s) && OneRunning(s)
  }

  lemma WakeOneSound(s: System, w: nat)
    requires Sound(s) && Live(s, w) && s.tasks[w].flag == WAIT
    ensures Sound(WakeOne(s, w))
    ensures WakeOne(s, w).tasks == s.tasks[w := s.tasks[w].(waitObj := None, flag := READY)]
  {
    hide Members;
    WakeIsRelocate(s, w);
    RelocatePlaced(s, w, s.tasks[w].(waitObj := None, flag := READY));
  }

  /** The task table after the waiters in `todo` were woken. */
  ghost predicate Woken(s: System, s': System, todo: seq<nat>) {
    && |s'.tasks| == |s.tasks| && s'.now == s.now && s'.mask == s.mask
    && forall t: nat :: t < |s.tasks| ==>
         s'.tasks[t] == if t in todo then s.tasks[t].(waitObj := None, flag := READY) else s.tasks[t]
  }

  lemma {:induction false} WakeAllEnds(s: System, x: nat, todo: seq<nat>)
    requires Sound(s) && Ending(s, x, todo) && forall t :: t in todo ==> Live(s, t)
    ensures var s' := WakeAll(s, todo);
            Sound(s') && Ending(s', x, []) && Woken(s, s', todo)
    decreases |todo|
  {
    if todo != [] {
      var w := todo[0];
      assert WaitsFor(s, w, x);
      WakeOneSound(s, w);
      WakeEnding(s, x, todo);
      TailsApart(s, x, todo);
      hide Sound, Ending, WakeOne, Woken;
      WakeAllEnds(WakeOne(s, w), x, todo[1..]);
      WokenStep(s, WakeOne(s, w), WakeAll(s, todo), todo);
    } else {
      assert Woken(s, s, todo);
    }
  }

  lemma WokenStep(s: System, s1: System, s': System, todo: seq<nat>)
    requires todo != [] && todo[0] < |s.tasks| && todo[0] !in todo[1..]
    requires s1.tasks == s.tasks[todo[0] := s.tasks[todo[0]].(waitObj := None, flag := READY)]
    requires s1.now == s.now && s1.mask == s.mask && Woken(s1, s', todo[1..])
    ensures Woken(s, s', todo)
  {
    forall t: nat | t < |s.tasks|
      ensures s'.tasks[t] == if t in todo then s.tasks[t].(waitObj := None, flag := READY) else s.tasks[t]
    {
      assert t in todo <==> t == todo[0] || t in todo[1..];
    }
  }

  lemma TailsApart(s: System, x: nat, todo: seq<nat>)
    requires Ending(s, x, todo) && todo != []
    ensures forall t :: t in todo[1..] ==> t in todo && t != todo[0]
    ensures todo[0] !in todo[1..]
  {
  }

  /** Takes the ending task out of the waiter list of the task it waits for itself. */
  ghost function StopWaiting(s: System, x: nat): System
    requires x < |s.tasks|
  {
    match s.tasks[x].waitObj
    case None => s
    case Some(y) =>
      if y < |s.tasks| then
        var s1 := s.(tasks := s.tasks[y := s.tasks[y].(waitMe := Erase(s.tasks[y].waitMe, x))]);
        s1.(tasks := s1.tasks[x := s1.tasks[x].(waitObj := None)])
      else s
  }

  lemma PlacesSame(s: System, s': System)
    requires Shape(s) && Placed(s) && |s'.tasks| == |s.tasks|
    requires s'.ready == s.ready && s'.wait == s.wait && s'.exit == s.exit
    requires forall t: nat :: t < |s.tasks| ==> PlaceOf(s'.tasks[t]) == PlaceOf(s.tasks[t])
    ensures Placed(s')
  {
    forall list, place | Members(list, s.tasks, place)
      ensures Members(list, s'.tasks, place)
    {
    }
  }

  lemma StopWaitingEnds(s: System, x: nat)
    requires Sound(s) && Live(s, x) && Ending(s, x, [])
    ensures var s' := StopWaiting(s, x);
            && Sound(s') && Ending(s', x, []) && s'.now == s.now && |s'.tasks| == |s.tasks|
            && s'.tasks[x] == s.tasks[x].(waitObj := None)
            && s'.mask == s.mask
            && forall t: nat :: t < |s.tasks| && t != x ==> s'.tasks[t] == s.tasks[t].(waitMe := s'.tasks[t].waitMe)
  {
    var s' := StopWaiting(s, x);
    if s.tasks[x].waitObj.Some? {
      var y := s.tasks[x].waitObj.value;
      assert WaitsFor(s, x, y) && y != x;
      assert WaitOk(s, x, y) && Waiters(s, y);
      EraseSpec(s.tasks[y].waitMe, x);
      StopWaitingSound(s, x, y);
      StopWaitingJoins(s, x, y);
    } else {
      assert s.tasks[x] == s.tasks[x].(waitObj := None);
    }
  }

  lemma StopWaitingSound(s: System, x: nat, y: nat)
    requires Sound(s) && Live(s, x) && s.tasks[x].waitObj == Some(y) && y < |s.tasks| && y != x
    ensures Sound(StopWaiting(s, x))
  {
    StopWaitingFields(s, x);
    hide Sound, StopWaiting;
    SoundKept(s, StopWaiting(s, x));
  }

  /** Only the two waiting fields of tasks change. */
  lemma StopWaitingFields(s: System, x: nat)
    requires x < |s.tasks|
    ensures var s' := StopWaiting(s, x);
      && s' == s.(tasks := s'.tasks) && |s'.tasks| == |s.tasks|
      && forall t: nat :: t < |s.tasks| ==>
           s'.tasks[t] == s.tasks[t].(waitMe := s'.tasks[t].waitMe, waitObj := s'.tasks[t].waitObj)
  {
    hide Erase;
  }

  lemma SoundKept(s: System, s': System)
    requires Sound(s) && s' == s.(tasks := s'.tasks) && |s'.tasks| == |s.tasks|
    requires forall t: nat :: t < |s.tasks| ==>
      s'.tasks[t] == s.tasks[t].(waitMe := s'.tasks[t].waitMe, waitObj := s'.tasks[t].waitObj)
    ensures Sound(s')
  {
    hide Members;
    PlacesSame(s, s');
  }

  lemma StopWaitingJoins(s: System, x: nat, y: nat)
    requires Sound(s) && Ending(s, x, []) && WaitsFor(s, x, y) && y != x && y < |s.tasks| && Waiters(s, y)
    requires WaitOk(s, x, y)
    ensures Ending(StopWaiting(s, x), x, [])
  {
    hide Sound;
    var s' := StopWaiting(s, x);
    EraseSpec(s.tasks[y].waitMe, x);
    forall t: nat, z: nat | WaitsFor(s', t, z)
      ensures z != x && WaitOk(s', t, z)
    {
      assert WaitsFor(s, t, z) && t != x;
      assert WaitOk(s, t, z);
    }
    forall z: nat | Joinable(s', z) && z != x
      ensures Waiters(s', z)
    {
      assert Joinable(s, z) && Waiters(s, z);
      forall t | t in s'.tasks[z].waitMe
        ensures WaitsFor(s', t, z)
      {
        assert WaitsFor(s, t, z);
      }
    }
  }

  /** Once nobody waits for x and x waits for nobody, x may end. */
  lemma EndedJoins(s: System, s': System, x: nat)
    requires Live(s, x) && Ending(s, x, []) && s.tasks[x].waitObj == None
    requires |s'.tasks| == |s.tasks| && forall t: nat :: t < |s.tasks| && t != x ==> s'.tasks[t] == s.tasks[t]
    requires !Joinable(s', x) && (Live(s', x) ==> s'.tasks[x].waitObj == None)
    ensures Joins(s')
  {
    forall t: nat, z: nat | WaitsFor(s', t, z)
      ensures WaitOk(s', t, z)
    {
      assert t != x && WaitsFor(s, t, z);
      assert z != x;
      assert WaitOk(s, t, z);
    }
    forall z: nat | Joinable(s', z)
      ensures Waiters(s', z)
    {
      assert Joinable(s, z) && Waiters(s, z);
      forall t | t in s'.tasks[z].waitMe
        ensures WaitsFor(s', t, z)
      {
        assert WaitsFor(s, t, z);
      }
    }
  }

  /** A task that stopped itself and waits for nobody. */
  predicate SelfSuspended(t: Task) {
    t.flag == WAIT && t.waitObj == None
  }

  /** `ckTaskTerminate_internal`; the program stops at an assertion for a target that has suspended itself. */
  ghost function Terminate(s: System, x: nat): System
    requires Inv(s) && Joinable(s, x) && !SelfSuspended(s.tasks[x])
  {
    EndingLive(s, x);
    EndingStarts(s, x);
    WakeAllEnds(s, x, s.tasks[x].waitMe);
    var s1 := WakeAll(s, s.tasks[x].waitMe);
    if x == s.now then
      RelocatePlaced(s1, x, s1.tasks[x].(flag := WAITFOREXIT));
      Schedule(Relocate(s1, x, s1.tasks[x].(flag := WAITFOREXIT)))
    else
      StopWaitingEnds(s1, x);
      var s2 := StopWaiting(s1, x);
      Relocate(s2, x, s2.tasks[x].(selector := 0))
  }

  lemma EndingLive(s: System, x: nat)
    requires Joins(s) && Joinable(s, x)
    ensures forall t :: t in s.tasks[x].waitMe ==> Live(s, t)
  {
    assert Waiters(s, x);
    forall t | t in s.tasks[x].waitMe ensures Live(s, t) { assert WaitsFor(s, t, x); }
  }

  lemma SoundRelocate(s: System, x: nat, task: Task)
    requires Sound(s) && Live(s, x) && x != KERNEL && x != IDLE
    requires task.selector != 0 ==> task == s.tasks[x].(flag := WAITFOREXIT)
    ensures Sound(Relocate(s, x, task))
  {
    hide Members;
    RelocatePlaced(s, x, task);
  }

  lemma NowDoesNotWait(s: System, x: nat)
    requires Inv(s) && Joinable(s, x)
    ensures s.tasks[s.now].waitObj == None && s.now !in s.tasks[x].waitMe
  {
    NotWaiting(s, s.now);
    assert Waiters(s, x);
    assert s.now in s.tasks[x].waitMe ==> WaitsFor(s, s.now, x);
  }

  /**
    Ending a task keeps the invariant, for every target for which the call goes through: none of the
    resident tasks, and none that has suspended itself.
   */
  lemma TerminateInv(s: System, x: nat)
    requires Inv(s) && Joinable(s, x) && x != KERNEL && x != IDLE && !SelfSuspended(s.tasks[x])
    ensures Inv(Terminate(s, x))
  {
    hide Members, Ending, Joins, Placed, Identified, Resident, OneRunning;
    EndingLive(s, x);
    EndingStarts(s, x);
    var todo := s.tasks[x].waitMe;
    WakeAllEnds(s, x, todo);
    NowDoesNotWait(s, x);
    var s1 := WakeAll(s, todo);
    if x == s.now {
      var s2 := Relocate(s1, x, s1.tasks[x].(flag := WAITFOREXIT));
      SoundRelocate(s1, x, s1.tasks[x].(flag := WAITFOREXIT));
      EndedJoins(s1, s2, x);
      ScheduleInv(s2);
    } else {
      StopWaitingEnds(s1, x);
      var s2 := StopWaiting(s1, x);
      SoundRelocate(s2, x, s2.tasks[x].(selector := 0));
      EndedJoins(s2, Relocate(s2, x, s2.tasks[x].(selector := 0)), x);
    }
  }

  /** Scheduling only turns a ready task into the running one and back. */
  lemma ScheduleKeeps(s: System, t: nat)
    requires Shape(s) && Placed(s) && Live(s, s.now) && t < MAX_TASK
    ensures var s' := Schedule(s);
            && |s'.tasks| == MAX_TASK && s'.mask == s.mask
            && s'.tasks[t] == s.tasks[t].(flag := s'.tasks[t].flag)
            && (s'.tasks[t].flag == WAIT <==> s.tasks[t].flag == WAIT)
            && (s'.tasks[t].flag == WAITFOREXIT <==> s.tasks[t].flag == WAITFOREXIT)
  {
    hide Members, Choose;
    ChooseTakes(Sizes(s.ready), s.exec);
    var c := Choose(Sizes(s.ready), s.exec).1;
    if c.Some? {
      ReadyIsLive(s, c.value, s.ready[c.value][0]);
    }
  }

  /**
    Ending task x wakes exactly the tasks that waited for it; nobody waits for x afterwards, and x
    can no longer be waited for.
   */
  lemma TerminateWakes(s: System, x: nat, t: nat)
    requires Inv(s) && Joinable(s, x) && x != KERNEL && x != IDLE && !SelfSuspended(s.tasks[x])
    requires t < MAX_TASK && t != x
    ensures Inv(Terminate(s, x)) && !Joinable(Terminate(s, x), x)
    ensures !WaitsFor(Terminate(s, x), t, x)
    ensures Live(Terminate(s, x), t) <==> Live(s, t)
    ensures Terminate(s, x).tasks[t].waitObj == if WaitsFor(s, t, x) then None else s.tasks[t].waitObj
    ensures Terminate(s, x).tasks[t].flag == WAIT <==> s.tasks[t].flag == WAIT && !WaitsFor(s, t, x)
  {
    hide Members, Ending, Joins, Placed, Identified, Resident, OneRunning;
    TerminateInv(s, x);
    EndingLive(s, x);
    EndingStarts(s, x);
    var todo := s.tasks[x].waitMe;
    WakeAllEnds(s, x, todo);
    ExactlyWaiters(s, x, t);
    NowDoesNotWait(s, x);
    var s1 := WakeAll(s, todo);
    if x == s.now {
      var s2 := Relocate(s1, x, s1.tasks[x].(flag := WAITFOREXIT));
      SoundRelocate(s1, x, s1.tasks[x].(flag := WAITFOREXIT));
      ScheduleKeeps(s2, t);
      ScheduleKeeps(s2, x);
    } else {
      StopWaitingEnds(s1, x);
    }
  }

  lemma ExactlyWaiters(s: System, x: nat, t: nat)
    requires Joins(s) && Joinable(s, x)
    ensures t in s.tasks[x].waitMe <==> WaitsFor(s, t, x)
    ensures WaitsFor(s, t, x) ==> t < |s.tasks| && s.tasks[t].flag == WAIT
  {
    assert Waiters(s, x);
    if WaitsFor(s, t, x) { assert WaitOk(s, t, x); }
  }

  // ----- Waiting -----

  /** `ckTaskJoin` on a task that can be waited for: the current task waits and another one runs. */
  ghost function Join(s: System, x: nat): System
    requires Inv(s) && Joinable(s, x) && s.now != IDLE
  {
    JoinSwitching(s, x);
    Schedule(Blocked(s, x))
  }

  /** The current task is on the waiter list of x and no longer running. */
  ghost function Blocked(s: System, x: nat): System
    requires Shape(s) && x < |s.tasks| && Live(s, s.now)
  {
    var s1 := s.(tasks := s.tasks[s.now := s.tasks[s.now].(waitObj := Some(x))]);
    var s2 := s1.(tasks := s1.tasks[x := s1.tasks[x].(waitMe := s1.tasks[x].waitMe + [s.now])]);
    Relocate(s2, s.now, s2.tasks[s.now].(flag := WAIT))
  }

  lemma JoinSwitching(s: System, x: nat)
    requires Inv(s) && Joinable(s, x) && s.now != IDLE
    ensures Switching(Blocked(s, x)) && Live(Blocked(s, x), s.now)
    ensures Blocked(s, x).now == s.now && Blocked(s, x).tasks[s.now].flag == WAIT
  {
    NowDoesNotWait(s, x);
    BlockedPlaced(s, x);
    BlockedTasks(s, x);
    BlockedJoins(s, Blocked(s, x), x);
    hide Joins, Placed, Blocked;
  }

  lemma BlockedTasks(s: System, x: nat)
    requires Shape(s) && x < |s.tasks| && Live(s, s.now)
    ensures var (s', now) := (Blocked(s, x), s.now);
      && |s'.tasks| == |s.tasks| && s'.now == now && s'.mask == s.mask
      && forall t: nat :: t < |s.tasks| ==>
           s'.tasks[t] == s.tasks[t].(
             waitMe := if t == x then s.tasks[t].waitMe + [now] else s.tasks[t].waitMe,
             waitObj := if t == now then Some(x) else s.tasks[t].waitObj,
             flag := if t == now then WAIT else s.tasks[t].flag)
  {
    hide Erase;
  }

  lemma BlockedPlaced(s: System, x: nat)
    requires Shape(s) && Placed(s) && x < |s.tasks| && Live(s, s.now)
    ensures Shape(Blocked(s, x)) && Placed(Blocked(s, x))
  {
    hide Members;
    var s1 := s.(tasks := s.tasks[s.now := s.tasks[s.now].(waitObj := Some(x))]);
    var s2 := s1.(tasks := s1.tasks[x := s1.tasks[x].(waitMe := s1.tasks[x].waitMe + [s.now])]);
    PlacesSame(s, s2);
    RelocatePlaced(s2, s.now, s2.tasks[s.now].(flag := WAIT));
  }

  lemma BlockedJoins(s: System, s': System, x: nat)
    requires Inv(s) && Joinable(s, x) && s.tasks[s.now].waitObj == None && s.now !in s.tasks[x].waitMe
    requires |s'.tasks| == |s.tasks|
    requires var now := s.now;
             forall t: nat :: t < |s.tasks| ==>
               s'.tasks[t] == s.tasks[t].(
                 waitMe := if t == x then s.tasks[t].waitMe + [now] else s.tasks[t].waitMe,
                 waitObj := if t == now then Some(x) else s.tasks[t].waitObj,
                 flag := if t == now then WAIT else s.tasks[t].flag)
    ensures Joins(s')
  {
    hide Placed;
    assert forall t: nat :: Live(s', t) <==> Live(s, t);
    assert forall t: nat :: Joinable(s', t) <==> Joinable(s, t);
    forall t: nat, y: nat | WaitsFor(s', t, y)
      ensures WaitOk(s', t, y)
    {
      if t != s.now {
        assert WaitsFor(s, t, y);
        assert WaitOk(s, t, y);
      }
    }
    forall y: nat | Joinable(s', y)
      ensures Waiters(s', y)
    {
      assert Waiters(s, y);
      if y == x { AppendSpec(s.tasks[x].waitMe, s.now); }
      forall t | t in s'.tasks[y].waitMe
        ensures WaitsFor(s', t, y)
      {
        if t == s.now {
          assert y == x by { assert t in s.tasks[y].waitMe ==> WaitsFor(s, t, y); }
        } else {
          assert WaitsFor(s, t, y);
        }
      }
    }
  }

  lemma JoinInv(s: System, x: nat)
    requires Inv(s) && Joinable(s, x) && s.now != IDLE
    ensures Inv(Join(s, x))
    ensures WaitsFor(Join(s, x), s.now, x) && Join(s, x).now != s.now
    ensures Join(s, x).tasks[s.now].priority == s.tasks[s.now].priority
  {
    hide Members, Joins, Identified, Resident, Blocked;
    JoinSwitching(s, x);
    ScheduleInv(Blocked(s, x));
    ScheduleKeeps(Blocked(s, x), s.now);
    BlockedWaits(s, x);
  }

  lemma BlockedWaits(s: System, x: nat)
    requires Inv(s) && Joinable(s, x)
    ensures |Blocked(s, x).tasks| == |s.tasks| && Live(Blocked(s, x), s.now) && Blocked(s, x).tasks[s.now].waitObj == Some(x)
    ensures Blocked(s, x).tasks[s.now].priority == s.tasks[s.now].priority
  {
  }

  /** The current task stops itself. */
  ghost function SuspendNow(s: System): System
    requires Inv(s) && s.now != IDLE
  {
    RelocatePlaced(s, s.now, s.tasks[s.now].(flag := WAIT));
    Schedule(Relocate(s, s.now, s.tasks[s.now].(flag := WAIT)))
  }

  lemma SuspendInv(s: System)
    requires Inv(s) && s.now != IDLE
    ensures Inv(SuspendNow(s))
  {
    hide Members, Joins, Identified;
    NowStopsRunning(s);
    ScheduleInv(Relocate(s, s.now, s.tasks[s.now].(flag := WAIT)));
  }

  lemma NowStopsRunning(s: System)
    requires Inv(s) && s.now != IDLE
    ensures Switching(Relocate(s, s.now, s.tasks[s.now].(flag := WAIT)))
  {
    hide Members, Joins, Identified;
    FlagStep(s, s.now, WAIT);
  }

  /**
    Resuming a suspended task keeps the invariant exactly when the task is not waiting for another
    one to end; resuming a task that is would leave it on a waiter list.
   */
  lemma ResumeInvIff(s: System, t: nat)
    requires Inv(s) && Joinable(s, t)
    ensures Inv(Resume(s, t)) <==> s.tasks[t].waitObj == None
  {
    hide Members, Placed, Identified, Resident;
    if s.tasks[t].waitObj == None {
      if s.tasks[t].flag == WAIT { ResumeFree(s, t); }
    } else {
      var x := s.tasks[t].waitObj.value;
      assert WaitsFor(s, t, x) && WaitOk(s, t, x);
      assert WaitsFor(Resume(s, t), t, x) && !WaitOk(Resume(s, t), t, x);
    }
  }

  lemma ResumeFree(s: System, t: nat)
    requires Inv(s) && Joinable(s, t) && s.tasks[t].flag == WAIT && s.tasks[t].waitObj == None
    ensures Inv(Resume(s, t))
  {
    hide Members, Joins, Identified;
    FlagStep(s, t, READY);
  }

  // ----- Priorities -----

  /**
    `ckTaskChangePriority`: a task that is not running goes to the back of the ready list of its new
    priority, whatever list its node is linked in.  A waiting task is thus linked out of the wait list.
   */
  ghost function ChangePriority(s: System, t: nat, p: nat): System
    requires Shape(s) && Live(s, t) && p < LEVELS
  {
    if t == s.now then s.(tasks := s.tasks[t := s.tasks[t].(priority := p)])
    else if s.tasks[t].priority != p then
      var s1 := Unlisted(s, t);
      s1.(ready := s1.ready[p := s1.ready[p] + [t]], tasks := s.tasks[t := s.tasks[t].(priority := p)])
    else s
  }

  /** Fields that say nothing about waiting may change freely. */
  lemma WaitFieldsKept(s: System, s': System)
    requires Joins(s) && |s'.tasks| == |s.tasks|
    requires forall t: nat :: t < |s.tasks| ==>
               (Live(s', t) <==> Live(s, t)) && s'.tasks[t].flag == s.tasks[t].flag &&
               s'.tasks[t].waitObj == s.tasks[t].waitObj && s'.tasks[t].waitMe == s.tasks[t].waitMe
    ensures Joins(s')
  {
    forall t: nat, x: nat | WaitsFor(s', t, x) ensures WaitOk(s', t, x) { assert WaitsFor(s, t, x); assert WaitOk(s, t, x); }
    forall x: nat | Joinable(s', x)
      ensures Waiters(s', x)
    {
      assert Joinable(s, x) && Waiters(s, x);
      forall t | t in s'.tasks[x].waitMe ensures WaitsFor(s', t, x) { assert WaitsFor(s, t, x); }
    }
  }

  lemma ChangePriorityInv(s: System, t: nat, p: nat)
    requires Inv(s) && Joinable(s, t) && p < LEVELS
    requires s.tasks[t].flag != WAIT || s.tasks[t].priority == p
    ensures Inv(ChangePriority(s, t, p))
  {
    hide Members, Joins;
    var s' := ChangePriority(s, t, p);
    if t == s.now {
      PlacesSame(s, s');
    } else if s.tasks[t].priority != p {
      assert s.tasks[t].flag == READY;
      assert s' == Relocate(s, t, s.tasks[t].(priority := p));
      RelocatePlaced(s, t, s.tasks[t].(priority := p));
    }
    WaitFieldsKept(s, s');
  }

  /** A change of priority keeps the invariant exactly when it does not change that of a waiting task. */
  lemma ChangePriorityInvIff(s: System, t: nat, p: nat)
    requires Inv(s) && Joinable(s, t) && p < LEVELS
    ensures Inv(ChangePriority(s, t, p)) <==> s.tasks[t].flag != WAIT || s.tasks[t].priority == p
  {
    if s.tasks[t].flag != WAIT || s.tasks[t].priority == p {
      ChangePriorityInv(s, t, p);
    } else {
      hide Joins, Identified, Resident, Erase;
      var s' := ChangePriority(s, t, p);
      assert t in s'.ready[p] && PlaceOf(s'.tasks[t]) == Waiting;
      assert !Members(s'.ready[p], s'.tasks, Ready(p));
    }
  }

  // ----- Creating -----

  /** The lowest free slot from i on; MAX_TASK when there is none. */
  ghost function FreeSlot(s: System, i: nat): (r: nat)
    requires Shape(s) && i <= MAX_TASK
    ensures i <= r <= MAX_TASK
    ensures forall t :: i <= t < r ==> s.tasks[t].selector != 0
    ensures r < MAX_TASK ==> s.tasks[r].selector == 0
    decreases MAX_TASK - i
  {
    if i == MAX_TASK || s.tasks[i].selector == 0 then i else FreeSlot(s, i + 1)
  }

  const FIRST_SELECTOR: nat := 3      // TASK_GDT_0

  /** `ckTaskCreate_unsafe` when slot i is the lowest free one. */
  ghost function Create(s: System, i: nat, p: nat): System
    requires Shape(s) && i < MAX_TASK && p < LEVELS
  {
    Relocate(s, i, Task(FIRST_SELECTOR + i, READY, p, None, [], s.mask + i)).(mask := s.mask + ID_UNIT)
  }

  /** A new task gets an identifier no task ever had. */
  lemma CreateInv(s: System, i: nat, p: nat)
    requires Inv(s) && 2 <= i < MAX_TASK && s.tasks[i].selector == 0 && p < LEVELS
    ensures Inv(Create(s, i, p))
    ensures forall t: nat :: Live(s, t) ==> s.tasks[t].id < Create(s, i, p).tasks[i].id
  {
    CreatePlaced(s, i, p);
    CreateJoins(s, Create(s, i, p), i);
    IdModulo(s.mask, i);
    hide Members, Joins, Placed, PlaceOf;
  }

  lemma CreatePlaced(s: System, i: nat, p: nat)
    requires Inv(s) && 2 <= i < MAX_TASK && s.tasks[i].selector == 0 && p < LEVELS
    ensures Shape(Create(s, i, p)) && Placed(Create(s, i, p))
    ensures Create(s, i, p).tasks == s.tasks[i := Task(FIRST_SELECTOR + i, READY, p, None, [], s.mask + i)]
    ensures Create(s, i, p).now == s.now && Create(s, i, p).mask == s.mask + ID_UNIT
  {
    hide Members, Joins;
    RelocatePlaced(s, i, Task(FIRST_SELECTOR + i, READY, p, None, [], s.mask + i));
    PlacesSame(Relocate(s, i, Task(FIRST_SELECTOR + i, READY, p, None, [], s.mask + i)), Create(s, i, p));
  }

  lemma IdModulo(mask: nat, i: nat)
    requires mask % ID_UNIT == 0 && i < MAX_TASK
    ensures (mask + i) % MAX_TASK == i && (mask + ID_UNIT) % ID_UNIT == 0
  {
  }

  lemma CreateJoins(s: System, s': System, i: nat)
    requires Joins(s) && i < |s.tasks| == |s'.tasks| && s.tasks[i].selector == 0
    requires forall t: nat :: t < |s.tasks| && t != i ==> s'.tasks[t] == s.tasks[t]
    requires s'.tasks[i].waitObj == None && s'.tasks[i].waitMe == []
    ensures Joins(s')
  {
    forall t: nat, x: nat | WaitsFor(s', t, x)
      ensures WaitOk(s', t, x)
    {
      assert WaitsFor(s, t, x) && WaitOk(s, t, x);
    }
    forall x: nat | Joinable(s', x)
      ensures Waiters(s', x)
    {
      if x != i {
        assert Joinable(s, x) && Waiters(s, x);
        forall t | t in s'.tasks[x].waitMe ensures WaitsFor(s', t, x) { assert WaitsFor(s, t, x); }
      }
    }
  }

  // ----- Reaping -----

  /** The idle task's loop over the exited tasks: their slots become free. */
  ghost function Reap(s: System): System
    requires Shape(s) && Placed(s)
    decreases |s.exit|
  {
    if s.exit == [] then s
    else
      ExitFront(s);
      RelocatePlaced(s, s.exit[0], s.tasks[s.exit[0]].(selector := 0));
      Reap(Relocate(s, s.exit[0], s.tasks[s.exit[0]].(selector := 0)))
  }

  lemma ExitFront(s: System)
    requires Shape(s) && Placed(s) && s.exit != []
    ensures Live(s, s.exit[0]) && s.tasks[s.exit[0]].flag == WAITFOREXIT
    ensures Relocate(s, s.exit[0], s.tasks[s.exit[0]].(selector := 0)).exit == s.exit[1..]
  {
    assert s.exit[0] in s.exit;
    assert Members(s.exit, s.tasks, Exiting);
  }

  lemma {:induction false} ReapInv(s: System)
    requires Inv(s)
    ensures Inv(Reap(s)) && Reap(s).exit == [] && Reap(s).now == s.now
    decreases |s.exit|
  {
    if s.exit != [] {
      ExitFront(s);
      ReapOne(s, s.exit[0]);
      ReapInv(Relocate(s, s.exit[0], s.tasks[s.exit[0]].(selector := 0)));
    }
  }

  lemma ReapOne(s: System, x: nat)
    requires Inv(s) && Live(s, x) && s.tasks[x].flag == WAITFOREXIT
    ensures Inv(Relocate(s, x, s.tasks[x].(selector := 0)))
  {
    hide Members, Joins;
    RelocatePlaced(s, x, s.tasks[x].(selector := 0));
    ReapJoins(s, Relocate(s, x, s.tasks[x].(selector := 0)), x);
  }

  lemma ReapJoins(s: System, s': System, x: nat)
    requires Joins(s) && Live(s, x) && s.tasks[x].flag == WAITFOREXIT && |s'.tasks| == |s.tasks|
    requires s'.tasks[x].selector == 0
    requires forall t: nat :: t < |s.tasks| && t != x ==> s'.tasks[t] == s.tasks[t]
    ensures Joins(s')
  {
    forall t: nat, z: nat | WaitsFor(s', t, z)
      ensures WaitOk(s', t, z)
    {
      assert WaitsFor(s, t, z) && WaitOk(s, t, z);
    }
    forall z: nat | Joinable(s', z)
      ensures Waiters(s', z)
    {
      assert Joinable(s, z) && Waiters(s, z);
      forall t | t in s'.tasks[z].waitMe
        ensures WaitsFor(s', t, z)
      {
        assert WaitsFor(s, t, z);
        assert WaitOk(s, t, z);
      }
    }
  }

  // ----- The scheduler's view -----

  /** The queues of the scheduler in a task system. */
  ghost function QueuesOf(s: System): Queues
    requires Live(s, s.now)
  {
    Queues(s.ready, s.exec, s.now, s.tasks[s.now].priority)
  }

  lemma EraseFirst(l: seq<nat>)
    requires l != []
    ensures Erase(l, l[0]) == l[1..]
  {
  }

  /**
    Scheduling from a running task is exactly one step of the scheduler's queues, so its waiting
    bounds hold for the task system.
   */
  lemma ScheduleIsNext(s: System)
    requires Inv(s)
    ensures Inv(Schedule(s))
    ensures QueuesOf(Schedule(s)) == Next(QueuesOf(s))
  {
    ScheduleInv(s);
    hide Members, Joins, Choose, Identified, Resident;
    ChooseTakes(Sizes(s.ready), s.exec);
    var (e, c) := Choose(Sizes(s.ready), s.exec);
    if c.Some? {
      var next := s.ready[c.value][0];
      ReadyIsLive(s, c.value, next);
      EraseFirst(s.ready[c.value]);
      SwitchQueues(s.(exec := e), next, c.value);
    }
  }

  lemma SwitchQueues(s: System, next: nat, i: nat)
    requires Shape(s) && Live(s, next) && Live(s, s.now) && next != s.now
    requires s.tasks[s.now].flag == RUNNING && s.tasks[next].flag == READY && s.tasks[next].priority == i
    ensures var s' := SwitchTo(s, next);
            && s'.exec == s.exec && s'.now == next && Live(s', next) && s'.tasks[next].priority == i
            && s'.ready == var popped := s.ready[i := Erase(s.ready[i], next)];
                           popped[s.tasks[s.now].priority := popped[s.tasks[s.now].priority] + [s.now]]
  {
    hide Erase;
  }

  /** m scheduling steps in a row. */
  ghost function ScheduleTimes(s: System, m: nat): (r: System)
    requires Inv(s)
    ensures Inv(r)
  {
    if m == 0 then s else
      var t := ScheduleTimes(s, m - 1);
      ScheduleInv(t);
      Schedule(t)
  }

  lemma {:induction false} ScheduleTimesIsAfter(s: System, m: nat)
    requires Inv(s)
    ensures QueuesOf(ScheduleTimes(s, m)) == After(QueuesOf(s), m)
  {
    hide Inv, Schedule, Next, WellShaped;
    if m > 0 {
      ScheduleTimesIsAfter(s, m - 1);
      QueuesWellShaped(ScheduleTimes(s, m - 1));
      ScheduleIsNext(ScheduleTimes(s, m - 1));
    }
  }

  lemma QueuesWellShaped(s: System)
    requires Inv(s)
    ensures Live(s, s.now) && WellShaped(QueuesOf(s))
  {
  }

  /**
    No task starves: a ready task has a position p in its list, and while nothing but scheduling happens
    it runs within (p + 2) times the product of (tasks of a level + 1) steps.
   */
  lemma ReadyTaskRuns(s: System, t: nat) returns (p: nat, m: nat)
    requires Inv(s) && Live(s, t) && s.tasks[t].flag == READY
    ensures s.tasks[t].priority < LEVELS == |s.ready|
    ensures p < |s.ready[s.tasks[t].priority]| && s.ready[s.tasks[t].priority][p] == t
    ensures Live(s, s.now) && WellShaped(QueuesOf(s)) && m <= (p + 2) * Radix(QueuesOf(s))
    ensures ScheduleTimes(s, m).now == t
  {
    var i := s.tasks[t].priority;
    assert Members(s.ready[i], s.tasks, Ready(i)) && t in s.ready[i];
    p :| 0 <= p < |s.ready[i]| && s.ready[i][p] == t;
    QueuesWellShaped(s);
    m := NoStarvation(QueuesOf(s), i, p);
    ScheduleTimesIsAfter(s, m);
  }

  // ----- Whole runs -----

  datatype Call =
    | CallSchedule
    | CallCreate(priority: nat)
    | CallTerminate(task: nat)
    | CallJoin(task: nat)
    | CallSuspend
    | CallResume(task: nat)
    | CallPriority(task: nat, priority: nat)
    | CallReap

  /** The states a call is made in. */
  ghost predicate Allowed(s: System, c: Call)
    requires Shape(s)
  {
    match c
    case CallSchedule => true
    case CallCreate(p) => p < LEVELS && FreeSlot(s, 2) < MAX_TASK
    case CallTerminate(x) => Joinable(s, x) && x != KERNEL && x != IDLE && !SelfSuspended(s.tasks[x])
    case CallJoin(x) => Joinable(s, x) && s.now != IDLE
    case CallSuspend => s.now != IDLE && s.now != KERNEL
    case CallResume(t) => Joinable(s, t) && s.tasks[t].waitObj == None
    case CallPriority(t, p) => Joinable(s, t) && p < LEVELS && (s.tasks[t].flag != WAIT || s.tasks[t].priority == p)
    case CallReap => s.now == IDLE
  }

  ghost function Effect(s: System, c: Call): System
    requires Inv(s) && Allowed(s, c)
  {
    match c
    case CallSchedule => Schedule(s)
    case CallCreate(p) => Create(s, FreeSlot(s, 2), p)
    case CallTerminate(x) => Terminate(s, x)
    case CallJoin(x) => Join(s, x)
    case CallSuspend => SuspendNow(s)
    case CallResume(t) => Resume(s, t)
    case CallPriority(t, p) => ChangePriority(s, t, p)
    case CallReap => Reap(s)
  }

  lemma EffectInv(s: System, c: Call)
    requires Inv(s) && Allowed(s, c)
    ensures Inv(Effect(s, c))
  {
    hide Joins, Placed, Identified, Resident, OneRunning, Terminate, Join, Reap;
    match c
    case CallSchedule => ScheduleInv(s);
    case CallCreate(p) => CreateInv(s, FreeSlot(s, 2), p);
    case CallTerminate(x) => TerminateInv(s, x);
    case CallJoin(x) => JoinInv(s, x);
    case CallSuspend => SuspendInv(s);
    case CallResume(t) => ResumeInvIff(s, t);
    case CallPriority(t, p) => ChangePriorityInv(s, t, p);
    case CallReap => ReapInv(s);
  }

  /** A state follows another by a call that is made where it may be made. */
  ghost predicate Follows(s: System, c: Call, s': System) {
    Inv(s) ==> Allowed(s, c) && s' == Effect(s, c)
  }

  ghost predicate IsRun(states: seq<System>, calls: seq<Call>) {
    && |states| == |calls| + 1
    && forall i :: 0 <= i < |calls| ==> Follows(states[i], calls[i], states[i + 1])
  }

  /** Every state of every run of kernel calls satisfies the invariant. */
  lemma {:induction false} RunInv(states: seq<System>, calls: seq<Call>, k: nat)
    requires IsRun(states, calls) && Inv(states[0]) && k < |states|
    ensures Inv(states[k])
  {
    hide Inv, Follows;
    if k > 0 {
      RunInv(states, calls, k - 1);
      assert Follows(states[k - 1], calls[k - 1], states[k]);
      FollowsInv(states[k - 1], calls[k - 1], states[k]);
    }
  }

  lemma FollowsInv(s: System, c: Call, s': System)
    requires Inv(s) && Follows(s, c, s')
    ensures Inv(s')
  {
    EffectInv(s, c);
  }

  // ----- The initial state -----

  ghost function InitialTask(t: nat): Task {
    if t == KERNEL then Task(FIRST_SELECTOR, RUNNING, 1, None, [], KERNEL)
    else if t == IDLE then Task(FIRST_SELECTOR + 1, READY, LEVELS - 1, None, [], IDLE)
    else Task(0, RUNNING, 0, None, [], 0)
  }

  ghost function InitialSystem(): System {
    System(seq(MAX_TASK, t requires 0 <= t => InitialTask(t)),
           seq(LEVELS, i => if i == LEVELS - 1 then [IDLE] else []), [], [],
           seq(LEVELS, i => if i == 1 then 1 else 0), KERNEL, ID_UNIT)
  }

  lemma InitialInv()
    ensures Inv(InitialSystem())
  {
    var s := InitialSystem();
    forall i: nat | i < LEVELS
      ensures Members(s.ready[i], s.tasks, Ready(i))
    {
    }
    assert Members(s.wait, s.tasks, Waiting) && Members(s.exit, s.tasks, Exiting);
  }

  /** The table is full below slot i and free from there on. */
  ghost predicate FilledTo(s: System, i: nat) {
    && Inv(s) && s.mask == ID_UNIT * (i - 1)
    && (forall t: nat :: t < i && t < |s.tasks| ==> s.tasks[t].selector != 0)
    && (forall t: nat :: i <= t < |s.tasks| ==> s.tasks[t].selector == 0)
  }

  lemma FilledInitially()
    ensures FilledTo(InitialSystem(), 2)
  {
    InitialInv();
    hide Inv;
  }

  lemma FillOne(s: System, i: nat)
    requires 2 <= i < MAX_TASK && FilledTo(s, i)
    ensures FreeSlot(s, 2) == i && Allowed(s, CallCreate(0)) && FilledTo(Effect(s, CallCreate(0)), i + 1)
  {
    hide Placed, Joins, Identified, Resident, OneRunning;
    assert s.tasks[i].selector == 0;
    assert FreeSlot(s, 2) == i;
    CreateInv(s, i, 0);
    CreatePlaced(s, i, 0);
    hide FreeSlot, Create, Inv;
  }

  /** Creating tasks from the start on fills the table slot by slot. */
  lemma {:induction false} Filling(i: nat) returns (states: seq<System>, calls: seq<Call>)
    requires 2 <= i <= MAX_TASK
    ensures IsRun(states, calls) && states[0] == InitialSystem() && FilledTo(states[|calls|], i)
  {
    hide InitialSystem, FilledTo, Effect, Allowed, FreeSlot, Inv, Follows;
    if i == 2 {
      FilledInitially();
      states, calls := [InitialSystem()], [];
    } else {
      states, calls := Filling(i - 1);
      states, calls := FillNext(states, calls, i - 1);
    }
  }

  lemma FillNext(states: seq<System>, calls: seq<Call>, i: nat) returns (longer: seq<System>, all: seq<Call>)
    requires 2 <= i < MAX_TASK && IsRun(states, calls) && FilledTo(states[|calls|], i)
    ensures IsRun(longer, all) && longer[0] == states[0] && FilledTo(longer[|all|], i + 1)
  {
    var s := states[|calls|];
    FillOne(s, i);
    var s' := Effect(s, CallCreate(0));
    hide FilledTo, Effect, Allowed, FreeSlot, Inv;
    FillingStep(states, calls, s');
    longer, all := states + [s'], calls + [CallCreate(0)];
  }

  lemma FillingStep(states: seq<System>, calls: seq<Call>, s': System)
    requires IsRun(states, calls) && Follows(states[|calls|], CallCreate(0), s')
    ensures IsRun(states + [s'], calls + [CallCreate(0)])
  {
    hide Follows;
    var longer, all := states + [s'], calls + [CallCreate(0)];
    forall i | 0 <= i < |all| ensures Follows(longer[i], all[i], longer[i + 1]) {
      assert i < |calls| ==> Follows(states[i], calls[i], states[i + 1]);
    }
  }

  /** A run of the kernel reaches a state without a free slot, its identifiers still 32-bit numbers. */
  lemma FullTableReachable() returns (states: seq<System>, calls: seq<Call>)
    ensures IsRun(states, calls) && states[0] == InitialSystem()
    ensures var s := states[|calls|]; Inv(s) && FreeSlot(s, 2) == MAX_TASK && s.mask <= 0xffff_ffff
  {
    states, calls := Filling(MAX_TASK);
    hide Inv;
  }

  /** Resuming a task that blocks in a join breaks the invariant, from any state it can join in. */
  lemma ResumeAfterJoinBreaks(s: System, x: nat)
    requires Inv(s) && Joinable(s, x) && s.now != IDLE
    ensures Inv(Join(s, x)) && Joinable(Join(s, x), s.now) && !Inv(Resume(Join(s, x), s.now))
  {
    hide Members, Placed, Identified, Resident, Schedule;
    JoinInv(s, x);
    assert WaitOk(Join(s, x), s.now, x);
    ResumeInvIff(Join(s, x), s.now);
  }

  /** So does giving it another priority than its own, from any state it can join in. */
  lemma ChangePriorityAfterJoinBreaks(s: System, x: nat, p: nat)
    requires Inv(s) && Joinable(s, x) && s.now != IDLE && p < LEVELS && p != s.tasks[s.now].priority
    ensures Inv(Join(s, x)) && Joinable(Join(s, x), s.now) && Join(s, x).now != s.now
    ensures !Inv(ChangePriority(Join(s, x), s.now, p))
  {
    hide Members, Placed, Identified, Resident, Schedule;
    JoinInv(s, x);
    assert WaitOk(Join(s, x), s.now, x);
    ChangePriorityInvIff(Join(s, x), s.now, p);
  }
}
