/**
  The recursive mutex as an interleaving of atomic steps.  Any number of tasks call lock and unlock;
  every access to a field of the mutex is a step of its own.
 */
module RecursiveMutex {

  const INVALID_ID: nat := 0xffff_ffff

  /** The next access a task makes; `read` is a value read before. */
  datatype Pc =
    | Outside                      // between calls
    | TryFirst                     // lock: first compare-and-swap on bLocked
    | ReadOwner                    // lock: compare TaskId with the own id
    | ReadToCountUp                // lock: read LockCount
    | CountUp(read: nat)           // lock: LockCount = read + 1
    | Spin                         // lock: compare-and-swap in the loop
    | SetCount                     // lock: LockCount = 1
    | SetOwner                     // lock: TaskId = own id
    | TestLocked                   // unlock: read bLocked
    | TestOwner                    // unlock: read TaskId
    | ReadCount                    // unlock: read LockCount
    | CountDown(read: nat)         // unlock: LockCount = read - 1
    | ClearCount                   // unlock: LockCount = 0
    | ClearOwner                   // unlock: TaskId = invalid
    | ClearLocked                  // unlock: bLocked = false

  datatype Answer = NoAnswer | Locked(count: nat) | Unlocked(ok: bool)

  /** `depth` counts the locks the task has taken and not yet given back. */
  datatype Local = Local(pc: Pc, depth: nat, answer: Answer)

  datatype State = State(bLocked: bool, taskId: nat, lockCount: nat, locals: map<nat, Local>)

  datatype Call = CallLock | CallUnlock

  ghost function Initial(ids: set<nat>): State {
    State(false, INVALID_ID, 0, map t | t in ids :: Local(Outside, 0, NoAnswer))
  }

  /** One step of task t; `call` is what it does next when it is between calls. */
  ghost function Step(s: State, t: nat, call: Call): State
    requires t in s.locals
  {
    var l := s.locals[t];
    match l.pc
    case Outside => At(s, t, l.(pc := if call.CallLock? then TryFirst else TestLocked, answer := NoAnswer))
    case TryFirst =>
      if !s.bLocked then At(s.(bLocked := true), t, l.(pc := SetCount)) else At(s, t, l.(pc := ReadOwner))
    case ReadOwner => At(s, t, l.(pc := if s.taskId == t then ReadToCountUp else Spin))
    case ReadToCountUp => At(s, t, l.(pc := CountUp(s.lockCount)))
    case CountUp(read) => At(s.(lockCount := read + 1), t, Local(Outside, l.depth + 1, Locked(read + 1)))
    case Spin =>
      if !s.bLocked then At(s.(bLocked := true), t, l.(pc := SetCount)) else s
    case SetCount => At(s.(lockCount := 1), t, l.(pc := SetOwner))
    case SetOwner => At(s.(taskId := t), t, Local(Outside, 1, Locked(1)))
    case TestLocked => At(s, t, if s.bLocked then l.(pc := TestOwner) else l.(pc := Outside, answer := Unlocked(false)))
    case TestOwner => At(s, t, if s.taskId == t then l.(pc := ReadCount) else l.(pc := Outside, answer := Unlocked(false)))
    case ReadCount => At(s, t, l.(pc := if s.lockCount > 1 then CountDown(s.lockCount) else ClearCount))
    case CountDown(read) =>
      if read == 0 then s
      else At(s.(lockCount := read - 1), t, Local(Outside, if l.depth > 0 then l.depth - 1 else 0, Unlocked(true)))
    case ClearCount => At(s.(lockCount := 0), t, l.(pc := ClearOwner))
    case ClearOwner => At(s.(taskId := INVALID_ID), t, l.(pc := ClearLocked))
    case ClearLocked => At(s.(bLocked := false), t, Local(Outside, 0, Unlocked(true)))
  }

  ghost function At(s: State, t: nat, l: Local): State {
    s.(locals := s.locals[t := l])
  }

  // ----- The invariant -----

  /** The task has taken bLocked and not given it back. */
  ghost predicate Inside(l: Local) {
    l.depth > 0 || l.pc == SetCount || l.pc == SetOwner
  }

  /** What the mutex looks like while task t is inside, access by access. */
  ghost predicate OwnerView(s: State, t: nat, l: Local) {
    match l.pc
    case SetCount => l.depth == 0 && s.taskId == INVALID_ID
    case SetOwner => l.depth == 0 && s.taskId == INVALID_ID && s.lockCount == 1
    case ClearCount => l.depth == 1 && s.taskId == t && s.lockCount == 1
    case ClearOwner => l.depth == 1 && s.taskId == t && s.lockCount == 0
    case ClearLocked => l.depth == 1 && s.taskId == INVALID_ID && s.lockCount == 0
    case Spin => false
    case CountUp(read) => s.taskId == t && s.lockCount == l.depth == read
    case CountDown(read) => l.depth > 1 && s.taskId == t && s.lockCount == l.depth == read
    case _ => s.taskId == t && s.lockCount == l.depth
  }

  /** A task that is not inside never takes itself for the owner. */
  ghost predicate StrangerView(s: State, t: nat, l: Local) {
    l.pc.Outside? || l.pc.TryFirst? || l.pc.ReadOwner? || l.pc.Spin? || l.pc.TestLocked? || l.pc.TestOwner?
  }

  ghost predicate LocalOk(s: State, t: nat)
    requires t in s.locals
  {
    var l := s.locals[t];
    && t != INVALID_ID
    && (Inside(l) ==> s.bLocked && OwnerView(s, t, l))
    && (!Inside(l) ==> StrangerView(s, t, l) && s.taskId != t)
  }

  ghost predicate Inv(s: State) {
    && (forall t :: t in s.locals ==> LocalOk(s, t))
    && (forall t, u :: t in s.locals && u in s.locals && Inside(s.locals[t]) && Inside(s.locals[u]) ==> t == u)
    && (s.bLocked ==> exists t :: t in s.locals && Inside(s.locals[t]))
    && (!s.bLocked ==> s.taskId == INVALID_ID)
  }

  lemma InitialInv(ids: set<nat>)
    requires INVALID_ID !in ids
    ensures Inv(Initial(ids))
  {
  }

  /** Every step of every task keeps the invariant. */
  lemma StepInv(s: State, t: nat, call: Call)
    requires Inv(s) && t in s.locals
    ensures Inv(Step(s, t, call))
  {
    var s' := Step(s, t, call);
    StepOthers(s, t, call);
    StepOfOne(s, t, call);
    hide Step, LocalOk, Inside;
    if s'.bLocked && !Inside(s'.locals[t]) {
      var u :| u in s.locals && Inside(s.locals[u]);
      assert u in s'.locals && Inside(s'.locals[u]);
    }
  }

  /** A step moves only its own task in or out, and in only when bLocked was free. */
  lemma StepOfOne(s: State, t: nat, call: Call)
    requires Inv(s) && t in s.locals
    ensures var s' := Step(s, t, call);
            && (forall u :: u in s.locals && u != t ==> u in s'.locals && s'.locals[u] == s.locals[u])
            && (Inside(s'.locals[t]) && !Inside(s.locals[t]) ==> !s.bLocked)
            && (Inside(s.locals[t]) && !Inside(s'.locals[t]) ==> !s'.bLocked)
            && (s'.bLocked && !s.bLocked ==> Inside(s'.locals[t]))
            && (!s'.bLocked ==> s'.taskId == INVALID_ID)
            && (s'.taskId == s.taskId || s'.taskId == t || s'.taskId == INVALID_ID)
            && (!Inside(s.locals[t]) && !Inside(s'.locals[t]) ==>
                  s'.bLocked == s.bLocked && s'.taskId == s.taskId && s'.lockCount == s.lockCount)
  {
    assert LocalOk(s, t);
  }

  lemma StepSelf(s: State, t: nat, call: Call)
    requires Inv(s) && t in s.locals
    ensures t in Step(s, t, call).locals && LocalOk(Step(s, t, call), t)
  {
    assert LocalOk(s, t);
  }

  lemma StepOthers(s: State, t: nat, call: Call)
    requires Inv(s) && t in s.locals
    ensures var s' := Step(s, t, call);
            s'.locals.Keys == s.locals.Keys && forall u :: u in s'.locals ==> LocalOk(s', u)
  {
    var s' := Step(s, t, call);
    assert s'.locals.Keys == s.locals.Keys;
    StepOfOne(s, t, call);
    StepSelf(s, t, call);
    hide Step, OwnerView, StrangerView;
    forall u | u in s'.locals && u != t
      ensures LocalOk(s', u)
    {
      assert LocalOk(s, u);
      StillStranger(s, s', t, u);
    }
  }

  /** What a task sees of another task's step leaves its own view right. */
  lemma StillStranger(s: State, s': State, t: nat, u: nat)
    requires t in s.locals && t in s'.locals && u in s.locals && u in s'.locals && u != t && LocalOk(s, u)
    requires s'.locals[u] == s.locals[u]
    requires if Inside(s.locals[t]) || Inside(s'.locals[t]) then
               !Inside(s.locals[u]) && (s'.taskId == s.taskId || s'.taskId == t || s'.taskId == INVALID_ID)
             else s'.bLocked == s.bLocked && s'.taskId == s.taskId && s'.lockCount == s.lockCount
    ensures LocalOk(s', u)
  {
  }

  // ----- Whole interleavings -----

  ghost predicate IsRun(states: seq<State>, steps: seq<(nat, Call)>) {
    && |states| == |steps| + 1
    && forall i :: 0 <= i < |steps| ==> steps[i].0 in states[i].locals && states[i + 1] == Step(states[i], steps[i].0, steps[i].1)
  }

  lemma {:induction false} RunInv(states: seq<State>, steps: seq<(nat, Call)>, k: nat)
    requires IsRun(states, steps) && Inv(states[0]) && k < |states|
    ensures Inv(states[k])
  {
    if k > 0 {
      RunInv(states, steps, k - 1);
      StepInv(states[k - 1], steps[k - 1].0, steps[k - 1].1);
    }
  }

  /** Under every interleaving at most one task holds the lock, and only that one finds its own id in TaskId. */
  lemma MutualExclusion(states: seq<State>, steps: seq<(nat, Call)>, k: nat, ids: set<nat>, t: nat, u: nat)
    requires INVALID_ID !in ids && IsRun(states, steps) && states[0] == Initial(ids) && k < |states|
    requires t in states[k].locals && u in states[k].locals
    ensures states[k].locals[t].depth > 0 && states[k].locals[u].depth > 0 ==> t == u
    ensures states[k].taskId == t ==> states[k].locals[t].depth > 0
    ensures states[k].locals[t].depth > 0 && states[k].locals[t].pc.Outside? ==>
              states[k].bLocked && states[k].taskId == t && states[k].lockCount == states[k].locals[t].depth
  {
    InitialInv(ids);
    RunInv(states, steps, k);
    assert LocalOk(states[k], t);
  }

  /** A task that holds nothing changes no field with any step of an unlock, and is told so. */
  lemma UnlockByStranger(s: State, t: nat, call: Call)
    requires Inv(s) && t in s.locals && s.locals[t].depth == 0
    requires s.locals[t].pc.TestLocked? || s.locals[t].pc.TestOwner?
    ensures var s' := Step(s, t, call);
            && s'.bLocked == s.bLocked && s'.taskId == s.taskId && s'.lockCount == s.lockCount
            && s'.locals[t].depth == 0
            && (s'.locals[t].pc.TestOwner? || (s'.locals[t].pc.Outside? && s'.locals[t].answer == Unlocked(false)))
  {
    assert LocalOk(s, t);
  }

  /** Whatever a lock or unlock answers is the truth: the count is the nesting depth, true means one level less. */
  lemma AnswersAreTrue(s: State, t: nat, call: Call)
    requires Inv(s) && t in s.locals && !s.locals[t].pc.Outside? && Step(s, t, call).locals[t].pc.Outside?
    ensures var (l, l') := (s.locals[t], Step(s, t, call).locals[t]);
            match l'.answer
            case Locked(n) => l'.depth == n == l.depth + 1
            case Unlocked(true) => l.depth > 0 && l'.depth == l.depth - 1
            case Unlocked(false) => l.depth == 0 && l'.depth == 0
            case NoAnswer => false
  {
    assert LocalOk(s, t);
  }

  // ----- A call from its first step to its answer -----

  /** The state after n steps of task t alone, all of them for `call`. */
  ghost function Alone(s: State, t: nat, call: Call, n: nat): State
    requires t in s.locals
    ensures t in Alone(s, t, call, n).locals
  {
    if n == 0 then s else Step(Alone(s, t, call, n - 1), t, call)
  }

  /** Task t has answered, no other task has moved, and the fields of the mutex are these. */
  ghost predicate Answered(s: State, s': State, t: nat, depth: nat, answer: Answer)
    requires t in s.locals
  {
    && s'.locals == s.locals[t := Local(Outside, depth, answer)]
    && if depth > 0 then s'.bLocked && s'.taskId == t && s'.lockCount == depth
       else if s.locals[t].depth > 0 then !s'.bLocked && s'.taskId == 0xffff_ffff && s'.lockCount == 0
       else s'.bLocked == s.bLocked && s'.taskId == s.taskId && s'.lockCount == s.lockCount
  }

  /** The task is between calls, and the mutex is free, or holds it at this depth. */
  ghost predicate Idle(s: State, t: nat, depth: nat) {
    && t in s.locals && s.locals[t].pc.Outside? && s.locals[t].depth == depth
    && (depth == 0 ==> !s.bLocked) && (depth > 0 ==> s.bLocked && s.taskId == t && s.lockCount == depth)
  }

  lemma Goes(s: State, t: nat, call: Call, k: nat, m: State, l: Local, m': State, l': Local)
    requires t in s.locals && Alone(s, t, call, k) == At(m, t, l)
    requires Step(At(m, t, l), t, call) == At(m', t, l')
    ensures Alone(s, t, call, k + 1) == At(m', t, l')
  {
    hide Step, At;
  }

  lemma FreeLocks(s: State, t: nat)
    requires Idle(s, t, 0)
    ensures Answered(s, Alone(s, t, CallLock, 4), t, 1, Locked(1))
    ensures forall k :: 0 < k < 4 ==> !Alone(s, t, CallLock, k).locals[t].pc.Outside?
  {
    var taken, counted := s.(bLocked := true), s.(bLocked := true, lockCount := 1);
    var l1, l2, l3 := Local(TryFirst, 0, NoAnswer), Local(SetCount, 0, NoAnswer), Local(SetOwner, 0, NoAnswer);
    assert Alone(s, t, CallLock, 1) == At(s, t, l1);
    Goes(s, t, CallLock, 1, s, l1, taken, l2);
    Goes(s, t, CallLock, 2, taken, l2, counted, l3);
    Goes(s, t, CallLock, 3, counted, l3, counted.(taskId := t), Local(Outside, 1, Locked(1)));
    hide Step, Alone;
  }

  lemma OwnerLocks(s: State, t: nat, d: nat)
    requires Idle(s, t, d) && d > 0
    ensures Answered(s, Alone(s, t, CallLock, 5), t, d + 1, Locked(d + 1))
    ensures forall k :: 0 < k < 5 ==> !Alone(s, t, CallLock, k).locals[t].pc.Outside?
  {
    var l1, l2 := Local(TryFirst, d, NoAnswer), Local(ReadOwner, d, NoAnswer);
    var l3, l4 := Local(ReadToCountUp, d, NoAnswer), Local(CountUp(d), d, NoAnswer);
    assert Alone(s, t, CallLock, 1) == At(s, t, l1);
    Goes(s, t, CallLock, 1, s, l1, s, l2);
    Goes(s, t, CallLock, 2, s, l2, s, l3);
    Goes(s, t, CallLock, 3, s, l3, s, l4);
    Goes(s, t, CallLock, 4, s, l4, s.(lockCount := d + 1), Local(Outside, d + 1, Locked(d + 1)));
    hide Step, Alone;
  }

  lemma UnlockBegins(s: State, t: nat, d: nat)
    requires Idle(s, t, d) && d > 0
    ensures Alone(s, t, CallUnlock, 1) == At(s, t, Local(TestLocked, d, NoAnswer))
    ensures Alone(s, t, CallUnlock, 2) == At(s, t, Local(TestOwner, d, NoAnswer))
    ensures Alone(s, t, CallUnlock, 3) == At(s, t, Local(ReadCount, d, NoAnswer))
  {
    var l1, l2, l3 := Local(TestLocked, d, NoAnswer), Local(TestOwner, d, NoAnswer), Local(ReadCount, d, NoAnswer);
    assert Alone(s, t, CallUnlock, 1) == At(s, t, l1);
    Goes(s, t, CallUnlock, 1, s, l1, s, l2);
    Goes(s, t, CallUnlock, 2, s, l2, s, l3);
  }

  lemma OuterUnlocks(s: State, t: nat, d: nat)
    requires Idle(s, t, d) && d > 1
    ensures Answered(s, Alone(s, t, CallUnlock, 5), t, d - 1, Unlocked(true))
    ensures forall k :: 0 < k < 5 ==> !Alone(s, t, CallUnlock, k).locals[t].pc.Outside?
  {
    UnlockBegins(s, t, d);
    var l3, l4 := Local(ReadCount, d, NoAnswer), Local(CountDown(d), d, NoAnswer);
    Goes(s, t, CallUnlock, 3, s, l3, s, l4);
    Goes(s, t, CallUnlock, 4, s, l4, s.(lockCount := d - 1), Local(Outside, d - 1, Unlocked(true)));
    hide Step, Alone;
  }

  lemma LastClears(s: State, t: nat)
    requires Idle(s, t, 1)
    ensures Alone(s, t, CallUnlock, 4) == At(s, t, Local(ClearCount, 1, NoAnswer))
    ensures Alone(s, t, CallUnlock, 5) == At(s.(lockCount := 0), t, Local(ClearOwner, 1, NoAnswer))
    ensures Alone(s, t, CallUnlock, 6) == At(s.(lockCount := 0, taskId := INVALID_ID), t, Local(ClearLocked, 1, NoAnswer))
  {
    UnlockBegins(s, t, 1);
    var l4, l5, m5 := Local(ClearCount, 1, NoAnswer), Local(ClearOwner, 1, NoAnswer), s.(lockCount := 0);
    Goes(s, t, CallUnlock, 3, s, Local(ReadCount, 1, NoAnswer), s, l4);
    Goes(s, t, CallUnlock, 4, s, l4, m5, l5);
    Goes(s, t, CallUnlock, 5, m5, l5, m5.(taskId := INVALID_ID), Local(ClearLocked, 1, NoAnswer));
  }

  lemma LastUnlocks(s: State, t: nat)
    requires Idle(s, t, 1)
    ensures Answered(s, Alone(s, t, CallUnlock, 7), t, 0, Unlocked(true))
    ensures forall k :: 0 < k < 7 ==> !Alone(s, t, CallUnlock, k).locals[t].pc.Outside?
  {
    UnlockBegins(s, t, 1);
    LastClears(s, t);
    var m6 := s.(lockCount := 0, taskId := INVALID_ID);
    Goes(s, t, CallUnlock, 6, m6, Local(ClearLocked, 1, NoAnswer), m6.(bLocked := false), Local(Outside, 0, Unlocked(true)));
    hide Step, Alone;
  }

  /** Between calls a task is idle unless another one holds the mutex. */
  lemma IdleNow(s: State, t: nat)
    requires Inv(s) && t in s.locals && s.locals[t].pc.Outside?
    ensures s.locals[t].depth > 0 || !s.bLocked ==> Idle(s, t, s.locals[t].depth)
  {
    assert LocalOk(s, t);
  }

  /**
    A lock of a mutex that is free, or that the caller holds already, left alone takes it: the answer and the
    count are one more than the depth before, and after n steps, not earlier, the call is over.
   */
  lemma LockAlone(s: State, t: nat) returns (n: nat)
    requires Inv(s) && t in s.locals && s.locals[t].pc.Outside?
    requires !s.bLocked || s.locals[t].depth > 0
    ensures var d := s.locals[t].depth;
      0 < n && Answered(s, Alone(s, t, CallLock, n), t, d + 1, Locked(d + 1))
    ensures forall k :: 0 < k < n ==> !Alone(s, t, CallLock, k).locals[t].pc.Outside?
  {
    IdleNow(s, t);
    hide Inv, Answered, Step;
    if s.locals[t].depth > 0 {
      OwnerLocks(s, t, s.locals[t].depth);
      n := 5;
    } else {
      FreeLocks(s, t);
      n := 4;
    }
  }

  /** A lock of a mutex that another task holds left alone changes nothing and comes to wait in the loop. */
  lemma LockWaits(s: State, t: nat)
    requires Inv(s) && t in s.locals && s.locals[t].pc.Outside? && s.bLocked && s.locals[t].depth == 0
    ensures Alone(s, t, CallLock, 3) == s.(locals := s.locals[t := Local(Spin, 0, NoAnswer)])
  {
    assert LocalOk(s, t);
    hide Inv, LocalOk, Alone, Step;
    StrangerWaits(s, t);
  }

  lemma StrangerWaits(s: State, t: nat)
    requires t in s.locals && s.locals[t].pc.Outside? && s.bLocked && s.locals[t].depth == 0 && s.taskId != t
    ensures Alone(s, t, CallLock, 3) == s.(locals := s.locals[t := Local(Spin, 0, NoAnswer)])
  {
    var l1, l2 := Local(TryFirst, 0, NoAnswer), Local(ReadOwner, 0, NoAnswer);
    assert Alone(s, t, CallLock, 1) == At(s, t, l1);
    Goes(s, t, CallLock, 1, s, l1, s, l2);
    Goes(s, t, CallLock, 2, s, l2, s, Local(Spin, 0, NoAnswer));
  }

  /** A waiting task takes the mutex at its next step once it is free, and changes nothing before. */
  lemma WaitingTakes(s: State, t: nat, call: Call)
    requires Inv(s) && t in s.locals && s.locals[t].pc.Spin?
    ensures s.bLocked ==> Step(s, t, call) == s
    ensures !s.bLocked ==> Answered(s, Alone(s, t, call, 3), t, 1, Locked(1))
  {
    assert LocalOk(s, t);
    hide Inv, LocalOk;
    if !s.bLocked {
      var taken, counted := s.(bLocked := true), s.(bLocked := true, lockCount := 1);
      var l1, l2 := s.locals[t].(pc := SetCount), s.locals[t].(pc := SetOwner);
      assert Alone(s, t, call, 1) == At(taken, t, l1);
      Goes(s, t, call, 1, taken, l1, counted, l2);
      Goes(s, t, call, 2, counted, l2, counted.(taskId := t), Local(Outside, 1, Locked(1)));
    }
  }

  /**
    An unlock left alone gives one level back, and the mutex with the last one; a task that holds nothing is
    told so and changes nothing.
   */
  lemma UnlockAlone(s: State, t: nat) returns (n: nat)
    requires Inv(s) && t in s.locals && s.locals[t].pc.Outside?
    ensures var d := s.locals[t].depth;
      0 < n && Answered(s, Alone(s, t, CallUnlock, n), t, if d > 0 then d - 1 else 0, Unlocked(d > 0))
    ensures forall k :: 0 < k < n ==> !Alone(s, t, CallUnlock, k).locals[t].pc.Outside?
  {
    IdleNow(s, t);
    var d := s.locals[t].depth;
    if d > 1 {
      hide Inv, Answered, Step;
      OuterUnlocks(s, t, d);
      n := 5;
    } else if d == 1 {
      hide Inv, Answered, Step;
      LastUnlocks(s, t);
      n := 7;
    } else {
      n := StrangerUnlocks(s, t);
    }
  }

  lemma StrangerUnlocks(s: State, t: nat) returns (n: nat)
    requires Inv(s) && t in s.locals && s.locals[t].pc.Outside? && s.locals[t].depth == 0
    ensures 0 < n && Answered(s, Alone(s, t, CallUnlock, n), t, 0, Unlocked(false))
    ensures forall k :: 0 < k < n ==> !Alone(s, t, CallUnlock, k).locals[t].pc.Outside?
  {
    assert LocalOk(s, t);
    hide Inv, LocalOk;
    var l1, l2, l3 := Local(TestLocked, 0, NoAnswer), Local(TestOwner, 0, NoAnswer), Local(Outside, 0, Unlocked(false));
    assert Alone(s, t, CallUnlock, 1) == At(s, t, l1);
    if s.bLocked {
      Goes(s, t, CallUnlock, 1, s, l1, s, l2);
      Goes(s, t, CallUnlock, 2, s, l2, s, l3);
      n := 3;
    } else {
      Goes(s, t, CallUnlock, 1, s, l1, s, l3);
      n := 2;
    }
  }
}
