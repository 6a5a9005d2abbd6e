/**
  Lazy switching of the floating-point unit.  There is one FPU; its contents are saved and loaded only
  when a task uses it after another task did.  Every task sees an FPU of its own.
 */
module LazyFpu {
  import opened Basics

  /** The contents of the FPU registers. */
  type Fpu = seq<bv8>

  class FpuSwitch {
    const finit: Fpu                    // what `finit` leaves
    const contexts: array<Fpu>          // fpu_context of every task
    const used: array<bool>             // bFpuUsed of every task
    var fpu: Fpu                        // the registers
    var ts: bool                        // CR0.TS
    var last: Option<nat>               // pLastTaskUsedFPU
    var pNow: nat
    ghost var alive: set<nat>           // tasks that exist and have not ended

    ghost predicate Valid()
      reads this, used
    {
      && contexts.Length == used.Length
      && (forall t :: t in alive ==> t < used.Length)
      && pNow in alive
      && (last.Some? ==> last.value in alive && used[last.value])
      && (!ts ==> last == Some(pNow))
    }

    /** The FPU that task t believes to have. */
    ghost function Private(t: nat): Fpu
      requires t < contexts.Length == used.Length
      reads this, contexts, used
    {
      if last == Some(t) then fpu
      else if used[t] then contexts[t]
      else finit
    }

    /** The private FPUs of all tasks that are alive. */
    ghost function View(): map<nat, Fpu>
      requires Valid()
      reads this, contexts, used
    {
      map t | t in alive :: Private(t)
    }

    constructor (n: nat, first: nat, finit: Fpu, garbage: Fpu)
      requires first < n
      ensures Valid() && alive == {first} && pNow == first && View() == map[first := finit]
      ensures this.finit == finit && contexts.Length == n && fresh(contexts) && fresh(used)
    {
      this.finit := finit;
      contexts := new Fpu[n](_ => garbage);
      used := new bool[n](_ => false);
      fpu := garbage;
      ts, last, pNow := true, None, first;
      alive := {first};
    }

    /** The part of scheduling that deals with the FPU: TS is set unless the new task used it last. */
    method SwitchTo(next: nat)
      requires Valid() && next in alive
      modifies this`ts, this`pNow
      ensures Valid() && pNow == next && View() == old(View())
      ensures ts <==> last != Some(next)
    {
      ts := Some(next) != last;
      pNow := next;
    }

    /** `ck_ExceptIntHandler07`, the device-not-available handler. */
    method DeviceNotAvailable()
      requires Valid()
      modifies this`ts, this`fpu, this`last, contexts, used
      ensures Valid() && !ts && View() == old(View()) && last == Some(pNow)
      ensures old(last) == Some(pNow) ==> fpu == old(fpu) && contexts[..] == old(contexts[..]) && used[..] == old(used[..])
      ensures forall t :: 0 <= t < contexts.Length && old(last) != Some(t) ==> contexts[t] == old(contexts[t])
    {
      ts := false;
      if last != Some(pNow) {
        if last.Some? {
          contexts[last.value] := fpu;
        }
        if used[pNow] {
          fpu := contexts[pNow];
        } else {
          fpu := finit;
          used[pNow] := true;
        }
        last := Some(pNow);
      }
    }

    /** An FPU instruction of the current task: it traps first when TS is set. */
    method Use(next: Fpu) returns (seen: Fpu)
      requires Valid()
      modifies this`ts, this`fpu, this`last, contexts, used
      ensures Valid() && seen == old(View())[pNow]
      ensures View() == old(View())[pNow := next]
      ensures !ts && last == Some(pNow) && fpu == next
      ensures !old(ts) ==> contexts[..] == old(contexts[..])
    {
      if ts {
        DeviceNotAvailable();
      }
      seen := fpu;
      fpu := next;
    }

    /** A new task starts without having used the FPU; its slot may have belonged to another task. */
    method Create(t: nat)
      requires Valid() && t < used.Length && t !in alive
      modifies this`alive, used
      ensures Valid() && alive == old(alive) + {t}
      ensures View() == old(View())[t := finit]
    {
      used[t] := false;
      alive := alive + {t};
    }

    /** Another task is ended: it no longer owns the FPU. */
    method EndOther(t: nat)
      requires Valid() && t in alive && t != pNow
      modifies this`last, this`alive
      ensures Valid() && alive == old(alive) - {t}
      ensures View() == old(View()) - {t}
      ensures last == if old(last) == Some(t) then None else old(last)
    {
      if last == Some(t) {
        last := None;
      }
      alive := alive - {t};
    }

    /** The current task ends and another one is scheduled. */
    method EndNow(next: nat)
      requires Valid() && next in alive && next != pNow
      modifies this`last, this`alive, this`ts, this`pNow
      ensures Valid() && pNow == next && alive == old(alive) - {old(pNow)}
      ensures View() == old(View()) - {old(pNow)}
      ensures ts <==> last != Some(next)
      ensures last == if old(last) == Some(old(pNow)) then None else old(last)
    {
      if last == Some(pNow) {
        last := None;
      }
      alive := alive - {pNow};
      ts := Some(next) != last;
      pNow := next;
    }

    /** A whole run: every use sees what the private FPU of its task would have shown. */
    method Run(ops: seq<Op>) returns (seen: seq<Fpu>)
      requires Valid() && RunAllowed(Spec(View(), pNow, []), ops, used.Length, finit)
      modifies this, contexts, used
      ensures Valid() && Spec(View(), pNow, seen) == Effects(Spec(old(View()), old(pNow), []), ops, finit)
    {
      seen := [];
      var i := 0;
      while i < |ops|
        invariant 0 <= i <= |ops| && Valid()
        invariant RunAllowed(Spec(View(), pNow, seen), ops[i..], used.Length, finit)
        invariant Effects(Spec(View(), pNow, seen), ops[i..], finit) == Effects(Spec(old(View()), old(pNow), []), ops, finit)
      {
        assert ops[i..][0] == ops[i] && ops[i..][1..] == ops[i + 1..];
        seen := Step(ops[i], seen);
        i := i + 1;
      }
    }

    method Step(op: Op, seen: seq<Fpu>) returns (seen': seq<Fpu>)
      requires Valid() && Allowed(Spec(View(), pNow, seen), op, used.Length)
      modifies this, contexts, used
      ensures Valid() && Spec(View(), pNow, seen') == Effect(Spec(old(View()), old(pNow), seen), op, finit)
    {
      seen' := seen;
      match op
      case Switch(next) => SwitchTo(next);
      case UseFpu(next) =>
        var s := Use(next);
        seen' := seen + [s];
      case NewTask(t) => Create(t);
      case End(t) => EndOther(t);
      case Exit(next) => EndNow(next);
    }
  }

  // ----- One private FPU per task -----

  datatype Op = Switch(next: nat) | UseFpu(value: Fpu) | NewTask(t: nat) | End(t: nat) | Exit(next: nat)

  /** The specification: a private FPU for every task, the current task, and what the uses saw. */
  datatype Spec = Spec(fpus: map<nat, Fpu>, now: nat, seen: seq<Fpu>)

  ghost predicate Allowed(s: Spec, op: Op, n: nat) {
    match op
    case Switch(next) => next in s.fpus
    case UseFpu(_) => s.now in s.fpus
    case NewTask(t) => t < n && t !in s.fpus
    case End(t) => t in s.fpus && t != s.now
    case Exit(next) => next in s.fpus && next != s.now
  }

  ghost function Effect(s: Spec, op: Op, finit: Fpu): Spec {
    match op
    case Switch(next) => s.(now := next)
    case UseFpu(value) => s.(fpus := s.fpus[s.now := value], seen := s.seen + [if s.now in s.fpus then s.fpus[s.now] else finit])
    case NewTask(t) => s.(fpus := s.fpus[t := finit])
    case End(t) => s.(fpus := s.fpus - {t})
    case Exit(next) => s.(fpus := s.fpus - {s.now}, now := next)
  }

  ghost function Effects(s: Spec, ops: seq<Op>, finit: Fpu): Spec
    decreases |ops|
  {
    if ops == [] then s else Effects(Effect(s, ops[0], finit), ops[1..], finit)
  }

  ghost predicate RunAllowed(s: Spec, ops: seq<Op>, n: nat, finit: Fpu)
    decreases |ops|
  {
    ops == [] || (Allowed(s, ops[0], n) && RunAllowed(Effect(s, ops[0], finit), ops[1..], n, finit))
  }

  /** The run neither uses the FPU in task t nor ends it. */
  ghost predicate Bystander(s: Spec, ops: seq<Op>, t: nat, finit: Fpu)
    decreases |ops|
  {
    ops == [] ||
    (!(s.now == t && (ops[0].UseFpu? || ops[0].Exit?)) && ops[0] != End(t)
      && Bystander(Effect(s, ops[0], finit), ops[1..], t, finit))
  }

  /** What a task left in its FPU is what it finds again, whatever the other tasks do in between. */
  lemma {:induction false} FindsWhatItLeft(s: Spec, value: Fpu, ops: seq<Op>, n: nat, finit: Fpu, t: nat)
    requires t in s.fpus && s.fpus[t] == value
    requires RunAllowed(s, ops, n, finit) && Bystander(s, ops, t, finit)
    requires Effects(s, ops, finit).now == t
    ensures var s' := Effect(Effects(s, ops, finit), UseFpu(finit), finit);
            |s'.seen| > 0 && s'.seen[|s'.seen| - 1] == value
    decreases |ops|
  {
    if ops != [] {
      FindsWhatItLeft(Effect(s, ops[0], finit), value, ops[1..], n, finit, t);
    }
  }
}
