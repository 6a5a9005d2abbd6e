/**
  The scheduler's choice of the next task.  `exec[i]` counts how often level i was chosen since it was
  last reset; read as a mixed-radix number it grows with every choice until it wraps, which gives
  every ready task a bound on how long it waits.
 */
module Scheduler {
  import opened Basics

  // ----- One choice -----

  /** One pass over the levels from level i on: the first level with count left is taken, exhausted ones are reset. */
  function Sweep(sizes: seq<nat>, exec: seq<nat>, i: nat): (r: (seq<nat>, Option<nat>))
    requires |sizes| == |exec| && i <= |exec|
    ensures |r.0| == |exec| && (r.1.Some? ==> r.1.value < |exec|)
    decreases |exec| - i
  {
    if i == |exec| then (exec, None)
    else if exec[i] < sizes[i] then (exec[i := exec[i] + 1], Some(i))
    else Sweep(sizes, exec[i := 0], i + 1)
  }

  /** Two passes: when the first one finds nothing it has reset every count. */
  function Choose(sizes: seq<nat>, exec: seq<nat>): (r: (seq<nat>, Option<nat>))
    requires |sizes| == |exec|
    ensures |r.0| == |exec| && (r.1.Some? ==> r.1.value < |exec|)
  {
    var (e, c) := Sweep(sizes, exec, 0);
    if c.Some? then (e, c) else Sweep(sizes, e, 0)
  }

  /** The first pass finds nothing: every level has used up its count. */
  predicate Wraps(sizes: seq<nat>, exec: seq<nat>)
    requires |sizes| == |exec|
  {
    Sweep(sizes, exec, 0).1.None?
  }

  /** Level j is the first one from i on with count left; lower ones are reset and j is counted. */
  ghost predicate Taken(sizes: seq<nat>, exec: seq<nat>, i: nat, exec': seq<nat>, j: nat)
    requires |sizes| == |exec|
  {
    && i <= j < |exec| == |exec'|
    && exec[j] < sizes[j]
    && (forall l :: i <= l < j ==> exec[l] >= sizes[l] && exec'[l] == 0)
    && exec'[j] == exec[j] + 1
    && (forall l :: 0 <= l < |exec| && (l < i || l > j) ==> exec'[l] == exec[l])
  }

  lemma {:induction false} SweepTakes(sizes: seq<nat>, exec: seq<nat>, i: nat)
    requires |sizes| == |exec| && i <= |exec|
    ensures var (e, c) := Sweep(sizes, exec, i);
            match c
            case Some(j) => Taken(sizes, exec, i, e, j)
            case None =>
              (forall l :: i <= l < |exec| ==> exec[l] >= sizes[l] && e[l] == 0) && e[..i] == exec[..i]
    decreases |exec| - i
  {
    if i < |exec| && exec[i] >= sizes[i] {
      SweepTakes(sizes, exec[i := 0], i + 1);
      var (e, c) := Sweep(sizes, exec[i := 0], i + 1);
      if c.None? {
        assert e[i] == e[..i + 1][i] == 0;
        assert e[..i] == e[..i + 1][..i] == exec[..i];
      }
    }
  }

  lemma ChooseTakes(sizes: seq<nat>, exec: seq<nat>)
    requires |sizes| == |exec|
    ensures var (e, c) := Choose(sizes, exec);
            var from := if Wraps(sizes, exec) then seq(|exec|, _ => 0) else exec;
            && (Wraps(sizes, exec) ==> forall l :: 0 <= l < |exec| ==> exec[l] >= sizes[l])
            && (c.Some? ==> Taken(sizes, from, 0, e, c.value))
            && (c.None? <==> forall l :: 0 <= l < |exec| ==> sizes[l] == 0)
  {
    SweepTakes(sizes, exec, 0);
    var (e, c) := Sweep(sizes, exec, 0);
    if c.None? {
      assert e == seq(|exec|, _ => 0);
      SweepTakes(sizes, e, 0);
    }
  }

  /** When nothing is ready every count is 0 afterwards. */
  lemma NoneResets(sizes: seq<nat>, exec: seq<nat>)
    requires |sizes| == |exec| && forall l :: 0 <= l < |exec| ==> sizes[l] == 0
    ensures Choose(sizes, exec) == (seq(|exec|, _ => 0), None)
  {
    ChooseTakes(sizes, exec);
    SweepTakes(sizes, exec, 0);
    var e := Sweep(sizes, exec, 0).0;
    SweepTakes(sizes, e, 0);
    var e' := Sweep(sizes, e, 0).0;
    assert e' == seq(|exec|, _ => 0);
  }

  // ----- The counts as a mixed-radix number -----

  /** The weight of digit i when digit l counts 0 .. bounds[l]. */
  function Weight(bounds: seq<nat>, i: nat): (w: nat)
    requires i <= |bounds|
    ensures w > 0
  {
    if i == 0 then 1 else Weight(bounds, i - 1) * (bounds[i - 1] + 1)
  }

  function Value(bounds: seq<nat>, exec: seq<nat>, i: nat): nat
    requires i <= |bounds| == |exec|
  {
    if i == 0 then 0 else Value(bounds, exec, i - 1) + exec[i - 1] * Weight(bounds, i - 1)
  }

  ghost predicate Digits(bounds: seq<nat>, exec: seq<nat>) {
    |bounds| == |exec| && forall l :: 0 <= l < |exec| ==> exec[l] <= bounds[l]
  }

  lemma {:induction false} ValueBelow(bounds: seq<nat>, exec: seq<nat>, i: nat)
    requires Digits(bounds, exec) && i <= |exec|
    ensures Value(bounds, exec, i) < Weight(bounds, i)
  {
    if i > 0 {
      ValueBelow(bounds, exec, i - 1);
      var w := Weight(bounds, i - 1);
      MulMono(exec[i - 1], bounds[i - 1], w);
      Distribute(w, bounds[i - 1]);
    }
  }

  lemma Distribute(w: nat, b: nat)
    ensures w * (b + 1) == b * w + w
  {
  }

  lemma NextMultiple(b: nat, w: nat)
    ensures (b + 1) * w == b * w + w
  {
  }

  lemma {:induction false} ValueZero(bounds: seq<nat>, exec: seq<nat>, i: nat)
    requires i <= |bounds| == |exec| && forall l :: 0 <= l < i ==> exec[l] == 0
    ensures Value(bounds, exec, i) == 0
  {
    if i > 0 {
      ValueZero(bounds, exec, i - 1);
    }
  }

  /** Taking level j from the bottom makes the number larger. */
  lemma {:induction false} TakenIncreases(bounds: seq<nat>, sizes: seq<nat>, exec: seq<nat>, exec': seq<nat>, j: nat, i: nat)
    requires Digits(bounds, exec) && |sizes| == |exec| && Taken(sizes, exec, 0, exec', j)
    requires j < i <= |exec|
    ensures Value(bounds, exec', i) > Value(bounds, exec, i)
    decreases i
  {
    hide Weight;
    if i == j + 1 {
      ValueZero(bounds, exec', j);
      ValueBelow(bounds, exec, j);
      NextMultiple(exec[j], Weight(bounds, j));
    } else {
      TakenIncreases(bounds, sizes, exec, exec', j, i - 1);
    }
  }

  // ----- The run queues under scheduling -----

  /** The ready queues, the counts, and the running task with its level; no task appears or disappears. */
  datatype Queues = Queues(ready: seq<seq<nat>>, exec: seq<nat>, now: nat, level: nat)

  function Sizes(ready: seq<seq<nat>>): (s: seq<nat>)
    ensures |s| == |ready| && forall i :: 0 <= i < |s| ==> s[i] == |ready[i]|
  {
    seq(|ready|, i requires 0 <= i < |ready| => |ready[i]|)
  }

  ghost predicate WellShaped(s: Queues) {
    |s.exec| == |s.ready| && s.level < |s.ready|
  }

  /** The number of runnable tasks of each level, the running one included. */
  function Bounds(s: Queues): (b: seq<nat>)
    requires s.level < |s.ready|
    ensures |b| == |s.ready|
    ensures forall i :: 0 <= i < |b| ==> b[i] == |s.ready[i]| + (if i == s.level then 1 else 0)
  {
    seq(|s.ready|, i requires 0 <= i < |s.ready| => |s.ready[i]| + (if i == s.level then 1 else 0))
  }

  ghost predicate InRange(s: Queues) {
    WellShaped(s) && Digits(Bounds(s), s.exec)
  }

  /** One scheduling step: the first task of the chosen level runs, the old one goes to the back of its own level. */
  function Next(s: Queues): Queues
    requires WellShaped(s)
  {
    var (e, c) := Choose(Sizes(s.ready), s.exec);
    if c.None? then s.(exec := e)
    else
      var i := c.value;
      if s.ready[i] == [] then s
      else
        var popped := s.ready[i := s.ready[i][1..]];
        Queues(popped[s.level := popped[s.level] + [s.now]], e, s.ready[i][0], i)
  }

  /** The level the next step takes, if any task is ready. */
  function Chosen(s: Queues): Option<nat>
    requires WellShaped(s)
  {
    Choose(Sizes(s.ready), s.exec).1
  }

  lemma StepFacts(s: Queues)
    requires InRange(s) && Chosen(s).Some?
    ensures var i := Chosen(s).value;
            && s.ready[i] != [] && InRange(Next(s))
            && Bounds(Next(s)) == Bounds(s)
            && Next(s).now == s.ready[i][0] && Next(s).level == i
            && |Next(s).ready[i]| == |s.ready[i]| - 1 + (if i == s.level then 1 else 0)
            && (forall l :: 0 <= l < |s.ready| && l != i ==>
                  |Next(s).ready[l]| == |s.ready[l]| + (if l == s.level then 1 else 0))
  {
    ChooseTakes(Sizes(s.ready), s.exec);
    assert Bounds(Next(s)) == Bounds(s);
  }

  ghost function Radix(s: Queues): nat
    requires s.level < |s.ready|
  {
    Weight(Bounds(s), |s.ready|)
  }

  ghost function Number(s: Queues): nat
    requires WellShaped(s)
  {
    Value(Bounds(s), s.exec, |s.ready|)
  }

  ghost predicate WrapsNow(s: Queues)
    requires WellShaped(s)
  {
    Wraps(Sizes(s.ready), s.exec)
  }

  /** Every step that does not wrap makes the number larger; it stays below the radix. */
  lemma NumberIncreases(s: Queues)
    requires InRange(s) && Chosen(s).Some?
    ensures Number(s) < Radix(s) && Radix(Next(s)) == Radix(s)
    ensures !WrapsNow(s) ==> Number(Next(s)) > Number(s)
    ensures WrapsNow(s) ==> Number(Next(s)) > 0
  {
    StepFacts(s);
    ValueBelow(Bounds(s), s.exec, |s.ready|);
    var sizes, b := Sizes(s.ready), Bounds(s);
    ChooseTakes(sizes, s.exec);
    var from := if WrapsNow(s) then seq(|s.exec|, _ => 0) else s.exec;
    TakenIncreases(b, sizes, from, Next(s).exec, Chosen(s).value, |s.ready|);
  }

  // ----- No starvation -----

  /** 0 when level i is served before the next wrap, 1 when it has to wait for it. */
  ghost function Credit(s: Queues, i: nat): nat
    requires WellShaped(s) && i < |s.ready|
  {
    if s.exec[i] < |s.ready[i]| then 0 else 1
  }

  /** A count of the steps a task at position p of level i may still have to wait. */
  ghost function Patience(s: Queues, i: nat, p: nat): int
    requires WellShaped(s) && i < |s.ready|
  {
    (p + Credit(s, i)) * Radix(s) + (Radix(s) - Number(s))
  }

  /** The counts after a step, level by level. */
  lemma ExecAfter(s: Queues, i: nat)
    requires InRange(s) && Chosen(s).Some? && i < |s.ready|
    ensures |Next(s).exec| == |s.exec|
    ensures var (j, e') := (Chosen(s).value, Next(s).exec);
            && (WrapsNow(s) ==> s.exec[i] >= |s.ready[i]| && (i != j ==> e'[i] == 0))
            && (!WrapsNow(s) && i < j ==> e'[i] == 0)
            && (!WrapsNow(s) && i > j ==> e'[i] == s.exec[i])
            && (!WrapsNow(s) && i == j ==> s.exec[i] < |s.ready[i]|)
  {
    ChooseTakes(Sizes(s.ready), s.exec);
    StepFacts(s);
  }

  /** A ready task gets the processor next, or stays in its queue without moving back. */
  lemma QueueMoves(s: Queues, i: nat, p: nat) returns (p': nat)
    requires InRange(s) && Chosen(s).Some? && i < |s.ready| && p < |s.ready[i]|
    ensures InRange(Next(s)) && |Next(s).ready| == |s.ready|
    ensures Next(s).now == s.ready[i][p] ||
            (p' < |Next(s).ready[i]| && Next(s).ready[i][p'] == s.ready[i][p])
    ensures Next(s).now == s.ready[i][p] ||
            (p' + Credit(Next(s), i) <= p + Credit(s, i) &&
             (WrapsNow(s) ==> Credit(s, i) == 1 && p' + Credit(Next(s), i) <= p))
  {
    StepFacts(s);
    ExecAfter(s, i);
    hide Choose, Wraps, Bounds, Digits;
    p' := if Chosen(s).value == i && p > 0 then p - 1 else p;
  }

  /** A ready task gets the processor next, or its patience shrinks. */
  lemma PatienceShrinks(s: Queues, i: nat, p: nat) returns (p': nat)
    requires InRange(s) && i < |s.ready| && p < |s.ready[i]|
    ensures Chosen(s).Some? && InRange(Next(s)) && |Next(s).ready| == |s.ready|
    ensures Next(s).now == s.ready[i][p] ||
            (p' < |Next(s).ready[i]| && Next(s).ready[i][p'] == s.ready[i][p] && Patience(Next(s), i, p') < Patience(s, i, p))
  {
    ChooseTakes(Sizes(s.ready), s.exec);
    assert Sizes(s.ready)[i] > 0;
    p' := QueueMoves(s, i, p);
    NumberIncreases(s);
    hide Choose, Wraps, Bounds, Digits, Next, Credit, Radix, Number;
    if Next(s).now != s.ready[i][p] {
      PatienceArithmetic(p, Credit(s, i), p', Credit(Next(s), i), Radix(s), Number(s), Number(Next(s)), WrapsNow(s));
    }
  }

  lemma PatienceArithmetic(p: nat, c: nat, p': nat, c': nat, m: nat, v: nat, v': nat, wraps: bool)
    requires v < m
    requires wraps ==> c == 1 && v' > 0
    requires !wraps ==> v' > v
    requires p' + c' <= p + c && (wraps ==> p' + c' <= p)
    ensures (p' + c') * m + (m - v') < (p + c) * m + (m - v)
  {
    MulMono(p' + c', if wraps then p else p + c, m);
    if wraps {
      Distribute(m, p);
    }
  }

  ghost function After(s: Queues, m: nat): Queues
    requires WellShaped(s)
  {
    if m == 0 then s else
      var t := After(s, m - 1);
      if WellShaped(t) then Next(t) else t
  }

  lemma {:induction false} AfterFirst(s: Queues, m: nat)
    requires WellShaped(s) && WellShaped(Next(s))
    ensures After(s, m + 1) == After(Next(s), m)
  {
    if m > 0 {
      AfterFirst(s, m - 1);
    }
  }

  lemma {:induction false} RunsWithin(s: Queues, i: nat, p: nat) returns (m: nat)
    requires InRange(s) && i < |s.ready| && p < |s.ready[i]|
    ensures m <= Patience(s, i, p) && After(s, m).now == s.ready[i][p]
    decreases Patience(s, i, p)
  {
    var p' := PatienceShrinks(s, i, p);
    NumberIncreases(s);
    if Next(s).now == s.ready[i][p] {
      m := 1;
      assert After(s, 1) == Next(s) by { assert After(s, 0) == s; }
      MulMono(0, p + Credit(s, i), Radix(s));
    } else {
      PatiencePositive(Next(s), i, p');
      var k := RunsWithin(Next(s), i, p');
      m := k + 1;
      AfterFirst(s, k);
    }
  }

  lemma PatiencePositive(s: Queues, i: nat, p: nat)
    requires InRange(s) && i < |s.ready|
    ensures Patience(s, i, p) > 0
  {
    ValueBelow(Bounds(s), s.exec, |s.ready|);
    MulMono(0, p + Credit(s, i), Radix(s));
  }

  lemma RunsWithinBound(s: Queues, i: nat, p: nat) returns (m: nat)
    requires InRange(s) && i < |s.ready| && p < |s.ready[i]|
    ensures m <= (p + 2) * Radix(s) && After(s, m).now == s.ready[i][p]
  {
    m := RunsWithin(s, i, p);
    var c := Credit(s, i);
    MulMono(p + c, p + 1, Radix(s));
    Distribute(Radix(s), p + 1);
  }

  // ----- Every level is served between two wraps -----

  /** With no task ready a step only resets the counts. */
  lemma IdleStep(s: Queues)
    requires InRange(s) && Chosen(s).None?
    ensures InRange(Next(s)) && Next(s).ready == s.ready && Chosen(Next(s)).None?
  {
    ChooseTakes(Sizes(s.ready), s.exec);
    SweepTakes(Sizes(s.ready), s.exec, 0);
    var e := Sweep(Sizes(s.ready), s.exec, 0).0;
    SweepTakes(Sizes(s.ready), e, 0);
    assert Bounds(Next(s)) == Bounds(s);
    ChooseTakes(Sizes(s.ready), Next(s).exec);
  }

  lemma {:induction false} AfterInv(s: Queues, m: nat)
    requires InRange(s)
    ensures InRange(After(s, m)) && |After(s, m).ready| == |s.ready|
  {
    if m > 0 {
      AfterInv(s, m - 1);
      var t := After(s, m - 1);
      if Chosen(t).Some? { StepFacts(t); } else { IdleStep(t); }
    }
  }

  /** If a task is ready after m steps, every step before found one too. */
  lemma {:induction false} AlwaysFound(s: Queues, m: nat, k: nat, i: nat)
    requires InRange(s) && k < m && i < |s.ready| && InRange(After(s, m)) && |After(s, m).ready| == |s.ready|
    requires After(s, m).ready[i] != []
    ensures InRange(After(s, k)) && Chosen(After(s, k)).Some?
    decreases m
  {
    hide Chosen, Next, After;
    AfterInv(s, k);
    AfterInv(s, m - 1);
    var t := After(s, m - 1);
    AfterStep(s, m);
    NoneReady(t, i);
    if Chosen(t).None? {
      IdleStep(t);
    } else if k < m - 1 {
      SomeReady(t);
      AlwaysFound(s, m - 1, k, Chosen(t).value);
    }
  }

  lemma AfterStep(s: Queues, m: nat)
    requires InRange(s) && m > 0 && InRange(After(s, m - 1))
    ensures After(s, m) == Next(After(s, m - 1))
  {
  }

  /** Step k of the run chooses level i. */
  ghost predicate ServedAt(s: Queues, k: nat, i: nat)
    requires WellShaped(s)
  {
    InRange(After(s, k)) && Chosen(After(s, k)) == Some(i)
  }

  lemma NoneReady(s: Queues, i: nat)
    requires InRange(s) && i < |s.ready|
    ensures Chosen(s).None? ==> s.ready[i] == []
  {
    ChooseTakes(Sizes(s.ready), s.exec);
    assert Sizes(s.ready)[i] == |s.ready[i]|;
  }

  lemma SomeReady(s: Queues)
    requires InRange(s) && Chosen(s).Some?
    ensures Chosen(s).value < |s.ready| && s.ready[Chosen(s).value] != []
  {
    ChooseTakes(Sizes(s.ready), s.exec);
  }

  /** A count rises only when its level is chosen. */
  lemma {:induction false} RisesOnlyWhenChosen(s: Queues, m: nat, i: nat)
    requires InRange(s) && i < |s.ready|
    requires forall k: nat :: k < m ==> !ServedAt(s, k, i)
    ensures InRange(After(s, m)) && |After(s, m).ready| == |s.ready|
    ensures After(s, m).exec[i] <= s.exec[i]
  {
    if m > 0 {
      RisesOnlyWhenChosen(s, m - 1, i);
      AfterInv(s, m);
      var t := After(s, m - 1);
      assert !ServedAt(s, m - 1, i);
      AfterStep(s, m);
      hide After, Next;
      if Chosen(t).Some? {
        ExecAfter(t, i);
      } else {
        IdleExec(t, i);
      }
    }
  }

  lemma IdleExec(s: Queues, i: nat)
    requires InRange(s) && Chosen(s).None? && i < |s.ready|
    ensures i < |Next(s).exec| && Next(s).exec[i] == 0
  {
    SweepTakes(Sizes(s.ready), s.exec, 0);
    var e := Sweep(Sizes(s.ready), s.exec, 0).0;
    SweepTakes(Sizes(s.ready), e, 0);
  }

  lemma ServedBetweenWrapsInv(s: Queues, m: nat, i: nat)
    requires InRange(s) && WrapsNow(s) && m > 0 && i < |s.ready|
    requires InRange(After(s, m)) && |After(s, m).ready| == |s.ready|
    requires WrapsNow(After(s, m)) && After(s, m).ready[i] != []
    ensures exists k: nat :: k < m && ServedAt(s, k, i)
  {
    AlwaysFound(s, m, 0, i);
    assert After(s, 0) == s;
    if Chosen(s) == Some(i) {
      assert ServedAt(s, 0, i);
    } else {
      ExecAfter(s, i);
      StepFacts(s);
      ServedAfterReset(s, m, i);
    }
  }

  lemma UsedUpAtWrap(s: Queues, i: nat)
    requires InRange(s) && WrapsNow(s) && i < |s.ready|
    ensures i < |s.exec| && s.exec[i] >= |s.ready[i]|
  {
    ChooseTakes(Sizes(s.ready), s.exec);
  }

  lemma ServedAfterReset(s: Queues, m: nat, i: nat)
    requires InRange(s) && m > 0 && i < |s.ready| && InRange(Next(s)) && |Next(s).ready| == |s.ready|
    requires Next(s).exec[i] == 0
    requires InRange(After(s, m)) && |After(s, m).ready| == |s.ready|
    requires WrapsNow(After(s, m)) && After(s, m).ready[i] != []
    ensures exists k: nat :: k < m && ServedAt(s, k, i)
  {
    hide Chosen, Next, After, WrapsNow, ServedAt, Bounds, Digits;
    AfterFirst(s, m - 1);
    UsedUpAtWrap(After(s, m), i);
    if k: nat :| k < m - 1 && ServedAt(Next(s), k, i) {
      ServedLater(s, k, i);
      assert k + 1 < m && ServedAt(s, k + 1, i);
    } else {
      RisesOnlyWhenChosen(Next(s), m - 1, i);
    }
  }

  lemma ServedLater(s: Queues, k: nat, i: nat)
    requires WellShaped(s) && WellShaped(Next(s)) && ServedAt(Next(s), k, i)
    ensures ServedAt(s, k + 1, i)
  {
    AfterFirst(s, k);
  }

  // ----- Counts left over from tasks that are gone -----

  /** A count above its bound acts like one at its bound. */
  function Clamp(exec: seq<nat>, bounds: seq<nat>): (e: seq<nat>)
    requires |exec| == |bounds|
    ensures |e| == |exec|
    ensures forall l :: 0 <= l < |e| ==> e[l] == if exec[l] < bounds[l] then exec[l] else bounds[l]
  {
    seq(|exec|, l requires 0 <= l < |exec| => if exec[l] < bounds[l] then exec[l] else bounds[l])
  }

  function Clamped(s: Queues): Queues
    requires WellShaped(s)
  {
    s.(exec := Clamp(s.exec, Bounds(s)))
  }

  lemma {:induction false} SweepClamps(sizes: seq<nat>, exec: seq<nat>, bounds: seq<nat>, i: nat)
    requires |sizes| == |exec| == |bounds| && i <= |exec|
    requires forall l :: 0 <= l < |sizes| ==> sizes[l] <= bounds[l]
    ensures var ((e, c), (e', c')) := (Sweep(sizes, exec, i), Sweep(sizes, Clamp(exec, bounds), i));
            c == c' && e' == Clamp(e, bounds)
    decreases |exec| - i
  {
    var k := Clamp(exec, bounds);
    if i < |exec| {
      if exec[i] < sizes[i] {
        assert k[i := k[i] + 1] == Clamp(exec[i := exec[i] + 1], bounds);
      } else {
        assert k[i := 0] == Clamp(exec[i := 0], bounds);
        SweepClamps(sizes, exec[i := 0], bounds, i + 1);
      }
    }
  }

  lemma ChooseClamps(sizes: seq<nat>, exec: seq<nat>, bounds: seq<nat>)
    requires |sizes| == |exec| == |bounds|
    requires forall l :: 0 <= l < |sizes| ==> sizes[l] <= bounds[l]
    ensures Choose(sizes, Clamp(exec, bounds)).0 == Clamp(Choose(sizes, exec).0, bounds)
    ensures Choose(sizes, Clamp(exec, bounds)).1 == Choose(sizes, exec).1
    ensures Wraps(sizes, Clamp(exec, bounds)) == Wraps(sizes, exec)
  {
    hide Sweep, Clamp;
    SweepClamps(sizes, exec, bounds, 0);
    SweepClamps(sizes, Sweep(sizes, exec, 0).0, bounds, 0);
  }

  lemma NextBounds(s: Queues)
    requires WellShaped(s)
    ensures WellShaped(Next(s)) && |Next(s).ready| == |s.ready| && Bounds(Next(s)) == Bounds(s)
  {
    hide Choose;
    assert Bounds(Next(s)) == Bounds(s);
  }

  /** Clamping commutes with scheduling, so it changes neither choices nor wraps. */
  lemma ClampCommutes(s: Queues)
    requires WellShaped(s)
    ensures InRange(Clamped(s)) && WellShaped(Next(s)) && |Next(s).ready| == |s.ready|
    ensures Next(Clamped(s)) == Clamped(Next(s)) && Next(Clamped(s)).now == Next(s).now
    ensures Chosen(Clamped(s)) == Chosen(s) && WrapsNow(Clamped(s)) == WrapsNow(s)
  {
    hide Choose, Wraps, Clamp;
    ChooseClamps(Sizes(s.ready), s.exec, Bounds(s));
    assert Bounds(Clamped(s)) == Bounds(s);
    NextBounds(s);
    hide Bounds, Sizes;
  }

  lemma {:induction false} ClampAfter(s: Queues, m: nat)
    requires WellShaped(s)
    ensures WellShaped(After(s, m)) && |After(s, m).ready| == |s.ready|
    ensures After(Clamped(s), m) == Clamped(After(s, m)) && InRange(Clamped(s))
  {
    if m > 0 {
      ClampAfter(s, m - 1);
      ClampCommutes(After(s, m - 1));
    }
    ClampCommutes(s);
  }

  /**
    No starvation: with a fixed set of runnable tasks, the task at position p of any ready queue runs
    within (p + 2) times the product of (tasks of a level + 1) scheduling steps, whatever the counts
    are to begin with.
   */
  lemma NoStarvation(s: Queues, i: nat, p: nat) returns (m: nat)
    requires WellShaped(s) && i < |s.ready| && p < |s.ready[i]|
    ensures m <= (p + 2) * Radix(s) && After(s, m).now == s.ready[i][p]
  {
    ClampCommutes(s);
    m := RunsWithinBound(Clamped(s), i, p);
    ClampAfter(s, m);
    assert Bounds(Clamped(s)) == Bounds(s);
  }

  /** Step k of the run chooses level i. */
  ghost predicate ChosenAt(s: Queues, k: nat, i: nat)
    requires WellShaped(s)
  {
    WellShaped(After(s, k)) && Chosen(After(s, k)) == Some(i)
  }

  /** From one wrap to a later one, every level that still has a ready task has been chosen. */
  lemma ServedBetweenWraps(s: Queues, m: nat, i: nat)
    requires WellShaped(s) && WrapsNow(s) && m > 0 && i < |s.ready|
    requires WellShaped(After(s, m)) && |After(s, m).ready| == |s.ready|
    requires WrapsNow(After(s, m)) && After(s, m).ready[i] != []
    ensures exists k: nat :: k < m && ChosenAt(s, k, i)
  {
    ClampCommutes(s);
    ClampAfter(s, m);
    ClampCommutes(After(s, m));
    ServedBetweenWrapsInv(Clamped(s), m, i);
    var k: nat :| k < m && ServedAt(Clamped(s), k, i);
    ClampAfter(s, k);
    ClampCommutes(After(s, k));
    assert ChosenAt(s, k, i);
  }

  /** Every step either wraps or makes the number of the clamped counts larger. */
  lemma NumberIncreasesAlways(s: Queues)
    requires WellShaped(s) && Chosen(s).Some?
    ensures WellShaped(Next(s)) && WellShaped(Clamped(s)) && WellShaped(Clamped(Next(s)))
    ensures Number(Clamped(s)) < Radix(s) && Radix(Next(s)) == Radix(s)
    ensures !WrapsNow(s) ==> Number(Clamped(Next(s))) > Number(Clamped(s))
  {
    ClampCommutes(s);
    assert Bounds(Clamped(s)) == Bounds(s) && Bounds(Clamped(Next(s))) == Bounds(Next(s));
    NumberIncreases(Clamped(s));
  }
}
