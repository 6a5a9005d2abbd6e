/**
  The hit-key protocol of the terminal: keyboard input puts keys into a queue and posts an event, one
  reader waits for the event and takes a key.  Tasks interleave between any two semaphore or queue
  operations; the queue itself is only touched inside the terminal's mutex.
 */
module HitKeys {
  import opened CircularQueue

  /** What a writing task uses the terminal for: handing in a key, or anything else under the mutex. */
  datatype Job = Input(key: uint8) | Other

  datatype Writer = Idle | Enter(job: Job) | Put(key: uint8) | Post | Leave

  datatype Reader = AwaitHit | AwaitMutex | Take | Test | PostAgain | Done

  /** A semaphore is 0 when it can be entered.  `accepted` and `returned` record the keys put and taken. */
  datatype State = State(mutex: nat, hit: nat, queue: seq<uint8>, capacity: nat,
                         writers: map<nat, Writer>, reader: Reader,
                         accepted: seq<uint8>, returned: seq<uint8>)

  datatype Actor = Writing(task: nat, job: Job) | Reading

  ghost function Initial(capacity: nat, tasks: set<nat>): State {
    State(0, 1, [], capacity, map t | t in tasks :: Idle, AwaitHit, [], [])
  }

  /** One step of an actor; `job` is what an idle writer turns to. */
  ghost function Step(s: State, a: Actor): (r: State)
    requires a.Writing? ==> a.task in s.writers
    ensures r.writers.Keys == s.writers.Keys && r.capacity == s.capacity
  {
    match a
    case Reading => ReaderStep(s)
    case Writing(t, job) => WriterStep(s, t, job)
  }

  ghost function WriterStep(s: State, t: nat, job: Job): State
    requires t in s.writers
  {
    match s.writers[t]
    case Idle => At(s, t, Enter(job))
    case Enter(todo) =>
      if s.mutex == 0 then At(s.(mutex := 1), t, if todo.Input? then Put(todo.key) else Leave) else s
    case Put(key) =>
      At(if |s.queue| < s.capacity then s.(queue := s.queue + [key], accepted := s.accepted + [key]) else s, t, Post)
    case Post => At(s.(hit := 0), t, Leave)
    case Leave => At(s.(mutex := 0), t, Idle)
  }

  ghost function ReaderStep(s: State): State {
    match s.reader
    case AwaitHit => if s.hit == 0 then s.(hit := 1, reader := AwaitMutex) else s
    case AwaitMutex => if s.mutex == 0 then s.(mutex := 1, reader := Take) else s
    case Take =>
      if s.queue == [] then s.(returned := s.returned + [0], reader := Test)
      else s.(queue := s.queue[1..], returned := s.returned + [s.queue[0]], reader := Test)
    case Test => s.(reader := if s.queue != [] then PostAgain else Done)
    case PostAgain => s.(hit := 0, reader := Done)
    case Done => s.(mutex := 0, reader := AwaitHit)
  }

  ghost function At(s: State, t: nat, w: Writer): State {
    s.(writers := s.writers[t := w])
  }

  // ----- The invariant -----

  ghost predicate Inside(w: Writer) {
    w.Put? || w.Post? || w.Leave?
  }

  ghost predicate ReaderInside(r: Reader) {
    r.Take? || r.Test? || r.PostAgain? || r.Done?
  }

  /** A key is in the queue and its event is about to be posted. */
  ghost predicate Posting(s: State) {
    exists t :: t in s.writers && s.writers[t].Post?
  }

  ghost predicate Exclusive(s: State) {
    && (forall t, u :: t in s.writers && u in s.writers && Inside(s.writers[t]) && Inside(s.writers[u]) ==> t == u)
    && (ReaderInside(s.reader) ==> s.mutex != 0 && forall t :: t in s.writers ==> !Inside(s.writers[t]))
    && (s.mutex == 0 ==> forall t :: t in s.writers ==> !Inside(s.writers[t]))
  }

  /** How many keys there must be for the event to be posted, or about to be. */
  ghost function Owed(r: Reader): nat {
    match r
    case AwaitMutex => 2
    case Take => 2
    case _ => 1
  }

  ghost predicate Events(s: State) {
    && (s.hit == 0 || Posting(s) ==> Owed(s.reader) <= |s.queue|)
    && (s.hit == 0 && Posting(s) ==> 2 <= |s.queue|)
    && (s.reader.AwaitMutex? || s.reader.Take? || s.reader.PostAgain? ==> s.queue != [])
    && ((s.reader.AwaitHit? || s.reader.Done?) && s.queue != [] ==> s.hit == 0 || Posting(s))
  }

  ghost predicate Inv(s: State) {
    && Exclusive(s) && Events(s)
    && |s.queue| <= s.capacity && s.accepted == s.returned + s.queue
  }

  lemma InitialInv(capacity: nat, tasks: set<nat>)
    ensures Inv(Initial(capacity, tasks))
  {
  }

  lemma WriterExclusive(s: State, t: nat, job: Job)
    requires Exclusive(s) && t in s.writers
    ensures Exclusive(WriterStep(s, t, job))
  {
    var after := WriterStep(s, t, job);
    assert forall u :: u in s.writers && u != t ==> after.writers[u] == s.writers[u];
  }

  /** Only a writer that puts starts posting, and only one that posts ends it. */
  lemma WriterPosting(s: State, t: nat, job: Job)
    requires Exclusive(s) && t in s.writers
    ensures Posting(WriterStep(s, t, job)) == (s.writers[t].Put? || (Posting(s) && !s.writers[t].Post?))
  {
    var after := WriterStep(s, t, job);
    assert forall u :: u in s.writers && u != t ==> after.writers[u] == s.writers[u];
    assert s.writers[t].Put? ==> after.writers[t].Post?;
    if Posting(s) && !s.writers[t].Post? {
      var u :| u in s.writers && s.writers[u].Post?;
      assert u in after.writers && after.writers[u].Post?;
    }
  }

  lemma WriterInv(s: State, t: nat, job: Job)
    requires Inv(s) && s.capacity >= 2 && t in s.writers
    ensures Inv(WriterStep(s, t, job))
  {
    WriterExclusive(s, t, job);
    WriterPosting(s, t, job);
    assert ReaderInside(s.reader) ==> !Inside(s.writers[t]);
    assert s.writers[t].Post? ==> Posting(s);
    hide Exclusive, Posting;
  }

  lemma ReaderInv(s: State)
    requires Inv(s)
    ensures Inv(ReaderStep(s))
  {
    assert ReaderStep(s).writers == s.writers;
    assert Posting(ReaderStep(s)) == Posting(s);
    if s.reader.Take? {
      assert s.queue == [s.queue[0]] + s.queue[1..];
    }
  }

  // ----- Whole interleavings -----

  ghost predicate IsRun(s: State, actors: seq<Actor>) {
    forall i :: 0 <= i < |actors| && actors[i].Writing? ==> actors[i].task in s.writers
  }

  ghost function Final(s: State, actors: seq<Actor>): (r: State)
    requires IsRun(s, actors)
    ensures r.writers.Keys == s.writers.Keys && r.capacity == s.capacity
    decreases |actors|
  {
    if actors == [] then s else Final(Step(s, actors[0]), actors[1..])
  }

  lemma {:induction false} RunInv(s: State, actors: seq<Actor>)
    requires Inv(s) && s.capacity >= 2 && IsRun(s, actors)
    ensures Inv(Final(s, actors))
    decreases |actors|
  {
    if actors != [] {
      match actors[0] {
        case Reading => ReaderInv(s);
        case Writing(t, job) => WriterInv(s, t, job);
      }
      RunInv(Step(s, actors[0]), actors[1..]);
    }
  }

  /**
    Under every interleaving the keys taken are the keys accepted, once each and in order, the reader
    never takes from an empty queue, and it waits for the event only while the queue is empty or the
    event is about to be posted.
   */
  lemma NoLostWakeUp(capacity: nat, tasks: set<nat>, actors: seq<Actor>)
    requires capacity >= 2 && IsRun(Initial(capacity, tasks), actors)
    ensures var s := Final(Initial(capacity, tasks), actors);
      && s.accepted == s.returned + s.queue
      && (s.reader.Take? ==> s.queue != [])
      && (s.reader.AwaitHit? && s.hit != 0 ==> s.queue == [] || Posting(s))
  {
    InitialInv(capacity, tasks);
    RunInv(Initial(capacity, tasks), actors);
  }

  lemma {:induction false} FinalAppend(s: State, first: seq<Actor>, second: seq<Actor>)
    requires IsRun(s, first) && IsRun(s, second)
    ensures IsRun(s, first + second) && Final(s, first + second) == Final(Final(s, first), second)
    decreases |first|
  {
    if first == [] {
      assert first + second == second;
    } else {
      assert (first + second)[1..] == first[1..] + second;
      FinalAppend(Step(s, first[0]), first[1..], second);
    }
  }

  /** n steps of the same actor. */
  ghost function Again(s: State, a: Actor, n: nat): (r: State)
    requires a.Writing? ==> a.task in s.writers
    ensures r.writers.Keys == s.writers.Keys
    decreases n
  {
    if n == 0 then s else Again(Step(s, a), a, n - 1)
  }

  ghost function Turns(a: Actor, n: nat): seq<Actor> {
    seq(n, _ => a)
  }

  lemma {:induction false} FinalAgain(s: State, a: Actor, n: nat)
    requires a.Writing? ==> a.task in s.writers
    ensures IsRun(s, Turns(a, n)) && Final(s, Turns(a, n)) == Again(s, a, n)
    decreases n
  {
    hide Step;
    if n > 0 {
      assert Turns(a, n)[1..] == Turns(a, n - 1);
      FinalAgain(Step(s, a), a, n - 1);
    }
  }

  /** An idle writer handing in a key, uninterrupted. */
  lemma WriterRound(s: State, t: nat, key: uint8)
    requires t in s.writers && s.writers[t].Idle? && s.mutex == 0
    ensures Again(s, Writing(t, Input(key)), 5) ==
        if |s.queue| < s.capacity then s.(queue := s.queue + [key], accepted := s.accepted + [key], hit := 0)
        else s.(hit := 0)
  {
    var w := Writing(t, Input(key));
    var s2 := Step(Step(s, w), w);
    assert s2 == s.(mutex := 1, writers := s.writers[t := Put(key)]);
    assert Again(s, w, 5) == Again(s2, w, 3);
    var s4 := Step(Step(s2, w), w);
    assert Again(s2, w, 3) == Again(s4, w, 1);
    assert Step(s4, w).writers == s.writers;
  }

  /** The reader has taken the front key and looked whether keys are left. */
  lemma ReaderTakes(s: State)
    requires s.reader.AwaitHit? && s.hit == 0 && s.mutex == 0 && s.queue != []
    ensures Again(s, Reading, 4)
         == s.(hit := 1, mutex := 1, queue := s.queue[1..], returned := s.returned + [s.queue[0]],
               reader := if |s.queue| > 1 then PostAgain else Done)
  {
    var s2 := ReaderStep(ReaderStep(s));
    assert s2 == s.(hit := 1, mutex := 1, reader := Take);
    assert Again(s, Reading, 4) == Again(s2, Reading, 2);
    hide WriterStep;
  }

  lemma {:induction false} AgainMore(s: State, a: Actor, n: nat, m: nat)
    requires a.Writing? ==> a.task in s.writers
    ensures Again(s, a, n + m) == Again(Again(s, a, n), a, m)
    decreases n
  {
    hide Step;
    if n > 0 {
      AgainMore(Step(s, a), a, n - 1, m);
    }
  }

  /**
    The reader, uninterrupted from a posted event on: it takes and returns the front key, posts the event again
    exactly when keys are left, gives the mutex back and waits for the next event.
   */
  lemma ReaderRound(s: State)
    requires s.reader.AwaitHit? && s.hit == 0 && s.mutex == 0 && s.queue != []
    ensures Again(s, Reading, if |s.queue| > 1 then 6 else 5)
         == s.(queue := s.queue[1..], returned := s.returned + [s.queue[0]], hit := if |s.queue| > 1 then 0 else 1)
  {
    ReaderTakes(s);
    AgainMore(s, Reading, 4, if |s.queue| > 1 then 2 else 1);
    ReaderLeaves(Again(s, Reading, 4));
    hide ReaderStep, WriterStep, Step, Again;
  }

  lemma ReaderLeaves(s: State)
    ensures s.reader.PostAgain? ==> Again(s, Reading, 2) == s.(hit := 0, mutex := 0, reader := AwaitHit)
    ensures s.reader.Done? ==> Again(s, Reading, 1) == s.(mutex := 0, reader := AwaitHit)
  {
  }

  /** Who finds a semaphore taken changes nothing. */
  lemma WaitsChangeNothing(s: State, t: nat, job: Job)
    requires t in s.writers
    ensures s.writers[t].Enter? && s.mutex != 0 ==> WriterStep(s, t, job) == s
    ensures (s.reader.AwaitHit? && s.hit != 0) || (s.reader.AwaitMutex? && s.mutex != 0) ==> ReaderStep(s) == s
  {
  }

  ghost predicate TakesNothing(s: State) {
    s.reader.Take? && s.queue == []
  }

  /** The reader's turns from just after the event, with the event posted again behind its back. */
  lemma ReaderTurns(s: State)
    requires s.reader.AwaitMutex? && s.mutex == 0 && s.hit == 0 && |s.queue| == 1
    ensures TakesNothing(Again(s, Reading, 6))
  {
    var s2 := ReaderStep(ReaderStep(s));
    assert s2.reader.Test? && s2.queue == [] && s2.hit == 0;
    assert Again(s, Reading, 6) == Again(s2, Reading, 4);
    var s4 := ReaderStep(ReaderStep(s2));
    assert s4.reader.AwaitHit? && s4.mutex == 0;
    assert Again(s2, Reading, 4) == Again(s4, Reading, 2);
    var s6 := ReaderStep(ReaderStep(s4));
    assert s6.reader.Take? && s6.queue == [];
  }

  /** With room for a single key a second key, refused while the reader is on its way, wakes it in vain. */
  lemma SingleKeyQueueFails(tasks: set<nat>, t: nat) returns (actors: seq<Actor>)
    requires t in tasks
    ensures IsRun(Initial(1, tasks), actors) && TakesNothing(Final(Initial(1, tasks), actors))
  {
    var w, start := Writing(t, Input(65)), Initial(1, tasks);
    var round := Turns(w, 5);
    WriterRound(start, t, 65);
    var s1 := Again(start, w, 5);
    var s2 := ReaderStep(s1);
    assert s2 == Again(s1, Reading, 1) && s2.writers == start.writers;
    WriterRound(s2, t, 65);
    var s3 := Again(s2, w, 5);
    ReaderTurns(s3);
    hide Step, ReaderStep, WriterStep, Again, TakesNothing;
    FinalAgain(start, w, 5);
    FinalAgain(s1, Reading, 1);
    FinalAgain(s2, w, 5);
    FinalAgain(s3, Reading, 6);
    hide Final, Turns, Initial;
    FinalAppend(start, round, Turns(Reading, 1));
    FinalAppend(start, round + Turns(Reading, 1), round);
    FinalAppend(start, round + Turns(Reading, 1) + round, Turns(Reading, 6));
    actors := round + Turns(Reading, 1) + round + Turns(Reading, 6);
  }

  /** The reader is safe from empty queues, whatever the interleaving, exactly when two keys find room. */
  lemma SafeFromTwoKeysOn(capacity: nat, tasks: set<nat>)
    requires capacity >= 1 && tasks != {}
    ensures (forall actors :: IsRun(Initial(capacity, tasks), actors) ==>
               !TakesNothing(Final(Initial(capacity, tasks), actors)))
       <==> capacity >= 2
  {
    if capacity >= 2 {
      forall actors | IsRun(Initial(capacity, tasks), actors)
        ensures !TakesNothing(Final(Initial(capacity, tasks), actors))
      {
        NoLostWakeUp(capacity, tasks, actors);
      }
    } else {
      var t :| t in tasks;
      var actors := SingleKeyQueueFails(tasks, t);
    }
  }

  // ----- The same steps on the real queue -----

  /** The queue operation of a writing step, as the abstract step does it. */
  method PutKey(q: CircularQueue8, key: uint8, ghost s: State, t: nat)
    requires q.Valid() && q.Contents() == s.queue && q.buf.Length == s.capacity
    requires t in s.writers && s.writers[t] == Put(key)
    modifies q, q.buf
    ensures q.Valid() && q.Contents() == WriterStep(s, t, Other).queue
  {
    var _ := q.Put(key);
  }

  /** The queue operation of the reader, as the abstract step does it. */
  method TakeKey(q: CircularQueue8, ghost s: State) returns (key: uint8)
    requires q.Valid() && q.Contents() == s.queue && s.reader.Take?
    modifies q
    ensures q.Valid() && q.Contents() == ReaderStep(s).queue
    ensures ReaderStep(s).returned == s.returned + [key]
  {
    var success;
    key, success := q.Get(false);
  }
}
