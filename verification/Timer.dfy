/**
  The timeout list of the timer: a singly linked list kept in the order of the 32-bit circular distance
  from the current tick, closed by a sentinel that never leaves it.
 */
module Timer {

  /** One more than the largest 32-bit value. */
  const WRAP := 0x1_0000_0000

  /**
    A timeout, or the head of a notice queue.  Both are one class because they lie in memory alike: the
    two links of a queue's dummy node are where a timeout has the link of the timer's list and the links
    of its queue node, and the size of the queue is where a timeout has its deadline.
   */
  class TimeOut {
    const isQueue: bool
    const queue: TimeOut?
    var next: TimeOut?
    var prev: TimeOut?
    var timeout: nat
    ghost var items: seq<TimeOut>    // of a queue: what is in it

    constructor (timeout: nat, queue: TimeOut?)
      ensures !isQueue && this.timeout == timeout && this.queue == queue && next == null
    {
      isQueue, this.queue, next, prev, this.timeout, items := false, queue, null, null, timeout, [];
    }

    /** An empty notice queue: `ckLinkedListInit`. */
    constructor Queue()
      ensures isQueue && queue == null && timeout == 0 && next == this && prev == this && items == []
    {
      isQueue, queue, timeout, items := true, null, 0, [];
      next, prev := this, this;
    }
  }

  datatype Pending = Pending(node: TimeOut, timeout: nat)

  /** The tick counter, the pending timeouts in list order, and the sentinel's timeout. */
  datatype Timers = Timers(low: nat, high: nat, list: seq<Pending>, sentinel: nat)

  /** `timeout - tick` in 32-bit unsigned arithmetic. */
  function Distance(timeout: nat, tick: nat): (d: nat)
    ensures d < WRAP
  {
    (timeout - tick) % WRAP
  }

  ghost predicate InWords(s: Timers) {
    && s.low < WRAP && s.high < WRAP && s.sentinel < WRAP
    && forall i :: 0 <= i < |s.list| ==> s.list[i].timeout < WRAP
  }

  ghost predicate NearestFirst(list: seq<Pending>, tick: nat) {
    forall i, j :: 0 <= i < j < |list| ==> Distance(list[i].timeout, tick) <= Distance(list[j].timeout, tick)
  }

  /** Nearest first, and nothing beyond the sentinel. */
  ghost predicate Ordered(s: Timers) {
    && NearestFirst(s.list, s.low)
    && (forall i :: 0 <= i < |s.list| ==> Distance(s.list[i].timeout, s.low) <= Distance(s.sentinel, s.low))
  }

  // ----- What one call does -----

  ghost function Insert(list: seq<Pending>, p: Pending, tick: nat): seq<Pending> {
    if list == [] || Distance(p.timeout, tick) <= Distance(list[0].timeout, tick) then [p] + list
    else [list[0]] + Insert(list[1..], p, tick)
  }

  ghost function SetEffect(s: Timers, p: Pending): Timers {
    s.(list := Insert(s.list, p, s.low), sentinel := (s.low + WRAP - 1) % WRAP)
  }

  /** The timeout delivered by the next tick. */
  ghost predicate Fires(s: Timers) {
    s.list != [] && s.list[0].timeout == (s.low + 1) % WRAP
  }

  ghost function TickEffect(s: Timers): Timers {
    var low := (s.low + 1) % WRAP;
    Timers(low, if low == 0 then (s.high + 1) % WRAP else s.high,
           if Fires(s) then s.list[1..] else s.list,
           if s.list == [] && s.sentinel == low then (s.sentinel + WRAP - 1) % WRAP else s.sentinel)
  }

  lemma {:induction false} InsertAt(list: seq<Pending>, p: Pending, tick: nat) returns (k: nat)
    ensures k <= |list| && Insert(list, p, tick) == list[..k] + [p] + list[k..]
    ensures forall i :: 0 <= i < k ==> Distance(list[i].timeout, tick) < Distance(p.timeout, tick)
    ensures k < |list| ==> Distance(p.timeout, tick) <= Distance(list[k].timeout, tick)
  {
    if list == [] || Distance(p.timeout, tick) <= Distance(list[0].timeout, tick) {
      k := 0;
    } else {
      var rest := InsertAt(list[1..], p, tick);
      k := rest + 1;
      assert list[..k] == [list[0]] + list[1..][..rest];
      assert list[1..][rest..] == list[k..];
    }
  }

  lemma InsertNearestFirst(list: seq<Pending>, p: Pending, tick: nat) returns (k: nat)
    requires NearestFirst(list, tick)
    ensures k <= |list| && Insert(list, p, tick) == list[..k] + [p] + list[k..]
    ensures NearestFirst(Insert(list, p, tick), tick)
    ensures forall q :: q in Insert(list, p, tick) ==> q == p || q in list
  {
    k := InsertAt(list, p, tick);
    var after := Insert(list, p, tick);
    hide Distance, Insert;
    forall i | 0 <= i < |after|
      ensures after[i] == if i < k then list[i] else if i == k then p else list[i - 1]
    {
    }
  }

  lemma SentinelIsFarthest(tick: nat)
    requires tick < WRAP
    ensures Distance((tick + WRAP - 1) % WRAP, tick) == WRAP - 1
  {
  }

  /** Setting a timeout, whatever its deadline, leaves the list ordered with the sentinel farthest. */
  lemma SetKeepsOrder(s: Timers, p: Pending)
    requires InWords(s) && Ordered(s) && p.timeout < WRAP
    ensures InWords(SetEffect(s, p)) && Ordered(SetEffect(s, p))
    ensures Distance(SetEffect(s, p).sentinel, s.low) == WRAP - 1
  {
    var k := InsertNearestFirst(s.list, p, s.low);
    SentinelIsFarthest(s.low);
    hide Distance, Insert, NearestFirst;
    var after := SetEffect(s, p);
    forall i | 0 <= i < |after.list|
      ensures after.list[i].timeout < WRAP
    {
      assert after.list[i] in after.list;
    }
  }

  lemma DistanceAfterTick(timeout: nat, tick: nat)
    requires timeout < WRAP && tick < WRAP
    ensures Distance(timeout, (tick + 1) % WRAP)
         == if Distance(timeout, tick) == 0 then WRAP - 1 else Distance(timeout, tick) - 1
  {
  }

  /** How the tick moves every entry: one nearer, or out of reach when it was over already. */
  lemma TickDistances(s: Timers)
    requires InWords(s)
    ensures InWords(TickEffect(s))
    ensures TickEffect(s).list == s.list || (s.list != [] && TickEffect(s).list == s.list[1..])
    ensures s.list != [] && s.list[0].timeout == s.low ==> TickEffect(s).list == s.list
    ensures forall i :: 0 <= i < |s.list| ==>
      Distance(s.list[i].timeout, TickEffect(s).low) == Nearer(s.list[i].timeout, s.low)
    ensures s.list != [] ==> Distance(TickEffect(s).sentinel, TickEffect(s).low) == Nearer(s.sentinel, s.low)
  {
    DistanceAfterTick(s.sentinel, s.low);
    forall i | 0 <= i < |s.list|
      ensures Distance(s.list[i].timeout, TickEffect(s).low) == Nearer(s.list[i].timeout, s.low)
    {
      DistanceAfterTick(s.list[i].timeout, s.low);
    }
  }

  ghost function Nearer(timeout: nat, tick: nat): nat {
    if Distance(timeout, tick) == 0 then WRAP - 1 else Distance(timeout, tick) - 1
  }

  lemma OverIsZero(timeout: nat, tick: nat)
    requires timeout < WRAP && tick < WRAP
    ensures Distance(timeout, tick) == 0 <==> timeout == tick
  {
  }

  /**
    A tick keeps the order exactly when no timeout that is already over heads the list; the one
    exception is a list whose sentinel is over too.
   */
  lemma TickKeepsOrder(s: Timers)
    requires InWords(s) && Ordered(s)
    ensures Ordered(TickEffect(s)) <==> s.list == [] || s.list[0].timeout != s.low || s.sentinel == s.low
  {
    TickDistances(s);
    OverIsZero(s.sentinel, s.low);
    if s.list != [] {
      OverIsZero(s.list[0].timeout, s.low);
    }
    hide Distance, TickEffect;
    var after := TickEffect(s);
    if s.list != [] && s.list[0].timeout == s.low {
      assert after.list[0] == s.list[0];
    }
  }

  /** The sentinel stays where it is, but when the clock reaches it on an empty list it is as far away as can be. */
  lemma TickMovesSentinel(s: Timers)
    requires InWords(s)
    ensures s.list != [] || s.sentinel != (s.low + 1) % WRAP ==> TickEffect(s).sentinel == s.sentinel
    ensures s.list == [] && s.sentinel == (s.low + 1) % WRAP ==>
              Distance(TickEffect(s).sentinel, TickEffect(s).low) == WRAP - 1
  {
  }

  // ----- Whole runs -----

  /** A delivery of `node` at absolute tick `at`; ticks are counted from boot without wrap-around. */
  datatype Alarm = Alarm(node: TimeOut, at: nat)

  /** What has been asked for and delivered by tick `now`, and what lies in every notice queue. */
  datatype History = History(now: nat, armed: multiset<Alarm>, delivered: multiset<Alarm>,
                             queues: map<TimeOut, seq<TimeOut>>)

  /** Clients set timeouts and take the front one out of a notice queue; the clock ticks. */
  datatype Event = SetEvent(p: Pending) | TakeEvent(queue: TimeOut) | TickEvent

  ghost function Due(p: Pending, now: nat): Alarm {
    Alarm(p.node, now + Distance(p.timeout, now % WRAP))
  }

  ghost function Alarms(list: seq<Pending>, now: nat): multiset<Alarm> {
    if list == [] then multiset{} else multiset{Due(list[0], now)} + Alarms(list[1..], now)
  }

  ghost function Nodes(list: seq<Pending>): (r: set<TimeOut>)
    ensures forall i :: 0 <= i < |list| ==> list[i].node in r
  {
    set p | p in list :: p.node
  }

  ghost function After(s: Timers, e: Event): Timers {
    match e
    case SetEvent(p) => SetEffect(s, p)
    case TakeEvent(_) => s
    case TickEvent => TickEffect(s)
  }

  /** The timeout lies in its notice queue. */
  ghost predicate Queued(queues: map<TimeOut, seq<TimeOut>>, t: TimeOut) {
    t.queue != null && t.queue in queues && t in queues[t.queue]
  }

  ghost function PutIntoQueue(queues: map<TimeOut, seq<TimeOut>>, t: TimeOut): map<TimeOut, seq<TimeOut>> {
    if t.queue != null && t.queue in queues then queues[t.queue := queues[t.queue] + [t]] else queues
  }

  ghost function TakeFromQueue(queues: map<TimeOut, seq<TimeOut>>, q: TimeOut): map<TimeOut, seq<TimeOut>> {
    if q in queues && queues[q] != [] then queues[q := queues[q][1..]] else queues
  }

  ghost function Noted(s: Timers, h: History, e: Event): History {
    match e
    case SetEvent(p) => h.(armed := h.armed + multiset{Due(p, h.now)})
    case TakeEvent(q) => h.(queues := TakeFromQueue(h.queues, q))
    case TickEvent =>
      if Fires(s) then
        h.(now := h.now + 1, delivered := h.delivered + multiset{Alarm(s.list[0].node, h.now + 1)},
           queues := PutIntoQueue(h.queues, s.list[0].node))
      else h.(now := h.now + 1)
  }

  /**
    A timeout is set that is neither pending nor in its queue, 1 to 2^32 - 2 ticks ahead, at a tick no
    pending one has; and a tick leaves list and queue intact.
   */
  ghost predicate Allowed(s: Timers, h: History, e: Event) {
    match e
    case SetEvent(p) =>
      && MayWait(s, p) && p.node !in Nodes(s.list) && !Queued(h.queues, p.node)
      && p.node.queue != null && p.node.queue in h.queues
    case TakeEvent(q) => q in h.queues
    case TickEvent => Intact(s, h)
  }

  ghost predicate MayWait(s: Timers, p: Pending) {
    && p.timeout < WRAP && 1 <= Distance(p.timeout, s.low) <= WRAP - 2
    && forall i :: 0 <= i < |s.list| ==> s.list[i].timeout != p.timeout
  }

  /**
    The timeout that fires does not lie in its queue already, and the walk that goes on from the queue
    does not take its new length for the present tick.
   */
  ghost predicate Intact(s: Timers, h: History) {
    Fires(s) ==>
      var t := s.list[0].node;
      && t.queue != null && t.queue in h.queues && t !in h.queues[t.queue]
      && (|h.queues[t.queue]| + 1) % WRAP != TickEffect(s).low
  }

  ghost predicate IsRun(s: Timers, h: History, es: seq<Event>)
    decreases |es|
  {
    es == [] || (Allowed(s, h, es[0]) && IsRun(After(s, es[0]), Noted(s, h, es[0]), es[1..]))
  }

  ghost function Final(s: Timers, h: History, es: seq<Event>): (Timers, History)
    decreases |es|
  {
    if es == [] then (s, h) else Final(After(s, es[0]), Noted(s, h, es[0]), es[1..])
  }

  ghost predicate Increasing(list: seq<Pending>, tick: nat) {
    forall i, j :: 0 <= i < j < |list| ==> Distance(list[i].timeout, tick) < Distance(list[j].timeout, tick)
  }

  ghost predicate Strict(s: Timers) {
    && Increasing(s.list, s.low)
    && (forall i :: 0 <= i < |s.list| ==>
          1 <= Distance(s.list[i].timeout, s.low) < Distance(s.sentinel, s.low))
  }

  ghost predicate Inv(s: Timers, h: History) {
    && InWords(s) && s.low == h.now % WRAP && s.high == h.now / WRAP % WRAP
    && Strict(s) && Accounts(s.list, h) && Unqueued(s.list, h.queues)
  }

  ghost predicate NodesApart(list: seq<Pending>) {
    forall i, j :: 0 <= i < j < |list| ==> list[i].node != list[j].node
  }

  /** No timeout is pending twice, or pending and queued. */
  ghost predicate Unqueued(list: seq<Pending>, queues: map<TimeOut, seq<TimeOut>>) {
    NodesApart(list) && forall i :: 0 <= i < |list| ==> !Queued(queues, list[i].node)
  }

  /** Every alarm set so far is delivered or pending. */
  ghost predicate Accounts(list: seq<Pending>, h: History) {
    && h.armed == h.delivered + Alarms(list, h.now)
    && forall a :: a in h.delivered ==> a.at <= h.now
  }

  lemma {:induction false} AlarmsInsert(list: seq<Pending>, p: Pending, now: nat)
    ensures Alarms(Insert(list, p, now % WRAP), now) == Alarms(list, now) + multiset{Due(p, now)}
  {
    var tick := now % WRAP;
    if list == [] || Distance(p.timeout, tick) <= Distance(list[0].timeout, tick) {
      assert ([p] + list)[1..] == list;
    } else {
      AlarmsInsert(list[1..], p, now);
      assert ([list[0]] + Insert(list[1..], p, tick))[1..] == Insert(list[1..], p, tick);
    }
  }

  lemma {:induction false} AlarmsTick(list: seq<Pending>, now: nat)
    requires forall i :: 0 <= i < |list| ==> list[i].timeout < WRAP && 1 <= Distance(list[i].timeout, now % WRAP)
    ensures Alarms(list, now + 1) == Alarms(list, now)
  {
    hide Distance, Due;
    if list != [] {
      DueAfterTick(list[0], now);
      AlarmsTick(list[1..], now);
    }
  }

  lemma DueAfterTick(p: Pending, now: nat)
    requires p.timeout < WRAP && 1 <= Distance(p.timeout, now % WRAP)
    ensures Due(p, now + 1) == Due(p, now)
  {
    DistanceAfterTick(p.timeout, now % WRAP);
    ClockAfterTick(now);
    hide Distance;
  }

  /** Every pending alarm lies ahead. */
  lemma {:induction false} AlarmsAhead(list: seq<Pending>, now: nat, a: Alarm)
    requires forall i :: 0 <= i < |list| ==> 1 <= Distance(list[i].timeout, now % WRAP)
    requires a in Alarms(list, now)
    ensures now < a.at
  {
    if a != Due(list[0], now) {
      AlarmsAhead(list[1..], now, a);
    }
  }

  lemma InsertIncreasing(list: seq<Pending>, p: Pending, tick: nat)
    requires Increasing(list, tick)
    requires forall i :: 0 <= i < |list| ==> Distance(list[i].timeout, tick) != Distance(p.timeout, tick)
    ensures Increasing(Insert(list, p, tick), tick)
    ensures forall q :: q in Insert(list, p, tick) ==> q == p || q in list
  {
    var k := InsertAt(list, p, tick);
    var after := Insert(list, p, tick);
    hide Distance, Insert;
    forall i | 0 <= i < |after|
      ensures after[i] == if i < k then list[i] else if i == k then p else list[i - 1]
    {
    }
  }

  lemma SetStrict(s: Timers, p: Pending)
    requires InWords(s) && Strict(s) && MayWait(s, p)
    ensures InWords(SetEffect(s, p)) && Strict(SetEffect(s, p))
  {
    SentinelIsFarthest(s.low);
    forall i | 0 <= i < |s.list| ensures Distance(s.list[i].timeout, s.low) != Distance(p.timeout, s.low) {
      SameDistance(s.list[i].timeout, p.timeout, s.low);
    }
    InsertIncreasing(s.list, p, s.low);
    hide Distance, Insert, Increasing;
    var after := SetEffect(s, p);
    forall i | 0 <= i < |after.list|
      ensures after.list[i].timeout < WRAP
      ensures 1 <= Distance(after.list[i].timeout, s.low) < WRAP - 1
    {
      assert after.list[i] in after.list;
    }
  }

  lemma SetUnqueued(list: seq<Pending>, p: Pending, tick: nat, queues: map<TimeOut, seq<TimeOut>>)
    requires Unqueued(list, queues) && p.node !in Nodes(list) && !Queued(queues, p.node)
    ensures Unqueued(Insert(list, p, tick), queues)
  {
    var k := InsertAt(list, p, tick);
    var after := Insert(list, p, tick);
    hide Distance, Insert, Queued;
    forall i | 0 <= i < |after|
      ensures after[i] == if i < k then list[i] else if i == k then p else list[i - 1]
    {
    }
    assert forall i :: 0 <= i < |list| ==> list[i].node in Nodes(list);
    hide Nodes;
  }

  lemma SetInv(s: Timers, h: History, p: Pending)
    requires Inv(s, h) && Allowed(s, h, SetEvent(p))
    ensures Inv(SetEffect(s, p), Noted(s, h, SetEvent(p)))
  {
    SetStrict(s, p);
    SetAccounts(s, h, p);
    SetUnqueued(s.list, p, s.low, h.queues);
    hide Insert, Alarms, Strict, InWords, Accounts, Unqueued, Distance;
  }

  lemma SetAccounts(s: Timers, h: History, p: Pending)
    requires s.low == h.now % WRAP && Accounts(s.list, h)
    ensures Accounts(SetEffect(s, p).list, Noted(s, h, SetEvent(p)))
  {
    AlarmsInsert(s.list, p, h.now);
    hide Insert, Alarms, Due;
  }

  lemma TakeUnqueued(list: seq<Pending>, queues: map<TimeOut, seq<TimeOut>>, q: TimeOut)
    requires Unqueued(list, queues)
    ensures Unqueued(list, TakeFromQueue(queues, q))
  {
    forall i | 0 <= i < |list| ensures !Queued(TakeFromQueue(queues, q), list[i].node) {
      assert !Queued(queues, list[i].node);
    }
  }

  lemma TakeInv(s: Timers, h: History, q: TimeOut)
    requires Inv(s, h)
    ensures Inv(s, Noted(s, h, TakeEvent(q)))
  {
    TakeUnqueued(s.list, h.queues, q);
    hide Strict, InWords, Alarms, TakeFromQueue, Unqueued;
  }

  lemma SameDistance(a: nat, b: nat, tick: nat)
    requires a < WRAP && b < WRAP && a != b
    ensures Distance(a, tick) != Distance(b, tick)
  {
  }

  lemma TickStrict(s: Timers)
    requires InWords(s) && Strict(s)
    ensures InWords(TickEffect(s)) && Strict(TickEffect(s))
  {
    TickDistances(s);
    if s.list != [] {
      FiresAtOne(s);
    }
    assert TickEffect(s).list == if Fires(s) then s.list[1..] else s.list;
    hide Distance, TickEffect, Fires;
  }

  lemma TickAccounts(s: Timers, h: History)
    requires InWords(s) && Strict(s) && s.low == h.now % WRAP && Accounts(s.list, h)
    ensures Accounts(TickEffect(s).list, Noted(s, h, TickEvent))
  {
    if Fires(s) {
      DueWhenFiring(s, h.now);
    }
    hide Distance, Due, Alarms;
    AccountsLater(s.list, h);
    if Fires(s) {
      AccountsDelivered(s.list, h.(now := h.now + 1));
    }
    hide Accounts;
  }

  /** The books balance one tick on when nothing is delivered. */
  lemma AccountsLater(list: seq<Pending>, h: History)
    requires forall i :: 0 <= i < |list| ==> list[i].timeout < WRAP && 1 <= Distance(list[i].timeout, h.now % WRAP)
    requires Accounts(list, h)
    ensures Accounts(list, h.(now := h.now + 1))
  {
    hide Distance, Due;
    AlarmsTick(list, h.now);
    hide Alarms;
  }

  /** They balance when the front alarm moves from the pending to the delivered ones. */
  lemma AccountsDelivered(list: seq<Pending>, h: History)
    requires list != [] && Accounts(list, h) && Due(list[0], h.now).at <= h.now
    ensures Accounts(list[1..], h.(delivered := h.delivered + multiset{Due(list[0], h.now)}))
  {
    hide Due;
    var rest, front := Alarms(list[1..], h.now), multiset{Due(list[0], h.now)};
    assert Alarms(list, h.now) == front + rest;
    hide Alarms;
  }

  lemma DueWhenFiring(s: Timers, now: nat)
    requires InWords(s) && s.low == now % WRAP && Fires(s)
    ensures Due(s.list[0], now + 1) == Alarm(s.list[0].node, now + 1)
  {
    ClockAfterTick(now);
    OverIsZero(s.list[0].timeout, (now + 1) % WRAP);
    hide Distance;
  }

  /** What a tick with an intact walk does keeps the invariant. */
  lemma TickInv(s: Timers, h: History)
    requires Inv(s, h) && Allowed(s, h, TickEvent)
    ensures Inv(After(s, TickEvent), Noted(s, h, TickEvent))
  {
    hide Inv, TickEffect, Noted;
    EffectInv(s, h);
  }

  lemma EffectInv(s: Timers, h: History)
    requires Inv(s, h)
    ensures Inv(TickEffect(s), Noted(s, h, TickEvent))
  {
    TickStrict(s);
    TickAccounts(s, h);
    TickClock(s, h.now);
    TickUnqueued(s, h);
    hide Distance, Strict, InWords, Accounts, Fires, TickEffect, Unqueued, PutIntoQueue;
  }

  lemma TickUnqueued(s: Timers, h: History)
    requires Unqueued(s.list, h.queues)
    ensures Unqueued(TickEffect(s).list, Noted(s, h, TickEvent).queues)
  {
    var after := TickEffect(s).list;
    if Fires(s) {
      assert forall i :: 0 <= i < |after| ==> after[i] == s.list[i + 1];
      forall i | 0 <= i < |after| ensures !Queued(PutIntoQueue(h.queues, s.list[0].node), after[i].node) {
        assert !Queued(h.queues, s.list[i + 1].node) && s.list[i + 1].node != s.list[0].node;
      }
    }
  }

  lemma TickClock(s: Timers, now: nat)
    requires s.low == now % WRAP && s.high == now / WRAP % WRAP
    ensures TickEffect(s).low == (now + 1) % WRAP && TickEffect(s).high == (now + 1) / WRAP % WRAP
  {
    ClockAfterTick(now);
    hide Fires;
  }

  lemma FiresAtOne(s: Timers)
    requires InWords(s) && s.list != []
    ensures Fires(s) <==> Distance(s.list[0].timeout, s.low) == 1
  {
  }

  lemma ClockAfterTick(now: nat)
    ensures (now + 1) % WRAP == (now % WRAP + 1) % WRAP
    ensures (now + 1) / WRAP % WRAP
         == if (now + 1) % WRAP == 0 then (now / WRAP % WRAP + 1) % WRAP else now / WRAP % WRAP
  {
  }

  lemma {:induction false} RunInv(s: Timers, h: History, es: seq<Event>)
    requires Inv(s, h) && IsRun(s, h, es)
    ensures var (t, g) := Final(s, h, es); Inv(t, g)
    decreases |es|
  {
    if es != [] {
      match es[0] {
        case SetEvent(p) => SetInv(s, h, p);
        case TakeEvent(q) => TakeInv(s, h, q);
        case TickEvent => TickInv(s, h);
      }
      RunInv(After(s, es[0]), Noted(s, h, es[0]), es[1..]);
    }
  }

  lemma DeliveredOnTime(s: Timers, h: History, es: seq<Event>, a: Alarm)
    requires Inv(s, h) && IsRun(s, h, es)
    ensures var (_, g) := Final(s, h, es);
      g.delivered[a] == if a.at <= g.now then g.armed[a] else 0
  {
    RunInv(s, h, es);
    var (t, g) := Final(s, h, es);
    if a in Alarms(t.list, g.now) {
      AlarmsAhead(t.list, g.now, a);
    }
  }

  /** The state at boot. */
  ghost function Boot(): Timers {
    Timers(0, 0, [], WRAP - 1)
  }

  /** Nothing has been set, and the given notice queues are empty. */
  ghost function NothingYet(queues: set<TimeOut>): History {
    History(0, multiset{}, multiset{}, map q | q in queues :: [])
  }

  lemma InitialInv(queues: set<TimeOut>)
    ensures Inv(Boot(), NothingYet(queues))
  {
  }

  /**
    Over any run from boot in which every tick stays intact, wrap-arounds of the counter included, a
    timeout has been delivered exactly as often as it was set once its tick has come, each time at that
    very tick, and not at all before.
   */
  lemma DeliveredExactlyOnTime(queues: set<TimeOut>, es: seq<Event>, a: Alarm)
    requires IsRun(Boot(), NothingYet(queues), es)
    ensures var (_, g) := Final(Boot(), NothingYet(queues), es);
      g.delivered[a] == if a.at <= g.now then g.armed[a] else 0
  {
    InitialInv(queues);
    DeliveredOnTime(Boot(), NothingYet(queues), es, a);
  }

  /** In a run no timeout that fires lies in its queue: a tick is intact just when the length differs. */
  lemma IntactInRuns(s: Timers, h: History)
    requires Inv(s, h) && Fires(s) && s.list[0].node.queue != null && s.list[0].node.queue in h.queues
    ensures Intact(s, h) <==> (|h.queues[s.list[0].node.queue]| + 1) % WRAP != (s.low + 1) % WRAP
  {
    assert !Queued(h.queues, s.list[0].node);
    hide Strict, InWords, Accounts;
  }

  // ----- What goes through the queues -----

  /** A timeout put into its queue at a tick, or taken from a queue. */
  datatype Action = Put(node: TimeOut, at: nat) | Take(queue: TimeOut, node: TimeOut)

  ghost function ActionsOf(s: Timers, h: History, e: Event): seq<Action> {
    match e
    case SetEvent(_) => []
    case TakeEvent(q) => if q in h.queues && h.queues[q] != [] then [Take(q, h.queues[q][0])] else []
    case TickEvent => if Fires(s) then [Put(s.list[0].node, h.now + 1)] else []
  }

  ghost function Actions(s: Timers, h: History, es: seq<Event>): seq<Action>
    decreases |es|
  {
    if es == [] then [] else ActionsOf(s, h, es[0]) + Actions(After(s, es[0]), Noted(s, h, es[0]), es[1..])
  }

  /** The timeouts put into queue q, in order. */
  ghost function PutsInto(log: seq<Action>, q: TimeOut): seq<TimeOut> {
    if log == [] then []
    else (if log[0].Put? && log[0].node.queue == q then [log[0].node] else []) + PutsInto(log[1..], q)
  }

  /** The timeouts taken from queue q, in order. */
  ghost function TakesFrom(log: seq<Action>, q: TimeOut): seq<TimeOut> {
    if log == [] then []
    else (if log[0].Take? && log[0].queue == q then [log[0].node] else []) + TakesFrom(log[1..], q)
  }

  ghost function Deliveries(log: seq<Action>): multiset<Alarm> {
    if log == [] then multiset{}
    else (if log[0].Put? then multiset{Alarm(log[0].node, log[0].at)} else multiset{}) + Deliveries(log[1..])
  }

  /** What was taken from a queue and what is left in it is what was in it and what was put into it, in order. */
  lemma {:induction false} QueueBalance(s: Timers, h: History, es: seq<Event>, q: TimeOut)
    requires IsRun(s, h, es) && q in h.queues
    ensures q in Final(s, h, es).1.queues
    ensures TakesFrom(Actions(s, h, es), q) + Final(s, h, es).1.queues[q] == h.queues[q] + PutsInto(Actions(s, h, es), q)
    decreases |es|
  {
    if es != [] {
      var e := es[0];
      var first, rest := ActionsOf(s, h, e), Actions(After(s, e), Noted(s, h, e), es[1..]);
      QueueBalance(After(s, e), Noted(s, h, e), es[1..], q);
      OneBalance(s, h, e, q);
      FirstAction(first, rest, q);
      var left := Final(s, h, es).1.queues[q];
      hide IsRun, ActionsOf, Noted, After, PutsInto, TakesFrom, Final;
      Rebalance(TakesFrom(first, q), TakesFrom(rest, q), left, h.queues[q], Noted(s, h, e).queues[q],
                PutsInto(first, q), PutsInto(rest, q));
    }
  }

  lemma FirstAction(first: seq<Action>, rest: seq<Action>, q: TimeOut)
    requires |first| <= 1
    ensures PutsInto(first + rest, q) == PutsInto(first, q) + PutsInto(rest, q)
    ensures TakesFrom(first + rest, q) == TakesFrom(first, q) + TakesFrom(rest, q)
  {
    if first == [] {
      assert first + rest == rest;
    } else {
      assert first == [first[0]];
      FirstPut(first[0], rest, q);
      FirstTake(first[0], rest, q);
    }
    hide PutsInto, TakesFrom;
  }

  lemma FirstPut(a: Action, rest: seq<Action>, q: TimeOut)
    ensures PutsInto([a] + rest, q) == PutsInto([a], q) + PutsInto(rest, q)
  {
    assert ([a] + rest)[1..] == rest && [a][1..] == [];
  }

  lemma FirstTake(a: Action, rest: seq<Action>, q: TimeOut)
    ensures TakesFrom([a] + rest, q) == TakesFrom([a], q) + TakesFrom(rest, q)
  {
    assert ([a] + rest)[1..] == rest && [a][1..] == [];
  }

  lemma FirstDelivery(first: seq<Action>, rest: seq<Action>)
    requires |first| <= 1
    ensures Deliveries(first + rest) == Deliveries(first) + Deliveries(rest)
  {
    if first == [] {
      assert first + rest == rest;
    } else {
      assert (first + rest)[1..] == rest && first[1..] == [];
    }
  }

  lemma OneDelivery(s: Timers, h: History, e: Event)
    ensures |ActionsOf(s, h, e)| <= 1
    ensures Noted(s, h, e).delivered == h.delivered + Deliveries(ActionsOf(s, h, e))
  {
    hide Due, Fires;
  }

  lemma Rebalance(t: seq<TimeOut>, t': seq<TimeOut>, left: seq<TimeOut>, was: seq<TimeOut>, mid: seq<TimeOut>,
                  p: seq<TimeOut>, p': seq<TimeOut>)
    requires t + mid == was + p && t' + left == mid + p'
    ensures (t + t') + left == was + (p + p')
  {
    assert (t + t') + left == t + (t' + left);
    assert t + (mid + p') == (t + mid) + p';
    assert (was + p) + p' == was + (p + p');
  }

  lemma OneBalance(s: Timers, h: History, e: Event, q: TimeOut)
    requires Allowed(s, h, e) && q in h.queues
    ensures |ActionsOf(s, h, e)| <= 1 && q in Noted(s, h, e).queues
    ensures TakesFrom(ActionsOf(s, h, e), q) + Noted(s, h, e).queues[q] == h.queues[q] + PutsInto(ActionsOf(s, h, e), q)
  {
    hide MayWait, TickEffect, Due;
  }

  lemma {:induction false} ActionsDeliver(s: Timers, h: History, es: seq<Event>)
    requires IsRun(s, h, es)
    ensures Final(s, h, es).1.delivered == h.delivered + Deliveries(Actions(s, h, es))
    decreases |es|
  {
    if es != [] {
      var e := es[0];
      var first, rest := ActionsOf(s, h, e), Actions(After(s, e), Noted(s, h, e), es[1..]);
      ActionsDeliver(After(s, e), Noted(s, h, e), es[1..]);
      OneDelivery(s, h, e);
      FirstDelivery(first, rest);
      hide IsRun, ActionsOf, Noted, After, Deliveries;
    }
  }

  /**
    A tick takes every due timeout off an ordered list exactly when at most one is due: after a
    delivery the walk goes on from the notice queue and sees no further timeout.
   */
  lemma TickTakesAllDue(s: Timers)
    requires InWords(s) && Ordered(s) && (s.list == [] || s.list[0].timeout != s.low)
    ensures (forall p :: p in TickEffect(s).list ==> p.timeout != TickEffect(s).low)
       <==> (|s.list| < 2 || s.list[1].timeout != (s.low + 1) % WRAP)
  {
    var after := TickEffect(s);
    if |s.list| >= 2 && s.list[1].timeout == after.low {
      NearIsDue(s.list[0].timeout, s.low);
      NearIsDue(s.list[1].timeout, s.low);
      OverIsZero(s.list[0].timeout, s.low);
      assert s.list[1] == after.list[0];
    } else {
      forall i | 0 <= i < |s.list| && s.list[i].timeout == after.low
        ensures i == 0
      {
        forall j | 0 <= j <= i ensures s.list[j].timeout == after.low {
          NearIsDue(s.list[i].timeout, s.low);
          NearIsDue(s.list[j].timeout, s.low);
          OverIsZero(s.list[0].timeout, s.low);
        }
      }
    }
  }

  lemma NearIsDue(timeout: nat, tick: nat)
    requires timeout < WRAP && tick < WRAP
    ensures Distance(timeout, tick) == 1 <==> timeout == (tick + 1) % WRAP
  {
  }
}
