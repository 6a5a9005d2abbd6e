/**
  The timer's linked list and the notice queues, link by link.  A timeout has one link for both: setting
  it, delivering it and taking it from its queue all go through the same field.
 */
module TimerList {
  import opened Basics
  import opened Timer

  // ----- The list -----

  /** The node at place `i`, the sentinel behind the last pending one. */
  ghost function At(list: seq<Pending>, sentinel: TimeOut, i: nat): TimeOut {
    if i < |list| then list[i].node else sentinel
  }

  /** A timeout, as its constant fields tell. */
  predicate IsTimeOut(t: TimeOut) {
    !t.isQueue && (t.queue != null ==> t.queue.isQueue)
  }

  /** Place `i` of the list holds a timeout with that deadline, linked to the next place. */
  ghost predicate Holds(list: seq<Pending>, sentinel: TimeOut, i: nat)
    requires i < |list|
    reads list[i].node
  {
    var node := list[i].node;
    && node != sentinel && node.queue != null && IsTimeOut(node)
    && node.timeout == list[i].timeout && node.next == At(list, sentinel, i + 1)
  }

  /** `list` is `was` with `p` put in at place `k`. */
  ghost predicate PutIn(was: seq<Pending>, p: Pending, k: nat, list: seq<Pending>) {
    && k <= |was| && |list| == |was| + 1 && list[k] == p
    && (forall i :: 0 <= i < k ==> list[i] == was[i])
    && (forall i :: k < i < |list| ==> list[i] == was[i - 1])
  }

  lemma ConcatenationPutsIn(was: seq<Pending>, p: Pending, k: nat)
    requires k <= |was|
    ensures PutIn(was, p, k, was[..k] + [p] + was[k..])
  {
  }

  /** The nodes stay distinct, and every place has the successor the links must lead to. */
  lemma Inserted(was: seq<Pending>, p: Pending, sentinel: TimeOut, k: nat, list: seq<Pending>)
    requires PutIn(was, p, k, list) && NodesApart(was) && p.node !in Nodes(was)
    ensures NodesApart(list)
    ensures forall i :: 0 <= i < |was| && i + 1 != k ==> k > 0 ==> was[i].node != was[k - 1].node
    ensures forall i :: 0 <= i < |was| ==> was[i].node != p.node
    ensures At(list, sentinel, 0) == if k == 0 then p.node else At(was, sentinel, 0)
    ensures At(list, sentinel, k) == p.node && At(list, sentinel, k + 1) == At(was, sentinel, k)
    ensures forall i :: 0 <= i < k ==> At(list, sentinel, i) == At(was, sentinel, i)
    ensures forall i :: k < i <= |list| ==> At(list, sentinel, i) == At(was, sentinel, i - 1)
  {
    assert forall i :: 0 <= i < |was| ==> was[i].node in Nodes(was);
    hide Nodes;
  }

  lemma InsertedInWords(s: Timers, p: Pending, k: nat)
    requires InWords(s) && k <= |s.list| && p.timeout < WRAP
    ensures InWords(s.(list := s.list[..k] + [p] + s.list[k..]))
  {
    assert forall q :: q in s.list[..k] + [p] + s.list[k..] ==> q == p || q in s.list;
  }

  lemma InsertNodes(list: seq<Pending>, p: Pending, tick: nat)
    ensures Nodes(Insert(list, p, tick)) <= Nodes(list) + {p.node}
  {
    var k := InsertAt(list, p, tick);
    hide Insert, Distance;
    forall q | q in list[..k] + [p] + list[k..] ensures q == p || q in list {
    }
  }

  // ----- The queues -----

  /** The ring of a queue, read from its head round to its head again. */
  ghost function RingAt(q: TimeOut, items: seq<TimeOut>, i: int): TimeOut {
    if 0 < i <= |items| then items[i - 1] else q
  }

  ghost predicate Linked(a: TimeOut, b: TimeOut)
    reads a, b
  {
    a.next == b && b.prev == a
  }

  /** The queue is the ring of these timeouts, and its size says how many they are. */
  ghost predicate Ring(q: TimeOut, items: seq<TimeOut>)
    reads q, items
  {
    && q.isQueue && (forall t :: t in items ==> !t.isQueue) && Distinct(items)
    && q.timeout == |items| % WRAP
    && forall i :: 0 <= i <= |items| ==> Linked(RingAt(q, items, i), RingAt(q, items, i + 1))
  }

  /** The back of a ring is its last timeout, or the head of an empty queue. */
  lemma RingEnds(q: TimeOut, items: seq<TimeOut>)
    requires Ring(q, items)
    ensures q.prev == if items == [] then q else items[|items| - 1]
    ensures q.next == if items == [] then q else items[0]
  {
    assert Linked(RingAt(q, items, |items|), RingAt(q, items, |items| + 1));
    assert Linked(RingAt(q, items, 0), RingAt(q, items, 1));
  }

  lemma RingApart(q: TimeOut, items: seq<TimeOut>, i: nat, j: nat)
    requires q.isQueue && (forall t :: t in items ==> !t.isQueue) && Distinct(items) && i < j <= |items|
    ensures RingAt(q, items, i) != RingAt(q, items, j)
  {
  }

  lemma OneMore(n: nat, m: nat)
    requires n == m % WRAP
    ensures (n + 1) % WRAP == (m + 1) % WRAP
  {
  }

  lemma OneLess(n: nat, m: nat)
    requires n == m % WRAP && m > 0
    ensures (n + WRAP - 1) % WRAP == (m - 1) % WRAP
  {
  }

  /** The links of the old ring are the first ones of a ring with one more timeout at its back. */
  lemma RingMore(q: TimeOut, items: seq<TimeOut>, t: TimeOut)
    ensures forall i :: 0 <= i <= |items| ==> RingAt(q, items + [t], i) == RingAt(q, items, i)
    ensures RingAt(q, items + [t], |items| + 1) == t && RingAt(q, items + [t], |items| + 2) == q
  {
  }

  /** A queue and what is in it, with what happens to its ring between two states. */
  datatype Held = Held(q: TimeOut, items: seq<TimeOut>) {

    /** A ring is a ring as long as its links and its size stay. */
    twostate lemma RingStays()
      requires old(Ring(q, items)) && q.timeout == old(q.timeout) && q.next == old(q.next) && q.prev == old(q.prev)
      requires forall x :: x in items ==> x.next == old(x.next) && x.prev == old(x.prev)
      ensures Ring(q, items)
    {
      forall i | 0 <= i <= |items| ensures Linked(RingAt(q, items, i), RingAt(q, items, i + 1)) {
        assert old(Linked(RingAt(q, items, i), RingAt(q, items, i + 1)));
      }
    }

    twostate lemma RingGrown(t: TimeOut)
      requires old(Ring(q, items)) && t !in items && !t.isQueue
      requires Linked(RingAt(q, items, |items|), t) && Linked(t, q) && q.timeout == (old(q.timeout) + 1) % WRAP
      requires forall x :: x in items ==> x.prev == old(x.prev)
      requires forall i :: 0 <= i < |items| ==> RingAt(q, items, i).next == old(RingAt(q, items, i).next)
      ensures Ring(q, items + [t])
    {
      ghost var more := items + [t];
      RingMore(q, items, t);
      OneMore(old(q.timeout), |items|);
      forall i | 0 <= i <= |more| ensures Linked(RingAt(q, more, i), RingAt(q, more, i + 1)) {
        if i < |items| {
          assert old(Linked(RingAt(q, items, i), RingAt(q, items, i + 1)));
          assert RingAt(q, items, i + 1) in items;
        }
      }
    }

    twostate lemma PushedLinks(t: TimeOut)
      requires old(Ring(q, items)) && t !in items && !t.isQueue && old(q.prev) != null
      requires old(q.prev).next == t && t.prev == old(q.prev) && t.next == q && q.prev == t
      requires q.timeout == (old(q.timeout) + 1) % WRAP
      requires q == old(q.prev) || q.next == old(q.next)
      requires forall x :: x in items ==> x.prev == old(x.prev) && (x == old(q.prev) || x.next == old(x.next))
      ensures Ring(q, items + [t])
    {
      assert old(Linked(RingAt(q, items, |items|), RingAt(q, items, |items| + 1)));
      forall i | 0 <= i < |items| ensures RingAt(q, items, i).next == old(RingAt(q, items, i).next) {
        RingApart(q, items, i, |items|);
      }
      hide Ring;
      RingGrown(t);
    }

    twostate lemma RingShrunk()
      requires items != [] && old(Ring(q, items))
      requires Linked(q, RingAt(q, items, 2)) && q.timeout == (old(q.timeout) + WRAP - 1) % WRAP
      requires forall x :: x in items ==> x.next == old(x.next)
      requires forall i :: 2 < i <= |items| + 1 ==> RingAt(q, items, i).prev == old(RingAt(q, items, i).prev)
      ensures Ring(q, items[1..])
    {
      ghost var rest := items[1..];
      RingLess(q, items);
      OneLess(old(q.timeout), |items|);
      assert Distinct(rest);
      forall i | 0 <= i <= |rest| ensures Linked(RingAt(q, rest, i), RingAt(q, rest, i + 1)) {
        if i > 0 {
          assert old(Linked(RingAt(q, items, i + 1), RingAt(q, items, i + 2)));
          assert RingAt(q, items, i + 1) in items;
        } else {
          assert |rest| == 0 ==> RingAt(q, rest, 1) == q == RingAt(q, items, 2);
        }
      }
    }

    twostate lemma KeepsStill(nodes: set<TimeOut>)
      requires old(Keeps(q, items, nodes))
      requires q.timeout == old(q.timeout) && q.next == old(q.next) && q.prev == old(q.prev) && q.items == old(q.items)
      requires forall x :: x in items ==> x.next == old(x.next) && x.prev == old(x.prev)
      ensures Keeps(q, items, nodes)
    {
      RingStays();
    }
  }

  /** `ckLinkedListPushBack_lockfree` run as one step, on whatever the queue looks like. */
  method PushBack(q: TimeOut, t: TimeOut, ghost items: seq<TimeOut>)
    requires q.isQueue && !t.isQueue && q.prev != null
    modifies q`timeout, q`next, q`prev, q`items, t`next, t`prev, q.prev`next
    ensures q.timeout == (old(q.timeout) + 1) % WRAP && q.items == old(q.items) + [t]
    ensures t.next == if old(q.prev) == t then t else q
    ensures q.prev == t
    ensures old(Ring(q, items)) && t !in items ==> Ring(q, items + [t])
  {
    q.timeout := (q.timeout + 1) % WRAP;
    t.next := q;
    var tail := q.prev;
    t.prev := tail;
    q.prev := t;
    tail.next := t;
    q.items := q.items + [t];
    if old(Ring(q, items)) && t !in items {
      assert old(Linked(RingAt(q, items, |items|), RingAt(q, items, |items| + 1)));
      Held(q, items).PushedLinks(t);
    }
  }

  lemma RingLess(q: TimeOut, items: seq<TimeOut>)
    requires items != []
    ensures forall i :: 0 < i <= |items| ==> RingAt(q, items[1..], i) == RingAt(q, items, i + 1)
    ensures RingAt(q, items[1..], 0) == q
  {
  }

  /** `ckLinkedListPopFront_lockfree` run as one step on a queue that is a ring. */
  method PopFront(q: TimeOut) returns (t: TimeOut?)
    requires Ring(q, q.items)
    modifies q`timeout, q`next, q`prev, q`items, q.items`prev
    ensures Ring(q, q.items)
    ensures old(q.items) == [] ==> t == null && q.items == []
    ensures old(q.items) != [] ==> t == old(q.items)[0] && q.items == old(q.items)[1..]
  {
    RingEnds(q, q.items);
    if q.next == q {
      return null;
    }
    ghost var was := q.items;
    assert Linked(RingAt(q, was, 1), RingAt(q, was, 2));
    t := q.next;
    var next := t.next;
    next.prev := q;
    q.next := next;
    q.timeout := (q.timeout + WRAP - 1) % WRAP;
    q.items := was[1..];
    forall i | 2 < i <= |was| + 1 ensures RingAt(q, was, i).prev == old(RingAt(q, was, i).prev) {
      RingAfterTwo(q, was, i);
    }
    hide Ring, RingAt;
    Held(q, was).RingShrunk();
  }

  lemma RingAfterTwo(q: TimeOut, items: seq<TimeOut>, i: nat)
    requires q.isQueue && (forall t :: t in items ==> !t.isQueue) && Distinct(items) && 2 < i <= |items| + 1
    ensures RingAt(q, items, i) != RingAt(q, items, 2)
  {
  }

  // ----- The timer -----

  /**
    How the walk over expired timeouts goes on: it stops at a timeout that is not over or at a queue whose
    length differs from the tick, it takes a queue of just that length for an expired timeout, or it meets
    the same timeout for ever.
   */
  datatype Walk = Stopped | InQueue | Forever

  class TimerStruct {
    var low: nat
    var high: nat
    var head: TimeOut
    const sentinel: TimeOut
    ghost var list: seq<Pending>

    constructor ()
      ensures Valid() && State() == Boot() && fresh(sentinel)
    {
      var s := new TimeOut(WRAP - 1, null);
      low, high, head, sentinel, list := 0, 0, s, s, [];
      new;
      s.next := s;
    }

    ghost predicate Valid()
      reads this, sentinel, Nodes(list)
    {
      && InWords(State()) && NodesApart(list)
      && sentinel.queue == null && !sentinel.isQueue && sentinel.next == sentinel && head == At(list, sentinel, 0)
      && forall i :: 0 <= i < |list| ==> Holds(list, sentinel, i)
    }

    ghost function State(): Timers
      reads this, sentinel
    {
      Timers(low, high, list, sentinel.timeout)
    }

    /** The walk of `ckTimerSet`: it stops at the sentinel at the latest. */
    method FindPlace(t: TimeOut, tick: nat) returns (before: TimeOut?, node: TimeOut, ghost k: nat)
      requires Valid() && Distance(sentinel.timeout, tick) == WRAP - 1
      ensures Valid()
      ensures node == sentinel || Distance(t.timeout, tick) <= Distance(node.timeout, tick)
      ensures if before == null then node == head
              else before.next == node && Distance(before.timeout, tick) < Distance(t.timeout, tick)
      ensures k <= |list| && node == At(list, sentinel, k) && before == if k == 0 then null else list[k - 1].node
      ensures var p := Pending(t, t.timeout); Insert(list, p, tick) == list[..k] + [p] + list[k..]
    {
      before, node, k := null, head, 0;
      ghost var place := InsertAt(list, Pending(t, t.timeout), tick);
      hide Distance, Insert, InWords, NodesApart, IsTimeOut;
      while Distance(t.timeout, tick) > Distance(node.timeout, tick)
        invariant k <= place && node == At(list, sentinel, k)
        invariant before == if k == 0 then null else list[k - 1].node
        decreases place - k
      {
        assert k < |list| ==> Holds(list, sentinel, k);
        before, node, k := node, node.next, k + 1;
      }
      assert k < |list| ==> Holds(list, sentinel, k);
      assert k > 0 ==> Holds(list, sentinel, k - 1);
    }

    method Link(before: TimeOut?, node: TimeOut, t: TimeOut, ghost k: nat)
      requires Valid() && t !in Nodes(list) && t.timeout < WRAP && t.queue != null && IsTimeOut(t)
      requires k <= |list| && node == At(list, sentinel, k) && before == if k == 0 then null else list[k - 1].node
      modifies this`head, this`list, Nodes(list)`next, t`next
      ensures Valid() && list == old(list[..k] + [Pending(t, t.timeout)] + list[k..])
    {
      ghost var was := list;
      ghost var p := Pending(t, t.timeout);
      assert k > 0 ==> Holds(list, sentinel, k - 1);
      assert k < |list| ==> Holds(list, sentinel, k);
      ConcatenationPutsIn(was, p, k);
      Inserted(was, p, sentinel, k, was[..k] + [p] + was[k..]);
      InsertedInWords(State(), p, k);
      hide NodesApart, At, Distance, InWords, Nodes, IsTimeOut;
      list := was[..k] + [p] + was[k..];
      if before == null {
        head := t;
      } else {
        before.next := t;
      }
      t.next := node;
      assert Holds(list, sentinel, k);
      forall i | 0 <= i < k ensures Holds(list, sentinel, i) {
        assert old(Holds(was, sentinel, i));
      }
      forall i | k < i < |list| ensures Holds(list, sentinel, i) {
        assert old(Holds(was, sentinel, i - 1));
      }
    }

    /** `ckTimerSet` */
    method Set(t: TimeOut) returns (ok: bool)
      requires Valid() && IsTimeOut(t) && t !in Nodes(list) && t.timeout < WRAP
      modifies this`head, this`list, sentinel`timeout, Nodes(list)`next, t`next
      ensures Valid() && ok == (t.queue != null)
      ensures State() == if ok then SetEffect(old(State()), Pending(t, t.timeout)) else old(State())
    {
      if t.queue == null {
        return false;
      }
      var tick := low;
      SentinelIsFarthest(tick);
      hide Distance, Insert, NodesApart, IsTimeOut;
      sentinel.timeout := (tick + 0xffff_ffff) % WRAP;
      forall i | 0 <= i < |list| ensures Holds(list, sentinel, i) {
        assert old(Holds(list, sentinel, i));
      }
      var before, node, k := FindPlace(t, tick);
      Link(before, node, t, k);
      ok := true;
    }

    // ----- The tick -----

    /** The timeout that fires at the next tick, its queue, and the back of that queue. */
    ghost function Firing(): set<TimeOut>
      reads this, sentinel
    {
      if Fires(State()) then {head} else {}
    }

    ghost function FiringQueue(): set<TimeOut>
      reads this, sentinel
    {
      if Fires(State()) && head.queue != null then {head.queue} else {}
    }

    ghost function FiringBack(): set<TimeOut>
      reads this, sentinel, FiringQueue()
    {
      if Fires(State()) && head.queue != null && head.queue.prev != null then {head.queue.prev} else {}
    }

    /** One round of the expiry loop for a timeout with a notice queue. */
    method Expire(t: TimeOut) returns (next: TimeOut)
      requires !t.isQueue && t.next != null && t.queue != null && t.queue.isQueue && t.queue.prev != null
      modifies this`head, t.queue`timeout, t.queue`next, t.queue`prev, t.queue`items
      modifies t`next, t`prev, t.queue.prev`next
      ensures head == old(t.next) && t.queue.prev == t
      ensures next == t.next && next == if old(t.queue.prev) == t then t else t.queue
      ensures t.queue.timeout == (old(t.queue.timeout) + 1) % WRAP && t.queue.items == old(t.queue.items) + [t]
      ensures old(Ring(t.queue, t.queue.items)) && t !in old(t.queue.items) ==> Ring(t.queue, t.queue.items)
    {
      head := t.next;
      PushBack(t.queue, t, t.queue.items);
      next := t.next;
    }

    /**
      When the timeout that fires is already the back of its queue, the round delivers it, leads back to
      it and leaves it as the back of its queue, linked to itself: so does every further round.
     */
    method AnotherRound(t: TimeOut) returns (next: TimeOut)
      requires !t.isQueue && t.next == t && t.queue != null && t.queue.isQueue && t.queue.prev == t
      requires t.timeout == low
      modifies this`head, t.queue`timeout, t.queue`next, t.queue`prev, t.queue`items, t`next, t`prev
      ensures next == t && t.next == t && t.queue.prev == t && t.timeout == low
      ensures t.queue.items == old(t.queue.items) + [t]
    {
      next := Expire(t);
    }

    /** The timeout is in its queue now, and the walk has gone on as the old back and size of the queue say. */
    twostate predicate Delivered(t: TimeOut, walk: Walk)
      reads this, t, t.queue
    {
      && t.queue != null
      && walk == (if old(t.queue.prev) == t then Forever
                  else if (old(t.queue.timeout) + 1) % WRAP == low then InQueue else Stopped)
      && t.queue.timeout == (old(t.queue.timeout) + 1) % WRAP && t.queue.items == old(t.queue.items) + [t]
      && t.queue.prev == t && (walk == Forever ==> t.next == t && t.timeout == low)
    }

    /**
      The front timeout goes from the list to its queue, and the walk goes on from its link.  The list stays
      whole as long as the back of the queue is not on it.
     */
    method Deliver(t: TimeOut) returns (walk: Walk)
      requires Valid() && list != [] && t == head && t.timeout == low && t.queue != null && t.queue.prev != null
      modifies this`head, this`list, t.queue`timeout, t.queue`next, t.queue`prev, t.queue`items
      modifies t`next, t`prev, t.queue.prev`next
      ensures list == old(list)[1..] && Delivered(t, walk)
      ensures old(Ring(t.queue, t.queue.items)) && t !in old(t.queue.items) ==> Ring(t.queue, t.queue.items)
      ensures old(t.queue.prev) != sentinel && old(t.queue.prev) !in old(Nodes(list)) ==> Valid()
    {
      ghost var was := list;
      assert Holds(was, sentinel, 0);
      var next := Expire(t);
      walk := if next == t then Forever else if next.timeout == low then InQueue else Stopped;
      list := was[1..];
      if old(t.queue.prev) != sentinel && old(t.queue.prev) !in old(Nodes(list)) {
        hide Ring, IsTimeOut, Delivered;
        forall i | 0 <= i < |list| ensures Holds(list, sentinel, i) {
          assert old(Holds(was, sentinel, i + 1)) && was[i + 1].node != was[0].node && was[i + 1].node in old(Nodes(list));
        }
      }
    }

    /** The tick count goes up by one in its two halves. */
    method CountTick()
      requires low < WRAP && high < WRAP
      modifies this`low, this`high
      ensures low == TickEffect(old(State())).low && high == TickEffect(old(State())).high
    {
      low := (low + 1) % WRAP;
      if low == 0 {
        high := (high + 1) % WRAP;
      }
    }

    /**
      The tick and expiry part of `ck_TimerIntHandler`.  The queue node shares its place with the list
      link, so a delivery leads the walk to the head of the queue, whose size it compares with the tick,
      or back to the timeout itself when that was the back of its queue already.  When the walk does not
      stop, the fields are what they are at this point.
     */
    method Tick() returns (walk: Walk)
      requires Valid() && (head.queue != null ==> head.queue.prev != null)
      modifies this, sentinel`timeout, FiringQueue(), Firing()`next, Firing()`prev, FiringBack()`next
      ensures low == TickEffect(old(State())).low && high == TickEffect(old(State())).high
      ensures Fires(old(State())) ==> Delivered(old(head), walk)
      ensures Fires(old(State())) && old(Ring(head.queue, head.queue.items) && head !in head.queue.items)
        ==> Ring(old(head.queue), old(head.queue).items)
      ensures !Fires(old(State())) ==> walk == Stopped && Valid() && State() == TickEffect(old(State()))
      ensures Fires(old(State())) && old(head.queue.prev) != sentinel && old(head.queue.prev) !in old(Nodes(list))
        ==> Valid() && State() == TickEffect(old(State()))
    {
      hide Ring, NodesApart;
      assert list != [] ==> Holds(list, sentinel, 0);
      CountTick();
      var t := head;
      ghost var now := (low, high);
      while t.timeout == low && t.queue == null
        invariant t == head == old(head) == At(list, sentinel, 0) && (low, high) == now
        invariant if t.timeout == old(head.timeout) then sentinel.timeout == old(sentinel.timeout)
                  else list == [] && old(head.timeout) == low && t.timeout == (low + WRAP - 1) % WRAP
        modifies this`head, sentinel`timeout
        decreases if t.timeout == low then 1 else 0
      {
        head := t.next;
        t.timeout := (t.timeout + 0xffff_ffff) % WRAP;
        t := t.next;
      }
      if t.timeout == low {
        if old(Ring(head.queue, head.queue.items)) {
          Held(t.queue, t.queue.items).RingStays();
        }
        walk := Deliver(t);
      } else {
        walk := Stopped;
      }
    }

    // ----- Whole runs -----

    /** The pending timeouts and the notice queues are the client's, and the queues hold what `contents` says. */
    ghost predicate Owns(nodes: set<TimeOut>, contents: map<TimeOut, seq<TimeOut>>)
      reads this, nodes, contents.Keys
    {
      && Nodes(list) <= nodes && sentinel !in nodes
      && (forall t :: t in nodes ==> IsTimeOut(t) && t.queue != null && t.queue in contents)
      && (forall q :: q in contents ==> Keeps(q, contents[q], nodes))
    }

    /** What a client does: it fills in the deadline and sets the timeout. */
    method SetFor(t: TimeOut, timeout: nat, ghost nodes: set<TimeOut>, ghost contents: map<TimeOut, seq<TimeOut>>)
      requires Valid() && Owns(nodes, contents) && Unqueued(list, contents)
      requires t in nodes && t !in Nodes(list) && !Queued(contents, t) && timeout < WRAP
      modifies this`head, this`list, sentinel`timeout, nodes`next, nodes`timeout
      ensures Valid() && Owns(nodes, contents) && State() == SetEffect(old(State()), Pending(t, timeout))
    {
      hide Insert, NodesApart, InWords, Distance, Ring, RingAt;
      t.timeout := timeout;
      forall i | 0 <= i < |list| ensures Holds(list, sentinel, i) {
        assert old(Holds(list, sentinel, i)) && list[i].node in Nodes(list);
      }
      InsertNodes(list, Pending(t, timeout), low);
      var ok := Set(t);
      forall q | q in contents ensures Keeps(q, contents[q], nodes) {
        assert old(Keeps(q, contents[q], nodes));
        forall x | x in contents[q] ensures x.next == old(x.next) && x.prev == old(x.prev) {
          QueuedApart(old(list), contents, x);
        }
        Held(q, contents[q]).KeepsStill(nodes);
      }
    }

    /** A client takes the front timeout out of a queue. */
    method TakeFrom(q: TimeOut, ghost nodes: set<TimeOut>, ghost contents: map<TimeOut, seq<TimeOut>>)
      returns (t: TimeOut?)
      requires Valid() && Owns(nodes, contents) && Unqueued(list, contents) && q in contents
      modifies q`timeout, q`next, q`prev, q`items, nodes`prev
      ensures Valid() && Owns(nodes, TakeFromQueue(contents, q)) && State() == old(State())
      ensures contents[q] == [] ==> t == null
      ensures contents[q] != [] ==> t == contents[q][0]
    {
      hide NodesApart, InWords, RingAt, Unqueued;
      assert Keeps(q, contents[q], nodes);
      t := PopFront(q);
      hide Ring;
      StateStays();
      forall r | r in contents ensures Keeps(r, TakeFromQueue(contents, q)[r], nodes) {
        assert old(Keeps(r, contents[r], nodes));
        if r != q {
          Held(r, contents[r]).KeepsStill(nodes);
        }
      }
    }

    /** The list does not depend on the backward links. */
    twostate lemma StateStays()
      requires old(Valid()) && unchanged(this) && sentinel.timeout == old(sentinel.timeout)
      requires sentinel.next == old(sentinel.next)
      requires forall x :: x in Nodes(list) ==> x.next == old(x.next) && x.timeout == old(x.timeout)
      ensures Valid() && State() == old(State())
    {
      forall i | 0 <= i < |list| ensures Holds(list, sentinel, i) {
        assert old(Holds(list, sentinel, i)) && list[i].node in Nodes(list);
      }
    }

    /** The front timeout is not in its queue, and the back of that queue is the queue's own. */
    ghost predicate FrontIsApart(nodes: set<TimeOut>, contents: map<TimeOut, seq<TimeOut>>)
      reads this, head, head.queue
    {
      && head in nodes && head.queue != null && head.queue in contents && head !in contents[head.queue]
      && head.queue.prev != null && head.queue.prev != head
      && (head.queue.prev == head.queue || head.queue.prev in contents[head.queue])
    }

    lemma FrontApart(nodes: set<TimeOut>, contents: map<TimeOut, seq<TimeOut>>)
      requires Valid() && Owns(nodes, contents) && Unqueued(list, contents) && list != []
      ensures FrontIsApart(nodes, contents) && head == list[0].node
      ensures Keeps(head.queue, contents[head.queue], nodes)
      ensures head.queue.prev != sentinel && head.queue.prev !in Nodes(list)
      ensures head.queue.timeout == |contents[head.queue]| % WRAP
    {
      assert Holds(list, sentinel, 0) && list[0].node in Nodes(list);
      var q := head.queue;
      assert Keeps(q, contents[q], nodes) && !Queued(contents, list[0].node);
      RingEnds(q, contents[q]);
      hide Linked;
      if q.prev != q {
        assert q.prev in contents[q];
        QueuedApart(list, contents, q.prev);
      } else {
        assert forall x :: x in Nodes(list) ==> IsTimeOut(x);
      }
    }

    lemma FrontFires(nodes: set<TimeOut>, h: History)
      requires Valid() && Owns(nodes, h.queues) && Unqueued(list, h.queues) && Fires(State())
      ensures Intact(State(), h) <==> (head.queue.timeout + 1) % WRAP != TickEffect(State()).low
    {
      FrontApart(nodes, h.queues);
      OneMore(head.queue.timeout, |h.queues[head.queue]|);
      hide Valid, Owns, Unqueued, Keeps;
    }

    lemma QueuesApart(nodes: set<TimeOut>, contents: map<TimeOut, seq<TimeOut>>)
      requires Valid() && Owns(nodes, contents)
      ensures forall q :: q in contents ==> q != sentinel && q !in nodes
      ensures forall q :: q in contents ==> q.items == contents[q] && forall x :: x in contents[q] ==> x.queue == q
    {
      assert forall q :: q in contents ==> Keeps(q, contents[q], nodes);
    }

    /** Whatever the client owns stays as it is, but for the timeout that fires, its queue and the back of that. */
    twostate predicate OthersSame(nodes: set<TimeOut>, contents: map<TimeOut, seq<TimeOut>>)
      requires old(head.queue == null || head.queue.prev != null)
      reads nodes, contents.Keys
    {
      var moved := if old(Fires(State())) then old({head, head.queue, if head.queue == null then null else head.queue.prev})
                   else {};
      forall x :: x in nodes + contents.Keys && x !in moved ==> Same(x)
    }

    /** A tick of a timer whose list and queues are whole. */
    method TickOwned(ghost nodes: set<TimeOut>, ghost h: History) returns (walk: Walk)
      requires Valid() && Owns(nodes, h.queues) && Unqueued(list, h.queues)
      modifies this, sentinel`timeout, FiringQueue(), Firing()`next, Firing()`prev, FiringBack()`next
      ensures walk == if Intact(old(State()), h) then Stopped else InQueue
      ensures Valid() && State() == TickEffect(old(State()))
      ensures old(head.queue == null || head.queue.prev != null) && OthersSame(nodes, h.queues)
      ensures Fires(old(State())) ==> Delivered(old(head), walk) && Ring(old(head.queue), old(head.queue).items)
    {
      if list != [] {
        FrontApart(nodes, h.queues);
      }
      QueuesApart(nodes, h.queues);
      if Fires(State()) {
        FrontFires(nodes, h);
      }
      ghost var moved := if Fires(State()) then {head, head.queue, head.queue.prev} else {};
      hide Ring, NodesApart, Unqueued, InWords, Intact, TickEffect, Owns, Keeps;
      walk := Tick();
      forall x | x in nodes + h.queues.Keys && x !in moved ensures Same(x) {
      }
    }

    method TickKept(ghost nodes: set<TimeOut>, ghost h: History) returns (walk: Walk)
      requires Valid() && Owns(nodes, h.queues) && Unqueued(list, h.queues)
      modifies this, sentinel`timeout, FiringQueue(), Firing()`next, Firing()`prev, FiringBack()`next
      ensures walk == if Intact(old(State()), h) then Stopped else InQueue
      ensures Valid() && State() == TickEffect(old(State()))
      ensures Fires(old(State())) ==> Delivered(old(head), walk)
      ensures Owns(nodes, Noted(old(State()), h, TickEvent).queues)
    {
      if list != [] {
        FrontApart(nodes, h.queues);
      }
      hide Ring, NodesApart, Unqueued, InWords, Intact;
      walk := TickOwned(nodes, h);
      TickOwns((nodes, h));
    }

    /** A tick, and what it put into a queue, as a look at that queue tells. */
    method TickAt(now: nat, ghost nodes: set<TimeOut>, ghost h: History)
      returns (walk: Walk, log: seq<Action>)
      requires Valid() && Owns(nodes, h.queues) && Unqueued(list, h.queues) && h.now == now
      modifies this, sentinel`timeout, nodes`next, nodes`prev, h.queues.Keys
      ensures walk == if Intact(old(State()), h) then Stopped else InQueue
      ensures log == ActionsOf(old(State()), h, TickEvent)
      ensures Valid() && State() == TickEffect(old(State()))
      ensures Owns(nodes, Noted(old(State()), h, TickEvent).queues)
    {
      if list != [] {
        FrontApart(nodes, h.queues);
      }
      var front, queue := head, head.queue;
      assert queue != sentinel;
      var before := if queue == null then 0 else queue.timeout;
      hide Ring, NodesApart, Unqueued, InWords, Intact, TickEffect, Owns, Keeps, Noted;
      ghost var fires := Fires(State());
      walk := TickKept(nodes, h);
      var after := if queue == null then 0 else queue.timeout;
      assert fires <==> after != before;
      log := if after != before then [Put(front, now + 1)] else [];
    }

    twostate lemma TickOwns(owned: (set<TimeOut>, History))
      requires old(Valid() && Owns(owned.0, owned.1.queues) && (list != [] ==> FrontIsApart(owned.0, owned.1.queues)))
      requires old(head.queue == null || head.queue.prev != null)
      requires OthersSame(owned.0, owned.1.queues) && list == TickEffect(old(State())).list
      requires old(Fires(State()) && head.queue != null) ==>
        var q := old(head.queue); q.items == old(q.items) + [old(head)] && Ring(q, q.items)
      ensures Owns(owned.0, Noted(old(State()), owned.1, TickEvent).queues)
    {
      ghost var queues := Noted(old(State()), owned.1, TickEvent).queues;
      assert old(list != [] ==> Keeps(head.queue, owned.1.queues[head.queue], owned.0));
      forall q | q in queues ensures Keeps(q, queues[q], owned.0) {
        assert old(Keeps(q, owned.1.queues[q], owned.0));
        if !(old(Fires(State())) && q == old(head.queue)) {
          assert Same(q) && forall x :: x in owned.1.queues[q] ==> Same(x);
          Held(q, owned.1.queues[q]).KeepsStill(owned.0);
        }
      }
    }

    /** One event; a tick may go astray. */
    method Step(e: Event, now: nat, ghost nodes: set<TimeOut>, ghost h: History) returns (walk: Walk, log: seq<Action>)
      requires Valid() && Owns(nodes, h.queues) && Unqueued(list, h.queues) && h.now == now
      requires MayStep(State(), h, e, nodes)
      modifies this, sentinel`timeout, nodes`next, nodes`prev, nodes`timeout, h.queues.Keys
      ensures walk == if Allowed(old(State()), h, e) then Stopped else InQueue
      ensures log == ActionsOf(old(State()), h, e)
      ensures Valid() && State() == After(old(State()), e)
      ensures Owns(nodes, Noted(old(State()), h, e).queues) && Unqueued(list, Noted(old(State()), h, e).queues)
    {
      ghost var s := State();
      walk, log := Stopped, [];
      hide Fires, InWords, NodesApart, Valid, Owns, Unqueued, TickEffect, Insert;
      match e
      case SetEvent(p) =>
        SetUnqueued(list, p, low, h.queues);
        SetFor(p.node, p.timeout, nodes, h.queues);
      case TakeEvent(queue) =>
        TakeUnqueued(list, h.queues, queue);
        var t := TakeFrom(queue, nodes, h.queues);
        log := if t == null then [] else [Take(queue, t)];
      case TickEvent =>
        TickUnqueued(s, h);
        walk, log := TickAt(now, nodes, h);
    }

    /**
      A run of events, up to the first tick whose walk takes a queue for an expired timeout: the first `done`
      events lead to what `last` and `g` say, the queues hold what `g` says they hold, and the log tells what
      was put into them and taken from them.
     */
    method Run(es: seq<Event>, now: nat, ghost nodes: set<TimeOut>, ghost h: History)
      returns (done: nat, walk: Walk, log: seq<Action>, ghost last: Timers, ghost g: History)
      requires Valid() && Owns(nodes, h.queues) && Unqueued(list, h.queues) && h.now == now
      requires Callable(State(), h, es, nodes)
      modifies this, sentinel`timeout, nodes`next, nodes`prev, nodes`timeout, h.queues.Keys
      ensures done <= |es| && Ran(old(State()), h, es[..done], log, last, g)
      ensures done == |es| ==> walk == Stopped && Valid() && State() == last && Owns(nodes, g.queues)
      ensures done < |es| ==> walk == InQueue && es[done].TickEvent? && !Intact(last, g)
      decreases |es|
    {
      ghost var s := State();
      done, walk, log, last, g := 0, Stopped, [], s, h;
      if es != [] {
        hide Allowed, MayStep, After, Noted, ActionsOf, Owns, Valid, Unqueued;
        walk, log := Step(es[0], now, nodes, h);
        if walk != Stopped {
          return 0, walk, [], s, h;
        }
        var more, rest;
        more, walk, rest, last, g :=
          Run(es[1..], if es[0].TickEvent? then now + 1 else now, nodes, Noted(s, h, es[0]));
        RanFirst(s, h, es, more, rest, last, g);
        done, log := more + 1, log + rest;
      }
    }
  }

  /** The queue holds these timeouts, all of them its own. */
  ghost predicate Keeps(q: TimeOut, items: seq<TimeOut>, nodes: set<TimeOut>)
    reads q, nodes
  {
    q.isQueue && q.items == items && (forall x :: x in items ==> x in nodes && x.queue == q) && Ring(q, items)
  }

  lemma QueuedApart(list: seq<Pending>, contents: map<TimeOut, seq<TimeOut>>, x: TimeOut)
    requires Unqueued(list, contents) && Queued(contents, x)
    ensures x !in Nodes(list)
  {
  }

  twostate predicate Same(x: TimeOut)
    reads x
  {
    x.timeout == old(x.timeout) && x.next == old(x.next) && x.prev == old(x.prev) && x.items == old(x.items)
  }

  // ----- Runs -----

  /** Sets and takes are such as a run allows; a tick comes whatever it will do. */
  ghost predicate MayStep(s: Timers, h: History, e: Event, nodes: set<TimeOut>) {
    match e
    case SetEvent(p) => p.node in nodes && Allowed(s, h, e)
    case TakeEvent(_) => Allowed(s, h, e)
    case TickEvent => true
  }

  ghost predicate Callable(s: Timers, h: History, es: seq<Event>, nodes: set<TimeOut>)
    decreases |es|
  {
    es != [] ==>
      && MayStep(s, h, es[0], nodes)
      && (Allowed(s, h, es[0]) ==> Callable(After(s, es[0]), Noted(s, h, es[0]), es[1..], nodes))
  }

  /** The events are a run from `s` and `h` to `t` and `g` with these puts and takes. */
  ghost predicate Ran(s: Timers, h: History, es: seq<Event>, log: seq<Action>, t: Timers, g: History) {
    IsRun(s, h, es) && (t, g) == Final(s, h, es) && log == Actions(s, h, es)
  }

  lemma RanFirst(s: Timers, h: History, es: seq<Event>, more: nat, rest: seq<Action>, t: Timers, g: History)
    requires es != [] && more < |es| && Allowed(s, h, es[0])
    requires Ran(After(s, es[0]), Noted(s, h, es[0]), es[1..][..more], rest, t, g)
    ensures Ran(s, h, es[..more + 1], ActionsOf(s, h, es[0]) + rest, t, g)
  {
    assert es[..more + 1][1..] == es[1..][..more];
    hide Allowed, After, Noted, ActionsOf;
  }

  /**
    From boot, on the links themselves: whatever is set, taken and ticked, up to a tick whose walk takes a
    queue for a timeout every timeout has been put into its queue exactly as often as it was set once its
    tick has come, each time at that very tick, and not before; and what was taken from a queue and what is
    left in it is what was put into it, in order.
   */
  method RunFromBoot(timer: TimerStruct, es: seq<Event>, ghost nodes: set<TimeOut>, ghost queues: set<TimeOut>)
    returns (done: nat, walk: Walk, log: seq<Action>, ghost last: Timers, ghost g: History)
    requires timer.Valid() && timer.State() == Boot() && timer.Owns(nodes, NothingYet(queues).queues)
    requires Callable(Boot(), NothingYet(queues), es, nodes)
    modifies timer, timer.sentinel`timeout, nodes`next, nodes`prev, nodes`timeout, queues
    ensures done <= |es| && Ran(Boot(), NothingYet(queues), es[..done], log, last, g)
    ensures forall a :: Deliveries(log)[a] == if a.at <= g.now then g.armed[a] else 0
    ensures forall q :: q in queues ==> q in g.queues && TakesFrom(log, q) + g.queues[q] == PutsInto(log, q)
    ensures done == |es| ==> walk == Stopped && timer.Valid() && timer.State() == last && timer.Owns(nodes, g.queues)
    ensures done < |es| ==> walk == InQueue && es[done].TickEvent? && !Intact(last, g)
  {
    assert NothingYet(queues).queues.Keys == queues;
    hide Deliveries, PutsInto, TakesFrom, Ran, Intact, InWords, NodesApart, Nodes, Holds, Keeps;
    done, walk, log, last, g := timer.Run(es, 0, nodes, NothingYet(queues));
    BootRun(queues, es[..done], log, last, g);
  }

  lemma BootRun(queues: set<TimeOut>, es: seq<Event>, log: seq<Action>, last: Timers, g: History)
    requires Ran(Boot(), NothingYet(queues), es, log, last, g)
    ensures forall a :: Deliveries(log)[a] == if a.at <= g.now then g.armed[a] else 0
    ensures forall q :: q in queues ==> q in g.queues && TakesFrom(log, q) + g.queues[q] == PutsInto(log, q)
  {
    ghost var h := NothingYet(queues);
    hide IsRun, Final, Actions, Deliveries, PutsInto, TakesFrom;
    ActionsDeliver(Boot(), h, es);
    forall a ensures Deliveries(log)[a] == if a.at <= g.now then g.armed[a] else 0 {
      DeliveredExactlyOnTime(queues, es, a);
    }
    forall q | q in queues ensures q in g.queues && TakesFrom(log, q) + g.queues[q] == PutsInto(log, q) {
      QueueBalance(Boot(), h, es, q);
      assert [] + PutsInto(log, q) == PutsInto(log, q);
    }
  }

  // ----- Runs that fail -----

  /** A first timeout after boot, with an empty notice queue. */
  method SetAfterBoot(timeout: nat) returns (timer: TimerStruct, t: TimeOut)
    requires timeout < WRAP
    ensures fresh(timer) && fresh(timer.sentinel) && fresh(t) && IsTimeOut(t) && t.queue != null && fresh(t.queue)
    ensures timer.Valid() && timer.State() == Timers(0, 0, [Pending(t, timeout)], WRAP - 1)
    ensures t.queue.prev == t.queue && t.queue.timeout == 0 && t.queue.items == []
  {
    timer := new TimerStruct();
    var queue := new TimeOut.Queue();
    t := new TimeOut(timeout, queue);
    var ok := timer.Set(t);
    assert timer.list == [Pending(t, timeout)];
  }

  /** A first timeout set for tick 1, its queue empty: the queue then is as long as the tick, and is taken for a timeout. */
  method FirstTickGoesAstray() returns (walk: Walk)
    ensures walk == InQueue
  {
    var timer, t := SetAfterBoot(1);
    assert Holds(timer.list, timer.sentinel, 0);
    walk := timer.Tick();
  }

  /** A first timeout set for tick 2 is put into its queue then, where it stays. */
  method SetForTickTwo() returns (timer: TimerStruct, t: TimeOut)
    ensures fresh(timer) && fresh(timer.sentinel) && fresh(t) && IsTimeOut(t) && t.queue != null && fresh(t.queue)
    ensures timer.Valid() && timer.State() == Timers(2, 0, [], WRAP - 1)
    ensures t.queue.prev == t && t.queue.items == [t]
  {
    timer, t := SetAfterBoot(2);
    assert Holds(timer.list, timer.sentinel, 0);
    var walk := timer.Tick();
    assert Holds(timer.list, timer.sentinel, 0);
    walk := timer.Tick();
    assert walk == Stopped;
  }

  /**
    A timeout that is set for tick 5 while it still lies in its queue leads the walk round and round: it is
    put into its queue again at every round, and the tick never ends.
   */
  method SetWhileQueued() returns (timer: TimerStruct, t: TimeOut, walk: Walk)
    ensures walk == Forever && t.next == t && t.queue != null && t.queue.prev == t && t.timeout == timer.low
  {
    timer, t := SetForTickTwo();
    t.timeout := 5;
    var ok := timer.Set(t);
    assert timer.list == [Pending(t, 5)];
    TickToFive(timer, t);
    assert Holds(timer.list, timer.sentinel, 0);
    walk := timer.Tick();
  }

  method TickToFive(timer: TimerStruct, t: TimeOut)
    requires timer.Valid() && timer.State() == Timers(2, 0, [Pending(t, 5)], 1)
    requires t.queue != null && t.queue.prev == t
    modifies timer, timer.sentinel`timeout
    ensures timer.Valid() && timer.State() == Timers(4, 0, [Pending(t, 5)], 1)
  {
    assert Holds(timer.list, timer.sentinel, 0);
    var walk := timer.Tick();
    assert Holds(timer.list, timer.sentinel, 0);
    walk := timer.Tick();
  }

  /** Two timeouts set for tick 2 right after boot, each with a notice queue of its own. */
  method SetBothForTickTwo() returns (timer: TimerStruct, early: TimeOut, late: TimeOut)
    ensures fresh(timer) && fresh(timer.sentinel) && fresh(early) && fresh(late)
    ensures timer.Valid() && timer.State() == Timers(0, 0, [Pending(late, 2), Pending(early, 2)], WRAP - 1)
    ensures early.queue != null && late.queue != null && early.queue != late.queue && early.queue.isQueue
    ensures fresh(early.queue) && fresh(late.queue) && early.queue.items == [] && late.queue.items == []
    ensures early.queue.prev == early.queue && late.queue.prev == late.queue && late.queue.timeout == 0
  {
    timer, early := SetAfterBoot(2);
    late := OtherTimeOut(2);
    var ok := timer.Set(late);
    assert timer.list == [Pending(late, 2), Pending(early, 2)];
  }

  method OtherTimeOut(timeout: nat) returns (t: TimeOut)
    ensures fresh(t) && IsTimeOut(t) && t.timeout == timeout && t.queue != null && fresh(t.queue)
    ensures t.queue.prev == t.queue && t.queue.timeout == 0 && t.queue.items == []
  {
    var queue := new TimeOut.Queue();
    t := new TimeOut(timeout, queue);
  }

  /** Two ticks whose walks stop, at the second of which one timeout is due and delivered. */
  method TickTwice(timer: TimerStruct, late: TimeOut, early: TimeOut)
    requires timer.Valid() && timer.State() == Timers(0, 0, [Pending(late, 2), Pending(early, 2)], WRAP - 1)
    requires late.queue != null && late.queue.prev == late.queue && late.queue.timeout == 0
    requires early.queue != null && early.queue != late.queue && early.queue.prev == early.queue
    modifies timer, timer.sentinel`timeout, late`next, late`prev, late.queue
    ensures timer.Valid() && timer.State() == Timers(2, 0, [Pending(early, 2)], WRAP - 1)
    ensures early.queue.items == old(early.queue.items) && early.queue.prev == early.queue
  {
    assert Holds(timer.list, timer.sentinel, 0);
    var walk := timer.Tick();
    assert walk == Stopped && timer.State() == Timers(1, 0, [Pending(late, 2), Pending(early, 2)], WRAP - 1);
    assert Holds(timer.list, timer.sentinel, 0) && Holds(timer.list, timer.sentinel, 1);
    assert late.queue !in Nodes(timer.list);
    walk := timer.Tick();
    assert walk == Stopped;
  }

  /**
    Of two timeouts for one tick the one set first is missed, though every walk stops: it stays on the
    list past its tick, its queue empty, and one tick later the list has lost its order.
   */
  method SecondOfTwoIsMissed() returns (timer: TimerStruct, missed: TimeOut, walk: Walk)
    ensures timer.Valid() && timer.low == 3 && walk == Stopped
    ensures timer.list == [Pending(missed, 2)] && missed.queue != null && missed.queue.items == []
    ensures !Ordered(timer.State())
  {
    var other;
    timer, missed, other := SetBothForTickTwo();
    TickTwice(timer, other, missed);
    assert Holds(timer.list, timer.sentinel, 0);
    StaysOver(timer.State());
    walk := timer.Tick();
  }

  /** A timeout left behind at its own tick puts the list out of order at the next. */
  lemma StaysOver(s: Timers)
    requires InWords(s) && Ordered(s) && s.list != [] && s.list[0].timeout == s.low && s.sentinel != s.low
    ensures !Fires(s) && TickEffect(s).list == s.list && !Ordered(TickEffect(s))
  {
    TickKeepsOrder(s);
  }
}
