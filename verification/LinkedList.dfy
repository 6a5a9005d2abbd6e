/**
  The intrusive circular doubly linked list.  A list is a dummy node and the nodes linked behind it;
  `nodes` is the sequence it stands for.  Every call is atomic.
 */
module LinkedList {
  import opened Basics

  class Node {
    var next: Node?
    var prev: Node?

    constructor ()
      ensures next == null && prev == null
    {
      next, prev := null, null;
    }
  }

  ghost predicate Linked(a: Node, b: Node)
    reads a, b
  {
    a.next == b && b.prev == a
  }

  /** The ring of `dummy` and `s`, read from the dummy node round to the dummy node again. */
  ghost function At(dummy: Node, s: seq<Node>, i: int): Node {
    if 0 < i <= |s| then s[i - 1] else dummy
  }

  /** What is where in the ring once the node at place k of the sequence is out. */
  lemma CutOut(dummy: Node, was: seq<Node>, k: nat)
    requires k < |was| && Distinct(was) && dummy !in was
    ensures var s := was[..k] + was[k + 1..];
      && Distinct(s) && dummy !in s
      && (forall i :: 0 <= i <= k ==> At(dummy, s, i) == At(dummy, was, i))
      && (forall i :: k < i <= |was| ==> At(dummy, s, i) == At(dummy, was, i + 1))
    ensures forall i :: 0 <= i < k ==> At(dummy, was, i) != At(dummy, was, k)
    ensures forall i :: k + 2 <= i <= |was| ==> At(dummy, was, i) != At(dummy, was, k)
    ensures forall i :: 1 <= i <= k ==> At(dummy, was, i) != At(dummy, was, k + 2)
    ensures forall i :: k + 2 < i <= |was| + 1 ==> At(dummy, was, i) != At(dummy, was, k + 2)
  {
    var s := was[..k] + was[k + 1..];
    assert forall i :: 0 <= i < |s| ==> s[i] == if i < k then was[i] else was[i + 1];
  }

  class LinkedList {
    const dummy: Node
    var size: nat
    ghost var nodes: seq<Node>

    ghost predicate Valid()
      reads this, dummy, nodes
    {
      && size == |nodes|
      && dummy !in nodes && Distinct(nodes)
      && forall i :: 0 <= i <= |nodes| ==> Linked(At(dummy, nodes, i), At(dummy, nodes, i + 1))
    }

    /** `ckLinkedListInit` */
    constructor ()
      ensures Valid() && nodes == [] && fresh(dummy)
    {
      dummy := new Node();
      size := 0;
      nodes := [];
      new;
      dummy.next := dummy;
      dummy.prev := dummy;
    }

    /** `ckLinkedListPushBack` */
    method PushBack(node: Node)
      requires Valid() && node != dummy && node !in nodes
      modifies this`size, this`nodes, dummy, nodes, node
      ensures Valid() && nodes == old(nodes) + [node]
    {
      size := size + 1;
      var tail := dummy.prev;
      assert Linked(At(dummy, nodes, |nodes|), At(dummy, nodes, |nodes| + 1)) && tail == At(dummy, nodes, |nodes|);
      node.next := dummy;
      node.prev := tail;
      dummy.prev := node;
      tail.next := node;
      ghost var was := nodes;
      nodes := was + [node];
      forall i | 0 <= i <= |nodes| ensures Linked(At(dummy, nodes, i), At(dummy, nodes, i + 1)) {
        assert i < |was| ==> old(Linked(At(dummy, was, i), At(dummy, was, i + 1)));
      }
    }

    /** `ckLinkedListPopFront`: null when the list is empty. */
    method PopFront() returns (ptr: Node?)
      requires Valid()
      modifies this`size, this`nodes, dummy, nodes
      ensures Valid()
      ensures old(nodes) == [] ==> ptr == null && nodes == []
      ensures old(nodes) != [] ==> ptr == old(nodes)[0] && nodes == old(nodes)[1..]
    {
      assert Linked(At(dummy, nodes, 0), At(dummy, nodes, 1));
      ptr := dummy.next;
      var next := ptr.next;
      if ptr == dummy {
        return null;
      }
      assert Linked(At(dummy, nodes, 0), At(dummy, nodes, 1)) && Linked(At(dummy, nodes, 1), At(dummy, nodes, 2));
      assert next == At(dummy, nodes, 2);
      dummy.next := next;
      next.prev := dummy;
      size := size - 1;
      ghost var was := nodes;
      nodes := was[1..];
      forall i | 0 <= i <= |nodes| ensures Linked(At(dummy, nodes, i), At(dummy, nodes, i + 1)) {
        assert old(Linked(At(dummy, was, i + 1), At(dummy, was, i + 2)));
      }
    }

    /** `ckLinkedListErase` of a member node. */
    method Erase(node: Node)
      requires Valid() && node in nodes
      modifies this`size, this`nodes, dummy, nodes
      ensures Valid() && nodes == Without(old(nodes), node)
    {
      ghost var k :| 0 <= k < |nodes| && nodes[k] == node;
      WithoutAt(nodes, k);
      CutOut(dummy, nodes, k);
      Bridge(node, k);
      size := size - 1;
      nodes := nodes[..k] + nodes[k + 1..];
    }

    /** The neighbours of the node are linked to each other. */
    method Bridge(node: Node, ghost k: nat)
      requires Valid() && k < |nodes| && nodes[k] == node
      modifies dummy, nodes
      ensures var rest := nodes[..k] + nodes[k + 1..];
        forall i :: 0 <= i <= |rest| ==> Linked(At(dummy, rest, i), At(dummy, rest, i + 1))
    {
      ghost var was, rest := nodes, nodes[..k] + nodes[k + 1..];
      CutOut(dummy, was, k);
      assert Linked(At(dummy, was, k), At(dummy, was, k + 1)) && Linked(At(dummy, was, k + 1), At(dummy, was, k + 2));
      assert |rest| == |was| - 1 && At(dummy, was, k + 1) == node;
      assert forall i :: 0 <= i <= |was| + 1 ==> At(dummy, was, i) == dummy || At(dummy, was, i) in was;
      hide Distinct, At;
      var prev, next := node.prev, node.next;
      prev.next := next;
      next.prev := prev;
      forall i | 0 <= i < k ensures Linked(At(dummy, rest, i), At(dummy, rest, i + 1)) {
        assert old(Linked(At(dummy, was, i), At(dummy, was, i + 1)));
      }
      forall i | k < i <= |rest| ensures Linked(At(dummy, rest, i), At(dummy, rest, i + 1)) {
        assert old(Linked(At(dummy, was, i + 1), At(dummy, was, i + 2)));
      }
    }

    // ----- The lock-free variants, each run as one atomic step -----

    /** `ckLinkedListPushBack_lockfree`: the compare-and-swap succeeds at the first attempt. */
    method PushBackLockFree(node: Node)
      requires Valid() && node != dummy && node !in nodes
      modifies this`size, this`nodes, dummy, nodes, node
      ensures Valid() && nodes == old(nodes) + [node]
    {
      size := size + 1;
      node.next := dummy;
      var tail := dummy.prev;
      assert Linked(At(dummy, nodes, |nodes|), At(dummy, nodes, |nodes| + 1)) && tail == At(dummy, nodes, |nodes|);
      node.prev := tail;
      if dummy.prev == tail {
        dummy.prev := node;
        tail.next := node;
      } else {
        assert false;
      }
      ghost var was := nodes;
      nodes := was + [node];
      forall i | 0 <= i <= |nodes| ensures Linked(At(dummy, nodes, i), At(dummy, nodes, i + 1)) {
        assert i < |was| ==> old(Linked(At(dummy, was, i), At(dummy, was, i + 1)));
      }
    }

    /** `ckLinkedListPopFront_lockfree`: both compare-and-swaps succeed at the first attempt. */
    method PopFrontLockFree() returns (ptr: Node?)
      requires Valid()
      modifies this`size, this`nodes, dummy, nodes
      ensures Valid()
      ensures old(nodes) == [] ==> ptr == null && nodes == []
      ensures old(nodes) != [] ==> ptr == old(nodes)[0] && nodes == old(nodes)[1..]
    {
      assert Linked(At(dummy, nodes, 0), At(dummy, nodes, 1));
      ptr := dummy.next;
      if ptr == dummy {
        return null;
      }
      assert Linked(At(dummy, nodes, 1), At(dummy, nodes, 2));
      var next := ptr.next;
      assert next == At(dummy, nodes, 2);
      if next.prev == ptr {
        next.prev := dummy;
      } else {
        assert false;
      }
      var dnext := dummy.next;
      if dummy.next == dnext {
        dummy.next := next;
      }
      size := size - 1;
      ghost var was := nodes;
      nodes := was[1..];
      forall i | 0 <= i <= |nodes| ensures Linked(At(dummy, nodes, i), At(dummy, nodes, i + 1)) {
        assert old(Linked(At(dummy, was, i + 1), At(dummy, was, i + 2)));
      }
    }
  }

  // ----- The sequence model -----

  ghost function Without(s: seq<Node>, x: Node): seq<Node> {
    if s == [] then [] else if s[0] == x then s[1..] else [s[0]] + Without(s[1..], x)
  }

  lemma {:induction false} WithoutAt(s: seq<Node>, k: nat)
    requires Distinct(s) && k < |s|
    ensures Without(s, s[k]) == s[..k] + s[k + 1..]
  {
    if k > 0 {
      WithoutAt(s[1..], k - 1);
      assert s[1..][..k - 1] == s[1..k];
      assert s[..k] == [s[0]] + s[1..k];
      assert s[1..][k..] == s[k + 1..];
    }
  }

  // ----- Several lists at once -----

  datatype Call =
    | Push(list: nat, node: Node, lockFree: bool)
    | Pop(list: nat, lockFree: bool)
    | Remove(list: nat, node: Node)

  /** No node is in two of the lists. */
  ghost predicate Apart(models: seq<seq<Node>>) {
    forall i, j, n :: 0 <= i < j < |models| && n in models[i] ==> n !in models[j]
  }

  /** A pushed node is in no list, an erased node is in the list it is erased from. */
  ghost predicate Allowed(models: seq<seq<Node>>, dummies: set<Node>, c: Call) {
    && c.list < |models|
    && (c.Push? ==> c.node !in dummies && forall i :: 0 <= i < |models| ==> c.node !in models[i])
    && (c.Remove? ==> c.node in models[c.list])
  }

  ghost function After(s: seq<Node>, c: Call): seq<Node> {
    match c
    case Push(_, node, _) => s + [node]
    case Pop(_, _) => if s == [] then [] else s[1..]
    case Remove(_, node) => Without(s, node)
  }

  ghost function Effect(models: seq<seq<Node>>, c: Call): seq<seq<Node>>
    requires c.list < |models|
  {
    models[c.list := After(models[c.list], c)]
  }

  /** What the call hands back: the front node of a list that had one. */
  ghost function Answer(models: seq<seq<Node>>, c: Call): Node?
    requires c.list < |models|
  {
    if c.Pop? && models[c.list] != [] then models[c.list][0] else null
  }

  ghost predicate AllAllowed(models: seq<seq<Node>>, dummies: set<Node>, calls: seq<Call>)
    decreases |calls|
  {
    calls == []
    || (Allowed(models, dummies, calls[0]) && AllAllowed(Effect(models, calls[0]), dummies, calls[1..]))
  }

  ghost function Effects(models: seq<seq<Node>>, dummies: set<Node>, calls: seq<Call>): seq<seq<Node>>
    requires AllAllowed(models, dummies, calls)
    decreases |calls|
  {
    if calls == [] then models else Effects(Effect(models, calls[0]), dummies, calls[1..])
  }

  ghost function Answers(models: seq<seq<Node>>, dummies: set<Node>, calls: seq<Call>): seq<Node?>
    requires AllAllowed(models, dummies, calls)
    decreases |calls|
  {
    if calls == [] then []
    else [Answer(models, calls[0])] + Answers(Effect(models, calls[0]), dummies, calls[1..])
  }

  ghost function Dummies(lists: seq<LinkedList>): (r: set<Node>)
    ensures forall i :: 0 <= i < |lists| ==> lists[i].dummy in r
  {
    set l | l in lists :: l.dummy
  }

  ghost function Nodes(models: seq<seq<Node>>): (r: set<Node>)
    ensures forall i, n :: 0 <= i < |models| && n in models[i] ==> n in r
  {
    set i, n | 0 <= i < |models| && n in models[i] :: n
  }

  /** The lists are well formed, share no node and stand for the sequences `models`. */
  ghost predicate Represents(lists: seq<LinkedList>, models: seq<seq<Node>>)
    reads lists, Dummies(lists), Nodes(models)
  {
    && |lists| == |models|
    && (forall i, j :: 0 <= i < j < |lists| ==> lists[i] != lists[j] && lists[i].dummy != lists[j].dummy)
    && (forall i :: 0 <= i < |lists| ==> lists[i].nodes == models[i])
    && (forall i :: 0 <= i < |lists| ==> lists[i].Valid())
    && Apart(models)
    && forall d, i :: d in Dummies(lists) && 0 <= i < |models| ==> d !in models[i]
  }

  lemma WithoutIsPart(s: seq<Node>, x: Node)
    ensures forall n :: n in Without(s, x) ==> n in s
  {
  }

  /** Lists that share no node still share none after the call, and no dummy node gets into a list. */
  lemma EffectApart(models: seq<seq<Node>>, dummies: set<Node>, c: Call)
    requires Apart(models) && Allowed(models, dummies, c)
    requires forall d, i :: d in dummies && 0 <= i < |models| ==> d !in models[i]
    ensures Apart(Effect(models, c))
    ensures forall d, i :: d in dummies && 0 <= i < |models| ==> d !in Effect(models, c)[i]
  {
    var after := Effect(models, c);
    if c.Remove? {
      WithoutIsPart(models[c.list], c.node);
    }
    assert forall n :: n in after[c.list] ==> n in models[c.list] || (c.Push? && n == c.node);
  }

  lemma EffectNodes(models: seq<seq<Node>>, c: Call)
    requires c.list < |models|
    ensures Nodes(Effect(models, c)) <= Nodes(models) + if c.Push? then {c.node} else {}
  {
    if c.Remove? {
      WithoutIsPart(models[c.list], c.node);
    }
    forall i, n | 0 <= i < |models| && n in Effect(models, c)[i]
      ensures n in Nodes(models) || (c.Push? && n == c.node)
    {
      assert i != c.list ==> n in models[i];
      assert i == c.list ==> n in models[c.list] || (c.Push? && n == c.node);
    }
  }

  twostate lemma StillValid(list: LinkedList)
    requires old(list.Valid()) && unchanged(list, list.dummy)
    requires forall n :: n in old(list.nodes) ==> n.next == old(n.next) && n.prev == old(n.prev)
    ensures list.Valid()
  {
    forall i | 0 <= i <= |list.nodes|
      ensures Linked(At(list.dummy, list.nodes, i), At(list.dummy, list.nodes, i + 1))
    {
      assert old(Linked(At(list.dummy, list.nodes, i), At(list.dummy, list.nodes, i + 1)));
    }
  }

  method PerformOne(list: LinkedList, c: Call) returns (ptr: Node?)
    requires list.Valid()
    requires c.Push? ==> c.node != list.dummy && c.node !in list.nodes
    requires c.Remove? ==> c.node in list.nodes
    modifies list, list.dummy, list.nodes, if c.Push? then {c.node} else {}
    ensures list.Valid() && list.nodes == After(old(list.nodes), c)
    ensures ptr == if c.Pop? && old(list.nodes) != [] then old(list.nodes)[0] else null
  {
    ptr := null;
    match c
    case Push(_, node, lockFree) =>
      if lockFree { list.PushBackLockFree(node); } else { list.PushBack(node); }
    case Pop(_, lockFree) =>
      if lockFree { ptr := list.PopFrontLockFree(); } else { ptr := list.PopFront(); }
    case Remove(_, node) =>
      list.Erase(node);
  }

  /** One call on one of several lists changes that list as its model says and no other. */
  method Perform(lists: seq<LinkedList>, c: Call, ghost models: seq<seq<Node>>) returns (ptr: Node?)
    requires Represents(lists, models) && Allowed(models, Dummies(lists), c)
    modifies lists, Dummies(lists), models[c.list], if c.Push? then {c.node} else {}
    ensures Represents(lists, Effect(models, c)) && ptr == Answer(models, c)
  {
    EffectApart(models, Dummies(lists), c);
    var list := lists[c.list];
    assert list.nodes == models[c.list] && list.Valid();
    assert forall i, n :: 0 <= i < |models| && i != c.list && n in models[i] ==> n !in models[c.list];
    hide After, Apart;
    ptr := PerformOne(list, c);
    forall i | 0 <= i < |lists| && i != c.list ensures lists[i].nodes == models[i] && lists[i].Valid() {
      assert old(lists[i].Valid()) && lists[i] != list && lists[i].dummy != list.dummy;
      assert lists[i].dummy !in models[c.list] && list.dummy !in models[i];
      assert c.Push? ==> c.node != lists[i].dummy && c.node !in models[i];
      assert lists[i].nodes == models[i];
      StillValid(lists[i]);
    }
  }

  /** Any run of calls over any number of lists behaves as the same run over plain sequences. */
  method Run(lists: seq<LinkedList>, calls: seq<Call>, ghost models: seq<seq<Node>>, ghost all: set<Node>)
    returns (answers: seq<Node?>)
    requires Represents(lists, models) && AllAllowed(models, Dummies(lists), calls)
    requires Nodes(models) <= all && forall k :: 0 <= k < |calls| && calls[k].Push? ==> calls[k].node in all
    modifies lists, Dummies(lists), all
    ensures Represents(lists, Effects(models, Dummies(lists), calls))
    ensures answers == Answers(models, Dummies(lists), calls)
    decreases |calls|
  {
    if calls == [] {
      answers := [];
    } else {
      var c := calls[0];
      EffectNodes(models, c);
      var ptr := Perform(lists, c, models);
      hide Represents, Allowed, Effect, Answer, Nodes;
      var rest := Run(lists, calls[1..], Effect(models, c), all);
      answers := [ptr] + rest;
    }
  }
}
