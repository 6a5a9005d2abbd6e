/**
  Cluster chains of a FAT volume.  A table entry is 0 for a free cluster, the number of the next
  cluster, or 0xfff8 and above at the end of a chain.
 */
module FatChains {
  import opened Basics


  const CLUSTER_END: nat := 0xffff    // what the program writes
  const FIRST_END: nat := 0xfff8      // what it accepts as an end
  const BAD: nat := 0xfff7

  ghost predicate InTable(fat: seq<nat>, limit: nat, cs: seq<nat>) {
    limit <= BAD && limit <= |fat| && forall i :: 0 <= i < |cs| ==> 2 <= cs[i] < limit
  }

  /** `cs` lists, in order and without repetition, the clusters reached from `cs[0]`. */
  ghost predicate Chain(fat: seq<nat>, limit: nat, cs: seq<nat>) {
    && InTable(fat, limit, cs)
    && |cs| > 0 && Distinct(cs)
    && (forall i :: 0 <= i < |cs| - 1 ==> fat[cs[i]] == cs[i + 1])
    && fat[cs[|cs| - 1]] >= FIRST_END
  }

  /** A table whose chain from a given cluster is well formed has only one such chain. */
  lemma {:induction false} ChainUnique(fat: seq<nat>, limit: nat, cs: seq<nat>, ds: seq<nat>)
    requires Chain(fat, limit, cs) && Chain(fat, limit, ds) && cs[0] == ds[0]
    ensures cs == ds
    decreases |cs|
  {
    assert |cs| > 1 ==> fat[cs[0]] == cs[1];
    assert |ds| > 1 ==> fat[ds[0]] == ds[1];
    if |cs| > 1 && |ds| > 1 {
      ChainTail(fat, limit, cs, 1);
      ChainTail(fat, limit, ds, 1);
      ChainUnique(fat, limit, cs[1..], ds[1..]);
      assert cs == [cs[0]] + cs[1..] && ds == [ds[0]] + ds[1..];
    }
  }

  lemma ChainTail(fat: seq<nat>, limit: nat, cs: seq<nat>, p: nat)
    requires Chain(fat, limit, cs) && p < |cs|
    ensures Chain(fat, limit, cs[p..])
  {
    var t := cs[p..];
    forall i | 0 <= i < |t| - 1
      ensures fat[t[i]] == t[i + 1]
    {
      assert fat[cs[p + i]] == cs[p + i + 1];
    }
  }

  /** Clusters of a chain are never free. */
  lemma ChainNotFree(fat: seq<nat>, limit: nat, cs: seq<nat>, i: nat)
    requires Chain(fat, limit, cs) && i < |cs|
    ensures fat[cs[i]] != 0
  {
    if i < |cs| - 1 {
      assert fat[cs[i]] == cs[i + 1];
    }
  }

  /** A change that keeps every entry of the chain keeps the chain. */
  lemma ChainKept(fat: seq<nat>, fat': seq<nat>, limit: nat, cs: seq<nat>)
    requires Chain(fat, limit, cs) && |fat'| == |fat|
    requires forall i :: 0 <= i < |cs| ==> fat'[cs[i]] == fat[cs[i]]
    ensures Chain(fat', limit, cs)
  {
    forall i | 0 <= i < |cs| - 1
      ensures fat'[cs[i]] == cs[i + 1]
    {
      assert fat[cs[i]] == cs[i + 1];
    }
  }

  /** Cutting a chain after position p. */
  lemma ChainCut(fat: seq<nat>, limit: nat, cs: seq<nat>, p: nat)
    requires Chain(fat, limit, cs) && p < |cs|
    ensures Chain(fat[cs[p] := CLUSTER_END], limit, cs[..p + 1])
  {
    var h, f := cs[..p + 1], fat[cs[p] := CLUSTER_END];
    forall i | 0 <= i < |h| - 1
      ensures f[h[i]] == h[i + 1]
    {
      assert fat[cs[i]] == cs[i + 1];
    }
  }

  /** Linking a free cluster behind the end of a chain. */
  lemma ChainGrow(fat: seq<nat>, limit: nat, cs: seq<nat>, c: nat)
    requires Chain(fat, limit, cs) && 2 <= c < limit && fat[c] == 0
    ensures c !in cs
    ensures Chain(fat[cs[|cs| - 1] := c][c := CLUSTER_END], limit, cs + [c])
  {
    forall i | 0 <= i < |cs| ensures cs[i] != c { ChainNotFree(fat, limit, cs, i); }
    var g, f := cs + [c], fat[cs[|cs| - 1] := c][c := CLUSTER_END];
    forall i | 0 <= i < |g| - 1
      ensures f[g[i]] == g[i + 1]
    {
      if i < |cs| - 1 {
        assert fat[cs[i]] == cs[i + 1];
      }
    }
  }

  // ----- Free clusters -----

  /** The free clusters from `from` on, in ascending order. */
  ghost function FreeList(fat: seq<nat>, limit: nat, from: nat): seq<nat>
    requires limit <= |fat|
    decreases limit - from
  {
    if from >= limit then []
    else if fat[from] == 0 then [from] + FreeList(fat, limit, from + 1)
    else FreeList(fat, limit, from + 1)
  }

  lemma {:induction false} FreeListSpec(fat: seq<nat>, limit: nat, from: nat)
    requires limit <= |fat|
    ensures forall i :: 0 <= i < |FreeList(fat, limit, from)| ==>
              from <= FreeList(fat, limit, from)[i] < limit && fat[FreeList(fat, limit, from)[i]] == 0
    ensures forall i, j :: 0 <= i < j < |FreeList(fat, limit, from)| ==>
              FreeList(fat, limit, from)[i] < FreeList(fat, limit, from)[j]
    ensures forall c :: from <= c < limit && fat[c] == 0 ==> c in FreeList(fat, limit, from)
    decreases limit - from
  {
    if from < limit {
      FreeListSpec(fat, limit, from + 1);
    }
  }

  /** Only the entries from `from` on matter. */
  lemma {:induction false} FreeListKept(fat: seq<nat>, fat': seq<nat>, limit: nat, from: nat)
    requires limit <= |fat| == |fat'|
    requires forall c :: from <= c < limit ==> (fat[c] == 0 <==> fat'[c] == 0)
    ensures FreeList(fat, limit, from) == FreeList(fat', limit, from)
    decreases limit - from
  {
    if from < limit {
      FreeListKept(fat, fat', limit, from + 1);
    }
  }

  /** The clusters a resize ends with: what is kept of the old chain, then the lowest free clusters. */
  ghost function ResizedChain(fat: seq<nat>, limit: nat, cs: seq<nat>, clusters: nat, alloc0: nat): seq<nat>
    requires limit <= |fat|
    requires CanResize(fat, limit, cs, clusters, alloc0)
  {
    if clusters <= |cs| then cs[..clusters]
    else cs + FreeList(fat, limit, alloc0)[..clusters - |cs|]
  }

  ghost predicate CanResize(fat: seq<nat>, limit: nat, cs: seq<nat>, clusters: nat, alloc0: nat)
    requires limit <= |fat|
  {
    clusters - |cs| <= |FreeList(fat, limit, alloc0)|
  }

  /** What a resize does to the table. */
  ghost predicate Resized(fat: seq<nat>, fat': seq<nat>, limit: nat, cs: seq<nat>, cs': seq<nat>) {
    && |fat'| == |fat|
    && (cs' != [] ==> Chain(fat', limit, cs'))
    && (forall c :: 0 <= c < |fat| && c in cs && c !in cs' ==> fat'[c] == 0)
    && (forall c :: 0 <= c < |fat| && c !in cs && c !in cs' ==> fat'[c] == fat[c])
    && (forall c :: 0 <= c < |fat| && c !in cs && c in cs' ==> fat[c] == 0)
    && Written(fat, fat', cs')
  }

  /** An entry that changes becomes free, a link of the chain or the end mark 0xffff. */
  ghost predicate Written(fat: seq<nat>, fat': seq<nat>, cs': seq<nat>) {
    |fat'| == |fat| && forall c :: 0 <= c < |fat| && fat'[c] != fat[c] ==> fat'[c] == 0 || fat'[c] == 0xffff || fat'[c] in cs'
  }

  /** Free clusters plus the clusters of the chain stay the same set. */
  lemma ResizeConserves(fat: seq<nat>, fat': seq<nat>, limit: nat, cs: seq<nat>, cs': seq<nat>, c: nat)
    requires Resized(fat, fat', limit, cs, cs') && (cs == [] || Chain(fat, limit, cs)) && c < |fat|
    ensures (fat[c] == 0 || c in cs) <==> (fat'[c] == 0 || c in cs')
    ensures !(fat'[c] == 0 && c in cs')
  {
    if c in cs' {
      var i :| 0 <= i < |cs'| && cs'[i] == c;
      ChainNotFree(fat', limit, cs', i);
    }
  }

  /** Every other chain survives a resize, and stays disjoint from the resized one. */
  lemma ResizeKeepsOthers(fat: seq<nat>, fat': seq<nat>, limit: nat, cs: seq<nat>, cs': seq<nat>, ds: seq<nat>)
    requires Resized(fat, fat', limit, cs, cs') && Chain(fat, limit, ds)
    requires forall c :: c in ds ==> c !in cs
    ensures Chain(fat', limit, ds)
    ensures forall c :: c in ds ==> c !in cs'
  {
    forall i | 0 <= i < |ds|
      ensures ds[i] !in cs' && fat'[ds[i]] == fat[ds[i]]
    {
      assert ds[i] in ds;
      ChainNotFree(fat, limit, ds, i);
    }
    ChainKept(fat, fat', limit, ds);
  }

  /** The free clusters from a place on, as a set. */
  ghost function FreeFrom(fat: seq<nat>, limit: nat, from: nat): set<nat>
    requires limit <= |fat|
  {
    set c: nat | from <= c < limit && fat[c] == 0
  }

  lemma {:induction false} FreeListCounts(fat: seq<nat>, limit: nat, from: nat)
    requires limit <= |fat|
    ensures |FreeList(fat, limit, from)| == |FreeFrom(fat, limit, from)|
    decreases limit - from
  {
    if from < limit {
      FreeListCounts(fat, limit, from + 1);
      var rest := FreeFrom(fat, limit, from + 1);
      if fat[from] == 0 {
        assert FreeFrom(fat, limit, from) == rest + {from};
      } else {
        assert FreeFrom(fat, limit, from) == rest;
      }
    } else {
      assert FreeFrom(fat, limit, from) == {};
    }
  }

  /** A resize goes through exactly when the clusters of the chain and the free ones from alloc0 on are enough. */
  lemma ResizeSucceedsIff(fat: seq<nat>, limit: nat, cs: seq<nat>, clusters: nat, alloc0: nat)
    requires limit <= |fat|
    ensures CanResize(fat, limit, cs, clusters, alloc0) <==> clusters <= |cs| + |FreeFrom(fat, limit, alloc0)|
  {
    FreeListCounts(fat, limit, alloc0);
  }

  /** The first elements of an increasing list are its lowest ones. */
  lemma LowestFirst(free: seq<nat>, n: nat, i: nat, c: nat)
    requires i < n <= |free| && c in free && c < free[i]
    requires forall a, b :: 0 <= a < b < |free| ==> free[a] < free[b]
    ensures c in free[..n]
  {
    var k :| 0 <= k < |free| && free[k] == c;
    assert k < i;
    assert free[..n][k] == c;
  }

  /** The chain keeps its beginning, and goes on with the lowest free clusters from alloc0 on, in their order. */
  lemma ResizeTakesLowest(fat: seq<nat>, limit: nat, cs: seq<nat>, clusters: nat, alloc0: nat)
    requires limit <= |fat| && CanResize(fat, limit, cs, clusters, alloc0)
    ensures var cs' := ResizedChain(fat, limit, cs, clusters, alloc0);
      && |cs'| == clusters
      && (forall i :: 0 <= i < |cs'| && i < |cs| ==> cs'[i] == cs[i])
      && (forall i :: |cs| <= i < |cs'| ==> alloc0 <= cs'[i] < limit && fat[cs'[i]] == 0)
      && (forall i, j :: |cs| <= i < j < |cs'| ==> cs'[i] < cs'[j])
      && (forall i, c :: |cs| <= i < |cs'| && alloc0 <= c < cs'[i] && fat[c] == 0 ==> c in cs'[|cs|..])
  {
    FreeListSpec(fat, limit, alloc0);
    var free := FreeList(fat, limit, alloc0);
    hide FreeList;
    if clusters > |cs| {
      var cs', n := ResizedChain(fat, limit, cs, clusters, alloc0), clusters - |cs|;
      assert cs'[|cs|..] == free[..n];
      forall i, c | |cs| <= i < |cs'| && alloc0 <= c < cs'[i] && fat[c] == 0
        ensures c in cs'[|cs|..]
      {
        LowestFirst(free, n, i - |cs|, c);
      }
    }
  }

  // ----- The table, updated in place -----

  /** A resize that has only grown the chain so far. */
  ghost predicate Growing(fat: seq<nat>, now: seq<nat>, limit: nat, cs: seq<nat>, cur: seq<nat>, alloc0: nat, alloc: nat) {
    && |now| == |fat| && limit <= |fat| && 2 <= alloc0 <= alloc
    && Chain(now, limit, cur)
    && cs <= cur
    && (forall c :: 0 <= c < |fat| && c !in cur ==> now[c] == fat[c])
    && (forall c :: 0 <= c < |fat| && c in cur && c !in cs ==> fat[c] == 0)
    && FreeList(fat, limit, alloc0) == cur[|cs|..] + FreeList(now, limit, alloc)
    && Written(fat, now, cur)
  }

  /** Reading the table at position p of the chain being grown. */
  lemma GrowingRead(fat: seq<nat>, now: seq<nat>, limit: nat, cs: seq<nat>, cur: seq<nat>, alloc0: nat, alloc: nat, p: nat)
    requires Growing(fat, now, limit, cs, cur, alloc0, alloc) && p < |cur|
    ensures |fat| == |now| && |cs| <= |cur| && (|cs| == |cur| ==> cs == cur) && cur[p] < |now|
    ensures now[cur[p]] >= FIRST_END <==> p == |cur| - 1
    ensures p < |cur| - 1 ==> now[cur[p]] == cur[p + 1]
  {
    assert cur[p] < limit;
    assert p < |cur| - 1 ==> now[cur[p]] == cur[p + 1] < limit;
  }

  lemma GrowingFirst(fat: seq<nat>, limit: nat, alloc0: nat, c: nat)
    requires limit <= BAD && limit <= |fat| && 2 <= alloc0 <= c < limit && fat[c] == 0
    requires FreeList(fat, limit, alloc0) == [c] + FreeList(fat, limit, c + 1)
    ensures Growing(fat, fat[c := CLUSTER_END], limit, [], [c], alloc0, c + 1)
  {
    FreeListKept(fat, fat[c := CLUSTER_END], limit, c + 1);
  }

  lemma GrowingMore(fat: seq<nat>, now: seq<nat>, limit: nat, cs: seq<nat>, cur: seq<nat>, alloc0: nat, alloc: nat, c: nat)
    requires Growing(fat, now, limit, cs, cur, alloc0, alloc)
    requires alloc <= c < limit && now[c] == 0
    requires FreeList(now, limit, alloc) == [c] + FreeList(now, limit, c + 1)
    ensures var now' := now[cur[|cur| - 1] := c][c := CLUSTER_END];
            Growing(fat, now', limit, cs, cur + [c], alloc0, c + 1)
  {
    hide FreeList, Distinct;
    ChainGrow(now, limit, cur, c);
    var last := cur[|cur| - 1];
    var now' := now[last := c][c := CLUSTER_END];
    assert last in cur;
    FreeListKept(now, now', limit, c + 1);
    assert (cur + [c])[|cs|..] == cur[|cs|..] + [c];
    assert cs <= cur + [c];
    assert cur[|cs|..] + ([c] + FreeList(now, limit, c + 1)) == (cur[|cs|..] + [c]) + FreeList(now', limit, c + 1);
  }

  lemma GrowingDone(fat: seq<nat>, now: seq<nat>, limit: nat, cs: seq<nat>, cur: seq<nat>, alloc0: nat, alloc: nat)
    requires Growing(fat, now, limit, cs, cur, alloc0, alloc)
    ensures CanResize(fat, limit, cs, |cur|, alloc0)
    ensures cur == ResizedChain(fat, limit, cs, |cur|, alloc0)
    ensures Resized(fat, now, limit, cs, cur)
  {
    assert cur == cs + cur[|cs|..];
  }

  lemma CutDone(fat: seq<nat>, now: seq<nat>, limit: nat, cs: seq<nat>, p: nat)
    requires Chain(fat, limit, cs) && p < |cs| - 1 && |now| == |fat|
    requires forall c :: 0 <= c < |fat| ==>
               now[c] == (if c in cs[p + 1..] then 0 else fat[cs[p] := CLUSTER_END][c])
    ensures Resized(fat, now, limit, cs, cs[..p + 1])
  {
    var h := cs[..p + 1];
    ChainCut(fat, limit, cs, p);
    forall i | 0 <= i < |h|
      ensures h[i] !in cs[p + 1..]
    {
    }
    ChainKept(fat[cs[p] := CLUSTER_END], now, limit, h);
    assert cs == h + cs[p + 1..];
    assert cs[p] in h;
  }

  type Word = w: nat | w < 0x1_0000

  class FatTable {
    const fat: array<Word>
    var limit: nat

    ghost predicate Valid()
      reads this
    {
      2 <= limit <= BAD && fat.Length == 0x1_0000
    }

    constructor (limit: nat)
      requires 2 <= limit <= BAD
      ensures Valid() && this.limit == limit && fresh(fat)
    {
      this.limit := limit;
      fat := new Word[0x1_0000];
    }

    /** `free_cluster`: the lowest free cluster from `from` on. */
    method FreeCluster(from: nat) returns (found: bool, c: nat)
      requires Valid()
      ensures found <==> FreeList(fat[..], limit, from) != []
      ensures found ==> from <= c < limit && fat[c] == 0
      ensures found ==> FreeList(fat[..], limit, from) == [c] + FreeList(fat[..], limit, c + 1)
    {
      c := from;
      while c < limit
        invariant from <= c
        invariant FreeList(fat[..], limit, from) == FreeList(fat[..], limit, c)
        decreases limit - c
      {
        if fat[c] == 0 {
          return true, c;
        }
        c := c + 1;
      }
      found := false;
    }

    /** The loop at label `freeloop`: frees every cluster of a chain. */
    method FreeChain(start: nat, ghost cs: seq<nat>)
      requires Valid() && Chain(fat[..], limit, cs) && cs[0] == start
      modifies fat
      ensures forall c :: 0 <= c < fat.Length ==> fat[c] == (if c in cs then 0 else old(fat[c]))
    {
      var i: nat := start;
      ghost var k := 0;
      while true
        invariant k < |cs| && i == cs[k]
        invariant forall c :: 0 <= c < fat.Length ==> fat[c] == (if c in cs[..k] then 0 else old(fat[c]))
        decreases |cs| - k
      {
        assert cs[k] !in cs[..k];
        var j := fat[i];
        assert k < |cs| - 1 ==> j == cs[k + 1];
        fat[i] := 0;
        assert cs[..k + 1] == cs[..k] + [cs[k]];
        i := j;
        k := k + 1;
        if j >= BAD {
          break;
        }
      }
      assert cs[..k] == cs;
    }

    /**
      `resizefile`: makes the chain from `start` (0 when the file has none) exactly `clusters` long.
      `ok` is false where the program stops with "disk-image full".
     */
    method Resize(start: nat, clusters: nat, alloc0: nat, ghost cs: seq<nat>)
      returns (ok: bool, first: nat, ghost cs': seq<nat>)
      requires Valid() && (alloc0 >= 2 || clusters == 0)
      requires if start == 0 then cs == [] else Chain(fat[..], limit, cs) && cs[0] == start
      modifies fat
      ensures ok <==> CanResize(old(fat[..]), limit, cs, clusters, alloc0)
      ensures ok ==> cs' == ResizedChain(old(fat[..]), limit, cs, clusters, alloc0)
      ensures ok ==> Resized(old(fat[..]), fat[..], limit, cs, cs')
      ensures ok ==> |cs'| == clusters && first == if clusters == 0 then 0 else cs'[0]
    {
      cs' := [];
      first := start;
      if clusters == 0 {
        if start != 0 {
          FreeChain(start, cs);
        }
        return true, 0, [];
      }
      var alloc := alloc0;
      ghost var cur := cs;
      if start == 0 {
        ok, first := FreeCluster(alloc);
        if !ok {
          return;
        }
        GrowingFirst(fat[..], limit, alloc0, first);
        fat[first] := CLUSTER_END;
        alloc := first + 1;
        cur := [first];
        assert fat[..] == old(fat[..])[first := CLUSTER_END];
      }
      ok, cs' := Walk(first, clusters, alloc0, alloc, old(fat[..]), cs, cur);
    }

    /** Ends the chain at position p and frees the clusters behind it. */
    method CutAt(i: nat, j: nat, ghost cs: seq<nat>, ghost p: nat)
      requires Valid() && Chain(fat[..], limit, cs) && p + 1 < |cs| && i == cs[p] && j == cs[p + 1]
      modifies fat
      ensures Resized(old(fat[..]), fat[..], limit, cs, cs[..p + 1])
    {
      hide Resized;
      ghost var rest := cs[p + 1..];
      ChainTail(fat[..], limit, cs, p + 1);
      ChainKept(fat[..], fat[..][i := CLUSTER_END], limit, rest);
      fat[i] := CLUSTER_END;
      assert fat[..] == old(fat[..])[i := CLUSTER_END];
      FreeChain(j, rest);
      CutDone(old(fat[..]), fat[..], limit, cs, p);
    }

    /** Appends the lowest free cluster to a chain that is being grown. */
    method Extend(i: nat, ghost alloc0: nat, alloc: nat, ghost was: seq<nat>, ghost cs: seq<nat>, ghost cur: seq<nat>)
      returns (found: bool, c: nat)
      requires Valid() && Growing(was, fat[..], limit, cs, cur, alloc0, alloc) && i == cur[|cur| - 1]
      modifies fat
      ensures found ==> Growing(was, fat[..], limit, cs, cur + [c], alloc0, c + 1)
      ensures !found ==> |FreeList(was, limit, alloc0)| == |cur| - |cs|
    {
      found, c := FreeCluster(alloc);
      if !found {
        return;
      }
      GrowingMore(was, fat[..], limit, cs, cur, alloc0, alloc, c);
      hide Growing;
      ghost var now: seq<nat> := fat[..];
      fat[i] := c;
      fat[c] := CLUSTER_END;
      assert fat[..] == now[cur[|cur| - 1] := c][c := CLUSTER_END];
    }

    /** The wanted length is reached at cluster i: nothing to do at the end of the chain, else the rest is cut off. */
    method Stop(i: nat, ghost clusters: nat, ghost alloc0: nat, ghost alloc: nat,
                ghost was: seq<nat>, ghost cs: seq<nat>, ghost cur: seq<nat>)
      returns (ghost cs': seq<nat>)
      requires Valid() && Growing(was, fat[..], limit, cs, cur, alloc0, alloc)
      requires 0 < clusters <= |cur| && i == cur[clusters - 1]
      requires |cur| > |cs| ==> clusters == |cur|
      requires cur == cs ==> fat[..] == was
      modifies fat
      ensures CanResize(was, limit, cs, clusters, alloc0)
      ensures cs' == ResizedChain(was, limit, cs, clusters, alloc0)
      ensures Resized(was, fat[..], limit, cs, cs')
      ensures |cs'| == clusters && cs'[0] == cur[0]
    {
      hide FreeList, Resized;
      var j: nat := fat[i];
      assert clusters < |cur| ==> j == cur[clusters];
      if j >= FIRST_END {
        assert clusters == |cur|;
        GrowingDone(was, fat[..], limit, cs, cur, alloc0, alloc);
        cs' := cur;
      } else {
        assert cur == cs && fat[..] == was;
        CutAt(i, j, cs, clusters - 1);
        cs' := cs[..clusters];
      }
    }

    /** The `for (;;)` loop of the resize: keep, cut or extend. */
    method Walk(start: nat, clusters: nat, ghost alloc0: nat, alloc1: nat,
                ghost was: seq<nat>, ghost cs: seq<nat>, ghost cur0: seq<nat>)
      returns (ok: bool, ghost cs': seq<nat>)
      requires Valid() && clusters > 0
      requires Growing(was, fat[..], limit, cs, cur0, alloc0, alloc1)
      requires cur0[0] == start && (|cur0| > |cs| ==> |cur0| == 1)
      requires cur0 == cs ==> was == fat[..]
      modifies fat
      ensures ok <==> CanResize(was, limit, cs, clusters, alloc0)
      ensures ok ==> cs' == ResizedChain(was, limit, cs, clusters, alloc0)
      ensures ok ==> Resized(was, fat[..], limit, cs, cs')
      ensures ok ==> |cs'| == clusters && cs'[0] == start
    {
      assert |cur0| > 0;
      hide FreeList, Resized, Growing, Chain;
      cs' := [];
      var i, left, alloc := start, clusters, alloc1;
      ghost var cur, p := cur0, 0;
      while true
        invariant Growing(was, fat[..], limit, cs, cur, alloc0, alloc)
        invariant p < |cur| && cur[0] == start && i == cur[p] && left == clusters - p > 0
        invariant |cur| > |cs| ==> p == |cur| - 1
        invariant cur == cs ==> fat[..] == was
        decreases left
      {
        GrowingRead(was, fat[..], limit, cs, cur, alloc0, alloc, p);
        left := left - 1;
        var j: nat := fat[i];
        if left == 0 {
          cs' := Stop(i, clusters, alloc0, alloc, was, cs, cur);
          return true, cs';
        }
        if j >= FIRST_END {
          var found, c := Extend(i, alloc0, alloc, was, cs, cur);
          if !found {
            return false, [];
          }
          cur := cur + [c];
          alloc := c + 1;
          j := c;
        }
        i := j;
        p := p + 1;
      }
    }
  }
}
