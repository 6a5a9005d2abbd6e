/**
  The buddy allocator as a state machine over sets of blocks: `free` holds the blocks whose bit is set
  and `live` maps every allocated block to the number of units it was asked for.
 */
module BuddyArena {
  import opened Basics
  import opened BuddyBlocks

  datatype Arena = Arena(n: nat, free: set<Block>, live: map<Block, nat>)

  /** The smallest level whose blocks hold `units` units. */
  function LevelFor(units: nat): nat {
    LevelFrom(units, 0)
  }

  function LevelFrom(units: nat, k: nat): (r: nat)
    decreases units - Pow2(k)
  {
    if Pow2(k) < units then LevelFrom(units, k + 1) else k
  }

  lemma {:induction false} LevelFromIsLeast(units: nat, k: nat)
    ensures var r := LevelFrom(units, k);
            && k <= r && units <= Pow2(r)
            && (r == k || Pow2(r - 1) < units)
    decreases units - Pow2(k)
  {
    if Pow2(k) < units {
      LevelFromIsLeast(units, k + 1);
    }
  }

  // ----- Allocation: the lowest set bit of the lowest non-empty level, split down to level k -----

  ghost predicate IsPick(free: set<Block>, k: nat, p: Block) {
    && p in free && k <= p.level
    && forall b :: b in free && k <= b.level ==>
         p.level < b.level || (p.level == b.level && p.index <= b.index)
  }

  ghost function Pick(free: set<Block>, k: nat): Option<Block> {
    if exists p :: IsPick(free, k, p) then
      var p :| IsPick(free, k, p);
      Some(p)
    else
      None
  }

  lemma PickIs(free: set<Block>, k: nat, p: Block)
    requires IsPick(free, k, p)
    ensures Pick(free, k) == Some(p)
  {
  }

  lemma {:induction false} PickExists(free: set<Block>, k: nat, b: Block)
    requires b in free && k <= b.level
    ensures Pick(free, k).Some?
    decreases b.level, b.index
  {
    if !IsPick(free, k, b) {
      var c :| c in free && k <= c.level && !(b.level < c.level || (b.level == c.level && b.index <= c.index));
      PickExists(free, k, c);
    }
  }

  function Leftmost(b: Block, k: nat): Block
    decreases b.level
  {
    if b.level <= k then b else Leftmost(Left(b), k)
  }

  function SplitDown(free: set<Block>, b: Block, k: nat): set<Block>
    decreases b.level
  {
    if b.level <= k then free else SplitDown(free + {Right(b)}, Left(b), k)
  }

  ghost function Allocate(a: Arena, units: nat): (Arena, Option<Block>) {
    var k := LevelFor(units);
    match Pick(a.free, k)
    case None => (a, None)
    case Some(p) =>
      var b := Leftmost(p, k);
      (Arena(a.n, SplitDown(a.free - {p}, p, k), a.live[b := units]), Some(b))
  }

  // ----- Release: set the bit, then merge upward while the buddy is free -----

  function Coalesce(free: set<Block>, b: Block): set<Block>
    requires b in free
    decreases |free|
  {
    if Buddy(b) in free then
      var rest := free - {b, Buddy(b)};
      assert free == rest + {b, Buddy(b)};
      assert |free| == |rest| + 2;
      Coalesce(rest + {Parent(b)}, Parent(b))
    else
      free
  }

  lemma CoalesceMerges(free: set<Block>, b: Block)
    requires b in free && Buddy(b) in free
    ensures Coalesce(free, b) == Coalesce(free - {b, Buddy(b)} + {Parent(b)}, Parent(b))
  {
  }

  lemma CoalesceStops(free: set<Block>, b: Block)
    requires b in free && Buddy(b) !in free
    ensures Coalesce(free, b) == free
  {
  }

  function Release(a: Arena, b: Block): Arena {
    Arena(a.n, Coalesce(a.free + {b}, b), a.live - {b})
  }

  // ----- The invariant -----

  ghost predicate Inv(a: Arena) {
    && Tiles(a.n, a.free + a.live.Keys)
    && a.free !! a.live.Keys
    && Coalesced(a.free)
    && forall b :: b in a.live ==> b.level == LevelFor(a.live[b])
  }

  ghost function Initial(n: nat): Arena {
    Arena(n, InitialFree(n), map[])
  }

  lemma InitialInv(n: nat)
    ensures Inv(Initial(n))
  {
    InitialFreeTiles(n);
    assert InitialFree(n) + Initial(n).live.Keys == InitialFree(n);
  }

  /** Block `b` is taken out of the free blocks and not yet handed out. */
  ghost predicate Held(n: nat, free: set<Block>, busy: set<Block>, b: Block) {
    && b !in free && b !in busy && free !! busy
    && Tiles(n, free + busy + {b}) && Coalesced(free)
  }

  lemma SplitOnce(n: nat, free: set<Block>, busy: set<Block>, b: Block)
    requires Held(n, free, busy, b) && b.level > 0
    ensures Right(b) !in free && InRange(n, Right(b))
    ensures Held(n, free + {Right(b)}, busy, Left(b))
  {
    var l, r := Left(b), Right(b);
    SplitTile(n, free + busy, b);
    assert free + busy + {l, r} == (free + {r}) + busy + {l};
    assert r in free + busy + {l, r};
    forall x | x in free + {r}
      ensures Buddy(x) !in free + {r}
    {
      assert Buddy(x) == r ==> x == l;
    }
  }

  lemma {:induction false} SplitDownTiles(n: nat, free: set<Block>, busy: set<Block>, b: Block, k: nat)
    requires k <= b.level && Held(n, free, busy, b)
    ensures Leftmost(b, k).level == k
    ensures Held(n, SplitDown(free, b, k), busy, Leftmost(b, k))
    decreases b.level
  {
    if k < b.level {
      SplitOnce(n, free, busy, b);
      SplitDownTiles(n, free + {Right(b)}, busy, Left(b), k);
    }
  }

  lemma AllocateInv(a: Arena, units: nat)
    requires Inv(a)
    ensures Inv(Allocate(a, units).0)
    ensures Allocate(a, units).1.Some? ==>
              var b := Allocate(a, units).1.value;
              b !in a.live && b.level == LevelFor(units) && InRange(a.n, b)
  {
    var k := LevelFor(units);
    match Pick(a.free, k)
    case None =>
    case Some(p) =>
      var rest := a.free - {p};
      assert rest + a.live.Keys + {p} == a.free + a.live.Keys;
      SplitDownTiles(a.n, rest, a.live.Keys, p, k);
      var f, b := SplitDown(rest, p, k), Leftmost(p, k);
      assert a.live[b := units].Keys == a.live.Keys + {b};
      assert f + a.live[b := units].Keys == f + a.live.Keys + {b};
      assert b in f + a.live.Keys + {b};
  }

  /** Block `b` has just been freed and may still have a free buddy; no other block has. */
  ghost predicate Merging(n: nat, free: set<Block>, busy: set<Block>, b: Block) {
    && b in free && free !! busy
    && Tiles(n, free + busy) && Coalesced(free - {b})
  }

  lemma MergeOnce(n: nat, free: set<Block>, busy: set<Block>, b: Block)
    requires Merging(n, free, busy, b) && Buddy(b) in free
    ensures InRange(n, Parent(b)) && Parent(b) !in free
    ensures Parent(b) in free - {b, Buddy(b)} + {Parent(b)}
    ensures Merging(n, free - {b, Buddy(b)} + {Parent(b)}, busy, Parent(b))
  {
    var rest := free - {b, Buddy(b)};
    assert free == rest + {b, Buddy(b)};
    assert free + busy == (rest + busy) + {b, Buddy(b)};
    MergeTiles(n, rest + busy, b);
    assert rest + busy + {Parent(b)} == (rest + {Parent(b)}) + busy;
    assert Parent(b) in rest + busy + {Parent(b)};
    assert (rest + {Parent(b)}) - {Parent(b)} == rest;
  }

  lemma MergeDone(n: nat, free: set<Block>, busy: set<Block>, b: Block)
    requires Merging(n, free, busy, b) && Buddy(b) !in free
    ensures Coalesced(free)
  {
    forall x | x in free
      ensures Buddy(x) !in free
    {
      assert Buddy(x) == b ==> x == Buddy(b);
    }
  }

  /** Merging upward keeps the tiling and ends with every pair of buddies merged. */
  lemma {:induction false} CoalesceTiles(n: nat, free: set<Block>, busy: set<Block>, b: Block)
    requires Merging(n, free, busy, b)
    ensures var f := Coalesce(free, b);
            Tiles(n, f + busy) && Coalesced(f) && f !! busy
    decreases |free|
  {
    if Buddy(b) in free {
      var rest := free - {b, Buddy(b)};
      assert free == rest + {b, Buddy(b)};
      MergeOnce(n, free, busy, b);
      CoalesceTiles(n, rest + {Parent(b)}, busy, Parent(b));
    } else {
      MergeDone(n, free, busy, b);
    }
  }

  /** A live block put back among the free ones is the only one that may have a free buddy. */
  lemma ReleaseStart(a: Arena, b: Block)
    requires Inv(a) && b in a.live
    ensures b !in a.free && InRange(a.n, b)
    ensures Merging(a.n, a.free + {b}, (a.live - {b}).Keys, b)
  {
    var free, busy := a.free + {b}, (a.live - {b}).Keys;
    assert free + busy == a.free + a.live.Keys;
    assert b in a.free + a.live.Keys;
    assert free - {b} == a.free;
  }

  lemma ReleaseInv(a: Arena, b: Block)
    requires Inv(a) && b in a.live
    ensures Inv(Release(a, b))
  {
    ReleaseStart(a, b);
    CoalesceTiles(a.n, a.free + {b}, (a.live - {b}).Keys, b);
  }

  // ----- Canonical form -----

  ghost function LiveUnits(a: Arena): set<nat> {
    set u: nat | 0 <= u < a.n && Covered(a.live.Keys, u)
  }

  /** No unit of `b` is allocated. */
  ghost predicate WhollyFree(n: nat, liveUnits: set<nat>, b: Block) {
    InRange(n, b) && forall u: nat :: Covers(b, u) ==> u !in liveUnits
  }

  ghost predicate MaximalFree(n: nat, liveUnits: set<nat>, b: Block) {
    WhollyFree(n, liveUnits, b) && !WhollyFree(n, liveUnits, Parent(b))
  }

  ghost predicate Within(b: Block, c: Block) {
    b.level <= c.level && forall u: nat :: Covers(b, u) ==> Covers(c, u)
  }

  /** Full coalescing: a wholly free block lies inside a single free block. */
  lemma {:induction false} WhollyFreeIsInside(a: Arena, b: Block) returns (c: Block)
    requires Inv(a) && WhollyFree(a.n, LiveUnits(a), b)
    ensures c in a.free && Within(b, c)
    decreases b.level
  {
    if b.level == 0 {
      var u := b.index;
      assert Covers(b, u) && u < a.n;
      assert Covered(a.free + a.live.Keys, u);
      c :| c in a.free + a.live.Keys && Covers(c, u);
      assert c in a.live ==> Covered(a.live.Keys, u);
      forall v: nat | Covers(b, v) ensures Covers(c, v) { Nested(b, c, u, v); }
    } else {
      var l, r := Left(b), Right(b);
      forall u: nat ensures Covers(l, u) || Covers(r, u) ==> Covers(b, u) { }
      var cl := WhollyFreeIsInside(a, l);
      var cr := WhollyFreeIsInside(a, r);
      FirstUnit(l);
      FirstUnit(r);
      assert Buddy(l) == r;
      assert cl.level == l.level ==> cl == l;
      assert cr.level == r.level ==> cr == r;
      if cl.level > l.level {
        c := cl;
        InsideParent(l, c);
      } else if cr.level > r.level {
        c := cr;
        InsideParent(r, c);
      } else {
        assert false;
        c := cl;
      }
    }
  }

  lemma InsideParent(b: Block, c: Block)
    requires Within(b, c) && b.level < c.level
    ensures Within(Parent(b), c)
  {
    var p := Parent(b);
    FirstUnit(b);
    var w := b.index * Pow2(b.level);
    assert Covers(b, w) && Covers(p, w) && Covers(c, w);
    forall u: nat | Covers(p, u)
      ensures Covers(c, u)
    {
      Nested(p, c, w, u);
    }
  }

  /** A free block is wholly free. */
  lemma FreeIsWhollyFree(a: Arena, c: Block)
    requires Inv(a) && c in a.free
    ensures WhollyFree(a.n, LiveUnits(a), c)
  {
    var s := a.free + a.live.Keys;
    assert c in s;
    forall u: nat, x | Covers(c, u) && x in a.live
      ensures !Covers(x, u)
    {
      assert x in s;
    }
  }

  lemma FreeIsMaximal(a: Arena, b: Block)
    requires Inv(a) && b in a.free
    ensures MaximalFree(a.n, LiveUnits(a), b)
  {
    FreeIsWhollyFree(a, b);
    if WhollyFree(a.n, LiveUnits(a), Parent(b)) {
      var c := WhollyFreeIsInside(a, Parent(b));
      FreeNotNested(a, b, c);
    }
  }

  lemma FreeNotNested(a: Arena, b: Block, c: Block)
    requires Inv(a) && b in a.free && c in a.free && b.level < c.level
    ensures !Within(Parent(b), c)
  {
    FirstUnit(b);
    var w := b.index * Pow2(b.level);
    assert Covers(b, w) && Covers(Parent(b), w);
    assert b in a.free + a.live.Keys && c in a.free + a.live.Keys;
  }

  lemma ParentInsideToo(a: Arena, b: Block, c: Block)
    requires Inv(a) && c in a.free && b.level < c.level && Within(b, c)
    ensures WhollyFree(a.n, LiveUnits(a), Parent(b))
  {
    InsideParent(b, c);
    FreeIsWhollyFree(a, c);
    var p, m := Parent(b), c.level - b.level - 1;
    FirstUnit(p);
    UpAdd(p.index * Pow2(p.level), p.level, m);
    UpAdd(a.n, p.level, m);
    if Up(a.n, p.level) <= p.index {
      UpMonotone(Up(a.n, p.level), p.index, m);
      assert false;
    }
  }

  lemma MaximalIsFree(a: Arena, b: Block)
    requires Inv(a) && MaximalFree(a.n, LiveUnits(a), b)
    ensures b in a.free
  {
    var c := WhollyFreeIsInside(a, b);
    FirstUnit(b);
    if b.level < c.level {
      ParentInsideToo(a, b, c);
    }
  }

  /**
    Canonical form: a block's bit is set exactly when the block is a maximal aligned run of units
    that are not allocated.  The bitmaps are thus a function of the allocated units alone.
   */
  lemma Canonical(a: Arena, b: Block)
    requires Inv(a)
    ensures b in a.free <==> MaximalFree(a.n, LiveUnits(a), b)
  {
    if b in a.free {
      FreeIsMaximal(a, b);
    }
    if MaximalFree(a.n, LiveUnits(a), b) {
      MaximalIsFree(a, b);
    }
  }

  lemma SameUnitsSameBitmaps(a: Arena, a': Arena)
    requires Inv(a) && Inv(a') && a.n == a'.n && LiveUnits(a) == LiveUnits(a')
    ensures a.free == a'.free
  {
    forall b
      ensures b in a.free <==> b in a'.free
    {
      Canonical(a, b);
      Canonical(a', b);
    }
  }

  /** No block can be marked as free beside those that are: the arena is full of free and live blocks. */
  lemma NothingElseIsFree(a: Arena, b: Block)
    requires Inv(a) && b !in a.free
    ensures !Inv(a.(free := a.free + {b}))
  {
    var s := a.free + {b} + a.live.Keys;
    assert b in s;
    if b !in a.live && InRange(a.n, b) {
      var u := b.index * Pow2(b.level);
      FirstUnit(b);
      BlockEnds(a.n, b);
      assert (b.index + 1) * Pow2(b.level) == u + Pow2(b.level);
      assert Covered(a.free + a.live.Keys, u);
      var c :| c in a.free + a.live.Keys && Covers(c, u);
      Overlap(a.n, s, b, c, u);
    }
  }

  lemma Overlap(n: nat, s: set<Block>, b: Block, c: Block, u: nat)
    requires b in s && c in s && b != c && Covers(b, u) && Covers(c, u)
    ensures !Tiles(n, s)
  {
  }

  // ----- Completeness of allocation -----

  /** Allocation fails exactly when no aligned block of the needed level is wholly free. */
  lemma AllocationComplete(a: Arena, units: nat)
    requires Inv(a)
    ensures Allocate(a, units).1.Some? <==>
              exists b: Block :: b.level == LevelFor(units) && WhollyFree(a.n, LiveUnits(a), b)
  {
    var k := LevelFor(units);
    if b: Block :| b.level == k && WhollyFree(a.n, LiveUnits(a), b) {
      var c := WhollyFreeIsInside(a, b);
      PickExists(a.free, k, c);
    }
    if Allocate(a, units).1.Some? {
      var b := Allocate(a, units).1.value;
      AllocatedWasFree(a, units);
    }
  }

  lemma {:induction false} LeftmostInside(b: Block, k: nat)
    requires k <= b.level
    ensures Leftmost(b, k).level == k && Within(Leftmost(b, k), b)
    ensures Leftmost(b, k).index * Pow2(k) == b.index * Pow2(b.level)
    decreases b.level
  {
    if k < b.level {
      LeftmostInside(Left(b), k);
      forall u: nat ensures Covers(Left(b), u) ==> Covers(b, u) { }
      assert 2 * b.index * Pow2(b.level - 1) == b.index * Pow2(b.level);
    }
  }

  lemma AllocatedWasFree(a: Arena, units: nat)
    requires Inv(a) && Allocate(a, units).1.Some?
    ensures WhollyFree(a.n, LiveUnits(a), Allocate(a, units).1.value)
    ensures Allocate(a, units).1.value.level == LevelFor(units)
  {
    var k := LevelFor(units);
    var p := Pick(a.free, k).value;
    AllocateInv(a, units);
    FreeIsWhollyFree(a, p);
    LeftmostInside(p, k);
  }

  /** The level of the block is the least one whose blocks hold the units. */
  ghost predicate LeastLevel(units: nat, level: nat) {
    units <= Pow2(level) && (level > 0 ==> Pow2(level - 1) < units)
  }

  /** The block begins where the lowest free block of the lowest level not below its own begins. */
  ghost predicate CutFromLowest(free: set<Block>, b: Block) {
    exists p :: p in free && b.level <= p.level && b.index * Pow2(b.level) == p.index * Pow2(p.level) &&
      (forall q :: q in free && b.level <= q.level ==> p.level < q.level || (p.level == q.level && p.index <= q.index))
  }

  /**
    An allocation takes its block from the lowest place of the lowest level that has one free, and records it
    with the units asked for; when it finds none nothing changes.
   */
  lemma AllocationRecords(a: Arena, units: nat)
    requires Inv(a)
    ensures Allocate(a, units).1.None? ==> Allocate(a, units).0 == a
    ensures Allocate(a, units).1.Some? ==>
              var (after, b) := (Allocate(a, units).0, Allocate(a, units).1.value);
              && after.n == a.n && b !in a.live && after.live == a.live[b := units]
              && LeastLevel(units, b.level) && CutFromLowest(a.free, b)
  {
    AllocateInv(a, units);
    LevelFromIsLeast(units, 0);
    if Allocate(a, units).1.Some? {
      LeftmostInside(Pick(a.free, LevelFor(units)).value, LevelFor(units));
    }
  }

  /** A release forgets the block and its units, and nothing else. */
  lemma ReleaseForgets(a: Arena, b: Block)
    requires Inv(a) && b in a.live
    ensures var after := Release(a, b);
      after.n == a.n && after.live == a.live - {b} && Used(a.live) == Used(after.live) + a.live[b]
  {
    UsedRemove(a.live, b);
  }

  // ----- Used size -----

  /** The units of all live blocks, as asked for: what `UsedSize` counts. */
  ghost function Used(live: map<Block, nat>): nat
    decreases |live|
  {
    if live == map[] then 0 else
      var b :| b in live;
      assert |live - {b}| < |live| by { RemoveShrinks(live, b); }
      live[b] + Used(live - {b})
  }

  lemma RemoveShrinks(m: map<Block, nat>, b: Block)
    requires b in m
    ensures |m - {b}| + 1 == |m|
  {
    assert (m - {b}).Keys == m.Keys - {b};
    assert |m.Keys - {b}| + 1 == |m.Keys|;
  }

  lemma {:induction false} UsedRemove(live: map<Block, nat>, b: Block)
    requires b in live
    ensures Used(live) == live[b] + Used(live - {b})
    decreases |live|
  {
    var c :| c in live && Used(live) == live[c] + Used(live - {c});
    if c != b {
      RemoveShrinks(live, c);
      RemoveShrinks(live, b);
      UsedRemove(live - {c}, b);
      UsedRemove(live - {b}, c);
      assert live - {c} - {b} == live - {b} - {c};
    }
  }

  lemma UsedInsert(live: map<Block, nat>, b: Block, units: nat)
    requires b !in live
    ensures Used(live[b := units]) == Used(live) + units
  {
    UsedRemove(live[b := units], b);
    assert live[b := units] - {b} == live;
  }

  ghost function UnitsOf(n: nat, s: set<Block>): set<nat> {
    set u: nat | 0 <= u < n && Covered(s, u)
  }

  ghost function Interval(lo: nat, hi: nat): (r: set<nat>)
    requires lo <= hi
    ensures forall u: nat :: u in r <==> lo <= u < hi
    ensures |r| == hi - lo
    decreases hi - lo
  {
    if lo == hi then {} else Interval(lo, hi - 1) + {hi - 1}
  }

  lemma BlockSize(n: nat, b: Block)
    requires InRange(n, b)
    ensures |UnitsOf(n, {b})| == Pow2(b.level)
  {
    var lo, hi := b.index * Pow2(b.level), (b.index + 1) * Pow2(b.level);
    BlockEnds(n, b);
    forall u: nat
      ensures u in UnitsOf(n, {b}) <==> lo <= u < hi
    {
      UpBounds(u, b.level);
      if lo <= u < hi {
        UpUnique(u, b.level, b.index);
        assert b in {b} && Covers(b, u);
      }
    }
    assert hi == lo + Pow2(b.level);
    assert UnitsOf(n, {b}) == Interval(lo, hi);
  }

  lemma {:induction false} UsedFits(n: nat, live: map<Block, nat>)
    requires AllInRange(n, live.Keys) && Disjoint(live.Keys)
    requires forall b :: b in live ==> live[b] <= Pow2(b.level)
    ensures Used(live) <= |UnitsOf(n, live.Keys)|
    decreases |live|
  {
    if live != map[] {
      var b :| b in live;
      UsedRemove(live, b);
      RemoveShrinks(live, b);
      assert (live - {b}).Keys == live.Keys - {b};
      UsedFits(n, live - {b});
      BlockSize(n, b);
      UnitsSplit(n, live.Keys, b);
    }
  }

  lemma UnitsSplit(n: nat, s: set<Block>, b: Block)
    requires b in s && Disjoint(s)
    ensures |UnitsOf(n, s)| == |UnitsOf(n, {b})| + |UnitsOf(n, s - {b})|
  {
    var us, ub, ur := UnitsOf(n, s), UnitsOf(n, {b}), UnitsOf(n, s - {b});
    forall u: nat
      ensures u in us <==> u in ub || u in ur
    {
      if u in us {
        var c :| c in s && Covers(c, u);
        assert if c == b then c in {b} else c in s - {b};
      }
    }
    assert us == ub + ur;
    assert ub !! ur;
  }

  /** The used size never exceeds the arena, so the 32-bit `UsedSize` never wraps. */
  lemma UsedWithinArena(a: Arena)
    requires Inv(a)
    ensures Used(a.live) <= a.n
  {
    var s := a.free + a.live.Keys;
    forall b | b in a.live
      ensures a.live[b] <= Pow2(b.level) && b in s
    {
      LevelFromIsLeast(a.live[b], 0);
    }
    UsedFits(a.n, a.live);
    SubsetSize(UnitsOf(a.n, a.live.Keys), Interval(0, a.n));
  }

  lemma {:induction false} SubsetSize(s: set<nat>, t: set<nat>)
    requires s <= t
    ensures |s| <= |t|
    decreases |s|
  {
    if s != {} {
      var x :| x in s;
      SubsetSize(s - {x}, t - {x});
    }
  }

  // ----- Whole runs -----

  datatype Op = AllocOp(units: nat) | FreeOp(block: Block)

  ghost predicate Enabled(a: Arena, op: Op) {
    match op
    case AllocOp(_) => true
    case FreeOp(b) => b in a.live
  }

  ghost function Step(a: Arena, op: Op): Arena {
    match op
    case AllocOp(units) => Allocate(a, units).0
    case FreeOp(b) => if b in a.live then Release(a, b) else a
  }

  ghost predicate EnabledRun(a: Arena, ops: seq<Op>)
    decreases |ops|
  {
    ops == [] || (Enabled(a, ops[0]) && EnabledRun(Step(a, ops[0]), ops[1..]))
  }

  ghost function Run(a: Arena, ops: seq<Op>): Arena
    decreases |ops|
  {
    if ops == [] then a else Run(Step(a, ops[0]), ops[1..])
  }

  lemma {:induction false} RunInv(a: Arena, ops: seq<Op>)
    requires Inv(a) && EnabledRun(a, ops)
    ensures Inv(Run(a, ops)) && Run(a, ops).n == a.n
    decreases |ops|
  {
    if ops != [] {
      match ops[0]
      case AllocOp(units) => AllocateInv(a, units); RunInv(Step(a, ops[0]), ops[1..]);
      case FreeOp(b) => ReleaseInv(a, b); RunInv(Step(a, ops[0]), ops[1..]);
    }
  }

  /** Any run that ends with everything freed, in whatever order, gives back the initial bitmaps. */
  lemma FreeingAllRestores(n: nat, ops: seq<Op>)
    requires EnabledRun(Initial(n), ops) && Run(Initial(n), ops).live == map[]
    ensures Run(Initial(n), ops) == Initial(n)
  {
    InitialInv(n);
    RunInv(Initial(n), ops);
    SameUnitsSameBitmaps(Run(Initial(n), ops), Initial(n));
  }

  /** In any state reached from `a`, once the same blocks are live again the bitmaps are the same again. */
  lemma SameLiveSameArena(a: Arena, ops: seq<Op>)
    requires Inv(a) && EnabledRun(a, ops) && Run(a, ops).live == a.live
    ensures Run(a, ops) == a
  {
    RunInv(a, ops);
    SameUnitsSameBitmaps(Run(a, ops), a);
  }

  lemma AllocateThenFree(a: Arena, units: nat)
    requires Inv(a) && Allocate(a, units).1.Some?
    ensures Release(Allocate(a, units).0, Allocate(a, units).1.value) == a
  {
    var (a1, b) := Allocate(a, units);
    AllocateInv(a, units);
    ReleaseInv(a1, b.value);
    assert Release(a1, b.value).live == a.live;
    SameUnitsSameBitmaps(Release(a1, b.value), a);
  }

  /** Live blocks never share a unit, and lie inside the arena. */
  lemma LiveBlocksApart(a: Arena, b: Block, c: Block)
    requires Inv(a) && b in a.live && c in a.live && b != c
    ensures (b.index + 1) * Pow2(b.level) <= c.index * Pow2(c.level)
         || (c.index + 1) * Pow2(c.level) <= b.index * Pow2(b.level)
    ensures (b.index + 1) * Pow2(b.level) <= a.n
  {
    var s := a.free + a.live.Keys;
    assert b in s && c in s;
    FirstUnit(b);
    FirstUnit(c);
    var x, y := b.index * Pow2(b.level), c.index * Pow2(c.level);
    BlockEnds(a.n, b);
    if x <= y < (b.index + 1) * Pow2(b.level) {
      UpUnique(y, b.level, b.index);
      assert false;
    } else if y <= x < (c.index + 1) * Pow2(c.level) {
      UpUnique(x, c.level, c.index);
      assert false;
    }
  }

  lemma BlockEnds(n: nat, b: Block)
    requires InRange(n, b)
    ensures (b.index + 1) * Pow2(b.level) <= n
  {
    UpBounds(n, b.level);
    MulMono(b.index + 1, Up(n, b.level), Pow2(b.level));
  }
}
