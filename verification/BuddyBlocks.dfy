/**
  The geometry of a binary buddy system over `n` unit blocks, where `n` need not be a power of two:
  level k has `n >> k` blocks, and an odd level ends in a block that has no buddy.
  A set of blocks tiles the arena when every unit lies in exactly one of its blocks.
 */
module BuddyBlocks {
  import opened Basics

  datatype Block = Block(level: nat, index: nat)

  // ----- Halving: `Up(u, k)` is `u >> k` -----

  function Up(u: nat, k: nat): nat {
    if k == 0 then u else Up(u, k - 1) / 2
  }

  function Pow2(k: nat): (p: nat)
    ensures p > 0
  {
    if k == 0 then 1 else 2 * Pow2(k - 1)
  }

  /** The block that covers unit `u` on each level is found by halving. */
  predicate Covers(b: Block, u: nat) {
    Up(u, b.level) == b.index
  }

  predicate InRange(n: nat, b: Block) {
    b.index < Up(n, b.level)
  }

  function Parent(b: Block): Block {
    Block(b.level + 1, b.index / 2)
  }

  function Left(b: Block): Block
    requires b.level > 0
  {
    Block(b.level - 1, 2 * b.index)
  }

  function Right(b: Block): Block
    requires b.level > 0
  {
    Block(b.level - 1, 2 * b.index + 1)
  }

  /** `block ^ 1`: 2i <-> 2i+1 */
  function Buddy(b: Block): Block {
    Block(b.level, if b.index % 2 == 0 then b.index + 1 else b.index - 1)
  }

  lemma {:induction false} UpMonotone(u: nat, v: nat, k: nat)
    requires u <= v
    ensures Up(u, k) <= Up(v, k)
  {
    if k > 0 {
      UpMonotone(u, v, k - 1);
    }
  }

  lemma UpStep(u: nat, k: nat)
    ensures Up(u, k + 1) == Up(u, k) / 2
  {
  }

  lemma {:induction false} UpAdd(u: nat, j: nat, m: nat)
    ensures Up(Up(u, j), m) == Up(u, j + m)
  {
    if m > 0 {
      UpAdd(u, j, m - 1);
    }
  }

  /** `u >> k` is division by 2^k. */
  lemma {:induction false} UpBounds(u: nat, k: nat)
    ensures Up(u, k) * Pow2(k) <= u < (Up(u, k) + 1) * Pow2(k)
  {
    if k > 0 {
      UpBounds(u, k - 1);
      HalveBounds(u, Up(u, k - 1), Up(u, k), Pow2(k - 1));
    }
  }

  lemma HalveBounds(u: nat, q: nat, h: nat, p: nat)
    requires q * p <= u < (q + 1) * p && 2 * h <= q <= 2 * h + 1
    ensures h * (2 * p) <= u < (h + 1) * (2 * p)
  {
    MulMono(2 * h, q, p);
    MulMono(q + 1, 2 * h + 2, p);
  }

  /** The converse: the units of block (k, i) are exactly i*2^k .. (i+1)*2^k. */
  lemma UpUnique(u: nat, k: nat, i: nat)
    requires i * Pow2(k) <= u < (i + 1) * Pow2(k)
    ensures Up(u, k) == i
  {
    UpBounds(u, k);
    var a, p := Up(u, k), Pow2(k);
    if a < i {
      MulMono(a + 1, i, p);
      assert false;
    } else if a > i {
      MulMono(i + 1, a, p);
      assert false;
    }
  }

  lemma FirstUnit(b: Block)
    ensures Covers(b, b.index * Pow2(b.level))
  {
    var p := Pow2(b.level);
    assert (b.index + 1) * p == b.index * p + p;
    UpUnique(b.index * p, b.level, b.index);
  }

  /** Two blocks that share a unit are nested: the upper one covers every unit of the lower one. */
  lemma Nested(lower: Block, upper: Block, u: nat, v: nat)
    requires lower.level <= upper.level
    requires Covers(lower, u) && Covers(upper, u) && Covers(lower, v)
    ensures Covers(upper, v)
  {
    var m := upper.level - lower.level;
    UpAdd(u, lower.level, m);
    UpAdd(v, lower.level, m);
  }

  lemma ParentCovers(b: Block, u: nat)
    ensures Covers(b, u) ==> Covers(Parent(b), u)
    ensures Covers(Parent(b), u) ==> Covers(b, u) || Covers(Buddy(b), u)
    ensures Covers(Buddy(b), u) ==> Covers(Parent(b), u)
  {
  }

  // ----- Tilings -----

  ghost predicate Covered(s: set<Block>, u: nat) {
    exists b :: b in s && Covers(b, u)
  }

  ghost predicate Disjoint(s: set<Block>) {
    forall a, b, u: nat :: a in s && b in s && Covers(a, u) && Covers(b, u) ==> a == b
  }

  ghost predicate AllInRange(n: nat, s: set<Block>) {
    forall b :: b in s ==> InRange(n, b)
  }

  ghost predicate Tiles(n: nat, s: set<Block>) {
    && AllInRange(n, s)
    && Disjoint(s)
    && forall u: nat :: u < n ==> Covered(s, u)
  }

  /** No two buddies are both in the set. */
  ghost predicate Coalesced(s: set<Block>) {
    forall b :: b in s ==> Buddy(b) !in s
  }

  /** Splitting one tile into its two halves keeps a tiling. */
  lemma SplitTile(n: nat, s: set<Block>, p: Block)
    requires p.level > 0 && p !in s && Tiles(n, s + {p})
    ensures Left(p) !in s && Right(p) !in s
    ensures Tiles(n, s + {Left(p), Right(p)})
  {
    var l, r := Left(p), Right(p);
    var old_, new_ := s + {p}, s + {l, r};
    assert p in old_;
    forall u: nat
      ensures Covers(p, u) <==> Covers(l, u) || Covers(r, u)
    {
    }
    FirstUnit(l);
    FirstUnit(r);
    forall b | b in new_
      ensures InRange(n, b)
    {
      if b in s { assert b in old_; }
    }
    forall a, b, u: nat | a in new_ && b in new_ && Covers(a, u) && Covers(b, u)
      ensures a == b
    {
      if a in s { assert a in old_; }
      if b in s { assert b in old_; }
    }
    forall u: nat | u < n
      ensures Covered(new_, u)
    {
      assert Covered(old_, u);
      var b :| b in old_ && Covers(b, u);
      if b == p {
        if Covers(l, u) { assert l in new_; } else { assert r in new_; }
      } else {
        assert b in new_;
      }
    }
  }

  /** Merging two buddies into their parent keeps a tiling. */
  lemma MergeTiles(n: nat, s: set<Block>, b: Block)
    requires b !in s && Buddy(b) !in s && Tiles(n, s + {b, Buddy(b)})
    ensures Parent(b) !in s
    ensures Tiles(n, s + {Parent(b)})
  {
    var c, p := Buddy(b), Parent(b);
    var old_, new_ := s + {b, c}, s + {p};
    assert b in old_ && c in old_;
    forall u: nat
      ensures Covers(p, u) <==> Covers(b, u) || Covers(c, u)
    {
      ParentCovers(b, u);
    }
    FirstUnit(b);
    if p in s {
      assert false;
    }
    forall x | x in new_
      ensures InRange(n, x)
    {
      if x in s { assert x in old_; }
    }
    forall x, y, u: nat | x in new_ && y in new_ && Covers(x, u) && Covers(y, u)
      ensures x == y
    {
      if x in s { assert x in old_; }
      if y in s { assert y in old_; }
    }
    forall u: nat | u < n
      ensures Covered(new_, u)
    {
      assert Covered(old_, u);
      var x :| x in old_ && Covers(x, u);
      if x == b || x == c {
        assert p in new_;
      } else {
        assert x in new_;
      }
    }
  }

  // ----- Levels -----

  /** The number of levels the initialisation builds: it halves until one block is left. */
  function LevelCount(n: nat): nat {
    if n == 0 then 0 else 1 + LevelCount(n / 2)
  }

  lemma {:induction false} UpHalf(n: nat, k: nat)
    ensures Up(n, k + 1) == Up(n / 2, k)
  {
    if k > 0 {
      UpHalf(n, k - 1);
    }
  }

  /** Level k exists exactly when it has a block; the top level has exactly one. */
  lemma {:induction false} LevelExists(n: nat, k: nat)
    ensures k < LevelCount(n) <==> Up(n, k) > 0
    ensures k + 1 == LevelCount(n) <==> Up(n, k) == 1
  {
    if n == 0 {
      UpMonotone(0, 0, k);
      UpZero(k);
    } else if k > 0 {
      LevelExists(n / 2, k - 1);
      UpHalf(n, k - 1);
    }
  }

  lemma {:induction false} UpZero(k: nat)
    ensures Up(0, k) == 0
  {
    if k > 0 {
      UpZero(k - 1);
    }
  }

  /** The free blocks the initialisation marks: the leftover block of every odd level. */
  ghost function InitialFree(n: nat): set<Block> {
    set k | 0 <= k < LevelCount(n) && Up(n, k) % 2 == 1 :: Block(k, Up(n, k) - 1)
  }

  /** The leftover blocks tile the arena: they are the binary expansion of `n`. */
  lemma InitialFreeTiles(n: nat)
    ensures Tiles(n, InitialFree(n))
    ensures Coalesced(InitialFree(n))
  {
    var s := InitialFree(n);
    forall b | b in s
      ensures InRange(n, b) && Buddy(b) !in s
    {
    }
    forall a, b, u: nat | a in s && b in s && Covers(a, u) && Covers(b, u)
      ensures a == b
    {
      if a.level < b.level {
        LeftoverBeyond(n, a, b, u);
      } else if b.level < a.level {
        LeftoverBeyond(n, b, a, u);
      }
    }
    forall u: nat | u < n
      ensures Covered(s, u)
    {
      InitialCovers(n, 0, u);
    }
  }

  lemma LeftoverBeyond(n: nat, a: Block, b: Block, u: nat)
    requires a in InitialFree(n) && b in InitialFree(n) && a.level < b.level
    ensures !(Covers(a, u) && Covers(b, u))
  {
    if Covers(a, u) && Covers(b, u) {
      var m := b.level - a.level - 1;
      UpAdd(u, a.level + 1, m);
      UpAdd(n, a.level + 1, m);
      assert false;
    }
  }

  lemma {:induction false} InitialCovers(n: nat, k: nat, u: nat)
    requires Up(u, k) < Up(n, k)
    ensures Covered(InitialFree(n), u)
    decreases Up(n, k)
  {
    LevelExists(n, k);
    if Up(n, k) % 2 == 1 && Up(u, k) == Up(n, k) - 1 {
      var b := Block(k, Up(n, k) - 1);
      assert b in InitialFree(n) && Covers(b, u);
    } else {
      InitialCovers(n, k + 1, u);
    }
  }
}
