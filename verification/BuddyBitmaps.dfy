/**
  The byte-packed bitmaps of the buddy allocator.  All levels lie one after the other in one byte
  sequence `m`, level k starting at byte `base + BytesBelow(n, k)`; `FreeOf` reads them back as the
  set of blocks whose bit is set.
 */
module BuddyBitmaps {
  import opened Basics
  import opened BuddyBlocks

  // ----- One byte -----

  /** `1 << i` */
  function Mask(i: nat): bv8
    requires i < 8
  {
    match i
    case 0 => 0x01
    case 1 => 0x02
    case 2 => 0x04
    case 3 => 0x08
    case 4 => 0x10
    case 5 => 0x20
    case 6 => 0x40
    case 7 => 0x80
  }

  predicate Bit(b: bv8, i: nat)
    requires i < 8
  {
    b & Mask(i) != 0
  }

  lemma BitSet(b: bv8, i: nat, j: nat)
    requires i < 8 && j < 8
    ensures Bit(b | Mask(i), j) <==> j == i || Bit(b, j)
  {
    if i == j { SetSame(b, i); } else { MaskApart(i, j); SetOther(b, Mask(i), Mask(j)); }
  }

  lemma BitClear(b: bv8, i: nat, j: nat)
    requires i < 8 && j < 8
    ensures Bit(b & !Mask(i), j) <==> j != i && Bit(b, j)
  {
    if i != j { MaskApart(i, j); ClearOther(b, Mask(i), Mask(j)); }
  }

  lemma SetSame(b: bv8, i: nat)
    requires i < 8
    ensures Bit(b | Mask(i), i)
  {
  }

  lemma MaskApart(i: nat, j: nat)
    requires i < 8 && j < 8 && i != j
    ensures Mask(i) & Mask(j) == 0
  {
  }

  lemma SetOther(b: bv8, x: bv8, y: bv8)
    requires x & y == 0
    ensures (b | x) & y == b & y
  {
  }

  lemma ClearOther(b: bv8, x: bv8, y: bv8)
    requires x & y == 0
    ensures (b & !x) & y == b & y
  {
  }

  /** A byte is determined by its eight bits. */
  lemma ByteFromBits(b: bv8, c: bv8)
    requires forall i: nat :: i < 8 ==> (Bit(b, i) <==> Bit(c, i))
    ensures b == c
  {
    assert Bit(b, 0) <==> Bit(c, 0);
    assert Bit(b, 1) <==> Bit(c, 1);
    assert Bit(b, 2) <==> Bit(c, 2);
    assert Bit(b, 3) <==> Bit(c, 3);
    assert Bit(b, 4) <==> Bit(c, 4);
    assert Bit(b, 5) <==> Bit(c, 5);
    assert Bit(b, 6) <==> Bit(c, 6);
    assert Bit(b, 7) <==> Bit(c, 7);
    EightBits(b, c);
  }

  lemma EightBits(b: bv8, c: bv8)
    requires b & 0x01 == c & 0x01 && b & 0x02 == c & 0x02 && b & 0x04 == c & 0x04 && b & 0x08 == c & 0x08
    requires b & 0x10 == c & 0x10 && b & 0x20 == c & 0x20 && b & 0x40 == c & 0x40 && b & 0x80 == c & 0x80
    ensures b == c
  {
  }

  lemma ZeroHasNoBit(i: nat)
    requires i < 8
    ensures !Bit(0, i)
  {
  }

  lemma NonZeroHasBit(b: bv8)
    requires b != 0
    ensures exists i: nat :: i < 8 && Bit(b, i)
  {
    if forall i: nat :: i < 8 ==> !Bit(b, i) {
      forall i: nat | i < 8 ensures Bit(b, i) <==> Bit(0, i) { ZeroHasNoBit(i); }
      ByteFromBits(b, 0);
    }
  }

  // ----- Layout -----

  /** Bytes of a bitmap of `sz` bits. */
  function Bytes(sz: nat): nat {
    if sz == 0 then 0 else (sz - 1) / 8 + 1
  }

  /** The least number of bytes that hold the bits. */
  lemma BytesHold(sz: nat)
    ensures 8 * (Bytes(sz) - 1) < sz <= 8 * Bytes(sz) || sz == Bytes(sz) == 0
  {
  }

  function BytesBelow(n: nat, k: nat): nat {
    if k == 0 then 0 else BytesBelow(n, k - 1) + Bytes(Up(n, k - 1))
  }

  lemma {:induction false} BytesBelowMonotone(n: nat, j: nat, k: nat)
    requires j < k
    ensures BytesBelow(n, j) + Bytes(Up(n, j)) <= BytesBelow(n, k)
    decreases k
  {
    if j < k - 1 {
      BytesBelowMonotone(n, j, k - 1);
    }
  }

  lemma {:induction false} BytesBelowGrows(n: nat, n': nat, k: nat)
    requires n <= n'
    ensures BytesBelow(n, k) <= BytesBelow(n', k)
  {
    if k > 0 {
      BytesBelowGrows(n, n', k - 1);
      UpMonotone(n, n', k - 1);
    }
  }

  lemma {:induction false} BytesBelowBound(n: nat, k: nat)
    ensures 8 * BytesBelow(n, k) + 2 * Up(n, k) <= 2 * n + 8 * k
  {
    if k > 0 {
      BytesBelowBound(n, k - 1);
    }
  }

  lemma LevelCountBound(n: nat, k: nat)
    requires n < Pow2(k)
    ensures LevelCount(n) <= k
  {
    UpBounds(n, k);
    if Up(n, k) > 0 {
      MulMono(1, Up(n, k), Pow2(k));
    }
    LevelExists(n, k);
  }

  // ----- The set of free blocks -----

  ghost predicate Fits(m: seq<bv8>, n: nat, base: nat) {
    base + BytesBelow(n, LevelCount(n)) <= |m|
  }

  /** `b` has a bit: it is a block of its level or one of the padding bits of the level's last byte. */
  predicate Slot(n: nat, b: Block) {
    b.level < LevelCount(n) && b.index < 8 * Bytes(Up(n, b.level))
  }

  /** The byte that holds the bit of `b`. */
  function ByteOf(n: nat, base: nat, b: Block): (p: nat)
    requires Slot(n, b)
    ensures base + BytesBelow(n, b.level) <= p < base + BytesBelow(n, b.level) + Bytes(Up(n, b.level))
    ensures p < base + BytesBelow(n, LevelCount(n))
  {
    BytesBelowMonotone(n, b.level, LevelCount(n));
    base + BytesBelow(n, b.level) + b.index / 8
  }

  predicate BitOf(m: seq<bv8>, n: nat, base: nat, b: Block)
    requires Fits(m, n, base) && Slot(n, b)
  {
    Bit(m[ByteOf(n, base, b)], b.index % 8)
  }

  ghost function FreeOf(m: seq<bv8>, n: nat, base: nat): set<Block>
    requires Fits(m, n, base)
  {
    set k: nat, i: nat | k < LevelCount(n) && i < 8 * Bytes(Up(n, k)) && BitOf(m, n, base, Block(k, i)) :: Block(k, i)
  }

  lemma FreeOfIff(m: seq<bv8>, n: nat, base: nat, b: Block)
    requires Fits(m, n, base)
    ensures b in FreeOf(m, n, base) <==> Slot(n, b) && BitOf(m, n, base, b)
  {
    assert b == Block(b.level, b.index);
  }

  lemma SlotsApart(n: nat, base: nat, b: Block, c: Block)
    requires Slot(n, b) && Slot(n, c)
    ensures ByteOf(n, base, b) == ByteOf(n, base, c) && b.index % 8 == c.index % 8 ==> b == c
  {
    if b.level < c.level {
      BytesBelowMonotone(n, b.level, c.level);
    } else if c.level < b.level {
      BytesBelowMonotone(n, c.level, b.level);
    }
  }

  lemma SetBit(m: seq<bv8>, n: nat, base: nat, b: Block)
    requires Fits(m, n, base) && Slot(n, b)
    ensures var p := ByteOf(n, base, b);
            FreeOf(m[p := m[p] | Mask(b.index % 8)], n, base) == FreeOf(m, n, base) + {b}
  {
    var p := ByteOf(n, base, b);
    var m' := m[p := m[p] | Mask(b.index % 8)];
    forall c
      ensures c in FreeOf(m', n, base) <==> c in FreeOf(m, n, base) + {b}
    {
      FreeOfIff(m, n, base, c);
      FreeOfIff(m', n, base, c);
      if Slot(n, c) {
        SetBitAt(m, m', n, base, b, c);
      }
    }
  }

  lemma SetBitAt(m: seq<bv8>, m': seq<bv8>, n: nat, base: nat, b: Block, c: Block)
    requires Fits(m, n, base) && Slot(n, b) && Slot(n, c)
    requires var p := ByteOf(n, base, b); m' == m[p := m[p] | Mask(b.index % 8)]
    ensures BitOf(m', n, base, c) <==> c == b || BitOf(m, n, base, c)
  {
    SlotsApart(n, base, b, c);
    var p, i, j := ByteOf(n, base, b), b.index % 8, c.index % 8;
    if ByteOf(n, base, c) == p {
      BitSet(m[p], i, j);
    }
  }

  lemma ClearBit(m: seq<bv8>, n: nat, base: nat, b: Block)
    requires Fits(m, n, base) && Slot(n, b)
    ensures var p := ByteOf(n, base, b);
            FreeOf(m[p := m[p] & !Mask(b.index % 8)], n, base) == FreeOf(m, n, base) - {b}
  {
    var p := ByteOf(n, base, b);
    var m' := m[p := m[p] & !Mask(b.index % 8)];
    forall c
      ensures c in FreeOf(m', n, base) <==> c in FreeOf(m, n, base) - {b}
    {
      FreeOfIff(m, n, base, c);
      FreeOfIff(m', n, base, c);
      if Slot(n, c) {
        ClearBitAt(m, m', n, base, b, c);
      }
    }
  }

  lemma ClearBitAt(m: seq<bv8>, m': seq<bv8>, n: nat, base: nat, b: Block, c: Block)
    requires Fits(m, n, base) && Slot(n, b) && Slot(n, c)
    requires var p := ByteOf(n, base, b); m' == m[p := m[p] & !Mask(b.index % 8)]
    ensures BitOf(m', n, base, c) <==> c != b && BitOf(m, n, base, c)
  {
    SlotsApart(n, base, b, c);
    var p, i, j := ByteOf(n, base, b), b.index % 8, c.index % 8;
    if ByteOf(n, base, c) == p {
      BitClear(m[p], i, j);
    }
  }

  /** The first non-zero byte of a level and its lowest bit give the lowest free block of the level. */
  lemma LowestFreeIs(m: seq<bv8>, n: nat, base: nat, k: nat, j: nat, byte: bv8, num: nat)
    requires Fits(m, n, base) && k < LevelCount(n) && j < Bytes(Up(n, k)) && num < 8
    requires base + BytesBelow(n, k) + j < |m| && byte == m[base + BytesBelow(n, k) + j]
    requires Bit(byte, num) && forall i: nat :: i < num ==> !Bit(byte, i)
    requires forall q :: base + BytesBelow(n, k) <= q < base + BytesBelow(n, k) + j ==> m[q] == 0
    ensures Slot(n, Block(k, 8 * j + num)) && Block(k, 8 * j + num) in FreeOf(m, n, base)
    ensures forall b :: b in FreeOf(m, n, base) && b.level == k ==> 8 * j + num <= b.index
  {
    hide Up, BytesBelow, LevelCount, FreeOf, Mask;
    FreeOfIff(m, n, base, Block(k, 8 * j + num));
    forall b | b in FreeOf(m, n, base) && b.level == k
      ensures 8 * j + num <= b.index
    {
      FreeOfIff(m, n, base, b);
      ZeroHasNoBit(b.index % 8);
    }
  }

  /** The bitmap bytes are determined by the free blocks, padding bits included. */
  lemma BytesFromFree(m: seq<bv8>, m': seq<bv8>, n: nat, base: nat, base': nat, k: nat, j: nat)
    requires Fits(m, n, base) && Fits(m', n, base')
    requires FreeOf(m, n, base) == FreeOf(m', n, base')
    requires k < LevelCount(n) && j < Bytes(Up(n, k))
    ensures base + BytesBelow(n, k) + j < |m| && base' + BytesBelow(n, k) + j < |m'|
    ensures m[base + BytesBelow(n, k) + j] == m'[base' + BytesBelow(n, k) + j]
  {
    hide Up, BytesBelow, FreeOf, LevelCount, Mask;
    BytesBelowMonotone(n, k, LevelCount(n));
    var p, p' := base + BytesBelow(n, k) + j, base' + BytesBelow(n, k) + j;
    forall i: nat | i < 8
      ensures Bit(m[p], i) <==> Bit(m'[p'], i)
    {
      var b := Block(k, 8 * j + i);
      FreeOfIff(m, n, base, b);
      FreeOfIff(m', n, base', b);
      assert ByteOf(n, base, b) == p && ByteOf(n, base', b) == p';
    }
    ByteFromBits(m[p], m'[p']);
  }

  // ----- The freshly initialised bitmaps -----

  /** Zero bytes, with the leftover bit of an odd level set in its last byte. */
  function InitialByte(sz: nat, j: nat): bv8 {
    if sz % 2 == 1 && j + 1 == Bytes(sz) then Mask(LastBit(sz)) else 0
  }

  function LastBit(sz: nat): (i: nat)
    requires sz % 2 == 1
    ensures i == sz % 8 - 1 && i < 8
    ensures 8 * (Bytes(sz) - 1) + i == sz - 1
  {
    var q, r := sz / 8, sz % 8;
    assert sz == 8 * q + r;
    assert r > 0;
    r - 1
  }

  ghost predicate LevelInitialised(m: seq<bv8>, n: nat, base: nat, k: nat)
    requires Fits(m, n, base) && k < LevelCount(n)
  {
    BytesBelowMonotone(n, k, LevelCount(n));
    forall j: nat :: j < Bytes(Up(n, k)) ==> m[base + BytesBelow(n, k) + j] == InitialByte(Up(n, k), j)
  }

  ghost predicate LevelsInitialised(m: seq<bv8>, n: nat, base: nat, k: nat)
    requires Fits(m, n, base) && k <= LevelCount(n)
  {
    forall j: nat :: j < k ==> LevelInitialised(m, n, base, j)
  }

  lemma MaskBit(i: nat, j: nat)
    requires i < 8 && j < 8
    ensures Bit(Mask(i), j) <==> i == j
    ensures !Bit(0, j)
  {
    if i != j {
      MaskApart(i, j);
    }
  }

  lemma InitialBitmaps(m: seq<bv8>, n: nat, base: nat)
    requires Fits(m, n, base)
    requires LevelsInitialised(m, n, base, LevelCount(n))
    ensures FreeOf(m, n, base) == InitialFree(n)
  {
    forall b
      ensures b in FreeOf(m, n, base) <==> b in InitialFree(n)
    {
      FreeOfIff(m, n, base, b);
      if Slot(n, b) {
        InitialBit(m, n, base, b);
      }
    }
  }

  lemma InitialBit(m: seq<bv8>, n: nat, base: nat, b: Block)
    requires Fits(m, n, base) && Slot(n, b) && LevelInitialised(m, n, base, b.level)
    ensures BitOf(m, n, base, b) <==> b in InitialFree(n)
  {
    var sz := Up(n, b.level);
    BytesBelowMonotone(n, b.level, LevelCount(n));
    var j := b.index / 8;
    assert m[base + BytesBelow(n, b.level) + j] == InitialByte(sz, j);
    LeftoverBit(sz, b.index);
    assert b in InitialFree(n) <==> sz % 2 == 1 && b.index == sz - 1;
  }

  lemma LeftoverBit(sz: nat, i: nat)
    requires i < 8 * Bytes(sz)
    ensures Bit(InitialByte(sz, i / 8), i % 8) <==> sz % 2 == 1 && i == sz - 1
  {
    var j, r := i / 8, i % 8;
    assert i == 8 * j + r;
    if sz % 2 == 1 {
      MaskBit(LastBit(sz), r);
    } else {
      MaskBit(0, r);
    }
  }

  // ----- Counting set bits -----

  ghost function AtLevel(s: set<Block>, k: nat): set<Block> {
    set b | b in s && b.level == k
  }

  lemma AtLevelAdd(s: set<Block>, b: Block, k: nat)
    requires b !in s
    ensures |AtLevel(s + {b}, k)| == |AtLevel(s, k)| + (if b.level == k then 1 else 0)
  {
    if b.level == k {
      assert AtLevel(s + {b}, k) == AtLevel(s, k) + {b};
    } else {
      assert AtLevel(s + {b}, k) == AtLevel(s, k);
    }
  }

  lemma AtLevelRemove(s: set<Block>, b: Block, k: nat)
    requires b in s
    ensures |AtLevel(s - {b}, k)| == |AtLevel(s, k)| - (if b.level == k then 1 else 0)
  {
    AtLevelAdd(s - {b}, b, k);
    assert s - {b} + {b} == s;
  }

  lemma InitialCount(n: nat, k: nat)
    requires k < LevelCount(n)
    ensures |AtLevel(InitialFree(n), k)| == if Up(n, k) % 2 == 1 then 1 else 0
  {
    LevelExists(n, k);
    var b := Block(k, Up(n, k) - 1);
    if Up(n, k) % 2 == 1 {
      assert b in InitialFree(n);
      assert AtLevel(InitialFree(n), k) == {b};
    } else {
      assert AtLevel(InitialFree(n), k) == {};
    }
  }
}
