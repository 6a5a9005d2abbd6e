/**
  The kernel's dynamic memory manager: a buddy allocator whose bitmaps are bytes in the first pages of
  the memory it manages.  Addresses and sizes are bytes; `BuddyArena` says what each call does to the
  set of free blocks and to the live allocations.
 */
module DynMem {
  import opened Basics
  import opened BuddyBlocks
  import opened BuddyArena
  import opened BuddyBitmaps

  const UNIT: nat := 4096                     // DYN_MEM_BUDDY_UNIT_SIZE
  const START_ADDRESS: nat := 0x0010_0000     // DYN_MEMORY_START_ADDRESS
  const IOMAP_ADDRESS: nat := 0xbf80_0000     // IOMAP_MEMORY_START_ADDRESS
  const METADATA_SIZE: nat := 49 * 4096       // 0xfffcf000 .. 0xffffffff, mapped onto the first arena pages
  const HEADER_SIZE: nat := 8                 // sizeof(BuddyBitmap)
  const MAX_REQUEST: nat := 0x8000_0000

  /** `bits` is an offset from the start of the metadata. */
  datatype BuddyBitmap = BuddyBitmap(bits: nat, count: nat)

  /** `_ceil_uint32(num, UNIT)`: the sum wraps at 32 bits. */
  function CeilToUnit(num: nat): nat {
    (num + UNIT - 1) % 0x1_0000_0000 / UNIT * UNIT
  }

  /** The units a request is rounded up to. */
  function RoundUnits(size: nat): nat {
    CeilToUnit(size) / UNIT
  }

  /** The sizes for which some block is long enough, or no longer than the rounding makes them. */
  predicate Roundable(size: nat) {
    size <= MAX_REQUEST || 0xffff_f000 < size < 0x1_0000_0000
  }

  lemma RoundingUp(size: nat)
    requires 0 < size && Roundable(size)
    ensures CeilToUnit(size) == UNIT * RoundUnits(size) <= MAX_REQUEST
    ensures size > MAX_REQUEST ==> RoundUnits(size) == 0
    ensures size <= MAX_REQUEST ==> 0 < RoundUnits(size)
    ensures size <= MAX_REQUEST ==> UNIT * (RoundUnits(size) - 1) < size <= UNIT * RoundUnits(size)
  {
  }

  /** `UNIT << idx` in 32 bits. */
  function BlockSize(idx: nat): nat {
    UNIT * Pow2(idx) % 0x1_0000_0000
  }

  /** The bit behind `sz` bits is a padding bit, or the first bit behind their bytes. */
  lemma IndexBehind(sz: nat)
    requires sz > 0
    ensures if sz % 8 != 0 then sz < 8 * Bytes(sz) else sz / 8 == Bytes(sz) && sz / 2 > 0
  {
  }

  lemma HasByte(sz: nat)
    ensures sz > 0 ==> Bytes(sz) > 0
  {
  }

  lemma {:induction false} Pow2Product(i: nat, k: nat)
    ensures Pow2(i + k) == Pow2(k) * Pow2(i)
    decreases k
  {
    if k > 0 {
      Pow2Product(i, k - 1);
      assert Pow2(k) * Pow2(i) == 2 * (Pow2(k - 1) * Pow2(i));
    }
  }

  lemma BlockSizes(idx: nat)
    ensures BlockSize(idx) <= MAX_REQUEST
    ensures BlockSize(0) == UNIT && BlockSize(19) == MAX_REQUEST
  {
    Pow2Of20();
    if idx <= 19 {
      Pow2Product(idx, 19 - idx);
      MulMono(1, Pow2(19 - idx), Pow2(idx));
    } else {
      Pow2Product(20, idx - 20);
      MultipleMod(Pow2(idx - 20), 0x1_0000_0000);
    }
  }

  /** The search for a level, `for (idx = 0; (UNIT << idx) < size; idx++)`, ends for exactly these sizes. */
  lemma LevelSearchEnds(size: nat)
    requires 0 < size < 0x1_0000_0000
    ensures (exists idx :: 0 <= idx < 32 && BlockSize(idx) >= CeilToUnit(size)) <==> Roundable(size)
  {
    BlockSizes(0);
    assert BlockSize(19) == MAX_REQUEST;
    forall idx: nat ensures BlockSize(idx) <= MAX_REQUEST {
      BlockSizes(idx);
    }
  }

  /** A size that wraps to 0 when it is rounded gets one unit, and the used size does not grow. */
  lemma WrappedRequest(a: Arena, size: nat)
    requires Inv(a) && 0xffff_f000 < size < 0x1_0000_0000
    ensures CeilToUnit(size) == 0 && RoundUnits(size) == 0
    ensures var (after, b) := Allocate(a, RoundUnits(size));
      b.Some? ==> b.value.level == 0 && UNIT * Pow2(b.value.level) < size && Used(after.live) == Used(a.live)
  {
    AllocateInv(a, 0);
    var (after, b) := Allocate(a, 0);
    if b.Some? {
      UsedInsert(a.live, b.value, 0);
    }
  }

  // ----- Sizing the metadata -----

  /** The bytes of all headers and bitmaps for `n` units. */
  function MetadataBytes(n: nat): nat {
    HEADER_SIZE * LevelCount(n) + BytesBelow(n, LevelCount(n))
  }

  function MetadataPages(n: nat): nat {
    CeilToUnit(MetadataBytes(n)) / UNIT
  }

  lemma Pow2Of20()
    ensures Pow2(20) == 0x10_0000 && Pow2(19) == 0x8_0000
  {
    assert Pow2(3) == 8;
    assert Pow2(5) == 32;
    assert Pow2(7) == 128;
    assert Pow2(9) == 512;
    assert Pow2(11) == 2048;
    assert Pow2(13) == 8192;
    assert Pow2(15) == 32768;
    assert Pow2(17) == 131072;
  }

  /** The level for a number of units exists exactly when some level has a block that long. */
  lemma LongEnough(n: nat, units: nat)
    ensures LevelFor(units) < LevelCount(n) <==> exists k :: Pow2(k) <= n && units <= Pow2(k)
  {
    var k := LevelFor(units);
    LevelFromIsLeast(units, 0);
    LevelExists(n, k);
    LevelHasBlock(n, k);
    if j :| Pow2(j) <= n && units <= Pow2(j) {
      if j < k {
        Pow2Product(j, k - 1 - j);
        MulMono(1, Pow2(k - 1 - j), Pow2(j));
      } else {
        Pow2Product(k, j - k);
        MulMono(1, Pow2(j - k), Pow2(k));
      }
    }
  }

  lemma LevelHasBlock(n: nat, k: nat)
    ensures Up(n, k) > 0 <==> Pow2(k) <= n
  {
    UpBounds(n, k);
    if Up(n, k) > 0 {
      MulMono(1, Up(n, k), Pow2(k));
    }
  }

  /** Rounding up to whole units, when the sum does not wrap. */
  lemma CeilIs(x: nat)
    requires x <= 0xffff_0000
    ensures CeilToUnit(x) == UNIT * (CeilToUnit(x) / UNIT)
    ensures x <= CeilToUnit(x) < x + UNIT
  {
  }

  lemma CeilBeyondStart(x: nat)
    requires x <= METADATA_SIZE
    ensures CeilToUnit(START_ADDRESS + x) == START_ADDRESS + UNIT * (CeilToUnit(x) / UNIT)
  {
    CeilIs(x);
    CeilIs(START_ADDRESS + x);
    hide CeilToUnit;
  }

  lemma MetadataFits(n: nat)
    requires 256 <= n <= 0xb_f700
    ensures LevelCount(n) <= 20
    ensures 0 < MetadataBytes(n) <= METADATA_SIZE
    ensures MetadataBytes(n) <= UNIT * MetadataPages(n) < MetadataBytes(n) + UNIT
    ensures MetadataPages(n) < n
  {
    Pow2Of20();
    LevelCountBound(n, 20);
    BytesBelowBound(n, LevelCount(n));
    assert LevelCount(n) > 0;
    assert 0 < MetadataBytes(n) <= METADATA_SIZE by { hide CeilToUnit; }
    hide LevelCount, BytesBelow, MetadataBytes;
    CeilIs(MetadataBytes(n));
    hide CeilToUnit;
  }

  lemma BytesBelowLevels(n: nat, j: nat, k: nat)
    requires j <= k
    ensures BytesBelow(n, j) <= BytesBelow(n, k)
  {
    if j < k {
      BytesBelowMonotone(n, j, k);
    }
  }

  /** The bitmaps of the smaller arena fit where those of the whole memory were budgeted. */
  lemma ShrunkFits(n: nat, n': nat)
    requires n' <= n
    ensures LevelCount(n') <= LevelCount(n)
    ensures BytesBelow(n', LevelCount(n')) <= BytesBelow(n, LevelCount(n))
  {
    if LevelCount(n') > 0 {
      var k := LevelCount(n') - 1;
      LevelExists(n', k);
      UpMonotone(n', n, k);
      LevelExists(n, k);
    }
    BytesBelowGrows(n', n, LevelCount(n'));
    BytesBelowLevels(n, LevelCount(n'), LevelCount(n));
  }

  lemma WholeUnits(size: nat)
    requires 0 < size <= 0xbf70_0000 && size % 0x10_0000 == 0
    ensures size == UNIT * (size / UNIT) && 256 <= size / UNIT <= 0xb_f700
  {
    var m := size / 0x10_0000;
    assert size == 0x10_0000 * m && 1 <= m;
    assert size / UNIT == 256 * m;
  }

  /** Levels once initialised stay so while only bytes behind them change. */
  lemma LevelsKept(was: seq<bv8>, now: seq<bv8>, n: nat, off: nat, k: nat)
    requires |was| == |now| && Fits(was, n, off) && k <= LevelCount(n) && LevelsInitialised(was, n, off, k)
    requires off + BytesBelow(n, k) <= |was| && now[..off + BytesBelow(n, k)] == was[..off + BytesBelow(n, k)]
    ensures LevelsInitialised(now, n, off, k)
  {
    hide Up, InitialByte;
    forall j: nat | j < k
      ensures LevelInitialised(now, n, off, j)
    {
      BytesBelowMonotone(n, j, k);
      assert LevelInitialised(was, n, off, j);
      forall i: nat | i < Bytes(Up(n, j))
        ensures now[off + BytesBelow(n, j) + i] == InitialByte(Up(n, j), i)
      {
        var p := off + BytesBelow(n, j) + i;
        assert now[..off + BytesBelow(n, k)][p] == was[..off + BytesBelow(n, k)][p];
      }
    }
  }

  /** The unit counts of the arena in terms of the memory's total units. */
  lemma ArenaSize(total: nat, bytes: nat)
    requires 256 <= total <= 0xb_f700 && bytes == MetadataBytes(total)
    ensures (UNIT * total - 1) / UNIT + 1 == total
    ensures CeilToUnit(START_ADDRESS + bytes) == START_ADDRESS + UNIT * MetadataPages(total)
    ensures MetadataPages(total) < total
    ensures (UNIT * total - UNIT * MetadataPages(total) - 1) / UNIT + 1 == total - MetadataPages(total)
  {
    MetadataFits(total);
    hide MetadataBytes;
    CeilBeyondStart(bytes);
    hide CeilToUnit;
  }

  /** The headers of the levels built so far point at consecutive bitmaps. */
  ghost predicate Headers(ar: seq<BuddyBitmap>, n: nat, base: nat) {
    forall k: nat :: k < |ar| ==> ar[k].bits == base + BytesBelow(n, k)
  }

  ghost predicate InitialCounts(ar: seq<BuddyBitmap>, n: nat) {
    forall k: nat :: k < |ar| ==> ar[k].count == Up(n, k) % 2
  }

  lemma NothingBuilt(m: seq<bv8>, n: nat, base: nat)
    requires Fits(m, n, base)
    ensures BytesBelow(n, 0) == 0 && Up(n, 0) == n && (n > 0 ==> LevelCount(n) > 0)
    ensures Headers([], n, base) && InitialCounts([], n) && LevelsInitialised(m, n, base, 0)
  {
  }

  lemma HeadersPush(ar: seq<BuddyBitmap>, n: nat, base: nat, h: BuddyBitmap)
    requires Headers(ar, n, base) && h.bits == base + BytesBelow(n, |ar|)
    requires InitialCounts(ar, n) && h.count == Up(n, |ar|) % 2
    ensures Headers(ar + [h], n, base) && InitialCounts(ar + [h], n)
  {
    hide BytesBelow, Up;
  }

  /** Every `count` is the number of free blocks of its level. */
  ghost predicate CountsOf(ar: seq<BuddyBitmap>, free: set<Block>) {
    forall k: nat :: k < |ar| ==> ar[k].count == |AtLevel(free, k)|
  }

  lemma InitialCountsOf(ar: seq<BuddyBitmap>, n: nat)
    requires |ar| == LevelCount(n) && InitialCounts(ar, n)
    ensures CountsOf(ar, InitialFree(n))
  {
    forall k: nat | k < |ar|
      ensures ar[k].count == |AtLevel(InitialFree(n), k)|
    {
      InitialCount(n, k);
    }
  }

  lemma CountsAdd(ar: seq<BuddyBitmap>, free: set<Block>, b: Block)
    requires CountsOf(ar, free) && b.level < |ar| && b !in free
    ensures CountsOf(ar[b.level := ar[b.level].(count := ar[b.level].count + 1)], free + {b})
  {
    forall k: nat | k < |ar| { AtLevelAdd(free, b, k); }
  }

  lemma CountsRemove(ar: seq<BuddyBitmap>, free: set<Block>, b: Block)
    requires CountsOf(ar, free) && b.level < |ar| && b in free
    ensures ar[b.level].count > 0
    ensures CountsOf(ar[b.level := ar[b.level].(count := ar[b.level].count - 1)], free - {b})
  {
    assert b in AtLevel(free, b.level);
    forall k: nat | k < |ar| { AtLevelRemove(free, b, k); }
  }

  /** A level with count 0 has no free block. */
  lemma NoneAtLevel(ar: seq<BuddyBitmap>, free: set<Block>, k: nat, b: Block)
    requires CountsOf(ar, free) && k < |ar| && ar[k].count == 0 && b.level == k
    ensures b !in free
  {
    assert b in free ==> b in AtLevel(free, k);
  }

  /** A block of the arena has a bit, and so has the position of its buddy, even beyond the level's end. */
  lemma BlockSlot(n: nat, b: Block)
    requires InRange(n, b)
    ensures Slot(n, b) && Slot(n, Buddy(b))
  {
    LevelExists(n, b.level);
    EvenPadding(Up(n, b.level), b.index);
  }

  lemma ParentExists(n: nat, b: Block)
    requires InRange(n, Parent(b))
    ensures b.level + 1 < LevelCount(n)
  {
    LevelExists(n, b.level + 1);
  }

  lemma MergeShrinks(free: set<Block>, b: Block)
    requires b in free && Buddy(b) in free
    ensures |free - {b, Buddy(b)} + {Parent(b)}| < |free|
  {
    var rest := free - {b, Buddy(b)};
    assert free == rest + {b, Buddy(b)};
    assert |free| == |rest| + 2;
  }

  lemma Scale(i: nat, p: nat)
    ensures i * (UNIT * p) == UNIT * (i * p)
    ensures (i + 1) * p == i * p + p
  {
  }

  lemma MultipleMod(i: nat, m: nat)
    requires m > 0
    ensures (i * m) % m == 0
  {
    QuotientIs(i * m, m, i);
  }

  lemma QuotientIs(x: nat, m: nat, q: nat)
    requires m > 0 && q * m <= x < (q + 1) * m
    ensures x / m == q && x % m == x - q * m
  {
    var d := x / m;
    assert x == d * m + x % m;
    if d < q { MulMono(d + 1, q, m); } else if d > q { MulMono(q + 1, d, m); }
  }

  lemma EvenPadding(sz: nat, i: nat)
    requires i < sz
    ensures i < 8 * Bytes(sz) && (i % 2 == 0 ==> i + 1 < 8 * Bytes(sz))
  {
  }

  /** `addr / UNIT * UNIT` */
  function RoundDown(addr: nat): nat {
    addr / UNIT * UNIT
  }

  /** Whole units from an aligned address on. */
  function UnitsFrom(begin: nat, addr: nat): nat
    requires begin % UNIT == 0 && begin <= addr
  {
    RoundDown(addr) - begin
  }

  function Quotient(x: nat, m: nat): nat
    requires m > 0
  {
    x / m
  }

  lemma AddressInBlock(begin: nat, addr: nat, index: nat, p: nat)
    requires begin % UNIT == 0 && p > 0
    requires begin + UNIT * (index * p) <= addr < begin + UNIT * (index * p) + UNIT * p
    ensures UnitsFrom(begin, addr) / (UNIT * p) == index
  {
    var first := index * p;
    var u := addr / UNIT - begin / UNIT;
    assert UnitsFrom(begin, addr) == UNIT * u && first <= u < first + p;
    hide UnitsFrom;
    Scale(index, p);
    Scale(index + 1, p);
    QuotientIs(UNIT * u, UNIT * p, index);
  }

  lemma PickNone(free: set<Block>, k: nat)
    requires forall b :: b in free ==> b.level < k
    ensures Pick(free, k) == None
  {
  }

  lemma Shrunk(free: set<Block>, b: Block)
    requires Coalesced(free)
    ensures Coalesced(free - {b})
  {
  }

  lemma HeaderCount(ar: seq<BuddyBitmap>, n: nat, base: nat, k: nat, count: nat)
    requires Headers(ar, n, base) && k < |ar|
    ensures Headers(ar[k := ar[k].(count := count)], n, base)
  {
  }

  class DynMem {
    var DynMemSize: nat
    var BeginAddr: nat
    var UsedSize: nat
    var CountOfUnitBlock: nat
    var BitmapLevel: nat
    var arBitmap: seq<BuddyBitmap>
    const meta: array<bv8>

    /** The blocks handed out and not yet freed, with the units each was asked for. */
    ghost var live: map<Block, nat>
    /** Where the first bitmap starts, behind the headers. */
    ghost var base: nat

    ghost predicate Layout()
      reads this
    {
      && meta.Length == METADATA_SIZE
      && 0 < CountOfUnitBlock
      && BitmapLevel == LevelCount(CountOfUnitBlock) == |arBitmap|
      && BitmapLevel <= 20
      && HEADER_SIZE * BitmapLevel <= base
      && base + BytesBelow(CountOfUnitBlock, BitmapLevel) <= METADATA_SIZE
      && START_ADDRESS + base + BytesBelow(CountOfUnitBlock, BitmapLevel) <= BeginAddr
      && BeginAddr % UNIT == 0
      && BeginAddr + UNIT * CountOfUnitBlock == START_ADDRESS + DynMemSize
      && START_ADDRESS + DynMemSize <= IOMAP_ADDRESS
      && Headers(arBitmap, CountOfUnitBlock, base)
    }

    ghost function FreeBlocks(): set<Block>
      requires Layout()
      reads this, meta
    {
      FreeOf(meta[..], CountOfUnitBlock, base)
    }

    /** Every `count` is the number of set bits of its level. */
    ghost predicate Counts()
      requires Layout()
      reads this, meta
    {
      CountsOf(arBitmap, FreeBlocks())
    }

    ghost function State(): Arena
      requires Layout()
      reads this, meta
    {
      Arena(CountOfUnitBlock, FreeBlocks(), live)
    }

    ghost predicate Valid()
      reads this, meta
    {
      && Layout()
      && Counts()
      && Inv(State())
      && UsedSize == UNIT * Used(live)
    }

    /** The address handed out for a block; 0 is NULL. */
    ghost function AddressOf(b: Option<Block>): nat
      reads this
    {
      match b
      case None => 0
      case Some(x) => BeginAddr + x.index * (UNIT * Pow2(x.level))
    }

    constructor (size: nat)
      ensures DynMemSize == size && fresh(meta) && meta.Length == METADATA_SIZE
    {
      DynMemSize := size;
      meta := new bv8[METADATA_SIZE];
    }

    // ----- Bitmap helpers -----

    method SetBit1(k: nat, idx: nat)
      requires Layout() && Slot(CountOfUnitBlock, Block(k, idx))
      modifies meta
      ensures Layout() && FreeBlocks() == old(FreeBlocks()) + {Block(k, idx)}
    {
      hide Up, BytesBelow, FreeOf, LevelCount, Mask;
      SetBit(meta[..], CountOfUnitBlock, base, Block(k, idx));
      var p := arBitmap[k].bits + idx / 8;
      meta[p] := meta[p] | Mask(idx % 8);
      assert meta[..] == old(meta[..])[p := old(meta[..])[p] | Mask(idx % 8)];
    }

    method SetBit0(k: nat, idx: nat)
      requires Layout() && Slot(CountOfUnitBlock, Block(k, idx))
      modifies meta
      ensures Layout() && FreeBlocks() == old(FreeBlocks()) - {Block(k, idx)}
    {
      hide Up, BytesBelow, FreeOf, LevelCount, Mask;
      ClearBit(meta[..], CountOfUnitBlock, base, Block(k, idx));
      var p := arBitmap[k].bits + idx / 8;
      meta[p] := meta[p] & !Mask(idx % 8);
      assert meta[..] == old(meta[..])[p := old(meta[..])[p] & !Mask(idx % 8)];
    }

    method GetBit(k: nat, idx: nat) returns (isSet: bool)
      requires Layout() && Slot(CountOfUnitBlock, Block(k, idx))
      ensures isSet <==> Block(k, idx) in FreeBlocks()
    {
      FreeOfIff(meta[..], CountOfUnitBlock, base, Block(k, idx));
      isSet := Bit(meta[arBitmap[k].bits + idx / 8], idx % 8);
    }

    // ----- Searching a bitmap -----

    /** `_memchr_not_without_size(bits, 0)`: the first non-zero byte; it has no bound of its own. */
    method FirstNonZero(from: nat, ghost limit: nat) returns (p: nat)
      requires from <= limit < meta.Length && meta[limit] != 0
      ensures from <= p <= limit && meta[p] != 0
      ensures forall q :: from <= q < p ==> meta[q] == 0
    {
      p := from;
      while meta[p] == 0
        invariant from <= p <= limit
        invariant forall q :: from <= q < p ==> meta[q] == 0
        decreases limit - p
      {
        p := p + 1;
      }
    }

    /** The lowest set bit of a non-zero byte. */
    method LowestBit(b: bv8) returns (num: nat)
      requires b != 0
      ensures num < 8 && Bit(b, num) && forall i: nat :: i < num ==> !Bit(b, i)
    {
      num := 0;
      NonZeroHasBit(b);
      while !Bit(b, num)
        invariant num < 8 && forall i: nat :: i < num ==> !Bit(b, i)
        decreases 8 - num
      {
        num := num + 1;
      }
    }

    /** The lowest free block of a level whose count is not zero; the scan stays inside the level's bytes. */
    method LowestFree(now: nat) returns (block: nat)
      requires Layout() && Counts() && now < BitmapLevel && arBitmap[now].count > 0
      ensures Block(now, block) in FreeBlocks()
      ensures forall b :: b in FreeBlocks() && b.level == now ==> block <= b.index
      ensures Slot(CountOfUnitBlock, Block(now, block))
    {
      hide Up, BytesBelow, FreeOf, LevelCount, Mask, CountsOf, Bytes;
      ghost var n := CountOfUnitBlock;
      ghost var some := SomeFree(now);
      FreeOfIff(meta[..], n, base, some);
      var bits := arBitmap[now].bits;
      var pb := FirstNonZero(bits, ByteOf(n, base, some));
      var num := LowestBit(meta[pb]);
      block := (pb - bits) * 8 + num;
      LowestFreeIs(meta[..], n, base, now, pb - bits, meta[pb], num);
    }

    lemma SomeFree(now: nat) returns (b: Block)
      requires Layout() && Counts() && now < BitmapLevel && arBitmap[now].count > 0
      ensures b in FreeBlocks() && b.level == now
      ensures Slot(CountOfUnitBlock, b) && meta[ByteOf(CountOfUnitBlock, base, b)] != 0
    {
      hide Up, BytesBelow, Mask;
      assert AtLevel(FreeBlocks(), now) != {};
      b :| b in AtLevel(FreeBlocks(), now);
      FreeOfIff(meta[..], CountOfUnitBlock, base, b);
      ZeroHasNoBit(b.index % 8);
    }

    // ----- Initialisation -----

    /** Adds up headers and bitmaps of every level; stops at the level with one block. */
    method SizeMetadata(n: nat) returns (headers: nat, total: nat)
      requires n > 0
      ensures headers == HEADER_SIZE * LevelCount(n)
      ensures total == MetadataBytes(n)
    {
      headers, total := 0, 0;
      var sz := n;
      ghost var k := 0;
      while true
        invariant sz == Up(n, k) && sz > 0
        invariant headers == HEADER_SIZE * k && total == headers + BytesBelow(n, k)
        decreases sz
      {
        LevelExists(n, k);
        headers := headers + HEADER_SIZE;
        total := total + HEADER_SIZE + (sz - 1) / 8 + 1;
        if sz == 1 {
          break;
        }
        sz := sz / 2;
        k := k + 1;
      }
    }

    method Zero(at: nat, len: nat)
      requires at + len <= meta.Length
      modifies meta
      ensures forall p :: at <= p < at + len ==> meta[p] == 0
      ensures forall p :: 0 <= p < meta.Length && !(at <= p < at + len) ==> meta[p] == old(meta[p])
    {
      for i := 0 to len
        invariant forall p :: at <= p < at + i ==> meta[p] == 0
        invariant forall p :: 0 <= p < meta.Length && !(at <= p < at + i) ==> meta[p] == old(meta[p])
      {
        meta[at + i] := 0;
      }
    }

    /** Clears the bitmap of level k and sets the leftover bit of an odd level. */
    method InitializeLevel(n: nat, k: nat, sz: nat, at: nat, ghost off: nat)
      returns (count: nat, next: nat)
      requires Fits(meta[..], n, off) && k < LevelCount(n)
      requires sz == Up(n, k) && at == off + BytesBelow(n, k)
      requires LevelsInitialised(meta[..], n, off, k)
      modifies meta
      ensures Fits(meta[..], n, off)
      ensures LevelsInitialised(meta[..], n, off, k + 1)
      ensures count == Up(n, k) % 2
      ensures next == off + BytesBelow(n, k + 1)
    {
      hide Up, Mask;
      LevelExists(n, k);
      BytesBelowMonotone(n, k, LevelCount(n));
      var len := (sz - 1) / 8 + 1;
      next := at + len;
      Zero(at, len);
      if sz % 2 != 0 {
        count := 1;
        meta[at + len - 1] := Mask(LastBit(sz));
      } else {
        count := 0;
      }
      LevelsKept(old(meta[..]), meta[..], n, off, k);
    }

    /** The first half of the initialisation: where the arena begins and how many units it has. */
    method MeasureArena() returns (pb: nat)
      requires 0 < DynMemSize <= 0xbf70_0000 && DynMemSize % 0x10_0000 == 0
      modifies this
      ensures live == old(live)
      ensures DynMemSize == old(DynMemSize)
      ensures var total := DynMemSize / UNIT;
              && 256 <= total <= 0xb_f700
              && CountOfUnitBlock == total - MetadataPages(total) > 0
              && pb == HEADER_SIZE * LevelCount(total)
              && BeginAddr == START_ADDRESS + UNIT * MetadataPages(total)
              && BeginAddr + UNIT * CountOfUnitBlock == START_ADDRESS + DynMemSize
    {
      ghost var total := DynMemSize / UNIT;
      WholeUnits(DynMemSize);
      var bytes;
      hide CeilToUnit, MetadataBytes, MetadataPages;
      ArenaSize(total, MetadataBytes(total));
      pb, bytes := SizeMetadata((DynMemSize - 1) / UNIT + 1);
      BeginAddr := CeilToUnit(START_ADDRESS + bytes);
      // the metadata pages are taken off the arena
      var dynSize := DynMemSize - (BeginAddr - START_ADDRESS);
      CountOfUnitBlock := (dynSize - 1) / UNIT + 1;
    }

    /** The second half: one bitmap per level, from `pb` on. */
    method BuildBitmaps(start: nat)
      requires CountOfUnitBlock > 0
      requires Fits(meta[..], CountOfUnitBlock, start)
      modifies this, meta
      ensures unchanged(`DynMemSize, `BeginAddr, `CountOfUnitBlock, `live)
      ensures base == start && Fits(meta[..], CountOfUnitBlock, base)
      ensures BitmapLevel == LevelCount(CountOfUnitBlock) == |arBitmap|
      ensures Headers(arBitmap, CountOfUnitBlock, base) && InitialCounts(arBitmap, CountOfUnitBlock)
      ensures FreeOf(meta[..], CountOfUnitBlock, base) == InitialFree(CountOfUnitBlock)
      ensures UsedSize == 0
    {
      hide Up, BytesBelow, Fits, Headers, InitialCounts, LevelsInitialised;
      var n, pb := CountOfUnitBlock, start;
      NothingBuilt(meta[..], n, start);
      arBitmap := [];
      var sz := n;
      while true
        invariant unchanged(`DynMemSize, `BeginAddr, `CountOfUnitBlock, `live)
        invariant Fits(meta[..], n, start)
        invariant |arBitmap| < LevelCount(n) && sz == Up(n, |arBitmap|) && sz > 0
        invariant pb == start + BytesBelow(n, |arBitmap|)
        invariant Headers(arBitmap, n, start) && InitialCounts(arBitmap, n)
        invariant LevelsInitialised(meta[..], n, start, |arBitmap|)
        decreases sz
      {
        LevelExists(n, |arBitmap|);
        LevelExists(n, |arBitmap| + 1);
        UpStep(n, |arBitmap|);
        var count, next := InitializeLevel(n, |arBitmap|, sz, pb, start);
        HeadersPush(arBitmap, n, start, BuddyBitmap(pb, count));
        arBitmap := arBitmap + [BuddyBitmap(pb, count)];
        pb := next;
        if sz == 1 {
          break;
        }
        sz := sz / 2;
      }
      BitmapLevel := |arBitmap|;
      UsedSize := 0;
      base := start;
      InitialBitmaps(meta[..], n, start);
    }

    /** Sets up an empty allocator over a memory of `DynMemSize` bytes, whatever the metadata held before. */
    method Initialize()
      requires meta.Length == METADATA_SIZE
      requires 0 < DynMemSize <= 0xbf70_0000 && DynMemSize % 0x10_0000 == 0
      modifies this, meta
      ensures Valid() && DynMemSize == old(DynMemSize)
      ensures State() == Initial(CountOfUnitBlock)
      ensures CountOfUnitBlock == DynMemSize / UNIT - MetadataPages(DynMemSize / UNIT)
      ensures UsedSize == 0
    {
      hide Up, BytesBelow, LevelCount, Headers, CountsOf, InitialFree, FreeOf, Tiles, Coalesced;
      live := map[];
      var pb := MeasureArena();
      MetadataFits(DynMemSize / UNIT);
      ShrunkFits(DynMemSize / UNIT, CountOfUnitBlock);
      BuildBitmaps(pb);
      InitialInv(CountOfUnitBlock);
      InitialCountsOf(arBitmap, CountOfUnitBlock);
    }

    // ----- Allocation -----

    /** The block that is taken out of the bitmaps while it is being split. */
    ghost predicate Splitting(b: Block)
      reads this, meta
    {
      Layout() && Counts() && Held(CountOfUnitBlock, FreeBlocks(), live.Keys, b)
    }

    /** `for (BitmapIdx = 0; (UNIT << BitmapIdx) < size; BitmapIdx++)` */
    method FindLevel(size: nat) returns (idx: nat)
      requires size <= MAX_REQUEST && size % UNIT == 0
      ensures idx == LevelFor(size / UNIT) && idx <= 19
    {
      idx := 0;
      var block := UNIT;
      Pow2Of20();
      while block < size
        invariant block == UNIT * Pow2(idx) && idx <= 19
        invariant LevelFrom(size / UNIT, idx) == LevelFor(size / UNIT)
        decreases size - block
      {
        if idx == 19 { assert false; }
        block := block * 2;
        idx := idx + 1;
      }
    }

    /** Takes the lowest free block of level `now` out of the bitmaps. */
    method TakeLowest(now: nat) returns (block: nat)
      requires Valid() && now < BitmapLevel && arBitmap[now].count > 0
      modifies this`arBitmap, meta
      ensures Splitting(Block(now, block))
      ensures FreeBlocks() == old(FreeBlocks()) - {Block(now, block)}
      ensures Block(now, block) in old(FreeBlocks())
      ensures forall b :: b in old(FreeBlocks()) && b.level == now ==> block <= b.index
    {
      hide Up, BytesBelow, FreeOf, LevelCount, CountsOf, Tiles, Coalesced, Used;
      block := LowestFree(now);
      ghost var free := FreeBlocks();
      ghost var b := Block(now, block);
      CountsRemove(arBitmap, free, b);
      SetBit0(now, block);
      assert (free - {b}) + live.Keys + {b} == free + live.Keys;
      Shrunk(free, b);
      HeaderCount(arBitmap, CountOfUnitBlock, base, now, arBitmap[now].count - 1);
      arBitmap := arBitmap[now := arBitmap[now].(count := arBitmap[now].count - 1)];
    }

    /** Splits the held block down to level `idx`, marking the upper half of every split as free. */
    method SplitTo(now: nat, idx: nat, start: nat) returns (block: nat)
      requires idx <= now < BitmapLevel && Splitting(Block(now, start))
      modifies this`arBitmap, meta
      ensures Splitting(Block(idx, block))
      ensures Block(idx, block) == Leftmost(Block(now, start), idx)
      ensures FreeBlocks() == old(SplitDown(FreeBlocks(), Block(now, start), idx))
    {
      hide Up, BytesBelow, FreeOf, LevelCount, CountsOf, Headers, Held;
      block := start;
      var below := now;
      while below > idx
        invariant idx <= below <= now && Splitting(Block(below, block))
        invariant Leftmost(Block(below, block), idx) == Leftmost(Block(now, start), idx)
        invariant SplitDown(FreeBlocks(), Block(below, block), idx) == old(SplitDown(FreeBlocks(), Block(now, start), idx))
      {
        SplitOnce(CountOfUnitBlock, FreeBlocks(), live.Keys, Block(below, block));
        below := below - 1;
        block := block * 2;
        ghost var right := Block(below, block + 1);
        assert Right(Block(below + 1, block / 2)) == right;
        BlockSlot(CountOfUnitBlock, right);
        CountsAdd(arBitmap, FreeBlocks(), right);
        SetBit1(below, block + 1);
        HeaderCount(arBitmap, CountOfUnitBlock, base, below, arBitmap[below].count + 1);
        arBitmap := arBitmap[below := arBitmap[below].(count := arBitmap[below].count + 1)];
      }
    }

    /**
      The address is that of one more live block, recorded with its units: the lowest place of the lowest level
      from the least sufficient one on.
     */
    ghost predicate HandedOut(was: map<Block, nat>, free: set<Block>, ret: nat, units: nat)
      reads this
    {
      exists b :: b !in was && live == was[b := units] && ret == BeginAddr + UNIT * (b.index * Pow2(b.level)) &&
                  LeastLevel(units, b.level) && CutFromLowest(free, b)
    }

    /** Allocates from level `now`, the lowest non-empty level from `idx` on. */
    method AllocateAt(now: nat, idx: nat, rounded: nat, ghost units: nat) returns (ret: nat)
      requires Valid() && idx <= now < BitmapLevel && arBitmap[now].count > 0
      requires rounded == UNIT * units && idx == LevelFor(units)
      requires forall b :: b in FreeBlocks() && idx <= b.level ==> now <= b.level
      modifies this`arBitmap, this`UsedSize, this`live, meta
      ensures Valid()
      ensures var (state, block) := BuddyArena.Allocate(old(State()), units);
              State() == state && block.Some? && ret == AddressOf(block)
      ensures UsedSize == old(UsedSize) + rounded && ret >= BeginAddr > 0
      ensures HandedOut(old(live), old(FreeBlocks()), ret, units)
    {
      hide Up, BytesBelow, FreeOf, LevelCount, CountsOf, Headers, Inv, SplitDown, Leftmost, LevelFor, Used;
      hide LeastLevel, CutFromLowest;
      ghost var before := State();
      var block := TakeLowest(now);
      ghost var p := Block(now, block);
      PickIs(before.free, idx, p);
      block := SplitTo(now, idx, block);
      UsedSize := UsedSize + rounded;
      ghost var b := Block(idx, block);
      UsedInsert(live, b, units);
      live := live[b := units];
      AllocateInv(before, units);
      AllocationRecords(before, units);
      Scale(block, Pow2(idx));
      ret := BeginAddr + block * (UNIT * Pow2(idx));
    }

    /**
      Returns the address of a block for `size` bytes, or 0 when the size is 0 or no block is large enough.
     */
    method Allocate(size: nat) returns (ret: nat)
      requires Valid() && Roundable(size)
      modifies this, meta
      ensures Valid()
      ensures unchanged(`DynMemSize, `BeginAddr, `CountOfUnitBlock, `BitmapLevel, `base)
      ensures size == 0 ==> ret == 0 && State() == old(State())
      ensures size > 0 ==>
                var (state, block) := BuddyArena.Allocate(old(State()), RoundUnits(size));
                State() == state && ret == AddressOf(block)
      ensures ret == 0 ==> State() == old(State()) && UsedSize == old(UsedSize)
      ensures ret != 0 ==>
                size > 0 && UsedSize == old(UsedSize) + CeilToUnit(size) &&
                HandedOut(old(live), old(FreeBlocks()), ret, RoundUnits(size))
    {
      hide Up, BytesBelow, FreeOf, LevelCount, CountsOf, Headers, LevelFor, Used, CeilToUnit;
      if size == 0 {
        return 0;
      }
      RoundingUp(size);
      ghost var units := RoundUnits(size);
      var rounded := CeilToUnit(size);
      var idx := FindLevel(rounded);
      FreeLevels();
      if idx >= BitmapLevel {
        PickNone(FreeBlocks(), idx);
        return 0;
      }
      var now := idx;
      while now < BitmapLevel
        invariant idx <= now <= BitmapLevel
        invariant forall b :: b in FreeBlocks() && idx <= b.level ==> now <= b.level
      {
        if arBitmap[now].count == 0 {
          forall b | b in FreeBlocks() ensures b.level != now {
            NoneAtLevel(arBitmap, FreeBlocks(), now, Block(now, b.index));
          }
          now := now + 1;
          continue;
        }
        ret := AllocateAt(now, idx, rounded, units);
        return;
      }
      PickNone(FreeBlocks(), idx);
      ret := 0;
    }

    lemma FreeLevels()
      requires Valid()
      ensures forall b :: b in FreeBlocks() ==> b.level < BitmapLevel
    {
      hide Up, BytesBelow, Used;
      forall b | b in FreeBlocks() ensures b.level < BitmapLevel {
        FreeOfIff(meta[..], CountOfUnitBlock, base, b);
      }
    }

    // ----- Release -----

    ghost predicate Freeing(b: Block)
      reads this, meta
    {
      Layout() && Counts() && Merging(CountOfUnitBlock, FreeBlocks(), live.Keys, b)
    }

    /** The checks at the head of the function let the call through. */
    ghost predicate FreeAccepted(addr: nat, size: nat)
      reads this
    {
      && size > 0
      && BeginAddr <= addr <= START_ADDRESS + DynMemSize
      && LevelFor(RoundUnits(size)) < BitmapLevel
    }

    /** The block a call means: `addr` may be anywhere inside it. */
    ghost function BlockAt(addr: nat, size: nat): Block
      requires Layout() && BeginAddr <= addr
      reads this
    {
      var k := LevelFor(RoundUnits(size));
      Block(k, Quotient(UnitsFrom(BeginAddr, addr), UNIT * Pow2(k)))
    }

    /** Puts a block back and merges it upward while its buddy is free. */
    method MergeUp(idx: nat, start: nat)
      requires Layout() && Counts() && idx < BitmapLevel
      requires var b := Block(idx, start);
               b !in FreeBlocks() && InRange(CountOfUnitBlock, b) &&
               Merging(CountOfUnitBlock, FreeBlocks() + {b}, live.Keys, b)
      modifies this`arBitmap, meta
      ensures Layout() && Counts()
      ensures FreeBlocks() == Coalesce(old(FreeBlocks()) + {Block(idx, start)}, Block(idx, start))
    {
      hide Up, BytesBelow, FreeOf, LevelCount, CountsOf, Headers, Merging, InRange, Coalesce, Slot, Bytes;
      BlockSlot(CountOfUnitBlock, Block(idx, start));
      ghost var goal := Coalesce(FreeBlocks() + {Block(idx, start)}, Block(idx, start));
      MarkFree(idx, start);
      var now: nat, block: nat := idx, start;
      while true
        invariant Freeing(Block(now, block)) && InRange(CountOfUnitBlock, Block(now, block))
        invariant Block(now, block) in FreeBlocks()
        invariant Coalesce(FreeBlocks(), Block(now, block)) == goal
        decreases |FreeBlocks()|
      {
        var buddy := if block % 2 == 0 then block + 1 else block - 1;
        BlockSlot(CountOfUnitBlock, Block(now, block));
        var merge := GetBit(now, buddy);
        if !merge {
          break;
        }
        assert Buddy(Block(now, block)) == Block(now, buddy);
        ParentInArena(Block(now, block));
        if now + 1 >= BitmapLevel {
          // two free buddies always have a parent
          assert false;
        }
        MergeStep(now, buddy, block);
        now := now + 1;
        block := block / 2;
      }
      CoalesceStops(FreeBlocks(), Block(now, block));
    }

    lemma ParentInArena(b: Block)
      requires Layout() && Freeing(b) && InRange(CountOfUnitBlock, b) && Buddy(b) in FreeBlocks()
      ensures b.level + 1 < BitmapLevel
    {
      hide Up, BytesBelow, FreeOf, LevelCount, CountsOf, Headers, InRange, Coalesce, Slot, Bytes;
      MergeOnce(CountOfUnitBlock, FreeBlocks(), live.Keys, b);
      ParentExists(CountOfUnitBlock, b);
    }

    /** One round of merging: what is still to be coalesced stays the same, and a free block is gone. */
    method MergeStep(now: nat, buddy: nat, block: nat)
      requires Freeing(Block(now, block)) && InRange(CountOfUnitBlock, Block(now, block))
      requires Block(now, block) in FreeBlocks()
      requires Buddy(Block(now, block)) == Block(now, buddy) && Block(now, buddy) in FreeBlocks()
      modifies this`arBitmap, meta
      ensures Freeing(Block(now + 1, block / 2)) && InRange(CountOfUnitBlock, Block(now + 1, block / 2))
      ensures Block(now + 1, block / 2) in FreeBlocks()
      ensures |FreeBlocks()| < |old(FreeBlocks())|
      ensures Coalesce(FreeBlocks(), Block(now + 1, block / 2)) == old(Coalesce(FreeBlocks(), Block(now, block)))
    {
      hide Up, BytesBelow, FreeOf, LevelCount, CountsOf, Headers, Merging, InRange, Coalesce, Slot, Bytes;
      ghost var b, free := Block(now, block), FreeBlocks();
      MergeOnce(CountOfUnitBlock, free, live.Keys, b);
      ParentExists(CountOfUnitBlock, b);
      MergeShrinks(free, b);
      CoalesceMerges(free, b);
      MergePair(now, buddy, block);
      assert Block(now + 1, block / 2) == Parent(b);
    }

    /** Replaces two free buddies by their parent. */
    method MergePair(now: nat, buddy: nat, block: nat)
      requires Freeing(Block(now, block)) && InRange(CountOfUnitBlock, Block(now, block))
      requires Buddy(Block(now, block)) == Block(now, buddy) && Block(now, buddy) in FreeBlocks()
      requires Parent(Block(now, block)) !in FreeBlocks() && InRange(CountOfUnitBlock, Parent(Block(now, block)))
      modifies this`arBitmap, meta
      ensures Layout() && Counts()
      ensures var b := Block(now, block);
              FreeBlocks() == old(FreeBlocks()) - {b, Buddy(b)} + {Parent(b)}
    {
      hide Up, BytesBelow, FreeOf, LevelCount, CountsOf, Headers, Tiles, Coalesced;
      BlockSlot(CountOfUnitBlock, Block(now, block));
      BlockSlot(CountOfUnitBlock, Parent(Block(now, block)));
      ClearPair(now, buddy, block);
      MarkFree(now + 1, block / 2);
    }

    /** Sets a bit and counts it. */
    method MarkFree(k: nat, idx: nat)
      requires Layout() && Counts()
      requires Block(k, idx) !in FreeBlocks() && Slot(CountOfUnitBlock, Block(k, idx))
      modifies this`arBitmap, meta
      ensures Layout() && Counts()
      ensures FreeBlocks() == old(FreeBlocks()) + {Block(k, idx)}
    {
      hide Up, BytesBelow, FreeOf, LevelCount, CountsOf, Headers;
      CountsAdd(arBitmap, FreeBlocks(), Block(k, idx));
      SetBit1(k, idx);
      HeaderCount(arBitmap, CountOfUnitBlock, base, k, arBitmap[k].count + 1);
      arBitmap := arBitmap[k := arBitmap[k].(count := arBitmap[k].count + 1)];
    }

    /** Clears the bits of two buddies. */
    method ClearPair(k: nat, buddy: nat, idx: nat)
      requires Layout() && Counts() && k < BitmapLevel && buddy != idx
      requires Block(k, buddy) in FreeBlocks() && Slot(CountOfUnitBlock, Block(k, buddy))
      requires Block(k, idx) in FreeBlocks() && Slot(CountOfUnitBlock, Block(k, idx))
      modifies this`arBitmap, meta
      ensures Layout() && Counts()
      ensures FreeBlocks() == old(FreeBlocks()) - {Block(k, idx), Block(k, buddy)}
    {
      hide Up, BytesBelow, FreeOf, LevelCount, CountsOf, Headers;
      ghost var free := FreeBlocks();
      CountsRemove(arBitmap, free, Block(k, buddy));
      ghost var ar := arBitmap[k := arBitmap[k].(count := arBitmap[k].count - 1)];
      CountsRemove(ar, free - {Block(k, buddy)}, Block(k, idx));
      SetBit0(k, buddy);
      SetBit0(k, idx);
      assert free - {Block(k, buddy)} - {Block(k, idx)} == free - {Block(k, idx), Block(k, buddy)};
      HeaderCount(arBitmap, CountOfUnitBlock, base, k, arBitmap[k].count - 2);
      assert ar[k := ar[k].(count := ar[k].count - 1)] == arBitmap[k := arBitmap[k].(count := arBitmap[k].count - 2)];
      arBitmap := arBitmap[k := arBitmap[k].(count := arBitmap[k].count - 2)];
    }

    /**
      Gives a block back.  The caller must pass a live block and the size it was allocated with, unless
      the call is refused: for a size of 0 or above the arena, and for an address outside the arena, but
      not for the first address behind it.
     */
    method Free(addr: nat, size: nat) returns (ok: bool)
      requires Valid() && Roundable(size)
      requires FreeAccepted(addr, size) ==>
                 BlockAt(addr, size) in live && live[BlockAt(addr, size)] == RoundUnits(size)
      modifies this, meta
      ensures Valid()
      ensures unchanged(`DynMemSize, `BeginAddr, `CountOfUnitBlock, `BitmapLevel, `base)
      ensures ok <==> old(FreeAccepted(addr, size))
      ensures State() == if ok then Release(old(State()), old(BlockAt(addr, size))) else old(State())
      ensures live == if ok then old(live - {BlockAt(addr, size)}) else old(live)
      ensures UsedSize == old(UsedSize) - if ok then CeilToUnit(size) else 0
    {
      hide Up, BytesBelow, FreeOf, LevelCount, CountsOf, Headers, LevelFor, Used, CeilToUnit, Coalesce, Tiles, Coalesced;
      if size == 0 {
        return false;
      }
      if addr < BeginAddr || addr > START_ADDRESS + DynMemSize {
        return false;
      }
      var relAddr := RoundDown(addr) - BeginAddr;
      RoundingUp(size);
      var rounded := CeilToUnit(size);
      var idx := FindLevel(rounded);
      if idx >= BitmapLevel {
        return false;
      }
      var block := relAddr / (UNIT * Pow2(idx));
      ghost var b, before := Block(idx, block), State();
      ReleaseInv(before, b);
      ReleaseStart(before, b);
      UsedRemove(live, b);
      live := live - {b};
      MergeUp(idx, block);
      UsedSize := UsedSize - rounded;
      ok := true;
    }

    /** What is allocated and freed again, with its address and its size, leaves everything as it was. */
    method AllocateAndFree(size: nat) returns (ret: nat, ok: bool)
      requires Valid() && Roundable(size)
      modifies this, meta
      ensures Valid() && State() == old(State()) && UsedSize == old(UsedSize)
      ensures ok <==> ret != 0
    {
      ghost var before := State();
      ret := Allocate(size);
      ok := false;
      if ret != 0 {
        ghost var b := BuddyArena.Allocate(before, RoundUnits(size)).1.value;
        FreeFindsBlock(b, ret, size);
        AllocateThenFree(before, RoundUnits(size));
        ok := Free(ret, size);
      }
    }

    // ----- What callers rely on -----

    /** Live allocations occupy disjoint, aligned address ranges inside the managed memory. */
    lemma AllocationsApart(b: Block, c: Block)
      requires Valid() && b in live && c in live && b != c
      ensures var (x, y) := (AddressOf(Some(b)), AddressOf(Some(c)));
              && BeginAddr <= x && x + UNIT * Pow2(b.level) <= START_ADDRESS + DynMemSize
              && (x - BeginAddr) % (UNIT * Pow2(b.level)) == 0
              && live[b] <= Pow2(b.level)
              && (x + UNIT * Pow2(b.level) <= y || y + UNIT * Pow2(c.level) <= x)
    {
      hide Up, BytesBelow, FreeOf, LevelCount, CountsOf, Headers, Used;
      LiveBlocksApart(State(), b, c);
      LevelFromIsLeast(live[b], 0);
      Scale(b.index, Pow2(b.level));
      Scale(c.index, Pow2(c.level));
      MultipleMod(b.index, UNIT * Pow2(b.level));
    }

    /**
      What is let through: a size that some block of the arena is long enough for, and an address in the arena
      or at its end.
     */
    lemma AcceptedAddresses(addr: nat, size: nat)
      requires Valid() && Roundable(size)
      ensures FreeAccepted(addr, size) <==>
        && size > 0 && (exists k :: Pow2(k) <= CountOfUnitBlock && RoundUnits(size) <= Pow2(k))
        && (BeginAddr <= addr < BeginAddr + UNIT * CountOfUnitBlock || addr == BeginAddr + UNIT * CountOfUnitBlock)
    {
      LongEnough(CountOfUnitBlock, RoundUnits(size));
      hide Up, BytesBelow, FreeOf, LevelCount, CountsOf, Headers, Used, CeilToUnit, LevelFor, Inv, Pow2;
    }

    /** What is let through at the end of the arena is no block of it, so it is never live. */
    lemma EndIsNoBlock(size: nat)
      requires Valid() && 0 < size && Roundable(size) && LevelFor(RoundUnits(size)) < BitmapLevel
      ensures var end := START_ADDRESS + DynMemSize;
        && FreeAccepted(end, size)
        && BlockAt(end, size) == Block(LevelFor(RoundUnits(size)), Up(CountOfUnitBlock, LevelFor(RoundUnits(size))))
        && !InRange(CountOfUnitBlock, BlockAt(end, size)) && BlockAt(end, size) !in live
    {
      hide BytesBelow, FreeOf, LevelCount, CountsOf, Headers, Used, CeilToUnit;
      var k := LevelFor(RoundUnits(size));
      var n := Up(CountOfUnitBlock, k);
      UpBounds(CountOfUnitBlock, k);
      Scale(n, Pow2(k));
      AddressInBlock(BeginAddr, START_ADDRESS + DynMemSize, n, Pow2(k));
      var b := Block(k, n);
      assert b !in FreeBlocks() + live.Keys;
      hide Up;
    }

    /**
      The bit that a release at the end of the arena tests and sets: a padding bit of its level, which is
      clear, or the bit of block 0 one level up when the level has no padding.
     */
    ghost function EndSlot(k: nat): Block
      reads this
    {
      var i := Up(CountOfUnitBlock, k);
      if i % 8 != 0 then Block(k, i) else Block(k + 1, 0)
    }

    /**
      A release at the end of the arena, which means the block one past a level, tests and sets another
      bit.  Unless the test stops the program, which no padding bit does, the arena has lost its invariant then.
     */
    lemma EndSetsOtherBit(k: nat)
      requires Valid() && k < BitmapLevel
      ensures MeansBit(k, Up(CountOfUnitBlock, k), EndSlot(k)) && MarkingFails(k)
    {
      EndBit(k);
      EndIsNotFree(k);
      hide Valid, MeansBit, MarkingFails, EndSlot, Up;
    }

    /** What the end of level `k` marks was not free when it is padding, and cannot be free beside the rest. */
    ghost predicate MarkingFails(k: nat)
      requires Layout()
      reads this, meta
    {
      var slot := EndSlot(k);
      && (slot.level == k ==> slot !in FreeBlocks())
      && (slot !in FreeBlocks() ==> !Inv(State().(free := FreeBlocks() + {slot})))
    }

    /** To test and to set the bit at index `i` of level `k` is to test and to mark block `b`. */
    ghost predicate MeansBit(k: nat, i: nat, b: Block)
      requires Layout() && k < BitmapLevel
      reads this, meta
    {
      var p := arBitmap[k].bits + i / 8;
      && p < meta.Length
      && (Bit(meta[p], i % 8) <==> b in FreeBlocks())
      && FreeOf(meta[..][p := meta[p] | Mask(i % 8)], CountOfUnitBlock, base) == FreeBlocks() + {b}
    }

    lemma EndBit(k: nat)
      requires Layout() && k < BitmapLevel
      ensures MeansBit(k, Up(CountOfUnitBlock, k), EndSlot(k))
    {
      EndSlotIs(k);
      var slot := EndSlot(k);
      FreeOfIff(meta[..], CountOfUnitBlock, base, slot);
      SetBit(meta[..], CountOfUnitBlock, base, slot);
      hide FreeOf, Headers, Mask, EndSlot, Up, Bytes, BytesBelow, LevelCount;
    }

    lemma EndIsNotFree(k: nat)
      requires Valid() && k < BitmapLevel
      ensures MarkingFails(k)
    {
      hide FreeOf, Headers, Counts, Used;
      var slot := EndSlot(k);
      assert slot !in FreeBlocks() || slot in FreeBlocks() + live.Keys;
      if slot !in FreeBlocks() {
        NothingElseIsFree(State(), slot);
      }
    }

    lemma EndSlotIs(k: nat)
      requires Layout() && k < BitmapLevel
      ensures Slot(CountOfUnitBlock, EndSlot(k))
      ensures ByteOf(CountOfUnitBlock, base, EndSlot(k)) == arBitmap[k].bits + Up(CountOfUnitBlock, k) / 8
      ensures EndSlot(k).index % 8 == Up(CountOfUnitBlock, k) % 8
    {
      LevelExists(CountOfUnitBlock, k);
      LevelExists(CountOfUnitBlock, k + 1);
      IndexBehind(Up(CountOfUnitBlock, k));
      UpStep(CountOfUnitBlock, k);
      HasByte(Up(CountOfUnitBlock, k + 1));
      hide Up, Bytes, LevelCount;
    }

    /** In every valid state the address behind the arena is let through with a size of one byte. */
    lemma EndIsLetThrough()
      requires Valid()
      ensures FreeAccepted(START_ADDRESS + DynMemSize, 1) && BlockAt(START_ADDRESS + DynMemSize, 1) !in live
    {
      RoundingUp(1);
      assert RoundUnits(1) == 1 && LevelFor(1) == 0;
      LevelExists(CountOfUnitBlock, 0);
      EndIsNoBlock(1);
    }

    /** Any address inside a live allocation, with the size it was made with, frees exactly that block. */
    lemma FreeFindsBlock(b: Block, addr: nat, size: nat)
      requires Valid() && b in live && 0 < size && RoundUnits(size) == live[b]
      requires AddressOf(Some(b)) <= addr < AddressOf(Some(b)) + UNIT * Pow2(b.level)
      ensures FreeAccepted(addr, size) && BlockAt(addr, size) == b
    {
      hide Up, BytesBelow, FreeOf, LevelCount, CountsOf, Headers, Used, CeilToUnit;
      assert b in FreeBlocks() + live.Keys;
      BlockEnds(CountOfUnitBlock, b);
      BlockSlot(CountOfUnitBlock, b);
      Scale(b.index, Pow2(b.level));
      AddressInBlock(BeginAddr, addr, b.index, Pow2(b.level));
    }
  }

  /** Allocators over the same arena with the same units allocated hold the same bitmap bytes and counts. */
  lemma SameUnitsSameBytes(d: DynMem, e: DynMem, k: nat, j: nat)
    requires d.Valid() && e.Valid()
    requires d.CountOfUnitBlock == e.CountOfUnitBlock && LiveUnits(d.State()) == LiveUnits(e.State())
    requires k < d.BitmapLevel && j < Bytes(Up(d.CountOfUnitBlock, k))
    ensures d.arBitmap[k].count == e.arBitmap[k].count
    ensures d.arBitmap[k].bits + j < METADATA_SIZE && e.arBitmap[k].bits + j < METADATA_SIZE
    ensures d.meta[d.arBitmap[k].bits + j] == e.meta[e.arBitmap[k].bits + j]
  {
    hide Up, BytesBelow, FreeOf, LevelCount, Used, Bytes, Inv;
    SameUnitsSameBitmaps(d.State(), e.State());
    BytesFromFree(d.meta[..], e.meta[..], d.CountOfUnitBlock, d.base, e.base, k, j);
  }
}
