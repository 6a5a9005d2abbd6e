/**
  The packed table of a FAT12 volume: two 12-bit entries in three bytes.  Loading lifts the values
  0xff7 and above to their 16-bit forms; storing writes only bytes inside the table.
 */
module Fat12 {
  import opened FatDirectory
  import opened FatChains

  // ----- Packing -----

  /** The even entry of a group, from its first two bytes. */
  function Even(b0: Byte, b1: Byte): nat {
    (b0 as int) + (b1 as int) % 16 * 256
  }

  /** The odd entry of a group, from its last two bytes. */
  function Odd(b1: Byte, b2: Byte): nat {
    (b1 as int) / 16 + (b2 as int) * 16
  }

  /** `if (s >= 0xff7) s |= 0xf000` */
  function Lift(x: nat): nat {
    if x >= 0xff7 then x + 0xf000 else x
  }

  /** Entry k of a packed table, as loading leaves it. */
  function Loaded(b: seq<Byte>, k: nat): nat
    requires k / 2 * 3 + 2 < |b|
  {
    var t := k / 2 * 3;
    Lift(if k % 2 == 0 then Even(b[t], b[t + 1]) else Odd(b[t + 1], b[t + 2]))
  }

  /** Byte i of the table of `len` bytes after storing; a byte of an entry cut off by the end keeps its old bits. */
  function StoredByte(fat: seq<nat>, was: seq<Byte>, len: nat, i: nat): nat
    requires i < len <= |was| && i / 3 * 2 + 1 < |fat|
  {
    var t, j := i / 3 * 3, i / 3 * 2;
    if i % 3 == 0 then
      if t + 1 < len then fat[j] % 256 else was[i]
    else if i % 3 == 1 then
      fat[j] / 256 % 16 + 16 * (if t + 2 < len then fat[j + 1] % 16 else (was[i] as int) / 16)
    else
      fat[j + 1] / 16 % 256
  }

  /** All bits of entry k lie inside the table. */
  predicate WhollyInside(len: nat, k: nat) {
    if k % 2 == 0 then k / 2 * 3 + 1 < len else k / 2 * 3 + 2 < len
  }

  /** The values loading can produce. */
  predicate Normal(x: nat) {
    x < 0xff7 || 0xfff7 <= x <= 0xffff
  }

  ghost predicate LoadedFrom(fat: seq<nat>, b: seq<Byte>, len: nat) {
    forall k: nat :: k / 2 * 3 < len ==> k / 2 * 3 + 2 < |b| && k < |fat| && fat[k] == Loaded(b, k)
  }

  ghost predicate StoredTo(b: seq<Byte>, fat: seq<nat>, was: seq<Byte>, len: nat) {
    && len <= |was| == |b|
    && (forall i: nat :: i < len ==> i / 3 * 2 + 1 < |fat| && b[i] == StoredByte(fat, was, len, i))
    && (forall i: nat :: len <= i < |b| ==> b[i] == was[i])
  }

  /** Storing what was loaded reproduces every byte, for every table length. */
  lemma StoreAfterLoad(b: seq<Byte>, fat: seq<nat>, b': seq<Byte>, len: nat)
    requires LoadedFrom(fat, b, len) && StoredTo(b', fat, b, len)
    ensures b' == b
  {
    hide StoredByte, Loaded;
    forall i: nat | i < len
      ensures i < |b'| == |b| && b'[i] == b[i]
    {
      StoreAfterLoadAt(b, fat, b', len, i);
    }
    SameLength(b, fat, b', len);
  }

  lemma SameLength(b: seq<Byte>, fat: seq<nat>, b': seq<Byte>, len: nat)
    requires StoredTo(b', fat, b, len) && forall i: nat :: i < len ==> i < |b'| == |b| && b'[i] == b[i]
    ensures b' == b
  {
    hide StoredByte;
  }

  lemma StoreAfterLoadAt(b: seq<Byte>, fat: seq<nat>, b': seq<Byte>, len: nat, i: nat)
    requires LoadedFrom(fat, b, len) && StoredTo(b', fat, b, len) && i < len
    ensures i < |b'| == |b| && b'[i] == b[i]
  {
    hide Lift, Even, Odd, StoredByte;
    var t, j := i / 3 * 3, i / 3 * 2;
    GroupIndex(i);
    assert b'[i] == StoredByte(fat, b, len, i);
    assert fat[j] == Loaded(b, j) == Lift(Even(b[t], b[t + 1]));
    assert fat[j + 1] == Loaded(b, j + 1) == Lift(Odd(b[t + 1], b[t + 2]));
    hide StoredTo, LoadedFrom, Loaded;
    PackedBack(b[t], b[t + 1], b[t + 2]);
    StoredIs(fat, b, len, t, j, i);
  }

  /** The stored byte in terms of its group. */
  lemma StoredIs(fat: seq<nat>, was: seq<Byte>, len: nat, t: nat, j: nat, i: nat)
    requires t == i / 3 * 3 && j == i / 3 * 2 && i < len <= |was| && j + 1 < |fat|
    ensures i == t ==> StoredByte(fat, was, len, i) == if t + 1 < len then fat[j] % 256 else was[i]
    ensures i == t + 1 ==>
              StoredByte(fat, was, len, i)
                == fat[j] / 256 % 16 + 16 * (if t + 2 < len then fat[j + 1] % 16 else (was[i] as int) / 16)
    ensures i == t + 2 ==> StoredByte(fat, was, len, i) == fat[j + 1] / 16 % 256
    ensures i == t || i == t + 1 || i == t + 2
  {
  }

  lemma GroupIndex(i: nat)
    ensures var t, j := i / 3 * 3, i / 3 * 2;
            j / 2 * 3 == t && (j + 1) / 2 * 3 == t && j % 2 == 0 && (j + 1) % 2 == 1 && i == t + i % 3
  {
  }

  lemma PackedBack(b0: Byte, b1: Byte, b2: Byte)
    ensures var (x, y) := (Lift(Even(b0, b1)), Lift(Odd(b1, b2)));
            x % 256 == b0 && x / 256 % 16 == b1 % 16 && y % 16 == b1 / 16 && y / 16 % 256 == b2
  {
    LiftDigits(Even(b0, b1));
    LiftDigits(Odd(b1, b2));
    EvenDigits(b0, b1);
    OddDigits(b1, b2);
    hide Lift, Even, Odd;
  }

  lemma EvenDigits(b0: Byte, b1: Byte)
    ensures Even(b0, b1) < 0x1000 && Even(b0, b1) % 256 == b0 && Even(b0, b1) / 256 == b1 % 16
  {
    Modulo256((b1 as int) % 16, b0 as int);
  }

  lemma OddDigits(b1: Byte, b2: Byte)
    ensures Odd(b1, b2) < 0x1000 && Odd(b1, b2) % 16 == b1 / 16 && Odd(b1, b2) / 16 == b2 as int
  {
    Modulo16(b2 as int, (b1 as int) / 16);
  }

  lemma LiftDigits(x: nat)
    requires x < 0x1000
    ensures Lift(x) % 256 == x % 256 && Lift(x) / 256 % 16 == x / 256
    ensures Lift(x) % 16 == x % 16 && Lift(x) / 16 % 256 == x / 16
  {
  }

  /** The bytes that hold an entry after storing. */
  lemma StoredEntry(fat: seq<nat>, was: seq<Byte>, b: seq<Byte>, len: nat, k: nat)
    requires StoredTo(b, fat, was, len) && WhollyInside(len, k) && k / 2 * 3 + 2 < |b|
    ensures k < |fat|
    ensures var t := k / 2 * 3;
      if k % 2 == 0 then b[t] == fat[k] % 256 && b[t + 1] % 16 == fat[k] / 256 % 16
      else b[t + 1] / 16 == fat[k] % 16 && b[t + 2] == fat[k] / 16 % 256
  {
    var t := k / 2 * 3;
    GroupIndex(t + 1);
    GroupIndex(t);
    assert t / 3 * 3 == t && (t + 1) / 3 * 3 == t && (t + 2) / 3 * 3 == t;
    assert b[t + 1] == StoredByte(fat, was, len, t + 1);
    if k % 2 == 0 {
      assert b[t] == StoredByte(fat, was, len, t);
    } else {
      assert b[t + 2] == StoredByte(fat, was, len, t + 2);
    }
  }

  /** Loading what was stored gives back every normal entry that lies wholly inside the table. */
  lemma LoadAfterStore(fat: seq<nat>, was: seq<Byte>, b: seq<Byte>, len: nat, k: nat)
    requires StoredTo(b, fat, was, len) && WhollyInside(len, k) && k / 2 * 3 + 2 < |b|
    ensures k < |fat|
    ensures Normal(fat[k]) ==> Loaded(b, k) == fat[k]
  {
    StoredEntry(fat, was, b, len, k);
    hide StoredTo, WhollyInside, Normal, Even, Odd, Lift;
    var t := k / 2 * 3;
    if k % 2 == 0 {
      UnpackedEven(fat[k], b[t], b[t + 1]);
    } else {
      UnpackedOdd(fat[k], b[t + 1], b[t + 2]);
    }
  }

  lemma UnpackedEven(x: nat, b0: Byte, b1: Byte)
    requires b0 == x % 256 && b1 % 16 == x / 256 % 16
    ensures Normal(x) ==> Lift(Even(b0, b1)) == x
  {
  }

  lemma UnpackedOdd(x: nat, b1: Byte, b2: Byte)
    requires b1 / 16 == x % 16 && b2 == x / 16 % 256
    ensures Normal(x) ==> Lift(Odd(b1, b2)) == x
  {
  }

  /**
    Where entry k lies: in the 16-bit word, lowest byte first, at byte k + k / 2, its lower 12 bits for an even k
    and its upper 12 for an odd one; values from 0xff7 on are lifted by 0xf000.
   */
  lemma EntryInWord(b: seq<Byte>, k: nat)
    requires k / 2 * 3 + 2 < |b|
    ensures k + k / 2 + 1 < |b|
    ensures var word := (b[k + k / 2] as int) + 0x100 * (b[k + k / 2 + 1] as int);
      var entry := if k % 2 == 0 then word % 0x1000 else word / 0x10;
      Loaded(b, k) == if entry >= 0xff7 then entry + 0xf000 else entry
  {
    var t := k / 2 * 3;
    EntryPlace(k);
    assert Loaded(b, k) == Lift(if k % 2 == 0 then Even(b[t], b[t + 1]) else Odd(b[t + 1], b[t + 2]));
    hide Loaded, Even, Odd;
    EvenWord(b[t], b[t + 1]);
    OddWord(b[t + 1], b[t + 2]);
  }

  lemma EntryPlace(k: nat)
    ensures k + k / 2 == k / 2 * 3 + k % 2
  {
  }

  lemma EvenWord(b0: Byte, b1: Byte)
    ensures ((b0 as int) + 0x100 * (b1 as int)) % 0x1000 == Even(b0, b1)
  {
    var h, l := (b1 as int) / 16, (b1 as int) % 16;
    assert (b0 as int) + 0x100 * (b1 as int) == 0x1000 * h + (0x100 * l + b0 as int);
    Modulo4096(h, 0x100 * l + b0 as int);
  }

  lemma OddWord(b1: Byte, b2: Byte)
    ensures ((b1 as int) + 0x100 * (b2 as int)) / 0x10 == Odd(b1, b2)
  {
    var h, l := (b1 as int) / 16, (b1 as int) % 16;
    assert (b1 as int) + 0x100 * (b2 as int) == 0x10 * (h + 0x10 * b2 as int) + l;
    Modulo16(h + 0x10 * b2 as int, l);
  }

  /** Storing keeps the lower 12 bits of any entry that lies wholly inside the table. */
  lemma LowBitsStored(fat: seq<nat>, was: seq<Byte>, b: seq<Byte>, len: nat, k: nat)
    requires StoredTo(b, fat, was, len) && WhollyInside(len, k) && k / 2 * 3 + 2 < |b|
    ensures k < |fat|
    ensures var low := fat[k] % 0x1000; Loaded(b, k) == if low >= 0xff7 then low + 0xf000 else low
  {
    StoredEntry(fat, was, b, len, k);
    hide StoredTo, WhollyInside, Even, Odd;
    var t := k / 2 * 3;
    if k % 2 == 0 {
      LowEven(fat[k], b[t], b[t + 1]);
    } else {
      LowOdd(fat[k], b[t + 1], b[t + 2]);
    }
  }

  lemma LowEven(x: nat, b0: Byte, b1: Byte)
    requires b0 == x % 256 && b1 % 16 == x / 256 % 16
    ensures Even(b0, b1) == x % 0x1000
  {
    var q := x / 256;
    assert x == 256 * q + x % 256 && q == 16 * (q / 16) + q % 16;
    Modulo4096(q / 16, 256 * (q % 16) + x % 256);
  }

  lemma LowOdd(x: nat, b1: Byte, b2: Byte)
    requires b1 / 16 == x % 16 && b2 == x / 16 % 256
    ensures Odd(b1, b2) == x % 0x1000
  {
    var q := x / 16;
    assert x == 16 * q + x % 16 && q == 256 * (q / 256) + q % 256;
    Modulo4096(q / 256, 16 * (q % 256) + x % 16);
  }

  lemma Modulo16(q: nat, r: nat)
    requires r < 16
    ensures (16 * q + r) % 16 == r && (16 * q + r) / 16 == q
  {
  }

  lemma Modulo256(q: nat, r: nat)
    requires r < 256
    ensures (256 * q + r) % 256 == r && (256 * q + r) / 256 == q
  {
  }

  lemma Modulo4096(q: nat, r: nat)
    requires r < 0x1000
    ensures (0x1000 * q + r) % 0x1000 == r && (0x1000 * q + r) / 0x1000 == q
  {
  }

  // ----- In place -----

  /** The FAT12 loop of `test_BPB`; it may read up to two bytes behind a table whose length is no multiple of 3. */
  method Load(img: array<Byte>, fat0: nat, len: nat, fat: array<Word>)
    requires 0 < len <= 0x1_8000 && fat0 + len + 2 <= img.Length && fat.Length == 0x1_0000
    modifies fat
    ensures LoadedFrom(fat[..], img[fat0..], len)
  {
    ghost var b := img[fat0..];
    var left: int, q, j := len, 0, 0;
    while true
      invariant left == len - q && left > 0 && q == 3 * (q / 3) && j == 2 * (q / 3)
      invariant forall k: nat :: k < j ==> fat[k] == Loaded(b, k)
      decreases left
    {
      var b0, b1, b2 := img[fat0 + q], img[fat0 + q + 1], img[fat0 + q + 2];
      LoadedGroup(b, q, j);
      hide Loaded, Lift, Even, Odd;
      fat[j] := Lift(Even(b0, b1));
      fat[j + 1] := Lift(Odd(b1, b2));
      q := q + 3;
      j := j + 2;
      left := left - 3;
      if left <= 0 {
        break;
      }
    }
  }

  lemma LoadedGroup(b: seq<Byte>, q: nat, j: nat)
    requires q == 3 * (q / 3) && j == 2 * (q / 3) && q + 2 < |b|
    ensures j / 2 * 3 == q && (j + 1) / 2 * 3 == q
    ensures Loaded(b, j) == Lift(Even(b[q], b[q + 1]))
    ensures Loaded(b, j + 1) == Lift(Odd(b[q + 1], b[q + 2]))
  {
  }

  /** The bytes before i are stored, the others are as they were. */
  ghost predicate StoredPart(b: seq<Byte>, fat: seq<nat>, was: seq<Byte>, len: nat, i: nat) {
    && len <= |was| == |b|
    && (forall k: nat :: k < i && k < len ==> k / 3 * 2 + 1 < |fat| && b[k] == StoredByte(fat, was, len, k))
    && (forall k: nat :: k < |b| && (i <= k || len <= k) ==> b[k] == was[k])
  }

  /** What packing one group does to the table. */
  ghost predicate GroupWritten(b: seq<Byte>, b': seq<Byte>, i: nat, len: nat, x: nat, y: nat) {
    && i < len <= |b| == |b'|
    && (b'[i] == if i + 1 < len then x % 256 else b[i])
    && (i + 1 < len ==> b'[i + 1] == x / 256 % 16 + 16 * (if i + 2 < len then y % 16 else (b[i + 1] as int) / 16))
    && (i + 2 < len ==> b'[i + 2] == y / 16 % 256)
    && (forall k: nat :: k < |b| && !(i <= k < i + 3 && k < len) ==> b'[k] == b[k])
  }

  lemma NextGroup(b: seq<Byte>, b': seq<Byte>, fat: seq<nat>, was: seq<Byte>, len: nat, i: nat, j: nat)
    requires i == 3 * (i / 3) && j == 2 * (i / 3) && i < len && j + 1 < |fat|
    requires StoredPart(b, fat, was, len, i) && GroupWritten(b, b', i, len, fat[j], fat[j + 1])
    ensures StoredPart(b', fat, was, len, i + 3)
  {
    assert (i + 1) / 3 == i / 3 && (i + 2) / 3 == i / 3;
    StoredIs(fat, was, len, i, j, i);
    if i + 1 < len { StoredIs(fat, was, len, i, j, i + 1); }
    if i + 2 < len { StoredIs(fat, was, len, i, j, i + 2); }
    hide StoredByte;
    forall k: nat | k < i + 3 && k < len
      ensures k / 3 * 2 + 1 < |fat| && b'[k] == StoredByte(fat, was, len, k)
    {
      assert k < i || k == i || k == i + 1 || k == i + 2;
    }
  }

  /** The FAT12 loop of `opt_imgout`. */
  method Store(img: array<Byte>, fat0: nat, len: nat, fat: array<Word>)
    requires len <= 0x1_8000 && fat0 + len <= img.Length && fat.Length == 0x1_0000
    modifies img
    ensures StoredTo(img[fat0..], fat[..], old(img[fat0..]), len)
    ensures img[..fat0] == old(img[..fat0])
  {
    hide StoredByte, GroupWritten;
    ghost var was := img[fat0..];
    var i, j := 0, 0;
    while i < len
      invariant i == 3 * (i / 3) && j == 2 * (i / 3)
      invariant StoredPart(img[fat0..], fat[..], was, len, i)
      invariant img[..fat0] == old(img[..fat0])
    {
      ghost var b := img[fat0..];
      StoreGroup(img, fat0, i, len, fat[j], fat[j + 1]);
      NextGroup(b, img[fat0..], fat[..], was, len, i, j);
      i := i + 3;
      j := j + 2;
    }
  }

  /** Packs the group at byte i of the table. */
  method StoreGroup(img: array<Byte>, fat0: nat, i: nat, len: nat, x: Word, y: Word)
    requires i < len && fat0 + len <= img.Length
    modifies img
    ensures GroupWritten(old(img[fat0..]), img[fat0..], i, len, x, y)
    ensures img[..fat0] == old(img[..fat0])
  {
    var p := fat0 + i;
    if i + 1 < len {
      img[p] := x % 256;
      img[p + 1] := (img[p + 1] as int) / 16 * 16 + x / 256 % 16;
    }
    if i + 2 < len {
      img[p + 1] := (img[p + 1] as int) % 16 + y % 16 * 16;
      img[p + 2] := y / 16 % 256;
    }
  }
}
