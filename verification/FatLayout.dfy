/**
  Where things lie: a directory record, a file's bytes and the free clusters in terms of the bytes of the
  directory and of the data area and the entries of the table alone.
 */
module FatLayout {
  import opened Basics
  import opened FatChains
  import opened FatDirectory
  import opened FatData
  import opened FatFiles
  import V = FatVolume

  // ----- Directory records -----

  /** Bits 3, 4, 6 and 7 of the attribute byte are clear: it has no bit of 0xd8. */
  predicate PlainFile(attr: Byte) {
    attr / 8 % 2 == 0 && attr / 16 % 2 == 0 && attr / 64 % 2 == 0 && attr / 128 % 2 == 0
  }

  lemma AttributeBits(attr: Byte)
    ensures FileAttr(attr) <==> PlainFile(attr)
  {
    var x, y := attr as int / 8, attr as int / 64;
    assert attr as int / 16 == x / 2 && attr as int / 128 == y / 2 && y < 4 && (attr < 0x40 <==> y == 0);
    TwoBits(x);
    TwoBits(y);
  }

  lemma TwoBits(x: nat)
    ensures x % 4 == 0 <==> x % 2 == 0 && x / 2 % 2 == 0
  {
  }

  lemma RecordBytes(d: seq<Byte>, e: nat, i: nat)
    requires 32 * e + 32 <= |d| && i < 32
    ensures e < Count(d) && Rec(d, e)[i] == d[32 * e + i]
  {
  }

  /** Record e is a file: no end mark up to it, not deleted, and a plain attribute. */
  lemma FileRecord(d: seq<Byte>, e: nat)
    requires IsDirectory(d)
    ensures IsFile(d, e) <==>
              && 32 * e + 32 <= |d| && (forall f: nat :: f <= e ==> d[32 * f] != 0)
              && d[32 * e] != 0xe5 && PlainFile(d[32 * e + 11])
  {
    if 32 * e + 32 <= |d| {
      forall f: nat | f <= e ensures Rec(d, f)[0] == d[32 * f] {
        RecordBytes(d, f, 0);
      }
      RecordBytes(d, e, 11);
      AttributeBits(d[32 * e + 11]);
    }
    hide FileAttr, PlainFile;
  }

  /** The record is deleted or an end mark. */
  ghost predicate Reusable(d: seq<Byte>, e: nat) {
    32 * e + 32 <= |d| && (d[32 * e] == 0 || d[32 * e] == 0xe5)
  }

  /** The record taken for a new file is the first that can be reused. */
  lemma SlotRecord(d: seq<Byte>, e: nat)
    requires IsDirectory(d)
    ensures IsSlot(d, e) <==> Reusable(d, e) && forall f: nat :: f < e ==> !Reusable(d, f)
  {
    if 32 * e + 32 <= |d| {
      forall f: nat | f <= e ensures Rec(d, f)[0] == d[32 * f] {
        RecordBytes(d, f, 0);
      }
      assert forall f: nat :: f < e ==> (Reusable(d, f) <==> Rec(d, f)[0] == 0 || Rec(d, f)[0] == DELETED);
    }
  }

  /** There is one as soon as any record can be reused. */
  lemma RoomForFile(d: seq<Byte>)
    requires IsDirectory(d)
    ensures (exists e :: IsSlot(d, e)) <==> exists e :: Reusable(d, e)
  {
    if e :| Reusable(d, e) {
      FirstSlot(d, e);
    }
    if e :| IsSlot(d, e) {
      SlotRecord(d, e);
    }
  }

  lemma {:induction false} FirstSlot(d: seq<Byte>, e: nat)
    requires IsDirectory(d) && Reusable(d, e)
    ensures exists f :: IsSlot(d, f)
  {
    SlotRecord(d, e);
    if f: nat :| f < e && Reusable(d, f) {
      FirstSlot(d, f);
    }
  }

  /** A new record: the name, and zeros for everything else. */
  lemma NewRecordBytes(d: seq<Byte>, d': seq<Byte>, e: nat, name: seq<Byte>, i: nat)
    requires FatDirectory.Created(d, d', e, name) && i < 32
    ensures 32 * e + 32 <= |d'| && d'[32 * e + i] == if i < 11 then name[i] else 0
  {
    RecordBytes(d', e, i);
  }

  // ----- The bytes of a file -----

  /** The clusters from the start cluster on, along the table. */
  ghost predicate Follows(fat: seq<nat>, limit: nat, start: nat, cs: seq<nat>) {
    && (start == 0 <==> cs == []) && limit <= |fat|
    && (forall i :: 0 <= i < |cs| ==> 2 <= cs[i] < limit)
    && (cs != [] ==> cs[0] == start && fat[cs[|cs| - 1]] >= 0xfff8)
    && forall i :: 0 <= i < |cs| - 1 ==> fat[cs[i]] == cs[i + 1]
  }

  /** Two and four bytes of the directory as a number, lowest byte first. */
  function Two(d: seq<Byte>, at: nat): nat
    requires at + 2 <= |d|
  {
    (d[at] as int) + 0x100 * (d[at + 1] as int)
  }

  function Four(d: seq<Byte>, at: nat): nat
    requires at + 4 <= |d|
  {
    Two(d, at) + 0x1_0000 * Two(d, at + 2)
  }

  lemma RecordFields(d: seq<Byte>, e: nat)
    requires e < Count(d)
    ensures 32 * e + 32 <= |d| && NameOf(Rec(d, e)) == d[32 * e..32 * e + 11]
    ensures StartOf(Rec(d, e)) == Two(d, 32 * e + 26) && SizeOf(Rec(d, e)) == Four(d, 32 * e + 28)
  {
  }

  /** The chain of a file follows the table from the start cluster in its record, and is long enough for its size. */
  lemma FileChain(v: Volume, e: nat)
    requires WellFormed(v) && IsFile(v.dir, e)
    ensures e < |v.chains| && 32 * e + 32 <= |v.dir|
    ensures Follows(v.fat, v.limit, Two(v.dir, 32 * e + 26), v.chains[e])
    ensures Four(v.dir, 32 * e + 28) <= |v.chains[e]| * v.lenClu
  {
    FileParts(v, e);
    RecordFields(v.dir, e);
    hide Rec, StartOf, SizeOf, InUse, Two, Four;
  }

  /** A file has the name and the size in its record. */
  lemma FileNameAndSize(v: Volume, e: nat)
    requires WellFormed(v) && IsFile(v.dir, e)
    ensures e < |v.chains| && 32 * e + 32 <= |v.dir|
    ensures var name := v.dir[32 * e..32 * e + 11];
      name in Files(v) && |Files(v)[name]| == Four(v.dir, 32 * e + 28)
  {
    FileParts(v, e);
    FilesAt(v, e);
    RecordFields(v.dir, e);
    hide WellFormed, Files, Owns, Sized, Rec, StartOf, SizeOf, NameOf, InUse, IsFile, Four;
  }

  /**
    Byte j * lenClu + k of a file is byte k of the j-th cluster of its chain, and the data area begins with
    cluster 2.
   */
  lemma FileByte(v: Volume, e: nat, name: seq<Byte>, j: nat, k: nat, i: nat, at: int)
    requires WellFormed(v) && FileCalled(v.dir, e, name) && name in Files(v)
    requires e < |v.chains| && j < |v.chains[e]| && k < v.lenClu
    requires i == j * v.lenClu + k && i < |Files(v)[name]| && at == (v.chains[e][j] - 2) * v.lenClu + k
    ensures 0 <= at < |v.data| && Files(v)[name][i] == v.data[at]
  {
    FileParts(v, e);
    FilesAt(v, e);
    hide WellFormed, Files, Owns, Sized, Rec, StartOf, SizeOf, NameOf, InUse, Chain;
    ContentByte(v, e, j, k);
  }

  /** Every file of the volume is such a record. */
  lemma OnlyRecords(v: Volume, name: seq<Byte>) returns (e: nat)
    requires WellFormed(v) && name in Files(v)
    ensures IsFile(v.dir, e) && 32 * e + 32 <= |v.dir| && v.dir[32 * e..32 * e + 11] == name
  {
    FilesFrom(v, name);
    e := FileNamed(v.dir, name);
    RecordFields(v.dir, e);
  }

  lemma ContentByte(v: Volume, e: nat, j: nat, k: nat)
    requires Shape(v) && e < Count(v.dir) && Owns(v, e) && Sized(v, e)
    requires j < |v.chains[e]| && k < v.lenClu && j * v.lenClu + k < SizeOf(Rec(v.dir, e))
    ensures Below(v.limit, v.chains[e]) && 0 <= (v.chains[e][j] - 2) * v.lenClu + k < |v.data|
    ensures Content(v, e)[j * v.lenClu + k] == v.data[(v.chains[e][j] - 2) * v.lenClu + k]
  {
    OwnedBelow(v, e);
    ChainByte(v.data, v.lenClu, v.limit, v.chains[e], j, k);
    hide Owns, ChainBytes;
  }

  lemma {:induction false} ChainByte(data: seq<Byte>, lenClu: nat, limit: nat, cs: seq<nat>, j: nat, k: nat)
    requires Holds(data, lenClu, limit) && Below(limit, cs) && j < |cs| && k < lenClu
    ensures 0 <= (cs[j] - 2) * lenClu + k < |data|
    ensures 0 <= j * lenClu + k < |ChainBytes(data, lenClu, limit, cs)|
    ensures ChainBytes(data, lenClu, limit, cs)[j * lenClu + k] == data[(cs[j] - 2) * lenClu + k]
  {
    var first, rest := Cluster(data, lenClu, limit, cs[0]), ChainBytes(data, lenClu, limit, cs[1..]);
    assert ChainBytes(data, lenClu, limit, cs) == first + rest;
    ClusterInside(|data|, lenClu, limit, cs[j]);
    hide ChainBytes;
    if j > 0 {
      ChainByte(data, lenClu, limit, cs[1..], j - 1, k);
      hide Cluster;
      Behind(first, rest, j, lenClu, k);
    }
  }

  lemma Behind(first: seq<Byte>, rest: seq<Byte>, j: nat, lenClu: nat, k: nat)
    requires |first| == lenClu && j > 0 && 0 <= (j - 1) * lenClu + k < |rest|
    ensures 0 <= j * lenClu + k < |first + rest| && (first + rest)[j * lenClu + k] == rest[(j - 1) * lenClu + k]
  {
    assert j * lenClu == (j - 1) * lenClu + lenClu;
  }
}
