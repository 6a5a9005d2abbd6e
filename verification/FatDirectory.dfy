/**
  The root directory of a FAT volume: an array of 32-byte records.  A record whose first byte is 0
  ends the directory, 0xe5 marks a deleted one.
 */
module FatDirectory {

  type Byte = b: nat | b < 256

  const RECORD: nat := 32
  const DELETED: Byte := 0xe5
  const SPACE: Byte := 0x20

  // ----- One record -----

  function NameOf(r: seq<Byte>): seq<Byte>
    requires |r| == RECORD
  {
    r[..11]
  }

  /** `(attr & 0xd8) == 0`: not a label, directory or reserved entry. */
  predicate FileAttr(attr: Byte) {
    attr < 0x40 && attr / 8 % 4 == 0
  }

  function StartOf(r: seq<Byte>): nat
    requires |r| == RECORD
  {
    (r[26] as int) + 0x100 * (r[27] as int)
  }

  function SizeOf(r: seq<Byte>): nat
    requires |r| == RECORD
  {
    (r[28] as int) + 0x100 * (r[29] as int) + 0x1_0000 * (r[30] as int) + 0x100_0000 * (r[31] as int)
  }

  function WithStart(r: seq<Byte>, v: nat): seq<Byte>
    requires |r| == RECORD
  {
    r[26 := v % 0x100][27 := v / 0x100 % 0x100]
  }

  function WithSize(r: seq<Byte>, v: nat): seq<Byte>
    requires |r| == RECORD
  {
    r[28 := v % 0x100][29 := v / 0x100 % 0x100][30 := v / 0x1_0000 % 0x100][31 := v / 0x100_0000 % 0x100]
  }

  function NewRecord(name: seq<Byte>): (r: seq<Byte>)
    requires |name| == 11
    ensures |r| == RECORD
  {
    name + seq(21, _ => 0)
  }

  /** Storing a start cluster or a size changes no other byte of the record. */
  lemma OtherBytes(r: seq<Byte>, v: nat, i: nat)
    requires |r| == RECORD && i < RECORD
    ensures i != 26 && i != 27 ==> WithStart(r, v)[i] == r[i]
    ensures i < 28 ==> WithSize(r, v)[i] == r[i]
  {
  }

  lemma WithStartFields(r: seq<Byte>, v: nat)
    requires |r| == RECORD && v < 0x1_0000
    ensures var w := WithStart(r, v);
            |w| == RECORD && StartOf(w) == v && SizeOf(w) == SizeOf(r) && NameOf(w) == NameOf(r) && w[11] == r[11] && w[0] == r[0]
  {
  }

  lemma WithSizeFields(r: seq<Byte>, v: nat)
    requires |r| == RECORD && v < 0x1_0000_0000
    ensures var w := WithSize(r, v);
            && |w| == RECORD && SizeOf(w) == v && StartOf(w) == StartOf(r)
            && NameOf(w) == NameOf(r) && w[11] == r[11] && w[0] == r[0]
  {
    var w := WithSize(r, v);
    Bytes32(v);
    assert w[28] == v % 0x100 && w[29] == v / 0x100 % 0x100;
    assert w[30] == v / 0x1_0000 % 0x100 && w[31] == v / 0x100_0000 % 0x100;
  }

  lemma Bytes32(v: nat)
    requires v < 0x1_0000_0000
    ensures v == v % 0x100 + 0x100 * (v / 0x100 % 0x100)
                 + 0x1_0000 * (v / 0x1_0000 % 0x100) + 0x100_0000 * (v / 0x100_0000 % 0x100)
  {
    assert v / 0x1_0000 == v / 0x100 / 0x100;
    assert v / 0x100_0000 == v / 0x1_0000 / 0x100;
  }

  lemma NewRecordFields(name: seq<Byte>)
    requires |name| == 11
    ensures var r := NewRecord(name);
            NameOf(r) == name && FileAttr(r[11]) && StartOf(r) == 0 && SizeOf(r) == 0 && r[0] == name[0]
  {
  }

  // ----- The directory -----

  ghost predicate IsDirectory(d: seq<Byte>) {
    |d| > 0 && |d| % RECORD == 0
  }

  function Count(d: seq<Byte>): nat {
    |d| / RECORD
  }

  function Rec(d: seq<Byte>, e: nat): (r: seq<Byte>)
    requires e < Count(d)
    ensures |r| == RECORD
  {
    d[RECORD * e..RECORD * e + RECORD]
  }

  /** Changing bytes of one record leaves the other records alone. */
  lemma OtherRecords(d: seq<Byte>, d': seq<Byte>, e: nat, f: nat)
    requires |d'| == |d| && e < Count(d) && f < Count(d) && f != e
    requires forall i :: 0 <= i < |d| && !(RECORD * e <= i < RECORD * e + RECORD) ==> d'[i] == d[i]
    ensures Rec(d', f) == Rec(d, f)
  {
  }

  /** Record e comes before the end of the directory. */
  ghost predicate Listed(d: seq<Byte>, e: nat) {
    e < Count(d) && forall f: nat :: f <= e ==> Rec(d, f)[0] != 0
  }

  ghost predicate InUse(d: seq<Byte>, e: nat) {
    Listed(d, e) && Rec(d, e)[0] != DELETED
  }

  ghost predicate IsFile(d: seq<Byte>, e: nat) {
    InUse(d, e) && FileAttr(Rec(d, e)[11])
  }

  predicate Matches(r: seq<Byte>, name: seq<Byte>)
    requires |r| == RECORD
  {
    NameOf(r) == name && FileAttr(r[11])
  }

  /** A name a file can have: 11 bytes, not taken for an end mark or a deleted record. */
  ghost predicate FileName(name: seq<Byte>) {
    |name| == 11 && name[0] != 0 && name[0] != DELETED
  }

  /** No two files have the same name. */
  ghost predicate NamesUnique(d: seq<Byte>) {
    forall e, f :: IsFile(d, e) && IsFile(d, f) && NameOf(Rec(d, e)) == NameOf(Rec(d, f)) ==> e == f
  }

  /** The file called `name`: with unique names there is at most one. */
  ghost predicate FileCalled(d: seq<Byte>, e: nat, name: seq<Byte>) {
    IsFile(d, e) && NameOf(Rec(d, e)) == name
  }

  /** A deleted record, or the end of the directory. */
  ghost predicate IsSlot(d: seq<Byte>, e: nat) {
    && e < Count(d)
    && (Rec(d, e)[0] == 0 || Rec(d, e)[0] == DELETED)
    && (forall f: nat :: f < e ==> Rec(d, f)[0] != 0 && Rec(d, f)[0] != DELETED)
  }

  /** What `dir_create` does to the directory when it takes slot e. */
  ghost predicate Created(d: seq<Byte>, d': seq<Byte>, e: nat, name: seq<Byte>) {
    && |d'| == |d| && e < Count(d) && |name| == 11
    && Rec(d', e) == NewRecord(name)
    && (forall f: nat :: f < Count(d) && f != e && f != e + 1 ==> Rec(d', f) == Rec(d, f))
    && (e + 1 < Count(d) ==>
          if Rec(d, e)[0] == 0 then Rec(d', e + 1)[0] == 0
          else Rec(d', e + 1) == Rec(d, e + 1))
  }

  /** Creating a record adds exactly one record in use; the others keep their contents. */
  lemma CreateAddsOne(d: seq<Byte>, d': seq<Byte>, e: nat, name: seq<Byte>, f: nat)
    requires IsSlot(d, e) && Created(d, d', e, name) && FileName(name)
    ensures !InUse(d, e)
    ensures InUse(d', f) <==> f == e || InUse(d, f)
    ensures f != e && InUse(d, f) ==> Rec(d', f) == Rec(d, f)
  {
    NewRecordFields(name);
    assert Rec(d', e)[0] == name[0];
    if f > e + 1 && f < Count(d) && Rec(d, e)[0] == 0 {
      assert Rec(d', e + 1)[0] == 0;
      assert !Listed(d', f);
      assert !Listed(d, f);
    }
  }

  // ----- 8.3 names -----

  /** ASCII letters become upper case. */
  function Upper(c: Byte): Byte {
    if 0x61 <= c <= 0x7a then c - 0x20 else c
  }

  const SMALL := "abcdefghijklmnopqrstuvwxyz"
  const LARGE := "ABCDEFGHIJKLMNOPQRSTUVWXYZ"

  /** Each of the 26 small letters becomes its capital, and no other byte changes. */
  lemma UpperLetters(c: Byte)
    ensures (exists k :: 0 <= k < 26 && SMALL[k] as int == c as int && LARGE[k] as int == Upper(c) as int)
         || (Upper(c) == c && forall k :: 0 <= k < 26 ==> SMALL[k] as int != c as int)
  {
    if 0x61 <= c <= 0x7a {
      Letter(c as int - 0x61);
    } else {
      forall k | 0 <= k < 26 ensures SMALL[k] as int != c as int {
        Letter(k);
      }
    }
  }

  lemma Letter(k: nat)
    requires k < 26
    ensures SMALL[k] as int == 0x61 + k && LARGE[k] as int == 0x41 + k
  {
  }

  function UpperAll(s: seq<Byte>): seq<Byte> {
    seq(|s|, i requires 0 <= i < |s| => Upper(s[i]))
  }

  function Pad(s: seq<Byte>, n: nat): seq<Byte> {
    if |s| < n then s + seq(n - |s|, _ => SPACE) else s
  }

  const DOT: Byte := 0x2e

  /** The name being filled in: a dot pads the base to 8 bytes, at 11 bytes the rest is ignored. */
  function Fill(path: seq<Byte>, name: seq<Byte>): seq<Byte>
    requires |name| <= 11
    decreases |path|
  {
    if path == [] || |name| == 11 then Pad(name, 11)
    else if path[0] == DOT then Fill(path[1..], Pad(name, 8))
    else Fill(path[1..], name + [Upper(path[0])])
  }

  function To83(path: seq<Byte>): (name: seq<Byte>) {
    Fill(path, [])
  }

  lemma {:induction false} FillIsFull(path: seq<Byte>, name: seq<Byte>)
    requires |name| <= 11
    ensures |Fill(path, name)| == 11 && name <= Fill(path, name)
    decreases |path|
  {
    if path != [] && |name| < 11 {
      FillIsFull(path[1..], if path[0] == DOT then Pad(name, 8) else name + [Upper(path[0])]);
    }
  }

  lemma {:induction false} FillPlain(base: seq<Byte>, rest: seq<Byte>, name: seq<Byte>)
    requires DOT !in base && |name| + |base| <= 11 && (rest == [] || |name| + |base| < 11)
    ensures Fill(base + rest, name) == Fill(rest, name + UpperAll(base))
    decreases |base|
  {
    if base == [] {
      assert base + rest == rest && name + UpperAll(base) == name;
    } else {
      assert (base + rest)[0] == base[0] && (base + rest)[1..] == base[1..] + rest;
      FillPlain(base[1..], rest, name + [Upper(base[0])]);
      assert UpperAll(base) == [Upper(base[0])] + UpperAll(base[1..]);
      assert name + [Upper(base[0])] + UpperAll(base[1..]) == name + UpperAll(base);
    }
  }

  /** `base.ext` becomes the upper-case base padded to 8 bytes and the upper-case extension padded to 3. */
  lemma To83Splits(base: seq<Byte>, ext: seq<Byte>)
    requires DOT !in base && DOT !in ext && |base| <= 8 && |ext| <= 3
    ensures To83(base + [DOT] + ext) == Pad(UpperAll(base), 8) + Pad(UpperAll(ext), 3)
  {
    assert base + [DOT] + ext == base + ([DOT] + ext);
    FillPlain(base, [DOT] + ext, []);
    assert [] + UpperAll(base) == UpperAll(base);
    assert ([DOT] + ext)[1..] == ext;
    var stem := Pad(UpperAll(base), 8);
    assert Fill([DOT] + ext, UpperAll(base)) == Fill(ext, stem);
    assert ext + [] == ext;
    FillPlain(ext, [], stem);
    assert Pad(stem + UpperAll(ext), 11) == stem + Pad(UpperAll(ext), 3);
  }

  /** Behind 11 bytes nothing more is looked at. */
  lemma {:induction false} FillLong(base: seq<Byte>, rest: seq<Byte>, name: seq<Byte>)
    requires DOT !in base && |name| <= 11 <= |name| + |base|
    ensures Fill(base + rest, name) == (name + UpperAll(base))[..11]
    decreases |base|
  {
    if |name| == 11 {
      assert (name + UpperAll(base))[..11] == name;
    } else {
      assert (base + rest)[0] == base[0] && (base + rest)[1..] == base[1..] + rest;
      FillLong(base[1..], rest, name + [Upper(base[0])]);
      assert UpperAll(base) == [Upper(base[0])] + UpperAll(base[1..]);
      assert name + [Upper(base[0])] + UpperAll(base[1..]) == name + UpperAll(base);
    }
  }

  /** A part without a dot is appended in upper case, as far as it fits, and padded. */
  lemma FillPart(part: seq<Byte>, name: seq<Byte>)
    requires DOT !in part && |name| <= 11
    ensures Fill(part, name) == Pad(name + UpperAll(part), 11)[..11]
  {
    assert part + [] == part;
    if |name| + |part| < 11 {
      FillPlain(part, [], name);
    } else {
      FillLong(part, [], name);
    }
  }

  /** A name without a dot, byte by byte. */
  lemma PlainBytes(base: seq<Byte>, i: nat)
    requires DOT !in base && i < 11
    ensures |To83(base)| == 11 && To83(base)[i] == if i < |base| then Upper(base[i]) else 0x20
  {
    FillPart(base, []);
    assert [] + UpperAll(base) == UpperAll(base);
    hide Upper, Fill;
  }

  /** A name with one dot, byte by byte, however long its parts are: only a base of less than 8 bytes is padded. */
  lemma DottedBytes(base: seq<Byte>, ext: seq<Byte>, i: nat)
    requires DOT !in base && DOT !in ext && i < 11
    ensures var (name, n) := (To83(base + [DOT] + ext), if |base| < 8 then 8 else |base|);
      && |name| == 11
      && name[i] == if i < |base| then Upper(base[i]) else if n <= i < n + |ext| then Upper(ext[i - n]) else 0x20
  {
    assert base + [DOT] + ext == base + ([DOT] + ext);
    assert [] + UpperAll(base) == UpperAll(base);
    if |base| < 11 {
      FillDotted(base, ext);
      PartBytes(ext, Pad(UpperAll(base), 8), i);
    } else {
      FillLong(base, [DOT] + ext, []);
    }
    hide Upper, Fill;
  }

  lemma FillDotted(base: seq<Byte>, ext: seq<Byte>)
    requires DOT !in base && |base| < 11
    ensures To83(base + ([DOT] + ext)) == Fill(ext, Pad(UpperAll(base), 8))
  {
    FillPlain(base, [DOT] + ext, []);
    assert [] + UpperAll(base) == UpperAll(base);
    assert ([DOT] + ext)[1..] == ext;
  }

  lemma PartBytes(part: seq<Byte>, name: seq<Byte>, i: nat)
    requires DOT !in part && |name| <= 11 && i < 11
    ensures |Fill(part, name)| == 11
    ensures Fill(part, name)[i]
         == if i < |name| then name[i] else if i < |name| + |part| then Upper(part[i - |name|]) else 0x20
  {
    FillPart(part, name);
    hide Upper, Fill;
  }

  // ----- The directory, updated in place -----

  class Directory {
    const bytes: array<Byte>

    ghost predicate Valid()
      reads bytes
    {
      IsDirectory(bytes[..])
    }

    constructor (entries: nat)
      requires entries > 0
      ensures Valid() && Count(bytes[..]) == entries && fresh(bytes)
    {
      bytes := new Byte[RECORD * entries];
    }

    /** The name conversion at the head of `dir_search`; `path` is the string up to its terminator. */
    static method ParseName(path: seq<Byte>) returns (name: seq<Byte>)
      ensures name == To83(path) && |name| == 11
    {
      FillIsFull(path, []);
      name := [];
      var i := 0;
      while i < |path| && |name| < 11
        invariant 0 <= i <= |path| && |name| <= 11
        invariant Fill(path[i..], name) == To83(path)
        decreases |path| - i
      {
        var c := path[i];
        if c == DOT {
          name := Pad(name, 8);
        } else {
          name := name + [Upper(c)];
        }
        i := i + 1;
      }
      FillIsFull(path[i..], name);
      name := Pad(name, 11);
    }

    /** Stores a 16-bit start cluster. */
    method PutStart(e: nat, v: nat)
      requires Valid() && e < Count(bytes[..])
      modifies bytes
      ensures Valid() && Count(bytes[..]) == old(Count(bytes[..]))
      ensures Rec(bytes[..], e) == WithStart(old(Rec(bytes[..], e)), v)
      ensures forall f: nat :: f < Count(bytes[..]) && f != e ==> Rec(bytes[..], f) == old(Rec(bytes[..], f))
    {
      ghost var d := bytes[..];
      bytes[RECORD * e + 26] := v % 0x100;
      bytes[RECORD * e + 27] := v / 0x100 % 0x100;
      assert Rec(bytes[..], e) == WithStart(Rec(d, e), v);
      forall f: nat | f < Count(d) && f != e
        ensures Rec(bytes[..], f) == Rec(d, f)
      {
        OtherRecords(d, bytes[..], e, f);
      }
    }

    /** Stores a 32-bit file size. */
    method PutSize(e: nat, v: nat)
      requires Valid() && e < Count(bytes[..])
      modifies bytes
      ensures Valid() && Count(bytes[..]) == old(Count(bytes[..]))
      ensures Rec(bytes[..], e) == WithSize(old(Rec(bytes[..], e)), v)
      ensures forall f: nat :: f < Count(bytes[..]) && f != e ==> Rec(bytes[..], f) == old(Rec(bytes[..], f))
    {
      ghost var d := bytes[..];
      bytes[RECORD * e + 28] := v % 0x100;
      bytes[RECORD * e + 29] := v / 0x100 % 0x100;
      bytes[RECORD * e + 30] := v / 0x1_0000 % 0x100;
      bytes[RECORD * e + 31] := v / 0x100_0000 % 0x100;
      assert Rec(bytes[..], e) == WithSize(Rec(d, e), v);
      forall f: nat | f < Count(d) && f != e
        ensures Rec(bytes[..], f) == Rec(d, f)
      {
        OtherRecords(d, bytes[..], e, f);
      }
    }

    /** Marks a record as deleted. */
    method PutDeleted(e: nat)
      requires Valid() && e < Count(bytes[..])
      modifies bytes
      ensures Valid() && Count(bytes[..]) == old(Count(bytes[..]))
      ensures Rec(bytes[..], e) == old(Rec(bytes[..], e))[0 := DELETED]
      ensures forall f: nat :: f < Count(bytes[..]) && f != e ==> Rec(bytes[..], f) == old(Rec(bytes[..], f))
    {
      ghost var d := bytes[..];
      bytes[RECORD * e] := DELETED;
      assert Rec(bytes[..], e) == Rec(d, e)[0 := DELETED];
      forall f: nat | f < Count(d) && f != e
        ensures Rec(bytes[..], f) == Rec(d, f)
      {
        OtherRecords(d, bytes[..], e, f);
      }
    }

    /** Writes a whole record byte by byte. */
    method Put(e: nat, r: seq<Byte>)
      requires Valid() && e < Count(bytes[..]) && |r| == RECORD
      modifies bytes
      ensures Valid() && Count(bytes[..]) == old(Count(bytes[..]))
      ensures Rec(bytes[..], e) == r
      ensures forall f: nat :: f < Count(bytes[..]) && f != e ==> Rec(bytes[..], f) == old(Rec(bytes[..], f))
    {
      ghost var d := bytes[..];
      for i := 0 to RECORD
        invariant forall k :: 0 <= k < i ==> bytes[RECORD * e + k] == r[k]
        invariant forall k :: 0 <= k < bytes.Length && !(RECORD * e <= k < RECORD * e + i) ==> bytes[k] == d[k]
      {
        bytes[RECORD * e + i] := r[i];
      }
      assert Rec(bytes[..], e) == r;
      forall f: nat | f < Count(d) && f != e
        ensures Rec(bytes[..], f) == Rec(d, f)
      {
        OtherRecords(d, bytes[..], e, f);
      }
    }

    /** `dir_search` with mask 0xd8 and value 0: the first file called `name` before the end mark, or -1. */
    method Search(name: seq<Byte>) returns (p: int)
      requires Valid() && FileName(name)
      ensures -1 <= p < Count(bytes[..])
      ensures p >= 0 ==> FileCalled(bytes[..], p, name)
      ensures p < 0 ==> forall e :: !FileCalled(bytes[..], e, name)
    {
      ghost var d := bytes[..];
      p := 0;
      while p < bytes.Length / RECORD
        invariant 0 <= p <= Count(d)
        invariant forall f: nat :: f < p ==> Rec(d, f)[0] != 0 && !Matches(Rec(d, f), name)
      {
        var r := bytes[RECORD * p..RECORD * p + RECORD];
        assert r == Rec(d, p);
        if r[0] == 0 {
          break;
        }
        if Matches(r, name) {
          assert NameOf(r)[0] == r[0];
          return;
        }
        p := p + 1;
      }
      p := -1;
    }

    /** `dir_create`: the file called `name`, or a new empty record; no slot means "disk-image full". */
    method Create(name: seq<Byte>) returns (ok: bool, e: nat)
      requires Valid() && FileName(name)
      modifies bytes
      ensures Valid() && Count(bytes[..]) == old(Count(bytes[..]))
      ensures ok <==> (exists f :: FileCalled(old(bytes[..]), f, name)) || (exists f :: IsSlot(old(bytes[..]), f))
      ensures ok && (exists f :: FileCalled(old(bytes[..]), f, name)) ==>
                bytes[..] == old(bytes[..]) && FileCalled(bytes[..], e, name)
      ensures ok && !(exists f :: FileCalled(old(bytes[..]), f, name)) ==>
                IsSlot(old(bytes[..]), e) && Created(old(bytes[..]), bytes[..], e, name)
    {
      ghost var d := bytes[..];
      var p := Search(name);
      if p >= 0 {
        return true, p;
      }
      e := 0;
      while e < bytes.Length / RECORD && bytes[RECORD * e] != 0 && bytes[RECORD * e] != DELETED
        invariant e <= Count(d)
        invariant forall f: nat :: f < e ==> Rec(d, f)[0] != 0 && Rec(d, f)[0] != DELETED
      {
        assert Rec(d, e)[0] == bytes[RECORD * e];
        e := e + 1;
      }
      if e >= bytes.Length / RECORD {
        return false, 0;
      }
      assert Rec(d, e)[0] == bytes[RECORD * e];
      assert IsSlot(d, e);
      FillSlot(e, name);
      ok := true;
    }

    /** Moves the end mark behind the slot when the slot was the end, then writes the new record. */
    method FillSlot(e: nat, name: seq<Byte>)
      requires Valid() && FileName(name) && IsSlot(bytes[..], e)
      modifies bytes
      ensures Valid() && Count(bytes[..]) == old(Count(bytes[..]))
      ensures Created(old(bytes[..]), bytes[..], e, name)
    {
      ghost var d := bytes[..];
      assert bytes[RECORD * e] == Rec(d, e)[0];
      if bytes[RECORD * e] == 0 && RECORD * e + RECORD < bytes.Length {
        bytes[RECORD * e + RECORD] := 0;
        forall f: nat | f < Count(d) && f != e + 1
          ensures Rec(bytes[..], f) == Rec(d, f)
        {
          OtherRecords(d, bytes[..], e + 1, f);
        }
        assert Rec(bytes[..], e + 1)[0] == 0;
      }
      Put(e, NewRecord(name));
    }
  }
}
