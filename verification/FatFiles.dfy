/**
  A FAT volume as a value, and its meaning: a map from 8.3 names to file contents.
  The lemmas say what each step of a write, overwrite or delete does to that map.
 */
module FatFiles {
  import opened Basics
  import opened FatChains
  import opened FatDirectory
  import opened FatData

  /** `chains[e]` lists the clusters owned by directory record e. */
  datatype Volume = Volume(fat: seq<nat>, limit: nat, dir: seq<Byte>, data: seq<Byte>, lenClu: nat, chains: seq<seq<nat>>)

  ghost predicate Shape(v: Volume) {
    && 2 <= v.limit <= BAD && |v.fat| == 0x1_0000
    && IsDirectory(v.dir) && |v.chains| == Count(v.dir)
    && Holds(v.data, v.lenClu, v.limit)
  }

  /** A record in use owns the chain its start cluster names; any other record owns nothing. */
  ghost predicate Owns(v: Volume, e: nat)
    requires Shape(v) && e < Count(v.dir)
  {
    if InUse(v.dir, e) && StartOf(Rec(v.dir, e)) != 0 then
      Chain(v.fat, v.limit, v.chains[e]) && v.chains[e][0] == StartOf(Rec(v.dir, e))
    else
      v.chains[e] == []
  }

  ghost predicate Apart(chains: seq<seq<nat>>) {
    forall e, f, c :: 0 <= e < |chains| && 0 <= f < |chains| && c in chains[e] && c in chains[f] ==> e == f
  }

  /** The chain is long enough for the size in the record. */
  ghost predicate Sized(v: Volume, e: nat)
    requires Shape(v) && e < Count(v.dir)
  {
    SizeOf(Rec(v.dir, e)) <= |v.chains[e]| * v.lenClu
  }

  /** Well-formed, except that the size of record x may not fit its chain yet. */
  ghost predicate WellFormedBut(v: Volume, x: nat) {
    && Shape(v)
    && (forall e: nat :: e < Count(v.dir) ==> Owns(v, e))
    && Apart(v.chains)
    && NamesUnique(v.dir)
    && (forall e: nat :: e < Count(v.dir) && IsFile(v.dir, e) && e != x ==> Sized(v, e))
  }

  ghost predicate WellFormed(v: Volume) {
    Shape(v) && WellFormedBut(v, Count(v.dir))
  }

  lemma NearlyWellFormed(v: Volume, e: nat)
    requires WellFormed(v)
    ensures WellFormedBut(v, e)
  {
  }

  lemma FileParts(v: Volume, e: nat)
    requires WellFormed(v) && IsFile(v.dir, e)
    ensures e < Count(v.dir) && Owns(v, e) && Sized(v, e)
  {
  }

  lemma OwnedBelow(v: Volume, e: nat)
    requires Shape(v) && e < Count(v.dir) && Owns(v, e)
    ensures Below(v.limit, v.chains[e])
  {
  }

  ghost function Content(v: Volume, e: nat): (bytes: seq<Byte>)
    requires Shape(v) && e < Count(v.dir) && Owns(v, e) && Sized(v, e)
    ensures |bytes| == SizeOf(Rec(v.dir, e))
  {
    OwnedBelow(v, e);
    ChainBytesLength(v.data, v.lenClu, v.limit, v.chains[e]);
    ChainBytes(v.data, v.lenClu, v.limit, v.chains[e])[..SizeOf(Rec(v.dir, e))]
  }

  ghost function Names(d: seq<Byte>): set<seq<Byte>> {
    set e: nat | e < Count(d) && IsFile(d, e) :: NameOf(Rec(d, e))
  }

  ghost function FileNamed(d: seq<Byte>, name: seq<Byte>): (e: nat)
    requires name in Names(d)
    ensures FileCalled(d, e, name)
  {
    var e: nat :| IsFile(d, e) && NameOf(Rec(d, e)) == name;
    e
  }

  /** The meaning of a volume. */
  ghost function Files(v: Volume): map<seq<Byte>, seq<Byte>>
    requires WellFormed(v)
  {
    map name | name in Names(v.dir) :: Content(v, FileNamed(v.dir, name))
  }

  lemma FilesAt(v: Volume, e: nat)
    requires WellFormed(v) && IsFile(v.dir, e)
    ensures NameOf(Rec(v.dir, e)) in Files(v)
    ensures Files(v)[NameOf(Rec(v.dir, e))] == Content(v, e)
  {
    assert FileNamed(v.dir, NameOf(Rec(v.dir, e))) == e;
  }

  lemma FilesWithout(v: Volume, name: seq<Byte>)
    requires WellFormed(v)
    ensures name in Files(v) <==> exists e :: FileCalled(v.dir, e, name)
    ensures name !in Files(v) ==> ChainOf(v, name) == []
  {
    if e :| FileCalled(v.dir, e, name) {
      FilesAt(v, e);
    }
  }

  /** The clusters of the file called `name`; none when there is no such file. */
  ghost function ChainOf(v: Volume, name: seq<Byte>): seq<nat>
    requires Shape(v)
  {
    if name in Names(v.dir) then v.chains[FileNamed(v.dir, name)] else []
  }

  lemma FileFound(v: Volume, e: nat, name: seq<Byte>)
    requires WellFormed(v) && FileCalled(v.dir, e, name)
    ensures name in Files(v) && Files(v)[name] == Content(v, e)
    ensures ChainOf(v, name) == v.chains[e]
    ensures OthersSame(v, v, e)
  {
    hide Content, Chain;
    FilesAt(v, e);
  }

  /** Record e is the file called `name`, with its chain, size and contents. */
  ghost predicate Found(v: Volume, e: nat, name: seq<Byte>)
    requires WellFormed(v)
  {
    && e < Count(v.dir) && IsFile(v.dir, e) && Owns(v, e) && Sized(v, e)
    && name in Files(v) && Files(v)[name] == Content(v, e)
    && ChainOf(v, name) == v.chains[e]
    && SizeOf(Rec(v.dir, e)) == |Files(v)[name]|
  }

  lemma FileIsFound(v: Volume, e: nat, name: seq<Byte>)
    requires WellFormed(v) && FileCalled(v.dir, e, name)
    ensures Found(v, e, name)
  {
    hide Chain, Content, Apart, NamesUnique, Files;
    FileFound(v, e, name);
    FileParts(v, e);
  }

  /** Every file but record e is the same file with the same contents in both volumes. */
  ghost predicate OthersSame(v: Volume, v': Volume, e: nat) {
    && WellFormedBut(v, e) && WellFormedBut(v', e) && Count(v'.dir) == Count(v.dir)
    && forall f: nat :: f < Count(v.dir) && f != e ==>
         (IsFile(v'.dir, f) <==> IsFile(v.dir, f)) && (IsFile(v.dir, f) ==> SameFile(v, v', f))
  }

  ghost predicate SameFile(v: Volume, v': Volume, f: nat)
    requires Shape(v) && Shape(v') && f < Count(v.dir) == Count(v'.dir)
    requires Owns(v, f) && Owns(v', f) && Sized(v, f)
  {
    NameOf(Rec(v'.dir, f)) == NameOf(Rec(v.dir, f)) && Sized(v', f) && Content(v', f) == Content(v, f)
  }

  /** A file other than record e keeps its place in the map, in both directions. */
  lemma FileKept(v: Volume, v': Volume, e: nat, f: nat)
    requires WellFormed(v) && WellFormed(v') && OthersSame(v, v', e) && f != e
    requires IsFile(v.dir, f) || IsFile(v'.dir, f)
    ensures IsFile(v.dir, f) && IsFile(v'.dir, f)
    ensures var n := NameOf(Rec(v.dir, f));
            && NameOf(Rec(v'.dir, f)) == n
            && n in Files(v) && n in Files(v') && Files(v')[n] == Files(v)[n]
  {
    assert f < Count(v.dir);
    hide Content, Files, Chain, Apart, NamesUnique, InUse, Listed, Names;
    assert SameFile(v, v', f);
    FilesAt(v', f);
    FilesAt(v, f);
  }

  lemma FilesFrom(v: Volume, n: seq<Byte>)
    requires WellFormed(v) && n in Files(v)
    ensures n in Names(v.dir) && FileCalled(v.dir, FileNamed(v.dir, n), n)
  {
  }

  /** Names other than that of record e map to the same contents on both sides. */
  lemma NameKept(v: Volume, v': Volume, e: nat, n: seq<Byte>)
    requires WellFormed(v) && WellFormed(v') && OthersSame(v, v', e)
    requires IsFile(v.dir, e) ==> NameOf(Rec(v.dir, e)) != n
    requires IsFile(v'.dir, e) ==> NameOf(Rec(v'.dir, e)) != n
    ensures n in Files(v) <==> n in Files(v')
    ensures n in Files(v) ==> Files(v')[n] == Files(v)[n]
  {
    hide Content, Files, WellFormed, OthersSame, FileNamed, Rec, NameOf;
    if n in Files(v) {
      FilesFrom(v, n);
      FileKept(v, v', e, FileNamed(v.dir, n));
    } else if n in Files(v') {
      FilesFrom(v', n);
      FileKept(v, v', e, FileNamed(v'.dir, n));
    }
  }

  /** If record e ends up as a file called `name`, the map is updated at `name` only. */
  lemma FilesUpdated(v: Volume, v': Volume, e: nat, name: seq<Byte>)
    requires WellFormed(v) && WellFormed(v') && OthersSame(v, v', e)
    requires FileCalled(v'.dir, e, name)
    requires IsFile(v.dir, e) ==> NameOf(Rec(v.dir, e)) == name
    ensures Files(v') == Files(v)[name := Content(v', e)]
  {
    FilesAt(v', e);
    assert NameOf(Rec(v'.dir, e)) == name;
    hide *;
    var m, m' := Files(v), Files(v');
    forall n | n != name
      ensures (n in m <==> n in m') && (n in m ==> m'[n] == m[n])
    {
      NameKept(v, v', e, n);
    }
    PlusOne(m, m', name);
  }

  lemma PlusOne(m: map<seq<Byte>, seq<Byte>>, m': map<seq<Byte>, seq<Byte>>, name: seq<Byte>)
    requires name in m'
    requires forall n :: n != name ==> (n in m <==> n in m') && (n in m ==> m'[n] == m[n])
    ensures m' == m[name := m'[name]]
  {
  }

  /** If record e was the file called `name` and is a file no more, the map loses `name` only. */
  lemma FilesRemoved(v: Volume, v': Volume, e: nat, name: seq<Byte>)
    requires WellFormed(v) && WellFormed(v') && OthersSame(v, v', e)
    requires FileCalled(v.dir, e, name) && !IsFile(v'.dir, e)
    ensures Files(v') == Files(v) - {name}
  {
    NoneCalled(v, v', e, name);
    assert NameOf(Rec(v.dir, e)) == name;
    hide *;
    var m, m' := Files(v), Files(v');
    forall n | n != name
      ensures (n in m <==> n in m') && (n in m ==> m'[n] == m[n])
    {
      NameKept(v, v', e, n);
    }
    MinusOne(m, m', name);
  }

  lemma MinusOne(m: map<seq<Byte>, seq<Byte>>, m': map<seq<Byte>, seq<Byte>>, name: seq<Byte>)
    requires name !in m'
    requires forall n :: n != name ==> (n in m <==> n in m') && (n in m ==> m'[n] == m[n])
    ensures m' == m - {name}
  {
  }

  lemma NoneCalled(v: Volume, v': Volume, e: nat, name: seq<Byte>)
    requires WellFormed(v) && WellFormed(v') && OthersSame(v, v', e)
    requires FileCalled(v.dir, e, name) && !IsFile(v'.dir, e)
    ensures name !in Files(v')
  {
    hide Content, Files, FileNamed, Chain, Apart;
    if name in Files(v') {
      FilesFrom(v', name);
      var f := FileNamed(v'.dir, name);
      FileKept(v, v', e, f);
      OnlyOneCalled(v, e, f);
    }
  }

  lemma OnlyOneCalled(v: Volume, e: nat, f: nat)
    requires WellFormed(v) && IsFile(v.dir, e) && IsFile(v.dir, f) && e != f
    ensures NameOf(Rec(v.dir, e)) != NameOf(Rec(v.dir, f))
  {
  }

  // ----- The steps of the file operations -----

  lemma OthersTransitive(a: Volume, b: Volume, c: Volume, e: nat)
    requires OthersSame(a, b, e) && OthersSame(b, c, e)
    ensures OthersSame(a, c, e)
  {
    hide Content, Chain, NamesUnique, Apart;
    forall f: nat | f < Count(a.dir) && f != e
      ensures (IsFile(c.dir, f) <==> IsFile(a.dir, f)) && (IsFile(a.dir, f) ==> SameFile(a, c, f))
    {
      if IsFile(a.dir, f) {
        assert SameFile(a, b, f);
        assert SameFile(b, c, f);
      }
    }
  }

  /** Record f is untouched by a step that keeps its bytes, its chain and its clusters. */
  lemma Untouched(v: Volume, v': Volume, f: nat)
    requires Shape(v) && Shape(v') && Count(v'.dir) == Count(v.dir) && f < Count(v.dir)
    requires v'.limit == v.limit && v'.lenClu == v.lenClu && v'.chains[f] == v.chains[f]
    requires Rec(v'.dir, f) == Rec(v.dir, f) && (InUse(v'.dir, f) <==> InUse(v.dir, f))
    requires Owns(v, f) && (v.chains[f] != [] ==> Chain(v'.fat, v.limit, v.chains[f]))
    requires forall c :: c in v.chains[f] && 2 <= c < v.limit ==>
               Cluster(v'.data, v.lenClu, v.limit, c) == Cluster(v.data, v.lenClu, v.limit, c)
    ensures Owns(v', f) && (Sized(v, f) ==> Sized(v', f) && SameFile(v, v', f))
  {
    hide InUse, Cluster, ChainBytes, Distinct;
    OwnsBelow(v, f);
    ChainBytesKept(v.data, v'.data, v.lenClu, v.limit, v.chains[f]);
  }

  lemma OwnsBelow(v: Volume, f: nat)
    requires Shape(v) && f < Count(v.dir) && Owns(v, f)
    ensures Below(v.limit, v.chains[f])
  {
  }

  /** Directory-only facts: rewriting record e without its name, attribute and first byte. */
  lemma RecordRewritten(d: seq<Byte>, d': seq<Byte>, e: nat)
    requires IsDirectory(d) && Count(d') == Count(d) && e < Count(d)
    requires forall f: nat :: f < Count(d) && f != e ==> Rec(d', f) == Rec(d, f)
    requires NameOf(Rec(d', e)) == NameOf(Rec(d, e)) && Rec(d', e)[11] == Rec(d, e)[11] && Rec(d', e)[0] == Rec(d, e)[0]
    ensures forall f: nat :: Listed(d', f) <==> Listed(d, f)
    ensures forall f: nat :: InUse(d', f) <==> InUse(d, f)
    ensures forall f: nat :: IsFile(d', f) <==> IsFile(d, f)
    ensures NamesUnique(d) ==> NamesUnique(d')
  {
    forall f: nat
      ensures Listed(d', f) <==> Listed(d, f)
    {
      forall g: nat | g < Count(d) ensures Rec(d', g)[0] == Rec(d, g)[0] { }
    }
  }

  lemma CreatedNames(d: seq<Byte>, d': seq<Byte>, e: nat, name: seq<Byte>)
    requires NamesUnique(d) && IsSlot(d, e) && Created(d, d', e, name) && FileName(name)
    requires forall f :: !FileCalled(d, f, name)
    ensures NamesUnique(d')
  {
    forall f, g | IsFile(d', f) && IsFile(d', g) && NameOf(Rec(d', f)) == NameOf(Rec(d', g))
      ensures f == g
    {
      CreateAddsOne(d, d', e, name, f);
      CreateAddsOne(d, d', e, name, g);
      assert !FileCalled(d, f, name) && !FileCalled(d, g, name);
      NewRecordFields(name);
    }
  }

  lemma CreatedStep(v: Volume, v': Volume, e: nat, name: seq<Byte>)
    requires WellFormed(v) && FileName(name) && IsSlot(v.dir, e)
    requires forall f :: !FileCalled(v.dir, f, name)
    requires Created(v.dir, v'.dir, e, name) && v' == v.(dir := v'.dir)
    ensures WellFormed(v') && OthersSame(v, v', e)
    ensures FileCalled(v'.dir, e, name) && !IsFile(v.dir, e)
    ensures StartOf(Rec(v'.dir, e)) == 0 && SizeOf(Rec(v'.dir, e)) == 0 && v'.chains[e] == []
  {
    hide Chain, Content, SameFile;
    NewRecordFields(name);
    forall f: nat | f < Count(v.dir)
      ensures !InUse(v.dir, e) && (InUse(v'.dir, f) <==> f == e || InUse(v.dir, f))
      ensures f != e && InUse(v.dir, f) ==> Rec(v'.dir, f) == Rec(v.dir, f)
      ensures Owns(v', f)
      ensures f != e && IsFile(v.dir, f) ==> Sized(v', f) && SameFile(v, v', f)
    {
      CreateAddsOne(v.dir, v'.dir, e, name, f);
      assert Owns(v, f);
      if f != e && InUse(v.dir, f) {
        Untouched(v, v', f);
      }
    }
    CreateAddsOne(v.dir, v'.dir, e, name, e);
    CreatedNames(v.dir, v'.dir, e, name);
  }

  /** After a resize every other record still owns its chain, and all chains are still apart. */
  lemma ResizedOthers(v: Volume, v': Volume, e: nat, f: nat)
    requires Shape(v) && e < Count(v.dir) && f < Count(v.dir) && f != e
    requires Owns(v, f) && Apart(v.chains)
    requires |v'.chains| == |v.chains| && v'.chains[f] == v.chains[f]
    requires Resized(v.fat, v'.fat, v.limit, v.chains[e], v'.chains[e])
    ensures v.chains[f] != [] ==> Chain(v'.fat, v.limit, v.chains[f])
    ensures forall c :: c in v.chains[f] ==> c !in v'.chains[e]
  {
    hide Chain, Resized, Distinct;
    if v.chains[f] != [] {
      assert Chain(v.fat, v.limit, v.chains[f]);
      ResizeKeepsOthers(v.fat, v'.fat, v.limit, v.chains[e], v'.chains[e], v.chains[f]);
    }
  }

  lemma ResizedApart(v: Volume, v': Volume, e: nat)
    requires Shape(v) && e < Count(v.dir) && Apart(v.chains)
    requires forall f: nat :: f < Count(v.dir) ==> Owns(v, f)
    requires |v'.chains| == |v.chains|
    requires Resized(v.fat, v'.fat, v.limit, v.chains[e], v'.chains[e])
    requires forall f: nat :: f < Count(v.dir) && f != e ==> v'.chains[f] == v.chains[f]
    ensures Apart(v'.chains)
  {
    hide Chain, Resized, Owns;
    forall f: nat, c | f < Count(v.dir) && f != e && c in v.chains[f]
      ensures c !in v'.chains[e]
    {
      ResizedOthers(v, v', e, f);
    }
  }

  /** `resizefile` on the record of a file: the chain and the start cluster change, nothing else. */
  lemma ResizedStep(v: Volume, v': Volume, e: nat, first: nat)
    requires WellFormedBut(v, e) && IsFile(v.dir, e) && |v'.chains| == |v.chains| && |v'.fat| == |v.fat|
    requires v' == v.(fat := v'.fat, dir := v'.dir, chains := v.chains[e := v'.chains[e]])
    requires Resized(v.fat, v'.fat, v.limit, v.chains[e], v'.chains[e])
    requires first == if v'.chains[e] == [] then 0 else v'.chains[e][0]
    requires Count(v'.dir) == Count(v.dir) && |v'.dir| == |v.dir| && Rec(v'.dir, e) == WithStart(Rec(v.dir, e), first)
    requires forall f: nat :: f < Count(v.dir) && f != e ==> Rec(v'.dir, f) == Rec(v.dir, f)
    ensures WellFormedBut(v', e) && OthersSame(v, v', e)
    ensures IsFile(v'.dir, e) && NameOf(Rec(v'.dir, e)) == NameOf(Rec(v.dir, e))
    ensures SizeOf(Rec(v'.dir, e)) == SizeOf(Rec(v.dir, e))
  {
    assert e < Count(v.dir);
    hide Chain, Content, SameFile, Apart, NamesUnique, InUse, Resized, Sized;
    FirstIsWord(v, v', e);
    WithStartFields(Rec(v.dir, e), first);
    RecordRewritten(v.dir, v'.dir, e);
    ResizedApart(v, v', e);
    forall f: nat | f < Count(v.dir) && f != e
      ensures Owns(v', f)
      ensures IsFile(v.dir, f) ==> Sized(v', f) && SameFile(v, v', f)
    {
      ResizedOthers(v, v', e, f);
      Untouched(v, v', f);
    }
    OwnsResized(v, v', e, first);
  }

  lemma FirstIsWord(v: Volume, v': Volume, e: nat)
    requires Shape(v) && e < |v.chains| == |v'.chains|
    requires Resized(v.fat, v'.fat, v.limit, v.chains[e], v'.chains[e])
    ensures v'.chains[e] != [] ==> 2 <= v'.chains[e][0] < v.limit && Chain(v'.fat, v.limit, v'.chains[e])
  {
  }

  lemma OwnsResized(v: Volume, v': Volume, e: nat, first: nat)
    requires Shape(v) && Shape(v') && v'.limit == v.limit && e < Count(v.dir) == Count(v'.dir)
    requires Resized(v.fat, v'.fat, v.limit, v.chains[e], v'.chains[e])
    requires first == if v'.chains[e] == [] then 0 else v'.chains[e][0]
    requires InUse(v'.dir, e) && StartOf(Rec(v'.dir, e)) == first
    ensures Owns(v', e)
  {
    hide InUse, StartOf, Distinct;
    FirstIsWord(v, v', e);
  }

  /** Storing a size; the volume is well formed again when the chain can hold it. */
  lemma SizedStep(v: Volume, v': Volume, e: nat, len: nat)
    requires WellFormedBut(v, e) && IsFile(v.dir, e) && len < 0x1_0000_0000
    requires v' == v.(dir := v'.dir) && Count(v'.dir) == Count(v.dir) && |v'.dir| == |v.dir|
    requires Rec(v'.dir, e) == WithSize(Rec(v.dir, e), len)
    requires forall f: nat :: f < Count(v.dir) && f != e ==> Rec(v'.dir, f) == Rec(v.dir, f)
    ensures WellFormedBut(v', e) && OthersSame(v, v', e)
    ensures len <= |v.chains[e]| * v.lenClu ==> WellFormed(v')
    ensures IsFile(v'.dir, e) && NameOf(Rec(v'.dir, e)) == NameOf(Rec(v.dir, e))
    ensures SizeOf(Rec(v'.dir, e)) == len && StartOf(Rec(v'.dir, e)) == StartOf(Rec(v.dir, e))
  {
    assert e < Count(v.dir);
    hide Chain, Content, SameFile, Apart, NamesUnique, InUse;
    WithSizeFields(Rec(v.dir, e), len);
    RecordRewritten(v.dir, v'.dir, e);
    forall f: nat | f < Count(v.dir)
      ensures Owns(v', f)
      ensures f != e && IsFile(v.dir, f) ==> Sized(v', f) && SameFile(v, v', f)
    {
      assert Owns(v, f);
      if f != e {
        Untouched(v, v', f);
      }
    }
  }

  /** Storing bytes in clusters of record e only. */
  lemma DataStep(v: Volume, v': Volume, e: nat)
    requires WellFormedBut(v, e) && IsFile(v.dir, e)
    requires v' == v.(data := v'.data) && |v'.data| == |v.data|
    requires forall c :: 2 <= c < v.limit && c !in v.chains[e] ==>
               Cluster(v'.data, v.lenClu, v.limit, c) == Cluster(v.data, v.lenClu, v.limit, c)
    ensures WellFormedBut(v', e) && OthersSame(v, v', e)
    ensures WellFormed(v) ==> WellFormed(v')
  {
    assert e < Count(v.dir);
    hide Chain, Content, SameFile, NamesUnique, InUse, Cluster;
    forall f: nat | f < Count(v.dir)
      ensures Owns(v', f)
      ensures f != e && IsFile(v.dir, f) ==> Sized(v', f) && SameFile(v, v', f)
    {
      assert Owns(v, f);
      if f != e {
        forall c | c in v.chains[f] ensures c !in v.chains[e] { }
        Untouched(v, v', f);
      }
    }
  }

  /** Marking a record without clusters as deleted. */
  lemma DeletedStep(v: Volume, v': Volume, e: nat)
    requires WellFormedBut(v, e) && IsFile(v.dir, e) && v.chains[e] == []
    requires v' == v.(dir := v'.dir) && Count(v'.dir) == Count(v.dir) && |v'.dir| == |v.dir|
    requires Rec(v'.dir, e) == Rec(v.dir, e)[0 := DELETED]
    requires forall f: nat :: f < Count(v.dir) && f != e ==> Rec(v'.dir, f) == Rec(v.dir, f)
    ensures WellFormed(v') && OthersSame(v, v', e) && !IsFile(v'.dir, e)
  {
    hide Chain, Content, SameFile, Apart;
    DeletedUse(v.dir, v'.dir, e);
    forall f: nat | f < Count(v.dir)
      ensures Owns(v', f)
      ensures f != e && IsFile(v.dir, f) ==> Sized(v', f) && SameFile(v, v', f)
    {
      assert Owns(v, f);
      if f != e {
        Untouched(v, v', f);
      }
    }
  }

  lemma DeletedUse(d: seq<Byte>, d': seq<Byte>, e: nat)
    requires IsDirectory(d) && Count(d') == Count(d) && InUse(d, e)
    requires forall f: nat :: f < Count(d) && f != e ==> Rec(d', f) == Rec(d, f)
    requires Rec(d', e) == Rec(d, e)[0 := DELETED]
    ensures forall f: nat :: InUse(d', f) <==> f != e && InUse(d, f)
  {
    forall f: nat
      ensures Listed(d', f) <==> Listed(d, f)
    {
      forall g: nat | g < Count(d) ensures Rec(d', g)[0] == 0 <==> Rec(d, g)[0] == 0 { }
    }
  }

  /** What `dir_create` leaves: record e is the file called `name`, found or created empty. */
  ghost predicate Opened(v: Volume, v': Volume, e: nat, name: seq<Byte>) {
    && WellFormed(v) && WellFormed(v') && OthersSame(v, v', e)
    && FileCalled(v'.dir, e, name)
    && (IsFile(v.dir, e) ==> NameOf(Rec(v.dir, e)) == name)
    && v'.chains[e] == ChainOf(v, name)
    && v'.fat == v.fat && v'.data == v.data && v'.limit == v.limit && v'.lenClu == v.lenClu
    && (if name in Files(v) then v' == v && Content(v, e) == Files(v)[name]
        else SizeOf(Rec(v'.dir, e)) == 0)
  }

  lemma FoundOpened(v: Volume, e: nat, name: seq<Byte>)
    requires WellFormed(v) && FileCalled(v.dir, e, name)
    ensures WellFormed(v) && Opened(v, v, e, name)
  {
    hide OthersSame, Content, Owns, NamesUnique, Apart, Files;
    FileFound(v, e, name);
  }

  lemma CreatedOpened(v: Volume, v': Volume, e: nat, name: seq<Byte>)
    requires WellFormed(v) && FileName(name) && IsSlot(v.dir, e)
    requires !exists f :: FileCalled(v.dir, f, name)
    requires Created(v.dir, v'.dir, e, name) && v' == v.(dir := v'.dir)
    ensures WellFormed(v') && Opened(v, v', e, name)
  {
    hide OthersSame, Content, Owns, NamesUnique, Apart, Files, Created, IsSlot;
    CreatedStep(v, v', e, name);
    FilesWithout(v, name);
  }

  /** The facts a caller of `dir_create` goes on with. */
  lemma OpenedFile(v: Volume, v': Volume, e: nat, name: seq<Byte>)
    requires WellFormed(v) && WellFormed(v') && Opened(v, v', e, name)
    ensures e < Count(v'.dir) && WellFormedBut(v', e) && OthersSame(v, v', e)
    ensures FileCalled(v'.dir, e, name) && IsFile(v'.dir, e) && NameOf(Rec(v'.dir, e)) == name
    ensures IsFile(v.dir, e) ==> NameOf(Rec(v.dir, e)) == name
    ensures v'.chains[e] == ChainOf(v, name) && v'.fat == v.fat && v'.limit == v.limit
  {
    hide Content, Chain, OthersSame, Apart, Files;
  }

  /** Chaining a step on record e behind an opened record: the map is updated at `name` only. */
  lemma OpenedThenStored(v: Volume, v1: Volume, v2: Volume, e: nat, name: seq<Byte>)
    requires WellFormed(v) && WellFormed(v1) && WellFormed(v2) && Opened(v, v1, e, name)
    requires OthersSame(v1, v2, e) && IsFile(v2.dir, e) && NameOf(Rec(v2.dir, e)) == NameOf(Rec(v1.dir, e))
    ensures Files(v2) == Files(v)[name := Content(v2, e)]
  {
    OpenedFile(v, v1, e, name);
    OthersTransitive(v, v1, v2, e);
    hide Content, Chain, OthersSame, Apart, Files, WellFormed, WellFormedBut, Owns, Sized;
    FilesUpdated(v, v2, e, name);
  }

  /** The size in an opened record is the length of the file's contents. */
  lemma OpenedSize(v: Volume, v': Volume, e: nat, name: seq<Byte>)
    requires WellFormed(v) && WellFormed(v') && Opened(v, v', e, name)
    ensures e < Count(v'.dir) && Owns(v', e) && Sized(v', e)
    ensures Content(v', e) == if name in Files(v) then Files(v)[name] else []
    ensures SizeOf(Rec(v'.dir, e)) == |Content(v', e)|
  {
    hide Chain, OthersSame, Apart, Files, Content;
    FileParts(v', e);
  }

  /** A volume whose directory ends at once holds no file. */
  lemma BlankVolume(v: Volume)
    requires Shape(v) && Rec(v.dir, 0)[0] == 0
    requires forall e :: 0 <= e < |v.chains| ==> v.chains[e] == []
    ensures WellFormed(v) && Files(v) == map[]
  {
    forall e: nat
      ensures !Listed(v.dir, e)
    {
    }
  }
}
