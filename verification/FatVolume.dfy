/**
  A FAT volume with its root directory: files are written, overwritten, read and deleted in place.
  `Files` reads the whole volume back as a map from 8.3 names to contents.
 */
module FatVolume {
  import opened Basics
  import opened FatChains
  import opened FatDirectory
  import opened FatData
  import F = FatFiles

  // ----- Copying between a buffer and a chain -----

  /** `cs` is the chain that starts at `start`; 0 means no chain. */
  ghost predicate ChainFrom(fat: seq<nat>, limit: nat, cs: seq<nat>, start: nat) {
    if start == 0 then cs == [] else Chain(fat, limit, cs) && cs[0] == start
  }

  lemma StoredFull(src: seq<Byte>, q: nat, lenClu: nat, old_: seq<Byte>, pad: bool)
    requires q + lenClu <= |src| && |old_| == lenClu
    ensures src[..q] + Stored(src[q..q + lenClu], old_, pad) == src[..q + lenClu]
  {
  }

  /** The first k clusters of the chain hold `front`; the rest still hold what they held before. */
  ghost predicate Copied(was: seq<Byte>, now: seq<Byte>, lenClu: nat, limit: nat, cs: seq<nat>, k: nat, front: seq<Byte>)
    requires Holds(was, lenClu, limit) && Below(limit, cs) && k <= |cs|
  {
    && |now| == |was|
    && ChainBytes(now, lenClu, limit, cs[..k]) == front
    && ChainBytes(now, lenClu, limit, cs[k..]) == ChainBytes(was, lenClu, limit, cs[k..])
    && forall c :: 2 <= c < limit && c !in cs[..k] ==> Cluster(now, lenClu, limit, c) == Cluster(was, lenClu, limit, c)
  }

  lemma CopiedNext(was: seq<Byte>, now: seq<Byte>, now': seq<Byte>, lenClu: nat, limit: nat,
                   cs: seq<nat>, k: nat, front: seq<Byte>)
    requires Holds(was, lenClu, limit) && Below(limit, cs) && k < |cs| && Distinct(cs)
    requires Copied(was, now, lenClu, limit, cs, k, front) && |now'| == |now|
    requires forall c :: 2 <= c < limit && c != cs[k] ==> Cluster(now', lenClu, limit, c) == Cluster(now, lenClu, limit, c)
    ensures Copied(was, now', lenClu, limit, cs, k + 1, front + Cluster(now', lenClu, limit, cs[k]))
  {
    hide ChainBytes, Cluster;
    ChainBytesKept(now, now', lenClu, limit, cs[..k]);
    ChainBytesKept(now, now', lenClu, limit, cs[k + 1..]);
    ChainBytesNext(now', lenClu, limit, cs, k);
    ChainBytesNext(now, lenClu, limit, cs, k);
    ChainBytesNext(was, lenClu, limit, cs, k);
    assert Cluster(now, lenClu, limit, cs[k]) == Cluster(was, lenClu, limit, cs[k]);
    assert cs[..k + 1] == cs[..k] + [cs[k]];
    SameTail(Cluster(was, lenClu, limit, cs[k]),
             ChainBytes(now, lenClu, limit, cs[k + 1..]), ChainBytes(was, lenClu, limit, cs[k + 1..]));
  }

  lemma SameTail(head: seq<Byte>, s: seq<Byte>, t: seq<Byte>)
    requires head + s == head + t
    ensures s == t
  {
    assert s == (head + s)[|head|..];
    assert t == (head + t)[|head|..];
  }

  /** The bytes a cluster holds after `part` was stored in it, padded with zeros or over its old bytes. */
  ghost function Stored(part: seq<Byte>, old_: seq<Byte>, pad: bool): seq<Byte>
    requires |part| <= |old_|
  {
    part + (if pad then seq(|old_| - |part|, _ => 0) else old_[|part|..])
  }

  lemma CopiedNone(was: seq<Byte>, lenClu: nat, limit: nat, cs: seq<nat>)
    requires Holds(was, lenClu, limit) && Below(limit, cs)
    ensures Copied(was, was, lenClu, limit, cs, 0, [])
  {
  }

  lemma CopiedLength(was: seq<Byte>, now: seq<Byte>, lenClu: nat, limit: nat, cs: seq<nat>, k: nat, front: seq<Byte>)
    requires Holds(was, lenClu, limit) && Below(limit, cs) && k <= |cs|
    requires Copied(was, now, lenClu, limit, cs, k, front)
    ensures |front| == k * lenClu
    ensures k < |cs| ==> k * lenClu + lenClu <= |cs| * lenClu
    ensures k < |cs| ==> Cluster(now, lenClu, limit, cs[k]) == Cluster(was, lenClu, limit, cs[k]) || !Distinct(cs)
    ensures |ChainBytes(was, lenClu, limit, cs[..k])| == k * lenClu
  {
    hide ChainBytes, Cluster;
    ChainBytesLength(now, lenClu, limit, cs[..k]);
    ChainBytesLength(was, lenClu, limit, cs[..k]);
    if k < |cs| {
      MulMono(k + 1, |cs|, lenClu);
      assert (k + 1) * lenClu == k * lenClu + lenClu;
    }
  }

  /** What a completed copy leaves: the source in front, the old bytes (or padding) behind, other clusters alone. */
  ghost predicate CopyDone(was: seq<Byte>, now: seq<Byte>, lenClu: nat, limit: nat, cs: seq<nat>, src: seq<Byte>, pad: bool)
    requires Holds(was, lenClu, limit)
  {
    && |now| == |was| && Below(limit, cs)
    && (forall c :: 2 <= c < limit && c !in cs ==> Cluster(now, lenClu, limit, c) == Cluster(was, lenClu, limit, c))
    && var (a, b) := (ChainBytes(was, lenClu, limit, cs), ChainBytes(now, lenClu, limit, cs));
       && |b| == |a| >= |src|
       && b[..|src|] == src
       && (!pad ==> b[|src|..] == a[|src|..])
       && (pad ==> exists k :: Padded(a, b, |src|, lenClu, k))
  }

  /** Cluster k is the one that holds the last of the n bytes: zeros behind them, then the old bytes. */
  ghost predicate Padded(a: seq<Byte>, b: seq<Byte>, n: nat, lenClu: nat, k: nat) {
    var end := k * lenClu + lenClu;
    && k * lenClu <= n <= end <= |b| == |a|
    && (forall i :: n <= i < end ==> b[i] == 0) && b[end..] == a[end..]
  }

  /** After the pass that stores the last part of `src`, the chain reads back as `src` and its tail. */
  lemma CopiedAll(was: seq<Byte>, now: seq<Byte>, lenClu: nat, limit: nat,
                  cs: seq<nat>, k: nat, src: seq<Byte>, q: nat, pad: bool)
    requires Holds(was, lenClu, limit) && Below(limit, cs) && k < |cs| && q <= |src| <= q + lenClu
    requires |ChainBytes(was, lenClu, limit, cs[..k])| == q == k * lenClu
    requires Copied(was, now, lenClu, limit, cs, k + 1,
                    src[..q] + Stored(src[q..], Cluster(was, lenClu, limit, cs[k]), pad))
    ensures CopyDone(was, now, lenClu, limit, cs, src, pad)
  {
    hide ChainBytes, Cluster;
    ChainBytesLength(was, lenClu, limit, cs);
    ChainBytesLength(now, lenClu, limit, cs);
    var c := Cluster(was, lenClu, limit, cs[k]);
    var rest := ChainBytes(was, lenClu, limit, cs[k + 1..]);
    var front := ChainBytes(was, lenClu, limit, cs[..k]);
    ChainBytesSplit(now, lenClu, limit, cs, k + 1);
    ChainBytesSplit(was, lenClu, limit, cs, k + 1);
    ChainBytesNext(was, lenClu, limit, cs, k);
    var t := Stored(src[q..], c, pad)[|src| - q..];
    assert src[..q] + Stored(src[q..], c, pad) == src + t;
    assert ChainBytes(now, lenClu, limit, cs) == src + (t + rest);
    assert ChainBytes(was, lenClu, limit, cs) == front + (c + rest);
    if pad {
      PaddedBehind(src, t, rest, front, c, lenClu, k);
    } else {
      KeptBehind(src, t, rest, front, c);
    }
    hide Padded, Stored, Copied;
  }

  lemma KeptBehind(src: seq<Byte>, t: seq<Byte>, rest: seq<Byte>, front: seq<Byte>, c: seq<Byte>)
    requires |front| <= |src| <= |front| + |c| && t == c[|src| - |front|..]
    ensures (src + (t + rest))[|src|..] == (front + (c + rest))[|src|..]
  {
    assert (front + (c + rest))[|src|..] == t + rest;
  }

  lemma PaddedBehind(src: seq<Byte>, t: seq<Byte>, rest: seq<Byte>, front: seq<Byte>, c: seq<Byte>, lenClu: nat, k: nat)
    requires |front| == k * lenClu <= |src| && |c| == lenClu && |src| + |t| == |front| + lenClu
    requires forall i :: 0 <= i < |t| ==> t[i] == 0
    ensures Padded(front + (c + rest), src + (t + rest), |src|, lenClu, k)
  {
    var a, b, end := front + (c + rest), src + (t + rest), |front| + lenClu;
    assert b[end..] == rest && a[end..] == rest;
    forall i | |src| <= i < end ensures b[i] == 0 {
      assert b[i] == t[i - |src|];
    }
  }

  /** `bytes` is a prefix of the chain's contents. */
  ghost predicate ChainPrefix(data: seq<Byte>, lenClu: nat, limit: nat, cs: seq<nat>, bytes: seq<Byte>)
    requires Holds(data, lenClu, limit)
  {
    && Below(limit, cs)
    && |bytes| <= |ChainBytes(data, lenClu, limit, cs)|
    && bytes == ChainBytes(data, lenClu, limit, cs)[..|bytes|]
  }

  lemma PrefixNone(data: seq<Byte>, lenClu: nat, limit: nat)
    requires Holds(data, lenClu, limit)
    ensures ChainBytes(data, lenClu, limit, []) == []
  {
  }

  lemma PrefixLength(data: seq<Byte>, lenClu: nat, limit: nat, cs: seq<nat>, k: nat)
    requires Holds(data, lenClu, limit) && Below(limit, cs) && k <= |cs|
    ensures |ChainBytes(data, lenClu, limit, cs[..k])| == k * lenClu
    ensures k < |cs| ==> k * lenClu + lenClu <= |cs| * lenClu
  {
    ChainBytesLength(data, lenClu, limit, cs[..k]);
    OneMoreFits(k, |cs|, lenClu);
    hide ChainBytes, Holds;
  }

  lemma OneMoreFits(k: nat, n: nat, lenClu: nat)
    ensures k < n ==> k * lenClu + lenClu <= n * lenClu
  {
    if k < n {
      MulMono(k + 1, n, lenClu);
      assert (k + 1) * lenClu == k * lenClu + lenClu;
    }
  }

  lemma PrefixDone(data: seq<Byte>, lenClu: nat, limit: nat, cs: seq<nat>, k: nat, bytes: seq<Byte>, len: nat)
    requires Holds(data, lenClu, limit) && Below(limit, cs) && k <= |cs| && len <= |bytes|
    requires bytes == ChainBytes(data, lenClu, limit, cs[..k])
    ensures ChainPrefix(data, lenClu, limit, cs, bytes[..len]) && len <= |cs| * lenClu
  {
    ChainBytesSplit(data, lenClu, limit, cs, k);
    ChainBytesLength(data, lenClu, limit, cs);
  }

  lemma OwnedChain(v: F.Volume, e: nat)
    requires F.Shape(v) && e < Count(v.dir) && F.Owns(v, e) && InUse(v.dir, e)
    ensures ChainFrom(v.fat, v.limit, v.chains[e], StartOf(Rec(v.dir, e)))
    ensures Below(v.limit, v.chains[e])
  {
  }

  /** There is a file called `name` or a record for a new one. */
  ghost predicate HasRoom(v: F.Volume, name: seq<Byte>) {
    (exists f :: FileCalled(v.dir, f, name)) || (exists f :: IsSlot(v.dir, f))
  }

  /** A record whose chain holds `src` and whose size is that of `src` reads back as `src`. */
  lemma StoredContent(v: F.Volume, v': F.Volume, e: nat, src: seq<Byte>, pad: bool)
    requires F.WellFormed(v') && IsFile(v'.dir, e) && SizeOf(Rec(v'.dir, e)) == |src|
    requires F.Shape(v) && v' == v.(data := v'.data)
    requires CopyDone(v.data, v'.data, v.lenClu, v.limit, v.chains[e], src, pad)
    ensures F.Content(v', e) == src
  {
    hide ChainBytes, Cluster, Chain;
  }

  /** A shorter write over a file keeps the tail of the old contents. */
  lemma OverlaidContent(v: F.Volume, v': F.Volume, e: nat, src: seq<Byte>)
    requires F.Shape(v) && F.Shape(v') && v' == v.(data := v'.data)
    requires e < Count(v.dir) && F.Owns(v, e) && F.Sized(v, e) && |src| <= SizeOf(Rec(v.dir, e))
    requires CopyDone(v.data, v'.data, v.lenClu, v.limit, v.chains[e], src, false)
    ensures F.Owns(v', e) && F.Sized(v', e)
    ensures F.Content(v', e) == src + F.Content(v, e)[|src|..]
  {
    hide ChainBytes, Cluster, Chain;
    var n := SizeOf(Rec(v.dir, e));
    ChainBytesLength(v.data, v.lenClu, v.limit, v.chains[e]);
    var (a, b) := (ChainBytes(v.data, v.lenClu, v.limit, v.chains[e]), ChainBytes(v'.data, v.lenClu, v.limit, v.chains[e]));
    assert b[..n] == b[..|src|] + b[|src|..][..n - |src|];
    assert a[..n][|src|..] == a[|src|..][..n - |src|];
  }

  /** Storing `len` bytes in a chain of `clusters` clusters will succeed. */
  ghost predicate CanStore(v: F.Volume, name: seq<Byte>, clusters: int, alloc0: nat, len: nat)
    requires F.Shape(v)
  {
    && HasRoom(v, name)
    && clusters > 0 && len <= clusters * v.lenClu
    && CanResize(v.fat, v.limit, F.ChainOf(v, name), clusters, alloc0)
  }

  /** New bytes over the beginning of old ones. */
  ghost function Overlay(bytes: seq<Byte>, old_: seq<Byte>): seq<Byte> {
    if |bytes| < |old_| then bytes + old_[|bytes|..] else bytes
  }

  /** Byte by byte: the new bytes as far as they go, then what the old ones have beyond them. */
  lemma OverlayAt(bytes: seq<Byte>, old_: seq<Byte>)
    ensures |Overlay(bytes, old_)| == if |bytes| < |old_| then |old_| else |bytes|
    ensures forall i :: 0 <= i < |Overlay(bytes, old_)| ==>
              Overlay(bytes, old_)[i] == if i < |bytes| then bytes[i] else old_[i]
  {
  }

  /** Overwriting will succeed: in place when the file is long enough, else like a write. */
  ghost predicate CanOverlay(v: F.Volume, name: seq<Byte>, clusters: int, alloc0: nat, len: nat)
    requires F.WellFormed(v)
  {
    var size := if name in F.Files(v) then |F.Files(v)[name]| else 0;
    if size < len then CanStore(v, name, clusters, alloc0, len)
    else HasRoom(v, name) && F.ChainOf(v, name) != []
  }

  lemma PrefixIsContent(v: F.Volume, e: nat, bytes: seq<Byte>)
    requires F.Shape(v) && e < Count(v.dir) && F.Owns(v, e) && F.Sized(v, e)
    requires |bytes| == SizeOf(Rec(v.dir, e)) && ChainPrefix(v.data, v.lenClu, v.limit, v.chains[e], bytes)
    ensures bytes == F.Content(v, e)
  {
    hide ChainBytes, Cluster, Chain;
  }

  lemma CanShrink(fat: seq<nat>, limit: nat, cs: seq<nat>)
    requires limit <= |fat|
    ensures CanResize(fat, limit, cs, 0, 0)
  {
  }

  // ----- Commands -----

  datatype Command =
    | Write(name: seq<Byte>, bytes: seq<Byte>, alloc0: nat, asiz: int)
    | Overwrite(name: seq<Byte>, bytes: seq<Byte>, alloc0: nat, asiz: int)
    | Delete(name: seq<Byte>)
    | Read(name: seq<Byte>)

  ghost predicate WellFormedCommand(op: Command) {
    FileName(op.name) && ((op.Write? || op.Overwrite?) ==> op.alloc0 >= 2 && op.asiz >= -1)
  }

  /** The clusters asked for: the given number, or as many as `len` bytes need when it is -1. */
  function ClustersFor(asiz: int, len: nat, lenClu: nat): int
    requires lenClu > 0
  {
    if asiz == -1 then (len + lenClu - 1) / lenClu else asiz
  }

  /** With -1 the least number of clusters that hold the bytes. */
  lemma ClustersHold(len: nat, lenClu: nat)
    requires lenClu > 0
    ensures ClustersFor(-1, len, lenClu) * lenClu >= len
    ensures len > 0 ==> (ClustersFor(-1, len, lenClu) - 1) * lenClu < len
    ensures len == 0 ==> ClustersFor(-1, len, lenClu) == 0
    ensures forall asiz :: asiz != -1 ==> ClustersFor(asiz, len, lenClu) == asiz
  {
    var q, r := (len + lenClu - 1) / lenClu, (len + lenClu - 1) % lenClu;
    assert len + lenClu - 1 == q * lenClu + r;
    assert (q - 1) * lenClu == q * lenClu - lenClu;
  }

  /** The command runs to its end, with a file buffer of `room` bytes; otherwise the program stops. */
  ghost predicate Succeeds(v: F.Volume, op: Command, room: nat)
    requires F.WellFormed(v)
  {
    match op
    case Write(name, bytes, alloc0, asiz) =>
      |bytes| < room && CanStore(v, name, ClustersFor(asiz, |bytes|, v.lenClu), alloc0, |bytes|)
    case Overwrite(name, bytes, alloc0, asiz) =>
      |bytes| < room && CanOverlay(v, name, ClustersFor(asiz, |bytes|, v.lenClu), alloc0, |bytes|)
    case Delete(name) => true
    case Read(name) =>
      name in F.Files(v) && F.ChainOf(v, name) != [] && |F.Files(v)[name]| + v.lenClu <= room
  }

  type FileMap = map<seq<Byte>, seq<Byte>>

  /** What a command means for the map of files. */
  ghost function Effect(m: FileMap, op: Command): FileMap {
    match op
    case Write(name, bytes, _, _) => m[name := bytes]
    case Overwrite(name, bytes, _, _) => m[name := Overlay(bytes, if name in m then m[name] else [])]
    case Delete(name) => m - {name}
    case Read(_) => m
  }

  ghost function Effects(m: FileMap, ops: seq<Command>): FileMap {
    if ops == [] then m else Effect(Effects(m, ops[..|ops| - 1]), ops[|ops| - 1])
  }

  /** Commands on other names leave a file alone, however many there are. */
  lemma {:induction false} OtherCommandsKeep(m: FileMap, ops: seq<Command>, name: seq<Byte>)
    requires forall i :: 0 <= i < |ops| ==> ops[i].name == name ==> ops[i].Read?
    ensures name in Effects(m, ops) <==> name in m
    ensures name in m ==> Effects(m, ops)[name] == m[name]
  {
    if ops != [] {
      OtherCommandsKeep(m, ops[..|ops| - 1], name);
    }
  }

  /** What a storing command leaves in its file: the bytes written, or those followed by the old tail. */
  ghost function LeftInFile(m: FileMap, op: Command): seq<Byte>
    requires op.Write? || op.Overwrite?
  {
    if op.Write? then op.bytes else Overlay(op.bytes, if op.name in m then m[op.name] else [])
  }

  /** Byte by byte: what was written, or the bytes written as far as they go and then the old ones. */
  lemma LeftAt(m: FileMap, op: Command)
    requires op.Write? || op.Overwrite?
    ensures var was := if op.name in m then m[op.name] else [];
      var now := LeftInFile(m, op);
      if op.Write? then now == op.bytes
      else |now| == (if |op.bytes| < |was| then |was| else |op.bytes|) &&
           forall i :: 0 <= i < |now| ==> now[i] == if i < |op.bytes| then op.bytes[i] else was[i]
  {
    OverlayAt(op.bytes, if op.name in m then m[op.name] else []);
  }

  /** Nothing stores or deletes the file. */
  ghost predicate LeavesAlone(ops: seq<Command>, name: seq<Byte>) {
    forall i :: 0 <= i < |ops| ==> ops[i].name == name ==> ops[i].Read?
  }

  /** A file holds what was last stored in it, whatever happened before and to other files since. */
  lemma LastWriteWins(m: FileMap, before: seq<Command>, op: Command, after: seq<Command>)
    requires (op.Write? || op.Overwrite?) && LeavesAlone(after, op.name)
    ensures op.name in Effects(m, before + [op] + after)
    ensures Effects(m, before + [op] + after)[op.name] == LeftInFile(Effects(m, before), op)
    ensures var was := if op.name in Effects(m, before) then Effects(m, before)[op.name] else [];
      var now := Effects(m, before + [op] + after)[op.name];
      if op.Write? then now == op.bytes
      else |now| == (if |op.bytes| < |was| then |was| else |op.bytes|) &&
           forall i :: 0 <= i < |now| ==> now[i] == if i < |op.bytes| then op.bytes[i] else was[i]
  {
    LeftAt(Effects(m, before), op);
    var m1 := Effects(m, before + [op]);
    assert (before + [op])[..|before|] == before;
    EffectsSplit(m, before + [op], after);
    OtherCommandsKeep(m1, after, op.name);
  }

  /** A deleted file is gone until something is stored under its name again. */
  lemma DeletedIsGone(m: FileMap, before: seq<Command>, op: Command, after: seq<Command>)
    requires op.Delete? && LeavesAlone(after, op.name)
    ensures op.name !in Effects(m, before + [op] + after)
  {
    assert (before + [op])[..|before|] == before;
    EffectsSplit(m, before + [op], after);
    OtherCommandsKeep(Effects(m, before + [op]), after, op.name);
  }

  lemma {:induction false} EffectsSplit(m: FileMap, front: seq<Command>, back: seq<Command>)
    ensures Effects(m, front + back) == Effects(Effects(m, front), back)
  {
    if back == [] {
      assert front + back == front;
    } else {
      var n := |back| - 1;
      EffectsSplit(m, front, back[..n]);
      assert (front + back)[..|front + back| - 1] == front + back[..n];
    }
  }

  class Image {
    const table: FatTable
    const dir: Directory
    const data: array<Byte>
    const filebuf: array<Byte>
    const lenClu: nat
    var lenFilebuf: nat
    ghost var chains: seq<seq<nat>>

    /** A formatted volume: nothing in the directory yet, whatever the other bytes are. */
    constructor (table: FatTable, dir: Directory, data: array<Byte>, filebuf: array<Byte>, lenClu: nat)
      requires table.Valid() && dir.Valid() && Rec(dir.bytes[..], 0)[0] == 0
      requires 0 < lenClu <= filebuf.Length < 0x1_0000_0000 && (table.limit - 2) * lenClu <= data.Length
      requires dir.bytes != data && data != filebuf && dir.bytes != filebuf
      ensures this.table == table && this.dir == dir && this.data == data && this.filebuf == filebuf
      ensures Valid() && Files() == map[]
    {
      this.table, this.dir, this.data, this.filebuf, this.lenClu := table, dir, data, filebuf, lenClu;
      lenFilebuf := 0;
      chains := seq(Count(dir.bytes[..]), _ => []);
      new;
      hide F.WellFormed, F.Files;
      F.BlankVolume(State());
    }

    ghost predicate Shape()
      reads this, table, dir.bytes
    {
      && table.Valid() && dir.Valid()
      && 0 < lenClu && (table.limit - 2) * lenClu <= data.Length
      && lenClu <= filebuf.Length < 0x1_0000_0000
      && lenFilebuf <= filebuf.Length
      && dir.bytes != data && data != filebuf && dir.bytes != filebuf
    }

    /** One pass of the copy loop: a whole cluster, or the rest of the file with zeros or the old bytes behind. */
    method StoreCluster(c: nat, part: seq<Byte>, pad: bool)
      requires Shape() && 2 <= c < table.limit && |part| <= lenClu
      modifies data
      ensures 0 <= (c - 2) * lenClu && (c - 2) * lenClu + lenClu <= data.Length
      ensures forall k :: 0 <= k < lenClu ==>
                data[(c - 2) * lenClu + k]
                == if k < |part| then part[k] else if pad then 0 else old(data[(c - 2) * lenClu + k])
      ensures forall k :: 0 <= k < data.Length && !((c - 2) * lenClu <= k < (c - 2) * lenClu + lenClu) ==>
                data[k] == old(data[k])
      ensures Cluster(data[..], lenClu, table.limit, c)
           == Stored(part, old(Cluster(data[..], lenClu, table.limit, c)), pad)
      ensures forall x :: 2 <= x < table.limit && x != c ==>
                Cluster(data[..], lenClu, table.limit, x) == old(Cluster(data[..], lenClu, table.limit, x))
    {
      ClusterInside(data.Length, lenClu, table.limit, c);
      ghost var was := data[..];
      var q := (c - 2) * lenClu;
      StoreAt(q, part, pad);
      assert Cluster(data[..], lenClu, table.limit, c) == data[q..q + lenClu];
      assert Cluster(was, lenClu, table.limit, c) == was[q..q + lenClu];
      forall x | 2 <= x < table.limit && x != c
        ensures Cluster(data[..], lenClu, table.limit, x) == Cluster(was, lenClu, table.limit, x)
      {
        OtherClusters(was, data[..], lenClu, table.limit, c, x);
      }
    }

    method StoreAt(q: nat, part: seq<Byte>, pad: bool)
      requires |part| <= lenClu && q + lenClu <= data.Length
      modifies data
      ensures data[q..q + lenClu] == Stored(part, old(data[q..q + lenClu]), pad)
      ensures forall k :: 0 <= k < lenClu ==>
                data[q + k] == if k < |part| then part[k] else if pad then 0 else old(data[q + k])
      ensures forall k :: 0 <= k < data.Length && !(q <= k < q + lenClu) ==> data[k] == old(data[k])
    {
      var k := 0;
      while k < |part|
        invariant 0 <= k <= |part|
        invariant forall t :: 0 <= t < k ==> data[q + t] == part[t]
        invariant forall t :: 0 <= t < data.Length && !(q <= t < q + k) ==> data[t] == old(data[t])
      {
        data[q + k] := part[k];
        k := k + 1;
      }
      if pad {
        while k < lenClu
          invariant |part| <= k <= lenClu
          invariant forall t :: 0 <= t < |part| ==> data[q + t] == part[t]
          invariant forall t :: q + |part| <= t < q + k ==> data[t] == 0
          invariant forall t :: 0 <= t < data.Length && !(q <= t < q + k) ==> data[t] == old(data[t])
        {
          data[q + k] := 0;
          k := k + 1;
        }
        assert data[q + |part|..q + lenClu] == seq(lenClu - |part|, _ => 0);
      } else {
        assert data[q + |part|..q + lenClu] == old(data[q..q + lenClu])[|part|..];
      }
      assert data[q..q + |part|] == part;
      assert data[q..q + lenClu] == data[q..q + |part|] + data[q + |part|..q + lenClu];
    }

    /**
      The copy loop of `writefile` (`pad`) and `ovrwritefile` (not `pad`): stores `src` along the chain.
      `ok` is false where the program stops with a write error.
     */
    method CopyIn(start: nat, src: seq<Byte>, pad: bool, ghost cs: seq<nat>) returns (ok: bool)
      requires Shape() && ChainFrom(table.fat[..], table.limit, cs, start)
      modifies data
      ensures ok <==> cs != [] && |src| <= |cs| * lenClu
      ensures ok ==> CopyDone(old(data[..]), data[..], lenClu, table.limit, cs, src, pad)
    {
      hide ChainBytes, Cluster, Stored, CopyDone, Copied;
      ghost var was, limit := data[..], table.limit;
      var i: int, j: nat, q: nat := |src|, start, 0;
      ghost var k: nat := 0;
      CopiedNone(was, lenClu, limit, cs);
      while true
        invariant k <= |cs| && q + i == |src| && i >= 0 && (i > 0 || k == 0)
        invariant if k < |cs| then j == cs[k] else j < 2 || j >= BAD
        invariant Copied(was, data[..], lenClu, limit, cs, k, src[..q])
        decreases |cs| - k
      {
        CopiedLength(was, data[..], lenClu, limit, cs, k, src[..q]);
        if j < 2 || j >= BAD {
          return false;
        }
        ghost var now, c := data[..], j;
        var n := if i >= lenClu then lenClu else i;
        StoreCluster(j, src[q..q + n], pad);
        CopiedNext(was, now, data[..], lenClu, limit, cs, k, src[..q]);
        j := table.fat[j];
        i := i - lenClu;
        if i <= 0 {
          assert src[q..q + n] == src[q..];
          CopiedAll(was, data[..], lenClu, limit, cs, k, src, q, pad);
          break;
        }
        StoredFull(src, q, lenClu, Cluster(was, lenClu, limit, cs[k]), pad);
        q := q + n;
        k := k + 1;
      }
      ok := true;
    }

    /**
      The copy loop of `readfile`: loads the first `len` bytes of a chain into the file buffer.
      `ok` is false where the program stops with a read error.
     */
    method CopyOut(start: nat, len: nat, ghost cs: seq<nat>) returns (ok: bool)
      requires Shape() && ChainFrom(table.fat[..], table.limit, cs, start)
      requires len + lenClu <= filebuf.Length
      modifies filebuf
      ensures ok <==> cs != [] && len <= |cs| * lenClu
      ensures ok ==> ChainPrefix(data[..], lenClu, table.limit, cs, filebuf[..len])
    {
      hide ChainBytes, Cluster, ChainPrefix;
      var i: int, j: nat, q: nat := len, start, 0;
      ghost var k: nat, limit := 0, table.limit;
      assert filebuf[..0] == ChainBytes(data[..], lenClu, limit, cs[..0]) by {
        assert cs[..0] == [];
        PrefixNone(data[..], lenClu, limit);
      }
      while true
        invariant k <= |cs| && q + i == len && i >= 0 && (i > 0 || k == 0)
        invariant if k < |cs| then j == cs[k] else j < 2 || j >= BAD
        invariant filebuf[..q] == ChainBytes(data[..], lenClu, limit, cs[..k])
        decreases |cs| - k
      {
        PrefixLength(data[..], lenClu, limit, cs, k);
        if j < 2 || j >= BAD {
          return false;
        }
        LoadCluster(j, q);
        ChainBytesNext(data[..], lenClu, limit, cs, k);
        j := table.fat[j];
        q := q + lenClu;
        i := i - lenClu;
        k := k + 1;
        if i <= 0 {
          PrefixDone(data[..], lenClu, limit, cs, k, filebuf[..q], len);
          assert filebuf[..q][..len] == filebuf[..len];
          break;
        }
      }
      ok := true;
    }

    method LoadCluster(c: nat, q: nat)
      requires Shape() && 2 <= c < table.limit && q + lenClu <= filebuf.Length
      modifies filebuf
      ensures filebuf[..q + lenClu] == old(filebuf[..q]) + Cluster(data[..], lenClu, table.limit, c)
    {
      ClusterInside(data.Length, lenClu, table.limit, c);
      var r := (c - 2) * lenClu;
      for k := 0 to lenClu
        invariant filebuf[..q] == old(filebuf[..q])
        invariant filebuf[q..q + k] == data[r..r + k]
      {
        filebuf[q + k] := data[r + k];
      }
      assert filebuf[..q + lenClu] == filebuf[..q] + filebuf[q..q + lenClu];
      assert Cluster(data[..], lenClu, table.limit, c) == data[r..r + lenClu];
    }

    // ----- Steps on one record -----

    ghost function State(): F.Volume
      requires Shape()
      reads this, table, table.fat, dir.bytes, data
    {
      F.Volume(table.fat[..], table.limit, dir.bytes[..], data[..], lenClu, chains)
    }

    ghost predicate Valid()
      reads this, table, table.fat, dir.bytes, data
    {
      Shape() && F.WellFormed(State())
    }

    ghost function Files(): map<seq<Byte>, seq<Byte>>
      requires Valid()
      reads this, table, table.fat, dir.bytes, data
    {
      F.Files(State())
    }

    /** `resizefile` on directory record e. */
    method ResizeFile(e: nat, clusters: nat, alloc0: nat) returns (ok: bool)
      requires Shape() && F.WellFormedBut(State(), e) && IsFile(dir.bytes[..], e) && (alloc0 >= 2 || clusters == 0)
      modifies this`chains, table.fat, dir.bytes
      ensures Shape() && |chains| == old(|chains|)
      ensures ok <==> CanResize(old(table.fat[..]), table.limit, old(chains[e]), clusters, alloc0)
      ensures ok ==> F.WellFormedBut(State(), e) && F.OthersSame(old(State()), State(), e)
      ensures ok ==> IsFile(dir.bytes[..], e)
      ensures ok ==> NameOf(Rec(dir.bytes[..], e)) == old(NameOf(Rec(dir.bytes[..], e)))
      ensures ok ==> SizeOf(Rec(dir.bytes[..], e)) == old(SizeOf(Rec(dir.bytes[..], e)))
      ensures ok ==> chains[e] == ResizedChain(old(table.fat[..]), table.limit, old(chains[e]), clusters, alloc0)
      ensures ok ==> |chains[e]| == clusters
    {
      assert e < Count(dir.bytes[..]);
      hide F.OthersSame, F.Owns, NamesUnique, InUse, Resized, ResizedChain, Chain, F.Apart;
      ghost var v := State();
      OwnedChain(v, e);
      var start := StartOf(dir.bytes[RECORD * e..RECORD * e + RECORD]);
      assert dir.bytes[RECORD * e..RECORD * e + RECORD] == Rec(dir.bytes[..], e);
      var first: nat;
      ghost var cs';
      ok, first, cs' := table.Resize(start, clusters, alloc0, chains[e]);
      if !ok {
        return;
      }
      dir.PutStart(e, first);
      chains := chains[e := cs'];
      F.ResizedStep(v, State(), e, first);
    }

    /** Stores the size of a file. */
    method StoreSize(e: nat, len: nat)
      requires Shape() && F.WellFormedBut(State(), e) && IsFile(dir.bytes[..], e)
      requires len < 0x1_0000_0000
      modifies dir.bytes
      ensures Shape() && F.WellFormedBut(State(), e) && F.OthersSame(old(State()), State(), e)
      ensures len <= |chains[e]| * lenClu ==> Valid()
      ensures IsFile(dir.bytes[..], e)
      ensures NameOf(Rec(dir.bytes[..], e)) == old(NameOf(Rec(dir.bytes[..], e)))
      ensures SizeOf(Rec(dir.bytes[..], e)) == len
    {
      assert e < Count(dir.bytes[..]);
      hide F.OthersSame, F.Owns, NamesUnique, InUse, Chain, F.Apart;
      ghost var v := State();
      dir.PutSize(e, len);
      F.SizedStep(v, State(), e, len);
    }

    /** Stores the file buffer in the clusters of record e. */
    method StoreBytes(e: nat, pad: bool) returns (ok: bool)
      requires Shape() && F.WellFormedBut(State(), e) && IsFile(dir.bytes[..], e)
      modifies data
      ensures ok <==> chains[e] != [] && lenFilebuf <= |chains[e]| * lenClu
      ensures ok ==> Shape() && F.WellFormedBut(State(), e) && F.OthersSame(old(State()), State(), e)
      ensures ok && old(Valid()) ==> Valid()
      ensures ok ==> CopyDone(old(data[..]), data[..], lenClu, table.limit, chains[e], filebuf[..lenFilebuf], pad)
    {
      assert e < Count(dir.bytes[..]);
      hide F.OthersSame, NamesUnique, InUse, F.Apart, F.Sized, ChainBytes, Cluster;
      ghost var v := State();
      assert F.Owns(v, e);
      OwnedChain(v, e);
      var start := StartOf(dir.bytes[RECORD * e..RECORD * e + RECORD]);
      assert dir.bytes[RECORD * e..RECORD * e + RECORD] == Rec(dir.bytes[..], e);
      ok := CopyIn(start, filebuf[..lenFilebuf], pad, chains[e]);
      if ok {
        F.DataStep(v, State(), e);
      }
    }

    /** `dir_create`: the record of the file, created empty when there is none. */
    method OpenFile(name: seq<Byte>) returns (ok: bool, e: nat)
      requires Valid() && FileName(name)
      modifies dir.bytes
      ensures ok <==> HasRoom(old(State()), name)
      ensures ok ==> Valid() && F.Opened(old(State()), State(), e, name)
    {
      hide F.OthersSame, F.Owns, F.WellFormed, F.Opened, Created, IsSlot, FileCalled, F.Shape;
      ghost var v := State();
      ok, e := dir.Create(name);
      if !ok {
        return;
      }
      if exists f :: FileCalled(v.dir, f, name) {
        F.FoundOpened(v, e, name);
        assert State() == v;
      } else {
        F.CreatedOpened(v, State(), e, name);
      }
    }

    // ----- The file operations -----

    /** The clusters a command asks for; -1 stands for as many as the file needs. */
    function Wanted(asiz: int): int
      requires lenClu > 0
      reads this
    {
      ClustersFor(asiz, lenFilebuf, lenClu)
    }

    /** Resizes, stores the size and the bytes: what both writing commands do to a record that must change size. */
    method Rewrite(e: nat, clusters: nat, alloc0: nat, pad: bool) returns (ok: bool)
      requires Valid() && IsFile(dir.bytes[..], e) && alloc0 >= 2
      modifies this`chains, table.fat, dir.bytes, data
      ensures ok <==> clusters > 0 && lenFilebuf <= clusters * lenClu &&
                      CanResize(old(table.fat[..]), table.limit, old(chains[e]), clusters, alloc0)
      ensures ok ==> Valid() && F.OthersSame(old(State()), State(), e)
      ensures ok ==> IsFile(dir.bytes[..], e) && F.Content(State(), e) == filebuf[..lenFilebuf]
      ensures ok ==> NameOf(Rec(dir.bytes[..], e)) == old(NameOf(Rec(dir.bytes[..], e)))
    {
      ghost var v0 := State();
      F.NearlyWellFormed(v0, e);
      hide F.OthersSame, F.Owns, F.WellFormed, F.WellFormedBut, F.Content, CopyDone, CanResize, ResizedChain, IsFile;
      ok := ResizeFile(e, clusters, alloc0);
      if !ok {
        return;
      }
      ghost var v1 := State();
      StoreSize(e, lenFilebuf);
      ghost var v2 := State();
      ok := StoreBytes(e, pad);
      if !ok {
        return;
      }
      F.OthersTransitive(v0, v1, v2, e);
      F.OthersTransitive(v0, v2, State(), e);
      StoredContent(v2, State(), e, filebuf[..lenFilebuf], pad);
    }

    /** `writefile` on the image: the file called `name` holds the file buffer from now on. */
    method WriteFile(name: seq<Byte>, alloc0: nat, asiz: int) returns (ok: bool)
      requires Valid() && FileName(name) && alloc0 >= 2 && asiz >= -1
      modifies this`chains, table.fat, dir.bytes, data
      ensures ok <==> CanStore(old(State()), name, Wanted(asiz), alloc0, lenFilebuf)
      ensures ok ==> Valid() && Files() == old(Files())[name := filebuf[..lenFilebuf]]
    {
      hide F.OthersSame, F.Owns, F.WellFormed, F.WellFormedBut, F.Content, F.Files, CanResize, FileCalled, F.Opened;
      ghost var v0 := State();
      var clusters: nat := Wanted(asiz);
      var e;
      ok, e := OpenFile(name);
      if !ok {
        return;
      }
      ghost var v1 := State();
      F.OpenedFile(v0, v1, e, name);
      ok := Rewrite(e, clusters, alloc0, true);
      if !ok {
        return;
      }
      F.OpenedThenStored(v0, v1, State(), e, name);
    }

    /**
      `ovrwritefile` on the image: the file buffer replaces the beginning of the file called `name`;
      a longer old tail stays.  The file only changes size when it has to grow.
     */
    method OvrwriteFile(name: seq<Byte>, alloc0: nat, asiz: int) returns (ok: bool)
      requires Valid() && FileName(name) && alloc0 >= 2 && asiz >= -1
      modifies this`chains, table.fat, dir.bytes, data
      ensures ok <==> CanOverlay(old(State()), name, Wanted(asiz), alloc0, lenFilebuf)
      ensures ok ==> Valid()
      ensures ok ==> Files() == old(Files())[name := Overlay(filebuf[..lenFilebuf],
                                 if name in old(Files()) then old(Files())[name] else [])]
      ensures ok ==>
                var was := if name in old(Files()) then old(Files())[name] else [];
                var now := Files()[name];
                |now| == (if lenFilebuf < |was| then |was| else lenFilebuf) &&
                forall i :: 0 <= i < |now| ==> now[i] == if i < lenFilebuf then filebuf[i] else was[i]
    {
      hide Overlay, F.OthersSame, F.Owns, F.WellFormed, F.WellFormedBut, F.Content, F.Files, CanResize, FileCalled, F.Opened;
      ghost var v0 := State();
      var clusters: nat := Wanted(asiz);
      var e;
      ok, e := OpenFile(name);
      if !ok {
        return;
      }
      ghost var v1 := State();
      F.OpenedFile(v0, v1, e, name);
      F.OpenedSize(v0, v1, e, name);
      ok := OverlayRecord(e, clusters, alloc0);
      if !ok {
        return;
      }
      F.OpenedThenStored(v0, v1, State(), e, name);
      OverlayAt(filebuf[..lenFilebuf], if name in F.Files(v0) then F.Files(v0)[name] else []);
    }

    /** Overwrites in place when the file is long enough, else resizes and rewrites it. */
    method OverlayRecord(e: nat, clusters: nat, alloc0: nat) returns (ok: bool)
      requires Valid() && IsFile(dir.bytes[..], e) && alloc0 >= 2
      modifies this`chains, table.fat, dir.bytes, data
      ensures ok <==>
                if old(SizeOf(Rec(dir.bytes[..], e))) < lenFilebuf then
                  clusters > 0 && lenFilebuf <= clusters * lenClu &&
                  CanResize(old(table.fat[..]), table.limit, old(chains[e]), clusters, alloc0)
                else old(chains[e]) != []
      ensures ok ==> Valid() && F.OthersSame(old(State()), State(), e) && IsFile(dir.bytes[..], e)
      ensures ok ==> F.Content(State(), e) == Overlay(filebuf[..lenFilebuf], old(F.Content(State(), e)))
      ensures ok ==> NameOf(Rec(dir.bytes[..], e)) == old(NameOf(Rec(dir.bytes[..], e)))
    {
      hide F.OthersSame, F.Owns, F.WellFormed, F.WellFormedBut, F.Content, CanResize, NameOf, StartOf;
      var r := dir.bytes[RECORD * e..RECORD * e + RECORD];
      assert r == Rec(dir.bytes[..], e);
      if SizeOf(r) < lenFilebuf {
        ok := Rewrite(e, clusters, alloc0, false);
      } else {
        ok := OverlayBytes(e);
      }
    }

    /** Overwrites the beginning of a file that is long enough. */
    method OverlayBytes(e: nat) returns (ok: bool)
      requires Valid() && IsFile(dir.bytes[..], e) && lenFilebuf <= SizeOf(Rec(dir.bytes[..], e))
      modifies data
      ensures ok <==> chains[e] != []
      ensures ok ==> Valid() && F.OthersSame(old(State()), State(), e)
      ensures ok ==> F.Content(State(), e) == filebuf[..lenFilebuf] + old(F.Content(State(), e))[lenFilebuf..]
    {
      ghost var v := State();
      F.NearlyWellFormed(v, e);
      F.FileParts(v, e);
      hide F.OthersSame, F.Owns, F.WellFormed, F.WellFormedBut, F.Content, CopyDone, IsFile;
      ok := StoreBytes(e, false);
      if ok {
        OverlaidContent(v, State(), e, filebuf[..lenFilebuf]);
      }
    }

    /** `dir_search`: the record of the file called `name`. */
    method FindFile(name: seq<Byte>) returns (p: int)
      requires Valid() && FileName(name)
      ensures -1 <= p < Count(dir.bytes[..])
      ensures p < 0 <==> name !in Files()
      ensures p >= 0 ==> FileCalled(dir.bytes[..], p, name) && F.Found(State(), p, name)
    {
      hide F.OthersSame, F.Owns, F.WellFormed, F.Content, F.Files, F.Found, FileCalled, F.Names;
      F.FilesWithout(State(), name);
      p := dir.Search(name);
      if p >= 0 {
        F.FileIsFound(State(), p, name);
      }
    }

    /** Loads the contents of record p into the file buffer. */
    method LoadFile(p: nat) returns (ok: bool)
      requires Valid() && IsFile(dir.bytes[..], p)
      modifies this`lenFilebuf, filebuf
      ensures ok <==> chains[p] != [] && SizeOf(Rec(dir.bytes[..], p)) + lenClu <= filebuf.Length
      ensures ok ==> Valid() && State() == old(State()) && filebuf[..lenFilebuf] == F.Content(State(), p)
    {
      ghost var v := State();
      F.FileParts(v, p);
      OwnedChain(v, p);
      hide F.Owns, F.WellFormed, F.Content, NamesUnique, F.Apart, IsFile, ChainBytes;
      var r := dir.bytes[RECORD * p..RECORD * p + RECORD];
      assert r == Rec(dir.bytes[..], p);
      var size := SizeOf(r);
      if size + lenClu > filebuf.Length {
        return false;
      }
      lenFilebuf := size;
      ok := CopyOut(StartOf(r), size, chains[p]);
      if ok {
        PrefixIsContent(v, p, filebuf[..lenFilebuf]);
      }
    }

    /** `readfile` from the image: the file buffer receives the contents of the file called `name`. */
    method ReadFile(name: seq<Byte>) returns (ok: bool)
      requires Valid() && FileName(name)
      modifies this`lenFilebuf, filebuf
      ensures ok <==> name in old(Files()) && F.ChainOf(old(State()), name) != [] &&
                      |old(Files())[name]| + lenClu <= filebuf.Length
      ensures ok ==> Valid() && State() == old(State()) && filebuf[..lenFilebuf] == Files()[name]
    {
      hide F.Owns, F.WellFormed, F.Content, F.Files, NamesUnique, F.Apart;
      ghost var v := State();
      var p := FindFile(name);
      if p < 0 {
        return false;
      }
      ok := LoadFile(p);
    }

    /** Gives up the clusters of record p and marks it deleted. */
    method EraseRecord(p: nat)
      requires Valid() && IsFile(dir.bytes[..], p)
      modifies this`chains, table.fat, dir.bytes
      ensures Valid() && F.OthersSame(old(State()), State(), p) && !IsFile(dir.bytes[..], p)
    {
      ghost var v := State();
      F.NearlyWellFormed(v, p);
      F.FileParts(v, p);
      hide F.OthersSame, F.Owns, F.WellFormed, F.WellFormedBut, CanResize, ResizedChain, IsFile;
      CanShrink(v.fat, v.limit, v.chains[p]);
      var ok := ResizeFile(p, 0, 0);
      ghost var v1 := State();
      dir.PutDeleted(p);
      F.DeletedStep(v1, State(), p);
      F.OthersTransitive(v, v1, State(), p);
    }

    /** `deletefile` on the image; a file that does not exist is skipped. */
    method DeleteFile(name: seq<Byte>)
      requires Valid() && FileName(name)
      modifies this`chains, table.fat, dir.bytes
      ensures Valid() && Files() == old(Files()) - {name}
    {
      hide F.Owns, F.WellFormed, F.Content, F.Files, NamesUnique, F.Apart, F.OthersSame;
      ghost var v := State();
      var p := FindFile(name);
      if p < 0 {
        assert F.Files(v) == F.Files(v) - {name};
        return;
      }
      EraseRecord(p);
      F.FilesRemoved(v, State(), p, name);
    }

    // ----- Whole runs -----

    /** Puts bytes into the file buffer, as reading a file of the host does. */
    method LoadBuffer(bytes: seq<Byte>) returns (ok: bool)
      requires Valid()
      modifies this`lenFilebuf, filebuf
      ensures ok <==> |bytes| < filebuf.Length
      ensures ok ==> Valid() && State() == old(State()) && filebuf[..lenFilebuf] == bytes
    {
      hide F.WellFormed;
      if |bytes| >= filebuf.Length {
        return false;
      }
      for i := 0 to |bytes|
        invariant filebuf[..i] == bytes[..i]
      {
        filebuf[i] := bytes[i];
      }
      lenFilebuf := |bytes|;
      ok := true;
    }

    /** One command; `ok` is false where the program stops without an image. */
    method Execute(op: Command) returns (ok: bool)
      requires Valid() && WellFormedCommand(op)
      modifies this`lenFilebuf, this`chains, filebuf, table.fat, dir.bytes, data
      ensures ok <==> Succeeds(old(State()), op, filebuf.Length)
      ensures ok ==> Valid() && Files() == Effect(old(Files()), op)
      ensures ok && op.Read? ==> op.name in old(Files()) && filebuf[..lenFilebuf] == old(Files())[op.name]
    {
      hide F.WellFormed, F.Files, F.OthersSame;
      match op
      case Write(name, bytes, alloc0, asiz) =>
        ok := LoadBuffer(bytes);
        if ok { ok := WriteFile(name, alloc0, asiz); }
      case Overwrite(name, bytes, alloc0, asiz) =>
        ok := LoadBuffer(bytes);
        if ok { ok := OvrwriteFile(name, alloc0, asiz); }
      case Delete(name) =>
        DeleteFile(name);
        ok := true;
      case Read(name) =>
        ok := ReadFile(name);
    }

    /**
      A whole script: the volume means what the commands say, from the first to the last.  The program
      stops early only at a command that cannot succeed on the volume `last` reached by then.
     */
    method Run(ops: seq<Command>) returns (ok: bool, done: nat, ghost last: F.Volume)
      requires Valid() && forall i :: 0 <= i < |ops| ==> WellFormedCommand(ops[i])
      modifies this`lenFilebuf, this`chains, filebuf, table.fat, dir.bytes, data
      ensures done <= |ops| && ok == (done == |ops|)
      ensures F.WellFormed(last) && F.Files(last) == Effects(old(Files()), ops[..done])
      ensures ok ==> Valid() && State() == last && Files() == Effects(old(Files()), ops)
      ensures !ok ==> !Succeeds(last, ops[done], filebuf.Length)
    {
      hide F.WellFormed, F.Files, Effect, Succeeds;
      ok := true;
      var i := 0;
      while i < |ops|
        invariant 0 <= i <= |ops|
        invariant Valid() && Files() == Effects(old(Files()), ops[..i])
      {
        last := State();
        ok := Execute(ops[i]);
        if !ok {
          return false, i, last;
        }
        assert ops[..i + 1][..i] == ops[..i];
        i := i + 1;
      }
      assert ops[..i] == ops;
      done, last := i, State();
    }

    /**
      A script and then a read: when the script runs to its end, the buffer receives what the last storing
      command has left in the file, whatever the script did before it and to other files after it.
     */
    method RunThenRead(before: seq<Command>, op: Command, after: seq<Command>)
      returns (ran: bool, read: bool, ghost done: nat, ghost last: F.Volume)
      requires Valid() && (op.Write? || op.Overwrite?) && LeavesAlone(after, op.name)
      requires forall c :: c in before + [op] + after ==> WellFormedCommand(c)
      modifies this`lenFilebuf, this`chains, filebuf, table.fat, dir.bytes, data
      ensures F.WellFormed(last) && done <= |before + [op] + after|
      ensures F.Files(last) == Effects(old(Files()), (before + [op] + after)[..done])
      ensures ran == (done == |before + [op] + after|)
      ensures !ran ==> !read && !Succeeds(last, (before + [op] + after)[done], filebuf.Length)
      ensures ran ==> var bytes := LeftInFile(Effects(old(Files()), before), op);
        && (read <==> F.ChainOf(last, op.name) != [] && |bytes| + lenClu <= filebuf.Length)
        && (read ==> Valid() && State() == last && filebuf[..lenFilebuf] == bytes)
      ensures read ==>
                var (m, now) := (Effects(old(Files()), before), filebuf[..lenFilebuf]);
                var was := if op.name in m then m[op.name] else [];
                if op.Write? then now == op.bytes
                else |now| == (if |op.bytes| < |was| then |was| else |op.bytes|) &&
                     forall i :: 0 <= i < |now| ==> now[i] == if i < |op.bytes| then op.bytes[i] else was[i]
    {
      var ops := before + [op] + after;
      ghost var m := Files();
      hide F.WellFormed, F.Files, Effect, Effects, Succeeds, LeftInFile;
      assert WellFormedCommand(op) by { assert ops[|before|] == op; }
      read := false;
      ran, done, last := Run(ops);
      if ran {
        assert ops[..|ops|] == ops;
        LastWriteWins(m, before, op, after);
        LeftAt(Effects(m, before), op);
        read := ReadFile(op.name);
      }
    }
  }
}
