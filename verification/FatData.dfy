/**
  The data area of a FAT volume: clusters of `lenClu` bytes, numbered from 2, and the contents of a
  chain of clusters.
 */
module FatData {
  import opened Basics
  import opened FatDirectory

  /** Every cluster below `limit` lies in the data area. */
  ghost predicate Holds(data: seq<Byte>, lenClu: nat, limit: nat) {
    lenClu > 0 && limit >= 2 && (limit - 2) * lenClu <= |data|
  }

  lemma ClusterInside(size: nat, lenClu: nat, limit: nat, c: nat)
    requires limit >= 2 && (limit - 2) * lenClu <= size && 2 <= c < limit
    ensures 0 <= (c - 2) * lenClu
    ensures (c - 2) * lenClu + lenClu <= size
  {
    MulMono(c - 1, limit - 2, lenClu);
    assert (c - 1) * lenClu == (c - 2) * lenClu + lenClu;
  }

  function Cluster(data: seq<Byte>, lenClu: nat, limit: nat, c: nat): (r: seq<Byte>)
    requires limit >= 2 && (limit - 2) * lenClu <= |data| && 2 <= c < limit
    ensures |r| == lenClu
  {
    ClusterInside(|data|, lenClu, limit, c);
    data[(c - 2) * lenClu..(c - 2) * lenClu + lenClu]
  }

  /** The bytes of a chain, cluster after cluster. */
  ghost function ChainBytes(data: seq<Byte>, lenClu: nat, limit: nat, cs: seq<nat>): seq<Byte>
    requires Holds(data, lenClu, limit) && Below(limit, cs)
  {
    if cs == [] then [] else Cluster(data, lenClu, limit, cs[0]) + ChainBytes(data, lenClu, limit, cs[1..])
  }

  ghost predicate Below(limit: nat, cs: seq<nat>) {
    forall i :: 0 <= i < |cs| ==> 2 <= cs[i] < limit
  }

  lemma {:induction false} ChainBytesLength(data: seq<Byte>, lenClu: nat, limit: nat, cs: seq<nat>)
    requires Holds(data, lenClu, limit) && Below(limit, cs)
    ensures |ChainBytes(data, lenClu, limit, cs)| == |cs| * lenClu
  {
    if cs != [] {
      ChainBytesLength(data, lenClu, limit, cs[1..]);
      assert |cs| * lenClu == (|cs| - 1) * lenClu + lenClu;
    }
  }

  lemma {:induction false} ChainBytesSplit(data: seq<Byte>, lenClu: nat, limit: nat, cs: seq<nat>, k: nat)
    requires Holds(data, lenClu, limit) && Below(limit, cs) && k <= |cs|
    ensures ChainBytes(data, lenClu, limit, cs)
         == ChainBytes(data, lenClu, limit, cs[..k]) + ChainBytes(data, lenClu, limit, cs[k..])
  {
    if k > 0 {
      ChainBytesSplit(data, lenClu, limit, cs[1..], k - 1);
      assert cs[..k][1..] == cs[1..][..k - 1];
      assert cs[k..] == cs[1..][k - 1..];
    } else {
      assert cs[..0] == [] && cs[0..] == cs;
    }
  }

  lemma ChainBytesNext(data: seq<Byte>, lenClu: nat, limit: nat, cs: seq<nat>, k: nat)
    requires Holds(data, lenClu, limit) && Below(limit, cs) && k < |cs|
    ensures ChainBytes(data, lenClu, limit, cs[..k + 1])
         == ChainBytes(data, lenClu, limit, cs[..k]) + Cluster(data, lenClu, limit, cs[k])
    ensures ChainBytes(data, lenClu, limit, cs[k..])
         == Cluster(data, lenClu, limit, cs[k]) + ChainBytes(data, lenClu, limit, cs[k + 1..])
  {
    ChainBytesSplit(data, lenClu, limit, cs[..k + 1], k);
    assert cs[..k + 1][..k] == cs[..k] && cs[..k + 1][k..] == [cs[k]];
    assert ChainBytes(data, lenClu, limit, [cs[k]]) == Cluster(data, lenClu, limit, cs[k]) + [];
    assert cs[k..][1..] == cs[k + 1..];
  }

  /** Only the clusters of the chain matter. */
  lemma {:induction false} ChainBytesKept(data: seq<Byte>, data': seq<Byte>, lenClu: nat, limit: nat, cs: seq<nat>)
    requires Holds(data, lenClu, limit) && Holds(data', lenClu, limit) && Below(limit, cs)
    requires forall i :: 0 <= i < |cs| ==> Cluster(data', lenClu, limit, cs[i]) == Cluster(data, lenClu, limit, cs[i])
    ensures ChainBytes(data', lenClu, limit, cs) == ChainBytes(data, lenClu, limit, cs)
  {
    if cs != [] {
      ChainBytesKept(data, data', lenClu, limit, cs[1..]);
    }
  }

  /** Changing bytes inside one cluster leaves the others alone. */
  lemma OtherClusters(data: seq<Byte>, data': seq<Byte>, lenClu: nat, limit: nat, c: nat, x: nat)
    requires Holds(data, lenClu, limit) && |data'| == |data| && 2 <= c < limit && 2 <= x < limit && x != c
    requires forall i :: 0 <= i < |data| && !((c - 2) * lenClu <= i < (c - 2) * lenClu + lenClu) ==> data'[i] == data[i]
    ensures Cluster(data', lenClu, limit, x) == Cluster(data, lenClu, limit, x)
  {
    ClusterInside(|data|, lenClu, limit, x);
    if x < c {
      MulMono(x - 1, c - 2, lenClu);
      assert (x - 1) * lenClu == (x - 2) * lenClu + lenClu;
    } else {
      MulMono(c - 1, x - 2, lenClu);
      assert (c - 1) * lenClu == (c - 2) * lenClu + lenClu;
    }
    var o := (x - 2) * lenClu;
    assert data'[o..o + lenClu] == data[o..o + lenClu];
  }
}
