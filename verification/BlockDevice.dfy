/** The disk as a byte image, moved block by block; and the same image seen as clusters. */
module BlockDevice {
  import opened Layout

  const IMAGE_SIZE := 0x40_0000
  const BLOCK_COUNT := 0x2000

  function ClusterToLba(cluster: nat): nat {
    cluster * CLUSTER_BLOCK_COUNT
  }

  /** The image cut into clusters. */
  function Clusters(image: seq<byte>): Disk
    requires |image| == IMAGE_SIZE
  {
    seq<Cluster>(CLUSTER_COUNT, c requires 0 <= c < CLUSTER_COUNT =>
      image[CLUSTER_SIZE * c..CLUSTER_SIZE * c + CLUSTER_SIZE])
  }

  /** bytes with src stored from position at on. */
  function Patched(bytes: seq<byte>, at: nat, src: seq<byte>): seq<byte>
    requires at + |src| <= |bytes|
  {
    bytes[..at] + src + bytes[at + |src|..]
  }

  lemma PatchedNone(bytes: seq<byte>, at: nat)
    requires at <= |bytes|
    ensures Patched(bytes, at, []) == bytes
  {
  }

  lemma PatchedMore(bytes: seq<byte>, at: nat, a: seq<byte>, b: seq<byte>)
    requires at + |a| + |b| <= |bytes|
    ensures |Patched(bytes, at, a)| == |bytes|
    ensures Patched(Patched(bytes, at, a), at + |a|, b) == Patched(bytes, at, a + b)
  {
  }

  /** The blocks of different clusters do not overlap: storing one cluster changes that cluster only. */
  lemma StoreCluster(image: seq<byte>, c: nat, src: Cluster)
    requires |image| == IMAGE_SIZE && c < CLUSTER_COUNT
    ensures Clusters(Patched(image, CLUSTER_SIZE * c, src)) == Clusters(image)[c := src]
  {
    var after := Patched(image, CLUSTER_SIZE * c, src);
    forall d | 0 <= d < CLUSTER_COUNT
      ensures Clusters(after)[d] == Clusters(image)[c := src][d]
    {
      var lo := CLUSTER_SIZE * d;
      if d == c {
        assert after[lo..lo + CLUSTER_SIZE] == src;
      } else {
        assert after[lo..lo + CLUSTER_SIZE] == image[lo..lo + CLUSTER_SIZE];
      }
    }
  }

  /** memcpy into an array: byte by byte. */
  method MemCopy(dest: array<byte>, at: nat, src: seq<byte>)
    requires at + |src| <= dest.Length
    modifies dest
    ensures dest[..] == Patched(old(dest[..]), at, src)
  {
    for i := 0 to |src|
      invariant forall j :: 0 <= j < i ==> dest[at + j] == src[j]
      invariant forall j :: 0 <= j < dest.Length && !(at <= j < at + i) ==> dest[j] == old(dest[j])
    {
      dest[at + i] := src[i];
    }
    ghost var p := Patched(old(dest[..]), at, src);
    forall j | 0 <= j < dest.Length
      ensures dest[j] == p[j]
    {
      if at <= j < at + |src| { assert dest[at + (j - at)] == src[j - at]; }
    }
  }

  /** memcmp of two fields: 0 for equal bytes, else the order of the first difference. */
  method MemCompare(a: seq<byte>, b: seq<byte>) returns (r: int)
    requires |a| == |b|
    ensures r == 0 <==> a == b
    ensures r != 0 ==> exists i :: 0 <= i < |a| && a[..i] == b[..i] && (if r < 0 then a[i] < b[i] else a[i] > b[i])
  {
    for i := 0 to |a|
      invariant a[..i] == b[..i]
    {
      if a[i] < b[i] {
        return -1;
      } else if a[i] > b[i] {
        return 1;
      }
    }
    assert a == a[..|a|] && b == b[..|b|];
    return 0;
  }

  class Image {
    const bytes: array<byte>

    ghost predicate Valid() {
      bytes.Length == IMAGE_SIZE
    }

    ghost function View(): Disk
      requires Valid()
      reads bytes
    {
      Clusters(bytes[..])
    }

    constructor ()
      ensures Valid() && fresh(bytes) && View() == seq<Cluster>(CLUSTER_COUNT, _ => BLANK)
    {
      bytes := new byte[IMAGE_SIZE](_ => 0);
      new;
      forall c | 0 <= c < CLUSTER_COUNT
        ensures View()[c] == BLANK
      {
        var b := bytes[CLUSTER_SIZE * c..CLUSTER_SIZE * c + CLUSTER_SIZE];
        assert forall k :: 0 <= k < CLUSTER_SIZE ==> b[k] == 0;
      }
    }

    method ReadBlocks(dest: array<byte>, at: nat, lba: nat, count: nat)
      requires Valid() && dest != bytes && lba + count <= BLOCK_COUNT && at + BLOCK_SIZE * count <= dest.Length
      modifies dest
      ensures dest[..] == Patched(old(dest[..]), at, bytes[BLOCK_SIZE * lba..BLOCK_SIZE * (lba + count)])
    {
      hide Patched;
      ghost var src := bytes[BLOCK_SIZE * lba..BLOCK_SIZE * (lba + count)];
      PatchedNone(dest[..], at);
      assert src[..BLOCK_SIZE * 0] == [];
      for i := 0 to count
        invariant dest[..] == Patched(old(dest[..]), at, src[..BLOCK_SIZE * i])
      {
        var block := bytes[BLOCK_SIZE * (lba + i)..BLOCK_SIZE * (lba + i) + BLOCK_SIZE];
        MemCopy(dest, at + BLOCK_SIZE * i, block);
        PatchedMore(old(dest[..]), at, src[..BLOCK_SIZE * i], block);
        assert src[..BLOCK_SIZE * (i + 1)] == src[..BLOCK_SIZE * i] + block;
      }
      assert src[..BLOCK_SIZE * count] == src;
    }

    method WriteBlocks(src: seq<byte>, lba: nat, count: nat)
      requires Valid() && lba + count <= BLOCK_COUNT && |src| == BLOCK_SIZE * count
      modifies bytes
      ensures bytes[..] == Patched(old(bytes[..]), BLOCK_SIZE * lba, src)
    {
      hide Patched;
      PatchedNone(bytes[..], BLOCK_SIZE * lba);
      assert src[..BLOCK_SIZE * 0] == [];
      for i := 0 to count
        invariant bytes[..] == Patched(old(bytes[..]), BLOCK_SIZE * lba, src[..BLOCK_SIZE * i])
      {
        var block := src[BLOCK_SIZE * i..BLOCK_SIZE * i + BLOCK_SIZE];
        MemCopy(bytes, BLOCK_SIZE * (lba + i), block);
        PatchedMore(old(bytes[..]), BLOCK_SIZE * lba, src[..BLOCK_SIZE * i], block);
        assert src[..BLOCK_SIZE * (i + 1)] == src[..BLOCK_SIZE * i] + block;
      }
      assert src[..BLOCK_SIZE * count] == src;
    }

    method ReadCluster(dest: array<byte>, at: nat, cluster: nat)
      requires Valid() && dest != bytes && cluster < CLUSTER_COUNT && at + CLUSTER_SIZE <= dest.Length
      modifies dest
      ensures dest[..] == Patched(old(dest[..]), at, View()[cluster])
    {
      ReadBlocks(dest, at, ClusterToLba(cluster), CLUSTER_BLOCK_COUNT);
    }

    method WriteCluster(src: Cluster, cluster: nat)
      requires Valid() && cluster < CLUSTER_COUNT
      modifies bytes
      ensures View() == old(View())[cluster := src]
    {
      WriteBlocks(src, ClusterToLba(cluster), CLUSTER_BLOCK_COUNT);
      StoreCluster(old(bytes[..]), cluster, src);
    }
  }
}
