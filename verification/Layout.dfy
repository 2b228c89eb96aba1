/** The bytes of one cluster, read either as 64 directory rows of 32 bytes or as 512
    little-endian FAT cells.  The driver overlays packed structs on the same memory;
    here the overlays are codecs, and each codec is shown to be a bijection. */
module Layout {
  import opened Words

  type byte = b: int | 0 <= b < 0x100

  const BLOCK_SIZE := 512
  const CLUSTER_BLOCK_COUNT := 4
  const CLUSTER_SIZE := 2048
  const CLUSTER_MAP_SIZE := 512
  const ROW_COUNT := 64
  const ROW_SIZE := 32

  const CLUSTER_0_VALUE: u32 := 0x0FFF_FFF0
  const CLUSTER_1_VALUE: u32 := 0x0FFF_FFFF
  const END_OF_FILE: u32 := 0x0FFF_FFFF
  const EMPTY_ENTRY: u32 := 0
  const FAT_CLUSTER_NUMBER := 1
  const ROOT_CLUSTER_NUMBER := 2
  const ATTR_SUBDIRECTORY: byte := 0x10
  const UATTR_NOT_EMPTY: byte := 0xAA

  /** The image file has 4 MiB, that is 0x800 clusters. */
  const CLUSTER_COUNT := 0x800

  function Zeros(n: nat): (z: seq<byte>)
    ensures |z| == n
  {
    seq(n, _ => 0)
  }

  type Cluster = c: seq<byte> | |c| == CLUSTER_SIZE witness Zeros(CLUSTER_SIZE)
  type Disk = d: seq<Cluster> | |d| == CLUSTER_COUNT witness seq<Cluster>(CLUSTER_COUNT, _ => BLANK)
  type Fat = f: seq<u32> | |f| == CLUSTER_MAP_SIZE witness seq(CLUSTER_MAP_SIZE, _ => 0)
  type Table = t: seq<Row> | |t| == ROW_COUNT witness seq(ROW_COUNT, _ => EMPTY_ROW)
  type Name = s: seq<byte> | |s| == 8 witness [0, 0, 0, 0, 0, 0, 0, 0]
  type Ext = s: seq<byte> | |s| == 3 witness [0, 0, 0]
  type Pad4 = s: seq<byte> | |s| == 4 witness [0, 0, 0, 0]
  type Pad7 = s: seq<byte> | |s| == 7 witness [0, 0, 0, 0, 0, 0, 0]

  const BLANK: Cluster := Zeros(CLUSTER_SIZE)
  const NO_NAME: Name := [0, 0, 0, 0, 0, 0, 0, 0]
  const NO_EXT: Ext := [0, 0, 0]

  /** A directory entry.  `times` and `modified` hold the unused fields around cluster_high. */
  datatype Row = Row(name: Name, ext: Ext, attribute: byte, userAttribute: byte,
                     times: Pad7, clusterHigh: u16, modified: Pad4, clusterLow: u16, filesize: u32)

  const EMPTY_ROW := Row(NO_NAME, NO_EXT, 0, 0, [0, 0, 0, 0, 0, 0, 0], 0, [0, 0, 0, 0], 0, 0)

  // ----- little-endian numbers

  function WordOf(b: seq<byte>): u16
    requires |b| == 2
  {
    b[0] as int + 0x100 * b[1] as int
  }

  function DwordOf(b: seq<byte>): u32
    requires |b| == 4
  {
    b[0] as int + 0x100 * b[1] as int + 0x1_0000 * b[2] as int + 0x100_0000 * b[3] as int
  }

  function WordBytes(x: u16): (b: seq<byte>)
    ensures |b| == 2 && WordOf(b) == x
  {
    [x % 0x100, x / 0x100]
  }

  function DwordBytes(x: u32): (b: seq<byte>)
    ensures |b| == 4 && DwordOf(b) == x
  {
    var x1: int := x / 0x100;
    var x2: int := x1 / 0x100;
    [x % 0x100, x1 % 0x100, x2 % 0x100, x2 / 0x100]
  }

  lemma DigitUnique(a: byte, x: int, b: byte, y: int)
    requires a + 0x100 * x == b + 0x100 * y
    ensures a == b && x == y
  {
  }

  lemma WordInverse(b: seq<byte>)
    requires |b| == 2
    ensures WordBytes(WordOf(b)) == b
  {
    var d := WordBytes(WordOf(b));
    DigitUnique(b[0], b[1], d[0], d[1]);
  }

  lemma DwordInverse(b: seq<byte>)
    requires |b| == 4
    ensures DwordBytes(DwordOf(b)) == b
  {
    DwordInjective(b, DwordBytes(DwordOf(b)));
  }

  lemma DwordInjective(a: seq<byte>, b: seq<byte>)
    requires |a| == 4 && |b| == 4 && DwordOf(a) == DwordOf(b)
    ensures a == b
  {
    var x2: int, y2: int := a[2] as int + 0x100 * a[3] as int, b[2] as int + 0x100 * b[3] as int;
    var x1: int, y1: int := a[1] as int + 0x100 * x2, b[1] as int + 0x100 * y2;
    DigitUnique(a[0], x1, b[0], y1);
    DigitUnique(a[1], x2, b[1], y2);
    DigitUnique(a[2], a[3], b[2], b[3]);
  }

  lemma DivMod32(i: nat, k: nat)
    requires k < 32
    ensures (32 * i + k) / 32 == i && (32 * i + k) % 32 == k
  {
  }

  lemma DivMod4(i: nat, k: nat)
    requires k < 4
    ensures (4 * i + k) / 4 == i && (4 * i + k) % 4 == k
  {
  }

  // ----- directory tables

  function RowAt(c: Cluster, i: nat): Row
    requires i < ROW_COUNT
  {
    var o := ROW_SIZE * i;
    Row(c[o..o + 8], c[o + 8..o + 11], c[o + 11], c[o + 12], c[o + 13..o + 20], WordOf(c[o + 20..o + 22]),
        c[o + 22..o + 26], WordOf(c[o + 26..o + 28]), DwordOf(c[o + 28..o + 32]))
  }

  function TableOf(c: Cluster): Table {
    seq(ROW_COUNT, i requires 0 <= i < ROW_COUNT => RowAt(c, i))
  }

  function RowBytes(r: Row): (b: seq<byte>)
    ensures |b| == ROW_SIZE
  {
    r.name + r.ext + [r.attribute, r.userAttribute] + r.times + WordBytes(r.clusterHigh)
    + r.modified + WordBytes(r.clusterLow) + DwordBytes(r.filesize)
  }

  function TableBytes(t: Table): Cluster {
    seq(CLUSTER_SIZE, j requires 0 <= j < CLUSTER_SIZE => RowBytes(t[j / ROW_SIZE])[j % ROW_SIZE])
  }

  lemma TableBytesSlice(t: Table, i: nat)
    requires i < ROW_COUNT
    ensures TableBytes(t)[ROW_SIZE * i..ROW_SIZE * i + ROW_SIZE] == RowBytes(t[i])
  {
    var o := ROW_SIZE * i;
    var slice := TableBytes(t)[o..o + ROW_SIZE];
    forall k | 0 <= k < ROW_SIZE
      ensures slice[k] == RowBytes(t[i])[k]
    {
      DivMod32(i, k);
      assert slice[k] == TableBytes(t)[o + k];
    }
  }

  /** Decoding an encoded table gives the table back. */
  lemma TableRoundTrip(t: Table)
    ensures TableOf(TableBytes(t)) == t
  {
    forall i | 0 <= i < ROW_COUNT
      ensures RowAt(TableBytes(t), i) == t[i]
    {
      TableBytesSlice(t, i);
      RowSlice(TableBytes(t), i, t[i]);
    }
  }

  lemma RowSlice(c: Cluster, i: nat, r: Row)
    requires i < ROW_COUNT
    requires c[ROW_SIZE * i..ROW_SIZE * i + ROW_SIZE] == RowBytes(r)
    ensures RowAt(c, i) == r
  {
    var o, b := ROW_SIZE * i, RowBytes(r);
    RowRoundTrip(c, i);
    var r' := RowAt(c, i);
    assert RowBytes(r') == b;
    assert r'.name == b[..8] == r.name;
    assert r'.ext == b[8..11] == r.ext;
    assert r'.attribute == b[11] == r.attribute && r'.userAttribute == b[12] == r.userAttribute;
    assert r'.times == b[13..20] == r.times;
    assert WordBytes(r'.clusterHigh) == b[20..22] == WordBytes(r.clusterHigh);
    assert r'.modified == b[22..26] == r.modified;
    assert WordBytes(r'.clusterLow) == b[26..28] == WordBytes(r.clusterLow);
    assert DwordBytes(r'.filesize) == b[28..32] == DwordBytes(r.filesize);
  }

  /** Encoding a decoded cluster gives the same bytes back: a table holds all of its cluster. */
  lemma ClusterRoundTrip(c: Cluster)
    ensures TableBytes(TableOf(c)) == c
  {
    forall j | 0 <= j < CLUSTER_SIZE
      ensures TableBytes(TableOf(c))[j] == c[j]
    {
      var i, k := j / ROW_SIZE, j % ROW_SIZE;
      RowRoundTrip(c, i);
      assert j == ROW_SIZE * i + k;
      assert RowBytes(RowAt(c, i))[k] == c[ROW_SIZE * i..ROW_SIZE * i + ROW_SIZE][k];
    }
  }

  lemma RowRoundTrip(c: Cluster, i: nat)
    requires i < ROW_COUNT
    ensures RowBytes(RowAt(c, i)) == c[ROW_SIZE * i..ROW_SIZE * i + ROW_SIZE]
  {
    var o := ROW_SIZE * i;
    WordInverse(c[o + 20..o + 22]);
    WordInverse(c[o + 26..o + 28]);
    DwordInverse(c[o + 28..o + 32]);
    var r := RowAt(c, i);
    assert [r.attribute, r.userAttribute] == c[o + 11..o + 13];
    assert RowBytes(r) == c[o..o + 8] + c[o + 8..o + 11] + c[o + 11..o + 13] + c[o + 13..o + 20]
                          + c[o + 20..o + 22] + c[o + 22..o + 26] + c[o + 26..o + 28] + c[o + 28..o + 32];
  }

  // ----- the file allocation table

  function FatOf(c: Cluster): Fat {
    seq(CLUSTER_MAP_SIZE, i requires 0 <= i < CLUSTER_MAP_SIZE => DwordOf(c[4 * i..4 * i + 4]))
  }

  function FatBytes(f: Fat): Cluster {
    seq(CLUSTER_SIZE, j requires 0 <= j < CLUSTER_SIZE => DwordBytes(f[j / 4])[j % 4])
  }

  lemma FatBytesSlice(f: Fat, i: nat)
    requires i < CLUSTER_MAP_SIZE
    ensures FatBytes(f)[4 * i..4 * i + 4] == DwordBytes(f[i])
  {
    var slice := FatBytes(f)[4 * i..4 * i + 4];
    forall k | 0 <= k < 4
      ensures slice[k] == DwordBytes(f[i])[k]
    {
      DivMod4(i, k);
      assert slice[k] == FatBytes(f)[4 * i + k];
    }
  }

  /** Decoding an encoded FAT gives the FAT back. */
  lemma FatRoundTrip(f: Fat)
    ensures FatOf(FatBytes(f)) == f
  {
    forall i | 0 <= i < CLUSTER_MAP_SIZE
      ensures DwordOf(FatBytes(f)[4 * i..4 * i + 4]) == f[i]
    {
      FatBytesSlice(f, i);
    }
  }

  /** Encoding a decoded cluster gives the same bytes back: the FAT fills its cluster. */
  lemma FatClusterRoundTrip(c: Cluster)
    ensures FatBytes(FatOf(c)) == c
  {
    forall j | 0 <= j < CLUSTER_SIZE
      ensures FatBytes(FatOf(c))[j] == c[j]
    {
      var i := j / 4;
      DwordInverse(c[4 * i..4 * i + 4]);
      assert j == 4 * i + j % 4;
    }
  }

  // ----- where the fields lie

  /** Every field of a row lies at its offset in the packed structure, the numbers low byte first. */
  lemma RowOffsets(t: Table, i: nat)
    requires i < ROW_COUNT
    ensures var b, o, r := TableBytes(t), 32 * i, t[i];
      && b[o..o + 8] == r.name && b[o + 8..o + 11] == r.ext
      && b[o + 11] == r.attribute && b[o + 12] == r.userAttribute
      && b[o + 13..o + 20] == r.times
      && b[o + 20] as int + 0x100 * b[o + 21] as int == r.clusterHigh
      && b[o + 22..o + 26] == r.modified
      && b[o + 26] as int + 0x100 * b[o + 27] as int == r.clusterLow
      && b[o + 28] as int + 0x100 * b[o + 29] as int + 0x1_0000 * b[o + 30] as int + 0x100_0000 * b[o + 31] as int == r.filesize
  {
    hide TableBytes;
    TableBytesSlice(t, i);
    var s := TableBytes(t)[32 * i..32 * i + 32];
    RowBytesAt(t[i]);
    SliceOf(TableBytes(t), 32 * i, s);
  }

  lemma RowBytesAt(r: Row)
    ensures var s := RowBytes(r);
      && s[..8] == r.name && s[8..11] == r.ext && s[11] == r.attribute && s[12] == r.userAttribute
      && s[13..20] == r.times && s[22..26] == r.modified
      && s[20] as int + 0x100 * s[21] as int == r.clusterHigh && s[26] as int + 0x100 * s[27] as int == r.clusterLow
      && s[28] as int + 0x100 * s[29] as int + 0x1_0000 * s[30] as int + 0x100_0000 * s[31] as int == r.filesize
  {
    var s := RowBytes(r);
    assert s[20..22] == WordBytes(r.clusterHigh) && s[26..28] == WordBytes(r.clusterLow);
    assert s[28..32] == DwordBytes(r.filesize);
  }

  lemma SliceOf(b: seq<byte>, o: nat, s: seq<byte>)
    requires o + 32 <= |b| && s == b[o..o + 32]
    ensures forall k :: 0 <= k < 32 ==> b[o + k] == s[k]
    ensures b[o..o + 8] == s[..8] && b[o + 8..o + 11] == s[8..11]
    ensures b[o + 13..o + 20] == s[13..20] && b[o + 22..o + 26] == s[22..26]
  {
  }

  /** Cell i of the map lies in bytes 4 i to 4 i + 3 of its cluster, low byte first. */
  lemma CellOffsets(f: Fat, i: nat)
    requires i < CLUSTER_MAP_SIZE
    ensures var b, o := FatBytes(f), 4 * i;
      b[o] as int + 0x100 * b[o + 1] as int + 0x1_0000 * b[o + 2] as int + 0x100_0000 * b[o + 3] as int == f[i]
  {
    FatBytesSlice(f, i);
    var s := FatBytes(f)[4 * i..4 * i + 4];
    assert s == DwordBytes(f[i]);
  }
}
