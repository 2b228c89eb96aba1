/** The file system as a state machine over values: the disk image as a sequence of clusters and
    the cached FAT.  Each operation says what one call leaves on the disk and in the cache, with
    the error returns in the order the driver tests them. */
module FileSystem {
  import opened Words
  import opened Layout
  import opened Chains

  datatype State = State(disk: Disk, fat: Fat)

  /** A driver request.  For a write, buf is the source buffer; reads and deletes ignore it. */
  datatype Request = Request(parent: u32, name: Name, ext: Ext, size: u32, buf: seq<byte>)

  /** What a call leaves behind, its return code, and (for a read) the bytes put into the buffer. */
  datatype Reply = Reply(st: State, code: int, data: seq<byte>)

  /** "Course", "Designed by", "Lab Sister ITB", "Made with <3" and "-----------2024", 16 bytes each. */
  const LINE_1: seq<byte> := [0x43, 0x6F, 0x75, 0x72, 0x73, 0x65, 0x20, 0x20, 0x20, 0x20, 0x20, 0x20, 0x20, 0x20, 0x20, 0x20]
  const LINE_2: seq<byte> := [0x44, 0x65, 0x73, 0x69, 0x67, 0x6E, 0x65, 0x64, 0x20, 0x62, 0x79, 0x20, 0x20, 0x20, 0x20, 0x20]
  const LINE_3: seq<byte> := [0x4C, 0x61, 0x62, 0x20, 0x53, 0x69, 0x73, 0x74, 0x65, 0x72, 0x20, 0x49, 0x54, 0x42, 0x20, 0x20]
  const LINE_4: seq<byte> := [0x4D, 0x61, 0x64, 0x65, 0x20, 0x77, 0x69, 0x74, 0x68, 0x20, 0x3C, 0x33, 0x20, 0x20, 0x20, 0x20]
  const LINE_5: seq<byte> := [0x2D, 0x2D, 0x2D, 0x2D, 0x2D, 0x2D, 0x2D, 0x2D, 0x2D, 0x2D, 0x2D, 0x32, 0x30, 0x32, 0x34, 0x0A]

  /** The first block of a formatted disk. */
  function Signature(): (b: seq<byte>)
    ensures |b| == BLOCK_SIZE
  {
    LINE_1 + LINE_2 + LINE_3 + LINE_4 + LINE_5 + Zeros(BLOCK_SIZE - 82) + [0x4F, 0x6B]
  }

  // ----- rows

  predicate Flagged(r: Row) {
    r.userAttribute == UATTR_NOT_EMPTY
  }

  predicate IsFolder(r: Row) {
    r.attribute == ATTR_SUBDIRECTORY
  }

  predicate IsDirectoryHead(r: Row) {
    Flagged(r) && IsFolder(r)
  }

  function Start(r: Row): u32 {
    0x1_0000 * r.clusterHigh + r.clusterLow
  }

  function Entry(name: Name, ext: Ext, attribute: byte, cluster: u32, size: u32): (e: Row)
    ensures Start(e) == cluster
  {
    Row(name, ext, attribute, UATTR_NOT_EMPTY, [0, 0, 0, 0, 0, 0, 0], cluster / 0x1_0000,
        [0, 0, 0, 0], cluster % 0x1_0000, size)
  }

  function Erased(r: Row): Row {
    r.(name := NO_NAME, ext := NO_EXT, attribute := 0, userAttribute := 0)
  }

  predicate SameKey(row: Row, name: Name, ext: Ext) {
    row.name == name && row.ext == ext
  }

  /** The duplicate test of a write: two extensions that begin with NUL also count as equal. */
  predicate Collides(row: Row, name: Name, ext: Ext) {
    row.name == name && (row.ext == ext || (ext[0] == 0 && row.ext[0] == 0))
  }

  predicate Clash(t: Table, name: Name, ext: Ext) {
    exists i :: 0 <= i < ROW_COUNT - 1 && Collides(t[i], name, ext)
  }

  /** The last row below n that is not flagged, or 0. */
  function FreeRow(t: Table, n: nat): (i: nat)
    requires n < ROW_COUNT
    ensures i < ROW_COUNT - 1
    ensures i == 0 || !Flagged(t[i])
  {
    if n == 0 then 0 else if !Flagged(t[n - 1]) then n - 1 else FreeRow(t, n - 1)
  }

  /** The first row from i on with this key (and, if asked for, the flag), or ROW_COUNT. */
  function Find(t: Table, i: nat, name: Name, ext: Ext, flagged: bool): (r: nat)
    requires i <= ROW_COUNT
    ensures i <= r <= ROW_COUNT
    ensures r < ROW_COUNT ==> SameKey(t[r], name, ext) && (flagged ==> Flagged(t[r]))
    ensures forall j :: i <= j < r ==> !(SameKey(t[j], name, ext) && (flagged ==> Flagged(t[j])))
    decreases ROW_COUNT - i
  {
    if i == ROW_COUNT then ROW_COUNT
    else if SameKey(t[i], name, ext) && (flagged ==> Flagged(t[i])) then i
    else Find(t, i + 1, name, ext, flagged)
  }

  predicate AnyFlagged(t: Table) {
    exists i :: 1 <= i < ROW_COUNT && Flagged(t[i])
  }

  /** The flag a write sets in the row whose index is the parent's cluster number.
      Rows from ROW_COUNT on lie in the cluster buffer behind the table, which nothing reads. */
  function FlagRow(t: Table, p: nat): Table {
    if p < ROW_COUNT then t[p := t[p].(userAttribute := UATTR_NOT_EMPTY)] else t
  }

  // ----- operations

  function ClustersFor(size: u32): nat {
    size / CLUSTER_SIZE + if size % CLUSTER_SIZE != 0 then 1 else 0
  }

  /** Whole clusters: as few as hold the size. */
  lemma ClustersCover(size: u32)
    ensures (ClustersFor(size) - 1) * 2048 < size <= ClustersFor(size) * 2048
  {
  }

  /** The disk has the parent cluster, and the buffer holds whole clusters. */
  predicate Fits(r: Request) {
    r.parent < CLUSTER_COUNT && |r.buf| == CLUSTER_SIZE * ClustersFor(r.size)
  }

  /** The call gets past the tests for a valid parent and a free name. */
  predicate PassesChecks(s: State, r: Request)
    requires r.parent < CLUSTER_COUNT
  {
    var t := TableOf(s.disk[r.parent]);
    IsDirectoryHead(t[0]) && !Clash(t, r.name, r.ext)
  }

  function Needed(r: Request): nat {
    if r.size == 0 then 1 else ClustersFor(r.size)
  }

  /** The clusters a write claims: the first Needed(r) free ones. */
  function Claim(s: State, r: Request): (cs: seq<nat>)
    requires Needed(r) <= |FreeCells(FatOf(s.disk[FAT_CLUSTER_NUMBER]), 0)|
    ensures |cs| == Needed(r) > 0 && InMap(cs) && Distinct(cs)
    ensures forall c :: c in cs ==> FatOf(s.disk[FAT_CLUSTER_NUMBER])[c] == EMPTY_ENTRY
  {
    FirstFit(FatOf(s.disk[FAT_CLUSTER_NUMBER]), Needed(r));
    FreeCells(FatOf(s.disk[FAT_CLUSTER_NUMBER]), 0)[..Needed(r)]
  }

  function Write(s: State, r: Request): Reply
    requires Fits(r)
  {
    var f := FatOf(s.disk[FAT_CLUSTER_NUMBER]);
    var t := TableOf(s.disk[r.parent]);
    if !IsDirectoryHead(t[0]) then Reply(s, 2, [])
    else if Clash(t, r.name, r.ext) then Reply(s, 1, [])
    else if Needed(r) > |FreeCells(f, 0)| then Reply(s.(fat := f), -1, [])
    else if r.size == 0 then Reply(MakeFolder(s, r, Claim(s, r)[0]), 0, [])
    else Reply(StoreFile(s, r, Claim(s, r)), 0, [])
  }

  /** Where a write reaches past the driver's arrays: a parent from 128 on puts the flag of line 233 behind
      the table and the cluster buffer; and a search bounded beyond the map does not stop in time when
      clusters run short. */
  predicate LeavesMemory(s: State, r: Request, scanLimit: nat)
    requires r.parent < CLUSTER_COUNT
  {
    && PassesChecks(s, r)
    && (r.parent >= 2 * ROW_COUNT
        || (scanLimit > CLUSTER_MAP_SIZE && Needed(r) > |FreeCells(FatOf(s.disk[FAT_CLUSTER_NUMBER]), 0)|))
  }

  /** The parent's table after a write: the flag, then the new entry in the free row. */
  function Entered(t: Table, r: Request, attribute: byte, cluster: nat): Table
    requires cluster < CLUSTER_MAP_SIZE
  {
    FlagRow(t, r.parent)[FreeRow(t, ROW_COUNT - 1) := Entry(r.name, r.ext, attribute, cluster, r.size)]
  }

  function StoreFile(s: State, r: Request, cs: seq<nat>): State
    requires Fits(r) && 0 < |cs| == ClustersFor(r.size) && InMap(cs)
  {
    var f := Link(FatOf(s.disk[FAT_CLUSTER_NUMBER]), cs);
    var t := Entered(TableOf(s.disk[r.parent]), r, 0, cs[0]);
    State(Scatter(s.disk[FAT_CLUSTER_NUMBER := FatBytes(f)][r.parent := TableBytes(t)], cs, r.buf), f)
  }

  function MakeFolder(s: State, r: Request, c: nat): State
    requires Fits(r) && c < CLUSTER_MAP_SIZE
  {
    var f := Link(FatOf(s.disk[FAT_CLUSTER_NUMBER]), [c]);
    var t := Entered(TableOf(s.disk[r.parent]), r, ATTR_SUBDIRECTORY, c);
    var d := s.disk[FAT_CLUSTER_NUMBER := FatBytes(f)][r.parent := TableBytes(t)];
    var child := TableOf(d[c])[0 := Entry(r.name, r.ext, ATTR_SUBDIRECTORY, r.parent, r.size)];
    State(d[c := TableBytes(child)], f)
  }

  /** Where the request's key is found, ROW_COUNT if nowhere. */
  function FoundAt(s: State, r: Request, flagged: bool): nat
    requires r.parent < CLUSTER_COUNT
  {
    Find(TableOf(s.disk[r.parent]), 1, r.name, r.ext, flagged)
  }

  ghost predicate WalkEnds(f: Fat, start: int) {
    start == END_OF_FILE || HasChain(f, start)
  }

  /** The clusters the read loop visits. */
  ghost function Walk(f: Fat, start: int): (cs: seq<nat>)
    requires WalkEnds(f, start)
    ensures InMap(cs)
  {
    if start == END_OF_FILE then [] else ChainFrom(f, start)
  }

  /** A read that gets to its copying loop finds a chain that ends. */
  ghost predicate ReadEnds(s: State, r: Request)
    requires r.parent < CLUSTER_COUNT
  {
    var t := TableOf(s.disk[r.parent]);
    var i := FoundAt(s, r, false);
    Flagged(t[0]) && i < ROW_COUNT && t[i].attribute != 1 && t[i].filesize <= r.size ==>
      WalkEnds(FatOf(s.disk[FAT_CLUSTER_NUMBER]), Start(t[i]))
  }

  /** The row a read copies starts at END_OF_FILE or at a cell in use. */
  predicate ReadStartsInUse(s: State, r: Request)
    requires r.parent < CLUSTER_COUNT
  {
    var t := TableOf(s.disk[r.parent]);
    var i := FoundAt(s, r, false);
    Flagged(t[0]) && i < ROW_COUNT && t[i].attribute != 1 && t[i].filesize <= r.size ==>
      Start(t[i]) == END_OF_FILE || InUse(FatOf(s.disk[FAT_CLUSTER_NUMBER]), Start(t[i]))
  }

  ghost function Read(s: State, r: Request): Reply
    requires r.parent < CLUSTER_COUNT && ReadEnds(s, r)
  {
    var t := TableOf(s.disk[r.parent]);
    var f := FatOf(s.disk[FAT_CLUSTER_NUMBER]);
    var i := FoundAt(s, r, false);
    if !Flagged(t[0]) then Reply(s, -1, [])
    else if i == ROW_COUNT then Reply(s.(fat := f), 3, [])
    else if t[i].attribute == 1 then Reply(s.(fat := f), 1, [])
    else if t[i].filesize > r.size then Reply(s.(fat := f), 2, [])
    else Reply(s.(fat := f), 0, Gather(s.disk, Walk(f, Start(t[i]))))
  }

  /** A delete that gets to the FAT finds a chain that ends, or a directory cluster in the map. */
  ghost predicate DeleteEnds(s: State, r: Request)
    requires r.parent < CLUSTER_COUNT
  {
    var t := TableOf(s.disk[r.parent]);
    var i := FoundAt(s, r, true);
    IsDirectoryHead(t[0]) && i < ROW_COUNT ==>
      if !IsFolder(t[i]) then HasChain(s.fat, Start(t[i]))
      else Start(t[i]) < CLUSTER_COUNT
           && (AnyFlagged(TableOf(s.disk[Start(t[i])])) || Start(t[i]) < CLUSTER_MAP_SIZE)
  }

  /** The row a delete erases starts at a cell in use, or, for a folder, in the map and on the disk. */
  predicate DeleteStartsInUse(s: State, r: Request)
    requires r.parent < CLUSTER_COUNT
  {
    var t := TableOf(s.disk[r.parent]);
    var i := FoundAt(s, r, true);
    IsDirectoryHead(t[0]) && i < ROW_COUNT ==>
      if !IsFolder(t[i]) then InUse(s.fat, Start(t[i]))
      else Start(t[i]) < CLUSTER_COUNT
           && (AnyFlagged(TableOf(s.disk[Start(t[i])])) || Start(t[i]) < CLUSTER_MAP_SIZE)
  }

  ghost function Delete(s: State, r: Request): Reply
    requires r.parent < CLUSTER_COUNT && DeleteEnds(s, r)
  {
    var t := TableOf(s.disk[r.parent]);
    var i := FoundAt(s, r, true);
    if !IsDirectoryHead(t[0]) then Reply(s, -1, [])
    else if i == ROW_COUNT then Reply(s, 1, [])
    else if !IsFolder(t[i]) then Reply(DropFile(s, r, i, ChainFrom(s.fat, Start(t[i]))), 0, [])
    else if AnyFlagged(TableOf(s.disk[Start(t[i])])) then Reply(s, 2, [])
    else Reply(DropFolder(s, r, i, Start(t[i])), 0, [])
  }

  /** The call stays inside the map, and the bytes it copies inside a buffer of this length. */
  ghost predicate ReadFits(s: State, r: Request, length: nat)
    requires r.parent < CLUSTER_COUNT
  {
    ReadEnds(s, r) && |Read(s, r).data| <= length
  }

  function DropFile(s: State, r: Request, i: nat, cs: seq<nat>): State
    requires r.parent < CLUSTER_COUNT && i < ROW_COUNT
  {
    var t := TableOf(s.disk[r.parent]);
    var f := Clear(s.fat, cs);
    State(s.disk[r.parent := TableBytes(t[i := Erased(t[i])])][FAT_CLUSTER_NUMBER := FatBytes(f)], f)
  }

  function DropFolder(s: State, r: Request, i: nat, c: nat): State
    requires r.parent < CLUSTER_COUNT && i < ROW_COUNT && c < CLUSTER_MAP_SIZE
  {
    var t := TableOf(s.disk[r.parent]);
    var child := TableOf(s.disk[c]);
    var f := s.fat[c := EMPTY_ENTRY];
    State(s.disk[r.parent := TableBytes(t[i := Erased(t[i])])]
                [c := TableBytes(child[0 := Erased(child[0])])]
                [FAT_CLUSTER_NUMBER := FatBytes(f)], f)
  }

  // ----- formatting and mounting

  const ROOT_NAME: Name := [0x72, 0x6F, 0x6F, 0x74, 0, 0, 0, 0]

  function RootTable(): Table {
    seq<Row>(ROW_COUNT, i => if i == 0 then Entry(ROOT_NAME, NO_EXT, ATTR_SUBDIRECTORY, ROOT_CLUSTER_NUMBER, 0)
                             else EMPTY_ROW)
  }

  /** Only cells 0 to 2 of the cached FAT are set; the others keep what memory held. */
  function Format(s: State): State {
    var f := s.fat[0 := CLUSTER_0_VALUE][1 := CLUSTER_1_VALUE][2 := END_OF_FILE];
    State(s.disk[0 := Signature() + s.disk[0][BLOCK_SIZE..]]
                [FAT_CLUSTER_NUMBER := FatBytes(f)]
                [ROOT_CLUSTER_NUMBER := TableBytes(RootTable())], f)
  }

  predicate EmptyStorage(s: State) {
    s.disk[0][..BLOCK_SIZE] != Signature()
  }

  function Mount(s: State): State {
    if EmptyStorage(s) then Format(s) else s.(fat := FatOf(s.disk[FAT_CLUSTER_NUMBER]))
  }
}
