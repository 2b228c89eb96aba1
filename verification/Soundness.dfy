/** Consistent disks, and that safe writes and deletes in live directories keep them consistent. */
module Soundness {
  import opened Layout
  import opened Chains
  import opened FileSystem
  import opened Ownership

  function VolumeOf(s: State): Volume {
    Volume(seq<Table>(CLUSTER_COUNT, c requires 0 <= c < CLUSTER_COUNT => TableOf(s.disk[c])), s.fat)
  }

  /** The boot block and the FAT are in place, the cache equals the FAT on disk, and w explains the rest. */
  ghost predicate Consistent(s: State, w: Record) {
    && !EmptyStorage(s)
    && s.fat == FatOf(s.disk[FAT_CLUSTER_NUMBER])
    && Explains(VolumeOf(s), w)
  }

  ghost predicate Sound(s: State) {
    exists w :: Consistent(s, w)
  }

  ghost function RecordOf(s: State): (w: Record)
    requires Sound(s)
    ensures Consistent(s, w)
  {
    var w :| Consistent(s, w);
    w
  }

  /** The clusters of the live directories. */
  ghost function Dirs(s: State): set<nat>
    requires Sound(s)
  {
    RecordOf(s).depth.Keys
  }

  lemma TheRecord(s: State, w: Record)
    requires Consistent(s, w)
    ensures Sound(s) && RecordOf(s) == w
  {
    RecordUnique(VolumeOf(s), w, RecordOf(s));
  }

  // ----- the conditions a caller can test

  predicate HasFreeRow(t: Table) {
    exists i :: 1 <= i < ROW_COUNT - 1 && !Flagged(t[i])
  }

  /** The old contents of the cluster decode to rows without names. */
  predicate Nameless(t: Table) {
    forall i :: 1 <= i < ROW_COUNT ==> !Live(t[i])
  }

  /** What a successful write needs to keep the disk consistent. */
  ghost predicate WriteIsSafe(s: State, r: Request)
    requires Sound(s) && Fits(r)
  {
    && r.name != NO_NAME
    && r.parent in Dirs(s)
    && HasFreeRow(TableOf(s.disk[r.parent]))
    && (r.size == 0 && Needed(r) <= |FreeCells(FatOf(s.disk[FAT_CLUSTER_NUMBER]), 0)| ==>
          Nameless(TableOf(s.disk[Claim(s, r)[0]])))
  }

  lemma FreeRowFound(t: Table, n: nat, i: nat)
    requires n < ROW_COUNT && 1 <= i < n && !Flagged(t[i])
    ensures FreeRow(t, n) >= i
  {
  }

  lemma FreeRowExists(t: Table)
    requires Flagged(t[0])
    ensures HasFreeRow(t) <==> FreeRow(t, ROW_COUNT - 1) != 0
  {
    if HasFreeRow(t) {
      var i :| 1 <= i < ROW_COUNT - 1 && !Flagged(t[i]);
      FreeRowFound(t, ROW_COUNT - 1, i);
    }
  }

  /** A new entry goes to the last row below 63 that is not flagged, or to row 0 if all are. */
  lemma {:induction false} FreeRowIsLast(t: Table, n: nat)
    requires n < ROW_COUNT
    ensures forall j :: FreeRow(t, n) < j < n ==> Flagged(t[j])
    ensures FreeRow(t, n) == 0 || (FreeRow(t, n) < n && !Flagged(t[FreeRow(t, n)]))
  {
    if n > 0 { FreeRowIsLast(t, n - 1); }
  }

  lemma HeadAttribute(c: Cluster)
    ensures TableOf(c)[0].attribute == c[11]
  {
  }

  lemma SignatureByte()
    ensures Signature()[11] == 0x20
  {
    assert LINE_1[11] == 0x20;
  }

  /** Neither the boot cluster nor the FAT looks like a directory. */
  lemma ReservedNotDirectory(s: State, w: Record)
    requires Consistent(s, w)
    ensures !IsDirectoryHead(TableOf(s.disk[0])[0])
    ensures !IsDirectoryHead(TableOf(s.disk[FAT_CLUSTER_NUMBER])[0])
  {
    HeadAttribute(s.disk[0]);
    SignatureByte();
    assert s.disk[0][11] == s.disk[0][..BLOCK_SIZE][11];
    HeadAttribute(s.disk[FAT_CLUSTER_NUMBER]);
    TopByte(s.disk[FAT_CLUSTER_NUMBER]);
  }

  lemma TopByte(c: Cluster)
    requires FatOf(c)[2] == END_OF_FILE
    ensures c[11] == 0x0F
  {
    var b := c[4 * 2..4 * 2 + 4];
    assert DwordOf(b) == END_OF_FILE;
    DwordInjective(b, [0xFF, 0xFF, 0xFF, 0x0F]);
    assert b[3] == c[11];
  }

  // ----- what a write changes

  /** The clusters outside the claimed ones after a file has been stored. */
  lemma StoreFileDisk(s: State, r: Request, cs: seq<nat>, d: nat)
    requires Fits(r) && 0 < |cs| == ClustersFor(r.size) && InMap(cs) && d < CLUSTER_COUNT && d !in cs
    ensures var f, t := Link(FatOf(s.disk[FAT_CLUSTER_NUMBER]), cs), Entered(TableOf(s.disk[r.parent]), r, 0, cs[0]);
      StoreFile(s, r, cs).disk[d] ==
        if d == r.parent then TableBytes(t) else if d == FAT_CLUSTER_NUMBER then FatBytes(f) else s.disk[d]
  {
    var f, t := Link(FatOf(s.disk[FAT_CLUSTER_NUMBER]), cs), Entered(TableOf(s.disk[r.parent]), r, 0, cs[0]);
    ScatterFrame(s.disk[FAT_CLUSTER_NUMBER := FatBytes(f)][r.parent := TableBytes(t)], cs, r.buf, d);
  }

  lemma FreeNotDir(s: State, w: Record, c: nat)
    requires Consistent(s, w) && c < CLUSTER_MAP_SIZE && s.fat[c] == EMPTY_ENTRY
    ensures 3 <= c && c !in w.depth
  {
    if c in w.depth { DirClaimed(VolumeOf(s), w, c); }
  }

  /** The parts of Adds that do not depend on what the new row describes. */
  lemma NewRow(s: State, w: Record, r: Request)
    requires Consistent(s, w) && Fits(r) && r.parent in w.depth && PassesChecks(s, r)
    requires HasFreeRow(TableOf(s.disk[r.parent]))
    ensures var t := TableOf(s.disk[r.parent]); var i := FreeRow(t, ROW_COUNT - 1);
      && 2 <= r.parent < CLUSTER_MAP_SIZE
      && 1 <= i < ROW_COUNT - 1 && !Flagged(t[i])
      && (r.name != NO_NAME ==> forall j :: 1 <= j < ROW_COUNT ==> !SameKey(t[j], r.name, r.ext))
  {
    var t := TableOf(s.disk[r.parent]);
    FreeRowExists(t);
    assert DirOk(VolumeOf(s), r.parent);
  }

  lemma StoreFileAdds(s: State, w: Record, r: Request, cs: seq<nat>)
    requires Consistent(s, w) && Fits(r) && r.name != NO_NAME && r.size > 0
    requires r.parent in w.depth && PassesChecks(s, r) && HasFreeRow(TableOf(s.disk[r.parent]))
    requires |cs| == ClustersFor(r.size) > 0 && InMap(cs) && Distinct(cs)
    requires forall c :: c in cs ==> s.fat[c] == EMPTY_ENTRY
    ensures var i := FreeRow(TableOf(s.disk[r.parent]), ROW_COUNT - 1);
      Adds(VolumeOf(s), w, VolumeOf(StoreFile(s, r, cs)), Ref(r.parent, i),
           Entry(r.name, r.ext, 0, cs[0], r.size), cs)
  {
    hide TableOf, TableBytes, FatBytes, FatOf;
    var v, v' := VolumeOf(s), VolumeOf(StoreFile(s, r, cs));
    NewRow(s, w, r);
    forall d | d in w.depth && d < CLUSTER_MAP_SIZE
      ensures d !in cs
    {
      if d in cs { FreeNotDir(s, w, d); }
    }
    StoreFileDisk(s, r, cs, r.parent);
    TableRoundTrip(Entered(TableOf(s.disk[r.parent]), r, 0, cs[0]));
    forall d | d in w.depth && d < CLUSTER_MAP_SIZE && d != r.parent
      ensures v'.tabs[d] == v.tabs[d]
    {
      assert DirOk(v, d);
      StoreFileDisk(s, r, cs, d);
    }
  }

  lemma MakeFolderDisk(s: State, r: Request, c: nat, d: nat)
    requires Fits(r) && c < CLUSTER_MAP_SIZE && d < CLUSTER_COUNT && d != c
    ensures var f, t := Link(FatOf(s.disk[FAT_CLUSTER_NUMBER]), [c]),
                        Entered(TableOf(s.disk[r.parent]), r, ATTR_SUBDIRECTORY, c);
      MakeFolder(s, r, c).disk[d] ==
        if d == r.parent then TableBytes(t) else if d == FAT_CLUSTER_NUMBER then FatBytes(f) else s.disk[d]
  {
  }

  lemma MakeFolderChild(s: State, r: Request, c: nat)
    requires Fits(r) && c < CLUSTER_MAP_SIZE && c != r.parent && c != FAT_CLUSTER_NUMBER
    ensures TableOf(MakeFolder(s, r, c).disk[c]) ==
            TableOf(s.disk[c])[0 := Entry(r.name, r.ext, ATTR_SUBDIRECTORY, r.parent, r.size)]
  {
    TableRoundTrip(TableOf(s.disk[c])[0 := Entry(r.name, r.ext, ATTR_SUBDIRECTORY, r.parent, r.size)]);
  }

  lemma MakeFolderAdds(s: State, w: Record, r: Request, c: nat)
    requires Consistent(s, w) && Fits(r) && r.name != NO_NAME && r.size == 0
    requires r.parent in w.depth && PassesChecks(s, r) && HasFreeRow(TableOf(s.disk[r.parent]))
    requires c < CLUSTER_MAP_SIZE && s.fat[c] == EMPTY_ENTRY
    ensures var i := FreeRow(TableOf(s.disk[r.parent]), ROW_COUNT - 1);
      Adds(VolumeOf(s), w, VolumeOf(MakeFolder(s, r, c)), Ref(r.parent, i),
           Entry(r.name, r.ext, ATTR_SUBDIRECTORY, c, 0), [c])
  {
    hide TableOf, TableBytes, FatBytes, FatOf;
    var v, v' := VolumeOf(s), VolumeOf(MakeFolder(s, r, c));
    NewRow(s, w, r);
    FreeNotDir(s, w, c);
    MakeFolderDisk(s, r, c, r.parent);
    TableRoundTrip(Entered(TableOf(s.disk[r.parent]), r, ATTR_SUBDIRECTORY, c));
    forall d | d in w.depth && d < CLUSTER_MAP_SIZE && d != r.parent
      ensures v'.tabs[d] == v.tabs[d]
    {
      assert DirOk(v, d);
      MakeFolderDisk(s, r, c, d);
    }
  }

  /** The record after a successful write. */
  ghost function AfterWrite(s: State, w: Record, r: Request): Record
    requires Fits(r) && r.parent in w.depth && Needed(r) <= |FreeCells(FatOf(s.disk[FAT_CLUSTER_NUMBER]), 0)|
  {
    var ref := Ref(r.parent, FreeRow(TableOf(s.disk[r.parent]), ROW_COUNT - 1));
    if r.size == 0 then WithFolder(w, ref, Claim(s, r)[0]) else WithFile(w, ref, Claim(s, r))
  }

  lemma StoreFileReserved(s: State, r: Request, cs: seq<nat>)
    requires Fits(r) && 2 <= r.parent && 0 < |cs| == ClustersFor(r.size) && InMap(cs)
    requires 0 !in cs && FAT_CLUSTER_NUMBER !in cs && !EmptyStorage(s)
    ensures var s' := StoreFile(s, r, cs);
      !EmptyStorage(s') && s'.fat == FatOf(s'.disk[FAT_CLUSTER_NUMBER])
  {
    FatRoundTrip(Link(FatOf(s.disk[FAT_CLUSTER_NUMBER]), cs));
    StoreFileDisk(s, r, cs, 0);
    StoreFileDisk(s, r, cs, FAT_CLUSTER_NUMBER);
  }

  lemma MakeFolderReserved(s: State, r: Request, c: nat)
    requires Fits(r) && 2 <= r.parent && 2 <= c < CLUSTER_MAP_SIZE && !EmptyStorage(s)
    ensures var s' := MakeFolder(s, r, c);
      !EmptyStorage(s') && s'.fat == FatOf(s'.disk[FAT_CLUSTER_NUMBER])
  {
    FatRoundTrip(Link(FatOf(s.disk[FAT_CLUSTER_NUMBER]), [c]));
    MakeFolderDisk(s, r, c, 0);
    MakeFolderDisk(s, r, c, FAT_CLUSTER_NUMBER);
  }

  lemma StoreFileKeeps(s: State, w: Record, r: Request, cs: seq<nat>)
    requires Consistent(s, w) && Fits(r) && r.name != NO_NAME && r.size > 0
    requires r.parent in w.depth && PassesChecks(s, r) && HasFreeRow(TableOf(s.disk[r.parent]))
    requires |cs| == ClustersFor(r.size) > 0 && InMap(cs) && Distinct(cs)
    requires forall c :: c in cs ==> s.fat[c] == EMPTY_ENTRY
    ensures var i := FreeRow(TableOf(s.disk[r.parent]), ROW_COUNT - 1);
      Consistent(StoreFile(s, r, cs), WithFile(w, Ref(r.parent, i), cs))
  {
    var i := FreeRow(TableOf(s.disk[r.parent]), ROW_COUNT - 1);
    NewRow(s, w, r);
    StoreFileReserved(s, r, cs);
    StoreFileAdds(s, w, r, cs);
    AddFile(VolumeOf(s), w, VolumeOf(StoreFile(s, r, cs)), Ref(r.parent, i), Entry(r.name, r.ext, 0, cs[0], r.size), cs);
  }

  lemma FolderKeeps(s: State, w: Record, s': State, ref: Ref, e: Row, c: nat)
    requires Consistent(s, w) && Adds(VolumeOf(s), w, VolumeOf(s'), ref, e, [c])
    requires IsFolder(e) && e.filesize == 0 && c < CLUSTER_MAP_SIZE && ref.dir < CLUSTER_COUNT
    requires Nameless(TableOf(s.disk[c]))
    requires TableOf(s'.disk[c]) == TableOf(s.disk[c])[0 := Entry(e.name, e.ext, ATTR_SUBDIRECTORY, ref.dir, 0)]
    requires !EmptyStorage(s') && s'.fat == FatOf(s'.disk[FAT_CLUSTER_NUMBER])
    ensures Consistent(s', WithFolder(w, ref, c))
  {
    var t := VolumeOf(s').tabs[c];
    assert t == TableOf(s'.disk[c]);
    AddFolder(VolumeOf(s), w, VolumeOf(s'), ref, e, c);
  }

  lemma MakeFolderKeeps(s: State, w: Record, r: Request, c: nat)
    requires Consistent(s, w) && Fits(r) && r.name != NO_NAME && r.size == 0
    requires r.parent in w.depth && PassesChecks(s, r) && HasFreeRow(TableOf(s.disk[r.parent]))
    requires c < CLUSTER_MAP_SIZE && s.fat[c] == EMPTY_ENTRY && Nameless(TableOf(s.disk[c]))
    ensures var i := FreeRow(TableOf(s.disk[r.parent]), ROW_COUNT - 1);
      Consistent(MakeFolder(s, r, c), WithFolder(w, Ref(r.parent, i), c))
  {
    var i := FreeRow(TableOf(s.disk[r.parent]), ROW_COUNT - 1);
    NewRow(s, w, r);
    FreeNotDir(s, w, c);
    MakeFolderReserved(s, r, c);
    MakeFolderAdds(s, w, r, c);
    MakeFolderChild(s, r, c);
    FolderKeeps(s, w, MakeFolder(s, r, c), Ref(r.parent, i), Entry(r.name, r.ext, ATTR_SUBDIRECTORY, c, 0), c);
  }

  /** A safe successful write leaves a consistent disk, with the new row as owner of the claimed clusters. */
  lemma WriteKeepsConsistent(s: State, w: Record, r: Request)
    requires Consistent(s, w) && Fits(r) && r.name != NO_NAME && Write(s, r).code == 0
    requires r.parent in w.depth && HasFreeRow(TableOf(s.disk[r.parent]))
    requires r.size == 0 ==> Nameless(TableOf(s.disk[Claim(s, r)[0]]))
    ensures Consistent(Write(s, r).st, AfterWrite(s, w, r))
  {
    var cs := Claim(s, r);
    if r.size == 0 {
      assert cs[0] in cs;
      MakeFolderKeeps(s, w, r, cs[0]);
    } else {
      StoreFileKeeps(s, w, r, cs);
    }
  }

  // ----- what a delete changes

  /** The row a key finds is the only live one with that key, and it owns a chain. */
  lemma FoundRef(s: State, w: Record, r: Request, flagged: bool)
    requires Consistent(s, w) && r.parent in w.depth && r.parent < CLUSTER_COUNT && r.name != NO_NAME
    requires FoundAt(s, r, flagged) < ROW_COUNT
    ensures var ref := Ref(r.parent, FoundAt(s, r, flagged));
      ref in w.chains && RefOk(VolumeOf(s), w, ref) && RowOf(VolumeOf(s), ref) == TableOf(s.disk[r.parent])[ref.row]
  {
    var v, ref := VolumeOf(s), Ref(r.parent, FoundAt(s, r, flagged));
    assert IsRef(v, w, ref);
    assert ref in w.chains;
  }

  // ----- which walks end

  /** On a consistent disk the walk from a cell ends exactly if the cell is in use; from any other it leaves
      the map. */
  lemma HasChainIff(v: Volume, w: Record, c: int)
    requires Explains(v, w)
    ensures HasChain(v.fat, c) <==> InUse(v.fat, c)
  {
    if HasChain(v.fat, c) {
      ChainInUse(v.fat, c, ChainFrom(v.fat, c));
    } else if c == 1 || c == 2 {
      assert IsChain(v.fat, c, [c]);
    } else if InUse(v.fat, c) {
      OwnedChain(v, w, c);
    }
  }

  lemma OwnedChain(v: Volume, w: Record, c: nat)
    requires Explains(v, w) && c in w.owner
    ensures HasChain(v.fat, c)
  {
    var ref := w.owner[c];
    OwnedRow(v, w, ref);
    var i :| 0 <= i < |w.chains[ref]| && w.chains[ref][i] == c;
    ChainSuffix(v.fat, Start(RowOf(v, ref)), w.chains[ref], i);
  }

  /** On every consistent disk, for every name and parent: a read stays inside the map if and only if the
      row it copies starts at a cell in use. */
  lemma ReadEndsIff(s: State, r: Request)
    requires Sound(s) && r.parent < CLUSTER_COUNT
    ensures ReadEnds(s, r) <==> ReadStartsInUse(s, r)
  {
    hide Explains, TableOf, Find;
    var i := FoundAt(s, r, false);
    if i < ROW_COUNT { HasChainIff(VolumeOf(s), RecordOf(s), Start(TableOf(s.disk[r.parent])[i])); }
  }

  /** The same for a delete. */
  lemma DeleteEndsIff(s: State, r: Request)
    requires Sound(s) && r.parent < CLUSTER_COUNT
    ensures DeleteEnds(s, r) <==> DeleteStartsInUse(s, r)
  {
    hide Explains, TableOf, Find;
    var i := FoundAt(s, r, true);
    if i < ROW_COUNT { HasChainIff(VolumeOf(s), RecordOf(s), Start(TableOf(s.disk[r.parent])[i])); }
  }

  /** In a live directory a delete always finds a chain that ends or a directory cluster. */
  lemma DeleteTerminates(s: State, w: Record, r: Request)
    requires Consistent(s, w) && r.parent in w.depth && r.parent < CLUSTER_COUNT && r.name != NO_NAME
    ensures DeleteEnds(s, r)
  {
    if FoundAt(s, r, true) < ROW_COUNT {
      FoundRef(s, w, r, true);
    }
  }

  /** In a live directory a read always finds a chain that ends. */
  lemma ReadTerminates(s: State, w: Record, r: Request)
    requires Consistent(s, w) && r.parent in w.depth && r.parent < CLUSTER_COUNT && r.name != NO_NAME
    ensures ReadEnds(s, r)
  {
    if FoundAt(s, r, false) < ROW_COUNT {
      FoundRef(s, w, r, false);
    }
  }

  /** The record after a successful delete. */
  ghost function AfterDelete(s: State, w: Record, r: Request): Record
    requires r.parent < CLUSTER_COUNT && FoundAt(s, r, true) < ROW_COUNT
    requires Ref(r.parent, FoundAt(s, r, true)) in w.chains
  {
    Without(VolumeOf(s), w, Ref(r.parent, FoundAt(s, r, true)))
  }

  lemma DropFileRemoves(s: State, w: Record, r: Request, ref: Ref)
    requires Consistent(s, w) && ref in w.chains && ref.dir == r.parent < CLUSTER_COUNT && ref.row < ROW_COUNT
    requires RefOk(VolumeOf(s), w, ref) && !IsFolder(RowOf(VolumeOf(s), ref))
    ensures var s' := DropFile(s, r, ref.row, w.chains[ref]);
      Removes(VolumeOf(s), w, VolumeOf(s'), ref)
      && s'.fat == FatOf(s'.disk[FAT_CLUSTER_NUMBER]) && s'.disk[0] == s.disk[0]
  {
    hide TableOf, TableBytes, FatBytes, FatOf;
    var s' := DropFile(s, r, ref.row, w.chains[ref]);
    var t := TableOf(s.disk[r.parent]);
    TableRoundTrip(t[ref.row := Erased(t[ref.row])]);
    FatRoundTrip(s'.fat);
    assert IsRef(VolumeOf(s), w, ref) && DirOk(VolumeOf(s), r.parent);
    forall d | d in w.depth && d < CLUSTER_COUNT && d != r.parent
      ensures VolumeOf(s').tabs[d] == VolumeOf(s).tabs[d]
    {
      assert DirOk(VolumeOf(s), d);
    }
  }

  lemma DropFolderDisk(s: State, r: Request, i: nat, c: nat)
    requires 2 <= r.parent < CLUSTER_COUNT && i < ROW_COUNT && 2 <= c < CLUSTER_MAP_SIZE && c != r.parent
    ensures var t, s' := TableOf(s.disk[r.parent]), DropFolder(s, r, i, c);
      && s'.fat == FatOf(s'.disk[FAT_CLUSTER_NUMBER]) == Clear(s.fat, [c])
      && TableOf(s'.disk[r.parent]) == t[i := Erased(t[i])]
      && forall d :: 0 <= d < CLUSTER_COUNT && d != r.parent && d != c && d != FAT_CLUSTER_NUMBER ==> s'.disk[d] == s.disk[d]
  {
    var t := TableOf(s.disk[r.parent]);
    TableRoundTrip(t[i := Erased(t[i])]);
    FatRoundTrip(s.fat[c := EMPTY_ENTRY]);
    assert Clear(s.fat, [c]) == s.fat[c := EMPTY_ENTRY];
  }

  lemma FolderRemoves(s: State, w: Record, s': State, ref: Ref, c: nat)
    requires Consistent(s, w) && ref in w.chains && ref.dir < CLUSTER_COUNT && ref.row < ROW_COUNT
    requires IsFolder(RowOf(VolumeOf(s), ref)) && w.chains[ref] == [c] && c < CLUSTER_MAP_SIZE
    requires Nameless(TableOf(s.disk[c]))
    requires s'.fat == Clear(s.fat, [c])
    requires var t := TableOf(s.disk[ref.dir]); TableOf(s'.disk[ref.dir]) == t[ref.row := Erased(t[ref.row])]
    requires forall d :: 2 <= d < CLUSTER_COUNT && d != ref.dir && d != c ==> s'.disk[d] == s.disk[d]
    ensures Removes(VolumeOf(s), w, VolumeOf(s'), ref)
  {
    hide Explains, TableOf;
    var v, v' := VolumeOf(s), VolumeOf(s');
    forall d | d in Without(v, w, ref).depth && d < CLUSTER_COUNT && d != ref.dir
      ensures v'.tabs[d] == v.tabs[d]
    {
      LiveDir(v, w, d);
    }
    assert v'.tabs[ref.dir] == TableOf(s'.disk[ref.dir]);
    assert v.tabs[c] == TableOf(s.disk[c]);
  }

  lemma DropFolderRemoves(s: State, w: Record, r: Request, ref: Ref, c: nat)
    requires Consistent(s, w) && ref in w.chains && ref.dir == r.parent < CLUSTER_COUNT && ref.row < ROW_COUNT
    requires IsFolder(RowOf(VolumeOf(s), ref)) && w.chains[ref] == [c] && c in w.depth && c != r.parent
    requires c < CLUSTER_MAP_SIZE && !AnyFlagged(TableOf(s.disk[c]))
    ensures var s' := DropFolder(s, r, ref.row, c);
      Removes(VolumeOf(s), w, VolumeOf(s'), ref)
      && s'.fat == FatOf(s'.disk[FAT_CLUSTER_NUMBER]) && s'.disk[0] == s.disk[0]
  {
    hide TableOf, TableBytes, FatBytes;
    assert IsRef(VolumeOf(s), w, ref) && DirOk(VolumeOf(s), r.parent) && DirOk(VolumeOf(s), c);
    DropFolderDisk(s, r, ref.row, c);
    UnflaggedNameless(TableOf(s.disk[c]));
    FolderRemoves(s, w, DropFolder(s, r, ref.row, c), ref, c);
  }

  lemma UnflaggedNameless(t: Table)
    requires TableOk(t) && !AnyFlagged(t)
    ensures Nameless(t)
  {
  }

  lemma DeleteRemoves(s: State, w: Record, r: Request)
    requires Consistent(s, w) && r.parent in w.depth && r.parent < CLUSTER_COUNT && r.name != NO_NAME
    requires DeleteEnds(s, r) && Delete(s, r).code == 0
    ensures var s' := Delete(s, r).st;
      Removes(VolumeOf(s), w, VolumeOf(s'), Ref(r.parent, FoundAt(s, r, true)))
      && s'.fat == FatOf(s'.disk[FAT_CLUSTER_NUMBER]) && s'.disk[0] == s.disk[0]
  {
    var ref := Ref(r.parent, FoundAt(s, r, true));
    FoundRef(s, w, r, true);
    if IsFolder(RowOf(VolumeOf(s), ref)) {
      var c := FolderBelow(VolumeOf(s), w, ref);
      DropFolderRemoves(s, w, r, ref, c);
    } else {
      ChainOf(s.fat, Start(RowOf(VolumeOf(s), ref)), w.chains[ref]);
      DropFileRemoves(s, w, r, ref);
    }
  }

  /** A successful delete in a live directory leaves a consistent disk without the row and its clusters. */
  lemma DeleteKeepsConsistent(s: State, w: Record, r: Request)
    requires Consistent(s, w) && r.parent in w.depth && r.parent < CLUSTER_COUNT && r.name != NO_NAME
    requires DeleteEnds(s, r) && Delete(s, r).code == 0
    ensures Ref(r.parent, FoundAt(s, r, true)) in w.chains
    ensures Consistent(Delete(s, r).st, AfterDelete(s, w, r))
  {
    FoundRef(s, w, r, true);
    DeleteRemoves(s, w, r);
    RemoveEntry(VolumeOf(s), w, VolumeOf(Delete(s, r).st), Ref(r.parent, FoundAt(s, r, true)));
  }
}
