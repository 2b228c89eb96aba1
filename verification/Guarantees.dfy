/** What users of the disk rely on: contents come back, deleting undoes writing, no cluster is lost,
    and a remount after any run finds the same file system. */
module Guarantees {
  import opened Layout
  import opened Chains
  import opened FileSystem
  import opened Ownership
  import opened Soundness
  import opened SafeWrites
  import opened Abstraction
  import opened WriteRefinement
  import opened DeleteRefinement
  import opened Runs
  import opened Vfs
  import opened Counting

  // ----- round trip

  lemma WriteIsComplete(s: State, r: Request)
    requires Sound(s) && WriteAsked(s, r) && Write(s, r).code == 0
    ensures SafeWrite(s, RecordOf(s), r)
    ensures Sound(Write(s, r).st) && RecordOf(Write(s, r).st) == AfterWrite(s, RecordOf(s), r)
    ensures r.parent in Dirs(Write(s, r).st)
  {
    hide Explains;
    WriteKeepsConsistent(s, RecordOf(s), r);
    TheRecord(Write(s, r).st, AfterWrite(s, RecordOf(s), r));
  }

  /** A file that was written reads back: exactly its bytes when the buffer is large enough, else 2. */
  lemma WriteThenRead(s: State, r: Request, q: Request)
    requires Sound(s) && WriteAsked(s, r) && Write(s, r).code == 0 && r.size > 0
    requires KeyOf(q) == KeyOf(r)
    ensures var s' := Write(s, r).st;
      ReadEnds(s', q)
      && var y := Read(s', q);
         if q.size >= r.size then y.code == 0 && y.data == r.buf else y.code == 2
  {
    hide Explains, Write, Read, TreeOf;
    WriteIsComplete(s, r);
    WriteRefines(s, r);
    ReadRefines(Write(s, r).st, q);
    HeadsAreDirs(s);
    HeadsAreDirs(Write(s, r).st);
  }

  /** Writing one key leaves the chain and every byte of every other key alone. */
  lemma WriteLeavesOthers(s: State, r: Request, k: Key)
    requires Sound(s) && WriteAsked(s, r) && k != KeyOf(r)
    ensures Sound(Write(s, r).st) && SameItem(s, RecordOf(s), Write(s, r).st, RecordOf(Write(s, r).st), k)
  {
    hide Explains;
    var w := RecordOf(s);
    if Write(s, r).code == 0 {
      WriteIsComplete(s, r);
      WriteKeepsOthers(s, w, r, k);
    } else {
      Unchanged(s, k);
    }
  }

  /** Deleting one key leaves the chain and every byte of every other key alone. */
  lemma DeleteLeavesOthers(s: State, r: Request, k: Key)
    requires Sound(s) && DeleteAsked(s, r) && k != KeyOf(r)
    ensures DeleteEnds(s, r) && Sound(Delete(s, r).st)
    ensures SameItem(s, RecordOf(s), Delete(s, r).st, RecordOf(Delete(s, r).st), k)
  {
    hide Explains;
    var w := RecordOf(s);
    DeleteKeepsSound(s, r);
    if Delete(s, r).code == 0 {
      DeleteEntry(s, w, r);
      DeleteKeepsConsistent(s, w, r);
      TheRecord(Delete(s, r).st, AfterDelete(s, w, r));
      DeleteKeepsOthers(s, w, r, k);
    } else {
      Unchanged(s, k);
    }
  }

  lemma Unchanged(s: State, k: Key)
    requires Sound(s)
    ensures SameItem(s, RecordOf(s), s, RecordOf(s), k)
  {
    hide Explains;
    if Present(s, RecordOf(s), k) { PresentRef(s, RecordOf(s), k); }
  }

  /** A call that returns an error leaves every byte of the disk and every cell of the cache as it was. */
  lemma ErrorsChangeNothing(s: State, op: Op)
    requires Sound(s) && Asked(s, op) && Call(s, op).code != 0
    ensures Call(s, op).st == s
  {
    hide Explains, Write, Read, Delete, TreeOf;
    match op
    case WriteOp(r) => WriteError(s, r);
    case ReadOp(r) => ReadRefines(s, r);
    case DeleteOp(r) => DeleteRefines(s, r); DeleteCode(s, r);
  }

  lemma WriteError(s: State, r: Request)
    requires Sound(s) && Fits(r) && Write(s, r).code != 0
    ensures Write(s, r).st == s
  {
    assert s.fat == FatOf(s.disk[FAT_CLUSTER_NUMBER]) by { assert Consistent(s, RecordOf(s)); }
    hide Explains, TableOf, FatOf, FreeCells, Clash, MakeFolder, StoreFile;
  }

  // ----- deleting undoes writing

  /** Where the entry of a successful write is found afterwards, and the chain it has. */
  lemma WrittenRef(s: State, r: Request)
    requires Sound(s) && WriteAsked(s, r) && Write(s, r).code == 0
    ensures var s', ref := Write(s, r).st, Ref(r.parent, FreeRow(TableOf(s.disk[r.parent]), ROW_COUNT - 1));
      && Sound(s') && r.parent in Dirs(s') && FoundAt(s', r, true) == ref.row < ROW_COUNT
      && ref in RecordOf(s').chains && RecordOf(s').chains[ref] == Claim(s, r)
      && TableOf(s'.disk[r.parent])[ref.row] == Entry(r.name, r.ext, AttributeFor(r), Claim(s, r)[0], r.size)
  {
    hide Explains, Write, TableOf, FreeCells, Clash, Nameless, HasFreeRow, PassesChecks;
    var w, s' := RecordOf(s), Write(s, r).st;
    WriteIsComplete(s, r);
    WriteTable(s, w, r, r.parent);
    EnteredFind(TableOf(s.disk[r.parent]), r, AttributeFor(r), Claim(s, r)[0], KeyOf(r));
    FoundIffPresent(s', AfterWrite(s, w, r), r);
  }

  /** The row was created by this write: clearing its chain gives the FAT from before back. */
  lemma FatRestored(s: State, r: Request)
    requires Sound(s) && WriteAsked(s, r) && Write(s, r).code == 0
    requires DeleteEnds(Write(s, r).st, r) && Delete(Write(s, r).st, r).code == 0
    ensures var s'' := Delete(Write(s, r).st, r).st; s''.fat == s.fat && FatOf(s''.disk[FAT_CLUSTER_NUMBER]) == s.fat
  {
    hide Explains, Write, Delete;
    var w, s' := RecordOf(s), Write(s, r).st;
    WrittenRef(s, r);
    DeleteRemoves(s', RecordOf(s'), r);
    WriteIsComplete(s, r);
    WriteWrote(s, w, r);
    ClearLink(s.fat, Claim(s, r));
  }

  /** Writing a new file and deleting it restores every FAT cell, in the cache and on disk; the key is
      absent again. */
  lemma DeleteUndoesFile(s: State, r: Request, q: Request)
    requires Sound(s) && WriteAsked(s, r) && Write(s, r).code == 0 && r.size > 0 && KeyOf(q) == KeyOf(r)
    ensures var s' := Write(s, r).st;
      DeleteEnds(s', r)
      && var y := Delete(s', r);
         && y.code == 0 && y.st.fat == s.fat && FatOf(y.st.disk[FAT_CLUSTER_NUMBER]) == s.fat
         && ReadEnds(y.st, q) && Read(y.st, q).code == 3
  {
    hide Explains, Write, Delete, Read, TreeOf;
    var s' := Write(s, r).st;
    WriteIsComplete(s, r);
    WriteRefines(s, r);
    DeleteRefines(s', r);
    HeadsAreDirs(s);
    HeadsAreDirs(s');
    FatRestored(s, r);
    HeadsAreDirs(Delete(s', r).st);
    ReadRefines(Delete(s', r).st, q);
  }

  /** A fresh folder can be deleted exactly if its cluster held no flagged row; then the FAT is restored and
      the key is absent again. */
  lemma DeleteUndoesFolder(s: State, r: Request, q: Request)
    requires Sound(s) && WriteAsked(s, r) && Write(s, r).code == 0 && r.size == 0 && KeyOf(q) == KeyOf(r)
    ensures var s' := Write(s, r).st;
      DeleteEnds(s', r)
      && var y := Delete(s', r);
         && (y.code == 0 <==> !AnyFlagged(TableOf(s.disk[Claim(s, r)[0]])))
         && (y.code == 0 ==>
               && y.st.fat == s.fat && FatOf(y.st.disk[FAT_CLUSTER_NUMBER]) == s.fat
               && ReadEnds(y.st, q) && Read(y.st, q).code == 3)
  {
    hide Explains, Write;
    var s' := Write(s, r).st;
    WriteIsComplete(s, r);
    WrittenRef(s, r);
    DeleteKeepsSound(s', r);
    FolderRows(s, r);
    DirTable(s', RecordOf(s'), r.parent);
    if Delete(s', r).code == 0 {
      FatRestored(s, r);
      DeletedIsAbsent(s', r, q);
    }
  }

  /** After a successful delete a read of the key gives 3. */
  lemma DeletedIsAbsent(s: State, r: Request, q: Request)
    requires Sound(s) && DeleteAsked(s, r) && DeleteEnds(s, r) && Delete(s, r).code == 0
    requires r.parent in Dirs(s) && KeyOf(q) == KeyOf(r)
    ensures var y := Delete(s, r); ReadEnds(y.st, q) && Read(y.st, q).code == 3
  {
    hide Explains, Delete, Read, TreeOf;
    DeleteRefines(s, r);
    HeadsAreDirs(s);
    DeleteSuccess(TreeOf(s), r, TreeOf(Delete(s, r).st));
    HeadsAreDirs(Delete(s, r).st);
    ParentStays(s, r);
    ReadRefines(Delete(s, r).st, q);
  }

  lemma DeleteSuccess(a: Tree, r: Request, a': Tree)
    requires DeleteStep(a, r, 0, a') && r.parent in a.heads
    ensures KeyOf(r) !in a'.items
  {
  }

  /** A deleted folder is not its own parent. */
  lemma ParentStays(s: State, r: Request)
    requires Sound(s) && DeleteAsked(s, r) && DeleteEnds(s, r) && Delete(s, r).code == 0 && r.parent in Dirs(s)
    ensures Sound(Delete(s, r).st) && r.parent in Dirs(Delete(s, r).st)
  {
    hide Explains, Delete;
    var w, ref := RecordOf(s), Ref(r.parent, FoundAt(s, r, true));
    DeleteEntry(s, w, r);
    DeleteKeepsConsistent(s, w, r);
    TheRecord(Delete(s, r).st, AfterDelete(s, w, r));
    if IsFolder(RowOf(VolumeOf(s), ref)) { var c := FolderBelow(VolumeOf(s), w, ref); }
  }

  lemma FolderRows(s: State, r: Request)
    requires Sound(s) && WriteAsked(s, r) && Write(s, r).code == 0 && r.size == 0
    ensures var c := Claim(s, r)[0]; AnyFlagged(TableOf(Write(s, r).st.disk[c])) <==> AnyFlagged(TableOf(s.disk[c]))
  {
    hide Explains, TableOf;
    var c := Claim(s, r)[0];
    WriteIsComplete(s, r);
    assert c in Claim(s, r);
    FreeNotDir(s, RecordOf(s), c);
    MakeFolderChild(s, r, c);
    var t, t' := TableOf(s.disk[c]), TableOf(Write(s, r).st.disk[c]);
    assert forall i :: 1 <= i < ROW_COUNT ==> t'[i] == t[i];
  }

  // ----- what a call touches

  /** A successful write changes the FAT, the parent's table and the claimed clusters, and no other byte of
      the disk. */
  lemma WriteTouches(s: State, r: Request, c: nat)
    requires Fits(r) && Write(s, r).code == 0 && c < CLUSTER_COUNT
    requires c != FAT_CLUSTER_NUMBER && c != r.parent && c !in Claim(s, r)
    ensures Write(s, r).st.disk[c] == s.disk[c]
  {
    hide TableBytes, FatBytes, TableOf, FatOf, Clash;
    if r.size == 0 {
      assert Claim(s, r)[0] in Claim(s, r);
      MakeFolderDisk(s, r, Claim(s, r)[0], c);
    } else {
      StoreFileDisk(s, r, Claim(s, r), c);
    }
  }

  /** A successful delete changes the FAT, the parent's table and a folder's own cluster, and no other byte of
      the disk. */
  lemma DeleteTouches(s: State, r: Request, c: nat)
    requires r.parent < CLUSTER_COUNT && DeleteEnds(s, r) && Delete(s, r).code == 0 && c < CLUSTER_COUNT
    requires c != FAT_CLUSTER_NUMBER && c != r.parent
    requires var row := TableOf(s.disk[r.parent])[FoundAt(s, r, true)]; IsFolder(row) ==> c != Start(row)
    ensures Delete(s, r).st.disk[c] == s.disk[c]
  {
    hide TableBytes, FatBytes, TableOf, AnyFlagged, HasChain;
  }

  /** A deleted row has no name, no flag and no attribute; its start and size stay, and so do all other rows
      of the table. */
  lemma DeletedRow(s: State, r: Request)
    requires Sound(s) && DeleteAsked(s, r) && DeleteEnds(s, r) && Delete(s, r).code == 0 && r.parent in Dirs(s)
    ensures var i, t, t' := FoundAt(s, r, true), TableOf(s.disk[r.parent]), TableOf(Delete(s, r).st.disk[r.parent]);
      && 1 <= i < ROW_COUNT && SameKey(t[i], r.name, r.ext)
      && t'[i].name == [0, 0, 0, 0, 0, 0, 0, 0] && t'[i].ext == [0, 0, 0]
      && t'[i].attribute == 0 && t'[i].userAttribute == 0
      && Start(t'[i]) == Start(t[i]) && t'[i].filesize == t[i].filesize
      && forall j :: 0 <= j < ROW_COUNT && j != i ==> t'[j] == t[j]
  {
    hide Explains, Delete, TableOf, DeleteEnds;
    DeleteEntry(s, RecordOf(s), r);
    ParentStays(s, r);
    DeleteKeepsConsistent(s, RecordOf(s), r);
    TheRecord(Delete(s, r).st, AfterDelete(s, RecordOf(s), r));
    DeleteTable(s, RecordOf(s), r, r.parent);
  }

  /** The new row holds what was asked for, in the last row below 63 that was not flagged; of the other rows
      of the table only row `parent` changes, and of that only the flag. */
  lemma WrittenRow(s: State, r: Request)
    requires Sound(s) && WriteAsked(s, r) && Write(s, r).code == 0
    ensures var t, t' := TableOf(s.disk[r.parent]), TableOf(Write(s, r).st.disk[r.parent]);
      var i := FreeRow(t, ROW_COUNT - 1);
      && 1 <= i < 63 && !Flagged(t[i]) && (forall j :: i < j < 63 ==> Flagged(t[j]))
      && t'[i] == Row(r.name, r.ext, if r.size == 0 then 0x10 else 0, 0xAA, [0, 0, 0, 0, 0, 0, 0], 0, [0, 0, 0, 0],
                      FreeCells(s.fat, 0)[0], r.size)
      && forall j :: 0 <= j < ROW_COUNT && j != i ==>
           t'[j] == if j == r.parent then t[j].(userAttribute := 0xAA) else t[j]
  {
    hide Explains, Write, TableOf, FreeCells;
    WriteIsComplete(s, r);
    WriteTable(s, RecordOf(s), r, r.parent);
    FreeRowIsLast(TableOf(s.disk[r.parent]), ROW_COUNT - 1);
    SafeClaim(s, r);
  }

  lemma SafeClaim(s: State, r: Request)
    requires Sound(s) && WriteAsked(s, r) && Write(s, r).code == 0
    ensures |FreeCells(s.fat, 0)| > 0 && Claim(s, r)[0] == FreeCells(s.fat, 0)[0] < CLUSTER_MAP_SIZE
  {
    hide Explains;
    WriteIsComplete(s, r);
  }

  /** Where the bytes of a file lie, on any disk: cluster j of its data in the j-th of the free clusters. */
  lemma BytesOnDisk(s: State, r: Request, j: nat)
    requires Fits(r) && PassesChecks(s, r) && r.size > 0
    requires j < Needed(r) <= |FreeCells(FatOf(s.disk[FAT_CLUSTER_NUMBER]), 0)|
    ensures |Claim(s, r)| == Needed(r) && Claim(s, r)[j] == FreeCells(FatOf(s.disk[FAT_CLUSTER_NUMBER]), 0)[j]
    ensures |r.buf| == 2048 * Needed(r) && Write(s, r).code == 0
    ensures Write(s, r).st.disk[Claim(s, r)[j]] == r.buf[2048 * j..2048 * j + 2048]
  {
    hide TableOf, FreeCells, Clash, FatOf, Scatter, Link, TableBytes, FatBytes;
    var cs := Claim(s, r);
    var f := Link(FatOf(s.disk[FAT_CLUSTER_NUMBER]), cs);
    var t := Entered(TableOf(s.disk[r.parent]), r, 0, cs[0]);
    ScatterAt(s.disk[FAT_CLUSTER_NUMBER := FatBytes(f)][r.parent := TableBytes(t)], cs, r.buf, j);
  }

  /** A new folder's own row 0 names it and leads back to its parent; its other rows are what was there. */
  lemma NewFolderTable(s: State, r: Request)
    requires Sound(s) && WriteAsked(s, r) && Write(s, r).code == 0 && r.size == 0
    ensures var c := Claim(s, r)[0]; var t, t' := TableOf(s.disk[c]), TableOf(Write(s, r).st.disk[c]);
      && t'[0] == Row(r.name, r.ext, 0x10, 0xAA, [0, 0, 0, 0, 0, 0, 0], 0, [0, 0, 0, 0], r.parent, 0)
      && forall j :: 1 <= j < ROW_COUNT ==> t'[j] == t[j]
  {
    hide Explains, TableOf, Write, MakeFolder, FreeCells;
    FolderWrite(s, r);
    var c := Claim(s, r)[0];
    WriteIsComplete(s, r);
    assert c in Claim(s, r);
    FreeNotDir(s, RecordOf(s), c);
    DirTable(s, RecordOf(s), r.parent);
    MakeFolderChild(s, r, c);
  }

  lemma FolderWrite(s: State, r: Request)
    requires Fits(r) && Write(s, r).code == 0 && r.size == 0
    ensures Needed(r) <= |FreeCells(FatOf(s.disk[FAT_CLUSTER_NUMBER]), 0)|
    ensures Write(s, r).st == MakeFolder(s, r, Claim(s, r)[0])
  {
    hide TableOf, MakeFolder, FatOf, Clash;
  }

  /** A name is taken exactly if the directory itself or a live row has it, with the same extension or with
      both extensions starting with NUL. */
  lemma DuplicateIff(s: State, r: Request)
    requires Sound(s) && Fits(r) && r.parent in Dirs(s) && r.name != NO_NAME
    ensures Write(s, r).code == 1 <==>
            exists i :: 0 <= i < ROW_COUNT && var row := TableOf(s.disk[r.parent])[i];
              (i == 0 || Live(row)) && row.name == r.name && (row.ext == r.ext || (row.ext[0] == 0 && r.ext[0] == 0))
  {
    hide Explains, TableOf, FreeCells, MakeFolder, StoreFile, FatOf;
    DirTable(s, RecordOf(s), r.parent);
    var t := TableOf(s.disk[r.parent]);
    assert Write(s, r).code == 1 <==> Clash(t, r.name, r.ext);
    if i :| 0 <= i < ROW_COUNT && (i == 0 || Live(t[i])) && t[i].name == r.name
            && (t[i].ext == r.ext || (t[i].ext[0] == 0 && r.ext[0] == 0)) {
      assert i < ROW_COUNT - 1 && Collides(t[i], r.name, r.ext);
    }
    if i :| 0 <= i < ROW_COUNT - 1 && Collides(t[i], r.name, r.ext) {
      assert i == 0 || Live(t[i]);
    }
  }

  /** On any disk: the rows a name is compared with are 0 to 62, flagged or not. */
  lemma ComparedRows(s: State, r: Request)
    requires Fits(r)
    ensures Write(s, r).code == 1 <==>
            && IsDirectoryHead(TableOf(s.disk[r.parent])[0])
            && exists i :: 0 <= i < 63 && var row := TableOf(s.disk[r.parent])[i];
                 row.name == r.name && (row.ext == r.ext || (row.ext[0] == 0 && r.ext[0] == 0))
  {
    hide TableOf, FatOf, FreeCells, MakeFolder, StoreFile;
    var t := TableOf(s.disk[r.parent]);
    if i :| 0 <= i < 63 && t[i].name == r.name && (t[i].ext == r.ext || (t[i].ext[0] == 0 && r.ext[0] == 0)) {
      assert Collides(t[i], r.name, r.ext);
    }
    if i :| 0 <= i < ROW_COUNT - 1 && Collides(t[i], r.name, r.ext) {
      assert t[i].name == r.name;
    }
  }

  /** On any disk: a row whose attribute byte is 1 is not read, and nothing is copied. */
  lemma AttributeOne(s: State, r: Request)
    requires r.parent < CLUSTER_COUNT && Flagged(TableOf(s.disk[r.parent])[0]) && FoundAt(s, r, false) < ROW_COUNT
    requires TableOf(s.disk[r.parent])[FoundAt(s, r, false)].attribute == 1
    ensures ReadEnds(s, r) && Read(s, r).code == 1 && Read(s, r).data == []
  {
    hide TableOf, Find, FatOf;
  }

  /** The flag of line 233 lies in byte 32 parent + 12; the table and the buffer behind it have 4096. */
  lemma FlagOffset(s: State, r: Request)
    requires r.parent < CLUSTER_COUNT
    ensures LeavesMemory(s, r, 512) <==> PassesChecks(s, r) && 32 * r.parent + 12 >= 4096
  {
    hide PassesChecks;
  }

  // ----- a deleted folder

  /** The folder's own table after it has been deleted. */
  lemma DeletedHead(s: State, r: Request)
    requires Sound(s) && DeleteAsked(s, r) && DeleteEnds(s, r) && Delete(s, r).code == 0 && r.parent in Dirs(s)
    requires FoundAt(s, r, true) < ROW_COUNT && IsFolder(TableOf(s.disk[r.parent])[FoundAt(s, r, true)])
    ensures var c := Start(TableOf(s.disk[r.parent])[FoundAt(s, r, true)]);
      && 2 <= c < CLUSTER_MAP_SIZE && c != r.parent
      && var t, t' := TableOf(s.disk[c]), TableOf(Delete(s, r).st.disk[c]);
         && !Flagged(t'[0]) && !IsFolder(t'[0]) && t'[0].name == NO_NAME && t'[0].ext == NO_EXT
         && forall j :: 1 <= j < ROW_COUNT ==> t'[j] == t[j]
  {
    hide Explains, TableOf, TableBytes, FatBytes, AnyFlagged;
    var w, ref := RecordOf(s), Ref(r.parent, FoundAt(s, r, true));
    DeleteEntry(s, w, r);
    DirTable(s, w, r.parent);
    assert RowOf(VolumeOf(s), ref) == TableOf(s.disk[r.parent])[ref.row];
    var c := FolderBelow(VolumeOf(s), w, ref);
    DirTable(s, w, c);
    DroppedFolderTable(s, r, ref.row, c, c);
    ParentIsHead(s, w, r);
  }

  /** A deleted folder is no parent any more, whatever is asked of it: writes return 2, deletes and reads -1,
      and nothing changes. */
  lemma DeletedFolderIsNoParent(s: State, r: Request, q: Request)
    requires Sound(s) && DeleteAsked(s, r) && DeleteEnds(s, r) && Delete(s, r).code == 0 && r.parent in Dirs(s)
    requires FoundAt(s, r, true) < ROW_COUNT && IsFolder(TableOf(s.disk[r.parent])[FoundAt(s, r, true)])
    requires q.parent == Start(TableOf(s.disk[r.parent])[FoundAt(s, r, true)])
    ensures q.parent < CLUSTER_COUNT
    ensures var s' := Delete(s, r).st;
      && (Fits(q) ==> Write(s', q) == Reply(s', 2, []))
      && DeleteEnds(s', q) && Delete(s', q) == Reply(s', -1, [])
      && ReadEnds(s', q) && Read(s', q) == Reply(s', -1, [])
  {
    DeletedHead(s, r);
    NoParent(Delete(s, r).st, q);
  }

  lemma NoParent(s: State, q: Request)
    requires q.parent < CLUSTER_COUNT && !Flagged(TableOf(s.disk[q.parent])[0])
    ensures Fits(q) ==> Write(s, q) == Reply(s, 2, [])
    ensures DeleteEnds(s, q) && Delete(s, q) == Reply(s, -1, [])
    ensures ReadEnds(s, q) && Read(s, q) == Reply(s, -1, [])
  {
    hide TableOf, FatOf, Clash, Find, MakeFolder, StoreFile, DropFile, DropFolder, AnyFlagged, FreeCells;
  }

  // ----- no cluster is lost

  /** The clusters of all rows together. */
  ghost function TotalLength(chains: map<Ref, seq<nat>>): nat {
    if chains == map[] then 0
    else var ref :| ref in chains; |chains[ref]| + TotalLength(chains - {ref})
  }

  ghost function AllCells(chains: map<Ref, seq<nat>>): set<nat> {
    set ref, c | ref in chains && c in chains[ref] :: c
  }

  ghost predicate Separate(chains: map<Ref, seq<nat>>) {
    && (forall ref :: ref in chains ==> Distinct(chains[ref]))
    && (forall a, b, c :: a in chains && b in chains && c in chains[a] && c in chains[b] ==> a == b)
  }

  lemma AllCellsSplit(chains: map<Ref, seq<nat>>, ref: Ref)
    requires Separate(chains) && ref in chains
    ensures AllCells(chains) == Cells(chains[ref]) + AllCells(chains - {ref})
    ensures Cells(chains[ref]) !! AllCells(chains - {ref})
  {
    var rest := chains - {ref};
    forall c | c in AllCells(chains)
      ensures c in Cells(chains[ref]) || c in AllCells(rest)
    {
      var x :| x in chains && c in chains[x];
      if x != ref { assert x in rest && c in rest[x]; }
    }
    forall c | c in AllCells(rest)
      ensures c in AllCells(chains) && c !in chains[ref]
    {
      var x :| x in rest && c in rest[x];
      assert c in chains[x];
    }
  }

  lemma {:induction false} TotalIsCount(chains: map<Ref, seq<nat>>)
    requires Separate(chains)
    ensures TotalLength(chains) == |AllCells(chains)|
    decreases |chains|
  {
    hide AllCells, Separate;
    if chains == map[] {
      NoCells(chains);
    } else {
      var ref :| ref in chains && TotalLength(chains) == |chains[ref]| + TotalLength(chains - {ref});
      SeparateRest(chains, ref);
      TotalIsCount(chains - {ref});
      CellsCount(chains[ref]);
      AllCellsSplit(chains, ref);
    }
  }

  lemma NoCells(chains: map<Ref, seq<nat>>)
    requires chains == map[]
    ensures AllCells(chains) == {}
  {
  }

  lemma SeparateRest(chains: map<Ref, seq<nat>>, ref: Ref)
    requires Separate(chains) && ref in chains
    ensures Separate(chains - {ref}) && Distinct(chains[ref])
  {
  }

  /** Free cells and the clusters of all rows make up the 509 cells from 3 on. */
  lemma ClustersConserved(s: State, w: Record)
    requires Consistent(s, w)
    ensures |FreeCells(s.fat, 0)| + TotalLength(w.chains) == CLUSTER_MAP_SIZE - 3
  {
    hide Explains;
    OwnersAreCells(VolumeOf(s), w);
    TotalIsCount(w.chains);
    FreeCount(s.fat, 0);
    UsableSplit(VolumeOf(s), w);
  }

  lemma OwnersAreCells(v: Volume, w: Record)
    requires Explains(v, w)
    ensures Separate(w.chains) && AllCells(w.chains) == w.owner.Keys
  {
    forall ref | ref in w.chains
      ensures Distinct(w.chains[ref])
    {
      assert RefOk(v, w, ref);
      ChainDistinct(v.fat, Start(RowOf(v, ref)), w.chains[ref]);
    }
    forall c | c in w.owner
      ensures c in AllCells(w.chains)
    {
      assert w.owner[c] in w.chains && c in w.chains[w.owner[c]];
    }
  }

  lemma UsableSplit(v: Volume, w: Record)
    requires Explains(v, w)
    ensures |FreeSet(v.fat, 0)| + |w.owner.Keys| == CLUSTER_MAP_SIZE - 3
  {
    UsedAndFree(v.fat, w.owner.Keys);
  }

  lemma DisjointCount(a: set<nat>, b: set<nat>, all: set<nat>)
    requires forall c :: c in all ==> c in a || c in b
    requires forall c :: c in a ==> c in all && c !in b
    requires forall c :: c in b ==> c in all
    ensures |all| == |a| + |b|
  {
    assert all == a + b;
    assert a !! b;
  }

  lemma UsedAndFree(f: Fat, used: set<nat>)
    requires f[0] != EMPTY_ENTRY && f[1] != EMPTY_ENTRY && f[2] != EMPTY_ENTRY
    requires forall c: nat :: c in used <==> 3 <= c < CLUSTER_MAP_SIZE && f[c] != EMPTY_ENTRY
    ensures |FreeSet(f, 0)| + |used| == CLUSTER_MAP_SIZE - 3
  {
    hide Span;
    var free, all := FreeSet(f, 0), Span(3, CLUSTER_MAP_SIZE);
    forall c | c in free
      ensures c in all && c !in used
    {
      assert c != 0 && c != 1 && c != 2;
    }
    forall c | c in used
      ensures c in all
    {
    }
    forall c | c in all
      ensures c in free || c in used
    {
    }
    DisjointCount(free, used, all);
  }

  // ----- names, the cache, and remounting

  /** In a live directory a live row is what both scans find for its key. */
  lemma KeysAreUnique(s: State, d: nat, i: nat, flagged: bool)
    requires Sound(s) && d in Dirs(s) && d < CLUSTER_COUNT && 1 <= i < ROW_COUNT && Live(TableOf(s.disk[d])[i])
    ensures var row := TableOf(s.disk[d])[i]; Find(TableOf(s.disk[d]), 1, row.name, row.ext, flagged) == i
    ensures i < ROW_COUNT - 1
  {
    hide Explains;
    DirTable(s, RecordOf(s), d);
    FindIs(TableOf(s.disk[d]), i, TableOf(s.disk[d])[i].name, TableOf(s.disk[d])[i].ext, flagged);
  }

  /** After any run the cached FAT is the one on disk, and mounting the disk with any cache gives the
      same state. */
  lemma RemountAfterRun(states: seq<State>, ops: seq<Op>, codes: seq<int>, cache: Fat)
    requires IsRun(states, ops, codes)
    ensures var s := states[|ops|];
      s.fat == FatOf(s.disk[FAT_CLUSTER_NUMBER]) && Mount(State(s.disk, cache)) == s
  {
    hide Explains;
    RunIsSound(states, ops, codes, |ops|);
    MountRestores(states[|ops|], cache);
    assert Consistent(states[|ops|], RecordOf(states[|ops|]));
  }
}
