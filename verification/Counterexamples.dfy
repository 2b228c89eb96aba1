/** Calls that succeed and leave the disk inconsistent, one for each condition of a safe write or delete;
    an empty folder that cannot be deleted; requests that leave the map or copy more than asked for; and two
    writes that meet the conditions. */
module Counterexamples {
  import opened Words
  import opened Layout
  import opened Chains
  import opened FileSystem
  import opened Ownership
  import opened Soundness
  import opened SafeWrites
  import opened WriteRefinement
  import opened Abstraction
  import opened Guarantees
  import opened EmptyFolders
  import Vfs

  /** A formatted disk on which cluster c holds the bytes b. */
  function FormattedWith(c: nat, b: Cluster): State
    requires 2 <= c < CLUSTER_COUNT
  {
    var s := Format(State(seq<Cluster>(CLUSTER_COUNT, _ => BLANK), seq<u32>(CLUSTER_MAP_SIZE, _ => 0)));
    State(s.disk[c := b], s.fat)
  }

  const NAME_A: Name := [0x61, 0, 0, 0, 0, 0, 0, 0]

  function OneByteFile(parent: u32): Request {
    Request(parent, NAME_A, NO_EXT, 1, BLANK)
  }

  function NewFolder(): Request {
    Request(ROOT_CLUSTER_NUMBER, NAME_A, NO_EXT, 0, [])
  }

  lemma StartIsSound(c: nat, b: Cluster)
    requires 2 <= c < CLUSTER_COUNT
    requires c == 2 ==> TableOk(TableOf(b)) && Nameless(TableOf(b)) && Start(TableOf(b)[0]) == 2
    ensures var s := FormattedWith(c, b);
      && Consistent(s, FRESH_RECORD)
      && s.fat == FatOf(s.disk[FAT_CLUSTER_NUMBER]) && s.fat[3] == EMPTY_ENTRY
      && s.disk[c] == b && (c != 2 ==> TableOf(s.disk[2]) == RootTable())
      && |FreeCells(s.fat, 0)| > 0 && FreeCells(s.fat, 0)[0] == 3
  {
    FormattedFacts(c, b);
    hide FormattedWith, FreeCells, TableOf, RootTable, TableOk, Nameless;
    var s := FormattedWith(c, b);
    FirstFree(s.fat);
    RootIsTable();
    assert VolumeOf(s).tabs[2] == TableOf(s.disk[2]);
    FreshExplains(VolumeOf(s));
  }

  lemma FormattedFacts(c: nat, b: Cluster)
    requires 2 <= c < CLUSTER_COUNT
    ensures var s := FormattedWith(c, b);
      && !EmptyStorage(s) && s.fat == FatOf(s.disk[FAT_CLUSTER_NUMBER]) && CellsOk(VolumeOf(s))
      && (forall i :: 3 <= i < CLUSTER_MAP_SIZE ==> s.fat[i] == EMPTY_ENTRY)
      && s.disk[c] == b && (c != 2 ==> TableOf(s.disk[2]) == RootTable())
  {
    FormatDisk(State(seq<Cluster>(CLUSTER_COUNT, _ => BLANK), seq<u32>(CLUSTER_MAP_SIZE, _ => 0)));
  }

  lemma FirstFree(f: Fat)
    requires f[0] != EMPTY_ENTRY && f[1] != EMPTY_ENTRY && f[2] != EMPTY_ENTRY && f[3] == EMPTY_ENTRY
    ensures |FreeCells(f, 0)| > 0 && FreeCells(f, 0)[0] == 3
  {
    assert FreeCells(f, 0) == FreeCells(f, 1);
    assert FreeCells(f, 1) == FreeCells(f, 2);
    assert FreeCells(f, 2) == FreeCells(f, 3);
  }

  lemma Accepted(s: State, r: Request, t: Table)
    requires Fits(r) && Needed(r) == 1 && TableOf(s.disk[r.parent]) == t && IsDirectoryHead(t[0])
    requires forall i :: 0 <= i < ROW_COUNT - 1 ==> t[i].name[0] != r.name[0]
    requires s.fat == FatOf(s.disk[FAT_CLUSTER_NUMBER]) && |FreeCells(s.fat, 0)| > 0
    ensures Write(s, r).code == 0 && Claim(s, r)[0] == FreeCells(s.fat, 0)[0]
  {
    hide MakeFolder, StoreFile;
    assert !Clash(t, r.name, r.ext);
  }

  lemma RequestsFit(parent: nat)
    requires parent < CLUSTER_COUNT
    ensures Fits(OneByteFile(parent)) && Needed(OneByteFile(parent)) == 1 && Fits(NewFolder()) && Needed(NewFolder()) == 1
    ensures NAME_A != NO_NAME && NAME_A[0] == 0x61
    ensures forall i :: 0 <= i < ROW_COUNT - 1 ==> RootTable()[i].name[0] != NAME_A[0]
  {
    assert ROOT_NAME[0] == 0x72 && NAME_A[0] == 0x61 && NO_NAME[0] == 0;
  }

  // ----- a full directory

  const FLAGGED_ROW := Row(NO_NAME, NO_EXT, 0, UATTR_NOT_EMPTY, [0, 0, 0, 0, 0, 0, 0], 0, [0, 0, 0, 0], 0, 0)

  function FullTable(): Table {
    seq<Row>(ROW_COUNT, i => if i == 0 then Entry(ROOT_NAME, NO_EXT, ATTR_SUBDIRECTORY, ROOT_CLUSTER_NUMBER, 0)
                             else if i == ROW_COUNT - 1 then EMPTY_ROW else FLAGGED_ROW)
  }

  lemma FullTableOk()
    ensures var t := FullTable();
      TableOk(t) && Nameless(t) && Start(t[0]) == ROOT_CLUSTER_NUMBER && !HasFreeRow(t)
      && forall i :: 0 <= i < ROW_COUNT - 1 ==> t[i].name[0] != 0x61
  {
    assert ROOT_NAME[0] == 0x72 && NO_NAME[0] == 0;
  }

  /** In a root whose rows 1 to 62 are all flagged, the new entry replaces the root's own row 0. */
  lemma FullDirectoryExample()
    ensures var s, r := FormattedWith(2, TableBytes(FullTable())), OneByteFile(2);
      Sound(s) && Write(s, r).code == 0 && !Sound(Write(s, r).st)
  {
    hide Explains, FormattedWith, Write, HasFreeRow, FullTable, TableBytes, TableOf, TableOk, OneByteFile;
    var t := FullTable();
    var s, r := FormattedWith(2, TableBytes(t)), OneByteFile(2);
    TableRoundTrip(t);
    FullTableOk();
    RequestsFit(2);
    StartIsSound(2, TableBytes(t));
    TheRecord(s, FRESH_RECORD);
    assert r.parent == 2 && r.name == NAME_A by { OneByteFields(2); }
    Accepted(s, r, t);
    WriteKeepsSoundIff(s, r);
  }

  lemma OneByteFields(parent: u32)
    ensures OneByteFile(parent).parent == parent && OneByteFile(parent).name == NAME_A && OneByteFile(parent).size == 1
    ensures OneByteFile(parent).ext == NO_EXT
  {
  }

  // ----- leftover rows

  /** The first byte of row 1. */
  function LeftoverBytes(): Cluster {
    BLANK[32 := 0x41]
  }

  /** A folder made on a cluster that once held other bytes takes over a row nobody owns. */
  lemma LeftoverExample()
    ensures var s, r := FormattedWith(3, LeftoverBytes()), NewFolder();
      Sound(s) && Write(s, r).code == 0 && !Sound(Write(s, r).st)
  {
    hide Explains, FormattedWith, Write, HasFreeRow, RootTable, LeftoverBytes, TableOf, TableOk, Nameless;
    var s, r := FormattedWith(3, LeftoverBytes()), NewFolder();
    RequestsFit(2);
    StartIsSound(3, LeftoverBytes());
    TheRecord(s, FRESH_RECORD);
    RootIsTable();
    HeadOfOk(RootTable());
    Accepted(s, r, RootTable());
    LeftoverIsLive();
    WriteKeepsSoundIff(s, r);
  }

  lemma HeadOfOk(t: Table)
    requires TableOk(t)
    ensures IsDirectoryHead(t[0])
  {
  }

  lemma LeftoverIsLive()
    ensures !Nameless(TableOf(LeftoverBytes()))
  {
    var c := LeftoverBytes();
    assert TableOf(c)[1].name[0] == c[32] == 0x41;
    assert NO_NAME[0] == 0;
  }

  // ----- a forged parent

  /** A free cluster whose old bytes look like a directory is accepted as parent; what is written there
      belongs to nobody. */
  lemma ForgedParentExample()
    ensures var s, r := FormattedWith(3, TableBytes(RootTable())), OneByteFile(3);
      Sound(s) && Write(s, r).code == 0 && !Sound(Write(s, r).st)
  {
    hide Explains, FormattedWith, Write, HasFreeRow, RootTable, TableBytes, TableOf, TableOk, OneByteFile;
    var s, r := FormattedWith(3, TableBytes(RootTable())), OneByteFile(3);
    RequestsFit(3);
    StartIsSound(3, TableBytes(RootTable()));
    TheRecord(s, FRESH_RECORD);
    TableRoundTrip(RootTable());
    RootIsTable();
    HeadOfOk(RootTable());
    OneByteFields(3);
    Accepted(s, r, RootTable());
    WriteKeepsSoundIff(s, r);
  }

  // ----- a name of eight NULs

  function NulName(): Request {
    Request(ROOT_CLUSTER_NUMBER, NO_NAME, [0x78, 0, 0], 1, BLANK)
  }

  lemma AcceptedByExt(s: State, r: Request)
    requires Fits(r) && Needed(r) == 1 && r.parent == 2 && TableOf(s.disk[2]) == RootTable()
    requires r.name == NO_NAME && r.ext[0] != 0
    requires s.fat == FatOf(s.disk[FAT_CLUSTER_NUMBER]) && |FreeCells(s.fat, 0)| > 0
    ensures Write(s, r).code == 0
  {
    hide MakeFolder, StoreFile, TableOf, FatOf, FreeCells;
    assert ROOT_NAME[0] == 0x72 && NO_NAME[0] == 0;
    assert forall i :: 0 <= i < ROW_COUNT ==> RootTable()[i].ext == NO_EXT && NO_EXT[0] == 0;
    assert !Clash(RootTable(), r.name, r.ext);
  }

  lemma NulNameFields()
    ensures var r := NulName(); Fits(r) && Needed(r) == 1 && r.parent == 2 && r.name == NO_NAME && r.ext[0] == 0x78
  {
  }

  /** A file whose name is eight NULs is accepted, and no call finds it again. */
  lemma NulNameExample()
    ensures var s, r := FormattedWith(3, BLANK), NulName();
      Sound(s) && Write(s, r).code == 0 && !Sound(Write(s, r).st)
  {
    hide Explains, FormattedWith, Write, HasFreeRow, RootTable, TableBytes, TableOf, TableOk, NulName, FreeCells;
    var s, r := FormattedWith(3, BLANK), NulName();
    NulNameFields();
    StartIsSound(3, BLANK);
    TheRecord(s, FRESH_RECORD);
    AcceptedByExt(s, r);
    WriteKeepsSoundIff(s, r);
  }

  // ----- a delete through a forged parent

  function ForgedTable(): Table {
    RootTable()[1 := Entry(NAME_A, NO_EXT, 0, ROOT_CLUSTER_NUMBER, 1)]
  }

  lemma ForgedTableFacts()
    ensures var t := ForgedTable();
      IsDirectoryHead(t[0]) && Find(t, 1, NAME_A, NO_EXT, true) == 1 && !IsFolder(t[1]) && Start(t[1]) == 2
  {
  }

  lemma RootChain(f: Fat)
    requires f[2] == END_OF_FILE
    ensures HasChain(f, 2)
  {
    assert IsChain(f, 2, [2]);
  }

  /** A free cluster whose old bytes look like a directory with a file at cluster 2: deleting that file
      frees the root. */
  lemma ForgedDeleteExample()
    ensures var s, r := FormattedWith(3, TableBytes(ForgedTable())), OneByteFile(3);
      Sound(s) && DeleteEnds(s, r) && Delete(s, r).code == 0 && !Sound(Delete(s, r).st)
  {
    hide Explains, FormattedWith, RootTable, ForgedTable, TableBytes, TableOf, TableOk, OneByteFile, FreeCells, Delete, DeleteEnds, HasChain;
    var s, r := FormattedWith(3, TableBytes(ForgedTable())), OneByteFile(3);
    StartIsSound(3, TableBytes(ForgedTable()));
    TheRecord(s, FRESH_RECORD);
    TableRoundTrip(ForgedTable());
    ForgedTableFacts();
    OneByteFields(3);
    RootCell(s);
    RootChain(s.fat);
    DeletesFile(s, r, ForgedTable());
    DeleteKeepsSoundIff(s, r);
  }

  lemma DeletesFile(s: State, r: Request, t: Table)
    requires r.parent < CLUSTER_COUNT && TableOf(s.disk[r.parent]) == t && IsDirectoryHead(t[0])
    requires Find(t, 1, r.name, r.ext, true) == 1 && !IsFolder(t[1]) && HasChain(s.fat, Start(t[1]))
    ensures DeleteEnds(s, r) && Delete(s, r).code == 0 && FoundAt(s, r, true) == 1
  {
    hide TableOf, Find, DropFile;
  }

  lemma RootCell(s: State)
    requires Consistent(s, FRESH_RECORD)
    ensures s.fat[2] == END_OF_FILE
  {
  }

  // ----- an empty folder that stays

  const NAME_B: Name := [0x62, 0, 0, 0, 0, 0, 0, 0]

  function InnerFile(): Request {
    Request(3, NAME_B, NO_EXT, 1, BLANK)
  }

  lemma InnerFileFields()
    ensures var f := InnerFile();
      Fits(f) && Needed(f) == 1 && f.parent == 3 && f.size > 0
      && f.name != NO_NAME && f.name != NewFolder().name
  {
    assert NAME_B[0] == 0x62 && NAME_A[0] == 0x61 && NO_NAME[0] == 0;
  }

  lemma FolderClaim()
    ensures var s := FormattedWith(3, BLANK);
      Fits(NewFolder()) && Needed(NewFolder()) == 1
      && |FreeCells(FatOf(s.disk[FAT_CLUSTER_NUMBER]), 0)| >= 1 && Claim(s, NewFolder())[0] == 3
  {
    hide FormattedWith, TableOf, FatOf, FreeCells, Explains;
    RequestsFit(2);
    StartIsSound(3, BLANK);
  }

  /** A fresh disk has 509 free clusters. */
  lemma FreshIsFree()
    ensures |FreeCells(FormattedWith(3, BLANK).fat, 0)| == 509
  {
    hide FormattedWith, FreeCells, Explains;
    StartIsSound(3, BLANK);
    ClustersConserved(FormattedWith(3, BLANK), FRESH_RECORD);
    assert TotalLength(map[]) == 0;
  }

  lemma BlankIsUnflagged()
    ensures !AnyFlagged(TableOf(BLANK))
  {
    forall i | 1 <= i < ROW_COUNT
      ensures TableOf(BLANK)[i].userAttribute == 0
    {
      assert BLANK[ROW_SIZE * i + 12] == 0;
    }
  }

  /** On a fresh disk: make a folder, write a file in it, delete the file; the empty folder is refused. */
  lemma StuckFolderExample()
    ensures var s := FormattedWith(3, BLANK); Sound(s) && WriteAsked(s, NewFolder()) && Write(s, NewFolder()).code == 0
    ensures var s1 := Write(FormattedWith(3, BLANK), NewFolder()).st;
      && Sound(s1) && WriteAsked(s1, InnerFile()) && Write(s1, InnerFile()).code == 0
      && var s2 := Write(s1, InnerFile()).st;
         && DeleteEnds(s2, InnerFile()) && Delete(s2, InnerFile()).code == 0
         && var s3 := Delete(s2, InnerFile()).st;
            && Sound(s3) && 3 in Dirs(s3) && !Vfs.Occupied(TreeOf(s3), 3)
            && DeleteEnds(s3, NewFolder()) && Delete(s3, NewFolder()).code == 2
  {
    hide Explains, FormattedWith, Write, Delete, TableOf, TreeOf, FreeCells, AnyFlagged, Vfs.Occupied, InnerFile;
    var s := FormattedWith(3, BLANK);
    SafeExample();
    FolderClaim();
    FreshIsFree();
    BlankIsUnflagged();
    InnerFileFields();
    StartIsSound(3, BLANK);
    FolderAfterUse(s, NewFolder(), InnerFile());
  }

  // ----- a request that drives the scan out of the map

  /** One file of 510 clusters, one more than a fresh disk has. */
  function TooLarge(): Request {
    Request(ROOT_CLUSTER_NUMBER, NAME_A, NO_EXT, 0xF_F000, Zeros(0xF_F000))
  }

  /** On a fresh disk the shipped scan bound 0x800 does not stop the search for 510 clusters in time. */
  lemma TooLargeExample()
    ensures var s, r := FormattedWith(3, BLANK), TooLarge();
      Sound(s) && WriteAsked(s, r) && PassesChecks(s, r) && LeavesMemory(s, r, 0x800) && !LeavesMemory(s, r, 512)
  {
    hide Explains, FormattedWith, TableOf, FatOf, FreeCells, RootTable, MakeFolder, StoreFile;
    var s, r := FormattedWith(3, BLANK), TooLarge();
    StartIsSound(3, BLANK);
    TheRecord(s, FRESH_RECORD);
    FreshIsFree();
    RequestsFit(2);
    RootIsTable();
    HeadOfOk(RootTable());
    assert !Clash(RootTable(), r.name, r.ext);
  }

  // ----- a key of NULs only

  /** The empty name and extension in the root. */
  function EmptyKey(): Request {
    Request(ROOT_CLUSTER_NUMBER, NO_NAME, NO_EXT, 0, [])
  }

  lemma EmptyRowFound()
    ensures var t := RootTable();
      Flagged(t[0]) && Find(t, 1, NO_NAME, NO_EXT, false) == 1
      && t[1].attribute == 0 && t[1].filesize == 0 && Start(t[1]) == 0
  {
  }

  lemma ReadsCellZero(s: State, r: Request, t: Table)
    requires r.parent < CLUSTER_COUNT && TableOf(s.disk[r.parent]) == t && Flagged(t[0])
    requires Find(t, 1, r.name, r.ext, false) == 1
    requires t[1].attribute == 0 && t[1].filesize == 0 && Start(t[1]) == 0
    ensures !ReadStartsInUse(s, r)
  {
    hide TableOf, Find, FatOf;
  }

  /** On a fresh disk a read of the empty key in the root finds the empty row 1 and leaves the map at
      cell 0. */
  lemma NulReadExample()
    ensures var s := FormattedWith(3, BLANK); Sound(s) && 2 in Dirs(s) && !ReadEnds(s, EmptyKey())
  {
    hide Explains, FormattedWith, RootTable, TableOf, TableOk, FreeCells, Find, ReadEnds;
    var s := FormattedWith(3, BLANK);
    StartIsSound(3, BLANK);
    TheRecord(s, FRESH_RECORD);
    EmptyRowFound();
    ReadsCellZero(s, EmptyKey(), RootTable());
    ReadEndsIff(s, EmptyKey());
  }

  lemma NothingFlagged()
    ensures var t := RootTable(); IsDirectoryHead(t[0]) && Find(t, 1, NO_NAME, NO_EXT, true) == ROW_COUNT
  {
    var i := Find(RootTable(), 1, NO_NAME, NO_EXT, true);
    assert forall j :: 1 <= j < ROW_COUNT ==> !Flagged(RootTable()[j]);
  }

  lemma FindsNothing(s: State, r: Request, t: Table)
    requires r.parent < CLUSTER_COUNT && TableOf(s.disk[r.parent]) == t && IsDirectoryHead(t[0])
    requires Find(t, 1, r.name, r.ext, true) == ROW_COUNT
    ensures DeleteEnds(s, r) && Delete(s, r) == Reply(s, 1, [])
  {
    hide TableOf, Find;
  }

  /** On a fresh disk a delete of the empty key finds nothing: unlike a read it looks for flagged rows. */
  lemma NulDeleteOnFresh()
    ensures var s := FormattedWith(3, BLANK); DeleteEnds(s, EmptyKey()) && Delete(s, EmptyKey()) == Reply(s, 1, [])
  {
    hide Explains, FormattedWith, RootTable, TableOf, TableOk, FreeCells, Find, DeleteEnds, Delete;
    StartIsSound(3, BLANK);
    NothingFlagged();
    FindsNothing(FormattedWith(3, BLANK), EmptyKey(), RootTable());
  }

  /** The root after one file: row 2 is flagged and has no name. */
  lemma FlaggedRowFound(c: nat)
    requires c < CLUSTER_MAP_SIZE
    ensures var u := Entered(RootTable(), OneByteFile(2), 0, c);
      IsDirectoryHead(u[0]) && Find(u, 1, NO_NAME, NO_EXT, true) == 2 && !IsFolder(u[2]) && Start(u[2]) == 0
  {
    LastRowFree(RootTable());
    hide FreeRow;
    var u := Entered(RootTable(), OneByteFile(2), 0, c);
    assert !Flagged(u[1]) && u[2] == EMPTY_ROW.(userAttribute := UATTR_NOT_EMPTY);
    assert Find(u, 2, NO_NAME, NO_EXT, true) == 2;
  }

  lemma DeletesCellZero(s: State, r: Request, t: Table)
    requires r.parent < CLUSTER_COUNT && TableOf(s.disk[r.parent]) == t && IsDirectoryHead(t[0])
    requires Find(t, 1, r.name, r.ext, true) == 2 && !IsFolder(t[2]) && Start(t[2]) == 0
    ensures !DeleteStartsInUse(s, r)
  {
    hide TableOf, Find;
  }

  /** After one safe write in the root of a fresh disk, a delete of the empty key finds the row that the
      write flagged and leaves the map at cell 0. */
  lemma NulDeleteExample()
    ensures Sound(FormattedWith(3, BLANK)) && WriteAsked(FormattedWith(3, BLANK), OneByteFile(2))
    ensures var s := Write(FormattedWith(3, BLANK), OneByteFile(2)).st;
      Sound(s) && 2 in Dirs(s) && !DeleteEnds(s, EmptyKey())
  {
    hide Explains, FormattedWith, RootTable, TableOf, TableOk, FreeCells, Find, DeleteEnds, Write, Entered, OneByteFile;
    var s, r := FormattedWith(3, BLANK), OneByteFile(2);
    SafeExample();
    StartIsSound(3, BLANK);
    OneByteFields(2);
    WriteIsComplete(s, r);
    WriteTable(s, RecordOf(s), r, 2);
    FlaggedRowFound(Claim(s, r)[0]);
    DeletesCellZero(Write(s, r).st, EmptyKey(), TableOf(Write(s, r).st.disk[2]));
    DeleteEndsIff(Write(s, r).st, EmptyKey());
  }

  // ----- more bytes than asked for

  /** A file of one byte, read with size 1: 2048 bytes are copied. */
  lemma OneByteReadExample()
    ensures Sound(FormattedWith(3, BLANK)) && WriteAsked(FormattedWith(3, BLANK), OneByteFile(2))
    ensures var s, q := Write(FormattedWith(3, BLANK), OneByteFile(2)).st, OneByteFile(2);
      q.size == 1 && ReadEnds(s, q) && Read(s, q).code == 0 && |Read(s, q).data| == 2048
  {
    hide Explains, FormattedWith, Write, Read;
    SafeExample();
    WriteThenRead(FormattedWith(3, BLANK), OneByteFile(2), OneByteFile(2));
  }

  // ----- calls that are safe

  /** On a freshly formatted disk the first file and the first folder are accepted and safe. */
  lemma SafeExample()
    ensures var s := FormattedWith(3, BLANK);
      && Sound(s)
      && WriteAsked(s, OneByteFile(2)) && Write(s, OneByteFile(2)).code == 0
      && WriteAsked(s, NewFolder()) && Write(s, NewFolder()).code == 0
  {
    hide Explains, FormattedWith, Write, HasFreeRow, RootTable, TableBytes, TableOf, TableOk, Nameless, OneByteFile;
    var s := FormattedWith(3, BLANK);
    RequestsFit(2);
    StartIsSound(3, BLANK);
    TheRecord(s, FRESH_RECORD);
    RootIsTable();
    HeadOfOk(RootTable());
    OneByteFields(2);
    Accepted(s, OneByteFile(2), RootTable());
    Accepted(s, NewFolder(), RootTable());
    BlankIsNameless();
    RootHasFreeRow();
  }

  lemma BlankIsNameless()
    ensures Nameless(TableOf(BLANK))
  {
    forall i | 1 <= i < ROW_COUNT
      ensures TableOf(BLANK)[i].name == NO_NAME
    {
      var o := ROW_SIZE * i;
      assert BLANK[o..o + 8] == NO_NAME;
    }
  }

  lemma RootHasFreeRow()
    ensures HasFreeRow(RootTable())
  {
    assert !Flagged(RootTable()[1]);
  }
}
