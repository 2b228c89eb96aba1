/** Exactly when a write, a delete and formatting keep the disk consistent, and that mounting does. */
module SafeWrites {
  import opened Layout
  import opened Chains
  import opened FileSystem
  import opened Ownership
  import opened Soundness

  // ----- what no later volume can hide

  /** Every owned row of v is still there in v'. */
  ghost predicate RowsPersist(v: Volume, w: Record, v': Volume) {
    forall r: Ref :: r in w.chains && r.dir < CLUSTER_COUNT && r.row < ROW_COUNT ==>
      RowOf(v', r) == RowOf(v, r).(userAttribute := RowOf(v', r).userAttribute)
  }

  /** Every owned row and every owned FAT cell of v is still there in v'. */
  ghost predicate Persists(v: Volume, w: Record, v': Volume) {
    && RowsPersist(v, w, v')
    && (forall c :: c in w.owner && c < CLUSTER_MAP_SIZE ==> v'.fat[c] == v.fat[c])
  }

  lemma {:induction false} DirsStay(v: Volume, w: Record, v': Volume, w': Record, d: nat)
    requires Explains(v, w) && Explains(v', w') && RowsPersist(v, w, v') && d in w.depth
    ensures d in w'.depth
    decreases w.depth[d]
  {
    if d != ROOT_CLUSTER_NUMBER {
      DirChain(v, w, d);
      var up := w.owner[d];
      assert LevelOk(v, w, d) && IsRef(v, w, up);
      DirsStay(v, w, v', w', up.dir);
      assert IsRef(v', w', up);
      assert up in w'.chains && RefOk(v', w', up);
    }
  }

  lemma ChainOwned(v: Volume, w: Record, r: Ref)
    requires Explains(v, w) && r in w.chains
    ensures forall c :: c in w.chains[r] ==> c in w.owner
  {
  }

  lemma ChainsStay(v: Volume, w: Record, v': Volume, w': Record, r: Ref)
    requires Explains(v, w) && Explains(v', w') && Persists(v, w, v') && r in w.chains
    ensures r in w'.chains && w'.chains[r] == w.chains[r]
  {
    OwnedRow(v, w, r);
    DirsStay(v, w, v', w', r.dir);
    LiveRowOwns(v', w', r);
    ChainOwned(v, w, r);
    hide Explains;
    ChainFrame(v.fat, v'.fat, Start(RowOf(v, r)), w.chains[r]);
    ChainUnique(v'.fat, Start(RowOf(v, r)), w.chains[r], w'.chains[r]);
  }

  lemma OwnersStay(v: Volume, w: Record, v': Volume, w': Record, c: nat)
    requires Explains(v, w) && Explains(v', w') && Persists(v, w, v') && c in w.owner
    ensures c in w'.owner && w'.owner[c] == w.owner[c]
  {
    ChainsStay(v, w, v', w', w.owner[c]);
    assert c in w'.chains[w.owner[c]];
  }

  // ----- the three ways a write breaks the disk

  /** In a consistent result no live directory has had its own row 0 replaced by an entry. */
  lemma HeadKept(v: Volume, w: Record, v': Volume, w': Record, p: nat, c: nat)
    requires Explains(v, w) && Explains(v', w') && Persists(v, w, v') && p in w.depth && p < CLUSTER_COUNT
    requires c < CLUSTER_MAP_SIZE && v.fat[c] == EMPTY_ENTRY
    ensures IsFolder(v'.tabs[p][0]) && Start(v'.tabs[p][0]) != c
  {
    DirsStay(v, w, v', w', p);
    assert DirOk(v', p);
    DirClaimed(v, w, p);
    if p != ROOT_CLUSTER_NUMBER {
      DirChain(v, w, p);
      DirChain(v', w', p);
      OwnersStay(v, w, v', w', p);
      assert IsRef(v, w, w.owner[p]);
      DirClaimed(v, w, w.owner[p].dir);
    }
  }

  /** In a consistent result the new folder's cluster holds no leftover name: nobody could own that row. */
  lemma NoLeftover(v: Volume, w: Record, v': Volume, w': Record, ref: Ref, c: nat, j: nat)
    requires Explains(v, w) && Explains(v', w') && Persists(v, w, v')
    requires ref in w'.chains && w'.chains[ref] == [c] && ref.dir in w.depth && c in w'.depth
    requires c < CLUSTER_MAP_SIZE && v.fat[c] == EMPTY_ENTRY
    requires v'.fat == Link(v.fat, [c])
    requires 1 <= j < ROW_COUNT
    ensures !Live(v'.tabs[c][j])
  {
    var left := Ref(c, j);
    if IsRef(v', w', left) {
      assert left in w'.chains && RefOk(v', w', left);
      var x := w'.chains[left][0];
      assert x in w'.chains[left] && c in w'.chains[ref];
      DirClaimed(v, w, ref.dir);
      if x != c {
        assert v.fat[x] == v'.fat[x];
        OwnersStay(v, w, v', w', x);
        assert IsRef(v, w, w.owner[x]);
        DirClaimed(v, w, w.owner[x].dir);
      }
    }
  }

  /** In the live directories of v, v' has no live row that v does not have. */
  ghost predicate NoNewRows(v: Volume, w: Record, v': Volume) {
    forall r: Ref :: r.dir in w.depth && r.dir < CLUSTER_COUNT && 1 <= r.row < ROW_COUNT && Live(RowOf(v', r)) ==>
      RowOf(v', r) == RowOf(v, r)
  }

  lemma {:induction false} NoNewDirs(v: Volume, w: Record, v': Volume, w': Record, d: nat)
    requires Explains(v, w) && Explains(v', w')
    requires NoNewRows(v, w, v')
    requires d in w'.depth
    ensures d in w.depth
    decreases w'.depth[d]
  {
    if d != ROOT_CLUSTER_NUMBER {
      DirChain(v', w', d);
      var up := w'.owner[d];
      assert LevelOk(v', w', d) && IsRef(v', w', up);
      NoNewDirs(v, w, v', w', up.dir);
      assert IsRef(v, w, up);
      assert up in w.chains && RefOk(v, w, up);
    }
  }

  /** Without a new live row, the claimed clusters belong to no row of the tree. */
  lemma ClustersLeak(v: Volume, w: Record, v': Volume, w': Record, cs: seq<nat>)
    requires Explains(v, w) && Persists(v, w, v')
    requires NoNewRows(v, w, v')
    requires 0 < |cs| && InMap(cs) && Distinct(cs) && forall c :: c in cs ==> v.fat[c] == EMPTY_ENTRY
    requires v'.fat == Link(v.fat, cs)
    ensures !Explains(v', w')
  {
    var c := cs[0];
    assert c in cs && v.fat[0] != EMPTY_ENTRY;
    FreeBeyondReserved(v, c);
    LinkClaims(v.fat, cs, c);
    if Explains(v', w') {
      var r := w'.owner[c];
      assert IsRef(v', w', r);
      NoNewDirs(v, w, v', w', r.dir);
      assert IsRef(v, w, r);
      ChainsStay(v, w, v', w', r);
    }
  }

  // ----- writes on disk states

  function AttributeFor(r: Request): byte {
    if r.size == 0 then ATTR_SUBDIRECTORY else 0
  }

  lemma StoreFileTables(s: State, w: Record, r: Request, cs: seq<nat>, d: nat)
    requires Consistent(s, w) && Fits(r) && 2 <= r.parent && d in w.depth
    requires 0 < |cs| == ClustersFor(r.size) && InMap(cs) && forall c :: c in cs ==> s.fat[c] == EMPTY_ENTRY
    ensures d < CLUSTER_MAP_SIZE && d !in cs
    ensures TableOf(StoreFile(s, r, cs).disk[d]) ==
            if d == r.parent then Entered(TableOf(s.disk[d]), r, 0, cs[0]) else TableOf(s.disk[d])
  {
    DirClaimed(VolumeOf(s), w, d);
    StoreFileDisk(s, r, cs, d);
    TableRoundTrip(Entered(TableOf(s.disk[r.parent]), r, 0, cs[0]));
  }

  lemma MakeFolderTables(s: State, w: Record, r: Request, c: nat, d: nat)
    requires Consistent(s, w) && Fits(r) && 2 <= r.parent && d in w.depth
    requires c < CLUSTER_MAP_SIZE && s.fat[c] == EMPTY_ENTRY
    ensures d < CLUSTER_MAP_SIZE && d != c
    ensures TableOf(MakeFolder(s, r, c).disk[d]) ==
            if d == r.parent then Entered(TableOf(s.disk[d]), r, ATTR_SUBDIRECTORY, c) else TableOf(s.disk[d])
  {
    DirClaimed(VolumeOf(s), w, d);
    MakeFolderDisk(s, r, c, d);
    TableRoundTrip(Entered(TableOf(s.disk[r.parent]), r, ATTR_SUBDIRECTORY, c));
  }

  /** A parent that passes the test of its row 0 is neither the boot cluster nor the FAT's. */
  lemma ParentNotReserved(s: State, w: Record, r: Request)
    requires Consistent(s, w) && r.parent < CLUSTER_COUNT && IsDirectoryHead(TableOf(s.disk[r.parent])[0])
    ensures 2 <= r.parent
  {
    ReservedNotDirectory(s, w);
    assert r.parent < 2 ==> r.parent == 0 || r.parent == FAT_CLUSTER_NUMBER;
  }

  /** What a successful write leaves in the live directories, in the FAT, and in a new folder. */
  ghost predicate Wrote(s: State, w: Record, r: Request, s': State, cs: seq<nat>) {
    && 0 < |cs| && InMap(cs) && Distinct(cs) && (forall c :: c in cs ==> s.fat[c] == EMPTY_ENTRY)
    && s'.fat == Link(s.fat, cs)
    && (forall d :: d in w.depth && d < CLUSTER_COUNT ==> TableAfter(s, r, s', cs, d))
    && (r.size == 0 && r.parent in w.depth ==>
          |cs| == 1 && TableOf(s'.disk[cs[0]])[1..] == TableOf(s.disk[cs[0]])[1..])
  }

  predicate TableAfter(s: State, r: Request, s': State, cs: seq<nat>, d: nat)
    requires 0 < |cs| && InMap(cs) && d < CLUSTER_COUNT
  {
    TableOf(s'.disk[d]) ==
      if d == r.parent then Entered(TableOf(s.disk[d]), r, AttributeFor(r), cs[0]) else TableOf(s.disk[d])
  }

  lemma StoreFileWrote(s: State, w: Record, r: Request, cs: seq<nat>)
    requires Consistent(s, w) && Fits(r) && 2 <= r.parent && r.size > 0
    requires |cs| == ClustersFor(r.size) > 0 && InMap(cs) && Distinct(cs)
    requires forall c :: c in cs ==> s.fat[c] == EMPTY_ENTRY
    ensures Wrote(s, w, r, StoreFile(s, r, cs), cs)
  {
    forall d | d in w.depth && d < CLUSTER_COUNT
      ensures TableAfter(s, r, StoreFile(s, r, cs), cs, d)
    {
      StoreFileTables(s, w, r, cs, d);
    }
  }

  lemma MakeFolderAfter(s: State, w: Record, r: Request, c: nat, d: nat)
    requires Consistent(s, w) && Fits(r) && 2 <= r.parent && r.size == 0 && d in w.depth && d < CLUSTER_COUNT
    requires c < CLUSTER_MAP_SIZE && s.fat[c] == EMPTY_ENTRY
    ensures TableAfter(s, r, MakeFolder(s, r, c), [c], d)
  {
    MakeFolderTables(s, w, r, c, d);
  }

  lemma MakeFolderWrote(s: State, w: Record, r: Request, c: nat)
    requires Consistent(s, w) && Fits(r) && 2 <= r.parent && r.size == 0
    requires c < CLUSTER_MAP_SIZE && s.fat[c] == EMPTY_ENTRY
    ensures Wrote(s, w, r, MakeFolder(s, r, c), [c])
  {
    hide Explains, TableAfter;
    FreeNotDir(s, w, c);
    forall d | d in w.depth && d < CLUSTER_COUNT
      ensures TableAfter(s, r, MakeFolder(s, r, c), [c], d)
    {
      MakeFolderAfter(s, w, r, c, d);
    }
    if r.parent in w.depth { MakeFolderChild(s, r, c); }
  }

  lemma WriteWrote(s: State, w: Record, r: Request)
    requires Consistent(s, w) && Fits(r) && Write(s, r).code == 0
    ensures Wrote(s, w, r, Write(s, r).st, Claim(s, r))
  {
    ParentNotReserved(s, w, r);
    var cs := Claim(s, r);
    if r.size == 0 {
      assert cs[0] in cs && cs == [cs[0]];
      MakeFolderWrote(s, w, r, cs[0]);
    } else {
      StoreFileWrote(s, w, r, cs);
    }
  }

  /** Clusters other than the parent's and the claimed ones keep their bytes. */
  lemma WriteKeepsBytes(s: State, r: Request, c: nat)
    requires Fits(r) && Write(s, r).code == 0
    requires 3 <= c < CLUSTER_COUNT && c != r.parent && c !in Claim(s, r)
    ensures Write(s, r).st.disk[c] == s.disk[c]
  {
    if r.size == 0 {
      assert Claim(s, r)[0] in Claim(s, r);
      MakeFolderDisk(s, r, Claim(s, r)[0], c);
    } else {
      StoreFileDisk(s, r, Claim(s, r), c);
    }
  }

  /** An entry never lands on another live row. */
  lemma EnteredRow(t: Table, r: Request, attribute: byte, c: nat, j: nat)
    requires c < CLUSTER_MAP_SIZE && 1 <= j < ROW_COUNT && Flagged(t[j])
    ensures Entered(t, r, attribute, c)[j] == t[j]
  {
  }

  lemma WritePersists(s: State, w: Record, r: Request, s': State, cs: seq<nat>)
    requires Consistent(s, w) && Wrote(s, w, r, s', cs)
    ensures Persists(VolumeOf(s), w, VolumeOf(s'))
  {
    var v, v' := VolumeOf(s), VolumeOf(s');
    forall f: Ref | f in w.chains && f.dir < CLUSTER_COUNT && f.row < ROW_COUNT
      ensures RowOf(v', f) == RowOf(v, f).(userAttribute := RowOf(v', f).userAttribute)
    {
      assert IsRef(v, w, f) && DirOk(v, f.dir) && TableAfter(s, r, s', cs, f.dir);
      if f.dir == r.parent { EnteredRow(TableOf(s.disk[f.dir]), r, AttributeFor(r), cs[0], f.row); }
    }
    forall c | c in w.owner && c < CLUSTER_MAP_SIZE
      ensures v'.fat[c] == v.fat[c]
    {
      LinkFrame(s.fat, cs, c);
    }
  }

  lemma ParentIsLive(s: State, w: Record, r: Request, s': State, w': Record, cs: seq<nat>)
    requires Consistent(s, w) && Wrote(s, w, r, s', cs) && Explains(VolumeOf(s'), w')
    ensures r.parent in w.depth
  {
    hide Explains;
    if r.parent !in w.depth {
      WritePersists(s, w, r, s', cs);
      forall x | x in w.depth && x < CLUSTER_COUNT
        ensures VolumeOf(s').tabs[x] == VolumeOf(s).tabs[x]
      {
        assert TableAfter(s, r, s', cs, x);
      }
      ClustersLeak(VolumeOf(s), w, VolumeOf(s'), w', cs);
    }
  }

  /** In a consistent result the new entry has a name: a row of eight NULs owns nothing. */
  lemma NameIsLive(s: State, w: Record, r: Request, s': State, w': Record, cs: seq<nat>)
    requires Consistent(s, w) && Wrote(s, w, r, s', cs) && Explains(VolumeOf(s'), w')
    requires r.parent in w.depth && r.parent < CLUSTER_COUNT
    ensures r.name != NO_NAME
  {
    if r.name == NO_NAME {
      WritePersists(s, w, r, s', cs);
      NamelessEntry(s, w, r, s', cs);
      ClustersLeak(VolumeOf(s), w, VolumeOf(s'), w', cs);
    }
  }

  lemma NamelessEntry(s: State, w: Record, r: Request, s': State, cs: seq<nat>)
    requires Consistent(s, w) && Wrote(s, w, r, s', cs) && r.name == NO_NAME
    ensures NoNewRows(VolumeOf(s), w, VolumeOf(s'))
  {
    hide Explains, TableOf;
    var v, v' := VolumeOf(s), VolumeOf(s');
    forall f: Ref | f.dir in w.depth && f.dir < CLUSTER_COUNT && 1 <= f.row < ROW_COUNT && Live(RowOf(v', f))
      ensures RowOf(v', f) == RowOf(v, f)
    {
      LiveDir(v, w, f.dir);
      assert TableAfter(s, r, s', cs, f.dir);
      NamelessRow(TableOf(s.disk[f.dir]), r, AttributeFor(r), cs[0], f.row);
    }
  }

  lemma NamelessRow(t: Table, r: Request, attribute: byte, c: nat, j: nat)
    requires TableOk(t) && r.name == NO_NAME && c < CLUSTER_MAP_SIZE && 1 <= j < ROW_COUNT
    ensures Live(Entered(t, r, attribute, c)[j]) ==> Entered(t, r, attribute, c)[j] == t[j]
  {
  }

  lemma ParentHasFreeRow(s: State, w: Record, r: Request, s': State, w': Record, cs: seq<nat>)
    requires Consistent(s, w) && Wrote(s, w, r, s', cs) && Explains(VolumeOf(s'), w')
    requires r.parent in w.depth && r.parent < CLUSTER_COUNT
    ensures HasFreeRow(TableOf(s.disk[r.parent]))
  {
    WritePersists(s, w, r, s', cs);
    assert cs[0] in cs && DirOk(VolumeOf(s), r.parent) && TableAfter(s, r, s', cs, r.parent);
    HeadKept(VolumeOf(s), w, VolumeOf(s'), w', r.parent, cs[0]);
    FreeRowExists(TableOf(s.disk[r.parent]));
  }

  lemma NewRowOwns(s: State, w: Record, r: Request, s': State, w': Record, c: nat)
    requires Consistent(s, w) && Wrote(s, w, r, s', [c]) && Explains(VolumeOf(s'), w')
    requires r.parent in w.depth && Fits(r) && r.name != NO_NAME && r.size == 0
    requires PassesChecks(s, r) && HasFreeRow(TableOf(s.disk[r.parent]))
    ensures var ref := Ref(r.parent, FreeRow(TableOf(s.disk[r.parent]), ROW_COUNT - 1));
      ref in w'.chains && w'.chains[ref] == [c] && c in w'.depth
  {
    hide TableOf;
    var v, v' := VolumeOf(s), VolumeOf(s');
    hide Explains;
    var ref := Ref(r.parent, FreeRow(TableOf(s.disk[r.parent]), ROW_COUNT - 1));
    WritePersists(s, w, r, s', [c]);
    NewRow(s, w, r);
    DirsStay(v, w, v', w', r.parent);
    assert TableAfter(s, r, s', [c], r.parent);
    assert IsRef(v', w', ref);
    LiveRowOwns(v', w', ref);
  }

  lemma FolderWasNameless(s: State, w: Record, r: Request, s': State, w': Record, c: nat)
    requires Consistent(s, w) && Wrote(s, w, r, s', [c]) && Explains(VolumeOf(s'), w')
    requires r.parent in w.depth && Fits(r) && r.name != NO_NAME && r.size == 0
    requires PassesChecks(s, r) && HasFreeRow(TableOf(s.disk[r.parent]))
    ensures Nameless(TableOf(s.disk[c]))
  {
    var v, v' := VolumeOf(s), VolumeOf(s');
    var ref := Ref(r.parent, FreeRow(TableOf(s.disk[r.parent]), ROW_COUNT - 1));
    WritePersists(s, w, r, s', [c]);
    NewRowOwns(s, w, r, s', w', c);
    assert c in [c];
    forall j | 1 <= j < ROW_COUNT
      ensures !Live(v'.tabs[c][j])
    {
      NoLeftover(v, w, v', w', ref, c, j);
    }
    SameRows(v.tabs[c], v'.tabs[c]);
  }

  lemma SameRows(t: Table, t': Table)
    requires t'[1..] == t[1..] && Nameless(t')
    ensures Nameless(t)
  {
    forall j | 1 <= j < ROW_COUNT
      ensures t[j] == t'[j]
    {
      assert t[j] == t[1..][j - 1] && t'[j] == t'[1..][j - 1];
    }
  }

  lemma SafeIsNecessary(s: State, w: Record, r: Request)
    requires Consistent(s, w) && Fits(r) && Write(s, r).code == 0
    requires Sound(Write(s, r).st)
    ensures r.name != NO_NAME && r.parent in w.depth && HasFreeRow(TableOf(s.disk[r.parent]))
    ensures r.size == 0 ==> Nameless(TableOf(s.disk[Claim(s, r)[0]]))
  {
    hide Explains, Wrote;
    var s', cs := Write(s, r).st, Claim(s, r);
    var w' := RecordOf(s');
    WriteWrote(s, w, r);
    ParentIsLive(s, w, r, s', w', cs);
    NameIsLive(s, w, r, s', w', cs);
    ParentHasFreeRow(s, w, r, s', w', cs);
    if r.size == 0 {
      assert cs == [cs[0]];
      FolderWasNameless(s, w, r, s', w', cs[0]);
    }
  }

  /** The main result on writes: a call leaves the disk consistent if and only if it returns an
      error, or its name is not all NUL, it names a live directory with a free row and, when it makes a
      folder, the cluster it picks decodes to rows without names. */
  lemma WriteKeepsSoundIff(s: State, r: Request)
    requires Sound(s) && Fits(r)
    ensures Sound(Write(s, r).st) <==> Write(s, r).code != 0 || WriteIsSafe(s, r)
  {
    var w := RecordOf(s);
    if Write(s, r).code != 0 {
      assert Consistent(Write(s, r).st, w);
    } else {
      if WriteIsSafe(s, r) { WriteKeepsConsistent(s, w, r); }
      if Sound(Write(s, r).st) { SafeIsNecessary(s, w, r); }
    }
  }

  /** A delete in a live directory, and any delete whose parent is rejected, ends and leaves the disk
      consistent. */
  lemma DeleteKeepsSound(s: State, r: Request)
    requires Sound(s) && r.parent < CLUSTER_COUNT && r.name != NO_NAME
    requires r.parent in Dirs(s) || !IsDirectoryHead(TableOf(s.disk[r.parent])[0])
    ensures DeleteEnds(s, r) && Sound(Delete(s, r).st)
  {
    var w := RecordOf(s);
    if r.parent in w.depth {
      DeleteTerminates(s, w, r);
      if Delete(s, r).code == 0 { DeleteKeepsConsistent(s, w, r); }
    }
  }

  // ----- deletes that erase a row nobody owns

  /** Emptying a claimed cell while all owned rows stay leaves a row without its chain. */
  lemma ClearedCellBreaks(v: Volume, w: Record, v': Volume, w': Record, c: nat)
    requires Explains(v, w) && RowsPersist(v, w, v')
    requires forall x :: 0 <= x < CLUSTER_MAP_SIZE ==> v'.fat[x] == v.fat[x] || v'.fat[x] == EMPTY_ENTRY
    requires c < CLUSTER_MAP_SIZE && v.fat[c] != EMPTY_ENTRY && v'.fat[c] == EMPTY_ENTRY
    ensures !Explains(v', w')
  {
    if Explains(v', w') {
      assert 3 <= c && c in w.owner;
      var ref := w.owner[c];
      assert IsRef(v, w, ref) && RefOk(v, w, ref);
      DirsStay(v, w, v', w', ref.dir);
      LiveRowOwns(v', w', ref);
      ChainAlsoBefore(v, v', w', ref);
      ChainUnique(v.fat, Start(RowOf(v, ref)), w.chains[ref], w'.chains[ref]);
      ChainClaims(v'.fat, Start(RowOf(v', ref)), w'.chains[ref]);
    }
  }

  /** A chain that is there after cells have been emptied was there before. */
  lemma ChainAlsoBefore(v: Volume, v': Volume, w': Record, ref: Ref)
    requires Explains(v', w') && ref in w'.chains && RefOk(v', w', ref)
    requires forall x :: 0 <= x < CLUSTER_MAP_SIZE ==> v'.fat[x] == v.fat[x] || v'.fat[x] == EMPTY_ENTRY
    ensures 0 !in w'.chains[ref] && IsChain(v.fat, Start(RowOf(v', ref)), w'.chains[ref])
  {
    assert forall c :: c in w'.chains[ref] ==> c in w'.owner;
    hide Explains;
    ChainClaims(v'.fat, Start(RowOf(v', ref)), w'.chains[ref]);
    ChainFrame(v'.fat, v.fat, Start(RowOf(v', ref)), w'.chains[ref]);
  }

  /** The same row 0 and the same live rows. */
  predicate SameLive(t: Table, t': Table) {
    && t'[0] == t[0]
    && forall j :: 1 <= j < ROW_COUNT && (Live(t[j]) || Live(t'[j])) ==> t'[j] == t[j]
  }

  lemma SameLiveRef(v: Volume, w: Record, v': Volume, ref: Ref)
    requires Explains(v, w) && v'.fat == v.fat
    requires forall d :: d in w.depth && d < CLUSTER_COUNT ==> SameLive(v.tabs[d], v'.tabs[d])
    ensures ref in w.chains <==> IsRef(v', w, ref)
    ensures ref in w.chains ==> RefOk(v', w, ref)
  {
    assert ref in w.chains <==> IsRef(v, w, ref);
    if ref in w.chains {
      assert RefOk(v, w, ref);
      assert IsFolder(RowOf(v, ref)) ==> DirOk(v, w.chains[ref][0]);
    }
  }

  /** The same FAT and the same live rows in all live directories have the same owners. */
  lemma SameRecord(v: Volume, w: Record, v': Volume)
    requires Explains(v, w) && v'.fat == v.fat
    requires forall d :: d in w.depth && d < CLUSTER_COUNT ==> SameLive(v.tabs[d], v'.tabs[d])
    ensures Explains(v', w)
  {
    forall d | d in w.depth
      ensures DirOk(v', d)
    {
      assert DirOk(v, d);
    }
    forall ref: Ref
      ensures ref in w.chains <==> IsRef(v', w, ref)
      ensures ref in w.chains ==> RefOk(v', w, ref)
    {
      SameLiveRef(v, w, v', ref);
    }
    forall d | d in w.depth && d != ROOT_CLUSTER_NUMBER
      ensures LevelOk(v', w, d)
    {
      assert LevelOk(v, w, d) && IsRef(v, w, w.owner[d]);
    }
  }

  /** The row a delete finds is not one that is owned. */
  ghost predicate Stray(s: State, w: Record, r: Request, i: nat) {
    Consistent(s, w) && 2 <= r.parent < CLUSTER_COUNT && 1 <= i < ROW_COUNT && Ref(r.parent, i) !in w.chains
  }

  lemma StrayFileRow(s: State, w: Record, r: Request, i: nat, cs: seq<nat>, f: Ref)
    requires Stray(s, w, r, i) && f in w.chains && f.dir < CLUSTER_COUNT && f.row < ROW_COUNT
    ensures RowOf(VolumeOf(DropFile(s, r, i, cs)), f) == RowOf(VolumeOf(s), f)
  {
    hide TableOf, TableBytes, FatBytes;
    assert IsRef(VolumeOf(s), w, f) && DirOk(VolumeOf(s), f.dir);
    var t := TableOf(s.disk[r.parent]);
    TableRoundTrip(t[i := Erased(t[i])]);
  }

  lemma StrayFile(s: State, w: Record, r: Request, i: nat)
    requires Stray(s, w, r, i) && HasChain(s.fat, Start(TableOf(s.disk[r.parent])[i]))
    ensures !Sound(DropFile(s, r, i, ChainFrom(s.fat, Start(TableOf(s.disk[r.parent])[i]))))
  {
    hide Explains, TableOf;
    var cs := ChainFrom(s.fat, Start(TableOf(s.disk[r.parent])[i]));
    var s' := DropFile(s, r, i, cs);
    forall f: Ref | f in w.chains && f.dir < CLUSTER_COUNT && f.row < ROW_COUNT
      ensures RowOf(VolumeOf(s'), f) == RowOf(VolumeOf(s), f)
    {
      StrayFileRow(s, w, r, i, cs, f);
    }
    assert cs[|cs| - 1] in cs;
    if Sound(s') { ClearedCellBreaks(VolumeOf(s), w, VolumeOf(s'), RecordOf(s'), cs[|cs| - 1]); }
  }

  lemma DroppedFolderTable(s: State, r: Request, i: nat, c: nat, d: nat)
    requires r.parent < CLUSTER_COUNT && i < ROW_COUNT && c < CLUSTER_MAP_SIZE
    requires d < CLUSTER_COUNT && d != FAT_CLUSTER_NUMBER
    ensures var t := TableOf(s.disk[d]);
      TableOf(DropFolder(s, r, i, c).disk[d]) ==
        if d == c then t[0 := Erased(t[0])] else if d == r.parent then t[i := Erased(t[i])] else t
  {
    hide TableOf, TableBytes, FatBytes;
    var t, child := TableOf(s.disk[r.parent]), TableOf(s.disk[c]);
    TableRoundTrip(t[i := Erased(t[i])]);
    TableRoundTrip(child[0 := Erased(child[0])]);
  }

  lemma StrayFolderTable(s: State, w: Record, r: Request, i: nat, c: nat, d: nat)
    requires Stray(s, w, r, i) && c < CLUSTER_MAP_SIZE && d in w.depth && d < CLUSTER_COUNT
    ensures var t, t' := TableOf(s.disk[d]), TableOf(DropFolder(s, r, i, c).disk[d]);
      && (forall j :: 1 <= j < ROW_COUNT && !(d == r.parent && j == i) ==> t'[j] == t[j])
      && (d == r.parent ==> !Live(t[i]) && !Live(t'[i]))
      && (d != c ==> t'[0] == t[0])
  {
    hide TableOf, DropFolder;
    assert DirOk(VolumeOf(s), d);
    assert VolumeOf(s).tabs[d] == TableOf(s.disk[d]);
    DroppedFolderTable(s, r, i, c, d);
    if d == r.parent { assert !IsRef(VolumeOf(s), w, Ref(d, i)); }
  }

  lemma StrayFolderRow(s: State, w: Record, r: Request, i: nat, c: nat, f: Ref)
    requires Stray(s, w, r, i) && c < CLUSTER_MAP_SIZE
    requires f in w.chains && f.dir < CLUSTER_COUNT && f.row < ROW_COUNT
    ensures RowOf(VolumeOf(DropFolder(s, r, i, c)), f) == RowOf(VolumeOf(s), f)
  {
    hide TableOf;
    assert IsRef(VolumeOf(s), w, f);
    StrayFolderTable(s, w, r, i, c, f.dir);
  }

  lemma StrayFolder(s: State, w: Record, r: Request, i: nat, c: nat)
    requires Stray(s, w, r, i) && c < CLUSTER_MAP_SIZE
    ensures Sound(DropFolder(s, r, i, c)) <==> s.fat[c] == EMPTY_ENTRY
  {
    hide Explains, TableOf;
    var s' := DropFolder(s, r, i, c);
    if s.fat[c] != EMPTY_ENTRY {
      forall f: Ref | f in w.chains && f.dir < CLUSTER_COUNT && f.row < ROW_COUNT
        ensures RowOf(VolumeOf(s'), f) == RowOf(VolumeOf(s), f)
      {
        StrayFolderRow(s, w, r, i, c, f);
      }
      if Sound(s') { ClearedCellBreaks(VolumeOf(s), w, VolumeOf(s'), RecordOf(s'), c); }
    } else {
      FreeNotDir(s, w, c);
      forall d | d in w.depth && d < CLUSTER_COUNT
        ensures SameLive(VolumeOf(s).tabs[d], VolumeOf(s').tabs[d])
      {
        StrayFolderTable(s, w, r, i, c, d);
      }
      FatRoundTrip(s'.fat);
      SameRecord(VolumeOf(s), w, VolumeOf(s'));
      assert Consistent(s', w);
    }
  }

  /** The main result on deletes: a call that stays inside the map leaves the disk consistent if and only if
      it returns an error, or erases a named row of a live directory, or the row it erases is a folder's
      whose cell is free already. */
  lemma DeleteKeepsSoundIff(s: State, r: Request)
    requires Sound(s) && r.parent < CLUSTER_COUNT && DeleteStartsInUse(s, r)
    ensures DeleteEnds(s, r)
    ensures Sound(Delete(s, r).st) <==>
            || Delete(s, r).code != 0
            || (r.name != NO_NAME && r.parent in Dirs(s))
            || var row := TableOf(s.disk[r.parent])[FoundAt(s, r, true)];
               IsFolder(row) && s.fat[Start(row)] == EMPTY_ENTRY
  {
    DeleteEndsIff(s, r);
    hide Explains, TableOf, DeleteStartsInUse;
    var w := RecordOf(s);
    if Delete(s, r).code != 0 {
      assert Consistent(Delete(s, r).st, w);
    } else if r.name != NO_NAME && r.parent in w.depth {
      DeleteKeepsSound(s, r);
    } else {
      ParentNotReserved(s, w, r);
      var i := FoundAt(s, r, true);
      var row := TableOf(s.disk[r.parent])[i];
      NobodyOwns(s, w, r, i);
      if IsFolder(row) { StrayFolder(s, w, r, i, Start(row)); } else { StrayFile(s, w, r, i); }
    }
  }

  lemma NobodyOwns(s: State, w: Record, r: Request, i: nat)
    requires Consistent(s, w) && 2 <= r.parent < CLUSTER_COUNT && 1 <= i < ROW_COUNT
    requires r.parent !in w.depth || !Live(TableOf(s.disk[r.parent])[i])
    ensures Stray(s, w, r, i)
  {
    assert !IsRef(VolumeOf(s), w, Ref(r.parent, i));
  }

  // ----- formatting and mounting

  ghost const FRESH_RECORD := Record(map[ROOT_CLUSTER_NUMBER := 0], map[], map[])

  lemma FormatDisk(s: State)
    ensures var s' := Format(s);
      && !EmptyStorage(s') && s'.fat == FatOf(s'.disk[FAT_CLUSTER_NUMBER])
      && TableOf(s'.disk[ROOT_CLUSTER_NUMBER]) == RootTable()
      && CellsOk(VolumeOf(s')) && s'.fat[3..] == s.fat[3..]
  {
    TableRoundTrip(RootTable());
    FatRoundTrip(Format(s).fat);
  }

  /** Formatting gives a consistent disk if and only if the cached FAT was empty from cell 3 on. */
  lemma FormatSoundIff(s: State)
    ensures Sound(Format(s)) <==> forall c :: 3 <= c < CLUSTER_MAP_SIZE ==> s.fat[c] == EMPTY_ENTRY
  {
    var s' := Format(s);
    FormatDisk(s);
    assert forall c :: 3 <= c < CLUSTER_MAP_SIZE ==> s'.fat[c] == s'.fat[3..][c - 3] == s.fat[3..][c - 3] == s.fat[c];
    assert VolumeOf(s').tabs[ROOT_CLUSTER_NUMBER] == TableOf(s'.disk[ROOT_CLUSTER_NUMBER]);
    hide TableOf, FatOf, Signature;
    RootIsTable();
    if Sound(s') {
      FormattedIsFresh(VolumeOf(s'), RecordOf(s'));
    }
    if forall c :: 3 <= c < CLUSTER_MAP_SIZE ==> s.fat[c] == EMPTY_ENTRY {
      FreshExplains(VolumeOf(s'));
      assert Consistent(s', FRESH_RECORD);
    }
  }

  lemma RootIsTable()
    ensures TableOk(RootTable()) && Nameless(RootTable()) && Start(RootTable()[0]) == ROOT_CLUSTER_NUMBER
  {
  }

  lemma FreshExplains(v: Volume)
    requires CellsOk(v) && TableOk(v.tabs[ROOT_CLUSTER_NUMBER]) && Nameless(v.tabs[ROOT_CLUSTER_NUMBER])
    requires Start(v.tabs[ROOT_CLUSTER_NUMBER][0]) == ROOT_CLUSTER_NUMBER
    requires forall c :: 3 <= c < CLUSTER_MAP_SIZE ==> v.fat[c] == EMPTY_ENTRY
    ensures Explains(v, FRESH_RECORD)
  {
    assert DirOk(v, ROOT_CLUSTER_NUMBER);
  }

  lemma OwnerIsRef(v: Volume, w: Record, c: nat)
    requires Explains(v, w) && c in w.owner
    ensures IsRef(v, w, w.owner[c])
  {
    assert w.owner[c] in w.chains;
  }

  lemma FormattedIsFresh(v: Volume, w: Record)
    requires Explains(v, w) && v.tabs[ROOT_CLUSTER_NUMBER] == RootTable()
    ensures forall c :: 3 <= c < CLUSTER_MAP_SIZE ==> v.fat[c] == EMPTY_ENTRY
  {
    forall d | d in w.depth
      ensures d == ROOT_CLUSTER_NUMBER
    {
      OnlyRoot(v, w, d);
    }
    forall c: nat | 3 <= c < CLUSTER_MAP_SIZE
      ensures v.fat[c] == EMPTY_ENTRY
    {
      if c in w.owner { OwnerIsRef(v, w, c); }
    }
  }

  lemma {:induction false} OnlyRoot(v: Volume, w: Record, d: nat)
    requires Explains(v, w) && v.tabs[ROOT_CLUSTER_NUMBER] == RootTable() && d in w.depth
    ensures d == ROOT_CLUSTER_NUMBER
    decreases w.depth[d]
  {
    if d != ROOT_CLUSTER_NUMBER {
      assert LevelOk(v, w, d);
      OwnerIsRef(v, w, d);
      OnlyRoot(v, w, w.owner[d].dir);
    }
  }

  /** Mounting a consistent disk restores the driver's state, whatever the cache held before. */
  lemma MountRestores(s: State, cache: Fat)
    requires Sound(s)
    ensures Mount(State(s.disk, cache)) == s
  {
    assert Consistent(s, RecordOf(s));
  }
}
