/** Deletes refine the abstract step: the key disappears, its clusters become free, and every other
    key's row, chain and bytes stay as they were. */
module DeleteRefinement {
  import opened Layout
  import opened Chains
  import opened FileSystem
  import opened Ownership
  import opened Soundness
  import opened SafeWrites
  import opened Abstraction
  import Vfs

  ghost predicate DeletesEntry(s: State, w: Record, r: Request) {
    && Consistent(s, w) && r.parent in w.depth && r.parent < CLUSTER_COUNT && r.name != NO_NAME
    && DeleteEnds(s, r) && Delete(s, r).code == 0
    && FoundAt(s, r, true) < ROW_COUNT && Ref(r.parent, FoundAt(s, r, true)) in w.chains
  }

  /** In a live directory the scans with and without the flag test agree. */
  lemma SameFind(t: Table, name: Name, ext: Ext)
    requires TableOk(t) && name != NO_NAME
    ensures Find(t, 1, name, ext, true) == Find(t, 1, name, ext, false)
  {
    var i := Find(t, 1, name, ext, false);
    if i < ROW_COUNT { FindIs(t, i, name, ext, true); }
  }

  lemma DeleteEntry(s: State, w: Record, r: Request)
    requires Consistent(s, w) && r.parent in w.depth && r.parent < CLUSTER_COUNT && r.name != NO_NAME
    requires DeleteEnds(s, r) && Delete(s, r).code == 0
    ensures DeletesEntry(s, w, r)
  {
    hide Explains;
    FoundRef(s, w, r, true);
  }

  /** Erasing a row removes its key from the scan and leaves every other key's row in place. */
  lemma ErasedFind(t: Table, i: nat, k: Vfs.Key)
    requires TableOk(t) && 1 <= i < ROW_COUNT && Live(t[i]) && k.name != NO_NAME
    ensures var u := t[i := Erased(t[i])];
      if SameKey(t[i], k.name, k.ext) then RowFor(u, k) == ROW_COUNT
      else RowFor(u, k) == RowFor(t, k) && (RowFor(t, k) < ROW_COUNT ==> u[RowFor(t, k)] == t[RowFor(t, k)])
  {
    var u := t[i := Erased(t[i])];
    var j, m := RowFor(u, k), RowFor(t, k);
    assert m < ROW_COUNT && m != i ==> u[m] == t[m];
    if j < ROW_COUNT {
      assert j != i && SameKey(t[j], k.name, k.ext);
      FindIs(t, j, k.name, k.ext, false);
      assert SameKey(t[i], k.name, k.ext) ==> Live(t[j]);
    }
  }

  /** The tables of the directories that stay, after a delete. */
  lemma DeleteTable(s: State, w: Record, r: Request, d: nat)
    requires DeletesEntry(s, w, r) && d in AfterDelete(s, w, r).depth && d < CLUSTER_COUNT
    ensures d in w.depth
    ensures var t, i := TableOf(s.disk[d]), FoundAt(s, r, true);
      TableOf(Delete(s, r).st.disk[d]) == if d == r.parent then t[i := Erased(t[i])] else t
  {
    hide Explains, Delete;
    DeleteRemoves(s, w, r);
    var v, v' := VolumeOf(s), VolumeOf(Delete(s, r).st);
    assert v.tabs[d] == TableOf(s.disk[d]) && v'.tabs[d] == TableOf(Delete(s, r).st.disk[d]);
  }

  lemma DeleteKeepsBytes(s: State, w: Record, r: Request, c: nat)
    requires DeletesEntry(s, w, r) && 3 <= c < CLUSTER_COUNT && c !in w.depth
    ensures Delete(s, r).st.disk[c] == s.disk[c]
  {
    hide Explains;
    var ref := Ref(r.parent, FoundAt(s, r, true));
    assert RowOf(VolumeOf(s), ref) == TableOf(s.disk[r.parent])[ref.row];
    if IsFolder(RowOf(VolumeOf(s), ref)) {
      var x := FolderBelow(VolumeOf(s), w, ref);
    }
  }

  lemma DeletedFolderEmpty(s: State, w: Record, r: Request, k: Vfs.Key)
    requires DeletesEntry(s, w, r) && k.dir in w.depth && k.dir !in AfterDelete(s, w, r).depth
    ensures !Present(s, w, k)
  {
    hide Explains;
    var ref := Ref(r.parent, FoundAt(s, r, true));
    var c := FolderBelow(VolumeOf(s), w, ref);
    assert !AnyFlagged(TableOf(s.disk[c]));
    if Present(s, w, k) { PresentRef(s, w, k); }
  }

  /** A successful delete leaves every other key's row, chain and bytes as they were. */
  lemma DeleteKeepsOthers(s: State, w: Record, r: Request, k: Vfs.Key)
    requires DeletesEntry(s, w, r) && k != Vfs.KeyOf(r)
    ensures SameItem(s, w, Delete(s, r).st, AfterDelete(s, w, r), k)
  {
    hide Explains, Delete;
    var s', w' := Delete(s, r).st, AfterDelete(s, w, r);
    DeleteKeepsConsistent(s, w, r);
    if k.name == NO_NAME || k.dir !in w.depth || k.dir >= CLUSTER_COUNT {
    } else if k.dir !in w'.depth {
      DeletedFolderEmpty(s, w, r, k);
    } else {
      var t, i := TableOf(s.disk[k.dir]), FoundAt(s, r, true);
      DeleteTable(s, w, r, k.dir);
      if k.dir == r.parent { DirTable(s, w, k.dir); ErasedFind(t, i, k); }
      if Present(s, w, k) { DeleteKeepsItem(s, w, r, k); }
    }
  }

  lemma DeleteKeepsItem(s: State, w: Record, r: Request, k: Vfs.Key)
    requires DeletesEntry(s, w, r) && Present(s, w, k) && k != Vfs.KeyOf(r)
    requires var i := RowFor(TableOf(s.disk[k.dir]), k);
      TableOf(Delete(s, r).st.disk[k.dir])[i] == TableOf(s.disk[k.dir])[i]
    ensures var w', ref := AfterDelete(s, w, r), Ref(k.dir, RowFor(TableOf(s.disk[k.dir]), k));
      && ref in w.chains && ref in w'.chains && w'.chains[ref] == w.chains[ref]
      && var row := TableOf(s.disk[ref.dir])[ref.row]; ItemOf(Delete(s, r).st, row) == ItemOf(s, row)
  {
    hide Explains, Delete;
    var s', w', ref := Delete(s, r).st, AfterDelete(s, w, r), Ref(k.dir, RowFor(TableOf(s.disk[k.dir]), k));
    DeleteKeepsConsistent(s, w, r);
    PresentRef(s, w, k);
    if !IsFolder(RowOf(VolumeOf(s), ref)) {
      forall c | c in w.chains[ref] && c < CLUSTER_COUNT
        ensures s'.disk[c] == s.disk[c]
      {
        FileAvoidsDirs(VolumeOf(s), w, ref, c);
        DeleteKeepsBytes(s, w, r, c);
      }
    }
    ItemKept(s, w, s', w', ref);
  }

  // ----- the abstract step

  lemma DeleteFrees(s: State, w: Record, r: Request)
    requires DeletesEntry(s, w, r)
    ensures var ref := Ref(r.parent, FoundAt(s, r, true));
      |FreeCells(Delete(s, r).st.fat, 0)| == |FreeCells(s.fat, 0)| + |w.chains[ref]|
      && RefOk(VolumeOf(s), w, ref)
  {
    hide Explains, Delete;
    var ref := Ref(r.parent, FoundAt(s, r, true));
    DeleteRemoves(s, w, r);
    FoundRef(s, w, r, true);
    OwnedBeyondReserved(VolumeOf(s), w, ref);
    ClearReturns(s.fat, Start(RowOf(VolumeOf(s), ref)), w.chains[ref]);
  }

  lemma OwnedBeyondReserved(v: Volume, w: Record, ref: Ref)
    requires Explains(v, w) && ref in w.chains
    ensures 0 !in w.chains[ref]
  {
  }

  lemma DeleteDropsItem(s: State, w: Record, r: Request)
    requires DeletesEntry(s, w, r)
    ensures !Present(Delete(s, r).st, AfterDelete(s, w, r), Vfs.KeyOf(r))
  {
    hide Explains, Delete;
    DirTable(s, w, r.parent);
    if r.parent in AfterDelete(s, w, r).depth {
      DeleteTable(s, w, r, r.parent);
      ErasedFind(TableOf(s.disk[r.parent]), FoundAt(s, r, true), Vfs.KeyOf(r));
    }
  }

  lemma DeleteKeepsHead(s: State, w: Record, r: Request, d: nat)
    requires DeletesEntry(s, w, r) && d in AfterDelete(s, w, r).depth
    ensures HeadOf(Delete(s, r).st, d) == HeadOf(s, d)
  {
    hide Explains, Delete;
    if d < CLUSTER_COUNT { DeleteTable(s, w, r, d); }
  }

  lemma ItemsDropped(s: State, w: Record, s': State, w': Record, key: Vfs.Key)
    requires forall k: Vfs.Key :: k != key ==> SameItem(s, w, s', w', k)
    requires !Present(s', w', key)
    ensures TreeWith(s', w').items == TreeWith(s, w).items - {key}
  {
    hide Present, ItemAt, HeadOf, SameItem;
    var a, b := TreeWith(s', w').items, TreeWith(s, w).items - {key};
    forall k: Vfs.Key
      ensures k in a <==> k in b
      ensures k in a ==> a[k] == b[k]
    {
      if k != key { SameItemSame(s, w, s', w', k); }
    }
    assert a == b;
  }

  /** A delete makes and removes no stray flag. */
  lemma DeleteStains(s: State, w: Record, r: Request)
    requires DeletesEntry(s, w, r)
    ensures StainedDirs(Delete(s, r).st, AfterDelete(s, w, r)) == StainedDirs(s, w)
  {
    hide Explains, Delete, TableOf, Stained, AnyLive, DeleteEnds;
    var w', i := AfterDelete(s, w, r), FoundAt(s, r, true);
    forall d | d in w.depth && d < CLUSTER_COUNT
      ensures d in w'.depth ==> (Stained(TableOf(Delete(s, r).st.disk[d])) <==> Stained(TableOf(s.disk[d])))
      ensures d !in w'.depth ==> !Stained(TableOf(s.disk[d]))
    {
      if d in w'.depth {
        DeleteTable(s, w, r, d);
        if d == r.parent { ErasedEntryStain(s, w, r); }
      } else {
        RemovedFolder(s, w, r, d);
        FlaggedIff(TableOf(s.disk[d]));
      }
    }
    FewerDirs(s, w, r);
  }

  lemma ErasedEntryStain(s: State, w: Record, r: Request)
    requires DeletesEntry(s, w, r)
    ensures var t, i := TableOf(s.disk[r.parent]), FoundAt(s, r, true); Stained(t[i := Erased(t[i])]) <==> Stained(t)
  {
    hide Explains, Delete, TableOf, Stained, DeleteEnds;
    ErasedStain(TableOf(s.disk[r.parent]), FoundAt(s, r, true));
  }

  lemma FewerDirs(s: State, w: Record, r: Request)
    requires DeletesEntry(s, w, r)
    ensures forall d :: d in AfterDelete(s, w, r).depth ==> d in w.depth
  {
    hide Explains, Delete;
  }

  lemma RemovedFolder(s: State, w: Record, r: Request, d: nat)
    requires DeletesEntry(s, w, r) && d in w.depth && d !in AfterDelete(s, w, r).depth
    ensures d < CLUSTER_COUNT && TableOk(TableOf(s.disk[d])) && !AnyFlagged(TableOf(s.disk[d]))
    ensures d == Start(TableOf(s.disk[r.parent])[FoundAt(s, r, true)])
  {
    hide Explains;
    var ref := Ref(r.parent, FoundAt(s, r, true));
    var c := FolderBelow(VolumeOf(s), w, ref);
    DirTable(s, w, d);
  }

  lemma TreeAfterDelete(s: State, w: Record, r: Request)
    requires DeletesEntry(s, w, r)
    ensures var a, w', ref := TreeWith(s, w), AfterDelete(s, w, r), Ref(r.parent, FoundAt(s, r, true));
      TreeWith(Delete(s, r).st, w') ==
        Vfs.Tree(map d | d in w'.depth :: HeadOf(s, d), a.items - {Vfs.KeyOf(r)}, a.free + |w.chains[ref]|, a.stained)
  {
    hide Explains, Delete, SameItem, Present, ItemAt, HeadOf, StainedDirs;
    DeleteStains(s, w, r);
    var s', w' := Delete(s, r).st, AfterDelete(s, w, r);
    DeleteFrees(s, w, r);
    DeleteDropsItem(s, w, r);
    forall k: Vfs.Key | k != Vfs.KeyOf(r)
      ensures SameItem(s, w, s', w', k)
    {
      DeleteKeepsOthers(s, w, r, k);
    }
    ItemsDropped(s, w, s', w', Vfs.KeyOf(r));
    forall d | d in w'.depth
      ensures HeadOf(s', d) == HeadOf(s, d)
    {
      DeleteKeepsHead(s, w, r, d);
    }
  }

  ghost predicate DeleteAsked(s: State, r: Request)
    requires Sound(s)
  {
    r.parent < CLUSTER_COUNT && r.name != NO_NAME
    && (r.parent in Dirs(s) || !IsDirectoryHead(TableOf(s.disk[r.parent])[0]))
  }

  lemma FoundIffPresent(s: State, w: Record, r: Request)
    requires Consistent(s, w) && r.parent in w.depth && r.parent < CLUSTER_COUNT && r.name != NO_NAME
    ensures FoundAt(s, r, true) == FoundAt(s, r, false) == RowFor(TableOf(s.disk[r.parent]), Vfs.KeyOf(r))
    ensures FoundAt(s, r, true) < ROW_COUNT <==> Present(s, w, Vfs.KeyOf(r))
  {
    hide Explains;
    DirTable(s, w, r.parent);
    SameFind(TableOf(s.disk[r.parent]), r.name, r.ext);
  }

  /** What the key stands for before the delete, and how many clusters that is. */
  lemma DeletedItem(s: State, w: Record, r: Request)
    requires DeletesEntry(s, w, r)
    ensures var row, ref := TableOf(s.disk[r.parent])[FoundAt(s, r, true)], Ref(r.parent, FoundAt(s, r, true));
      && Present(s, w, Vfs.KeyOf(r)) && ItemAt(s, w, Vfs.KeyOf(r)) == ItemOf(s, row)
      && if IsFolder(row) then
           w.chains[ref] == [Start(row)] && AfterDelete(s, w, r).depth == w.depth - {Start(row) as nat}
         else |w.chains[ref]| == ClustersFor(row.filesize) && AfterDelete(s, w, r).depth == w.depth
  {
    hide Explains, Delete;
    var ref := Ref(r.parent, FoundAt(s, r, true));
    FoundIffPresent(s, w, r);
    FoundRef(s, w, r, true);
    assert RowOf(VolumeOf(s), ref) == TableOf(s.disk[r.parent])[ref.row];
    if IsFolder(RowOf(VolumeOf(s), ref)) {
      var c := FolderBelow(VolumeOf(s), w, ref);
      assert (set x | x in w.chains[ref]) == {c};
    }
  }

  lemma HeadsWithout(s: State, w: Record, w': Record, c: nat)
    requires w'.depth == w.depth - {c}
    ensures (map d | d in w'.depth :: HeadOf(s, d)) == (map d | d in w.depth :: HeadOf(s, d)) - {c}
  {
    hide HeadOf;
  }

  lemma DeleteSucceeds(s: State, w: Record, r: Request)
    requires DeletesEntry(s, w, r)
    ensures Vfs.DeleteStep(TreeWith(s, w), r, 0, TreeWith(Delete(s, r).st, AfterDelete(s, w, r)))
  {
    hide Explains, Delete, SameItem, HeadOf, ItemAt, ClustersFor, Vfs.Occupied, Vfs.DeleteStep, Contents;
    var a, a' := TreeWith(s, w), TreeWith(Delete(s, r).st, AfterDelete(s, w, r));
    var row := TableOf(s.disk[r.parent])[FoundAt(s, r, true)];
    TreeAfterDelete(s, w, r);
    DeletedItem(s, w, r);
    if IsFolder(row) {
      NotOccupied(s, w, r);
      HeadsWithout(s, w, AfterDelete(s, w, r), Start(row));
      Vfs.FolderDropped(a, r, Start(row), a');
    } else {
      Vfs.FileDropped(a, r, row.filesize, Contents(s, Start(row)), a');
    }
  }

  lemma NotOccupied(s: State, w: Record, r: Request)
    requires DeletesEntry(s, w, r) && IsFolder(TableOf(s.disk[r.parent])[FoundAt(s, r, true)])
    ensures var c := Start(TableOf(s.disk[r.parent])[FoundAt(s, r, true)]);
      !Vfs.Occupied(TreeWith(s, w), c) && c !in TreeWith(s, w).stained
  {
    hide Explains, TableOf, DeleteEnds;
    FolderRefusedIff(s, w, r);
  }

  /** The folder a key stands for is live, and its entry leads to its cluster. */
  lemma FoundFolder(s: State, w: Record, r: Request)
    requires Consistent(s, w) && r.parent in w.depth && r.parent < CLUSTER_COUNT && r.name != NO_NAME
    requires FoundAt(s, r, true) < ROW_COUNT && IsFolder(TableOf(s.disk[r.parent])[FoundAt(s, r, true)])
    ensures var c := Start(TableOf(s.disk[r.parent])[FoundAt(s, r, true)]);
      c in w.depth && 2 <= c < CLUSTER_MAP_SIZE && TableOk(TableOf(s.disk[c]))
      && Present(s, w, Vfs.KeyOf(r)) && ItemAt(s, w, Vfs.KeyOf(r)) == Vfs.Folder(c)
  {
    hide Explains;
    FoundRef(s, w, r, true);
    FoundIffPresent(s, w, r);
    DirTable(s, w, Start(TableOf(s.disk[r.parent])[FoundAt(s, r, true)]));
  }

  /** A folder is refused if and only if it holds an entry or a row that is flagged and has no name. */
  lemma FolderRefusedIff(s: State, w: Record, r: Request)
    requires Consistent(s, w) && r.parent in w.depth && r.parent < CLUSTER_COUNT && r.name != NO_NAME
    requires FoundAt(s, r, true) < ROW_COUNT && IsFolder(TableOf(s.disk[r.parent])[FoundAt(s, r, true)])
    requires DeleteEnds(s, r)
    ensures var c, a := Start(TableOf(s.disk[r.parent])[FoundAt(s, r, true)]), TreeWith(s, w);
      && (Delete(s, r).code == 0 || Delete(s, r).code == 2)
      && (Delete(s, r).code == 2 <==> Vfs.Occupied(a, c) || c in a.stained)
  {
    hide Explains, TableOf, Stained, AnyLive, AnyFlagged, Vfs.Occupied;
    FoundFolder(s, w, r);
    var c := Start(TableOf(s.disk[r.parent])[FoundAt(s, r, true)]);
    FlaggedIff(TableOf(s.disk[c]));
    OccupiedIff(s, w, c);
    ParentIsHead(s, w, r);
  }

  lemma ParentIsHead(s: State, w: Record, r: Request)
    requires Consistent(s, w) && r.parent in w.depth && r.parent < CLUSTER_COUNT
    ensures IsDirectoryHead(TableOf(s.disk[r.parent])[0])
  {
    DirTable(s, w, r.parent);
  }

  /** Every delete a caller may ask for is an abstract delete with the same return code. */
  lemma DeleteRefines(s: State, r: Request)
    requires Sound(s) && DeleteAsked(s, r)
    ensures DeleteEnds(s, r) && Sound(Delete(s, r).st)
    ensures Vfs.DeleteStep(TreeOf(s), r, Delete(s, r).code, TreeOf(Delete(s, r).st))
  {
    hide Explains, TableOf;
    var w := RecordOf(s);
    DeleteKeepsSound(s, r);
    if r.parent in w.depth {
      DirTable(s, w, r.parent);
      FoundIffPresent(s, w, r);
      if Delete(s, r).code == 0 {
        DeleteEntry(s, w, r);
        DeleteKeepsConsistent(s, w, r);
        TheRecord(Delete(s, r).st, AfterDelete(s, w, r));
        DeleteSucceeds(s, w, r);
      } else if FoundAt(s, r, true) < ROW_COUNT {
        FoundFolder(s, w, r);
        FolderRefusedIff(s, w, r);
      }
    }
  }

  /** A delete that the abstract file system describes: of a named key, or of one no row has, in a live
      directory; or with a parent that is rejected. */
  ghost predicate DeleteNamed(s: State, r: Request)
    requires Sound(s) && r.parent < CLUSTER_COUNT
  {
    if r.parent in Dirs(s) then r.name != NO_NAME || FoundAt(s, r, true) == ROW_COUNT
    else !IsDirectoryHead(TableOf(s.disk[r.parent])[0])
  }

  /** Exactly these are abstract deletes; any other delete that stays inside the map is none. */
  lemma DeleteRefinesIff(s: State, r: Request)
    requires Sound(s) && r.parent < CLUSTER_COUNT && DeleteStartsInUse(s, r)
    ensures DeleteEnds(s, r)
    ensures Sound(Delete(s, r).st) && Vfs.DeleteStep(TreeOf(s), r, Delete(s, r).code, TreeOf(Delete(s, r).st))
            <==> DeleteNamed(s, r)
  {
    DeleteEndsIff(s, r);
    hide Explains, TableOf, DeleteStartsInUse, DeleteEnds, Delete;
    if DeleteAsked(s, r) {
      DeleteRefines(s, r);
    } else {
      NulKeyAbsent(s, r);
      DeleteCode(s, r);
      if r.parent in Dirs(s) { ParentIsHead(s, RecordOf(s), r); }
    }
  }

  lemma DeleteCode(s: State, r: Request)
    requires r.parent < CLUSTER_COUNT && DeleteEnds(s, r)
    ensures var y, head := Delete(s, r), IsDirectoryHead(TableOf(s.disk[r.parent])[0]);
      && (y.code == -1 <==> !head)
      && (y.code == 1 <==> head && FoundAt(s, r, true) == ROW_COUNT)
      && (y.code != 0 ==> y.st == s)
  {
    hide TableOf, Find, DropFile, DropFolder, AnyFlagged, HasChain;
  }

  /** No item of the abstract tree has a name of eight NULs. */
  lemma NulKeyAbsent(s: State, r: Request)
    requires Sound(s)
    ensures r.name == NO_NAME ==> Vfs.KeyOf(r) !in TreeOf(s).items
    ensures r.parent in TreeOf(s).heads <==> r.parent in Dirs(s)
  {
  }
}
