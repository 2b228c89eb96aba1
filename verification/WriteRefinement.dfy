/** Writes refine the abstract step: the written key stands for what was written, every other key's
    row, chain and bytes stay as they were, and the return codes agree. */
module WriteRefinement {
  import opened Layout
  import opened Chains
  import opened FileSystem
  import opened Ownership
  import opened Soundness
  import opened SafeWrites
  import opened Abstraction
  import Vfs

  lemma EnteredFind(t: Table, r: Request, attribute: byte, c: nat, k: Vfs.Key)
    requires c < CLUSTER_MAP_SIZE && TableOk(t) && TableOk(Entered(t, r, attribute, c))
    requires FreeRow(t, ROW_COUNT - 1) != 0 && k.name != NO_NAME
    ensures var u := Entered(t, r, attribute, c);
      if (k.name, k.ext) == (r.name, r.ext)
      then RowFor(u, k) == FreeRow(t, ROW_COUNT - 1) && u[RowFor(u, k)] == Entry(r.name, r.ext, attribute, c, r.size)
      else RowFor(u, k) == RowFor(t, k) && (RowFor(t, k) < ROW_COUNT ==> u[RowFor(t, k)] == t[RowFor(t, k)])
  {
    var u, i, j := Entered(t, r, attribute, c), RowFor(t, k), RowFor(Entered(t, r, attribute, c), k);
    if (k.name, k.ext) == (r.name, r.ext) {
      FindIs(u, FreeRow(t, ROW_COUNT - 1), k.name, k.ext, false);
    } else {
      if i < ROW_COUNT {
        assert Live(t[i]);
        EnteredRow(t, r, attribute, c, i);
        FindIs(u, i, k.name, k.ext, false);
      } else if j < ROW_COUNT {
        assert SameKey(t[j], k.name, k.ext);
      }
    }
  }

  /** The facts about a safe successful write that the refinement needs. */
  ghost predicate SafeWrite(s: State, w: Record, r: Request) {
    && Consistent(s, w) && Fits(r) && r.name != NO_NAME && Write(s, r).code == 0
    && Needed(r) <= |FreeCells(FatOf(s.disk[FAT_CLUSTER_NUMBER]), 0)|
    && r.parent in w.depth && HasFreeRow(TableOf(s.disk[r.parent]))
    && (r.size == 0 ==> Nameless(TableOf(s.disk[Claim(s, r)[0]])))
  }

  lemma WriteTable(s: State, w: Record, r: Request, d: nat)
    requires SafeWrite(s, w, r) && d in w.depth && d < CLUSTER_COUNT
    ensures TableAfter(s, r, Write(s, r).st, Claim(s, r), d)
    ensures FreeRow(TableOf(s.disk[r.parent]), ROW_COUNT - 1) != 0
    ensures TableOk(TableOf(s.disk[d])) && TableOk(TableOf(Write(s, r).st.disk[d]))
  {
    hide Explains;
    WriteWrote(s, w, r);
    FreeRowExists(TableOf(s.disk[r.parent]));
    WriteKeepsConsistent(s, w, r);
    DirTable(s, w, d);
    DirTable(Write(s, r).st, AfterWrite(s, w, r), d);
  }

  /** A new folder holds no item. */
  lemma NewFolderEmpty(s: State, w: Record, r: Request, k: Vfs.Key)
    requires SafeWrite(s, w, r) && r.size == 0 && k.dir == Claim(s, r)[0] && k.name != NO_NAME
    ensures k.dir !in w.depth && RowFor(TableOf(Write(s, r).st.disk[k.dir]), k) == ROW_COUNT
  {
    hide Explains, TableOf, Nameless, HasFreeRow, PassesChecks;
    var c := Claim(s, r)[0];
    assert c in Claim(s, r);
    FreeNotDir(s, w, c);
    MakeFolderChild(s, r, c);
    NamelessFinds(TableOf(s.disk[c]), Entry(r.name, r.ext, ATTR_SUBDIRECTORY, r.parent, r.size), k);
  }

  lemma NamelessFinds(t: Table, head: Row, k: Vfs.Key)
    requires Nameless(t) && k.name != NO_NAME
    ensures RowFor(t[0 := head], k) == ROW_COUNT
  {
    assert forall j :: 1 <= j < ROW_COUNT ==> t[0 := head][j] == t[j];
  }

  /** A safe successful write leaves every other key's row, chain and bytes as they were. */
  lemma WriteKeepsOthers(s: State, w: Record, r: Request, k: Vfs.Key)
    requires SafeWrite(s, w, r) && k != Vfs.KeyOf(r)
    ensures SameItem(s, w, Write(s, r).st, AfterWrite(s, w, r), k)
  {
    hide Explains, TableOf, Write, Nameless, HasFreeRow, PassesChecks;
    var s', w' := Write(s, r).st, AfterWrite(s, w, r);
    WriteKeepsConsistent(s, w, r);
    if k.name == NO_NAME || k.dir !in w'.depth || k.dir >= CLUSTER_COUNT {
    } else if k.dir in w.depth {
      WriteTable(s, w, r, k.dir);
      if k.dir == r.parent { EnteredFind(TableOf(s.disk[k.dir]), r, AttributeFor(r), Claim(s, r)[0], k); }
      if Present(s, w, k) { WriteKeepsItem(s, w, r, k); }
    } else {
      NewFolderEmpty(s, w, r, k);
    }
  }

  lemma WriteKeepsItem(s: State, w: Record, r: Request, k: Vfs.Key)
    requires SafeWrite(s, w, r) && Present(s, w, k)
    requires var i := RowFor(TableOf(s.disk[k.dir]), k);
      TableOf(Write(s, r).st.disk[k.dir])[i] == TableOf(s.disk[k.dir])[i]
    ensures var w', ref := AfterWrite(s, w, r), Ref(k.dir, RowFor(TableOf(s.disk[k.dir]), k));
      && ref in w.chains && ref in w'.chains && w'.chains[ref] == w.chains[ref]
      && var row := TableOf(s.disk[ref.dir])[ref.row]; ItemOf(Write(s, r).st, row) == ItemOf(s, row)
  {
    hide Explains, Write;
    var s', w', ref := Write(s, r).st, AfterWrite(s, w, r), Ref(k.dir, RowFor(TableOf(s.disk[k.dir]), k));
    WriteKeepsConsistent(s, w, r);
    PresentRef(s, w, k);
    WriteWrote(s, w, r);
    WritePersists(s, w, r, s', Claim(s, r));
    ChainsStay(VolumeOf(s), w, VolumeOf(s'), w', ref);
    if !IsFolder(RowOf(VolumeOf(s), ref)) {
      forall c | c in w.chains[ref] && c < CLUSTER_COUNT
        ensures s'.disk[c] == s.disk[c]
      {
        OwnedNotClaimed(s, w, r, ref, c);
        WriteKeepsBytes(s, r, c);
      }
    }
    ItemKept(s, w, s', w', ref);
  }

  lemma OwnedNotClaimed(s: State, w: Record, r: Request, ref: Ref, c: nat)
    requires SafeWrite(s, w, r) && ref in w.chains && c in w.chains[ref]
    requires ref.dir < CLUSTER_COUNT && ref.row < ROW_COUNT && !IsFolder(RowOf(VolumeOf(s), ref))
    ensures 3 <= c && c != r.parent && c !in Claim(s, r)
  {
    FileAvoidsDirs(VolumeOf(s), w, ref, c);
  }

  /** The key written stands for what was written. */
  lemma WriteMakesItem(s: State, w: Record, r: Request)
    requires SafeWrite(s, w, r)
    ensures var s', w', k := Write(s, r).st, AfterWrite(s, w, r), Vfs.KeyOf(r);
      Present(s', w', k)
      && ItemAt(s', w', k) == if r.size == 0 then Vfs.Folder(Claim(s, r)[0]) else Vfs.File(r.size, r.buf)
  {
    hide Explains, Write;
    var s', w', k, cs := Write(s, r).st, AfterWrite(s, w, r), Vfs.KeyOf(r), Claim(s, r);
    WriteKeepsConsistent(s, w, r);
    WriteTable(s, w, r, r.parent);
    EnteredFind(TableOf(s.disk[r.parent]), r, AttributeFor(r), cs[0], k);
    PresentRef(s', w', k);
    var ref := Ref(r.parent, RowFor(TableOf(s'.disk[r.parent]), k));
    ItemFromChain(s', w', ref, RowOf(VolumeOf(s'), ref));
    if r.size > 0 { StoredBytes(s, w, r); }
  }

  lemma StoredBytes(s: State, w: Record, r: Request)
    requires SafeWrite(s, w, r) && r.size > 0
    ensures Gather(Write(s, r).st.disk, Claim(s, r)) == r.buf
  {
    hide Explains, TableOf, TableBytes, FatBytes, FatOf, Gather, Scatter, Link;
    var f := Link(FatOf(s.disk[FAT_CLUSTER_NUMBER]), Claim(s, r));
    var t := Entered(TableOf(s.disk[r.parent]), r, 0, Claim(s, r)[0]);
    GatherScatter(s.disk[FAT_CLUSTER_NUMBER := FatBytes(f)][r.parent := TableBytes(t)], Claim(s, r), r.buf);
  }

  lemma HeadsKept(s: State, w: Record, r: Request, d: nat)
    requires SafeWrite(s, w, r) && d in w.depth
    ensures HeadOf(Write(s, r).st, d) == HeadOf(s, d)
  {
    hide Explains, Write, PassesChecks, Nameless, HasFreeRow, TableOk, FreeCells;
    DirTableOf(s, w, r, d);
    WriteTable(s, w, r, d);
    if d == r.parent { HeadKeptIn(TableOf(s.disk[d]), r, AttributeFor(r), Claim(s, r)[0]); }
  }

  lemma DirTableOf(s: State, w: Record, r: Request, d: nat)
    requires SafeWrite(s, w, r) && d in w.depth
    ensures 2 <= d < CLUSTER_MAP_SIZE
    ensures |Claim(s, r)| > 0 && Claim(s, r)[0] < CLUSTER_MAP_SIZE
  {
    hide Explains, Write;
    DirTable(s, w, d);
  }

  lemma HeadKeptIn(t: Table, r: Request, attribute: byte, c: nat)
    requires FreeRow(t, ROW_COUNT - 1) != 0 && 2 <= r.parent && c < CLUSTER_MAP_SIZE
    ensures Entered(t, r, attribute, c)[0] == t[0]
  {
  }

  lemma NewHead(s: State, w: Record, r: Request)
    requires SafeWrite(s, w, r) && r.size == 0
    ensures var c := Claim(s, r)[0]; 3 <= c && c !in w.depth && HeadOf(Write(s, r).st, c) == Vfs.Heading(r.name, r.ext)
  {
    hide Explains;
    var c := Claim(s, r)[0];
    assert c in Claim(s, r);
    FreeNotDir(s, w, c);
    MakeFolderChild(s, r, c);
  }

  lemma ClaimUses(s: State, w: Record, r: Request)
    requires SafeWrite(s, w, r)
    ensures |FreeCells(Write(s, r).st.fat, 0)| == |FreeCells(s.fat, 0)| - Needed(r)
  {
    hide Explains, Wrote;
    WriteWrote(s, w, r);
    ClaimBeyondDirs(s, w, r);
    assert Write(s, r).st.fat == Link(s.fat, Claim(s, r));
    LinkUses(s.fat, Claim(s, r));
  }

  lemma ClaimBeyondDirs(s: State, w: Record, r: Request)
    requires Consistent(s, w) && Needed(r) <= |FreeCells(FatOf(s.disk[FAT_CLUSTER_NUMBER]), 0)|
    ensures forall c :: c in Claim(s, r) ==> 3 <= c && c !in w.depth && s.fat[c] == EMPTY_ENTRY
  {
    hide Explains;
    forall c | c in Claim(s, r)
      ensures 3 <= c && c !in w.depth
    {
      FreeNotDir(s, w, c);
    }
  }

  lemma TakenClashes(s: State, w: Record, r: Request, k: Vfs.Key)
    requires Consistent(s, w) && r.parent in w.depth && r.name != NO_NAME
    requires Present(s, w, k) && k.dir == r.parent && k.name == r.name && Vfs.SameExt(k.ext, r.ext)
    ensures Clash(TableOf(s.disk[r.parent]), r.name, r.ext)
  {
    hide Explains;
    DirTable(s, w, r.parent);
    var t := TableOf(s.disk[r.parent]);
    assert Live(t[RowFor(t, k)]) && Collides(t[RowFor(t, k)], r.name, r.ext);
  }

  lemma ClashPresent(s: State, w: Record, r: Request, i: nat)
    requires Consistent(s, w) && r.parent in w.depth && r.parent < CLUSTER_COUNT && r.name != NO_NAME
    requires 1 <= i < ROW_COUNT - 1 && Collides(TableOf(s.disk[r.parent])[i], r.name, r.ext)
    ensures var row := TableOf(s.disk[r.parent])[i]; Present(s, w, Vfs.Key(r.parent, row.name, row.ext))
  {
    hide Explains;
    DirTable(s, w, r.parent);
    var t := TableOf(s.disk[r.parent]);
    FindIs(t, i, t[i].name, t[i].ext, false);
  }

  /** The driver's duplicate test is the abstract one. */
  lemma TakenIffClash(s: State, w: Record, r: Request)
    requires Consistent(s, w) && r.parent in w.depth && r.parent < CLUSTER_COUNT && r.name != NO_NAME
    ensures Vfs.Taken(TreeWith(s, w), r) <==> Clash(TableOf(s.disk[r.parent]), r.name, r.ext)
  {
    hide Explains, Present, ItemAt, TableOf;
    var t, a := TableOf(s.disk[r.parent]), TreeWith(s, w);
    assert Collides(t[0], r.name, r.ext) <==> a.heads[r.parent].name == r.name && Vfs.SameExt(a.heads[r.parent].ext, r.ext);
    if k: Vfs.Key :| k in a.items && k.dir == r.parent && k.name == r.name && Vfs.SameExt(k.ext, r.ext) {
      TakenClashes(s, w, r, k);
    }
    if i :| 1 <= i < ROW_COUNT - 1 && Collides(t[i], r.name, r.ext) {
      ClashPresent(s, w, r, i);
      assert Vfs.Key(r.parent, t[i].name, t[i].ext) in a.items;
    }
  }

  /** A write changes the stray flags of its parent only, and there as the abstract step says. */
  lemma WriteStains(s: State, w: Record, r: Request)
    requires SafeWrite(s, w, r)
    ensures var after := StainedDirs(Write(s, r).st, AfterWrite(s, w, r));
      Vfs.Stains(TreeWith(s, w), r.parent, if r.size == 0 then after - {Claim(s, r)[0]} else after)
  {
    hide Explains, Write, TableOf, PassesChecks, Nameless, HasFreeRow, TableOk, FreeCells, Stained, AnyLive, Vfs.Occupied;
    var s', w' := Write(s, r).st, AfterWrite(s, w, r);
    forall d | d in w.depth && d < CLUSTER_COUNT
      ensures d != r.parent ==> TableOf(s'.disk[d]) == TableOf(s.disk[d])
    {
      WriteTable(s, w, r, d);
    }
    DirTableOf(s, w, r, r.parent);
    WriteTable(s, w, r, r.parent);
    EnteredStain(TableOf(s.disk[r.parent]), r, AttributeFor(r), Claim(s, r)[0]);
    OccupiedIff(s, w, r.parent);
    AddedDirs(s, w, r);
  }

  lemma AddedDirs(s: State, w: Record, r: Request)
    requires SafeWrite(s, w, r)
    ensures if r.size == 0 then Claim(s, r)[0] !in w.depth
                                && AfterWrite(s, w, r).depth.Keys == w.depth.Keys + {Claim(s, r)[0]}
            else AfterWrite(s, w, r).depth == w.depth
  {
    hide Explains, Write;
    ClaimBeyondDirs(s, w, r);
    assert Claim(s, r)[0] in Claim(s, r);
  }

  lemma FileStored(s: State, w: Record, r: Request)
    requires SafeWrite(s, w, r) && r.size > 0
    ensures var a := TreeWith(s, w);
      TreeWith(Write(s, r).st, AfterWrite(s, w, r)) ==
        Vfs.Tree(a.heads, a.items[Vfs.KeyOf(r) := Vfs.File(r.size, r.buf)], a.free - Needed(r),
                 StainedDirs(Write(s, r).st, AfterWrite(s, w, r)))
  {
    hide Explains, Write, SameItem, Present, ItemAt, HeadOf, StainedDirs;
    var s', w' := Write(s, r).st, AfterWrite(s, w, r);
    var a, a' := TreeWith(s, w), TreeWith(s', w');
    ClaimUses(s, w, r);
    WriteMakesItem(s, w, r);
    forall d | d in w.depth
      ensures HeadOf(s', d) == HeadOf(s, d)
    {
      HeadsKept(s, w, r, d);
    }
    assert a'.heads == a.heads;
    forall k: Vfs.Key | k != Vfs.KeyOf(r)
      ensures SameItem(s, w, s', w', k)
    {
      WriteKeepsOthers(s, w, r, k);
    }
    ItemsPut(s, w, s', w', Vfs.KeyOf(r), Vfs.File(r.size, r.buf));
  }

  lemma FolderMade(s: State, w: Record, r: Request)
    requires SafeWrite(s, w, r) && r.size == 0
    ensures TreeWith(s, w).free > 0
    ensures Vfs.Created(TreeWith(s, w), r, TreeWith(Write(s, r).st, AfterWrite(s, w, r)), Claim(s, r)[0])
  {
    hide Explains, Write, SameItem, Present, ItemAt, HeadOf, StainedDirs, Vfs.Stains;
    var s', w', c := Write(s, r).st, AfterWrite(s, w, r), Claim(s, r)[0];
    var a, a' := TreeWith(s, w), TreeWith(s', w');
    ClaimUses(s, w, r);
    WriteMakesItem(s, w, r);
    NewHead(s, w, r);
    WriteStains(s, w, r);
    forall d | d in w.depth
      ensures HeadOf(s', d) == HeadOf(s, d)
    {
      HeadsKept(s, w, r, d);
    }
    assert a'.heads == a.heads[c := Vfs.Heading(r.name, r.ext)];
    forall k: Vfs.Key | k != Vfs.KeyOf(r)
      ensures SameItem(s, w, s', w', k)
    {
      WriteKeepsOthers(s, w, r, k);
    }
    ItemsPut(s, w, s', w', Vfs.KeyOf(r), Vfs.Folder(c));
  }

  // ----- what callers are asked for

  /** The request names a live directory, or one whose row 0 is not that of a directory. */
  ghost predicate NamesParent(s: State, r: Request)
    requires Sound(s) && r.parent < CLUSTER_COUNT
  {
    r.parent in Dirs(s) || !IsDirectoryHead(TableOf(s.disk[r.parent])[0])
  }

  ghost predicate WriteAsked(s: State, r: Request)
    requires Sound(s)
  {
    Fits(r) && r.name != NO_NAME && NamesParent(s, r) && (Write(s, r).code == 0 ==> WriteIsSafe(s, r))
  }

  /** Every write a caller may ask for is an abstract write with the same return code. */
  lemma WriteRefines(s: State, r: Request)
    requires Sound(s) && WriteAsked(s, r)
    ensures Sound(Write(s, r).st)
    ensures Vfs.WriteStep(TreeOf(s), r, Write(s, r).code, TreeOf(Write(s, r).st))
  {
    hide Explains, TableOf, FreeCells;
    var w := RecordOf(s);
    if Write(s, r).code != 0 {
      assert Write(s, r).st == s;
      if r.parent in w.depth {
        DirTable(s, w, r.parent);
        TakenIffClash(s, w, r);
      }
    } else {
      DirTable(s, w, r.parent);
      TakenIffClash(s, w, r);
      WriteKeepsConsistent(s, w, r);
      TheRecord(Write(s, r).st, AfterWrite(s, w, r));
      if r.size == 0 { FolderMade(s, w, r); } else { FileStored(s, w, r); WriteStains(s, w, r); }
    }
  }
}
