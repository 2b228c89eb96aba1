/** The abstract tree a consistent disk stands for, and when two disks show the same item at a key. */
module Abstraction {
  import opened Words
  import opened Layout
  import opened Chains
  import opened FileSystem
  import opened Ownership
  import opened Soundness
  import opened SafeWrites
  import Vfs

  // ----- the abstraction

  ghost function Contents(s: State, start: u32): seq<byte> {
    if HasChain(s.fat, start) then Gather(s.disk, ChainFrom(s.fat, start)) else []
  }

  ghost function ItemOf(s: State, row: Row): Vfs.Item {
    if IsFolder(row) then Vfs.Folder(Start(row)) else Vfs.File(row.filesize, Contents(s, Start(row)))
  }

  function RowFor(t: Table, k: Vfs.Key): nat {
    Find(t, 1, k.name, k.ext, false)
  }

  ghost predicate Present(s: State, w: Record, k: Vfs.Key) {
    k.dir in w.depth && k.dir < CLUSTER_COUNT && k.name != NO_NAME && RowFor(TableOf(s.disk[k.dir]), k) < ROW_COUNT
  }

  ghost function ItemAt(s: State, w: Record, k: Vfs.Key): Vfs.Item
    requires Present(s, w, k)
  {
    var t := TableOf(s.disk[k.dir]);
    ItemOf(s, t[RowFor(t, k)])
  }

  ghost function HeadOf(s: State, d: nat): Vfs.Heading {
    if d < CLUSTER_COUNT then var row := TableOf(s.disk[d])[0]; Vfs.Heading(row.name, row.ext)
    else Vfs.Heading(NO_NAME, NO_EXT)
  }

  /** Some row is flagged and has no name: a delete counts it, and no call finds it. */
  predicate Stained(t: Table) {
    exists j :: 1 <= j < ROW_COUNT && Flagged(t[j]) && !Live(t[j])
  }

  ghost function StainedDirs(s: State, w: Record): set<nat> {
    set d | d in w.depth && d < CLUSTER_COUNT && Stained(TableOf(s.disk[d]))
  }

  ghost function TreeWith(s: State, w: Record): Vfs.Tree {
    Vfs.Tree(map d | d in w.depth :: HeadOf(s, d),
             imap k: Vfs.Key | Present(s, w, k) :: ItemAt(s, w, k),
             |FreeCells(s.fat, 0)|,
             StainedDirs(s, w))
  }

  /** The abstract tree a consistent disk stands for. */
  ghost function TreeOf(s: State): Vfs.Tree
    requires Sound(s)
  {
    TreeWith(s, RecordOf(s))
  }

  // ----- finding rows

  lemma FindIs(t: Table, i: nat, name: Name, ext: Ext, flagged: bool)
    requires TableOk(t) && name != NO_NAME && 1 <= i < ROW_COUNT && SameKey(t[i], name, ext)
    ensures Find(t, 1, name, ext, flagged) == i
  {
    var j := Find(t, 1, name, ext, flagged);
    assert Live(t[i]) && Flagged(t[i]);
    assert j <= i;
    assert j < i ==> Live(t[j]);
  }

  /** A key that is present leads to its live row, whose chain holds the item. */
  lemma PresentRef(s: State, w: Record, k: Vfs.Key)
    requires Consistent(s, w) && Present(s, w, k)
    ensures var i := RowFor(TableOf(s.disk[k.dir]), k); var ref := Ref(k.dir, i); var row := TableOf(s.disk[k.dir])[i];
      && 1 <= i < ROW_COUNT && RowOf(VolumeOf(s), ref) == row && Live(row) && Flagged(row)
      && ref in w.chains && RefOk(VolumeOf(s), w, ref)
  {
    var ref := Ref(k.dir, RowFor(TableOf(s.disk[k.dir]), k));
    assert IsRef(VolumeOf(s), w, ref) && DirOk(VolumeOf(s), k.dir);
    assert ref in w.chains && RefOk(VolumeOf(s), w, ref);
  }

  lemma ItemFromChain(s: State, w: Record, ref: Ref, row: Row)
    requires ref in w.chains && RowOk(VolumeOf(s), w, ref, row, w.chains[ref])
    ensures ItemOf(s, row) ==
            if IsFolder(row) then Vfs.Folder(Start(row)) else Vfs.File(row.filesize, Gather(s.disk, w.chains[ref]))
  {
    ChainOf(s.fat, Start(row), w.chains[ref]);
  }

  // ----- what other entries see

  /** s' has the row of k, its chain, and the bytes on that chain as s has them. */
  ghost predicate SameItem(s: State, w: Record, s': State, w': Record, k: Vfs.Key) {
    && (Present(s', w', k) <==> Present(s, w, k))
    && (Present(s, w, k) ==>
          var ref := Ref(k.dir, RowFor(TableOf(s.disk[k.dir]), k));
          && RowFor(TableOf(s'.disk[k.dir]), k) == ref.row
          && TableOf(s'.disk[k.dir])[ref.row] == TableOf(s.disk[k.dir])[ref.row]
          && ref in w.chains && ref in w'.chains && w'.chains[ref] == w.chains[ref]
          && ItemAt(s', w', k) == ItemAt(s, w, k))
  }

  /** A row that both states own with the same chain and the same bytes stands for the same item. */
  lemma ItemKept(s: State, w: Record, s': State, w': Record, ref: Ref)
    requires Consistent(s, w) && Consistent(s', w') && ref in w.chains && ref in w'.chains
    requires ref.dir < CLUSTER_COUNT && 1 <= ref.row < ROW_COUNT
    requires var row := TableOf(s.disk[ref.dir])[ref.row]; TableOf(s'.disk[ref.dir])[ref.row] == row
    requires w'.chains[ref] == w.chains[ref]
    requires !IsFolder(TableOf(s.disk[ref.dir])[ref.row]) ==>
               forall c :: c in w.chains[ref] && c < CLUSTER_COUNT ==> s'.disk[c] == s.disk[c]
    ensures ItemOf(s', TableOf(s.disk[ref.dir])[ref.row]) == ItemOf(s, TableOf(s.disk[ref.dir])[ref.row])
  {
    hide Explains, TableOf;
    var row := TableOf(s.disk[ref.dir])[ref.row];
    OwnedRow(VolumeOf(s), w, ref);
    OwnedRow(VolumeOf(s'), w', ref);
    assert RowOf(VolumeOf(s), ref) == row && RowOf(VolumeOf(s'), ref) == row;
    ItemFromChain(s, w, ref, row);
    ItemFromChain(s', w', ref, row);
    if !IsFolder(row) { GatherFrame(s.disk, s'.disk, w.chains[ref]); }
  }

  lemma DirTable(s: State, w: Record, d: nat)
    requires Consistent(s, w) && d in w.depth
    ensures 2 <= d < CLUSTER_MAP_SIZE && TableOk(TableOf(s.disk[d]))
  {
    assert DirOk(VolumeOf(s), d);
  }

  lemma SameItemSame(s: State, w: Record, s': State, w': Record, k: Vfs.Key)
    requires SameItem(s, w, s', w', k)
    ensures Present(s', w', k) <==> Present(s, w, k)
    ensures Present(s, w, k) ==> ItemAt(s', w', k) == ItemAt(s, w, k)
  {
  }

  /** Same rows and bytes for every key but one: the map changes at that key only. */
  lemma ItemsPut(s: State, w: Record, s': State, w': Record, key: Vfs.Key, item: Vfs.Item)
    requires forall k: Vfs.Key :: k != key ==> SameItem(s, w, s', w', k)
    requires Present(s', w', key) && ItemAt(s', w', key) == item
    ensures TreeWith(s', w').items == TreeWith(s, w).items[key := item]
  {
    hide Present, ItemAt, HeadOf, SameItem;
    var a, b := TreeWith(s', w').items, TreeWith(s, w).items[key := item];
    forall k: Vfs.Key
      ensures k in a <==> k in b
      ensures k in a ==> a[k] == b[k]
    {
      if k != key { SameItemSame(s, w, s', w', k); }
    }
    assert a == b;
  }

  // ----- occupied and stained folders

  predicate AnyLive(t: Table) {
    exists j :: 1 <= j < ROW_COUNT && Live(t[j])
  }

  lemma OccupiedIff(s: State, w: Record, d: nat)
    requires Consistent(s, w) && d in w.depth && d < CLUSTER_COUNT
    ensures Vfs.Occupied(TreeWith(s, w), d) <==> AnyLive(TableOf(s.disk[d]))
  {
    hide Explains, TableOf, ItemAt;
    var a, t := TreeWith(s, w), TableOf(s.disk[d]);
    DirTable(s, w, d);
    if j :| 1 <= j < ROW_COUNT && Live(t[j]) {
      var k := Vfs.Key(d, t[j].name, t[j].ext);
      FindIs(t, j, k.name, k.ext, false);
      assert k in a.items;
    }
    if k: Vfs.Key :| k in a.items && k.dir == d {
      assert Live(t[RowFor(t, k)]);
    }
  }

  /** A table of a live directory has a flagged row exactly if it has a live or a stray one. */
  lemma FlaggedIff(t: Table)
    requires TableOk(t)
    ensures AnyFlagged(t) <==> AnyLive(t) || Stained(t)
  {
  }

  /** The exact effect of an entry on stray flags: row p of the table of directory p. */
  lemma StainedIff(t: Table, r: Request, attribute: byte, c: nat)
    requires TableOk(t) && HasFreeRow(t) && 2 <= r.parent && r.name != NO_NAME && c < CLUSTER_MAP_SIZE
    ensures Stained(Entered(t, r, attribute, c)) <==>
            Stained(t) || (r.parent < ROW_COUNT && !Live(t[r.parent]) && FreeRow(t, ROW_COUNT - 1) != r.parent)
  {
    var u, i := Entered(t, r, attribute, c), FreeRow(t, ROW_COUNT - 1);
    FreeRowExists(t);
    if j :| 1 <= j < ROW_COUNT && Flagged(t[j]) && !Live(t[j]) {
      EnteredRow(t, r, attribute, c, j);
    }
    if r.parent < ROW_COUNT && !Live(t[r.parent]) && i != r.parent {
      assert Flagged(u[r.parent]) && !Live(u[r.parent]);
    }
    if j :| 1 <= j < ROW_COUNT && Flagged(u[j]) && !Live(u[j]) {
      assert j != i;
    }
  }

  /** Erasing a live row neither makes nor removes a stray flag. */
  lemma ErasedStain(t: Table, i: nat)
    requires 1 <= i < ROW_COUNT && Live(t[i])
    ensures Stained(t[i := Erased(t[i])]) <==> Stained(t)
  {
    var u := t[i := Erased(t[i])];
    if j :| 1 <= j < ROW_COUNT && Flagged(t[j]) && !Live(t[j]) { assert u[j] == t[j]; }
    if j :| 1 <= j < ROW_COUNT && Flagged(u[j]) && !Live(u[j]) { assert u[j] == t[j]; }
  }

  /** How a write in directory p changes whether p is stained. */
  lemma EnteredStain(t: Table, r: Request, attribute: byte, c: nat)
    requires TableOk(t) && HasFreeRow(t) && 2 <= r.parent && r.name != NO_NAME && c < CLUSTER_MAP_SIZE
    ensures var u := Entered(t, r, attribute, c);
      && (Stained(t) ==> Stained(u))
      && (Stained(u) ==> Stained(t) || Vfs.CanStain(r.parent))
      && (Vfs.CanStain(r.parent) && !AnyLive(t) ==> Stained(u))
  {
    StainedIff(t, r, attribute, c);
    FlaggedIff(t);
    if !Flagged(t[ROW_COUNT - 2]) { LastRowFree(t); }
  }

  lemma LastRowFree(t: Table)
    requires !Flagged(t[ROW_COUNT - 2])
    ensures FreeRow(t, ROW_COUNT - 1) == ROW_COUNT - 2
  {
  }
}
