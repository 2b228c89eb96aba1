/** Who owns which cluster.  A volume is consistent when some ownership record explains it: every
    live row starts a chain that ends, no cluster is in two chains, no claimed cluster is without an
    owner, and the directories form a tree under the root. */
module Ownership {
  import opened Layout
  import opened Chains
  import opened FileSystem

  const BLANK_TABLE: Table := seq<Row>(ROW_COUNT, _ => EMPTY_ROW)

  type Tables = t: seq<Table> | |t| == CLUSTER_COUNT witness seq<Table>(CLUSTER_COUNT, _ => BLANK_TABLE)

  /** What ownership depends on: every cluster read as a table, and the FAT. */
  datatype Volume = Volume(tabs: Tables, fat: Fat)

  /** Row `row` of the directory in cluster `dir`. */
  datatype Ref = Ref(dir: nat, row: nat)

  /** depth: the live directories with their distance from the root; chains: the clusters of each
      live row; owner: the row each claimed cluster belongs to. */
  datatype Record = Record(depth: map<nat, nat>, chains: map<Ref, seq<nat>>, owner: map<nat, Ref>)

  predicate Live(r: Row) {
    r.name != NO_NAME
  }

  function RowOf(v: Volume, ref: Ref): Row
    requires ref.dir < CLUSTER_COUNT && ref.row < ROW_COUNT
  {
    v.tabs[ref.dir][ref.row]
  }

  predicate CellsOk(v: Volume) {
    v.fat[0] == CLUSTER_0_VALUE && v.fat[1] == CLUSTER_1_VALUE && v.fat[2] == END_OF_FILE
  }

  /** Row 0 describes the directory; live rows are flagged and have different keys; row 63 is never live. */
  predicate TableOk(t: Table) {
    && IsDirectoryHead(t[0])
    && (forall i :: 1 <= i < ROW_COUNT && Live(t[i]) ==> Flagged(t[i]))
    && !Live(t[ROW_COUNT - 1])
    && (forall i, j :: 1 <= i < j < ROW_COUNT && Live(t[i]) && Live(t[j]) ==> !SameKey(t[i], t[j].name, t[j].ext))
  }

  predicate DirsOk(v: Volume, w: Record) {
    && ROOT_CLUSTER_NUMBER in w.depth && w.depth[ROOT_CLUSTER_NUMBER] == 0
    && Start(v.tabs[ROOT_CLUSTER_NUMBER][0]) == ROOT_CLUSTER_NUMBER
    && forall d {:trigger DirOk(v, d)} :: d in w.depth ==> DirOk(v, d)
  }

  predicate DirOk(v: Volume, d: nat) {
    2 <= d < CLUSTER_MAP_SIZE && TableOk(v.tabs[d])
  }

  /** The rows with a chain are exactly the live rows of live directories. */
  ghost predicate RefsOk(v: Volume, w: Record) {
    forall ref: Ref {:trigger ref in w.chains} :: ref in w.chains <==> IsRef(v, w, ref)
  }

  predicate IsRef(v: Volume, w: Record, ref: Ref) {
    ref.dir in w.depth && ref.dir < CLUSTER_COUNT && 1 <= ref.row < ROW_COUNT && Live(RowOf(v, ref))
  }

  /** A file has as many clusters as its size needs; a directory has one, which is live, carries the
      same name, and links back to the directory that holds the row. */
  predicate RowOk(v: Volume, w: Record, ref: Ref, row: Row, cs: seq<nat>) {
    && IsChain(v.fat, Start(row), cs)
    && if IsFolder(row) then
         && |cs| == 1 && cs[0] in w.depth && cs[0] != ROOT_CLUSTER_NUMBER && row.filesize == 0
         && Start(v.tabs[cs[0]][0]) == ref.dir
         && SameKey(v.tabs[cs[0]][0], row.name, row.ext)
       else row.attribute == 0 && row.filesize > 0 && |cs| == ClustersFor(row.filesize)
  }

  ghost predicate RowsOk(v: Volume, w: Record) {
    forall ref {:trigger RefOk(v, w, ref)} :: ref in w.chains ==> RefOk(v, w, ref)
  }

  predicate RefOk(v: Volume, w: Record, ref: Ref)
    requires ref in w.chains
  {
    ref.dir < CLUSTER_COUNT && ref.row < ROW_COUNT && RowOk(v, w, ref, RowOf(v, ref), w.chains[ref])
  }

  /** Every claimed cluster from 3 on has one owner, and every cluster of a chain is owned by its row. */
  ghost predicate OwnersOk(v: Volume, w: Record) {
    && (forall c :: c in w.owner <==> 3 <= c < CLUSTER_MAP_SIZE && v.fat[c] != EMPTY_ENTRY)
    && (forall c :: c in w.owner ==> w.owner[c] in w.chains && c in w.chains[w.owner[c]])
    && (forall ref, c {:trigger c in w.chains[ref]} :: ref in w.chains && c in w.chains[ref] ==> c in w.owner && w.owner[c] == ref)
  }

  /** Every directory but the root is owned by a directory row one level up. */
  ghost predicate TreeOk(v: Volume, w: Record) {
    forall d {:trigger LevelOk(v, w, d)} :: d in w.depth && d != ROOT_CLUSTER_NUMBER ==> LevelOk(v, w, d)
  }

  predicate LevelOk(v: Volume, w: Record, d: nat)
    requires d in w.depth
  {
    && d in w.owner
    && var up := w.owner[d];
       up.dir in w.depth && up.dir < CLUSTER_COUNT && up.row < ROW_COUNT
       && IsFolder(RowOf(v, up)) && w.depth[d] == w.depth[up.dir] + 1
  }

  ghost predicate Explains(v: Volume, w: Record) {
    CellsOk(v) && DirsOk(v, w) && RefsOk(v, w) && RowsOk(v, w) && OwnersOk(v, w) && TreeOk(v, w)
  }

  // ----- consequences

  /** Two rows never share a cluster. */
  lemma ChainsDisjoint(v: Volume, w: Record, a: Ref, b: Ref, c: nat)
    requires Explains(v, w) && a in w.chains && b in w.chains
    requires c in w.chains[a] && c in w.chains[b]
    ensures a == b
  {
  }

  /** A directory's cluster is the whole chain of its row. */
  lemma DirChain(v: Volume, w: Record, d: nat)
    requires Explains(v, w) && d in w.depth && d != ROOT_CLUSTER_NUMBER
    ensures d in w.owner && w.owner[d] in w.chains && w.chains[w.owner[d]] == [d]
    ensures IsFolder(RowOf(v, w.owner[d])) && Start(RowOf(v, w.owner[d])) == d
    ensures Start(v.tabs[d][0]) == w.owner[d].dir
  {
    assert LevelOk(v, w, d);
    assert RefOk(v, w, w.owner[d]);
  }

  lemma LiveDir(v: Volume, w: Record, d: nat)
    requires Explains(v, w) && d in w.depth
    ensures DirOk(v, d)
  {
  }

  lemma DirClaimed(v: Volume, w: Record, d: nat)
    requires Explains(v, w) && d in w.depth
    ensures 2 <= d < CLUSTER_MAP_SIZE && v.fat[d] != EMPTY_ENTRY
  {
    assert DirOk(v, d);
    if d != ROOT_CLUSTER_NUMBER { assert LevelOk(v, w, d); }
  }

  lemma FreeBeyondReserved(v: Volume, c: nat)
    requires CellsOk(v) && c < CLUSTER_MAP_SIZE && v.fat[c] == EMPTY_ENTRY
    ensures 3 <= c
  {
    assert c != 0 && c != 1 && c != 2;
  }

  /** A live row owns its chain. */
  lemma LiveRowOwns(v: Volume, w: Record, ref: Ref)
    requires Explains(v, w) && IsRef(v, w, ref)
    ensures ref in w.chains && RefOk(v, w, ref)
  {
    assert ref in w.chains;
  }

  lemma OwnedRow(v: Volume, w: Record, ref: Ref)
    requires Explains(v, w) && ref in w.chains
    ensures IsRef(v, w, ref) && RefOk(v, w, ref)
  {
  }

  /** No file has a cluster that is a directory, or one of the clusters 0 to 2. */
  lemma FileAvoidsDirs(v: Volume, w: Record, ref: Ref, c: nat)
    requires Explains(v, w) && ref in w.chains && !IsFolder(RowOf(v, ref)) && c in w.chains[ref]
    ensures 3 <= c < CLUSTER_MAP_SIZE && c !in w.depth
  {
    if c in w.depth {
      DirChain(v, w, c);
    }
  }

  /** Row-0 links from d reach the root in n steps. */
  predicate Reaches(v: Volume, d: nat, n: nat)
    decreases n
  {
    if d == ROOT_CLUSTER_NUMBER then n == 0
    else n > 0 && d < CLUSTER_COUNT && Reaches(v, Start(v.tabs[d][0]), n - 1)
  }

  /** Following row 0 upwards from any live directory ends at the root. */
  lemma {:induction false} ReachesRoot(v: Volume, w: Record, d: nat)
    requires Explains(v, w) && d in w.depth
    ensures Reaches(v, d, w.depth[d])
    decreases w.depth[d]
  {
    if d != ROOT_CLUSTER_NUMBER {
      DirChain(v, w, d);
      assert DirOk(v, d) && LevelOk(v, w, d);
      ReachesRoot(v, w, w.owner[d].dir);
    }
  }

  lemma {:induction false} SameDirs(v: Volume, a: Record, b: Record, d: nat)
    requires Explains(v, a) && Explains(v, b) && d in a.depth
    ensures d in b.depth && b.depth[d] == a.depth[d]
    decreases a.depth[d]
  {
    if d != ROOT_CLUSTER_NUMBER {
      DirChain(v, a, d);
      var up := a.owner[d];
      assert LevelOk(v, a, d);
      SameDirs(v, a, b, up.dir);
      assert IsRef(v, a, up);
      assert up in b.chains && RefOk(v, b, up);
      assert b.chains[up][0] == d && d in b.chains[up];
      assert LevelOk(v, b, d);
    }
  }

  /** A volume has at most one ownership record. */
  lemma RecordUnique(v: Volume, a: Record, b: Record)
    requires Explains(v, a) && Explains(v, b)
    ensures a == b
  {
    forall d | d in a.depth
      ensures d in b.depth && b.depth[d] == a.depth[d]
    {
      SameDirs(v, a, b, d);
    }
    forall d | d in b.depth
      ensures d in a.depth
    {
      SameDirs(v, b, a, d);
    }
    assert a.depth == b.depth;
    forall ref: Ref
      ensures ref in a.chains <==> ref in b.chains
    {
      assert IsRef(v, a, ref) == IsRef(v, b, ref);
    }
    forall ref | ref in a.chains
      ensures a.chains[ref] == b.chains[ref]
    {
      assert RefOk(v, a, ref) && RefOk(v, b, ref);
      ChainUnique(v.fat, Start(RowOf(v, ref)), a.chains[ref], b.chains[ref]);
    }
    assert a.chains == b.chains;
    assert a.owner.Keys == b.owner.Keys;
    forall c | c in a.owner
      ensures a.owner[c] == b.owner[c]
    {
      assert c in b.chains[a.owner[c]];
    }
    assert a.owner == b.owner;
  }

  // ----- adding an entry

  ghost function WithFile(w: Record, ref: Ref, cs: seq<nat>): Record {
    Record(w.depth, w.chains[ref := cs], w.owner + map c | c in cs :: ref)
  }

  ghost function WithFolder(w: Record, ref: Ref, c: nat): Record
    requires ref.dir in w.depth
  {
    WithFile(w, ref, [c]).(depth := w.depth[c := w.depth[ref.dir] + 1])
  }

  /** Everything a successful write changes, as seen by ownership. */
  ghost predicate Adds(v: Volume, w: Record, v': Volume, ref: Ref, e: Row, cs: seq<nat>) {
    && Explains(v, w)
    && ref.dir in w.depth && ref.dir < CLUSTER_MAP_SIZE && 1 <= ref.row < ROW_COUNT - 1
    && !Flagged(RowOf(v, ref))
    && Live(e) && Flagged(e)
    && (forall i :: 1 <= i < ROW_COUNT ==> !SameKey(v.tabs[ref.dir][i], e.name, e.ext))
    && 0 < |cs| && InMap(cs) && Distinct(cs) && Start(e) == cs[0]
    && (forall c :: c in cs ==> v.fat[c] == EMPTY_ENTRY)
    && v'.fat == Link(v.fat, cs)
    && v'.tabs[ref.dir] == FlagRow(v.tabs[ref.dir], ref.dir)[ref.row := e]
    && (forall d :: d in w.depth && d < CLUSTER_MAP_SIZE && d != ref.dir ==> v'.tabs[d] == v.tabs[d])
  }

  lemma OldChainsKept(v: Volume, w: Record, f: Fat, cs: seq<nat>, ref: Ref)
    requires Explains(v, w) && ref in w.chains
    requires 0 < |cs| && InMap(cs) && forall c :: c in cs ==> v.fat[c] == EMPTY_ENTRY
    requires f == Link(v.fat, cs)
    ensures IsChain(f, Start(RowOf(v, ref)), w.chains[ref])
  {
    var was := w.chains[ref];
    assert RefOk(v, w, ref);
    forall c | c in was
      ensures f[c] == v.fat[c]
    {
      LinkFrame(v.fat, cs, c);
    }
    ChainFrame(v.fat, f, Start(RowOf(v, ref)), was);
  }

  /** The rows of live directories, other than the new one, keep all but their flag. */
  lemma RowsKept(v: Volume, w: Record, v': Volume, ref: Ref, e: Row, cs: seq<nat>, r: Ref)
    requires Adds(v, w, v', ref, e, cs)
    requires r.dir in w.depth && r.dir < CLUSTER_COUNT && r.row < ROW_COUNT && r != ref
    ensures RowOf(v', r) == RowOf(v, r).(userAttribute := RowOf(v', r).userAttribute)
    ensures Flagged(RowOf(v, r)) ==> RowOf(v', r) == RowOf(v, r)
    ensures r.row == 0 ==> RowOf(v', r) == RowOf(v, r)
  {
    assert DirOk(v, r.dir);
  }

  lemma NotYetOwned(v: Volume, w: Record, v': Volume, ref: Ref, e: Row, cs: seq<nat>)
    requires Adds(v, w, v', ref, e, cs)
    ensures ref !in w.chains
    ensures forall c :: c in cs ==> 3 <= c && c !in w.owner && c !in w.depth
  {
    assert DirOk(v, ref.dir) && IsRef(v, w, ref) == (ref in w.chains);
    forall c | c in cs
      ensures c !in w.depth
    {
      if c in w.depth { DirClaimed(v, w, c); }
    }
  }

  lemma TableKept(t: Table, p: nat, i: nat, e: Row)
    requires TableOk(t) && 2 <= p && 1 <= i < ROW_COUNT - 1
    requires Live(e) && Flagged(e)
    requires forall j :: 1 <= j < ROW_COUNT ==> !SameKey(t[j], e.name, e.ext)
    ensures TableOk(FlagRow(t, p)[i := e])
  {
    var u := FlagRow(t, p)[i := e];
    forall a, b | 1 <= a < b < ROW_COUNT && Live(u[a]) && Live(u[b])
      ensures !SameKey(u[a], u[b].name, u[b].ext)
    {
      assert b == i ==> !SameKey(t[a], e.name, e.ext);
      assert a == i ==> !SameKey(t[b], e.name, e.ext);
    }
  }

  lemma AddKeepsDirs(v: Volume, w: Record, v': Volume, ref: Ref, e: Row, cs: seq<nat>)
    requires Adds(v, w, v', ref, e, cs)
    ensures forall d :: d in w.depth ==> DirOk(v', d)
    ensures Start(v'.tabs[ROOT_CLUSTER_NUMBER][0]) == ROOT_CLUSTER_NUMBER
    ensures CellsOk(v')
  {
    NotYetOwned(v, w, v', ref, e, cs);
    LinkFrame(v.fat, cs, 0);
    LinkFrame(v.fat, cs, 1);
    LinkFrame(v.fat, cs, 2);
    RowsKept(v, w, v', ref, e, cs, Ref(ROOT_CLUSTER_NUMBER, 0));
    forall d | d in w.depth
      ensures DirOk(v', d)
    {
      assert DirOk(v, d);
      if d == ref.dir { TableKept(v.tabs[d], d, ref.row, e); }
    }
  }

  lemma AddKeepsRef(v: Volume, w: Record, v': Volume, w': Record, ref: Ref, e: Row, cs: seq<nat>, r: Ref)
    requires Adds(v, w, v', ref, e, cs) && r in w.chains
    requires w'.chains == w.chains[ref := cs] && w.depth.Keys <= w'.depth.Keys
    ensures r in w'.chains && RefOk(v', w', r)
  {
    NotYetOwned(v, w, v', ref, e, cs);
    assert IsRef(v, w, r) && RefOk(v, w, r);
    RowsKept(v, w, v', ref, e, cs, r);
    OldChainsKept(v, w, v'.fat, cs, r);
    if IsFolder(RowOf(v, r)) {
      var c := w.chains[r][0];
      assert DirOk(v, c);
      RowsKept(v, w, v', ref, e, cs, Ref(c, 0));
    }
  }

  lemma AddClaims(v: Volume, w: Record, v': Volume, ref: Ref, e: Row, cs: seq<nat>, c: nat)
    requires Adds(v, w, v', ref, e, cs)
    ensures c in w.owner || c in cs <==> 3 <= c < CLUSTER_MAP_SIZE && v'.fat[c] != EMPTY_ENTRY
  {
    NotYetOwned(v, w, v', ref, e, cs);
    if c in cs {
      LinkClaims(v.fat, cs, c);
    } else if c < CLUSTER_MAP_SIZE {
      LinkFrame(v.fat, cs, c);
    }
  }

  lemma AddKeepsOwners(v: Volume, w: Record, v': Volume, w': Record, ref: Ref, e: Row, cs: seq<nat>)
    requires Adds(v, w, v', ref, e, cs)
    requires w'.chains == w.chains[ref := cs] && w'.owner == w.owner + map c | c in cs :: ref
    ensures OwnersOk(v', w')
  {
    NotYetOwned(v, w, v', ref, e, cs);
    forall c: nat
      ensures c in w'.owner <==> 3 <= c < CLUSTER_MAP_SIZE && v'.fat[c] != EMPTY_ENTRY
    {
      AddClaims(v, w, v', ref, e, cs, c);
    }
    AddOwned(v, w, w', ref, cs);
    AddOwners(v, w, w', ref, cs);
  }

  lemma AddOwned(v: Volume, w: Record, w': Record, ref: Ref, cs: seq<nat>)
    requires OwnersOk(v, w)
    requires w'.chains == w.chains[ref := cs] && w'.owner == w.owner + map c | c in cs :: ref
    requires forall c :: c in cs ==> c !in w.owner
    ensures forall r, c {:trigger c in w'.chains[r]} :: r in w'.chains && c in w'.chains[r] ==>
              c in w'.owner && w'.owner[c] == r
  {
    forall r, c | r in w'.chains && c in w'.chains[r]
      ensures c in w'.owner && w'.owner[c] == r
    {
      if r != ref { assert c in w.chains[r]; }
    }
  }

  lemma AddOwners(v: Volume, w: Record, w': Record, ref: Ref, cs: seq<nat>)
    requires OwnersOk(v, w) && ref !in w.chains
    requires w'.chains == w.chains[ref := cs] && w'.owner == w.owner + map c | c in cs :: ref
    ensures forall c :: c in w'.owner ==> w'.owner[c] in w'.chains && c in w'.chains[w'.owner[c]]
  {
  }

  lemma AddKeepsLevel(v: Volume, w: Record, v': Volume, w': Record, ref: Ref, e: Row, cs: seq<nat>, d: nat)
    requires Adds(v, w, v', ref, e, cs)
    requires w'.owner == w.owner + map c | c in cs :: ref
    requires forall c :: c in w.depth ==> c in w'.depth && w'.depth[c] == w.depth[c]
    requires d in w.depth && d != ROOT_CLUSTER_NUMBER
    ensures LevelOk(v', w', d)
  {
    NotYetOwned(v, w, v', ref, e, cs);
    assert LevelOk(v, w, d);
    RowsKept(v, w, v', ref, e, cs, w.owner[d]);
  }

  lemma AddRefs(v: Volume, w: Record, v': Volume, w': Record, ref: Ref, e: Row, cs: seq<nat>, r: Ref)
    requires Adds(v, w, v', ref, e, cs)
    requires w'.chains == w.chains[ref := cs]
    requires r.dir in w.depth && r.dir in w'.depth
    ensures r in w'.chains <==> IsRef(v', w', r)
  {
    assert DirOk(v, r.dir);
    assert r in w.chains <==> IsRef(v, w, r);
    if r != ref && r.row < ROW_COUNT {
      RowsKept(v, w, v', ref, e, cs, r);
    }
  }

  lemma NoRefOutside(v: Volume, w: Record, r: Ref)
    requires Explains(v, w) && r.dir !in w.depth
    ensures r !in w.chains
  {
    assert r in w.chains <==> IsRef(v, w, r);
  }

  /** Storing a file keeps the volume consistent. */
  lemma AddFile(v: Volume, w: Record, v': Volume, ref: Ref, e: Row, cs: seq<nat>)
    requires Adds(v, w, v', ref, e, cs)
    requires e.attribute == 0 && e.filesize > 0 && |cs| == ClustersFor(e.filesize)
    ensures Explains(v', WithFile(w, ref, cs))
  {
    var w' := WithFile(w, ref, cs);
    NotYetOwned(v, w, v', ref, e, cs);
    AddKeepsDirs(v, w, v', ref, e, cs);
    AddKeepsOwners(v, w, v', w', ref, e, cs);
    forall r: Ref
      ensures r in w'.chains <==> IsRef(v', w', r)
    {
      if r.dir in w.depth { AddRefs(v, w, v', w', ref, e, cs, r); } else { NoRefOutside(v, w, r); }
    }
    forall r | r in w'.chains
      ensures RefOk(v', w', r)
    {
      if r == ref { LinkIsChain(v.fat, cs); } else { AddKeepsRef(v, w, v', w', ref, e, cs, r); }
    }
    forall d | d in w'.depth && d != ROOT_CLUSTER_NUMBER
      ensures LevelOk(v', w', d)
    {
      AddKeepsLevel(v, w, v', w', ref, e, cs, d);
    }
  }

  lemma FolderTableOk(v: Volume, c: nat)
    requires 2 <= c < CLUSTER_MAP_SIZE && IsDirectoryHead(v.tabs[c][0])
    requires forall i :: 1 <= i < ROW_COUNT ==> !Live(v.tabs[c][i])
    ensures DirOk(v, c)
  {
  }

  lemma NewLevel(v: Volume, v': Volume, w': Record, ref: Ref, e: Row, c: nat)
    requires ref.dir < CLUSTER_COUNT && ref.row < ROW_COUNT && IsFolder(e)
    requires v'.tabs[ref.dir] == FlagRow(v.tabs[ref.dir], ref.dir)[ref.row := e]
    requires c in w'.depth && c in w'.owner && w'.owner[c] == ref
    requires ref.dir in w'.depth && w'.depth[c] == w'.depth[ref.dir] + 1
    ensures LevelOk(v', w', c)
  {
  }

  /** Making a folder on a cluster without named rows keeps the volume consistent. */
  lemma AddFolder(v: Volume, w: Record, v': Volume, ref: Ref, e: Row, c: nat)
    requires Adds(v, w, v', ref, e, [c])
    requires IsFolder(e) && e.filesize == 0
    requires var head := v'.tabs[c][0];
      IsDirectoryHead(head) && SameKey(head, e.name, e.ext) && Start(head) == ref.dir
    requires forall i :: 1 <= i < ROW_COUNT ==> !Live(v'.tabs[c][i])
    ensures Explains(v', WithFolder(w, ref, c))
  {
    var w' := WithFolder(w, ref, c);
    var cs := [c];
    NotYetOwned(v, w, v', ref, e, cs);
    assert c in cs;
    AddKeepsDirs(v, w, v', ref, e, cs);
    AddKeepsOwners(v, w, v', w', ref, e, cs);
    FolderTableOk(v', c);
    forall r: Ref
      ensures r in w'.chains <==> IsRef(v', w', r)
    {
      if r.dir in w.depth { AddRefs(v, w, v', w', ref, e, cs, r); } else { NoRefOutside(v, w, r); }
    }
    forall r | r in w'.chains
      ensures RefOk(v', w', r)
    {
      if r == ref { LinkIsChain(v.fat, cs); } else { AddKeepsRef(v, w, v', w', ref, e, cs, r); }
    }
    NewLevel(v, v', w', ref, e, c);
    forall d | d in w'.depth && d != ROOT_CLUSTER_NUMBER
      ensures LevelOk(v', w', d)
    {
      if d != c { AddKeepsLevel(v, w, v', w', ref, e, cs, d); }
    }
  }

  // ----- removing an entry

  ghost function Without(v: Volume, w: Record, ref: Ref): Record
    requires ref in w.chains && ref.dir < CLUSTER_COUNT && ref.row < ROW_COUNT
  {
    var cells := set c | c in w.chains[ref];
    Record(if IsFolder(RowOf(v, ref)) then w.depth - cells else w.depth, w.chains - {ref}, w.owner - cells)
  }

  /** Everything a successful delete changes, as seen by ownership. */
  ghost predicate Removes(v: Volume, w: Record, v': Volume, ref: Ref) {
    && Explains(v, w) && ref in w.chains && ref.dir < CLUSTER_COUNT && ref.row < ROW_COUNT
    && v'.fat == Clear(v.fat, w.chains[ref])
    && v'.tabs[ref.dir] == v.tabs[ref.dir][ref.row := Erased(RowOf(v, ref))]
    && (forall d :: d in Without(v, w, ref).depth && d < CLUSTER_COUNT && d != ref.dir ==> v'.tabs[d] == v.tabs[d])
    && (IsFolder(RowOf(v, ref)) ==>
          forall c, i :: c in w.chains[ref] && c < CLUSTER_COUNT && 1 <= i < ROW_COUNT ==> !Live(v.tabs[c][i]))
  }

  /** A removed folder is not the directory that holds its row. */
  lemma FolderBelow(v: Volume, w: Record, ref: Ref) returns (c: nat)
    requires Explains(v, w) && ref in w.chains && ref.dir < CLUSTER_COUNT && ref.row < ROW_COUNT
    requires IsFolder(RowOf(v, ref))
    ensures c in w.depth && c != ref.dir && c != ROOT_CLUSTER_NUMBER && w.chains[ref] == [c]
    ensures c == Start(RowOf(v, ref)) && c < CLUSTER_MAP_SIZE
  {
    assert RefOk(v, w, ref);
    c := w.chains[ref][0];
    assert c in w.chains[ref] && LevelOk(v, w, c);
  }

  lemma RemoveKeepsRow(v: Volume, w: Record, v': Volume, ref: Ref, r: Ref)
    requires Removes(v, w, v', ref)
    requires r.dir in Without(v, w, ref).depth && r.dir < CLUSTER_COUNT && r.row < ROW_COUNT && r != ref
    ensures RowOf(v', r) == RowOf(v, r)
  {
  }

  lemma ChainBeyondReserved(v: Volume, w: Record, ref: Ref)
    requires Explains(v, w) && ref in w.chains
    ensures 0 !in w.chains[ref] && 1 !in w.chains[ref] && 2 !in w.chains[ref]
  {
  }

  lemma RemoveKeepsDirs(v: Volume, w: Record, v': Volume, ref: Ref)
    requires Removes(v, w, v', ref)
    ensures CellsOk(v') && DirsOk(v', Without(v, w, ref))
  {
    var w' := Without(v, w, ref);
    ChainBeyondReserved(v, w, ref);
    OwnedRow(v, w, ref);
    hide RefsOk, RowsOk, OwnersOk, TreeOk, RefOk, TableOk;
    if IsFolder(RowOf(v, ref)) { var c := FolderBelow(v, w, ref); }
    RemoveKeepsRow(v, w, v', ref, Ref(ROOT_CLUSTER_NUMBER, 0));
    forall d | d in w'.depth
      ensures DirOk(v', d)
    {
      LiveDir(v, w, d);
      if d == ref.dir { ErasedTable(v.tabs[d], ref.row); }
    }
  }

  lemma ErasedTable(t: Table, i: nat)
    requires TableOk(t) && 1 <= i < ROW_COUNT
    ensures TableOk(t[i := Erased(t[i])])
  {
  }

  lemma RemoveKeepsRef(v: Volume, w: Record, v': Volume, ref: Ref, r: Ref)
    requires Removes(v, w, v', ref) && r in w.chains && r != ref
    ensures RefOk(v', Without(v, w, ref), r)
  {
    var w' := Without(v, w, ref);
    assert IsRef(v, w, r) && RefOk(v, w, r);
    var cs := w.chains[r];
    forall c | c in cs
      ensures c !in w.chains[ref]
    {
      if c in w.chains[ref] { ChainsDisjoint(v, w, ref, r, c); }
    }
    if IsFolder(RowOf(v, ref)) {
      var c := FolderBelow(v, w, ref);
      assert r.dir != c;
    }
    ChainFrame(v.fat, v'.fat, Start(RowOf(v, r)), cs);
    RemoveKeepsRow(v, w, v', ref, r);
    if IsFolder(RowOf(v, r)) {
      assert cs[0] in cs && IsRef(v, w, ref);
      RemoveKeepsRow(v, w, v', ref, Ref(cs[0], 0));
    }
  }

  lemma RemoveKeepsLevel(v: Volume, w: Record, v': Volume, ref: Ref, d: nat)
    requires Removes(v, w, v', ref)
    requires d in Without(v, w, ref).depth && d != ROOT_CLUSTER_NUMBER
    ensures LevelOk(v', Without(v, w, ref), d)
  {
    DirChain(v, w, d);
    assert LevelOk(v, w, d);
    var up := w.owner[d];
    assert IsRef(v, w, up) && IsRef(v, w, ref);
    assert up != ref;
    if IsFolder(RowOf(v, ref)) { var c := FolderBelow(v, w, ref); }
    RemoveKeepsRow(v, w, v', ref, up);
  }

  lemma RemoveRefs(v: Volume, w: Record, v': Volume, ref: Ref, r: Ref)
    requires Removes(v, w, v', ref)
    ensures r in Without(v, w, ref).chains <==> IsRef(v', Without(v, w, ref), r)
  {
    var w' := Without(v, w, ref);
    assert r in w.chains <==> IsRef(v, w, r);
    assert IsRef(v, w, ref);
    if IsFolder(RowOf(v, ref)) { var c := FolderBelow(v, w, ref); }
    if r != ref && r.dir in w'.depth && r.dir < CLUSTER_COUNT && r.row < ROW_COUNT {
      RemoveKeepsRow(v, w, v', ref, r);
    }
  }

  lemma OwnersWithout(v: Volume, w: Record, v': Volume, w': Record, ref: Ref)
    requires OwnersOk(v, w) && ref in w.chains && v'.fat == Clear(v.fat, w.chains[ref])
    requires w'.chains == w.chains - {ref} && w'.owner == w.owner - set c | c in w.chains[ref]
    ensures OwnersOk(v', w')
  {
  }

  lemma RemoveKeepsOwners(v: Volume, w: Record, v': Volume, ref: Ref)
    requires Removes(v, w, v', ref)
    ensures OwnersOk(v', Without(v, w, ref))
  {
    hide DirsOk, RefsOk, RowsOk, TreeOk, OwnersOk, Clear;
    OwnersWithout(v, w, v', Without(v, w, ref), ref);
  }

  /** Deleting a file, or a folder without live rows, keeps the volume consistent. */
  lemma RemoveEntry(v: Volume, w: Record, v': Volume, ref: Ref)
    requires Removes(v, w, v', ref)
    ensures Explains(v', Without(v, w, ref))
  {
    var w' := Without(v, w, ref);
    RemoveKeepsDirs(v, w, v', ref);
    RemoveKeepsOwners(v, w, v', ref);
    forall r: Ref
      ensures r in w'.chains <==> IsRef(v', w', r)
    {
      RemoveRefs(v, w, v', ref, r);
    }
    forall r | r in w'.chains
      ensures RefOk(v', w', r)
    {
      RemoveKeepsRef(v, w, v', ref, r);
    }
    forall d | d in w'.depth && d != ROOT_CLUSTER_NUMBER
      ensures LevelOk(v', w', d)
    {
      RemoveKeepsLevel(v, w, v', ref, d);
    }
  }
}
