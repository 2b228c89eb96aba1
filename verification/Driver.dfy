/** The driver with its in-memory FAT and directory buffer, loop by loop.  Every call leaves exactly
    the state, return code and buffer that the FileSystem operation describes. */
module Driver {
  import opened Words
  import opened Layout
  import opened Chains
  import opened FileSystem
  import opened BlockDevice

  class Fat32 {
    const disk: Image
    const fat: array<u32>
    const table: array<Row>
    /** Where the searches for free clusters stop: 0x800 in the shipped driver, 512 cells in the map. */
    const scanLimit: nat

    ghost predicate Valid() {
      && disk.Valid()
      && fat.Length == CLUSTER_MAP_SIZE && table.Length == ROW_COUNT
      && disk.bytes as object != fat && disk.bytes as object != table && fat as object != table
      && CLUSTER_MAP_SIZE <= scanLimit
    }

    ghost function Fat(): Fat
      requires Valid()
      reads fat
    {
      fat[..]
    }

    ghost function Table(): Table
      requires Valid()
      reads table
    {
      table[..]
    }

    ghost function St(): State
      requires Valid()
      reads disk.bytes, fat
    {
      State(disk.View(), fat[..])
    }

    /** Memory at boot: a zeroed driver state over some disk. */
    constructor (disk: Image, scanLimit: nat)
      requires disk.Valid() && CLUSTER_MAP_SIZE <= scanLimit
      ensures Valid() && this.disk == disk && this.scanLimit == scanLimit && fresh(fat) && fresh(table)
      ensures forall c :: 0 <= c < CLUSTER_MAP_SIZE ==> fat[c] == EMPTY_ENTRY
      ensures disk.View() == old(disk.View())
    {
      this.disk := disk;
      this.scanLimit := scanLimit;
      fat := new u32[CLUSTER_MAP_SIZE](_ => 0);
      table := new Row[ROW_COUNT](_ => EMPTY_ROW);
    }

    // ----- moving clusters between the disk and the buffers

    method ReadBytes(cluster: nat) returns (c: Cluster)
      requires Valid() && cluster < CLUSTER_COUNT
      ensures c == disk.View()[cluster]
    {
      var buf := new byte[CLUSTER_SIZE];
      disk.ReadCluster(buf, 0, cluster);
      c := buf[..];
    }

    method LoadTable(cluster: nat)
      requires Valid() && cluster < CLUSTER_COUNT
      modifies table
      ensures Table() == TableOf(disk.View()[cluster])
    {
      hide RowAt, TableOf;
      var c := ReadBytes(cluster);
      ghost var t := TableOf(c);
      for i := 0 to ROW_COUNT
        invariant forall j :: 0 <= j < i ==> table[j] == t[j]
      {
        TableRow(c, i);
        table[i] := RowAt(c, i);
      }
    }

    method StoreTable(cluster: nat)
      requires Valid() && cluster < CLUSTER_COUNT
      modifies disk.bytes
      ensures disk.View() == old(disk.View())[cluster := TableBytes(Table())]
      ensures Table() == old(Table()) && Fat() == old(Fat())
    {
      disk.WriteCluster(TableBytes(table[..]), cluster);
    }

    method LoadFat()
      requires Valid()
      modifies fat
      ensures Fat() == FatOf(disk.View()[FAT_CLUSTER_NUMBER])
    {
      var c := ReadBytes(FAT_CLUSTER_NUMBER);
      for i := 0 to CLUSTER_MAP_SIZE
        invariant forall j :: 0 <= j < i ==> fat[j] == DwordOf(c[4 * j..4 * j + 4])
      {
        fat[i] := DwordOf(c[4 * i..4 * i + 4]);
      }
    }

    method StoreFat()
      requires Valid()
      modifies disk.bytes
      ensures disk.View() == old(disk.View())[FAT_CLUSTER_NUMBER := FatBytes(Fat())]
      ensures Table() == old(Table()) && Fat() == old(Fat())
    {
      disk.WriteCluster(FatBytes(fat[..]), FAT_CLUSTER_NUMBER);
    }

    // ----- scanning the directory buffer

    /** The loop of a write over rows 0 to 62: a collision, or the last row without the flag. */
    method ScanForWrite(name: Name, ext: Ext) returns (clash: bool, row: nat)
      requires Valid()
      ensures clash == Clash(Table(), name, ext)
      ensures !clash ==> row == FreeRow(Table(), ROW_COUNT - 1)
    {
      row := 0;
      for i := 1 to ROW_COUNT
        invariant row == FreeRow(Table(), i - 1)
        invariant forall j :: 0 <= j < i - 1 ==> !Collides(Table()[j], name, ext)
      {
        var sameName := MemCompare(table[i - 1].name, name);
        if sameName == 0 {
          var sameExt := MemCompare(ext, table[i - 1].ext);
          if sameExt == 0 || (ext[0] == 0 && table[i - 1].ext[0] == 0) {
            assert Collides(Table()[i - 1], name, ext);
            return true, row;
          }
        }
        if table[i - 1].userAttribute != UATTR_NOT_EMPTY {
          row := i - 1;
        }
      }
      return false, row;
    }

    /** The loops of a read and a delete over rows 1 to 63: the first row with the key. */
    method ScanForKey(name: Name, ext: Ext, flagged: bool) returns (row: nat)
      requires Valid()
      ensures row == Find(Table(), 1, name, ext, flagged)
    {
      for i := 1 to ROW_COUNT
        invariant Find(Table(), 1, name, ext, flagged) == Find(Table(), i, name, ext, flagged)
      {
        var sameName := MemCompare(table[i].name, name);
        var sameExt := MemCompare(table[i].ext, ext);
        if sameName == 0 && sameExt == 0 && (!flagged || table[i].userAttribute == UATTR_NOT_EMPTY) {
          return i;
        }
      }
      return ROW_COUNT;
    }

    // ----- claiming clusters

    /** The scan for a folder's cluster; scanLimit when the map is full.  left: the scan has passed the end
        of the map, where the source goes on with whatever lies behind; here it stops. */
    method FindEmpty() returns (c: nat, left: bool)
      requires Valid()
      ensures left <==> scanLimit > CLUSTER_MAP_SIZE && FreeCells(Fat(), 0) == []
      ensures !left ==>
                if FreeCells(Fat(), 0) == [] then c == scanLimit else c < CLUSTER_MAP_SIZE && c == FreeCells(Fat(), 0)[0]
    {
      c := 0;
      while c < scanLimit
        invariant c <= CLUSTER_MAP_SIZE && FreeCells(Fat(), 0) == FreeCells(Fat(), c)
      {
        if c == CLUSTER_MAP_SIZE {
          return c, true;
        }
        if fat[c] == EMPTY_ENTRY {
          return c, false;
        }
        c := c + 1;
      }
      return c, false;
    }

    /** The two scans of a write for k clusters, with the undo loop when the map runs short.  Success
        links exactly the first k free clusters; failure leaves every cell as it was; the scan leaves the
        map exactly when clusters run short and its bound lies beyond. */
    method ClaimChain(k: nat) returns (ok: bool, start: nat, left: bool)
      requires Valid() && k > 0
      modifies fat
      ensures left <==> scanLimit > CLUSTER_MAP_SIZE && k > |old(FreeCells(Fat(), 0))|
      ensures !left ==> (ok <==> k <= |old(FreeCells(Fat(), 0))|)
      ensures !left && ok ==> start == old(FreeCells(Fat(), 0))[0] && InMap(old(FreeCells(Fat(), 0))[..k])
                              && Fat() == Link(old(Fat()), old(FreeCells(Fat(), 0))[..k])
      ensures !left && !ok ==> Fat() == old(Fat())
    {
      ghost var f, free := Fat(), FreeCells(Fat(), 0);
      start, left := FindEmpty();
      if left || start == scanLimit {
        return false, start, left;
      }
      hide Claimed, Link, FreeCells, Distinct;
      FreeCellsFrom(f, 0, start);
      var avail, prev, curr: nat;
      ghost var cs;
      avail, prev, curr, left, cs := ScanRest(f, start, k);
      if left {
        return false, start, true;
      }
      if avail != k {
        Undo(f, cs, curr, start);
        return false, start, false;
      }
      ClaimedBounds(f, Fat(), cs, curr);
      ClaimedIsLinked(f, Fat(), cs, curr);
      fat[prev] := END_OF_FILE;
      assert free[..k] == cs;
      return true, start, false;
    }

    /** The second scan: from the cell after the first claimed cluster on, each free cluster is linked to
        the one before, until there are k, or the scan stops at its bound or leaves the map. */
    method ScanRest(ghost f: Fat, first: nat, k: nat)
      returns (avail: nat, prev: nat, curr: nat, left: bool, ghost cs: seq<nat>)
      requires Valid() && Fat() == f && first < CLUSTER_MAP_SIZE && f[first] == EMPTY_ENTRY && k > 0
      modifies fat
      ensures left <==> scanLimit > CLUSTER_MAP_SIZE && k > |[first] + FreeCells(f, first + 1)|
      ensures avail == |cs| <= k && Claimed(f, Fat(), cs, curr) && cs[0] == first && prev == cs[avail - 1]
      ensures curr <= CLUSTER_MAP_SIZE && [first] + FreeCells(f, first + 1) == cs + FreeCells(f, curr)
      ensures avail < k ==> FreeCells(f, curr) == []
    {
      hide Claimed, FreeCells;
      ClaimedFirst(f, first);
      FreeCellsEnd(f);
      avail, prev, curr, left := 1, first, first + 1, false;
      cs := [first];
      ghost var free := [first] + FreeCells(f, first + 1);
      while curr < scanLimit && avail < k
        invariant avail == |cs| <= k && curr <= CLUSTER_MAP_SIZE && !left
        invariant free == cs + FreeCells(f, curr)
        invariant Claimed(f, Fat(), cs, curr) && cs[0] == first && prev == cs[avail - 1]
      {
        if curr == CLUSTER_MAP_SIZE {
          left := true;
          return;
        }
        ghost var g := Fat();
        ClaimedBounds(f, g, cs, curr);
        ClaimedWiden(f, g, cs, curr);
        FreeCellsStep(f, curr);
        if fat[curr] == EMPTY_ENTRY {
          ClaimedNext(f, g, cs, curr);
          fat[prev] := curr;
          prev := curr;
          avail := avail + 1;
          cs := cs + [curr];
        }
        curr := curr + 1;
      }
    }

    /** The undo loop: it follows the claimed clusters and empties them, up to the last one, which is
        still empty. */
    method Undo(ghost f: Fat, ghost cs: seq<nat>, ghost bound: nat, first: nat)
      requires Valid() && Claimed(f, Fat(), cs, bound) && cs[0] == first
      modifies fat
      ensures Fat() == f
    {
      var start := first;
      ghost var i, g := 0, Fat();
      ClaimedCell(f, g, cs, bound, i);
      while fat[start] != EMPTY_ENTRY
        invariant i < |cs| && start == cs[i] && InMap(cs)
        invariant g[start] == EMPTY_ENTRY <==> i == |cs| - 1
        invariant forall j :: 0 <= j < i ==> fat[cs[j]] == EMPTY_ENTRY
        invariant forall j :: i <= j < |cs| ==> fat[cs[j]] == g[cs[j]]
        invariant forall c :: 0 <= c < CLUSTER_MAP_SIZE && c !in cs ==> fat[c] == f[c]
        decreases |cs| - i
      {
        ClaimedCell(f, g, cs, bound, i);
        ClaimedCell(f, g, cs, bound, i + 1);
        var next := fat[start];
        fat[start] := EMPTY_ENTRY;
        start := next;
        i := i + 1;
      }
      forall c | 0 <= c < CLUSTER_MAP_SIZE
        ensures fat[c] == f[c]
      {
        if c in cs {
          var j :| 0 <= j < |cs| && cs[j] == c;
          assert f[cs[j]] == EMPTY_ENTRY;
        }
      }
    }

    // ----- walking chains

    /** The copying loop of a write: one cluster of the buffer into each cluster of the chain. */
    method Spill(first: nat, buf: seq<byte>, ghost cs: seq<nat>)
      requires Valid() && IsChain(Fat(), first, cs) && |buf| == CLUSTER_SIZE * |cs|
      modifies disk.bytes
      ensures disk.View() == Scatter(old(disk.View()), cs, buf)
      ensures Table() == old(Table()) && Fat() == old(Fat())
    {
      var start, i := first, 0;
      ghost var goal := Scatter(disk.View(), cs, buf);
      while fat[start] != END_OF_FILE
        invariant i < |cs| && start == cs[i] && Fat() == old(Fat()) && Table() == old(Table())
        invariant Scatter(disk.View(), cs[i..], buf[CLUSTER_SIZE * i..]) == goal
        decreases |cs| - i
      {
        InsideChain(Fat(), first, cs, i);
        ScatterStep(disk.View(), cs, buf, i);
        disk.WriteCluster(buf[CLUSTER_SIZE * i..CLUSTER_SIZE * i + CLUSTER_SIZE], start);
        start := fat[start];
        i := i + 1;
      }
      InsideChain(Fat(), first, cs, i);
      ScatterStep(disk.View(), cs, buf, i);
      disk.WriteCluster(buf[CLUSTER_SIZE * i..CLUSTER_SIZE * i + CLUSTER_SIZE], start);
      assert cs[i + 1..] == [] && buf[CLUSTER_SIZE * (i + 1)..] == [];
    }

    /** The copying loop of a read: the clusters up to the end of the chain, one after the other.  left: the
        walk has come to a number outside the map, or the next cluster does not fit into the buffer. */
    method Collect(first: nat, buf: array<byte>) returns (left: bool)
      requires Valid() && buf != disk.bytes && buf as object != fat && buf as object != table
      modifies buf
      ensures left <==> !(WalkEnds(Fat(), first) && CLUSTER_SIZE * |Walk(Fat(), first)| <= buf.Length)
      ensures !left ==> var cs := Walk(Fat(), first);
                buf[..] == Gather(disk.View(), cs) + old(buf[..])[CLUSTER_SIZE * |cs|..]
    {
      hide Patched, Gather, Clusters, HasChain;
      GatherNone(disk.View(), []);
      var cluster, cnt := first, 0;
      ghost var cs: seq<nat> := [];
      while cluster != END_OF_FILE
        invariant cnt == |cs| && CLUSTER_SIZE * cnt <= buf.Length
        invariant Fat() == old(Fat()) && disk.View() == old(disk.View())
        invariant Path(Fat(), first, cs, cluster)
        invariant buf[..] == Gather(disk.View(), cs) + old(buf[..])[CLUSTER_SIZE * cnt..]
        decreases buf.Length - CLUSTER_SIZE * cnt
      {
        if cluster >= CLUSTER_MAP_SIZE || buf.Length < CLUSTER_SIZE * (cnt + 1) {
          PathGoesOn(Fat(), first, cs, cluster);
          return true;
        }
        GatherStep(disk.View(), cs + [cluster], cnt);
        assert (cs + [cluster])[..cnt] == cs && (cs + [cluster])[..cnt + 1] == cs + [cluster];
        PatchAfter(Gather(disk.View(), cs), old(buf[..])[CLUSTER_SIZE * cnt..], disk.View()[cluster]);
        disk.ReadCluster(buf, CLUSTER_SIZE * cnt, cluster);
        assert old(buf[..])[CLUSTER_SIZE * cnt..][CLUSTER_SIZE..] == old(buf[..])[CLUSTER_SIZE * (cnt + 1)..];
        PathStep(Fat(), first, cs, cluster);
        cs := cs + [cluster];
        cnt := cnt + 1;
        cluster := fat[cluster];
      }
      PathEnds(Fat(), first, cs);
      return false;
    }

    /** The freeing loop of a delete: it empties each cell after reading where it leads.  left: the walk has
        come to a number outside the map, or goes round the empty cell 0 for ever. */
    method FreeChain(first: nat) returns (left: bool)
      requires Valid()
      modifies fat
      ensures old(HasChain(Fat(), first)) ==> !left && Fat() == Clear(old(Fat()), ChainFrom(old(Fat()), first))
      ensures old(Fat()[0] == CLUSTER_0_VALUE && !HasChain(Fat(), first)) ==> left
    {
      hide Trail, HasChain, Clear;
      var curr: nat, prev: nat := first, 0;
      ghost var f, cs: seq<nat> := Fat(), [];
      TrailStart(f, first);
      while curr < CLUSTER_MAP_SIZE && fat[curr] != END_OF_FILE
        invariant Trail(f, first, cs, curr, Fat())
        decreases |UsedCells(Fat())|, if curr == 0 then 0 else 1
      {
        if curr == 0 && fat[0] == EMPTY_ENTRY {
          TrailLeaves(f, first, cs, curr, Fat());
          return true;
        }
        UsedShrink(Fat(), curr);
        cs := TrailStep(f, first, cs, curr, Fat());
        prev := curr;
        curr := fat[curr];
        fat[prev] := EMPTY_ENTRY;
      }
      if curr >= CLUSTER_MAP_SIZE {
        TrailLeaves(f, first, cs, curr, Fat());
        return true;
      }
      TrailEnds(f, first, cs, curr, Fat());
      fat[curr] := EMPTY_ENTRY;
      return false;
    }

    // ----- the operations

    /** A read of a file, or of a directory's own table.  left: the call has reached past the map or the
        buffer; it stops there, with the disk as it was. */
    method Read(r: Request, buf: array<byte>) returns (code: int, left: bool)
      requires Valid() && r.parent < CLUSTER_COUNT
      requires buf != disk.bytes && buf as object != fat && buf as object != table
      modifies fat, table, buf
      ensures left <==> !old(ReadFits(St(), r, buf.Length))
      ensures !left ==> var y := old(FileSystem.Read(St(), r));
                St() == y.st && code == y.code && buf[..] == y.data + old(buf[..])[|y.data|..]
    {
      ghost var s := St();
      ReadCodes(s, r);
      hide FileSystem.Read, ReadFits, TableOf, FatOf, WalkEnds;
      LoadTable(r.parent);
      if table[0].userAttribute != UATTR_NOT_EMPTY {
        return -1, false;
      }
      LoadFat();
      var i := ScanForKey(r.name, r.ext, false);
      if i == ROW_COUNT {
        return 3, false;
      } else if table[i].attribute == 1 {
        return 1, false;
      } else if table[i].filesize > r.size {
        return 2, false;
      }
      left := Collect(Start(table[i]), buf);
      return 0, left;
    }

    /** A write of a file, or of a folder when the size is 0.  left: the call has reached past the arrays;
        it stops there, with nothing stored on the disk yet. */
    method Write(r: Request) returns (code: int, left: bool)
      requires Valid() && Fits(r)
      modifies fat, table, disk.bytes
      ensures left <==> old(LeavesMemory(St(), r, scanLimit))
      ensures !left ==> St() == old(FileSystem.Write(St(), r)).st && code == old(FileSystem.Write(St(), r)).code
      ensures left ==> disk.View() == old(disk.View())
    {
      hide FileSystem.Write;
      ghost var s := St();
      WriteCodes(s, r);
      LoadTable(r.parent);
      if !(table[0].userAttribute == UATTR_NOT_EMPTY && table[0].attribute == ATTR_SUBDIRECTORY) {
        return 2, false;
      }
      var clash, entryRow := ScanForWrite(r.name, r.ext);
      if clash {
        return 1, false;
      }
      LoadFat();
      if r.parent < ROW_COUNT {
        table[r.parent] := table[r.parent].(userAttribute := UATTR_NOT_EMPTY);
      } else if r.parent >= 2 * ROW_COUNT {
        return 0, true;
      }
      if r.size == 0 {
        code, left := WriteFolder(r, entryRow, s);
      } else {
        code, left := WriteFile(r, entryRow, s);
      }
    }

    method WriteFolder(r: Request, entryRow: nat, ghost s: State) returns (code: int, left: bool)
      requires Valid() && Fits(r) && r.size == 0 && PassesChecks(s, r)
      requires disk.View() == s.disk && Fat() == FatOf(s.disk[FAT_CLUSTER_NUMBER])
      requires Table() == FlagRow(TableOf(s.disk[r.parent]), r.parent)
      requires entryRow == FreeRow(TableOf(s.disk[r.parent]), ROW_COUNT - 1)
      modifies fat, table, disk.bytes
      ensures left <==> scanLimit > CLUSTER_MAP_SIZE && Needed(r) > |FreeCells(FatOf(s.disk[FAT_CLUSTER_NUMBER]), 0)|
      ensures !left ==> St() == FileSystem.Write(s, r).st && code == FileSystem.Write(s, r).code
      ensures left ==> disk.View() == s.disk
    {
      hide TableOf, TableBytes, FatBytes, FatOf, Clash;
      var c;
      c, left := FindEmpty();
      if left || c == scanLimit {
        return -1, left;
      }
      fat[c] := END_OF_FILE;
      StoreFat();
      table[entryRow] := Entry(r.name, r.ext, ATTR_SUBDIRECTORY, c, r.size);
      StoreTable(r.parent);
      LoadTable(c);
      table[0] := Entry(r.name, r.ext, ATTR_SUBDIRECTORY, r.parent, r.size);
      StoreTable(c);
      assert Claim(s, r) == [c];
      return 0, false;
    }

    method WriteFile(r: Request, entryRow: nat, ghost s: State) returns (code: int, left: bool)
      requires Valid() && Fits(r) && r.size > 0 && PassesChecks(s, r)
      requires disk.View() == s.disk && Fat() == FatOf(s.disk[FAT_CLUSTER_NUMBER])
      requires Table() == FlagRow(TableOf(s.disk[r.parent]), r.parent)
      requires entryRow == FreeRow(TableOf(s.disk[r.parent]), ROW_COUNT - 1)
      modifies fat, table, disk.bytes
      ensures left <==> scanLimit > CLUSTER_MAP_SIZE && Needed(r) > |FreeCells(FatOf(s.disk[FAT_CLUSTER_NUMBER]), 0)|
      ensures !left ==> St() == FileSystem.Write(s, r).st && code == FileSystem.Write(s, r).code
      ensures left ==> disk.View() == s.disk
    {
      hide TableOf, TableBytes, FatBytes, FatOf, Clash, FreeRow, Link, Scatter, FileSystem.Write, Claim;
      WriteStores(s, r);
      var count := r.size / CLUSTER_SIZE;
      if r.size % CLUSTER_SIZE != 0 {
        count := count + 1;
      }
      var ok, start;
      ok, start, left := ClaimChain(count);
      if left || !ok {
        return -1, left;
      }
      ghost var cs := Claim(s, r);
      LinkIsChain(FatOf(s.disk[FAT_CLUSTER_NUMBER]), cs);
      StoreFat();
      table[entryRow] := Entry(r.name, r.ext, 0, start, r.size);
      StoreTable(r.parent);
      Spill(start, r.buf, cs);
      return 0, false;
    }

    /** A delete of a file, or of a folder in which no row is flagged.  left: the call has reached past the
        map or the disk; it stops there.  A map whose cell 0 lacks its reserved value may hide this. */
    method Delete(r: Request) returns (code: int, left: bool)
      requires Valid() && r.parent < CLUSTER_COUNT
      modifies fat, table, disk.bytes
      ensures old(DeleteEnds(St(), r)) ==>
                !left && St() == old(FileSystem.Delete(St(), r)).st && code == old(FileSystem.Delete(St(), r)).code
      ensures old(Fat()[0] == CLUSTER_0_VALUE && !DeleteEnds(St(), r)) ==> left
    {
      ghost var s := St();
      DeleteCodes(s, r);
      hide FileSystem.Delete, HasChain, TableOf, TableBytes, FatBytes, DeleteEnds;
      LoadTable(r.parent);
      if !(table[0].userAttribute == UATTR_NOT_EMPTY && table[0].attribute == ATTR_SUBDIRECTORY) {
        return -1, false;
      }
      var i := ScanForKey(r.name, r.ext, true);
      if i == ROW_COUNT {
        return 1, false;
      }
      var cluster: u32 := Start(table[i]);
      if table[i].attribute != ATTR_SUBDIRECTORY {
        table[i] := Erased(table[i]);
        StoreTable(r.parent);
        left := FreeChain(cluster);
        if left {
          return 0, true;
        }
        StoreFat();
        return 0, false;
      }
      code, left := DeleteFolder(r, i, cluster, s);
    }

    method DeleteFolder(r: Request, i: nat, cluster: nat, ghost s: State) returns (code: int, left: bool)
      requires Valid() && r.parent < CLUSTER_COUNT
      requires St() == s && Table() == TableOf(s.disk[r.parent]) && IsDirectoryHead(table[0])
      requires i == FoundAt(s, r, true) < ROW_COUNT && IsFolder(table[i]) && cluster == Start(table[i])
      modifies fat, table, disk.bytes
      ensures left <==> !DeleteEnds(s, r)
      ensures !left ==> St() == FileSystem.Delete(s, r).st && code == FileSystem.Delete(s, r).code
    {
      hide TableOf, TableBytes, FatBytes;
      if cluster >= CLUSTER_COUNT {
        return 0, true;
      }
      var c := ReadBytes(cluster);
      var child := TableOf(c);
      var empty := true;
      for j := 1 to ROW_COUNT
        invariant empty <==> forall k :: 1 <= k < j ==> !Flagged(child[k])
      {
        if child[j].userAttribute == UATTR_NOT_EMPTY {
          empty := false;
        }
      }
      if !empty {
        return 2, false;
      }
      table[i] := Erased(table[i]);
      StoreTable(r.parent);
      disk.WriteCluster(TableBytes(child[0 := Erased(child[0])]), cluster);
      if cluster >= CLUSTER_MAP_SIZE {
        return 0, true;
      }
      fat[cluster] := EMPTY_ENTRY;
      StoreFat();
      return 0, false;
    }

    method CreateFat32()
      requires Valid()
      modifies fat, disk.bytes
      ensures St() == Format(old(St()))
    {
      disk.WriteBlocks(Signature(), 0, 1);
      BootBlock(old(disk.bytes[..]));
      fat[0] := CLUSTER_0_VALUE;
      fat[1] := CLUSTER_1_VALUE;
      fat[2] := END_OF_FILE;
      StoreFat();
      disk.WriteCluster(TableBytes(RootTable()), ROOT_CLUSTER_NUMBER);
    }

    /** Formats a disk without the signature; loads the FAT of one with it. */
    method Initialize()
      requires Valid()
      modifies fat, disk.bytes
      ensures St() == Mount(old(St()))
    {
      var temp := new byte[BLOCK_SIZE];
      disk.ReadBlocks(temp, 0, 0, 1);
      assert temp[..] == disk.View()[0][..BLOCK_SIZE];
      var same := MemCompare(temp[..], Signature());
      if same != 0 {
        CreateFat32();
      } else {
        LoadFat();
      }
    }
  }

  /** The return codes of a write that stores nothing. */
  lemma WriteCodes(s: State, r: Request)
    requires Fits(r)
    ensures var t := TableOf(s.disk[r.parent]);
      && (!IsDirectoryHead(t[0]) ==> FileSystem.Write(s, r) == Reply(s, 2, []))
      && (IsDirectoryHead(t[0]) && Clash(t, r.name, r.ext) ==> FileSystem.Write(s, r) == Reply(s, 1, []))
  {
    hide TableOf, Clash, FatOf, FreeCells, MakeFolder, StoreFile;
  }

  /** What a write of a file that passes the tests leaves. */
  lemma WriteStores(s: State, r: Request)
    requires Fits(r) && r.size > 0 && PassesChecks(s, r)
    ensures var f := FatOf(s.disk[FAT_CLUSTER_NUMBER]);
      if Needed(r) > |FreeCells(f, 0)| then FileSystem.Write(s, r) == Reply(s.(fat := f), -1, [])
      else |Claim(s, r)| == ClustersFor(r.size) > 0 && Claim(s, r) == FreeCells(f, 0)[..Needed(r)]
           && FileSystem.Write(s, r) == Reply(StoreFile(s, r, Claim(s, r)), 0, [])
  {
    hide TableOf, Clash, FatOf, StoreFile;
  }

  /** What a read does, branch by branch. */
  lemma ReadCodes(s: State, r: Request)
    requires r.parent < CLUSTER_COUNT
    ensures var t, f, i := TableOf(s.disk[r.parent]), FatOf(s.disk[FAT_CLUSTER_NUMBER]), FoundAt(s, r, false);
      if !Flagged(t[0]) then ReadEnds(s, r) && FileSystem.Read(s, r) == Reply(s, -1, [])
      else if i == ROW_COUNT then ReadEnds(s, r) && FileSystem.Read(s, r) == Reply(s.(fat := f), 3, [])
      else if t[i].attribute == 1 then ReadEnds(s, r) && FileSystem.Read(s, r) == Reply(s.(fat := f), 1, [])
      else if t[i].filesize > r.size then ReadEnds(s, r) && FileSystem.Read(s, r) == Reply(s.(fat := f), 2, [])
      else
        && (ReadEnds(s, r) <==> WalkEnds(f, Start(t[i])))
        && (ReadEnds(s, r) ==>
              FileSystem.Read(s, r) == Reply(s.(fat := f), 0, Gather(s.disk, Walk(f, Start(t[i])))))
    ensures forall n: nat :: ReadFits(s, r, n) <==> ReadEnds(s, r) && |FileSystem.Read(s, r).data| <= n
  {
    hide TableOf, FatOf, Find, HasChain;
  }

  /** What a delete does except on a folder. */
  lemma DeleteCodes(s: State, r: Request)
    requires r.parent < CLUSTER_COUNT
    ensures var t, i := TableOf(s.disk[r.parent]), FoundAt(s, r, true);
      && (!IsDirectoryHead(t[0]) ==> DeleteEnds(s, r) && FileSystem.Delete(s, r) == Reply(s, -1, []))
      && (IsDirectoryHead(t[0]) && i == ROW_COUNT ==> DeleteEnds(s, r) && FileSystem.Delete(s, r) == Reply(s, 1, []))
      && (IsDirectoryHead(t[0]) && i < ROW_COUNT && !IsFolder(t[i]) ==>
            (DeleteEnds(s, r) <==> HasChain(s.fat, Start(t[i])))
            && (DeleteEnds(s, r) ==>
                  FileSystem.Delete(s, r) == Reply(DropFile(s, r, i, ChainFrom(s.fat, Start(t[i]))), 0, [])))
  {
    hide TableOf, Find, HasChain, DropFile, DropFolder;
  }

  /** Storing the boot block changes the first block of cluster 0 only. */
  lemma BootBlock(image: seq<byte>)
    requires |image| == IMAGE_SIZE
    ensures var d := Clusters(image);
      Clusters(Patched(image, 0, Signature())) == d[0 := Signature() + d[0][BLOCK_SIZE..]]
  {
    var sig, d := Signature(), Clusters(image);
    var c: Cluster := sig + d[0][BLOCK_SIZE..];
    assert Patched(image, 0, sig) == Patched(image, CLUSTER_SIZE * 0, c);
    StoreCluster(image, 0, c);
  }

  /** g is f with all but the last of cs linked; the clusters of cs are free in f, increasing, below bound. */
  ghost predicate Claimed(f: Fat, g: Fat, cs: seq<nat>, bound: nat) {
    && bound <= CLUSTER_MAP_SIZE
    && 0 < |cs|
    && (forall j :: 0 <= j < |cs| ==> cs[j] < bound && f[cs[j]] == EMPTY_ENTRY)
    && (forall i, j :: 0 <= i < j < |cs| ==> cs[i] < cs[j])
    && (forall j :: 0 <= j < |cs| - 1 ==> g[cs[j]] == cs[j + 1])
    && g[cs[|cs| - 1]] == EMPTY_ENTRY
    && (forall c :: 0 <= c < CLUSTER_MAP_SIZE && c !in cs ==> g[c] == f[c])
  }

  lemma ClaimedCell(f: Fat, g: Fat, cs: seq<nat>, bound: nat, i: nat)
    requires Claimed(f, g, cs, bound) && i < |cs|
    ensures cs[i] < CLUSTER_MAP_SIZE && g[cs[i]] == if i < |cs| - 1 then cs[i + 1] else EMPTY_ENTRY as int
    ensures g[cs[i]] == EMPTY_ENTRY <==> i == |cs| - 1
  {
  }

  lemma {:induction false} FreeCellsFrom(f: Fat, i: nat, c: nat)
    requires i <= c < CLUSTER_MAP_SIZE && FreeCells(f, i) != [] && FreeCells(f, i)[0] == c
    ensures f[c] == EMPTY_ENTRY && FreeCells(f, i) == [c] + FreeCells(f, c + 1)
    decreases CLUSTER_MAP_SIZE - i
  {
    if f[i] != EMPTY_ENTRY { FreeCellsFrom(f, i + 1, c); }
  }

  lemma FreeCellsStep(f: Fat, i: nat)
    requires i < CLUSTER_MAP_SIZE
    ensures FreeCells(f, i) == (if f[i] == EMPTY_ENTRY then [i] else []) + FreeCells(f, i + 1)
  {
  }

  lemma FreeCellsEnd(f: Fat)
    ensures FreeCells(f, CLUSTER_MAP_SIZE) == []
  {
  }

  lemma TableRow(c: Cluster, i: nat)
    requires i < ROW_COUNT
    ensures TableOf(c)[i] == RowAt(c, i)
  {
  }

  /** Beyond the bound nothing is claimed yet, and the last claimed cell is in the map. */
  lemma ClaimedBounds(f: Fat, g: Fat, cs: seq<nat>, bound: nat)
    requires Claimed(f, g, cs, bound)
    ensures bound <= CLUSTER_MAP_SIZE && cs[|cs| - 1] < CLUSTER_MAP_SIZE
    ensures forall c :: bound <= c < CLUSTER_MAP_SIZE ==> g[c] == f[c]
  {
  }

  lemma ClaimedWiden(f: Fat, g: Fat, cs: seq<nat>, bound: nat)
    requires Claimed(f, g, cs, bound) && bound < CLUSTER_MAP_SIZE
    ensures Claimed(f, g, cs, bound + 1)
  {
  }

  lemma ClaimedFirst(f: Fat, c: nat)
    requires c < CLUSTER_MAP_SIZE && f[c] == EMPTY_ENTRY
    ensures Claimed(f, f, [c], c + 1)
  {
  }

  lemma ClaimedNext(f: Fat, g: Fat, cs: seq<nat>, c: nat)
    requires Claimed(f, g, cs, c) && c < CLUSTER_MAP_SIZE && f[c] == EMPTY_ENTRY
    ensures Claimed(f, g[cs[|cs| - 1] := c], cs + [c], c + 1)
  {
    var h, ds := g[cs[|cs| - 1] := c], cs + [c];
    assert c !in cs;
    forall j | 0 <= j < |ds| - 1
      ensures h[ds[j]] == ds[j + 1]
    {
      if j < |cs| - 1 { assert g[cs[j]] == cs[j + 1] && cs[j] < cs[|cs| - 1]; }
    }
  }

  lemma ClaimedIsLinked(f: Fat, g: Fat, cs: seq<nat>, bound: nat)
    requires Claimed(f, g, cs, bound)
    ensures InMap(cs) && g[cs[|cs| - 1] := END_OF_FILE] == Link(f, cs)
  {
    var h := g[cs[|cs| - 1] := END_OF_FILE];
    forall j | 0 <= j < |cs| - 1
      ensures h[cs[j]] == cs[j + 1]
    {
      assert g[cs[j]] == cs[j + 1] && cs[j] < cs[|cs| - 1];
    }
    LinkPointwise(f, cs, h);
  }

  // ----- walks that may or may not end

  /** Following f from first visits cs and comes to next. */
  ghost predicate Path(f: Fat, first: int, cs: seq<nat>, next: int) {
    && InMap(cs)
    && (cs == [] ==> next == first)
    && (cs != [] ==> cs[0] == first && first != END_OF_FILE && f[cs[|cs| - 1]] == next)
    && (forall j :: 0 <= j < |cs| - 1 ==> f[cs[j]] == cs[j + 1])
  }

  lemma PathStep(f: Fat, first: int, cs: seq<nat>, next: nat)
    requires Path(f, first, cs, next) && next < CLUSTER_MAP_SIZE
    ensures Path(f, first, cs + [next], f[next])
  {
    var ds := cs + [next];
    forall j | 0 <= j < |ds| - 1
      ensures f[ds[j]] == ds[j + 1]
    {
      if j < |cs| - 1 { assert f[cs[j]] == cs[j + 1]; }
    }
  }

  /** A path is the beginning of the chain, if there is one. */
  lemma {:induction false} PathPrefix(f: Fat, first: int, cs: seq<nat>, next: int, chain: seq<nat>)
    requires Path(f, first, cs, next) && IsChain(f, first, chain)
    ensures |cs| <= |chain| && next == if |cs| < |chain| then chain[|cs|] else END_OF_FILE as int
    decreases |cs|
  {
    if cs != [] {
      var init, last := cs[..|cs| - 1], cs[|cs| - 1];
      assert init != [] ==> f[init[|init| - 1]] == cs[|init|];
      PathPrefix(f, first, init, last, chain);
      assert |init| < |chain| - 1 ==> f[chain[|init|]] == chain[|init| + 1];
    }
  }

  /** A path that has not come to the end has not yet visited all of the walk; outside the map it never ends. */
  lemma PathGoesOn(f: Fat, first: int, cs: seq<nat>, next: int)
    requires Path(f, first, cs, next) && next != END_OF_FILE
    ensures WalkEnds(f, first) ==> |cs| < |Walk(f, first)| && 0 <= next < CLUSTER_MAP_SIZE
  {
    if first != END_OF_FILE && HasChain(f, first) {
      PathPrefix(f, first, cs, next, ChainFrom(f, first));
    }
  }

  lemma PathEnds(f: Fat, first: int, cs: seq<nat>)
    requires Path(f, first, cs, END_OF_FILE)
    ensures WalkEnds(f, first) && Walk(f, first) == cs
  {
    if cs != [] { ChainOf(f, first, cs); }
  }

  /** g is what the freeing loop has left of f when it comes to next: either it has cleared a path of
      distinct cells, or there is no chain, and cell 0 sends it out of the map. */
  ghost predicate Trail(f: Fat, first: int, cs: seq<nat>, next: int, g: Fat) {
    || (Path(f, first, cs, next) && Distinct(cs) && g == Clear(f, cs) && (cs != [] ==> next != END_OF_FILE))
    || (!HasChain(f, first)
        && (f[0] == CLUSTER_0_VALUE ==>
              next >= CLUSTER_MAP_SIZE || (next == 0 && g[0] == CLUSTER_0_VALUE)))
  }

  lemma TrailStart(f: Fat, first: int)
    ensures Trail(f, first, [], first, f)
  {
    assert Clear(f, []) == f;
  }

  /** A path that meets one of its own cells never ends. */
  lemma PathCycle(f: Fat, first: int, cs: seq<nat>, next: nat)
    requires Path(f, first, cs, next) && next in cs
    ensures !HasChain(f, first)
  {
    if HasChain(f, first) {
      var chain := ChainFrom(f, first);
      ChainDistinct(f, first, chain);
      PathPrefix(f, first, cs, next, chain);
      var j :| 0 <= j < |cs| && cs[j] == next;
      PathPart(f, first, cs, next, j);
      PathPrefix(f, first, cs[..j], cs[j], chain);
    }
  }

  lemma PathPart(f: Fat, first: int, cs: seq<nat>, next: int, j: nat)
    requires Path(f, first, cs, next) && j < |cs|
    ensures Path(f, first, cs[..j], cs[j])
  {
    if j > 0 { assert f[cs[j - 1]] == cs[j - 1 + 1]; }
  }

  lemma PathAvoidsZero(f: Fat, first: int, cs: seq<nat>, next: nat)
    requires Path(f, first, cs, next) && next < CLUSTER_MAP_SIZE && f[0] == CLUSTER_0_VALUE
    ensures 0 !in cs
  {
    forall j | 0 <= j < |cs|
      ensures cs[j] != 0
    {
      assert f[cs[j]] == if j < |cs| - 1 then cs[j + 1] else next;
    }
  }

  lemma TrailStep(f: Fat, first: int, cs: seq<nat>, next: nat, g: Fat) returns (ds: seq<nat>)
    requires Trail(f, first, cs, next, g) && next < CLUSTER_MAP_SIZE && g[next] != END_OF_FILE
    ensures Trail(f, first, ds, g[next], g[next := EMPTY_ENTRY])
  {
    ds := cs;
    if Path(f, first, cs, next) && Distinct(cs) && g == Clear(f, cs) {
      if next in cs {
        PathCycle(f, first, cs, next);
        if f[0] == CLUSTER_0_VALUE { PathAvoidsZero(f, first, cs, next); }
      } else {
        ds := cs + [next];
        PathStep(f, first, cs, next);
        assert g[next := EMPTY_ENTRY] == Clear(f, ds);
      }
    }
  }

  lemma TrailLeaves(f: Fat, first: int, cs: seq<nat>, next: nat, g: Fat)
    requires Trail(f, first, cs, next, g)
    requires next >= CLUSTER_MAP_SIZE || (next == 0 && g[0] == EMPTY_ENTRY)
    ensures !HasChain(f, first)
  {
    if Path(f, first, cs, next) && Distinct(cs) && g == Clear(f, cs) && HasChain(f, first) {
      if next == 0 && 0 in cs { PathCycle(f, first, cs, next); }
      var chain := ChainFrom(f, first);
      ChainDistinct(f, first, chain);
      PathPrefix(f, first, cs, next, chain);
      if next == 0 {
        PathStep(f, first, cs, next);
        PathPrefix(f, first, cs + [next], f[next], chain);
      }
    }
  }

  lemma TrailEnds(f: Fat, first: int, cs: seq<nat>, next: nat, g: Fat)
    requires Trail(f, first, cs, next, g) && next < CLUSTER_MAP_SIZE && g[next] == END_OF_FILE
    ensures HasChain(f, first) ==> g[next := EMPTY_ENTRY] == Clear(f, ChainFrom(f, first))
    ensures f[0] == CLUSTER_0_VALUE ==> HasChain(f, first)
  {
    if Path(f, first, cs, next) && Distinct(cs) && g == Clear(f, cs) {
      var ds := cs + [next];
      PathStep(f, first, cs, next);
      ChainOf(f, first, ds);
      assert g[next := EMPTY_ENTRY] == Clear(f, ds);
    }
  }

  ghost function UsedCells(f: Fat): set<nat> {
    set c: nat | c < CLUSTER_MAP_SIZE && f[c] != EMPTY_ENTRY
  }

  /** Emptying a cell leaves fewer cells in use, unless it was empty. */
  lemma UsedShrink(f: Fat, c: nat)
    requires c < CLUSTER_MAP_SIZE
    ensures if f[c] == EMPTY_ENTRY then UsedCells(f[c := EMPTY_ENTRY]) == UsedCells(f)
            else |UsedCells(f[c := EMPTY_ENTRY])| < |UsedCells(f)|
  {
    var a, b := UsedCells(f), UsedCells(f[c := EMPTY_ENTRY]);
    if f[c] != EMPTY_ENTRY {
      assert a == b + {c} && c !in b;
    } else {
      assert a == b;
    }
  }

  /** Where cell i of a chain leads. */
  lemma InsideChain(f: Fat, first: nat, cs: seq<nat>, i: nat)
    requires IsChain(f, first, cs) && i < |cs|
    ensures f[cs[i]] == if i + 1 < |cs| then cs[i + 1] else END_OF_FILE as int
    ensures f[cs[i]] == END_OF_FILE <==> i + 1 == |cs|
  {
  }

  lemma ScatterStep(disk: Disk, cs: seq<nat>, buf: seq<byte>, i: nat)
    requires InMap(cs) && i < |cs| && |buf| == CLUSTER_SIZE * |cs|
    ensures Scatter(disk, cs[i..], buf[CLUSTER_SIZE * i..]) ==
            Scatter(disk[cs[i] := buf[CLUSTER_SIZE * i..CLUSTER_SIZE * i + CLUSTER_SIZE]],
                    cs[i + 1..], buf[CLUSTER_SIZE * (i + 1)..])
  {
    var ds, rest := cs[i..], buf[CLUSTER_SIZE * i..];
    assert ds[1..] == cs[i + 1..] && rest[CLUSTER_SIZE..] == buf[CLUSTER_SIZE * (i + 1)..];
    assert rest[..CLUSTER_SIZE] == buf[CLUSTER_SIZE * i..CLUSTER_SIZE * i + CLUSTER_SIZE];
  }

  lemma {:induction false} GatherAppend(disk: Disk, a: seq<nat>, b: seq<nat>)
    requires InMap(a) && InMap(b)
    ensures InMap(a + b) && Gather(disk, a + b) == Gather(disk, a) + Gather(disk, b)
    decreases |a|
  {
    if a == [] {
      assert a + b == b;
    } else {
      GatherAppend(disk, a[1..], b);
      assert (a + b)[1..] == a[1..] + b;
    }
  }

  lemma GatherNone(disk: Disk, cs: seq<nat>)
    requires cs == []
    ensures Gather(disk, cs) == []
  {
  }

  lemma PatchAfter(prefix: seq<byte>, rest: seq<byte>, src: seq<byte>)
    requires |src| <= |rest|
    ensures Patched(prefix + rest, |prefix|, src) == prefix + src + rest[|src|..]
  {
  }

  lemma GatherStep(disk: Disk, cs: seq<nat>, i: nat)
    requires InMap(cs) && i < |cs|
    ensures Gather(disk, cs[..i + 1]) == Gather(disk, cs[..i]) + disk[cs[i]]
  {
    GatherAppend(disk, cs[..i], [cs[i]]);
    assert cs[..i + 1] == cs[..i] + [cs[i]];
    assert Gather(disk, [cs[i]]) == disk[cs[i]];
  }
}
