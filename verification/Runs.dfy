/** Whole runs: every state reached is consistent, every call is an abstract step, and a read returns
    what the history of successful writes and deletes says. */
module Runs {
  import opened Words
  import opened Layout
  import opened Chains
  import opened FileSystem
  import opened Ownership
  import opened Soundness
  import opened SafeWrites
  import opened Abstraction
  import opened WriteRefinement
  import opened DeleteRefinement
  import opened Vfs

  ghost predicate ReadAsked(s: State, r: Request)
    requires Sound(s)
  {
    r.parent < CLUSTER_COUNT && r.name != NO_NAME
    && (r.parent in Dirs(s) || !Flagged(TableOf(s.disk[r.parent])[0]))
  }

  /** Every read a caller may ask for returns what the abstract tree holds, and changes nothing; the read
      of a folder returns its table. */
  lemma ReadRefines(s: State, r: Request)
    requires Sound(s) && ReadAsked(s, r)
    ensures ReadEnds(s, r) && Read(s, r).st == s
    ensures ReadStep(TreeOf(s), r, Read(s, r).code, Read(s, r).data)
    ensures KeyOf(r) in TreeOf(s).items && TreeOf(s).items[KeyOf(r)].Folder? ==>
              var c := TreeOf(s).items[KeyOf(r)].cluster; c < CLUSTER_COUNT && Read(s, r).data == s.disk[c]
  {
    hide Explains, TableOf;
    var w, k := RecordOf(s), KeyOf(r);
    if r.parent in w.depth {
      ReadTerminates(s, w, r);
      DirTable(s, w, r.parent);
      FoundIffPresent(s, w, r);
      if Present(s, w, k) {
        PresentRef(s, w, k);
        var ref := Ref(k.dir, RowFor(TableOf(s.disk[k.dir]), k));
        ChainOf(s.fat, Start(RowOf(VolumeOf(s), ref)), w.chains[ref]);
        assert TreeOf(s).items[k] == ItemAt(s, w, k);
        if IsFolder(RowOf(VolumeOf(s), ref)) { assert w.chains[ref] == [Start(RowOf(VolumeOf(s), ref)) as nat]; }
      }
    }
  }

  /** A read that the abstract file system describes: of a named key, or of one no row has, in a live
      directory; or with a parent whose row 0 is not flagged. */
  ghost predicate ReadNamed(s: State, r: Request)
    requires Sound(s) && r.parent < CLUSTER_COUNT
  {
    if r.parent in Dirs(s) then r.name != NO_NAME || FoundAt(s, r, false) == ROW_COUNT
    else !Flagged(TableOf(s.disk[r.parent])[0])
  }

  /** Exactly these are abstract reads; any other read that stays inside the map is none. */
  lemma ReadRefinesIff(s: State, r: Request)
    requires Sound(s) && r.parent < CLUSTER_COUNT && ReadStartsInUse(s, r)
    ensures ReadEnds(s, r) && Read(s, r).st == s
    ensures ReadStep(TreeOf(s), r, Read(s, r).code, Read(s, r).data) <==> ReadNamed(s, r)
  {
    ReadEndsIff(s, r);
    assert s.fat == FatOf(s.disk[FAT_CLUSTER_NUMBER]) by { assert Consistent(s, RecordOf(s)); }
    hide Explains, TableOf, ReadStartsInUse, Find;
    if ReadAsked(s, r) {
      ReadRefines(s, r);
    } else {
      NulKeyAbsent(s, r);
      if r.parent in Dirs(s) { ParentIsHead(s, RecordOf(s), r); }
    }
  }

  /** A read copies whole clusters: exactly when these fit into the size the caller names. */
  lemma ReadFitsIff(s: State, r: Request)
    requires Sound(s) && ReadAsked(s, r) && ReadEnds(s, r) && Read(s, r).code == 0
    ensures KeyOf(r) in TreeOf(s).items
    ensures |Read(s, r).data| <= r.size <==>
            match TreeOf(s).items[KeyOf(r)]
            case Folder(_) => CLUSTER_SIZE <= r.size
            case File(size, _) => CLUSTER_SIZE * ClustersFor(size) <= r.size
    ensures r.size % CLUSTER_SIZE == 0 && TreeOf(s).items[KeyOf(r)].File? ==> |Read(s, r).data| <= r.size
  {
    hide Explains, Read, ReadEnds, TreeOf, ClustersFor, Dirs;
    ReadRefines(s, r);
    ReadSucceeds(TreeOf(s), r, Read(s, r).data);
    FileLength(s, KeyOf(r));
    match TreeOf(s).items[KeyOf(r)]
    case Folder(_) =>
    case File(size, _) => if r.size % CLUSTER_SIZE == 0 { RoundedUp(size, r.size); }
  }

  lemma ReadSucceeds(a: Tree, r: Request, data: seq<byte>)
    requires ReadStep(a, r, 0, data)
    ensures KeyOf(r) in a.items
    ensures match a.items[KeyOf(r)]
      case Folder(_) => |data| == CLUSTER_SIZE
      case File(size, bytes) => size <= r.size && data == bytes
  {
  }

  lemma RoundedUp(size: u32, n: u32)
    requires size <= n && n % CLUSTER_SIZE == 0
    ensures CLUSTER_SIZE * ClustersFor(size) <= n
  {
    var m := n / 2048;
    assert n == 2048 * m;
    assert size == 2048 * (size / 2048) + size % 2048;
  }

  /** An item's data fill exactly the clusters its size needs. */
  lemma FileLength(s: State, k: Key)
    requires Sound(s) && k in TreeOf(s).items
    ensures match TreeOf(s).items[k]
      case Folder(_) => true
      case File(size, data) => |data| == CLUSTER_SIZE * ClustersFor(size)
  {
    hide Explains;
    var w := RecordOf(s);
    PresentRef(s, w, k);
    var ref := Ref(k.dir, RowFor(TableOf(s.disk[k.dir]), k));
    ItemFromChain(s, w, ref, RowOf(VolumeOf(s), ref));
  }

  // ----- one step

  ghost predicate Asked(s: State, op: Op)
    requires Sound(s)
  {
    match op
    case WriteOp(r) => WriteAsked(s, r)
    case ReadOp(r) => ReadAsked(s, r)
    case DeleteOp(r) => DeleteAsked(s, r)
  }

  ghost function Call(s: State, op: Op): (y: Reply)
    requires Sound(s) && Asked(s, op)
    ensures Sound(y.st) && Step(TreeOf(s), op, y.code, y.data, TreeOf(y.st))
  {
    match op
    case WriteOp(r) => WriteRefines(s, r); Write(s, r)
    case ReadOp(r) => ReadRefines(s, r); Read(s, r)
    case DeleteOp(r) => DeleteRefines(s, r); Delete(s, r)
  }

  // ----- runs

  /** states[i + 1] and codes[i] are what call i leaves and returns, asked for in states[i]. */
  ghost predicate IsRun(states: seq<State>, ops: seq<Op>, codes: seq<int>) {
    && |states| == |ops| + 1 && |codes| == |ops|
    && Sound(states[0])
    && forall i :: 0 <= i < |ops| ==> (Sound(states[i]) ==>
         Asked(states[i], ops[i])
         && Call(states[i], ops[i]).st == states[i + 1] && Call(states[i], ops[i]).code == codes[i])
  }

  /** Every state of a run is consistent. */
  lemma {:induction false} RunIsSound(states: seq<State>, ops: seq<Op>, codes: seq<int>, n: nat)
    requires IsRun(states, ops, codes) && n < |states|
    ensures Sound(states[n])
  {
    hide Sound;
    if n > 0 { RunIsSound(states, ops, codes, n - 1); }
  }

  /** Every call of a run is a step of the abstract tree. */
  lemma RunRefines(states: seq<State>, ops: seq<Op>, codes: seq<int>, n: nat)
    requires IsRun(states, ops, codes) && n < |ops|
    ensures Sound(states[n]) && Sound(states[n + 1]) && Asked(states[n], ops[n])
    ensures Step(TreeOf(states[n]), ops[n], codes[n], Call(states[n], ops[n]).data, TreeOf(states[n + 1]))
  {
    hide Sound, Step;
    RunIsSound(states, ops, codes, n);
    RunIsSound(states, ops, codes, n + 1);
  }

  /** In a run from an empty disk the tree holds exactly what the history says. */
  lemma {:induction false} RunTracks(states: seq<State>, ops: seq<Op>, codes: seq<int>, n: nat)
    requires IsRun(states, ops, codes) && n < |states|
    requires TreeOf(states[0]).items == imap[]
    ensures Sound(states[n]) && Tracks(TreeOf(states[n]), ops[..n], codes[..n])
  {
    hide Sound, TreeOf, Step, Tracks, Asked, LastWrite, Call;
    RunIsSound(states, ops, codes, n);
    if n > 0 {
      RunTracks(states, ops, codes, n - 1);
      RunRefines(states, ops, codes, n - 1);
      var y := Call(states[n - 1], ops[n - 1]);
      StepTracks(TreeOf(states[n - 1]), ops[..n - 1], codes[..n - 1], ops[n - 1], y.code, y.data, TreeOf(states[n]));
      assert ops[..n] == ops[..n - 1] + [ops[n - 1]] && codes[..n] == codes[..n - 1] + [codes[n - 1]];
    } else {
      EmptyTracks(TreeOf(states[0]));
      assert ops[..0] == [] && codes[..0] == [];
    }
  }

  /** A freshly formatted disk is consistent and its tree is an empty root. */
  lemma FormatIsEmpty(s: State)
    requires forall c :: 3 <= c < CLUSTER_MAP_SIZE ==> s.fat[c] == EMPTY_ENTRY
    ensures Sound(Format(s)) && Dirs(Format(s)) == {ROOT_CLUSTER_NUMBER}
    ensures TreeOf(Format(s)).items == imap[] && TreeOf(Format(s)).stained == {}
  {
    hide Explains;
    FormatSoundIff(s);
    FormatDisk(s);
    OnlyRootAfterFormat(Format(s), RecordOf(Format(s)));
  }

  /** A mounted disk always has the signature.  A disk that had it keeps every byte and its FAT is loaded; one
      that had not is formatted. */
  lemma MountFormats(s: State)
    ensures !EmptyStorage(Mount(s))
    ensures Mount(s).fat == FatOf(Mount(s).disk[FAT_CLUSTER_NUMBER])
    ensures !EmptyStorage(s) ==> Mount(s).disk == s.disk
    ensures EmptyStorage(s) ==>
              && TableOf(Mount(s).disk[ROOT_CLUSTER_NUMBER]) == RootTable()
              && Mount(s).fat[0] == 0x0FFF_FFF0 && Mount(s).fat[1] == 0x0FFF_FFFF && Mount(s).fat[2] == 0x0FFF_FFFF
              && Mount(s).disk[0][BLOCK_SIZE..] == s.disk[0][BLOCK_SIZE..]
              && forall c :: 3 <= c < CLUSTER_COUNT ==> Mount(s).disk[c] == s.disk[c]
  {
    hide TableOf, TableBytes, FatOf, FatBytes, RootTable;
    if EmptyStorage(s) { FormatDisk(s); }
  }

  /** The name of a formatted root: "root" and four NULs. */
  lemma RootHeading(s: State)
    requires forall c :: 3 <= c < CLUSTER_MAP_SIZE ==> s.fat[c] == EMPTY_ENTRY
    ensures Sound(Format(s))
    ensures TreeOf(Format(s)).heads == map[2 := Heading([0x72, 0x6F, 0x6F, 0x74, 0, 0, 0, 0], [0, 0, 0])]
    ensures TreeOf(Format(s)).free == 509
  {
    hide Explains, TableOf, RootTable, Format, FreeCells;
    FormatIsEmpty(s);
    FormatDisk(s);
    HeadsAreDirs(Format(s));
    var w := RecordOf(Format(s));
    assert w.depth.Keys == {ROOT_CLUSTER_NUMBER};
    assert HeadOf(Format(s), ROOT_CLUSTER_NUMBER) == Heading(RootTable()[0].name, RootTable()[0].ext);
    FormattedFree(Format(s).fat);
  }

  lemma FormattedFree(f: Fat)
    requires f[0] != EMPTY_ENTRY && f[1] != EMPTY_ENTRY && f[2] != EMPTY_ENTRY
    requires forall c :: 3 <= c < CLUSTER_MAP_SIZE ==> f[c] == EMPTY_ENTRY
    ensures |FreeCells(f, 0)| == 509
  {
    AllFree(f, 3);
    assert FreeCells(f, 0) == FreeCells(f, 1);
    assert FreeCells(f, 1) == FreeCells(f, 2);
    assert FreeCells(f, 2) == FreeCells(f, 3);
  }

  lemma {:induction false} AllFree(f: Fat, i: nat)
    requires i <= CLUSTER_MAP_SIZE && forall c :: i <= c < CLUSTER_MAP_SIZE ==> f[c] == EMPTY_ENTRY
    ensures |FreeCells(f, i)| == CLUSTER_MAP_SIZE - i
    decreases CLUSTER_MAP_SIZE - i
  {
    if i < CLUSTER_MAP_SIZE { AllFree(f, i + 1); }
  }

  /** The first boot: mounting a disk without the signature, with a zeroed cache, gives an empty root. */
  lemma FirstMount(s: State)
    requires EmptyStorage(s) && forall c :: 3 <= c < CLUSTER_MAP_SIZE ==> s.fat[c] == EMPTY_ENTRY
    ensures Sound(Mount(s)) && Dirs(Mount(s)) == {ROOT_CLUSTER_NUMBER}
    ensures TreeOf(Mount(s)).items == imap[] && TreeOf(Mount(s)).stained == {} && TreeOf(Mount(s)).free == 509
    ensures TreeOf(Mount(s)).heads == map[2 := Heading([0x72, 0x6F, 0x6F, 0x74, 0, 0, 0, 0], [0, 0, 0])]
  {
    hide Explains, TreeOf, Format;
    FormatIsEmpty(s);
    RootHeading(s);
  }

  lemma OnlyRootAfterFormat(s': State, w: Record)
    requires Consistent(s', w) && TableOf(s'.disk[ROOT_CLUSTER_NUMBER]) == RootTable()
    ensures w.depth.Keys == {ROOT_CLUSTER_NUMBER} && TreeWith(s', w).items == imap[] && TreeWith(s', w).stained == {}
  {
    hide Explains;
    forall d | d in w.depth
      ensures d == ROOT_CLUSTER_NUMBER
    {
      assert VolumeOf(s').tabs[ROOT_CLUSTER_NUMBER] == TableOf(s'.disk[ROOT_CLUSTER_NUMBER]);
      OnlyRoot(VolumeOf(s'), w, d);
    }
    RootIsLive(VolumeOf(s'), w);
    assert w.depth.Keys == {ROOT_CLUSTER_NUMBER};
    assert forall k: Key :: !Present(s', w, k);
    assert !Stained(RootTable());
  }

  lemma RootIsLive(v: Volume, w: Record)
    requires Explains(v, w)
    ensures ROOT_CLUSTER_NUMBER in w.depth
  {
  }

  /** The main result on reads: after any run from a formatted disk, reading a key in a live directory
      returns 3 when the history holds no undeleted write of it, 2 when the buffer is smaller than the
      file, and otherwise 0 with exactly the bytes of the last write. */
  lemma ReadReturnsLastWrite(blank: State, states: seq<State>, ops: seq<Op>, codes: seq<int>, r: Request)
    requires forall c :: 3 <= c < CLUSTER_MAP_SIZE ==> blank.fat[c] == EMPTY_ENTRY
    requires IsRun(states, ops, codes) && states[0] == Format(blank)
    requires Sound(states[|ops|]) ==> r.parent in Dirs(states[|ops|])
    requires r.parent < CLUSTER_COUNT && r.name != NO_NAME
    ensures ReadEnds(states[|ops|], r)
    ensures var y := Read(states[|ops|], r);
      match LastWrite(ops, codes, KeyOf(r))
      case None => y.code == 3
      case Some(was) =>
        if was.size == 0 then y.code == 0
        else if was.size > r.size then y.code == 2
        else y.code == 0 && y.data == was.buf
  {
    hide Explains, Read, TreeOf;
    FormatIsEmpty(blank);
    var n := |ops|;
    RunTracks(states, ops, codes, n);
    assert ops[..n] == ops && codes[..n] == codes;
    ReadRefines(states[n], r);
    var a := TreeOf(states[n]);
    HeadsAreDirs(states[n]);
    assert KeyOf(r) in a.items <==> LastWrite(ops, codes, KeyOf(r)).Some?;
  }

  /** The same from the first mount of any disk without the signature. */
  lemma ReadAfterFirstMount(blank: State, states: seq<State>, ops: seq<Op>, codes: seq<int>, r: Request)
    requires EmptyStorage(blank) && forall c :: 3 <= c < CLUSTER_MAP_SIZE ==> blank.fat[c] == EMPTY_ENTRY
    requires IsRun(states, ops, codes) && states[0] == Mount(blank)
    requires Sound(states[|ops|]) ==> r.parent in Dirs(states[|ops|])
    requires r.parent < CLUSTER_COUNT && r.name != NO_NAME
    ensures ReadEnds(states[|ops|], r)
    ensures var y := Read(states[|ops|], r);
      match LastWrite(ops, codes, KeyOf(r))
      case None => y.code == 3
      case Some(was) =>
        if was.size == 0 then y.code == 0
        else if was.size > r.size then y.code == 2
        else y.code == 0 && y.data == was.buf
  {
    hide Explains, Read, Format, Dirs, Sound;
    ReadReturnsLastWrite(blank, states, ops, codes, r);
  }

  lemma HeadsAreDirs(s: State)
    requires Sound(s)
    ensures TreeOf(s).heads.Keys == Dirs(s)
  {
  }
}
