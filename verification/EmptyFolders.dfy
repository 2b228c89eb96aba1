/** When an empty folder can be deleted.  A write in directory p flags row p of p's table, so a folder in
    a low cluster that was ever written in counts as not empty for ever. */
module EmptyFolders {
  import opened Layout
  import opened Chains
  import opened FileSystem
  import opened Ownership
  import opened Soundness
  import opened SafeWrites
  import opened Abstraction
  import opened WriteRefinement
  import opened DeleteRefinement
  import opened Runs
  import opened Guarantees
  import opened Vfs

  /** An empty folder is refused if and only if a row of its table is flagged and has no name. */
  lemma EmptyFolderRefusedIff(s: State, r: Request)
    requires Sound(s) && DeleteAsked(s, r) && r.parent in Dirs(s) && FoundAt(s, r, true) < ROW_COUNT
    requires var row := TableOf(s.disk[r.parent])[FoundAt(s, r, true)];
      IsFolder(row) && !Occupied(TreeOf(s), Start(row))
    ensures DeleteEnds(s, r)
    ensures var c := Start(TableOf(s.disk[r.parent])[FoundAt(s, r, true)]);
      c < CLUSTER_COUNT && (Delete(s, r).code != 0 <==> Stained(TableOf(s.disk[c])))
  {
    hide Explains, TableOf, Stained;
    DeleteKeepsSound(s, r);
    FoundFolder(s, RecordOf(s), r);
    FolderRefusedIff(s, RecordOf(s), r);
  }

  /** Exactly which successful writes leave a stray flag in their directory. */
  lemma WriteStainsIff(s: State, r: Request)
    requires Sound(s) && WriteAsked(s, r) && Write(s, r).code == 0
    ensures var t := TableOf(s.disk[r.parent]);
      Stained(TableOf(Write(s, r).st.disk[r.parent])) <==>
      Stained(t) || (r.parent < ROW_COUNT && !Live(t[r.parent]) && FreeRow(t, ROW_COUNT - 1) != r.parent)
  {
    hide Explains, TableOf, Stained, Write;
    WriteIsComplete(s, r);
    DirTable(s, RecordOf(s), r.parent);
    WriteTable(s, RecordOf(s), r, r.parent);
    StainedIff(TableOf(s.disk[r.parent]), r, AttributeFor(r), Claim(s, r)[0]);
  }

  // ----- runs

  /** Once stained, a directory is never deleted and stays stained, for the rest of every run. */
  lemma {:induction false} StainedForEver(states: seq<State>, ops: seq<Op>, codes: seq<int>, m: nat, n: nat, d: nat)
    requires IsRun(states, ops, codes) && m <= n < |states|
    requires Sound(states[m]) && d in Dirs(states[m]) && d in TreeOf(states[m]).stained
    ensures Sound(states[n]) && d in Dirs(states[n]) && d in TreeOf(states[n]).stained
  {
    hide Sound, TreeOf, Step, Asked, Call, Dirs;
    RunIsSound(states, ops, codes, n);
    if m < n {
      StainedForEver(states, ops, codes, m, n - 1, d);
      RunRefines(states, ops, codes, n - 1);
      HeadsAreDirs(states[n - 1]);
      HeadsAreDirs(states[n]);
      var y := Call(states[n - 1], ops[n - 1]);
      StainStays(TreeOf(states[n - 1]), ops[n - 1], codes[n - 1], y.data, TreeOf(states[n]), d);
    }
  }

  /** Some write in d among the calls from m to n - 1 has succeeded. */
  predicate WrittenIn(ops: seq<Op>, codes: seq<int>, m: nat, n: nat, d: nat)
    requires m <= n <= |ops| == |codes|
  {
    exists j :: m <= j < n && WritesIn(ops[j], codes[j], d)
  }

  lemma {:induction false} RunStains(states: seq<State>, ops: seq<Op>, codes: seq<int>, m: nat, n: nat, d: nat)
    requires IsRun(states, ops, codes) && m <= n < |states|
    requires forall j :: m <= j <= n ==> Sound(states[j]) && d in Dirs(states[j])
    requires StainedBy(TreeOf(states[m]), d, false)
    ensures StainedBy(TreeOf(states[n]), d, WrittenIn(ops, codes, m, n, d))
  {
    hide Sound, TreeOf, Step, Asked, Call, Dirs, StainedBy, WritesIn;
    if m < n {
      RunStains(states, ops, codes, m, n - 1, d);
      RunRefines(states, ops, codes, n - 1);
      HeadsAreDirs(states[n - 1]);
      HeadsAreDirs(states[n]);
      var y, before := Call(states[n - 1], ops[n - 1]), WrittenIn(ops, codes, m, n - 1, d);
      StainedByStep(TreeOf(states[n - 1]), ops[n - 1], codes[n - 1], y.data, TreeOf(states[n]), d, before);
      assert WrittenIn(ops, codes, m, n, d) <==> before || WritesIn(ops[n - 1], codes[n - 1], d);
    }
  }

  /** Call i of the run makes a folder on cluster c, which held no flagged row. */
  ghost predicate MakesCleanFolder(states: seq<State>, ops: seq<Op>, codes: seq<int>, i: nat, c: nat)
    requires IsRun(states, ops, codes) && i < |ops|
  {
    && Sound(states[i]) && ops[i].WriteOp? && codes[i] == 0
    && var q := ops[i].r;
       && WriteAsked(states[i], q) && Write(states[i], q).code == 0 && q.size == 0
       && c == Claim(states[i], q)[0] && !AnyFlagged(TableOf(states[i].disk[c]))
  }

  lemma CleanFolder(s: State, q: Request)
    requires Sound(s) && WriteAsked(s, q) && Write(s, q).code == 0 && q.size == 0
    requires !AnyFlagged(TableOf(s.disk[Claim(s, q)[0]]))
    ensures Sound(Write(s, q).st) && StainedBy(TreeOf(Write(s, q).st), Claim(s, q)[0], false)
  {
    var c, s' := Claim(s, q)[0], Write(s, q).st;
    hide Explains, TableOf, Write, AnyFlagged, AnyLive, Stained, Occupied;
    WriteIsComplete(s, q);
    FolderRows(s, q);
    AddedDirs(s, RecordOf(s), q);
    DirTable(s', RecordOf(s'), c);
    FlaggedIff(TableOf(s'.disk[c]));
    OccupiedIff(s', RecordOf(s'), c);
  }

  /** The main result on folders.  A folder made in the run on a cluster without flagged rows, still there
      and empty, is refused exactly if its cluster is below 64 and not 62 and a write in it has succeeded. */
  lemma FolderStuckIff(states: seq<State>, ops: seq<Op>, codes: seq<int>, i: nat, n: nat, c: nat, r: Request)
    requires IsRun(states, ops, codes) && i < n <= |ops| && MakesCleanFolder(states, ops, codes, i, c)
    requires forall j :: i < j <= n ==> Sound(states[j]) && c in Dirs(states[j])
    requires DeleteAsked(states[n], r) && KeyOf(r) in TreeOf(states[n]).items
    requires TreeOf(states[n]).items[KeyOf(r)] == Folder(c) && !Occupied(TreeOf(states[n]), c)
    ensures DeleteEnds(states[n], r)
    ensures Delete(states[n], r).code ==
            if c < 64 && c != 62 && WrittenIn(ops, codes, i + 1, n, c) then 2 else 0
  {
    hide Explains, TreeOf, Delete, Write, Occupied, StainedBy, Dirs, Asked;
    Made(states, ops, codes, i, c);
    RunStains(states, ops, codes, i + 1, n, c);
    FolderCode(states[n], r, c, WrittenIn(ops, codes, i + 1, n, c));
  }

  lemma Made(states: seq<State>, ops: seq<Op>, codes: seq<int>, i: nat, c: nat)
    requires IsRun(states, ops, codes) && i < |ops| && MakesCleanFolder(states, ops, codes, i, c)
    ensures Sound(states[i + 1]) && StainedBy(TreeOf(states[i + 1]), c, false)
  {
    hide Explains, TreeOf, Write, StainedBy, AnyFlagged, TableOf;
    RunRefines(states, ops, codes, i);
    CleanFolder(states[i], ops[i].r);
    assert states[i + 1] == Write(states[i], ops[i].r).st;
  }

  lemma FolderCode(s: State, r: Request, c: nat, written: bool)
    requires Sound(s) && DeleteAsked(s, r) && KeyOf(r) in TreeOf(s).items && TreeOf(s).items[KeyOf(r)] == Folder(c)
    requires StainedBy(TreeOf(s), c, written) && !Occupied(TreeOf(s), c)
    ensures DeleteEnds(s, r) && Delete(s, r).code == if CanStain(c) && written then 2 else 0
  {
    hide Explains, Delete, DeleteEnds, DeleteAsked, Occupied;
    DeleteRefines(s, r);
    HeadsAreDirs(s);
    KeyDirLives(s, KeyOf(r));
  }

  lemma KeyDirLives(s: State, k: Key)
    requires Sound(s) && k in TreeOf(s).items
    ensures k.dir in TreeOf(s).heads
  {
    hide Explains;
  }

  // ----- one folder, one file

  /** What is known of a folder just made on a cluster without flagged rows. */
  lemma FolderReady(s: State, q: Request)
    requires Sound(s) && WriteAsked(s, q) && Write(s, q).code == 0 && q.size == 0
    requires !AnyFlagged(TableOf(s.disk[Claim(s, q)[0]]))
    ensures var c, s' := Claim(s, q)[0], Write(s, q).st;
      && c !in TreeOf(s).heads && Sound(s') && c in Dirs(s') && StainedBy(TreeOf(s'), c, false)
      && HasFreeRow(TableOf(s'.disk[c])) && Created(TreeOf(s), q, TreeOf(s'), c)
  {
    var c, s' := Claim(s, q)[0], Write(s, q).st;
    hide Explains, TableOf, Write, AnyFlagged, StainedBy, Created;
    WriteIsComplete(s, q);
    CleanFolder(s, q);
    AddedDirs(s, RecordOf(s), q);
    FolderMade(s, RecordOf(s), q);
    FolderRows(s, q);
    UnflaggedIsFree(TableOf(s'.disk[c]));
  }

  lemma UnflaggedIsFree(t: Table)
    requires !AnyFlagged(t)
    ensures HasFreeRow(t)
  {
    assert !Flagged(t[1]);
  }

  /** A file written in a clean folder and deleted again, seen abstractly. */
  lemma UsedFolder(a: Tree, f: Request, code: int, a': Tree, code': int, a'': Tree)
    requires f.parent in a.heads && StainedBy(a, f.parent, false) && a.heads[f.parent].name != f.name
    requires f.size > 0 && Needed(f) <= a.free
    requires WriteStep(a, f, code, a') && (code == 0 ==> DeleteStep(a', f, code', a''))
    ensures code == 0 && code' == 0 && a'.heads == a.heads && a''.heads == a.heads
    ensures a''.items == a.items && StainedBy(a'', f.parent, true) && !Occupied(a'', f.parent)
  {
    hide Stains;
    StainedByStep(a, WriteOp(f), code, [], a', f.parent, false);
    StainedByStep(a', DeleteOp(f), code', [], a'', f.parent, true);
    assert KeyOf(f) !in a.items;
    assert a''.items == a.items;
  }

  /** A folder on a clean cluster that had one file and is empty again is refused exactly if its cluster is
      below 64 and not 62. */
  lemma FolderAfterUse(s: State, q: Request, f: Request)
    requires Sound(s) && WriteAsked(s, q) && Write(s, q).code == 0 && q.size == 0
    requires !AnyFlagged(TableOf(s.disk[Claim(s, q)[0]]))
    requires Fits(f) && f.parent == Claim(s, q)[0] && f.size > 0 && f.name != NO_NAME && f.name != q.name
    requires Needed(f) < |FreeCells(s.fat, 0)|
    ensures var s1 := Write(s, q).st;
      && Sound(s1) && WriteAsked(s1, f) && Write(s1, f).code == 0
      && var s2 := Write(s1, f).st;
         && DeleteEnds(s2, f) && Delete(s2, f).code == 0
         && var s3 := Delete(s2, f).st;
            && Sound(s3) && f.parent in Dirs(s3) && !Occupied(TreeOf(s3), f.parent)
            && DeleteEnds(s3, q) && Delete(s3, q).code == if CanStain(f.parent) then 2 else 0
  {
    hide Explains, TableOf, Write, Delete, StainedBy, Occupied, AnyFlagged, HasFreeRow, Stains, Dirs;
    var a, s1 := TreeOf(s), Write(s, q).st;
    FolderReady(s, q);
    HeadsAreDirs(s);
    HeadsAreDirs(s1);
    assert WriteAsked(s1, f);
    WriteRefines(s1, f);
    var s2 := Write(s1, f).st;
    HeadsAreDirs(s2);
    StepKeepsHeads(TreeOf(s1), f, Write(s1, f).code, TreeOf(s2));
    DeleteRefines(s2, f);
    var s3 := Delete(s2, f).st;
    HeadsAreDirs(s3);
    UsedFolder(TreeOf(s1), f, Write(s1, f).code, TreeOf(s2), Delete(s2, f).code, TreeOf(s3));
    FolderCode(s3, q, f.parent, true);
  }

  lemma StepKeepsHeads(a: Tree, f: Request, code: int, a': Tree)
    requires WriteStep(a, f, code, a') && f.size > 0
    ensures a'.heads == a.heads
  {
  }
}
