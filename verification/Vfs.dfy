/** The abstract file system: live folders, and a map from (folder, name, extension) to contents. */
module Vfs {
  import opened Words
  import opened Layout
  import opened FileSystem

  datatype Key = Key(dir: nat, name: Name, ext: Ext)

  /** A file with its size and its whole clusters of data, or a folder and its cluster. */
  datatype Item = File(size: u32, data: seq<byte>) | Folder(cluster: nat)

  /** The name a folder carries in its own row 0. */
  datatype Heading = Heading(name: Name, ext: Ext)

  /** stained: the folders whose table has a row that is flagged and has no name. */
  datatype Tree = Tree(heads: map<nat, Heading>, items: imap<Key, Item>, free: nat, stained: set<nat>)

  datatype Op = WriteOp(r: Request) | ReadOp(r: Request) | DeleteOp(r: Request)

  function KeyOf(r: Request): Key {
    Key(r.parent, r.name, r.ext)
  }

  /** Extensions that a write does not tell apart. */
  predicate SameExt(a: Ext, b: Ext) {
    a == b || (a[0] == 0 && b[0] == 0)
  }

  /** The name is used by the folder itself or by one of its items. */
  ghost predicate Taken(a: Tree, r: Request)
    requires r.parent in a.heads
  {
    var h := a.heads[r.parent];
    (h.name == r.name && SameExt(h.ext, r.ext))
    || exists k: Key :: k in a.items && k.dir == r.parent && k.name == r.name && SameExt(k.ext, r.ext)
  }

  ghost predicate Occupied(a: Tree, dir: nat) {
    exists k: Key :: k in a.items && k.dir == dir
  }

  /** Folders in which the flag a write sets can land on a row without a name: row 62 is the first a new
      entry takes, and rows from 64 on are not in the table. */
  predicate CanStain(dir: nat) {
    dir < ROW_COUNT && dir != ROW_COUNT - 2
  }

  /** A successful write in dir stains at most dir; it does so for certain when dir holds no item. */
  ghost predicate Stains(a: Tree, dir: nat, after: set<nat>) {
    && a.stained <= after <= a.stained + {dir}
    && (dir in after ==> dir in a.stained || CanStain(dir))
    && (CanStain(dir) && !Occupied(a, dir) ==> dir in after)
  }

  /** Whether the new folder itself is stained depends on what its cluster held. */
  ghost predicate Created(a: Tree, r: Request, a': Tree, c: nat)
    requires a.free > 0
  {
    && 3 <= c < CLUSTER_MAP_SIZE && c !in a.heads
    && a' == Tree(a.heads[c := Heading(r.name, r.ext)], a.items[KeyOf(r) := Folder(c)], a.free - 1, a'.stained)
    && Stains(a, r.parent, a'.stained - {c})
  }

  ghost predicate WriteStep(a: Tree, r: Request, code: int, a': Tree) {
    if r.parent !in a.heads then code == 2 && a' == a
    else if Taken(a, r) then code == 1 && a' == a
    else if Needed(r) > a.free then code == -1 && a' == a
    else
      && code == 0
      && if r.size == 0 then exists c: nat :: Created(a, r, a', c)
         else a' == Tree(a.heads, a.items[KeyOf(r) := File(r.size, r.buf)], a.free - Needed(r), a'.stained)
              && Stains(a, r.parent, a'.stained)
  }

  /** Reading a folder copies its table, which this level does not describe. */
  ghost predicate ReadStep(a: Tree, r: Request, code: int, data: seq<byte>) {
    if r.parent !in a.heads then code == -1
    else if KeyOf(r) !in a.items then code == 3
    else match a.items[KeyOf(r)]
      case Folder(_) => code == 0 && |data| == CLUSTER_SIZE
      case File(size, bytes) => if size > r.size then code == 2 else code == 0 && data == bytes
  }

  /** A folder is refused exactly if it has items or is stained. */
  ghost predicate DeleteStep(a: Tree, r: Request, code: int, a': Tree) {
    if r.parent !in a.heads then code == -1 && a' == a
    else if KeyOf(r) !in a.items then code == 1 && a' == a
    else match a.items[KeyOf(r)]
      case File(size, _) =>
        code == 0 && a' == Tree(a.heads, a.items - {KeyOf(r)}, a.free + ClustersFor(size), a.stained)
      case Folder(c) =>
        if Occupied(a, c) || c in a.stained then code == 2 && a' == a
        else code == 0 && a' == Tree(a.heads - {c}, a.items - {KeyOf(r)}, a.free + 1, a.stained)
  }

  lemma FileDropped(a: Tree, r: Request, size: u32, data: seq<byte>, a': Tree)
    requires r.parent in a.heads && KeyOf(r) in a.items && a.items[KeyOf(r)] == File(size, data)
    requires a' == Tree(a.heads, a.items - {KeyOf(r)}, a.free + ClustersFor(size), a.stained)
    ensures DeleteStep(a, r, 0, a')
  {
  }

  lemma FolderDropped(a: Tree, r: Request, c: nat, a': Tree)
    requires r.parent in a.heads && KeyOf(r) in a.items && a.items[KeyOf(r)] == Folder(c)
    requires !Occupied(a, c) && c !in a.stained
    requires a' == Tree(a.heads - {c}, a.items - {KeyOf(r)}, a.free + 1, a.stained)
    ensures DeleteStep(a, r, 0, a')
  {
  }

  ghost predicate Step(a: Tree, op: Op, code: int, data: seq<byte>, a': Tree) {
    match op
    case WriteOp(r) => WriteStep(a, r, code, a')
    case ReadOp(r) => ReadStep(a, r, code, data) && a' == a
    case DeleteOp(r) => DeleteStep(a, r, code, a')
  }

  // ----- histories

  datatype Option<+T> = None | Some(value: T)

  /** The last successful write to k that no successful delete of k follows. */
  function LastWrite(ops: seq<Op>, codes: seq<int>, k: Key): (w: Option<Request>)
    requires |ops| == |codes|
    ensures w.Some? ==> KeyOf(w.value) == k
  {
    if ops == [] then None
    else
      var n := |ops| - 1;
      if codes[n] == 0 && ops[n].WriteOp? && KeyOf(ops[n].r) == k then Some(ops[n].r)
      else if codes[n] == 0 && ops[n].DeleteOp? && KeyOf(ops[n].r) == k then None
      else LastWrite(ops[..n], codes[..n], k)
  }

  predicate Holds(i: Item, r: Request) {
    if r.size == 0 then i.Folder? else i == File(r.size, r.buf)
  }

  /** The tree has an item exactly where the history says, and it is what was last written. */
  ghost predicate Tracks(a: Tree, ops: seq<Op>, codes: seq<int>)
    requires |ops| == |codes|
  {
    forall k: Key ::
      (k in a.items <==> LastWrite(ops, codes, k).Some?)
      && (k in a.items ==> Holds(a.items[k], LastWrite(ops, codes, k).value))
  }

  lemma EmptyTracks(a: Tree)
    requires a.items == imap[]
    ensures Tracks(a, [], [])
  {
  }

  /** One abstract step keeps the tree in line with the history. */
  lemma StepTracks(a: Tree, ops: seq<Op>, codes: seq<int>, op: Op, code: int, data: seq<byte>, a': Tree)
    requires |ops| == |codes| && Tracks(a, ops, codes) && Step(a, op, code, data, a')
    ensures Tracks(a', ops + [op], codes + [code])
  {
    var ops', codes' := ops + [op], codes + [code];
    assert ops'[..|ops|] == ops && codes'[..|ops|] == codes;
    forall k: Key
      ensures (k in a'.items <==> LastWrite(ops', codes', k).Some?)
              && (k in a'.items ==> Holds(a'.items[k], LastWrite(ops', codes', k).value))
    {
      assert k in a.items <==> LastWrite(ops, codes, k).Some?;
    }
  }

  // ----- stained folders

  /** A stained folder stays, and stays stained, whatever is called. */
  lemma StainStays(a: Tree, op: Op, code: int, data: seq<byte>, a': Tree, d: nat)
    requires Step(a, op, code, data, a') && d in a.heads && d in a.stained
    ensures d in a'.heads && d in a'.stained
  {
  }

  predicate WritesIn(op: Op, code: int, d: nat) {
    op.WriteOp? && code == 0 && op.r.parent == d
  }

  /** The state of a folder that was clean once, after writes in it have succeeded or none has. */
  ghost predicate StainedBy(a: Tree, d: nat, written: bool) {
    (d in a.stained <==> written && CanStain(d)) && (Occupied(a, d) ==> written)
  }

  lemma OccupiedStep(a: Tree, op: Op, code: int, data: seq<byte>, a': Tree, d: nat)
    requires Step(a, op, code, data, a') && Occupied(a', d)
    ensures Occupied(a, d) || WritesIn(op, code, d)
  {
    var k: Key :| k in a'.items && k.dir == d;
    if k !in a.items { assert op.WriteOp? && k == KeyOf(op.r); }
  }

  lemma StainedStep(a: Tree, op: Op, code: int, data: seq<byte>, a': Tree, d: nat)
    requires Step(a, op, code, data, a') && d in a.heads
    ensures d in a.stained ==> d in a'.stained
    ensures d in a'.stained ==> d in a.stained || (WritesIn(op, code, d) && CanStain(d))
    ensures WritesIn(op, code, d) && CanStain(d) && !Occupied(a, d) ==> d in a'.stained
  {
    if op.WriteOp? && code == 0 {
      if op.r.size == 0 {
        var c :| Created(a, op.r, a', c);
        assert Stains(a, op.r.parent, a'.stained - {c}) && d != c;
        assert d in a'.stained <==> d in a'.stained - {c};
      } else {
        assert Stains(a, op.r.parent, a'.stained);
      }
    } else if op.DeleteOp? {
      assert a'.stained == a.stained;
    } else {
      assert a' == a;
    }
  }

  /** As long as a folder that was clean lives, it is stained exactly from the first write in it on. */
  lemma StainedByStep(a: Tree, op: Op, code: int, data: seq<byte>, a': Tree, d: nat, written: bool)
    requires Step(a, op, code, data, a') && d in a.heads && d in a'.heads && StainedBy(a, d, written)
    ensures StainedBy(a', d, written || WritesIn(op, code, d))
  {
    hide Step, Occupied, WritesIn, CanStain;
    StainedStep(a, op, code, data, a', d);
    if Occupied(a', d) { OccupiedStep(a, op, code, data, a', d); }
  }
}
