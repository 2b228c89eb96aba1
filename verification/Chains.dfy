/** Cluster chains in the file allocation table: what a chain is, first-fit selection of free
    clusters, linking and clearing, and the transfer of a buffer to and from a chain. */
module Chains {
  import opened Layout

  predicate InMap(cs: seq<nat>) {
    forall j :: 0 <= j < |cs| ==> cs[j] < CLUSTER_MAP_SIZE
  }

  predicate Distinct(cs: seq<nat>) {
    forall i, j :: 0 <= i < j < |cs| ==> cs[i] != cs[j]
  }

  /** cs is the walk through f from start up to and including the END_OF_FILE cell. */
  predicate IsChain(f: Fat, start: int, cs: seq<nat>) {
    && |cs| > 0
    && cs[0] == start
    && InMap(cs)
    && (forall j :: 0 <= j < |cs| - 1 ==> f[cs[j]] == cs[j + 1])
    && f[cs[|cs| - 1]] == END_OF_FILE
  }

  ghost predicate HasChain(f: Fat, start: int) {
    exists cs :: IsChain(f, start, cs)
  }

  ghost function ChainFrom(f: Fat, start: int): (cs: seq<nat>)
    requires HasChain(f, start)
    ensures IsChain(f, start, cs)
  {
    var cs :| IsChain(f, start, cs);
    cs
  }

  lemma ChainTail(f: Fat, start: int, cs: seq<nat>)
    requires IsChain(f, start, cs) && |cs| > 1
    ensures f[start] == cs[1] && IsChain(f, f[start], cs[1..])
  {
    assert f[cs[0]] == cs[1];
    var t := cs[1..];
    forall j | 0 <= j < |t| - 1
      ensures f[t[j]] == t[j + 1]
    {
      assert f[cs[j + 1]] == cs[j + 2];
    }
  }

  /** A start cluster has at most one chain. */
  lemma {:induction false} ChainUnique(f: Fat, start: int, a: seq<nat>, b: seq<nat>)
    requires IsChain(f, start, a) && IsChain(f, start, b)
    ensures a == b
    decreases |a|
  {
    assert |a| > 1 ==> f[a[0]] == a[1];
    assert |b| > 1 ==> f[b[0]] == b[1];
    if |a| > 1 && |b| > 1 {
      ChainTail(f, start, a);
      ChainTail(f, start, b);
      ChainUnique(f, f[start], a[1..], b[1..]);
      assert a == [a[0]] + a[1..] && b == [b[0]] + b[1..];
    }
  }

  lemma ChainSuffix(f: Fat, start: int, cs: seq<nat>, i: nat)
    requires IsChain(f, start, cs) && i < |cs|
    ensures IsChain(f, cs[i], cs[i..])
  {
    var t := cs[i..];
    forall j | 0 <= j < |t| - 1
      ensures f[t[j]] == t[j + 1]
    {
      assert f[cs[i + j]] == cs[i + j + 1];
    }
  }

  /** A walk that reaches END_OF_FILE never visits a cluster twice. */
  lemma ChainDistinct(f: Fat, start: int, cs: seq<nat>)
    requires IsChain(f, start, cs)
    ensures Distinct(cs)
  {
    forall i, j | 0 <= i < j < |cs|
      ensures cs[i] != cs[j]
    {
      ChainSuffix(f, start, cs, i);
      ChainSuffix(f, start, cs, j);
      if cs[i] == cs[j] {
        ChainUnique(f, cs[i], cs[i..], cs[j..]);
      }
    }
  }

  lemma ChainFrame(f: Fat, g: Fat, start: int, cs: seq<nat>)
    requires IsChain(f, start, cs)
    requires forall c :: c in cs ==> f[c] == g[c]
    ensures IsChain(g, start, cs)
  {
    forall j | 0 <= j < |cs| - 1
      ensures g[cs[j]] == cs[j + 1]
    {
      assert cs[j] in cs && f[cs[j]] == cs[j + 1];
    }
  }

  lemma ChainOf(f: Fat, start: int, cs: seq<nat>)
    requires IsChain(f, start, cs)
    ensures HasChain(f, start) && ChainFrom(f, start) == cs
  {
    ChainUnique(f, start, cs, ChainFrom(f, start));
  }

  // ----- which walks end

  /** The guard a caller can test: a cell from 1 on, inside the map, that is not empty. */
  predicate InUse(f: Fat, c: int) {
    1 <= c < CLUSTER_MAP_SIZE && f[c] != EMPTY_ENTRY
  }

  /** With its reserved value in cell 0, no walk that ends passes cell 0 or an empty cell. */
  lemma {:induction false} ChainInUse(f: Fat, start: int, cs: seq<nat>)
    requires f[0] == CLUSTER_0_VALUE && IsChain(f, start, cs)
    ensures forall c :: c in cs ==> InUse(f, c)
    decreases |cs|
  {
    if |cs| > 1 {
      ChainTail(f, start, cs);
      ChainInUse(f, f[start], cs[1..]);
      assert cs == [cs[0]] + cs[1..] && cs[1] in cs[1..];
    }
  }

  // ----- first fit

  /** The free clusters from i on, in increasing order. */
  function FreeCells(f: Fat, i: nat): (cs: seq<nat>)
    requires i <= CLUSTER_MAP_SIZE
    ensures forall c :: c in cs ==> i <= c < CLUSTER_MAP_SIZE && f[c] == EMPTY_ENTRY
    decreases CLUSTER_MAP_SIZE - i
  {
    if i == CLUSTER_MAP_SIZE then []
    else if f[i] == EMPTY_ENTRY then [i] + FreeCells(f, i + 1)
    else FreeCells(f, i + 1)
  }

  lemma {:induction false} FreeCellsComplete(f: Fat, i: nat, c: nat)
    requires i <= c < CLUSTER_MAP_SIZE && f[c] == EMPTY_ENTRY
    ensures c in FreeCells(f, i)
    decreases c - i
  {
    if i < c {
      FreeCellsComplete(f, i + 1, c);
    }
  }

  lemma {:induction false} FreeCellsAscend(f: Fat, i: nat, a: nat, b: nat)
    requires i <= CLUSTER_MAP_SIZE && a < b < |FreeCells(f, i)|
    ensures FreeCells(f, i)[a] < FreeCells(f, i)[b]
    decreases CLUSTER_MAP_SIZE - i
  {
    var rest := FreeCells(f, i + 1);
    if f[i] != EMPTY_ENTRY {
      FreeCellsAscend(f, i + 1, a, b);
    } else if a > 0 {
      FreeCellsAscend(f, i + 1, a - 1, b - 1);
    } else {
      assert FreeCells(f, i)[b] == rest[b - 1] && rest[b - 1] in rest;
    }
  }

  /** First fit: the k clusters chosen are free, increasing, and below every free cluster left. */
  lemma FirstFit(f: Fat, k: nat)
    requires k <= |FreeCells(f, 0)|
    ensures var cs := FreeCells(f, 0)[..k];
      && InMap(cs) && Distinct(cs)
      && (forall c :: c in cs ==> f[c] == EMPTY_ENTRY)
      && (forall a, b :: 0 <= a < b < k ==> cs[a] < cs[b])
      && (forall c, d :: 0 <= c < CLUSTER_MAP_SIZE && f[c] == EMPTY_ENTRY && c !in cs && d in cs ==> d < c)
  {
    var all := FreeCells(f, 0);
    var cs := all[..k];
    forall j | 0 <= j < |cs|
      ensures cs[j] in all
    {
      assert cs[j] == all[j];
    }
    forall a, b | 0 <= a < b < |all|
      ensures all[a] < all[b]
    {
      FreeCellsAscend(f, 0, a, b);
    }
    forall c, d | 0 <= c < CLUSTER_MAP_SIZE && f[c] == EMPTY_ENTRY && c !in cs && d in cs
      ensures d < c
    {
      FreeCellsComplete(f, 0, c);
      AscendingSplit(all, k, d, c);
    }
  }

  lemma AscendingSplit(all: seq<nat>, k: nat, d: nat, c: nat)
    requires forall a, b :: 0 <= a < b < |all| ==> all[a] < all[b]
    requires k <= |all| && c in all && c !in all[..k] && d in all[..k]
    ensures d < c
  {
    assert all == all[..k] + all[k..];
    var x :| 0 <= x < |all[k..]| && all[k..][x] == c;
    var y :| 0 <= y < |all[..k]| && all[..k][y] == d;
    assert all[k + x] == c && all[y] == d;
  }

  ghost function FreeSet(f: Fat, i: nat): set<nat> {
    set c: nat | i <= c < CLUSTER_MAP_SIZE && f[c] == EMPTY_ENTRY
  }

  lemma {:induction false} FreeCount(f: Fat, i: nat)
    requires i <= CLUSTER_MAP_SIZE
    ensures |FreeCells(f, i)| == |FreeSet(f, i)|
    decreases CLUSTER_MAP_SIZE - i
  {
    if i < CLUSTER_MAP_SIZE {
      FreeCount(f, i + 1);
      if f[i] == EMPTY_ENTRY {
        assert FreeSet(f, i) == {i} + FreeSet(f, i + 1);
      } else {
        assert FreeSet(f, i) == FreeSet(f, i + 1);
      }
    } else {
      assert FreeSet(f, i) == {};
    }
  }

  function Cells(cs: seq<nat>): set<nat> {
    set c | c in cs
  }

  lemma {:induction false} CellsCount(cs: seq<nat>)
    requires Distinct(cs)
    ensures |Cells(cs)| == |cs|
    decreases |cs|
  {
    if cs != [] {
      CellsCount(cs[1..]);
      assert Cells(cs) == {cs[0]} + Cells(cs[1..]);
    } else {
      assert Cells(cs) == {};
    }
  }

  // ----- linking and clearing

  /** f with the clusters of cs linked in order and the last one marked as the end. */
  function Link(f: Fat, cs: seq<nat>): Fat
    requires |cs| > 0 && InMap(cs)
    decreases |cs|
  {
    if |cs| == 1 then f[cs[0] := END_OF_FILE]
    else Link(f[cs[0] := cs[1]], cs[1..])
  }

  lemma {:induction false} LinkFrame(f: Fat, cs: seq<nat>, c: nat)
    requires |cs| > 0 && InMap(cs) && c < CLUSTER_MAP_SIZE && c !in cs
    ensures Link(f, cs)[c] == f[c]
    decreases |cs|
  {
    if |cs| > 1 {
      LinkFrame(f[cs[0] := cs[1]], cs[1..], c);
    }
  }

  /** Linking distinct clusters makes them a chain. */
  lemma {:induction false} LinkIsChain(f: Fat, cs: seq<nat>)
    requires |cs| > 0 && InMap(cs) && Distinct(cs)
    ensures IsChain(Link(f, cs), cs[0], cs)
    decreases |cs|
  {
    if |cs| > 1 {
      var g, t := f[cs[0] := cs[1]], cs[1..];
      LinkIsChain(g, t);
      LinkFrame(g, t, cs[0]);
      var h := Link(f, cs);
      forall j | 0 <= j < |cs| - 1
        ensures h[cs[j]] == cs[j + 1]
      {
        if j > 0 { assert h[t[j - 1]] == t[j]; }
      }
    }
  }

  lemma LinkClaims(f: Fat, cs: seq<nat>, c: nat)
    requires |cs| > 0 && InMap(cs) && Distinct(cs) && c in cs
    requires 0 !in cs
    ensures Link(f, cs)[c] != EMPTY_ENTRY
  {
    LinkIsChain(f, cs);
    ChainClaims(Link(f, cs), cs[0], cs);
  }

  /** f with every cluster of cs marked empty. */
  function Clear(f: Fat, cs: seq<nat>): Fat {
    seq(CLUSTER_MAP_SIZE, i requires 0 <= i < CLUSTER_MAP_SIZE => if i in cs then EMPTY_ENTRY else f[i])
  }

  /** Clearing undoes linking of free clusters. */
  lemma ClearLink(f: Fat, cs: seq<nat>)
    requires |cs| > 0 && InMap(cs) && forall c :: c in cs ==> f[c] == EMPTY_ENTRY
    ensures Clear(Link(f, cs), cs) == f
  {
    forall c | 0 <= c < CLUSTER_MAP_SIZE
      ensures Clear(Link(f, cs), cs)[c] == f[c]
    {
      if c !in cs { LinkFrame(f, cs, c); }
    }
  }

  /** Linking free clusters uses up exactly as many free cells. */
  lemma LinkUses(f: Fat, cs: seq<nat>)
    requires |cs| > 0 && InMap(cs) && Distinct(cs) && 0 !in cs && forall c :: c in cs ==> f[c] == EMPTY_ENTRY
    ensures |FreeCells(Link(f, cs), 0)| == |FreeCells(f, 0)| - |cs|
  {
    var g := Link(f, cs);
    FreeCount(f, 0);
    FreeCount(g, 0);
    CellsCount(cs);
    forall c: nat | c < CLUSTER_MAP_SIZE
      ensures c in FreeSet(g, 0) <==> c in FreeSet(f, 0) && c !in Cells(cs)
    {
      if c in cs { LinkClaims(f, cs, c); } else { LinkFrame(f, cs, c); }
    }
    assert FreeSet(g, 0) == FreeSet(f, 0) - Cells(cs);
    assert Cells(cs) <= FreeSet(f, 0);
  }

  lemma ChainClaims(f: Fat, start: int, cs: seq<nat>)
    requires IsChain(f, start, cs) && 0 !in cs
    ensures forall c :: c in cs ==> f[c] != EMPTY_ENTRY
  {
    forall c | c in cs
      ensures f[c] != EMPTY_ENTRY
    {
      var j :| 0 <= j < |cs| && cs[j] == c;
      if j < |cs| - 1 { assert f[cs[j]] == cs[j + 1] && cs[j + 1] in cs; }
    }
  }

  /** Clearing a chain gives back exactly its clusters. */
  lemma ClearReturns(f: Fat, start: int, cs: seq<nat>)
    requires IsChain(f, start, cs) && 0 !in cs
    ensures |FreeCells(Clear(f, cs), 0)| == |FreeCells(f, 0)| + |cs|
  {
    var g := Clear(f, cs);
    FreeCount(f, 0);
    FreeCount(g, 0);
    ChainDistinct(f, start, cs);
    CellsCount(cs);
    ChainClaims(f, start, cs);
    assert FreeSet(g, 0) == FreeSet(f, 0) + Cells(cs);
    assert FreeSet(f, 0) !! Cells(cs);
  }

  lemma {:induction false} RestOfFree(f: Fat, g: Fat, i: nat, k: nat)
    requires i <= CLUSTER_MAP_SIZE && k <= |FreeCells(f, i)|
    requires forall c :: i <= c < CLUSTER_MAP_SIZE ==>
               (g[c] == EMPTY_ENTRY <==> f[c] == EMPTY_ENTRY && c !in FreeCells(f, i)[..k])
    ensures FreeCells(g, i) == FreeCells(f, i)[k..]
    decreases CLUSTER_MAP_SIZE - i
  {
    if i < CLUSTER_MAP_SIZE {
      var rest := FreeCells(f, i + 1);
      if f[i] != EMPTY_ENTRY {
        RestOfFree(f, g, i + 1, k);
      } else if k == 0 {
        RestOfFree(f, g, i + 1, 0);
      } else {
        assert FreeCells(f, i)[..k] == [i] + rest[..k - 1];
        RestOfFree(f, g, i + 1, k - 1);
      }
    }
  }

  /** Allocating the first k free clusters leaves exactly the others free, in the same order: the next
      allocation goes on where this one stopped. */
  lemma LinkLeavesRest(f: Fat, k: nat)
    requires 0 < k <= |FreeCells(f, 0)| && f[0] != EMPTY_ENTRY
    ensures InMap(FreeCells(f, 0)[..k]) && FreeCells(Link(f, FreeCells(f, 0)[..k]), 0) == FreeCells(f, 0)[k..]
  {
    FirstFit(f, k);
    var cs := FreeCells(f, 0)[..k];
    forall c | 0 <= c < CLUSTER_MAP_SIZE
      ensures Link(f, cs)[c] == EMPTY_ENTRY <==> f[c] == EMPTY_ENTRY && c !in cs
    {
      if c in cs { LinkClaims(f, cs, c); } else { LinkFrame(f, cs, c); }
    }
    RestOfFree(f, Link(f, cs), 0, k);
  }

  /** A map that agrees cell by cell with a linked map is that map. */
  lemma LinkPointwise(f: Fat, cs: seq<nat>, g: Fat)
    requires |cs| > 0 && InMap(cs) && Distinct(cs)
    requires IsChain(g, cs[0], cs)
    requires forall c :: 0 <= c < CLUSTER_MAP_SIZE && c !in cs ==> g[c] == f[c]
    ensures g == Link(f, cs)
  {
    LinkIsChain(f, cs);
    var h := Link(f, cs);
    forall c | 0 <= c < CLUSTER_MAP_SIZE
      ensures g[c] == h[c]
    {
      if c in cs {
        var j :| 0 <= j < |cs| && cs[j] == c;
        if j < |cs| - 1 { assert g[cs[j]] == cs[j + 1] && h[cs[j]] == cs[j + 1]; }
      } else {
        LinkFrame(f, cs, c);
      }
    }
  }

  // ----- data

  /** disk with the successive clusters of data stored at the clusters of cs. */
  function Scatter(disk: Disk, cs: seq<nat>, data: seq<byte>): Disk
    requires InMap(cs) && |data| == CLUSTER_SIZE * |cs|
    decreases |cs|
  {
    if cs == [] then disk
    else Scatter(disk[cs[0] := data[..CLUSTER_SIZE]], cs[1..], data[CLUSTER_SIZE..])
  }

  /** The clusters of cs, one after the other. */
  function Gather(disk: Disk, cs: seq<nat>): (data: seq<byte>)
    requires InMap(cs)
    ensures |data| == CLUSTER_SIZE * |cs|
  {
    if cs == [] then [] else disk[cs[0]] + Gather(disk, cs[1..])
  }

  lemma {:induction false} ScatterFrame(disk: Disk, cs: seq<nat>, data: seq<byte>, c: nat)
    requires InMap(cs) && |data| == CLUSTER_SIZE * |cs|
    requires c < CLUSTER_COUNT && c !in cs
    ensures Scatter(disk, cs, data)[c] == disk[c]
    decreases |cs|
  {
    if cs != [] {
      ScatterFrame(disk[cs[0] := data[..CLUSTER_SIZE]], cs[1..], data[CLUSTER_SIZE..], c);
    }
  }

  lemma {:induction false} GatherFrame(d: Disk, e: Disk, cs: seq<nat>)
    requires InMap(cs) && forall c :: c in cs ==> d[c] == e[c]
    ensures Gather(d, cs) == Gather(e, cs)
    decreases |cs|
  {
    if cs != [] {
      GatherFrame(d, e, cs[1..]);
    }
  }

  /** Reading a chain back gives the bytes spilled into it. */
  lemma {:induction false} GatherScatter(disk: Disk, cs: seq<nat>, data: seq<byte>)
    requires InMap(cs) && Distinct(cs) && |data| == CLUSTER_SIZE * |cs|
    ensures Gather(Scatter(disk, cs, data), cs) == data
    decreases |cs|
  {
    if cs != [] {
      var d, t, rest := disk[cs[0] := data[..CLUSTER_SIZE]], cs[1..], data[CLUSTER_SIZE..];
      GatherScatter(d, t, rest);
      ScatterFrame(d, t, rest, cs[0]);
    }
  }

  /** Cluster j of the chain holds bytes 2048 j to 2048 j + 2047 of the buffer. */
  lemma {:induction false} ScatterAt(disk: Disk, cs: seq<nat>, data: seq<byte>, j: nat)
    requires InMap(cs) && Distinct(cs) && |data| == CLUSTER_SIZE * |cs| && j < |cs|
    ensures Scatter(disk, cs, data)[cs[j]] == data[2048 * j..2048 * j + 2048]
    decreases |cs|
  {
    var d, t, rest := disk[cs[0] := data[..CLUSTER_SIZE]], cs[1..], data[CLUSTER_SIZE..];
    if j == 0 {
      ScatterFrame(d, t, rest, cs[0]);
    } else {
      ScatterAt(d, t, rest, j - 1);
      assert rest[2048 * (j - 1)..2048 * (j - 1) + 2048] == data[2048 * j..2048 * j + 2048];
    }
  }
}
