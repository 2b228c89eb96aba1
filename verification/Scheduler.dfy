/** Round robin over the first 16 slots of the process table. */
module Scheduler {
  import opened ProcessTable

  const SLOTS := 16

  /** The first RUNNING slot, or the table size. */
  function FirstRunning(p: Procs, i: nat): (r: nat)
    requires i <= PROCESS_COUNT_MAX
    ensures i <= r <= PROCESS_COUNT_MAX
    ensures r < PROCESS_COUNT_MAX ==> p[r].state == Running
    ensures forall j :: i <= j < r ==> p[j].state != Running
    decreases PROCESS_COUNT_MAX - i
  {
    if i == PROCESS_COUNT_MAX then i else if p[i].state == Running then i else FirstRunning(p, i + 1)
  }

  function WithState(p: Procs, i: nat, state: ProcessState): Procs
    requires i < PROCESS_COUNT_MAX
  {
    p[i := p[i].(state := state)]
  }

  /** The running process goes back to READY. */
  function Demoted(p: Procs): Procs {
    var r := FirstRunning(p, 0);
    if r < PROCESS_COUNT_MAX then WithState(p, r, Ready) else p
  }

  /** k slots after start, going round. */
  function Cyclic(start: nat, k: nat): (i: nat)
    requires start < SLOTS && k <= SLOTS
    ensures i < SLOTS
  {
    if start + k < SLOTS then start + k else start + k - SLOTS
  }

  predicate SomeReady(p: Procs) {
    exists i :: 0 <= i < SLOTS && p[i].state == Ready
  }

  /** How many slots from start on the first READY one lies, going round; 16 if there is none. */
  function Offset(p: Procs, start: nat, k: nat): (o: nat)
    requires start < SLOTS && k <= SLOTS
    ensures k <= o <= SLOTS
    ensures o < SLOTS ==> p[Cyclic(start, o)].state == Ready
    ensures forall j :: k <= j < o ==> p[Cyclic(start, j)].state != Ready
    decreases SLOTS - k
  {
    if k == SLOTS then k else if p[Cyclic(start, k)].state == Ready then k else Offset(p, start, k + 1)
  }

  lemma OffsetFound(p: Procs, start: nat)
    requires SomeReady(p) && start < SLOTS
    ensures Offset(p, start, 0) < SLOTS
  {
    var i :| 0 <= i < SLOTS && p[i].state == Ready;
    var k := if i >= start then i - start else i + SLOTS - start;
    assert Cyclic(start, k) == i;
  }

  /** The slot after the running one; slot 1 when nothing runs. */
  function StartSlot(p: Procs): (i: nat)
    ensures i < SLOTS
  {
    (FirstRunning(p, 0) + 1) % 16
  }

  /** The slot picked next. */
  function Next(p: Procs): (n: nat)
    requires SomeReady(Demoted(p))
    ensures n < SLOTS
  {
    Cyclic(StartSlot(p), Offset(Demoted(p), StartSlot(p), 0))
  }

  function Switch(p: Procs): Procs
    requires SomeReady(Demoted(p))
  {
    WithState(Demoted(p), Next(p), Running)
  }

  lemma CyclicStep(start: nat, k: nat)
    requires start < SLOTS && k < SLOTS
    ensures (Cyclic(start, k) + 1) % 16 == Cyclic(start, k + 1)
  {
  }

  /** The first loop of a switch: it demotes the running process and returns its slot, or the table size. */
  method DemoteRunning(procs: array<Pcb>) returns (i: nat)
    requires procs.Length == PROCESS_COUNT_MAX
    modifies procs
    ensures i == FirstRunning(old(procs[..]), 0) && procs[..] == Demoted(old(procs[..]))
  {
    ghost var p: Procs := procs[..];
    i := 0;
    while i < PROCESS_COUNT_MAX && procs[i].state != Running
      invariant i <= PROCESS_COUNT_MAX && FirstRunning(p, 0) == FirstRunning(p, i)
    {
      i := i + 1;
    }
    if i < PROCESS_COUNT_MAX {
      procs[i] := procs[i].(state := Ready);
    }
  }

  /** The second loop of a switch: from start on, going round, to the first READY slot. */
  method FindReady(procs: array<Pcb>, start: nat) returns (i: nat)
    requires procs.Length == PROCESS_COUNT_MAX && SomeReady(procs[..]) && start < SLOTS
    ensures i == Cyclic(start, Offset(procs[..], start, 0))
  {
    ghost var q: Procs, k := procs[..], 0;
    OffsetFound(q, start);
    i := start;
    var found := false;
    while !found
      invariant k <= Offset(q, start, 0) < SLOTS && i == Cyclic(start, k)
      invariant found ==> k == Offset(q, start, 0)
      decreases Offset(q, start, 0) - k, !found
    {
      assert procs[i] == q[i];
      if procs[i].state == Ready {
        found := true;
      } else {
        CyclicStep(start, k);
        i := (i + 1) % 16;
        k := k + 1;
      }
    }
  }

  /** The switch, in place: demote, then go round until a READY slot is met. */
  method SwitchToNextProcess(procs: array<Pcb>) returns (i: nat)
    requires procs.Length == PROCESS_COUNT_MAX && SomeReady(Demoted(procs[..]))
    modifies procs
    ensures i == Next(old(procs[..])) && procs[..] == Switch(old(procs[..]))
  {
    hide Demoted, SomeReady, Offset, FirstRunning, Cyclic;
    i := DemoteRunning(procs);
    i := FindReady(procs, (i + 1) % 16);
    procs[i] := procs[i].(state := Running);
  }

  // ----- safety and fairness

  /** Slot r, below 16, is the only running one. */
  predicate OnlyRunning(p: Procs, r: nat) {
    r < SLOTS && forall i :: 0 <= i < PROCESS_COUNT_MAX ==> (p[i].state == Running <==> i == r)
  }

  lemma DemotedOnly(p: Procs, r: nat)
    requires OnlyRunning(p, r)
    ensures FirstRunning(p, 0) == r && Demoted(p) == WithState(p, r, Ready) && SomeReady(Demoted(p))
    ensures StartSlot(p) == Cyclic(r, 1)
  {
    hide SomeReady, Cyclic;
    RunningSlot(p, r);
    ReadySlot(Demoted(p), r);
    CyclicOne(r);
  }

  lemma RunningSlot(p: Procs, r: nat)
    requires OnlyRunning(p, r)
    ensures FirstRunning(p, 0) == r
  {
    assert p[r].state == Running;
  }

  lemma ReadySlot(p: Procs, i: nat)
    requires i < SLOTS && p[i].state == Ready
    ensures SomeReady(p)
  {
  }

  lemma CyclicOne(r: nat)
    requires r < SLOTS
    ensures (r + 1) % 16 == Cyclic(r, 1)
  {
    CyclicStep(r, 0);
  }

  /** Steps forward from slot r to slot j, going round: 1 to 16. */
  function Distance(r: nat, j: nat): (d: nat)
    requires r < SLOTS && j < SLOTS
    ensures 1 <= d <= SLOTS
  {
    if j > r then j - r else j + SLOTS - r
  }

  /** From any table, whichever slot runs or none: the slot picked is the READY one nearest ahead of the
      running slot, or of slot 0 if nothing runs. */
  lemma NextIsNearest(p: Procs, j: nat)
    requires SomeReady(Demoted(p)) && j < SLOTS && Demoted(p)[j].state == Ready
    ensures Demoted(p)[Next(p)].state == Ready
    ensures var r := FirstRunning(p, 0); Distance(r % 16, Next(p)) <= Distance(r % 16, j)
  {
    hide Demoted, SomeReady, FirstRunning, Cyclic;
    var q, start, r := Demoted(p), StartSlot(p), FirstRunning(p, 0) % 16;
    OffsetFound(q, start);
    StartAhead(FirstRunning(p, 0));
    CyclicAhead(r, start, Offset(q, start, 0));
    CyclicBack(r, start, j);
  }

  lemma StartAhead(n: nat)
    ensures (n + 1) % 16 == Cyclic(n % 16, 1)
  {
    assert (n + 1) % 16 == (n % 16 + 1) % 16;
    CyclicOne(n % 16);
  }

  lemma CyclicAhead(r: nat, start: nat, k: nat)
    requires r < SLOTS && start == Cyclic(r, 1) && k < SLOTS
    ensures Distance(r, Cyclic(start, k)) == k + 1
  {
  }

  lemma CyclicBack(r: nat, start: nat, j: nat)
    requires r < SLOTS && start == Cyclic(r, 1) && j < SLOTS
    ensures Cyclic(start, Distance(r, j) - 1) == j
  {
  }

  predicate CanRun(p: Pcb) {
    p.state == Ready || p.state == Running
  }

  /** A switch keeps exactly one running slot and picks the cyclically next READY one. */
  lemma SwitchPicksNext(p: Procs, r: nat)
    requires OnlyRunning(p, r)
    ensures SomeReady(Demoted(p)) && OnlyRunning(Switch(p), Next(p))
    ensures p[Next(p)].state == Ready || Next(p) == r
    ensures forall j :: 0 <= j < SLOTS && (p[j].state == Ready || j == r) ==> Distance(r, Next(p)) <= Distance(r, j)
  {
    hide FirstRunning, SomeReady;
    DemotedOnly(p, r);
    var q, start := Demoted(p), StartSlot(p);
    OffsetFound(q, start);
    var o := Offset(q, start, 0);
    assert q[Next(p)].state == Ready;
    forall j | 0 <= j < SLOTS && (p[j].state == Ready || j == r)
      ensures Distance(r, Next(p)) <= Distance(r, j)
    {
      var d := Distance(r, j);
      assert q[j].state == Ready && Cyclic(start, d - 1) == j;
    }
  }

  /** A switch changes no field but the state, and no process starts or stops being able to run. */
  lemma SwitchKeepsProcesses(p: Procs, i: nat)
    requires SomeReady(Demoted(p)) && i < PROCESS_COUNT_MAX
    ensures Switch(p)[i] == p[i].(state := Switch(p)[i].state)
    ensures CanRun(Switch(p)[i]) <==> CanRun(p[i])
    ensures !CanRun(p[i]) ==> Switch(p)[i] == p[i]
  {
    OffsetFound(Demoted(p), StartSlot(p));
  }

  predicate OneRunning(p: Procs) {
    OnlyRunning(p, FirstRunning(p, 0))
  }

  lemma OneStaysRunning(p: Procs)
    requires OneRunning(p)
    ensures SomeReady(Demoted(p)) && OneRunning(Switch(p))
  {
    hide Switch, Next, Demoted, Offset, OnlyRunning;
    SwitchPicksNext(p, FirstRunning(p, 0));
    DemotedOnly(Switch(p), Next(p));
  }

  /** The table after m switches. */
  function Switches(p: Procs, m: nat): Procs
    requires OneRunning(p)
    decreases m
  {
    if m == 0 then p
    else
      OneStaysRunning(p);
      Switches(Switch(p), m - 1)
  }

  /** Round robin is fair: a slot that can run is running after at most as many switches as it lies
      ahead of the running slot, so after at most 16. */
  lemma {:induction false} RunsWithinDistance(p: Procs, r: nat, j: nat) returns (m: nat)
    requires OnlyRunning(p, r) && j < SLOTS && CanRun(p[j])
    ensures OneRunning(p) && 1 <= m <= Distance(r, j) <= 16 && Switches(p, m)[j].state == Running
    decreases Distance(r, j)
  {
    hide Switch, Next, Demoted, Offset, FirstRunning, SomeReady;
    DemotedOnly(p, r);
    SwitchPicksNext(p, r);
    var n, q := Next(p), Switch(p);
    SwitchKeepsProcesses(p, j);
    DemotedOnly(q, n);
    if n == j {
      m := 1;
      assert Switches(q, 0) == q;
    } else {
      assert Distance(n, j) < Distance(r, j);
      var m' := RunsWithinDistance(q, n, j);
      m := m' + 1;
    }
  }
}
