/** The process manager in place: the search loops, and creation and destruction step by step. */
module ProcessManager {
  import opened Words
  import opened Paging
  import opened ProcessTable
  import opened Scheduler
  import opened Processes

  class Manager {
    const procs: array<Pcb>
    const pages: PageManager
    var lastPid: nat
    var active: int
    var current: int

    ghost predicate Valid() {
      && procs.Length == PROCESS_COUNT_MAX && pages.Valid()
      && procs as object != pages.frameMap && procs as object != pages.used && procs as object != pages.pool
    }

    ghost function State(): Kernel
      requires Valid()
      reads this, procs, pages, pages.frameMap, pages.pool, pages.used
    {
      Kernel(procs[..], lastPid, active, current, pages.State())
    }

    /** Tables as kernel_setup leaves them. */
    constructor ()
      ensures Valid() && fresh(procs) && fresh(pages) && State() == Boot()
    {
      procs := new Pcb[PROCESS_COUNT_MAX](_ => CLEARED);
      pages := new PageManager();
      lastPid, active, current := 0, 0, -1;
      new;
      var ok, left := pages.AllocateUserFrame(KernelDirectory, 0);
    }

    method ListInactiveIndex() returns (i: int)
      requires Valid()
      ensures i == if InactiveIndex(procs[..], 0) < PROCESS_COUNT_MAX then InactiveIndex(procs[..], 0) else -1
    {
      var n := 0;
      while n < PROCESS_COUNT_MAX
        invariant n <= PROCESS_COUNT_MAX && InactiveIndex(procs[..], 0) == InactiveIndex(procs[..], n)
      {
        if procs[n].state == Terminated {
          return n;
        }
        n := n + 1;
      }
      return -1;
    }

    /** The retry loop: it ends after at most 257 candidates with a pid no live process has. */
    method GenerateNewPid() returns (pid: nat)
      requires Valid()
      modifies this`lastPid
      ensures pid == lastPid == NextPid(procs[..], old(lastPid)) && 0 < pid <= old(lastPid) + 257
    {
      ghost var p, last, goal := procs[..], lastPid, NextPid(procs[..], lastPid);
      pid := 0;
      while pid == 0
        invariant last <= lastPid <= goal
        invariant pid == 0 ==> lastPid < goal && forall q :: last < q <= lastPid ==> UsedPid(p, q)
        invariant pid != 0 ==> pid == lastPid == goal
        decreases goal - lastPid, pid == 0
      {
        lastPid := lastPid + 1;
        pid := lastPid;
        var i := 0;
        while i < PROCESS_COUNT_MAX && pid != 0
          invariant i <= PROCESS_COUNT_MAX
          invariant pid != 0 ==> pid == lastPid && forall j :: 0 <= j < i ==> !(p[j].pid == lastPid && Alive(p[j]))
          invariant pid == 0 ==> UsedPid(p, lastPid)
          decreases PROCESS_COUNT_MAX - i, pid
        {
          if procs[i].pid == pid && procs[i].state != Terminated {
            pid := 0;
          } else {
            i := i + 1;
          }
        }
        assert pid != 0 ==> !UsedPid(p, lastPid);
      }
    }

    method FindSlot(pid: nat) returns (i: nat)
      requires Valid()
      ensures i == SlotOf(procs[..], pid, 0)
    {
      i := 0;
      while i < PROCESS_COUNT_MAX && !(procs[i].pid == pid && procs[i].state != Terminated)
        invariant i <= PROCESS_COUNT_MAX && SlotOf(procs[..], pid, 0) == SlotOf(procs[..], pid, i)
      {
        i := i + 1;
      }
    }

    method DestroyProcess(pid: nat) returns (code: int)
      requires Valid()
      modifies this`active, this`current, procs, pages.pool, pages.used
      ensures State() == Destroy(old(State()), pid)
      ensures code == if old(UsedPid(procs[..], pid)) then 0 else 1
    {
      hide FreeDirectory, UsedPid;
      UsedIffSlot(procs[..], pid);
      var i := FindSlot(pid);
      if i == PROCESS_COUNT_MAX {
        return 1;
      }
      var freed := pages.FreeDirectoryAt(procs[i].directory);
      procs[i] := CLEARED;
      active := active - 1;
      if current == i {
        current := -1;
      }
      return 0;
    }

    /** readCode is what the file system returned for the image.  left: the tests pass although some table
        has no room, and the source goes on outside it; here the call stops. */
    method CreateUserProcess(q: Launch, readCode: int) returns (code: int, left: bool)
      requires Valid()
      modifies this, procs, pages, pages.frameMap, pages.pool, pages.used
      ensures left <==> old(CreateTest(State(), q) == 0 && !HasRoom(State()))
      ensures !left ==> State() == Create(old(State()), q, readCode) && code == CreateCode(old(State()), q, readCode)
    {
      ghost var k := State();
      if active >= PROCESS_COUNT_MAX {
        return -1, false;
      }
      if q.buf >= KERNEL_VIRTUAL_ADDRESS_BASE {
        return -2, false;
      }
      var needed := CeilDiv((q.size + PAGE_FRAME_SIZE) % TWO_32, PAGE_FRAME_SIZE);
      if !(needed <= pages.freeCount) || needed > PAGE_FRAME_COUNT_MAX {
        return -3, false;
      }
      var i;
      i, left := Prepare(q);
      if left {
        return 0, true;
      }
      if readCode != 0 {
        PidInUse(k, q);
        var destroyed := DestroyProcess(lastPid);
        // 0 stands for a destroyed process and is taken as failure here, so the frame is never given back.
        assert destroyed == 0;
        return -4, false;
      }
      Start(k, q, i);
      return 0, false;
    }

    method Prepare(q: Launch) returns (i: int, left: bool)
      requires Valid()
      modifies this, procs, pages, pages.frameMap, pages.pool, pages.used
      ensures left <==> !old(HasRoom(State()))
      ensures !left ==> State() == Prepared(old(State()), q) && i == InactiveIndex(old(procs[..]), 0)
    {
      i := ListInactiveIndex();
      if i == -1 {
        return i, true;
      }
      var pid := GenerateNewPid();
      procs[i] := procs[i].(pid := pid, state := Ready);
      procs[i] := procs[i].(name := q.name, priority := 1);
      var d := pages.CreateNewDirectory();
      procs[i] := procs[i].(directory := d);
      var ok;
      ok, left := pages.AllocateUserFrame(d, q.buf);
    }

    method Start(ghost k: Kernel, q: Launch, i: nat)
      requires Valid() && HasRoom(k) && State() == Prepared(k, q) && i == InactiveIndex(k.procs, 0)
      modifies this, procs
      ensures Valid() && State() == StartedAndSwitched(k, q)
    {
      procs[i] := procs[i].(cpu := USER_CPU.(eip := procs[i].cpu.eip));
      procs[i] := procs[i].(request := q);
      active := active + 1;
      current := lastPid - 1;
      procs[0] := procs[0].(state := Running);
      assert procs[..] == Started(k, q).procs;
      ZeroIsReady(procs[..]);
      var next := SwitchToNextProcess(procs);
    }
  }

  lemma UsedIffSlot(p: Procs, pid: nat)
    ensures UsedPid(p, pid) <==> SlotOf(p, pid, 0) < PROCESS_COUNT_MAX
  {
  }

  lemma PidInUse(k: Kernel, q: Launch)
    requires HasRoom(k)
    ensures UsedPid(Prepared(k, q).procs, Prepared(k, q).lastPid)
  {
    assert Prepared(k, q).procs[InactiveIndex(k.procs, 0)].pid == Prepared(k, q).lastPid;
  }
}
