/** Creating and destroying processes, and why the frame budget keeps every table in range. */
module Processes {
  import opened Words
  import opened Paging
  import opened ProcessTable
  import opened Scheduler
  import opened Counting

  const PAGE_FRAME_COUNT_MAX := 1024

  datatype Kernel = Kernel(procs: Procs, lastPid: nat, active: int, current: int, pages: Pages)

  /** Division rounding up, in 32-bit arithmetic. */
  function CeilDiv(numerator: u32, denominator: u32): u32
    requires denominator > 0
  {
    (numerator + denominator - 1) % TWO_32 / denominator
  }

  /** The frames asked for: the image and one more for the stack. */
  function FramesNeeded(size: u32): u32 {
    CeilDiv((size + PAGE_FRAME_SIZE) % TWO_32, PAGE_FRAME_SIZE)
  }

  /** The sizes in the 4 MiB below 2^32 - 2^22. */
  predicate Wraps(size: u32) {
    TWO_32 - 2 * PAGE_FRAME_SIZE < size <= TWO_32 - PAGE_FRAME_SIZE
  }

  /** For these sizes and no others the sum wraps to no frames at all. */
  lemma NoFramesNeeded(size: u32)
    ensures FramesNeeded(size) == 0 <==> Wraps(size)
  {
    var x := (size + 0x40_0000) % 0x1_0000_0000;
    var y := (x + 0x40_0000 - 1) % 0x1_0000_0000;
    assert FramesNeeded(size) == y / 0x40_0000;
    if size < 0x1_0000_0000 - 0x40_0000 {
      assert x == size + 0x40_0000;
    } else {
      assert x == size + 0x40_0000 - 0x1_0000_0000;
    }
  }

  /** The frame count of every size: image and stack rounded up to frames, 0 for the sizes that wrap, and
      1 for the last ones below 2^32. */
  lemma FramesExact(size: u32)
    ensures size <= 0xFF80_0000 ==>
              && (FramesNeeded(size) - 1) * 0x40_0000 < size + 0x40_0000
              && size + 0x40_0000 <= FramesNeeded(size) * 0x40_0000
    ensures 0xFF80_0000 < size <= 0xFFC0_0000 ==> FramesNeeded(size) == 0
    ensures 0xFFC0_0000 < size ==> FramesNeeded(size) == 1
  {
    NoFramesNeeded(size);
    var x := (size + 0x40_0000) % 0x1_0000_0000;
    var y := (x + 0x40_0000 - 1) % 0x1_0000_0000;
    assert FramesNeeded(size) == y / 0x40_0000;
    if size <= 0xFF80_0000 {
      assert y == size + 0x80_0000 - 1;
    } else if 0xFFC0_0000 < size {
      assert x == size - 0xFFC0_0000 && y == x + 0x40_0000 - 1;
    }
  }

  // ----- process identifiers

  predicate UsedPid(p: Procs, pid: nat) {
    exists i :: 0 <= i < PROCESS_COUNT_MAX && p[i].pid == pid && Alive(p[i])
  }

  ghost function Pids(p: Procs, n: nat): set<nat>
    requires n <= PROCESS_COUNT_MAX
  {
    set i | 0 <= i < n && Alive(p[i]) :: p[i].pid
  }

  lemma {:induction false} PidsCount(p: Procs, n: nat)
    requires n <= PROCESS_COUNT_MAX
    ensures |Pids(p, n)| <= n
  {
    if n > 0 {
      PidsCount(p, n - 1);
      assert Pids(p, n) == Pids(p, n - 1) + (if Alive(p[n - 1]) then {p[n - 1].pid} else {});
    } else {
      assert Pids(p, n) == {};
    }
  }

  /** Among any 257 candidates one is free: there are only 256 slots. */
  lemma FreePidExists(p: Procs, last: nat)
    ensures exists pid: nat :: last < pid <= last + 257 && !UsedPid(p, pid)
  {
    if forall pid: nat :: last < pid <= last + 257 ==> UsedPid(p, pid) {
      var candidates := Span(last + 1, last + 258);
      forall pid | pid in candidates
        ensures pid in Pids(p, PROCESS_COUNT_MAX)
      {
        assert UsedPid(p, pid);
      }
      SubsetCount(candidates, Pids(p, PROCESS_COUNT_MAX));
      PidsCount(p, PROCESS_COUNT_MAX);
    }
  }

  ghost predicate IsNextPid(p: Procs, last: nat, pid: nat) {
    last < pid && !UsedPid(p, pid) && forall q :: last < q < pid ==> UsedPid(p, q)
  }

  function FirstFreePid(p: Procs, from: nat, bound: nat): (pid: nat)
    requires from <= bound && !UsedPid(p, bound)
    ensures from <= pid <= bound && !UsedPid(p, pid)
    ensures forall q :: from <= q < pid ==> UsedPid(p, q)
    decreases bound - from
  {
    if !UsedPid(p, from) then from else FirstFreePid(p, from + 1, bound)
  }

  /** The smallest unused number above last; it is at most 257 away. */
  ghost function NextPid(p: Procs, last: nat): (pid: nat)
    ensures IsNextPid(p, last, pid) && pid <= last + 257
  {
    FreePidExists(p, last);
    var bound: nat :| last < bound <= last + 257 && !UsedPid(p, bound);
    FirstFreePid(p, last + 1, bound)
  }

  /** The first slot that holds no process, or the table size. */
  function InactiveIndex(p: Procs, i: nat): (r: nat)
    requires i <= PROCESS_COUNT_MAX
    ensures i <= r <= PROCESS_COUNT_MAX
    ensures r < PROCESS_COUNT_MAX ==> !Alive(p[r])
    ensures forall j :: i <= j < r ==> Alive(p[j])
    decreases PROCESS_COUNT_MAX - i
  {
    if i == PROCESS_COUNT_MAX then i else if !Alive(p[i]) then i else InactiveIndex(p, i + 1)
  }

  /** The slot a pid names, or the table size. */
  function SlotOf(p: Procs, pid: nat, i: nat): (r: nat)
    requires i <= PROCESS_COUNT_MAX
    ensures i <= r <= PROCESS_COUNT_MAX
    ensures r < PROCESS_COUNT_MAX ==> p[r].pid == pid && Alive(p[r])
    ensures forall j :: i <= j < r ==> !(p[j].pid == pid && Alive(p[j]))
    decreases PROCESS_COUNT_MAX - i
  {
    if i == PROCESS_COUNT_MAX then i
    else if p[i].pid == pid && Alive(p[i]) then i
    else SlotOf(p, pid, i + 1)
  }

  // ----- creation and destruction

  function Destroy(k: Kernel, pid: nat): Kernel {
    var i := SlotOf(k.procs, pid, 0);
    if i == PROCESS_COUNT_MAX then k
    else Kernel(k.procs[i := CLEARED], k.lastPid, k.active - 1, if k.current == i then -1 else k.current,
                FreeDirectory(k.pages, k.procs[i].directory))
  }

  /** 0 when all tests pass, else the return code of the first that fails. */
  function CreateTest(k: Kernel, q: Launch): int {
    if k.active >= PROCESS_COUNT_MAX then -1
    else if q.buf >= KERNEL_VIRTUAL_ADDRESS_BASE then -2
    else if FramesNeeded(q.size) > k.pages.free || FramesNeeded(q.size) > PAGE_FRAME_COUNT_MAX then -3
    else 0
  }

  /** The three tables can each take one more process. */
  predicate HasRoom(k: Kernel) {
    && InactiveIndex(k.procs, 0) < PROCESS_COUNT_MAX
    && NewDirectory(k.pages) != Null
    && 1 <= k.pages.free <= PAGE_FRAME_MAX_COUNT
  }

  const USER_CPU := Cpu(0, 0x3F_FFFC, 0x200, 0x1B, 0x23, 0x23, 0x23, 0x23, 0x23)

  /** The slot filled, its directory made and one frame mapped at buf, before the image is known to be there. */
  ghost function Prepared(k: Kernel, q: Launch): Kernel
    requires HasRoom(k)
  {
    var i, pid, d := InactiveIndex(k.procs, 0), NextPid(k.procs, k.lastPid), NewDirectory(k.pages);
    Kernel(k.procs[i := Pcb(pid, Ready, q.name, 1, k.procs[i].cpu, d, k.procs[i].request)], pid, k.active, k.current,
           AllocateFrame(CreateDirectory(k.pages), d, q.buf))
  }

  /** After the image has been read: registers and request set, counted, and slot 0 made to run. */
  ghost function Started(k: Kernel, q: Launch): Kernel
    requires HasRoom(k)
  {
    var i, p := InactiveIndex(k.procs, 0), Prepared(k, q);
    Kernel(WithState(p.procs[i := p.procs[i].(cpu := USER_CPU.(eip := p.procs[i].cpu.eip), request := q)], 0, Running),
           p.lastPid, p.active + 1, p.lastPid - 1, p.pages)
  }

  /** What a creation leaves: nothing when a test fails; a used-up frame and pid when the image cannot
      be read; otherwise a new process and a switch. */
  ghost function Create(k: Kernel, q: Launch, readCode: int): Kernel
    requires CreateTest(k, q) == 0 ==> HasRoom(k)
  {
    if CreateTest(k, q) != 0 then k
    else if readCode != 0 then Destroy(Prepared(k, q), Prepared(k, q).lastPid)
    else StartedAndSwitched(k, q)
  }

  ghost function StartedAndSwitched(k: Kernel, q: Launch): Kernel
    requires HasRoom(k)
  {
    var b := Started(k, q);
    ZeroIsReady(b.procs);
    Kernel(Switch(b.procs), b.lastPid, b.active, b.current, b.pages)
  }

  lemma ZeroIsReady(p: Procs)
    requires p[0].state == Running
    ensures SomeReady(Demoted(p))
  {
    assert Demoted(p)[0].state == Ready;
  }

  function CreateCode(k: Kernel, q: Launch, readCode: int): int {
    if CreateTest(k, q) != 0 then CreateTest(k, q) else if readCode != 0 then -4 else 0
  }

  // ----- counting slots

  ghost function Trues(u: Frames): set<nat> {
    set i: nat | i < DIRECTORY_MAX_COUNT && u[i]
  }

  ghost function AliveSlots(p: Procs): set<nat> {
    set i: nat | i < PROCESS_COUNT_MAX && Alive(p[i])
  }

  lemma TruesUpdate(u: Frames, i: nat, b: bool)
    requires i < DIRECTORY_MAX_COUNT
    ensures Trues(u[i := b]) == if b then Trues(u) + {i} else Trues(u) - {i}
  {
  }

  lemma AliveUpdate(p: Procs, i: nat, x: Pcb)
    requires i < PROCESS_COUNT_MAX
    ensures AliveSlots(p[i := x]) == if Alive(x) then AliveSlots(p) + {i} else AliveSlots(p) - {i}
  {
  }

  // ----- the budget

  /** Frames are handed out in order, one for every pid ever given out. */
  predicate FramesOk(k: Kernel) {
    && k.pages.free < PAGE_FRAME_MAX_COUNT
    && k.lastPid == PAGE_FRAME_MAX_COUNT - 1 - k.pages.free
    && forall j :: 0 <= j < PAGE_FRAME_MAX_COUNT ==> (k.pages.frames[j] <==> j < PAGE_FRAME_MAX_COUNT - k.pages.free)
  }

  /** A live process has a pid given out, and a directory in use that maps the kernel. */
  predicate ProcessOk(k: Kernel, p: Pcb) {
    && 1 <= p.pid <= k.lastPid
    && InPool(p.directory) && k.pages.used[p.directory.index]
    && k.pages.pool[p.directory.index][KERNEL_PAGE] == k.pages.kernel[KERNEL_PAGE]
  }

  ghost predicate ProcessesOk(k: Kernel) {
    && (forall i :: 0 <= i < PROCESS_COUNT_MAX && Alive(k.procs[i]) ==> ProcessOk(k, k.procs[i]))
    && (forall i, j :: 0 <= i < j < PROCESS_COUNT_MAX && Alive(k.procs[i]) && Alive(k.procs[j]) ==>
          k.procs[i].pid != k.procs[j].pid && k.procs[i].directory != k.procs[j].directory)
  }

  /** As many directories in use as live processes, and no more than pids given out. */
  ghost predicate CountsOk(k: Kernel) {
    |Trues(k.pages.used)| == |AliveSlots(k.procs)| <= k.lastPid && k.active <= |AliveSlots(k.procs)|
  }

  ghost predicate Budget(k: Kernel) {
    FramesOk(k) && ProcessesOk(k) && CountsOk(k)
  }

  lemma AllTrue(u: Frames)
    requires FirstUnused(u, 0) == DIRECTORY_MAX_COUNT
    ensures |Trues(u)| == DIRECTORY_MAX_COUNT
  {
    hide Span;
    assert Trues(u) == Span(0, DIRECTORY_MAX_COUNT);
  }

  lemma AllAlive(p: Procs)
    requires InactiveIndex(p, 0) == PROCESS_COUNT_MAX
    ensures |AliveSlots(p)| == PROCESS_COUNT_MAX
  {
    hide Span;
    assert AliveSlots(p) == Span(0, PROCESS_COUNT_MAX);
  }

  /** The frame budget alone keeps the slot search and the directory pool from running out: there is room
      exactly if a frame is free. */
  lemma RoomIff(k: Kernel)
    requires Budget(k)
    ensures HasRoom(k) <==> k.pages.free > 0
  {
    if FirstUnused(k.pages.used, 0) == DIRECTORY_MAX_COUNT { AllTrue(k.pages.used); }
    if InactiveIndex(k.procs, 0) == PROCESS_COUNT_MAX { AllAlive(k.procs); }
  }

  /** Exactly when creation passes its tests without room: no frame is left and the frame count wraps. */
  lemma UnderflowIff(k: Kernel, q: Launch)
    requires Budget(k)
    ensures CreateTest(k, q) == 0 && !HasRoom(k) <==>
            k.pages.free == 0 && Wraps(q.size) && q.buf < KERNEL_VIRTUAL_ADDRESS_BASE
  {
    RoomIff(k);
    NoFramesNeeded(q.size);
    NeverFull(k, q);
  }

  /** The table is never reported full. */
  lemma NeverFull(k: Kernel, q: Launch)
    requires Budget(k)
    ensures CreateTest(k, q) != -1
  {
  }

  /** The image and one frame for the stack fit into the free frames; sizes from 0xFF800001 on count as
      less than they are. */
  predicate Affordable(size: u32, free: nat) {
    if size <= 0xFF80_0000 then size + 0x40_0000 <= free * 0x40_0000
    else size <= 0xFFC0_0000 || free > 0
  }

  /** The return code of a creation in budget: -2 for an entry point in the kernel's half, else -3 when
      memory is short, else -4 when the image cannot be read, else 0. */
  lemma CreateCodeIs(k: Kernel, q: Launch, readCode: int)
    requires Budget(k)
    ensures CreateCode(k, q, readCode) ==
            if q.buf >= 0xC000_0000 then -2
            else if !Affordable(q.size, k.pages.free) then -3
            else if readCode != 0 then -4 else 0
  {
    NeverFull(k, q);
    hide ProcessesOk, CountsOk, FramesNeeded;
    FramesExact(q.size);
    if q.size <= 0xFF80_0000 { FrameProduct(FramesNeeded(q.size), k.pages.free, q.size + 0x40_0000); }
  }

  lemma FrameProduct(n: nat, free: nat, bytes: nat)
    requires (n - 1) * 0x40_0000 < bytes <= n * 0x40_0000
    ensures n <= free <==> bytes <= free * 0x40_0000
  {
  }

  lemma NextIsNew(k: Kernel)
    requires Budget(k)
    ensures NextPid(k.procs, k.lastPid) == k.lastPid + 1
  {
    assert IsNextPid(k.procs, k.lastPid, NextPid(k.procs, k.lastPid));
    assert !UsedPid(k.procs, k.lastPid + 1);
  }

  lemma PreparedCounts(k: Kernel, q: Launch)
    requires Budget(k) && HasRoom(k)
    ensures CountsOk(Prepared(k, q)) && k.active + 1 <= |AliveSlots(Prepared(k, q).procs)|
  {
    hide ProcessesOk, AllocateFrame;
    NextIsNew(k);
    var i, b, d := InactiveIndex(k.procs, 0), Prepared(k, q), FirstUnused(k.pages.used, 0);
    AliveUpdate(k.procs, i, b.procs[i]);
    TruesUpdate(k.pages.used, d, true);
    AllocateKeepsUsed(CreateDirectory(k.pages), NewDirectory(k.pages), q.buf);
    assert i !in AliveSlots(k.procs) && d !in Trues(k.pages.used);
  }

  lemma AllocateKeepsUsed(p: Pages, to: Pointer, virtualAddress: u32)
    requires 1 <= p.free <= PAGE_FRAME_MAX_COUNT && InPool(to)
    ensures AllocateFrame(p, to, virtualAddress).used == p.used
  {
  }

  lemma PreparedProcesses(k: Kernel, q: Launch)
    requires Budget(k) && HasRoom(k) && q.buf < KERNEL_VIRTUAL_ADDRESS_BASE
    ensures ProcessesOk(Prepared(k, q))
  {
    hide CountsOk, AllocateFrame, CreateDirectory;
    NextIsNew(k);
    PreparedDirectories(k, q);
    var i, b := InactiveIndex(k.procs, 0), Prepared(k, q);
    forall j | 0 <= j < PROCESS_COUNT_MAX && Alive(b.procs[j])
      ensures ProcessOk(b, b.procs[j])
      ensures j != i ==> b.procs[j].pid != b.procs[i].pid && b.procs[j].directory != b.procs[i].directory
    {
      if j != i { assert ProcessOk(k, k.procs[j]); }
    }
  }

  /** The new directory maps the kernel; directories in use keep their tables and stay in use. */
  lemma PreparedDirectories(k: Kernel, q: Launch)
    requires HasRoom(k) && q.buf < KERNEL_VIRTUAL_ADDRESS_BASE
    ensures var d, b := FirstUnused(k.pages.used, 0), Prepared(k, q);
      && b.pages.used == k.pages.used[d := true] && b.pages.kernel == k.pages.kernel
      && b.pages.pool[d][KERNEL_PAGE] == k.pages.kernel[KERNEL_PAGE]
      && forall e :: 0 <= e < DIRECTORY_MAX_COUNT && e != d ==> b.pages.pool[e] == k.pages.pool[e]
  {
  }

  lemma PreparedKeeps(k: Kernel, q: Launch)
    requires Budget(k) && HasRoom(k) && q.buf < KERNEL_VIRTUAL_ADDRESS_BASE
    ensures Budget(Prepared(k, q)) && k.active + 1 <= |AliveSlots(Prepared(k, q).procs)|
    ensures Prepared(k, q).lastPid == k.lastPid + 1
  {
    hide ProcessesOk, CountsOk;
    NextIsNew(k);
    PreparedCounts(k, q);
    PreparedProcesses(k, q);
  }

  /** Destroying keeps the budget. */
  lemma DestroyKeeps(k: Kernel, pid: nat)
    requires Budget(k)
    ensures Budget(Destroy(k, pid))
  {
    var i := SlotOf(k.procs, pid, 0);
    if i < PROCESS_COUNT_MAX {
      assert ProcessOk(k, k.procs[i]);
      AliveUpdate(k.procs, i, CLEARED);
      TruesUpdate(k.pages.used, k.procs[i].directory.index, false);
    }
  }

  /** Destroying removes the one process with that pid, if there is one, and touches no other. */
  lemma DestroyRemovesOne(k: Kernel, pid: nat)
    requires Budget(k)
    ensures !UsedPid(Destroy(k, pid).procs, pid)
    ensures forall i :: 0 <= i < PROCESS_COUNT_MAX && !(Alive(k.procs[i]) && k.procs[i].pid == pid) ==>
              Destroy(k, pid).procs[i] == k.procs[i]
    ensures UsedPid(k.procs, pid) <==> |AliveSlots(Destroy(k, pid).procs)| == |AliveSlots(k.procs)| - 1
  {
    hide FramesOk, CountsOk, FreeDirectory;
    var i := SlotOf(k.procs, pid, 0);
    if i < PROCESS_COUNT_MAX {
      AliveUpdate(k.procs, i, CLEARED);
      assert ProcessOk(k, k.procs[i]) && i in AliveSlots(k.procs);
    }
  }

  /** The page directories of the processes that stay are not touched. */
  lemma DestroyKeepsDirectories(k: Kernel, pid: nat, j: nat)
    requires Budget(k) && j < PROCESS_COUNT_MAX && Alive(Destroy(k, pid).procs[j])
    ensures var d := k.procs[j].directory; InPool(d) && Destroy(k, pid).pages.pool[d.index] == k.pages.pool[d.index]
  {
    var i := SlotOf(k.procs, pid, 0);
    assert ProcessOk(k, k.procs[j]);
    if i < PROCESS_COUNT_MAX { assert ProcessOk(k, k.procs[i]); }
  }

  // ----- every step and every run

  /** Changing only which live processes run keeps the budget. */
  lemma StatesDoNotMatter(k: Kernel, p: Procs, active: int, current: int)
    requires FramesOk(k) && ProcessesOk(k) && |Trues(k.pages.used)| == |AliveSlots(k.procs)| <= k.lastPid
    requires active <= |AliveSlots(k.procs)|
    requires forall i :: 0 <= i < PROCESS_COUNT_MAX ==>
               (Alive(p[i]) <==> Alive(k.procs[i])) && p[i].pid == k.procs[i].pid && p[i].directory == k.procs[i].directory
    ensures Budget(Kernel(p, k.lastPid, active, current, k.pages))
  {
    assert AliveSlots(p) == AliveSlots(k.procs);
    forall i | 0 <= i < PROCESS_COUNT_MAX && Alive(p[i])
      ensures ProcessOk(Kernel(p, k.lastPid, active, current, k.pages), p[i])
    {
      assert ProcessOk(k, k.procs[i]);
    }
  }

  /** After a creation slot 0 is taken, because the search for a slot starts there. */
  lemma ZeroIsAlive(k: Kernel, q: Launch)
    requires HasRoom(k)
    ensures Alive(Prepared(k, q).procs[0])
  {
  }

  /** Creating keeps the budget, whether or not the tests pass and the image can be read. */
  lemma CreateKeeps(k: Kernel, q: Launch, readCode: int)
    requires Budget(k) && (CreateTest(k, q) == 0 ==> HasRoom(k))
    ensures Budget(Create(k, q, readCode))
  {
    hide FramesOk, ProcessesOk, CountsOk, HasRoom;
    if CreateTest(k, q) == 0 {
      PreparedKeeps(k, q);
      if readCode != 0 {
        DestroyKeeps(Prepared(k, q), Prepared(k, q).lastPid);
      } else {
        StartKeeps(k, q);
      }
    }
  }

  lemma StartedRows(k: Kernel, q: Launch)
    requires HasRoom(k)
    ensures var a, b := Prepared(k, q), Started(k, q);
      && b.procs[0].state == Running && b.pages == a.pages && b.lastPid == a.lastPid && b.active == a.active + 1
      && a.active == k.active
      && forall i :: 0 <= i < PROCESS_COUNT_MAX ==>
           (Alive(b.procs[i]) <==> Alive(a.procs[i]))
           && b.procs[i].pid == a.procs[i].pid && b.procs[i].directory == a.procs[i].directory
  {
    ZeroIsAlive(k, q);
  }

  lemma StartKeeps(k: Kernel, q: Launch)
    requires HasRoom(k) && Budget(Prepared(k, q))
    requires k.active + 1 <= |AliveSlots(Prepared(k, q).procs)|
    ensures Budget(StartedAndSwitched(k, q))
  {
    hide FramesOk, ProcessesOk, HasRoom, Switch, Demoted, Prepared, Started;
    var a, b := Prepared(k, q), Started(k, q);
    StartedRows(k, q);
    ZeroIsReady(b.procs);
    forall i | 0 <= i < PROCESS_COUNT_MAX
      ensures Alive(Switch(b.procs)[i]) <==> Alive(a.procs[i])
      ensures Switch(b.procs)[i].pid == a.procs[i].pid && Switch(b.procs)[i].directory == a.procs[i].directory
    {
      SwitchKeepsProcesses(b.procs, i);
    }
    StatesDoNotMatter(a, Switch(b.procs), b.active, b.current);
  }

  /** A switch keeps the budget. */
  lemma SwitchKeeps(k: Kernel)
    requires Budget(k) && SomeReady(Demoted(k.procs))
    ensures Budget(k.(procs := Switch(k.procs)))
  {
    hide FramesOk, ProcessesOk, Switch, Demoted;
    forall i | 0 <= i < PROCESS_COUNT_MAX
      ensures Alive(Switch(k.procs)[i]) <==> Alive(k.procs[i])
      ensures Switch(k.procs)[i].pid == k.procs[i].pid && Switch(k.procs)[i].directory == k.procs[i].directory
    {
      SwitchKeepsProcesses(k.procs, i);
    }
    StatesDoNotMatter(k, Switch(k.procs), k.active, k.current);
  }

  /** The tables after kernel_setup has mapped the first frame for the kernel itself. */
  function Boot(): Kernel {
    Kernel(seq<Pcb>(PROCESS_COUNT_MAX, _ => CLEARED), 0, 0, -1, AllocateFrame(BootPages(), KernelDirectory, 0))
  }

  lemma BootIsInBudget()
    ensures Budget(Boot())
  {
    assert Trues(BootPages().used) == {};
    assert AliveSlots(Boot().procs) == {};
  }

  datatype Event = CreateEvent(q: Launch, readCode: int) | DestroyEvent(pid: nat) | SwitchEvent

  lemma BootHasRoom()
    ensures HasRoom(Boot())
  {
    BootIsInBudget();
    RoomIff(Boot());
  }

  /** After the first creation slot 0, and no other, is running. */
  lemma FirstProcessRuns(q: Launch)
    requires CreateTest(Boot(), q) == 0
    ensures HasRoom(Boot()) && OnlyRunning(Create(Boot(), q, 0).procs, 0)
  {
    BootHasRoom();
    hide AllocateFrame, CreateDirectory;
    var b := Started(Boot(), q);
    ZeroIsReady(b.procs);
    assert OnlyRunning(b.procs, 0);
    SwitchPicksNext(b.procs, 0);
  }

  /** Starting the scheduler makes slot 0 run, whatever it holds: the budget is kept exactly if slot 0 holds
      a process. */
  lemma StartKeepsIff(k: Kernel)
    requires Budget(k)
    ensures Budget(k.(procs := WithState(k.procs, 0, Running))) <==> Alive(k.procs[0])
  {
    var p := WithState(k.procs, 0, Running);
    AliveUpdate(k.procs, 0, p[0]);
    if Alive(k.procs[0]) {
      StatesDoNotMatter(k, p, k.active, k.current);
    } else {
      assert 0 !in AliveSlots(k.procs);
    }
  }

  /** When the first creation fails, kernel_setup starts the scheduler on an empty slot. */
  lemma StartAfterFailure(q: Launch, readCode: int)
    requires CreateCode(Boot(), q, readCode) != 0
    ensures HasRoom(Boot())
    ensures var k := Create(Boot(), q, readCode); Budget(k) && !Budget(k.(procs := WithState(k.procs, 0, Running)))
  {
    BootIsInBudget();
    BootHasRoom();
    CreateKeeps(Boot(), q, readCode);
    StartKeepsIff(Create(Boot(), q, readCode));
    if CreateTest(Boot(), q) == 0 { FailedReadLosesFrame(Boot(), q, readCode); }
  }

  /** When the image cannot be read, a frame and a pid are used up, the count of processes drops, and
      nothing else is left of the process. */
  lemma FailedReadLosesFrame(k: Kernel, q: Launch, readCode: int)
    requires Budget(k) && HasRoom(k) && CreateTest(k, q) == 0 && readCode != 0
    ensures var k' := Create(k, q, readCode);
      && k'.pages.free == k.pages.free - 1 && k'.lastPid == k.lastPid + 1 && k'.active == k.active - 1
      && k'.current == (if k.current == InactiveIndex(k.procs, 0) then -1 else k.current)
      && k'.pages.used == k.pages.used
      && forall i :: 0 <= i < PROCESS_COUNT_MAX ==>
           (Alive(k'.procs[i]) <==> Alive(k.procs[i])) && (Alive(k.procs[i]) ==> k'.procs[i] == k.procs[i])
  {
    hide Budget, Prepared, HasRoom, SlotOf;
    PreparedKeeps(k, q);
    PreparedSlot(k, q);
    PreparedFields(k, q);
    Emptied(Prepared(k, q), k.lastPid + 1, InactiveIndex(k.procs, 0), FirstUnused(k.pages.used, 0));
    assert k.pages.used[FirstUnused(k.pages.used, 0) := true][FirstUnused(k.pages.used, 0) := false] == k.pages.used;
  }

  lemma PreparedFields(k: Kernel, q: Launch)
    requires HasRoom(k)
    ensures var b, i, d := Prepared(k, q), InactiveIndex(k.procs, 0), FirstUnused(k.pages.used, 0);
      && i < PROCESS_COUNT_MAX && d < DIRECTORY_MAX_COUNT && !Alive(k.procs[i]) && !k.pages.used[d]
      && b.procs == k.procs[i := b.procs[i]] && b.procs[i].directory == Pooled(d) && b.active == k.active
      && b.current == k.current
      && b.pages.used == k.pages.used[d := true] && b.pages.free == k.pages.free - 1
  {
  }

  lemma Emptied(b: Kernel, pid: nat, i: nat, d: nat)
    requires i < PROCESS_COUNT_MAX && d < DIRECTORY_MAX_COUNT && SlotOf(b.procs, pid, 0) == i
    requires b.procs[i].directory == Pooled(d)
    ensures var a := Destroy(b, pid);
      && a.procs == b.procs[i := CLEARED] && a.lastPid == b.lastPid && a.active == b.active - 1
      && a.current == (if b.current == i then -1 else b.current)
      && a.pages.used == b.pages.used[d := false] && a.pages.free == b.pages.free
  {
  }

  lemma PreparedSlot(k: Kernel, q: Launch)
    requires Budget(k) && HasRoom(k) && Budget(Prepared(k, q)) && Prepared(k, q).lastPid == k.lastPid + 1
    ensures SlotOf(Prepared(k, q).procs, k.lastPid + 1, 0) == InactiveIndex(k.procs, 0)
  {
    hide AllocateFrame, CreateDirectory, FramesOk, CountsOk;
    var b, i := Prepared(k, q), InactiveIndex(k.procs, 0);
    assert b.procs[i].pid == k.lastPid + 1 && Alive(b.procs[i]);
    forall j | 0 <= j < PROCESS_COUNT_MAX && j != i && Alive(b.procs[j])
      ensures b.procs[j].pid != k.lastPid + 1
    {
      assert ProcessOk(k, k.procs[j]);
    }
  }

  /** The calls the tables can take: all but a creation that passes its tests without room. */
  predicate EventAsked(k: Kernel, e: Event) {
    e.CreateEvent? ==> !(k.pages.free == 0 && Wraps(e.q.size) && e.q.buf < KERNEL_VIRTUAL_ADDRESS_BASE)
  }

  ghost function After(k: Kernel, e: Event): (k': Kernel)
    requires Budget(k) && EventAsked(k, e)
    ensures Budget(k')
  {
    match e
    case CreateEvent(q, readCode) => UnderflowIff(k, q); CreateKeeps(k, q, readCode); Create(k, q, readCode)
    case DestroyEvent(pid) => DestroyKeeps(k, pid); Destroy(k, pid)
    case SwitchEvent =>
      // Without a READY slot the search never ends, so nothing more happens.
      if SomeReady(Demoted(k.procs)) then SwitchKeeps(k); k.(procs := Switch(k.procs)) else k
  }

  ghost predicate AllAsked(k: Kernel, events: seq<Event>)
    requires Budget(k)
    decreases |events|
  {
    events == [] || (EventAsked(k, events[0]) && AllAsked(After(k, events[0]), events[1..]))
  }

  ghost function RunFrom(k: Kernel, events: seq<Event>): (k': Kernel)
    requires Budget(k) && AllAsked(k, events)
    ensures Budget(k')
    decreases |events|
  {
    if events == [] then k else RunFrom(After(k, events[0]), events[1..])
  }

  /** In every run from boot: fewer than 32 pids are ever given out, frames are used up in order, live
      processes have different pids and different directories, each mapping the kernel, no directory
      leaks, and a creation whose tests pass finds room in every table unless no frame is left and its
      size wraps. */
  lemma RunsStayInBudget(events: seq<Event>, q: Launch)
    requires Budget(Boot()) ==> AllAsked(Boot(), events)
    ensures Budget(Boot())
    ensures var k := RunFrom(Boot(), events);
      && k.lastPid + k.pages.free == PAGE_FRAME_MAX_COUNT - 1
      && FramesOk(k) && ProcessesOk(k) && CountsOk(k)
      && CreateTest(k, q) != -1
      && (CreateTest(k, q) == 0 ==> (HasRoom(k) <==> !(k.pages.free == 0 && Wraps(q.size))))
  {
    BootIsInBudget();
    var k := RunFrom(Boot(), events);
    NeverFull(k, q);
    UnderflowIff(k, q);
  }

  // ----- running out of frames

  const EMPTY_LAUNCH := Launch(0, "", 0)

  function Failures(n: nat): seq<Event> {
    seq(n, _ => CreateEvent(EMPTY_LAUNCH, 1))
  }

  /** n creations whose image cannot be read use up n frames. */
  lemma {:induction false} FailuresUseFrames(k: Kernel, n: nat)
    requires Budget(k) && n <= k.pages.free
    ensures AllAsked(k, Failures(n)) && RunFrom(k, Failures(n)).pages.free == k.pages.free - n
    decreases n
  {
    hide Budget, Create, HasRoom, CreateTest;
    if n > 0 {
      var e := CreateEvent(EMPTY_LAUNCH, 1);
      assert Failures(n)[0] == e && Failures(n)[1..] == Failures(n - 1);
      EmptyLaunchPasses(k);
      FailedReadLosesFrame(k, EMPTY_LAUNCH, 1);
      FailuresUseFrames(After(k, e), n - 1);
    }
  }

  lemma EmptyLaunchPasses(k: Kernel)
    requires Budget(k) && k.pages.free > 0
    ensures CreateTest(k, EMPTY_LAUNCH) == 0 && HasRoom(k) && EventAsked(k, CreateEvent(EMPTY_LAUNCH, 1))
  {
    NeverFull(k, EMPTY_LAUNCH);
    RoomIff(k);
  }

  /** Thirty-one failed creations after boot, then one of a wrapping size: its tests pass, and no frame is
      left to mark. */
  lemma UnderflowExample()
    ensures Budget(Boot()) && AllAsked(Boot(), Failures(31))
    ensures var k := RunFrom(Boot(), Failures(31));
      k.pages.free == 0 && CreateTest(k, Launch(0, "", 0xFF80_0001)) == 0 && !HasRoom(k)
  {
    BootIsInBudget();
    FailuresUseFrames(Boot(), 31);
    UnderflowIff(RunFrom(Boot(), Failures(31)), Launch(0, "", 0xFF80_0001));
  }
}
