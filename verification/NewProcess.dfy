/** What a creation and a destruction leave of one process: its slot, its page directory, its counters. */
module NewProcess {
  import opened Words
  import opened Paging
  import opened ProcessTable
  import opened Scheduler
  import opened Processes

  // ----- pages

  /** One page of d, the one at 4 MiB times e, is a writable user page on physical frame 0; all else of d
      is as it was. */
  predicate MapsPage(d: Directory, d': Directory, e: nat)
    requires e < PAGE_ENTRY_COUNT
  {
    && d'[e].flag.present && d'[e].flag.readWrite && d'[e].flag.userSupervisor && d'[e].flag.pageSize
    && d'[e].lowerAddress == 0
    && forall j :: 0 <= j < PAGE_ENTRY_COUNT && j != e ==> d'[j] == d[j]
  }

  /** Allocating a frame maps one page in the directory named, and in no other.  The counter that stands for
      the physical address is below 4 MiB, so the page is always on frame 0. */
  lemma AllocationMaps(p: Pages, to: Pointer, virtualAddress: u32)
    requires 1 <= p.free <= PAGE_FRAME_MAX_COUNT
    requires to.KernelDirectory? || InPool(to)
    ensures virtualAddress / 0x40_0000 < PAGE_ENTRY_COUNT
    ensures var a, e := AllocateFrame(p, to, virtualAddress), virtualAddress / 0x40_0000;
      && (if to.KernelDirectory? then MapsPage(p.kernel, a.kernel, e) && a.pool == p.pool
          else MapsPage(p.pool[to.index], a.pool[to.index], e) && a.kernel == p.kernel
               && forall i :: 0 <= i < DIRECTORY_MAX_COUNT && i != to.index ==> a.pool[i] == p.pool[i])
      && a.used == p.used && a.free == p.free - 1
      && a.frames[32 - p.free] && forall j :: 0 <= j < 32 && j != 32 - p.free ==> a.frames[j] == p.frames[j]
  {
    assert virtualAddress / 0x40_0000 % 0x400 == virtualAddress / 0x40_0000;
    assert p.free / 0x40_0000 % 0x400 == 0;
  }

  /** A supervisor page on frame 0. */
  predicate KernelPage(e: Entry) {
    e.flag.present && e.flag.readWrite && !e.flag.userSupervisor && e.flag.pageSize && e.lowerAddress == 0
  }

  lemma FreshEntries(kernel: Directory, j: nat)
    requires j < PAGE_ENTRY_COUNT
    ensures j == 0 ==> KernelPage(FreshDirectory(kernel)[j])
    ensures j == 0x300 ==> FreshDirectory(kernel)[j] == kernel[j]
    ensures j != 0 && j != 0x300 ==> !FreshDirectory(kernel)[j].flag.present
  {
  }

  /** The tables at boot: the kernel's own page at 0 is a user page, at 3 GiB a supervisor page, and nothing
      else is mapped. */
  lemma BootDirectory()
    ensures var d := Boot().pages.kernel;
      && d[0].flag.present && d[0].flag.readWrite && d[0].flag.userSupervisor && d[0].flag.pageSize
      && KernelPage(d[0x300])
      && forall j :: 1 <= j < PAGE_ENTRY_COUNT && j != 0x300 ==> !d[j].flag.present
  {
    AllocationMaps(BootPages(), KernelDirectory, 0);
    hide AllocateFrame;
  }

  /** The counters at boot, and the slots, all empty. */
  lemma BootCounters()
    ensures Boot().lastPid == 0 && Boot().active == 0 && Boot().current == -1 && Boot().pages.free == 31
    ensures forall i :: 0 <= i < PROCESS_COUNT_MAX ==> !Alive(Boot().procs[i])
    ensures forall i :: 0 <= i < DIRECTORY_MAX_COUNT ==> !Boot().pages.used[i]
    ensures forall j :: 0 <= j < PAGE_FRAME_MAX_COUNT ==> (Boot().pages.frames[j] <==> j == 0)
  {
    AllocationMaps(BootPages(), KernelDirectory, 0);
    hide AllocateFrame;
  }

  // ----- creation

  lemma PreparedPages(k: Kernel, q: Launch)
    requires HasRoom(k)
    ensures var d := FirstUnused(k.pages.used, 0);
      && d < DIRECTORY_MAX_COUNT && !k.pages.used[d]
      && Prepared(k, q).procs[InactiveIndex(k.procs, 0)].directory == Pooled(d)
      && Prepared(k, q).pages == AllocateFrame(CreateDirectory(k.pages), Pooled(d), q.buf)
      && CreateDirectory(k.pages).pool == k.pages.pool[d := FreshDirectory(k.pages.kernel)]
      && CreateDirectory(k.pages).kernel == k.pages.kernel && CreateDirectory(k.pages).free == k.pages.free
  {
    hide AllocateFrame;
  }

  lemma StartedPages(k: Kernel, q: Launch)
    requires HasRoom(k) && CreateTest(k, q) == 0
    ensures Create(k, q, 0).pages == Prepared(k, q).pages
  {
    hide Prepared, Switch, Demoted;
  }

  /** A created process has a directory of its own, unused before, that maps its image at buf as one writable
      user page, the kernel at 3 GiB, the supervisor page at 0 unless the image is there, and nothing else.
      All other directories are as they were. */
  lemma ImageIsMapped(k: Kernel, q: Launch)
    requires HasRoom(k) && CreateTest(k, q) == 0
    ensures q.buf / 0x40_0000 < 0x300
    ensures var d, k', e := FirstUnused(k.pages.used, 0), Create(k, q, 0), q.buf / 0x40_0000;
      && d < DIRECTORY_MAX_COUNT && !k.pages.used[d]
      && (forall i :: 0 <= i < DIRECTORY_MAX_COUNT && i != d ==> k'.pages.pool[i] == k.pages.pool[i])
      && k'.pages.kernel == k.pages.kernel
      && var t := k'.pages.pool[d];
         && t[e].flag.present && t[e].flag.readWrite && t[e].flag.userSupervisor && t[e].flag.pageSize
         && t[e].lowerAddress == 0
         && t[0x300] == k.pages.kernel[0x300]
         && (e != 0 ==> KernelPage(t[0]))
         && forall j :: 1 <= j < PAGE_ENTRY_COUNT && j != 0x300 && j != e ==> !t[j].flag.present
  {
    hide AllocateFrame, CreateDirectory, Create, Prepared, HasRoom, FreshDirectory;
    EntryPoint(k, q);
    PreparedPages(k, q);
    StartedPages(k, q);
    var d := FirstUnused(k.pages.used, 0);
    FreeInRange(k);
    AllocationMaps(CreateDirectory(k.pages), Pooled(d), q.buf);
    forall j | 0 <= j < PAGE_ENTRY_COUNT
      ensures j == 0 ==> KernelPage(FreshDirectory(k.pages.kernel)[j])
      ensures j == 0x300 ==> FreshDirectory(k.pages.kernel)[j] == k.pages.kernel[j]
      ensures j != 0 && j != 0x300 ==> !FreshDirectory(k.pages.kernel)[j].flag.present
    {
      FreshEntries(k.pages.kernel, j);
    }
  }

  lemma EntryPoint(k: Kernel, q: Launch)
    requires CreateTest(k, q) == 0
    ensures q.buf / 0x40_0000 < 0x300
  {
  }

  lemma FreeInRange(k: Kernel)
    requires HasRoom(k)
    ensures 1 <= k.pages.free <= PAGE_FRAME_MAX_COUNT
  {
  }

  /** The slot of a created process: the first empty one, with a pid no live process had, and everything set
      that the process is started from.  All other slots keep all but their state. */
  lemma SlotIsFilled(k: Kernel, q: Launch)
    requires HasRoom(k) && CreateTest(k, q) == 0
    ensures var i, k' := InactiveIndex(k.procs, 0), Create(k, q, 0);
      && i < PROCESS_COUNT_MAX && !Alive(k.procs[i]) && (forall j :: 0 <= j < i ==> Alive(k.procs[j]))
      && var p := k'.procs[i];
         && k.lastPid < p.pid == k'.lastPid && !UsedPid(k.procs, p.pid)
         && (p.state == Ready || p.state == Running) && p.name == q.name && p.priority == 1 && p.request == q
         && p.directory == Pooled(FirstUnused(k.pages.used, 0))
         && p.cpu == Cpu(k.procs[i].cpu.eip, 0x3F_FFFC, 0x200, 0x1B, 0x23, 0x23, 0x23, 0x23, 0x23)
         && k'.active == k.active + 1 && k'.current == p.pid - 1
         && forall j :: 0 <= j < PROCESS_COUNT_MAX && j != i ==> k'.procs[j] == k.procs[j].(state := k'.procs[j].state)
  {
    hide AllocateFrame, CreateDirectory, Switch, Demoted, SomeReady, UsedPid, FirstUnused;
    var b := Started(k, q).procs;
    ZeroIsReady(b);
    forall j | 0 <= j < PROCESS_COUNT_MAX
      ensures Switch(b)[j] == b[j].(state := Switch(b)[j].state) && (CanRun(Switch(b)[j]) <==> CanRun(b[j]))
    {
      SwitchKeepsProcesses(b, j);
    }
  }

  // ----- destruction

  /** Destroying a process empties its slot, counts it off, forgets it as the current one, and clears and
      releases its directory; all other directories are as they were. */
  lemma ProcessIsGone(k: Kernel, i: nat)
    requires Budget(k) && i < PROCESS_COUNT_MAX && Alive(k.procs[i])
    ensures InPool(k.procs[i].directory)
    ensures var k', d := Destroy(k, k.procs[i].pid), k.procs[i].directory.index;
      && !Alive(k'.procs[i]) && k'.procs[i].pid == 0 && k'.procs[i].directory == Null
      && k'.active == k.active - 1 && k'.current == (if k.current == i then -1 else k.current)
      && k'.lastPid == k.lastPid && k'.pages.free == k.pages.free && k'.pages.frames == k.pages.frames
      && !k'.pages.used[d] && (forall j :: 0 <= j < PAGE_ENTRY_COUNT ==> !k'.pages.pool[d][j].flag.present)
      && forall e :: 0 <= e < DIRECTORY_MAX_COUNT && e != d ==>
           k'.pages.used[e] == k.pages.used[e] && k'.pages.pool[e] == k.pages.pool[e]
  {
    hide FramesOk, CountsOk;
    assert ProcessOk(k, k.procs[i]);
    assert SlotOf(k.procs, k.procs[i].pid, 0) == i;
  }

  /** Destroying a pid that no process has changes nothing. */
  lemma UnknownPid(k: Kernel, pid: nat)
    requires forall i :: 0 <= i < PROCESS_COUNT_MAX && Alive(k.procs[i]) ==> k.procs[i].pid != pid
    ensures Destroy(k, pid) == k
  {
  }

  /** After a failed image read the directory made for it is cleared, and all others are as they were. */
  lemma FailedReadPages(k: Kernel, q: Launch, readCode: int)
    requires Budget(k) && HasRoom(k) && CreateTest(k, q) == 0 && readCode != 0
    ensures var d, k' := FirstUnused(k.pages.used, 0), Create(k, q, readCode);
      && d < DIRECTORY_MAX_COUNT && k'.pages.kernel == k.pages.kernel
      && (forall j :: 0 <= j < PAGE_ENTRY_COUNT ==> !k'.pages.pool[d][j].flag.present)
      && forall e :: 0 <= e < DIRECTORY_MAX_COUNT && e != d ==> k'.pages.pool[e] == k.pages.pool[e]
  {
    hide Budget, Prepared, HasRoom, SlotOf, AllocateFrame, CreateDirectory, FreshDirectory, Destroy, InactiveIndex,
         FirstUnused, MapsPage;
    PreparedKeeps(k, q);
    PreparedSlot(k, q);
    PreparedPages(k, q);
    PreparedFields(k, q);
    FreeInRange(k);
    AllocationMaps(CreateDirectory(k.pages), Pooled(FirstUnused(k.pages.used, 0)), q.buf);
    Released(Prepared(k, q), k.lastPid + 1, InactiveIndex(k.procs, 0), FirstUnused(k.pages.used, 0));
  }

  lemma Released(b: Kernel, pid: nat, i: nat, d: nat)
    requires i < PROCESS_COUNT_MAX && d < DIRECTORY_MAX_COUNT && SlotOf(b.procs, pid, 0) == i
    requires b.procs[i].directory == Pooled(d)
    ensures var a := Destroy(b, pid).pages;
      && a.kernel == b.pages.kernel
      && (forall j :: 0 <= j < PAGE_ENTRY_COUNT ==> !a.pool[d][j].flag.present)
      && forall e :: 0 <= e < DIRECTORY_MAX_COUNT && e != d ==> a.pool[e] == b.pages.pool[e]
  {
  }
}
