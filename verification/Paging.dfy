/** Page frames and the pool of page directories. */
module Paging {
  import opened Words

  type LowerAddress = x: int | 0 <= x < 0x400

  const PAGE_FRAME_MAX_COUNT := 32
  const DIRECTORY_MAX_COUNT := 32
  const PAGE_ENTRY_COUNT := 1024
  const KERNEL_PAGE := 0x300
  const KERNEL_VIRTUAL_ADDRESS_BASE := 0xC000_0000
  const PAGE_FRAME_SIZE := 0x40_0000

  datatype Flag = Flag(present: bool, readWrite: bool, userSupervisor: bool, pageSize: bool)

  datatype Entry = Entry(flag: Flag, lowerAddress: LowerAddress)

  const NO_ENTRY := Entry(Flag(false, false, false, false), 0)
  const KERNEL_ENTRY := Entry(Flag(true, true, false, true), 0)
  const USER_FLAG := Flag(true, true, true, true)

  type Directory = d: seq<Entry> | |d| == PAGE_ENTRY_COUNT witness seq(PAGE_ENTRY_COUNT, _ => NO_ENTRY)
  type Frames = f: seq<bool> | |f| == PAGE_FRAME_MAX_COUNT witness seq(PAGE_FRAME_MAX_COUNT, _ => false)
  type Pool = p: seq<Directory> | |p| == DIRECTORY_MAX_COUNT
    witness seq<Directory>(DIRECTORY_MAX_COUNT, _ => EmptyDirectory())

  function EmptyDirectory(): Directory {
    seq(PAGE_ENTRY_COUNT, _ => NO_ENTRY)
  }

  /** A pointer to a page directory: none, the kernel's own, or one of the pool. */
  datatype Pointer = Null | KernelDirectory | Pooled(index: nat)

  datatype Pages = Pages(frames: Frames, free: nat, pool: Pool, used: Frames, kernel: Directory)

  function PageIndex(virtualAddress: u32): (i: nat)
    ensures i < PAGE_ENTRY_COUNT
    ensures virtualAddress < KERNEL_VIRTUAL_ADDRESS_BASE ==> i < KERNEL_PAGE
  {
    virtualAddress / PAGE_FRAME_SIZE % 0x400
  }

  /** The table part of an entry update: flag and bits 22 to 31 of the physical address. */
  function UpdateEntry(d: Directory, physicalAddress: u32, virtualAddress: u32, flag: Flag): Directory {
    d[PageIndex(virtualAddress) := Entry(flag, physicalAddress / PAGE_FRAME_SIZE % 0x400)]
  }

  /** What allocating one user frame leaves; the frame marked is the first one not yet used. */
  function AllocateFrame(p: Pages, to: Pointer, virtualAddress: u32): Pages
    requires 1 <= p.free <= PAGE_FRAME_MAX_COUNT
    requires to.KernelDirectory? || (to.Pooled? && to.index < DIRECTORY_MAX_COUNT)
  {
    Pages(p.frames[PAGE_FRAME_MAX_COUNT - p.free := true], p.free - 1,
          if to.KernelDirectory? then p.pool
          else p.pool[to.index := UpdateEntry(p.pool[to.index], p.free, virtualAddress, USER_FLAG)],
          p.used,
          if to.KernelDirectory? then UpdateEntry(p.kernel, p.free, virtualAddress, USER_FLAG) else p.kernel)
  }

  /** The first directory not in use, or the pool size. */
  function FirstUnused(used: Frames, i: nat): (r: nat)
    requires i <= DIRECTORY_MAX_COUNT
    ensures i <= r <= DIRECTORY_MAX_COUNT
    ensures r < DIRECTORY_MAX_COUNT ==> !used[r]
    ensures forall j :: i <= j < r ==> used[j]
    decreases DIRECTORY_MAX_COUNT - i
  {
    if i == DIRECTORY_MAX_COUNT || !used[i] then i else FirstUnused(used, i + 1)
  }

  function FreshDirectory(kernel: Directory): Directory {
    EmptyDirectory()[0 := KERNEL_ENTRY][KERNEL_PAGE := kernel[KERNEL_PAGE]]
  }

  /** The directory handed out next; none when all are in use. */
  function NewDirectory(p: Pages): Pointer {
    if FirstUnused(p.used, 0) == DIRECTORY_MAX_COUNT then Null else Pooled(FirstUnused(p.used, 0))
  }

  function CreateDirectory(p: Pages): Pages {
    if NewDirectory(p) == Null then p
    else Pages(p.frames, p.free, p.pool[FirstUnused(p.used, 0) := FreshDirectory(p.kernel)],
               p.used[FirstUnused(p.used, 0) := true], p.kernel)
  }

  predicate InPool(d: Pointer) {
    d.Pooled? && d.index < DIRECTORY_MAX_COUNT
  }

  function FreeDirectory(p: Pages, d: Pointer): Pages {
    if InPool(d)
    then Pages(p.frames, p.free, p.pool[d.index := EmptyDirectory()], p.used[d.index := false], p.kernel)
    else p
  }

  /** The driver's state, updated in place. */
  class PageManager {
    const frameMap: array<bool>
    var freeCount: u32
    const pool: array<Directory>
    const used: array<bool>
    var kernel: Directory

    ghost predicate Valid() {
      && frameMap.Length == PAGE_FRAME_MAX_COUNT && pool.Length == DIRECTORY_MAX_COUNT
      && used.Length == DIRECTORY_MAX_COUNT && frameMap != used
      && pool as object != used && pool as object != frameMap
    }

    ghost function State(): Pages
      requires Valid()
      reads this, frameMap, pool, used
    {
      Pages(frameMap[..], freeCount, pool[..], used[..], kernel)
    }

    /** The tables at boot: frame 0 marked, all 32 frames counted as free, no directory used. */
    constructor ()
      ensures Valid() && fresh(frameMap) && fresh(pool) && fresh(used)
      ensures State() == BootPages()
    {
      frameMap := new bool[PAGE_FRAME_MAX_COUNT](i => i == 0);
      freeCount := PAGE_FRAME_MAX_COUNT;
      pool := new Directory[DIRECTORY_MAX_COUNT](_ => EmptyDirectory());
      used := new bool[DIRECTORY_MAX_COUNT](_ => false);
      kernel := EmptyDirectory()[0 := KERNEL_ENTRY][KERNEL_PAGE := KERNEL_ENTRY];
    }

    /** left: the update goes to no directory, or the frame marked lies outside the map.  That is where the
        source writes past its tables; here the call stops. */
    method AllocateUserFrame(to: Pointer, virtualAddress: u32) returns (ok: bool, left: bool)
      requires Valid() && (to.Pooled? ==> to.index < DIRECTORY_MAX_COUNT)
      modifies this`freeCount, this`kernel, frameMap, pool
      ensures left <==> to.Null? || !(1 <= old(freeCount) <= PAGE_FRAME_MAX_COUNT)
      ensures !left ==> ok && State() == AllocateFrame(old(State()), to, virtualAddress)
    {
      var physicalAddress := freeCount;
      if !(physicalAddress <= freeCount) {
        return false, false;
      }
      match to {
        case Null => return true, true;
        case KernelDirectory => kernel := UpdateEntry(kernel, physicalAddress, virtualAddress, USER_FLAG);
        case Pooled(i) => pool[i] := UpdateEntry(pool[i], physicalAddress, virtualAddress, USER_FLAG);
      }
      if !(1 <= freeCount <= PAGE_FRAME_MAX_COUNT) {
        return true, true;
      }
      frameMap[PAGE_FRAME_MAX_COUNT - freeCount] := true;
      freeCount := freeCount - 1;
      return true, false;
    }

    method CreateNewDirectory() returns (d: Pointer)
      requires Valid()
      modifies pool, used
      ensures d == NewDirectory(old(State())) && State() == CreateDirectory(old(State()))
    {
      ghost var before := used[..];
      var i := 0;
      while i < DIRECTORY_MAX_COUNT && used[i]
        invariant i <= DIRECTORY_MAX_COUNT && FirstUnused(before, 0) == FirstUnused(before, i)
      {
        i := i + 1;
      }
      if i == DIRECTORY_MAX_COUNT {
        return Null;
      }
      used[i] := true;
      pool[i] := FreshDirectory(kernel);
      return Pooled(i);
    }

    method FreeDirectoryAt(d: Pointer) returns (ok: bool)
      requires Valid()
      modifies pool, used
      ensures ok == InPool(d) && State() == FreeDirectory(old(State()), d)
    {
      for i := 0 to DIRECTORY_MAX_COUNT
        invariant used[..] == old(used[..]) && pool[..] == old(pool[..])
        invariant d.Pooled? ==> d.index >= i
      {
        if d == Pooled(i) {
          used[i] := false;
          pool[i] := EmptyDirectory();
          return true;
        }
      }
      return false;
    }
  }

  function BootPages(): Pages {
    Pages(seq(PAGE_FRAME_MAX_COUNT, i => i == 0), PAGE_FRAME_MAX_COUNT,
          seq<Directory>(DIRECTORY_MAX_COUNT, _ => EmptyDirectory()), seq(DIRECTORY_MAX_COUNT, _ => false),
          EmptyDirectory()[0 := KERNEL_ENTRY][KERNEL_PAGE := KERNEL_ENTRY])
  }
}
