/** The guarantees on the driver itself, down to the bytes of the image. */
module Restart {
  import opened Layout
  import opened FileSystem
  import opened Soundness
  import opened SafeWrites
  import opened WriteRefinement
  import opened Guarantees
  import opened Driver
  import opened BlockDevice
  import opened Abstraction
  import opened Runs
  import Vfs

  lemma AfterRestart(s: State, cache: Fat, r: Request, q: Request)
    requires Sound(s) && WriteAsked(s, r) && Write(s, r).code == 0 && r.size > 0 && Vfs.KeyOf(q) == Vfs.KeyOf(r)
    ensures var s' := Mount(State(Write(s, r).st.disk, cache));
      && s' == Write(s, r).st && ReadEnds(s', q)
      && Read(s', q) == Reply(s', if q.size >= r.size then 0 else 2, if q.size >= r.size then r.buf else [])
      && forall n: nat :: |r.buf| <= n ==> ReadFits(s', q, n)
  {
    WriteIsComplete(s, r);
    MountRestores(Write(s, r).st, cache);
    WriteThenRead(s, r, q);
    ReadKeepsState(Write(s, r).st, q);
  }

  lemma ReadKeepsState(s: State, q: Request)
    requires q.parent < CLUSTER_COUNT && ReadEnds(s, q) && s.fat == FatOf(s.disk[FAT_CLUSTER_NUMBER])
    ensures Read(s, q).st == s && (Read(s, q).code != 0 ==> Read(s, q).data == [])
  {
  }

  /** A file that was written is still there for a driver started afresh on the same image, whatever
      that driver's memory held: its blocks hold exactly the bytes written. */
  method WriteRestartRead(fs: Fat32, r: Request, q: Request, buf: array<byte>)
    returns (written: int, code: int, left: bool)
    requires fs.Valid() && Sound(fs.St()) && WriteAsked(fs.St(), r)
    requires r.size > 0 && Vfs.KeyOf(q) == Vfs.KeyOf(r)
    requires buf != fs.disk.bytes && buf as object != fs.fat && buf as object != fs.table && |r.buf| <= buf.Length
    modifies fs.fat, fs.table, fs.disk.bytes, buf
    ensures left <==> old(LeavesMemory(fs.St(), r, fs.scanLimit))
    ensures !left && written == 0 && q.size >= r.size ==> code == 0 && buf[..] == r.buf + old(buf[..])[|r.buf|..]
    ensures !left && written == 0 && q.size < r.size ==> code == 2 && buf[..] == old(buf[..])
    ensures !left && written != 0 ==> fs.St() == old(fs.St()) && buf[..] == old(buf[..])
  {
    hide Sound, NamesParent, WriteIsSafe, FileSystem.Write, FileSystem.Read, Mount, ReadEnds, ReadFits, LeavesMemory;
    ghost var s := fs.St();
    written, left := fs.Write(r);
    if left {
      return written, 0, true;
    }
    if written != 0 {
      ErrorKeeps(s, r);
      return written, written, false;
    }
    var again := new Fat32(fs.disk, fs.scanLimit);
    AfterRestart(s, again.Fat(), r, q);
    again.Initialize();
    code, left := again.Read(q, buf);
  }

  lemma ErrorKeeps(s: State, r: Request)
    requires Sound(s) && WriteAsked(s, r) && Write(s, r).code != 0
    ensures Write(s, r).st == s
  {
    assert s.fat == FatOf(s.disk[FAT_CLUSTER_NUMBER]);
  }

  /** The first boot on any image without the signature, all zeros for one: the driver finds an empty root
      with 509 free clusters. */
  method FirstBoot(disk: Image, scanLimit: nat) returns (fs: Fat32)
    requires disk.Valid() && CLUSTER_MAP_SIZE <= scanLimit && disk.View()[0][..BLOCK_SIZE] != Signature()
    modifies disk.bytes
    ensures fs.Valid() && fs.disk == disk && fresh(fs) && Sound(fs.St())
    ensures Dirs(fs.St()) == {ROOT_CLUSTER_NUMBER} && TreeOf(fs.St()).items == imap[] && TreeOf(fs.St()).free == 509
  {
    hide Sound, Dirs, TreeOf, Mount, Signature;
    fs := new Fat32(disk, scanLimit);
    FirstMount(fs.St());
    fs.Initialize();
  }
}
