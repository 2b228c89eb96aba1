/** Process control blocks. */
module ProcessTable {
  import opened Words
  import opened Paging

  const PROCESS_COUNT_MAX := 256

  datatype ProcessState = Terminated | Ready | Running | Blocked

  datatype Cpu = Cpu(eip: u32, esp: u32, eflags: u32, cs: u32, ds: u32, es: u32, fs: u32, gs: u32, ss: u32)

  /** What a process is started from: where its image goes, the 32 bytes at its name, and its size. */
  datatype Launch = Launch(buf: u32, name: string, size: u32)

  datatype Pcb = Pcb(pid: nat, state: ProcessState, name: string, priority: nat, cpu: Cpu, directory: Pointer,
                     request: Launch)

  const NO_CPU := Cpu(0, 0, 0, 0, 0, 0, 0, 0, 0)
  const CLEARED := Pcb(0, Terminated, "", 0, NO_CPU, Null, Launch(0, "", 0))

  type Procs = p: seq<Pcb> | |p| == PROCESS_COUNT_MAX witness seq(PROCESS_COUNT_MAX, _ => CLEARED)

  predicate Alive(p: Pcb) {
    p.state != Terminated
  }
}
