/** How many processes run.  A creation makes slot 0 run before it switches, so a second process can be
    left running; exactly when, and what that means for runs. */
module Running {
  import opened Paging
  import opened ProcessTable
  import opened Scheduler
  import opened Processes

  /** At most one slot is running, and it is one of the first 16. */
  predicate AtMostOneRunning(p: Procs) {
    && (forall i :: 0 <= i < PROCESS_COUNT_MAX && p[i].state == Running ==> i < SLOTS)
    && (forall i, j :: 0 <= i < j < PROCESS_COUNT_MAX ==> !(p[i].state == Running && p[j].state == Running))
  }

  /** No slot but 0 is running. */
  predicate Alone(p: Procs) {
    forall i :: 1 <= i < PROCESS_COUNT_MAX ==> p[i].state != Running
  }

  lemma OneIsAtMostOne(p: Procs)
    requires OneRunning(p)
    ensures AtMostOneRunning(p)
  {
  }

  lemma OnlyIsOne(p: Procs, r: nat)
    requires OnlyRunning(p, r)
    ensures OneRunning(p) && AtMostOneRunning(p)
  {
    RunningSlot(p, r);
  }

  // ----- one switch

  /** A switch from a table where slot r is the first running one, and what runs afterwards. */
  lemma SwitchRuns(p: Procs)
    requires SomeReady(Demoted(p))
    ensures Demoted(p)[Next(p)].state == Ready
    ensures forall i :: 0 <= i < PROCESS_COUNT_MAX ==>
              (Switch(p)[i].state == Running <==> i == Next(p) || (p[i].state == Running && i != FirstRunning(p, 0)))
  {
    OffsetFound(Demoted(p), StartSlot(p));
  }

  /** A switch keeps at most one running slot, and leaves exactly one. */
  lemma SwitchMakesOne(p: Procs)
    requires AtMostOneRunning(p) && SomeReady(Demoted(p))
    ensures OneRunning(Switch(p)) && AtMostOneRunning(Switch(p))
  {
    hide Switch, Demoted, SomeReady, Next;
    SwitchRuns(p);
    NoOtherRuns(p);
    OnlyIsOne(Switch(p), Next(p));
  }

  lemma NoOtherRuns(p: Procs)
    requires AtMostOneRunning(p)
    ensures forall i :: 0 <= i < PROCESS_COUNT_MAX && p[i].state == Running ==> i == FirstRunning(p, 0)
  {
  }

  // ----- creation

  /** The states before the switch inside a successful creation. */
  lemma StartedStates(k: Kernel, q: Launch)
    requires HasRoom(k)
    ensures var b := Started(k, q).procs;
      && b[0].state == Running && FirstRunning(b, 0) == 0
      && forall i :: 1 <= i < PROCESS_COUNT_MAX ==> (b[i].state == Running <==> k.procs[i].state == Running)
  {
    hide AllocateFrame, CreateDirectory;
  }

  lemma CreatedProcs(k: Kernel, q: Launch)
    requires HasRoom(k) && CreateTest(k, q) == 0
    ensures SomeReady(Demoted(Started(k, q).procs)) && Create(k, q, 0).procs == Switch(Started(k, q).procs)
  {
    hide Started, Switch, Demoted, SomeReady;
    StartedStates(k, q);
    ZeroIsReady(Started(k, q).procs);
  }

  /** After a successful creation exactly one slot runs if and only if none but slot 0 ran before; otherwise
      two run. */
  lemma CreationRunsIff(k: Kernel, q: Launch)
    requires HasRoom(k) && CreateTest(k, q) == 0
    ensures OneRunning(Create(k, q, 0).procs) <==> Alone(k.procs)
    ensures AtMostOneRunning(Create(k, q, 0).procs) <==> Alone(k.procs)
  {
    hide Started, Switch, Demoted, SomeReady, Next, Create;
    CreatedProcs(k, q);
    StartedStates(k, q);
    var b, n := Started(k, q).procs, Next(Started(k, q).procs);
    var p := Create(k, q, 0).procs;
    SwitchRuns(b);
    if Alone(k.procs) {
      OnlyIsOne(p, n);
    } else {
      var j :| 1 <= j < PROCESS_COUNT_MAX && k.procs[j].state == Running;
      NextWasReady(b, j);
      assert p[j].state == Running && p[n].state == Running && j != n;
      if OneRunning(p) { OneIsAtMostOne(p); }
    }
  }

  /** A running slot other than the first is not the one picked. */
  lemma NextWasReady(p: Procs, j: nat)
    requires SomeReady(Demoted(p)) && j < PROCESS_COUNT_MAX && p[j].state == Running && j != FirstRunning(p, 0)
    ensures Next(p) != j
  {
    OffsetFound(Demoted(p), StartSlot(p));
  }

  lemma CreatedFree(k: Kernel, q: Launch)
    requires HasRoom(k) && CreateTest(k, q) == 0
    ensures Create(k, q, 0).pages.free == k.pages.free - 1
  {
    hide Switch, Demoted;
    PreparedFields(k, q);
  }

  /** With slot 0 alone running and slot 1 empty, a creation fills slot 1 and leaves it running. */
  lemma SecondRuns(k: Kernel, q: Launch)
    requires HasRoom(k) && CreateTest(k, q) == 0 && OnlyRunning(k.procs, 0) && !Alive(k.procs[1])
    ensures Create(k, q, 0).procs[1].state == Running
  {
    hide Switch, Demoted, SomeReady, Create, Started, Next;
    CreatedProcs(k, q);
    StartedStates(k, q);
    SlotOne(k, q);
    var b := Started(k, q).procs;
    OnlyRunningZero(k, q);
    SwitchPicksNext(b, 0);
    SwitchRuns(b);
    assert Distance(0, Next(b)) <= Distance(0, 1);
  }

  lemma SlotOne(k: Kernel, q: Launch)
    requires HasRoom(k) && Alive(k.procs[0]) && !Alive(k.procs[1])
    ensures Started(k, q).procs[1].state == Ready
  {
    hide AllocateFrame, CreateDirectory;
    assert InactiveIndex(k.procs, 0) == 1;
  }

  lemma OnlyRunningZero(k: Kernel, q: Launch)
    requires HasRoom(k) && OnlyRunning(k.procs, 0)
    ensures OnlyRunning(Started(k, q).procs, 0)
  {
    hide Started;
    StartedStates(k, q);
  }

  /** After the first creation every slot but 0 is empty. */
  lemma FirstIsAlone(q: Launch)
    requires CreateTest(Boot(), q) == 0
    ensures HasRoom(Boot())
    ensures forall i :: 1 <= i < PROCESS_COUNT_MAX ==> !Alive(Create(Boot(), q, 0).procs[i])
  {
    hide AllocateFrame, CreateDirectory, Switch, Demoted, SomeReady;
    BootHasRoom();
    CreatedProcs(Boot(), q);
    var b := Started(Boot(), q).procs;
    forall i | 1 <= i < PROCESS_COUNT_MAX
      ensures !Alive(Switch(b)[i])
    {
      SwitchKeepsProcesses(b, i);
    }
  }

  lemma NextLaunch(k: Kernel)
    requires Budget(k) && k.pages.free > 0
    ensures CreateTest(k, EMPTY_LAUNCH) == 0 && HasRoom(k) && Budget(Create(k, EMPTY_LAUNCH, 0))
    ensures Create(k, EMPTY_LAUNCH, 0).pages.free == k.pages.free - 1
  {
    hide Budget, Create, HasRoom, CreateTest;
    EmptyLaunchPasses(k);
    CreateKeeps(k, EMPTY_LAUNCH, 0);
    CreatedFree(k, EMPTY_LAUNCH);
  }

  /** Three creations after boot: after the first and the second one slot runs, after the third two do. */
  lemma ThirdCreationExample()
    ensures HasRoom(Boot()) && CreateTest(Boot(), EMPTY_LAUNCH) == 0
    ensures var k1 := Create(Boot(), EMPTY_LAUNCH, 0);
      && HasRoom(k1) && CreateTest(k1, EMPTY_LAUNCH) == 0 && OneRunning(k1.procs)
      && var k2 := Create(k1, EMPTY_LAUNCH, 0);
         && HasRoom(k2) && CreateTest(k2, EMPTY_LAUNCH) == 0 && OneRunning(k2.procs)
         && !AtMostOneRunning(Create(k2, EMPTY_LAUNCH, 0).procs)
  {
    hide Budget, Create, HasRoom, CreateTest, OneRunning, AtMostOneRunning;
    BootIsInBudget();
    NextLaunch(Boot());
    var k1 := Create(Boot(), EMPTY_LAUNCH, 0);
    NextLaunch(k1);
    var k2 := Create(k1, EMPTY_LAUNCH, 0);
    NextLaunch(k2);
    CreationRunsIff(Boot(), EMPTY_LAUNCH);
    CreationRunsIff(k1, EMPTY_LAUNCH);
    CreationRunsIff(k2, EMPTY_LAUNCH);
    FirstProcessRuns(EMPTY_LAUNCH);
    FirstIsAlone(EMPTY_LAUNCH);
    SecondRuns(k1, EMPTY_LAUNCH);
  }

  // ----- the other calls, and runs

  /** Destroying keeps at most one running slot. */
  lemma DestroyKeepsRunning(k: Kernel, pid: nat)
    requires AtMostOneRunning(k.procs)
    ensures AtMostOneRunning(Destroy(k, pid).procs)
  {
    hide FreeDirectory;
  }

  /** A creation that fails, in a test or in reading the image, keeps at most one running slot. */
  lemma FailureKeepsRunning(k: Kernel, q: Launch, readCode: int)
    requires Budget(k) && (CreateTest(k, q) == 0 ==> HasRoom(k))
    requires CreateCode(k, q, readCode) != 0 && AtMostOneRunning(k.procs)
    ensures AtMostOneRunning(Create(k, q, readCode).procs)
  {
    hide Budget, HasRoom, Create, CreateTest, AtMostOneRunning;
    if CreateTest(k, q) == 0 {
      FailedReadLosesFrame(k, q, readCode);
      SameRunning(k.procs, Create(k, q, readCode).procs);
    } else {
      CreateRefused(k, q, readCode);
    }
  }

  lemma SameRunning(p: Procs, p': Procs)
    requires forall i :: 0 <= i < PROCESS_COUNT_MAX ==> (Alive(p'[i]) <==> Alive(p[i])) && (Alive(p[i]) ==> p'[i] == p[i])
    requires AtMostOneRunning(p)
    ensures AtMostOneRunning(p')
  {
    assert forall i :: 0 <= i < PROCESS_COUNT_MAX ==> (p'[i].state == Running <==> p[i].state == Running);
  }

  /** The call is a creation that succeeds. */
  predicate Succeeds(k: Kernel, e: Event) {
    e.CreateEvent? && CreateCode(k, e.q, e.readCode) == 0
  }

  lemma StepKeepsRunning(k: Kernel, e: Event)
    requires Budget(k) && EventAsked(k, e) && AtMostOneRunning(k.procs)
    ensures AtMostOneRunning(After(k, e).procs) <==> !Succeeds(k, e) || Alone(k.procs)
  {
    hide Budget, HasRoom, AtMostOneRunning, Alone, Create, Switch, Destroy;
    match e
    case CreateEvent(q, readCode) =>
      UnderflowIff(k, q);
      if Succeeds(k, e) {
        CreationRunsIff(k, q);
      } else {
        FailureKeepsRunning(k, q, readCode);
      }
    case DestroyEvent(pid) => DestroyKeepsRunning(k, pid);
    case SwitchEvent => if SomeReady(Demoted(k.procs)) { SwitchMakesOne(k.procs); }
  }

  lemma CreateRefused(k: Kernel, q: Launch, readCode: int)
    requires CreateTest(k, q) != 0
    ensures Create(k, q, readCode) == k
  {
  }

  /** Creations succeed only while no slot but 0 runs. */
  ghost predicate CreatesAlone(k: Kernel, events: seq<Event>)
    requires Budget(k) && AllAsked(k, events)
    decreases |events|
  {
    events == []
    || ((Succeeds(k, events[0]) ==> Alone(k.procs)) && CreatesAlone(After(k, events[0]), events[1..]))
  }

  /** In every state of the run at most one slot is running, and it is below 16. */
  ghost predicate OneThroughout(k: Kernel, events: seq<Event>)
    requires Budget(k) && AllAsked(k, events)
    decreases |events|
  {
    AtMostOneRunning(k.procs) && (events == [] || OneThroughout(After(k, events[0]), events[1..]))
  }

  /** Which runs keep at most one slot running: exactly those. */
  lemma {:induction false} OneThroughoutIff(k: Kernel, events: seq<Event>)
    requires Budget(k) && AllAsked(k, events) && AtMostOneRunning(k.procs)
    ensures OneThroughout(k, events) <==> CreatesAlone(k, events)
    decreases |events|
  {
    hide Budget, AtMostOneRunning, Alone, After, EventAsked, Succeeds;
    if events != [] {
      StepKeepsRunning(k, events[0]);
      if AtMostOneRunning(After(k, events[0]).procs) { OneThroughoutIff(After(k, events[0]), events[1..]); }
    }
  }

  /** From boot, where nothing runs: the premise of the fairness result holds after every switch of such a
      run. */
  lemma BootRunsIff(events: seq<Event>)
    requires Budget(Boot()) ==> AllAsked(Boot(), events)
    ensures Budget(Boot()) && (OneThroughout(Boot(), events) <==> CreatesAlone(Boot(), events))
  {
    BootIsInBudget();
    hide Budget, AllAsked, CreatesAlone, OneThroughout;
    OneThroughoutIff(Boot(), events);
  }
}
