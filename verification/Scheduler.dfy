/**
 The user process scheduler and the hardware threads as objects, each method
 proved against the scheduler model. The lists of threads and processes are
 fixed arrays of objects, here constant sequences of references.
 */
module Scheduler {
  import opened Arithmetic
  import opened Options
  import opened SchedulerModel

  class HardwareThread {
    var kind: ThreadKind
    var stack: nat
    var sourcePid: int
    var wakeup: bool
    var busy: bool
    var pTime: nat

    ghost function View(): Core
      reads this
    {
      Core(kind, stack, sourcePid, wakeup, busy, pTime)
    }

    constructor ()
      ensures View() == Core(StandardThread, 0, 0, false, false, 0)
    {
      kind, stack, sourcePid := StandardThread, 0, 0;
      wakeup, busy, pTime := false, false, 0;
    }

    method Wake(up: bool)
      modifies this`wakeup
      ensures wakeup == up
    {
      wakeup := up;
    }

    method Busy(b: bool)
      modifies this`busy
      ensures busy == b
    {
      busy := b;
    }

    /** The timer is one counter for all threads. */
    method IsBusy(timer: int) returns (isBusy: bool, timer': int)
      modifies this`busy
      ensures isBusy == busy == (old(busy) && timer <= pTime)
      ensures timer' == (if old(busy) && timer > pTime then 0 else timer) + 1
    {
      timer' := timer;
      if busy && timer > pTime {
        timer' := 0;
        busy := false;
      }
      timer' := timer' + 1;
      isBusy := busy;
    }

    /** register answers for mp_register_process; stacks is the memory behind
        the stack frames. */
    method Switch(image: nat, stackTop: nat, frame: nat, pid: int, timer: int, stacks: map<nat, Context>,
                  register: int -> bool)
      returns (switched: bool, timer': int, stacks': map<nat, Context>)
      modifies this`busy, this`stack, this`sourcePid
      ensures switched == (!(old(busy) && timer <= pTime) && register(pid))
      ensures busy == (old(busy) && timer <= pTime)
      ensures if busy then stack == old(stack) && sourcePid == old(sourcePid) else stack == frame && sourcePid == pid
      ensures timer' == (if old(busy) && timer > pTime then 0 else timer) + 1
      ensures stacks' == if busy then stacks else stacks[frame := Context(image, stackTop)]
    {
      var isBusy;
      isBusy, timer' := IsBusy(timer);
      if isBusy {
        return false, timer', stacks;
      }
      stack := frame;
      sourcePid := pid;
      var context := if frame in stacks then stacks[frame] else Context(0, 0);
      context := context.(base := image);
      context := context.(top := stackTop);
      stacks' := stacks[frame := context];
      switched := register(sourcePid);
    }
  }

  class HardwareThreadScheduler {
    const threads: seq<HardwareThread>
    var busyTimer: int
    var stacks: map<nat, Context>  // the memory behind the stack frames

    ghost predicate Valid() {
      && |threads| == CORES
      && forall i, j :: 0 <= i < j < CORES ==> threads[i] != threads[j]
    }

    ghost function Cores(): (c: seq<Core>)
      requires Valid()
      reads threads
      ensures |c| == CORES
      ensures forall i :: 0 <= i < CORES ==> c[i] == threads[i].View()
    {
      seq(CORES, i requires 0 <= i < CORES reads threads => threads[i].View())
    }

    constructor ()
      ensures Valid() && fresh(this) && fresh(threads)
      ensures forall i :: 0 <= i < CORES ==> Cores()[i].kind == StandardThread
    {
      var list: seq<HardwareThread> := [];
      while |list| < CORES
        invariant |list| <= CORES
        invariant forall k :: 0 <= k < |list| ==> fresh(list[k]) && list[k].kind == StandardThread
        invariant forall j, k :: 0 <= j < k < |list| ==> list[j] != list[k]
      {
        var next := new HardwareThread();
        list := list + [next];
      }
      threads := list;
      busyTimer := 0;
      stacks := map[];
    }

    /** Indexing core 0 turns it into the boot core unless it is reserved; past
        the last core there is a null thread. */
    method At(index: nat) returns (thread: HardwareThread?)
      requires Valid()
      modifies threads
      ensures Valid() && thread == if index < CORES then threads[index] else null
      ensures threads[0].kind == (if index == 0 && old(threads[0].kind) != SystemReserved then Boot
                                  else old(threads[0].kind))
      ensures forall i :: 1 <= i < CORES ==> threads[i].kind == old(threads[i].kind)
      ensures Cores() == if index == 0 then Indexed(old(Cores())) else old(Cores())
    {
      if index == 0 {
        if threads[0].kind != SystemReserved {
          threads[0].kind := Boot;
        }
      } else if index >= CORES {
        return null;
      }
      thread := threads[index];
    }

    /** The core loop of the helper's Switch: the lowest usable core takes the
        process, whatever mp_register_process answers. */
    method SwitchTo(image: nat, stackTop: nat, frame: nat, pid: int, pTime: nat, register: int -> bool)
      returns (ok: bool)
      requires Valid()
      modifies this`busyTimer, this`stacks, threads
      ensures Valid()
      ensures ok <==> ChosenCore(old(Cores())).Some?
      ensures Cores() == Switched(old(Cores()), frame, pid, pTime, register(pid))
      ensures busyTimer == old(busyTimer) + if ok then 1 else 0
      ensures stacks == if ok then old(stacks)[frame := Context(image, stackTop)] else old(stacks)
    {
      ghost var cores := Cores();
      for index := 0 to CORES
        invariant Valid()
        invariant Cores() == if index == 0 then cores else Indexed(cores)
        invariant busyTimer == old(busyTimer) && stacks == old(stacks)
        invariant forall j :: 0 <= j < index ==> !TakesProcesses(Indexed(cores)[j])
      {
        var thread := At(index);
        assert Cores()[index] == thread.View();
        if thread.kind == InvalidThread || thread.kind == Boot {
          continue;
        }
        assert ChosenCore(cores) == Some(index);
        SwitchThread(thread, index, image, stackTop, frame, pid, pTime, register);
        return true;
      }
      return false;
    }

    // Gives the process to one core, rolling back when it is not accepted.
    method SwitchThread(thread: HardwareThread, ghost index: nat, image: nat, stackTop: nat, frame: nat, pid: int,
                        pTime: nat, register: int -> bool)
      requires Valid() && index < CORES && thread == threads[index]
      modifies this`busyTimer, this`stacks, thread
      ensures Valid()
      ensures var before := old(Cores())[index];
              Cores() == old(Cores())[index := Core(before.kind, frame, pid, false, !register(pid),
                                                    if register(pid) then pTime else before.pTime)]
      ensures busyTimer == old(busyTimer) + 1
      ensures stacks == old(stacks)[frame := Context(image, stackTop)]
    {
      thread.Wake(true);
      thread.Busy(false);
      var previous := thread.pTime;
      thread.pTime := pTime;
      var switched;
      switched, busyTimer, stacks := thread.Switch(image, stackTop, frame, pid, busyTimer, stacks, register);
      if !switched {
        thread.pTime := previous;
        thread.Busy(true);
      }
      thread.Wake(false);
    }
  }

  class UserProcess {
    var name: string
    var status: Status
    var affinity: Affinity
    var code: nat
    var blob: nat
    var stackFrame: nat
    var stackReserve: nat
    var pTime: nat
    var processId: int

    constructor ()
      ensures status == Killed && affinity == Standard && code == 0 && pTime == 0 && processId == -1
    {
      name, status, affinity := "Process", Killed, Standard;
      code, blob, stackFrame, stackReserve, pTime, processId := 0, 0, 0, 0, 0, -1;
    }

    ghost function View(): Slot
      reads this
    {
      Slot(status, affinity, code != 0, |name| > 0, pTime)
    }

    ghost function Switching(): Context
      reads this
    {
      Context(code, stackReserve + STACK_SIZE - 1)
    }

    method Wake(up: bool)
      modifies this`status
      ensures View() == Woken(old(View()), up) && status == if up then Running else Frozen
    {
      status := if up then Running else Frozen;
    }

    // What Spawn stores in the process.
    method Begin(name: string, code: nat, image: nat, frame: nat, reserve: nat, pid: int)
      modifies this
      ensures View() == Spawned(old(View()), code != 0, |name| > 0)
      ensures this.name == name && this.code == code && blob == image && processId == pid
      ensures stackFrame == frame && stackReserve == reserve
      ensures affinity == old(affinity) && status == Starting && pTime == 1000
    {
      this.code, blob := code, image;
      this.name := name;
      stackFrame := frame;
      stackReserve := reserve;
      processId := pid;
      status := Starting;
      pTime := Ticks(Standard);
    }

    /** Does nothing unless the process is running; otherwise it exits. */
    method Crash() returns (exited: bool)
      modifies this
      ensures View() == Crashed(old(View()))
      ensures exited == (old(status) == Running)
      ensures name == old(name) && stackReserve == old(stackReserve)
      ensures affinity == old(affinity) && pTime == old(pTime)
      ensures exited ==> status == Finished && code == blob == stackFrame == 0 && processId == 0
      ensures !exited ==> unchanged(this)
    {
      if status != Running {
        return false;
      }
      blob, code, stackFrame := 0, 0, 0;
      processId := 0;
      status := Finished;
      return true;
    }

    method MayRun() returns (b: bool)
      ensures b == CanBeScheduled(View())
      ensures b <==> (status == Running || status == Count) && code != 0 && name != "" && pTime == 0
    {
      if status == Killed || status == Finished || status == Starting || status == Frozen {
        return false;
      }
      if status == Status.Invalid {
        return false;
      }
      if code == 0 {
        return false;
      }
      if |name| == 0 {
        return false;
      }
      return pTime < 1;
    }
  }

  class UserProcessScheduler {
    const processes: seq<UserProcess>
    const hardware: HardwareThreadScheduler
    var processCount: int

    ghost predicate Apart() {
      && |processes| == SLOTS && hardware.Valid()
      && (forall i, j :: 0 <= i < j < SLOTS ==> processes[i] != processes[j])
      && forall i, j :: 0 <= i < SLOTS && 0 <= j < CORES ==>
           processes[i] as object != hardware.threads[j]
    }

    ghost predicate Valid()
      reads processes
    {
      && Apart()
      // a slot with code has its own number as process id
      && forall i :: 0 <= i < SLOTS && processes[i].code != 0 ==> processes[i].processId == i
    }

    ghost function Slots(): (s: seq<Slot>)
      requires Apart()
      reads processes
      ensures |s| == SLOTS
    {
      seq(SLOTS, i requires 0 <= i < SLOTS reads processes => processes[i].View())
    }

    ghost function Frames(): (frames: seq<nat>)
      requires Apart()
      reads processes
      ensures |frames| == SLOTS
    {
      seq(SLOTS, i requires 0 <= i < SLOTS reads processes => processes[i].stackFrame)
    }

    ghost function AsTeam(): Team
      requires Apart()
      reads this, processes
    {
      Team(Slots(), processCount)
    }

    constructor ()
      ensures Valid() && processCount == 0
      ensures ChosenCore(hardware.Cores()) == Some(1)
      ensures forall i :: 0 <= i < SLOTS ==> processes[i].status == Killed && processes[i].affinity == Standard
    {
      var list: seq<UserProcess> := [];
      while |list| < SLOTS
        invariant |list| <= SLOTS
        invariant forall k :: 0 <= k < |list| ==> fresh(list[k]) && list[k].code == 0
        invariant forall k :: 0 <= k < |list| ==> list[k].status == Killed && list[k].affinity == Standard
        invariant forall j, k :: 0 <= j < k < |list| ==> list[j] != list[k]
      {
        var next := new UserProcess();
        list := list + [next];
      }
      processes := list;
      hardware := new HardwareThreadScheduler();
      processCount := 0;
      new;
      FreshCoresUseCoreOne(hardware.Cores());
    }

    /** Takes the slot numbered by the process count. The original's guard lets
        a count of 32 through, which has no slot. */
    method Spawn(name: string, code: nat, image: nat, frame: nat, reserve: nat) returns (pid: Option<int>)
      requires Valid() && processCount >= 0 && processCount != SLOTS
      modifies this`processCount, processes
      ensures Valid()
      ensures old(processCount) > SLOTS ==> pid == None && AsTeam() == old(AsTeam())
      ensures old(processCount) < SLOTS ==>
                pid == Some(old(processCount))
                && AsTeam() == TeamStep(old(AsTeam()), SchedulerModel.Spawn(code != 0, |name| > 0))
                && processes[pid.value].code == code && processes[pid.value].blob == image
                && processes[pid.value].name == name && processes[pid.value].stackFrame == frame
                && processes[pid.value].stackReserve == reserve && processes[pid.value].processId == pid.value
      ensures forall i :: 0 <= i < SLOTS && i != old(processCount) ==> unchanged(processes[i])
      ensures forall i :: 0 <= i < SLOTS ==> processes[i].affinity == old(processes[i].affinity)
    {
      var id := processCount;
      if id > SLOTS {
        return None;
      }
      processCount := processCount + 1;
      var process := processes[id];
      process.Begin(name, code, image, frame, reserve, id);
      assert Slots() == old(Slots())[id := process.View()];
      hide Slots, Spawned;
      return Some(id);
    }

    method WakeProcess(pid: nat, up: bool)
      requires Valid() && pid < SLOTS
      modifies processes[pid]
      ensures Valid() && AsTeam() == TeamStep(old(AsTeam()), WakeSlot(pid, up))
    {
      processes[pid].Wake(up);
    }

    ghost function Contexts(): (contexts: seq<Context>)
      requires Apart()
      reads processes
      ensures |contexts| == SLOTS
    {
      seq(SLOTS, i requires 0 <= i < SLOTS reads processes => processes[i].Switching())
    }

    ghost function AsWorld(): (w: World)
      requires Apart()
      reads this, processes, hardware, hardware.threads
      ensures WorldFormed(w)
    {
      World(Slots(), processCount, hardware.Cores(), Frames(), Contexts(), hardware.stacks)
    }

    // Crashes one slot; an exit takes it off the process count.
    method CrashSlot(index: nat)
      requires Valid() && index < SLOTS
      modifies this`processCount, processes[index]
      ensures Valid() && AsWorld() == CrashOf(old(AsWorld()), index)
    {
      var exited := processes[index].Crash();
      if exited {
        processCount := processCount - 1;
      }
      hide Crashed;
    }

    method CountDown(index: nat)
      requires Valid() && index < SLOTS
      modifies processes[index]
      ensures Valid() && AsWorld() == CountDownOf(old(AsWorld()), index)
      ensures var p := old(processes[index].pTime);
              processes[index].pTime == if p == 0 then 0xFFFF_FFFF_FFFF_FFFF else (p - 1) % 0x1_0000_0000_0000_0000
    {
      processes[index].pTime := (processes[index].pTime - 1) % TWO_64;
    }

    // Charges a slot the time of its affinity.
    method Charge(index: nat)
      requires Valid() && index < SLOTS
      modifies processes[index]
      ensures Valid() && AsWorld() == ChargeOf(old(AsWorld()), index)
      ensures processes[index].code == old(processes[index].code)
    {
      processes[index].pTime := Ticks(processes[index].affinity);
      hide Ticks;
    }

    // Switches a slot with code to a core, if there is one.
    method SwitchSlot(index: nat, register: int -> bool) returns (ok: bool)
      requires Valid() && index < SLOTS && processes[index].code != 0
      modifies hardware`busyTimer, hardware`stacks, hardware.threads
      ensures Valid()
      ensures ok <==> ChosenCore(old(AsWorld()).cores).Some?
      ensures AsWorld() == SwitchOf(old(AsWorld()), index, old(AsWorld()).slots[index].pTime, register)
    {
      hide Switched, ChosenCore;
      var process := processes[index];
      ok := hardware.SwitchTo(process.code, process.stackReserve + STACK_SIZE - 1, process.stackFrame,
                              process.processId, processes[process.processId].pTime, register);
    }

    method MayRunSlot(index: nat) returns (b: bool)
      requires Valid() && index < SLOTS
      ensures b == CanBeScheduled(AsWorld().slots[index])
      ensures b ==> processes[index].code != 0
    {
      b := processes[index].MayRun();
    }

    // One slot of a Run.
    method RunSlot(index: nat, register: int -> bool)
      requires Valid() && index < SLOTS
      modifies this`processCount, hardware`busyTimer, hardware`stacks, hardware.threads, processes[index]
      ensures Valid() && AsWorld() == VisitOf(old(AsWorld()), index, register)
    {
      hide Slots, Frames, Contexts, AsWorld;
      hide CanBeScheduled, ChosenCore, Charged, CrashOf, CountDownOf, SwitchOf;
      var schedule := MayRunSlot(index);
      if schedule {
        Charge(index);
        var ok := SwitchSlot(index, register);
        if !ok {
          CrashSlot(index);
        }
      } else {
        CountDown(index);
      }
    }

    /** One timer tick over all slots. With a usable core no process is lost, and
        the frames of the dispatched slots hold their contexts. */
    method Run(register: int -> bool) returns (visited: nat)
      requires Valid()
      modifies this`processCount, hardware`busyTimer, hardware`stacks, hardware.threads, processes
      ensures Valid()
      ensures AsTeam() == TeamRun(old(AsTeam()), ChosenCore(old(hardware.Cores())).Some?)
      ensures visited == if old(processCount) < 1 then 0 else SLOTS
      ensures ChosenCore(hardware.Cores()) == ChosenCore(old(hardware.Cores()))
      ensures hardware.Cores() ==
              if old(processCount) < 1 then old(hardware.Cores())
              else CoresAfter(old(hardware.Cores()), old(Slots()), old(Frames()), register, SLOTS)
      ensures hardware.stacks ==
              if old(processCount) < 1 || ChosenCore(old(hardware.Cores())).None? then old(hardware.stacks)
              else StacksAfter(old(AsWorld()), SLOTS)
      // a dispatched slot's frame holds its code and the last byte of its stack
      ensures forall i ::
                && 0 <= i < SLOTS && old(processCount) >= 1 && ChosenCore(old(hardware.Cores())).Some?
                && CanBeScheduled(old(processes[i].View()))
                && (forall j :: i < j < SLOTS && CanBeScheduled(old(processes[j].View())) ==>
                      old(processes[j].stackFrame) != old(processes[i].stackFrame)) ==>
                  && old(processes[i].stackFrame) in hardware.stacks
                  && var context := hardware.stacks[old(processes[i].stackFrame)];
                     && context.base == old(processes[i].code)
                     && context.top + 1 == old(processes[i].stackReserve) + 8 * 1024 * 1024
      ensures forall a ::
                (forall i :: 0 <= i < SLOTS && CanBeScheduled(old(processes[i].View())) ==>
                   old(processes[i].stackFrame) != a) ==>
                  && (a in hardware.stacks <==> a in old(hardware.stacks))
                  && (a in hardware.stacks ==> hardware.stacks[a] == old(hardware.stacks)[a])
    {
      hide AsWorld, Slots, Frames, Contexts, CanBeScheduled, TeamRun, CoresAfter, StacksAfter, ChosenCore, AsTeam;
      WorldFields();
      FramesOfRun(AsWorld());
      visited := RunTeam(register);
    }

    // The world by the fields of the processes.
    lemma WorldFields()
      requires Apart()
      ensures var w := AsWorld();
              && w.stacks == hardware.stacks
              && forall i :: 0 <= i < SLOTS ==>
                   && w.slots[i] == processes[i].View() && w.frames[i] == processes[i].stackFrame
                   && w.contexts[i].base == processes[i].code
                   && w.contexts[i].top + 1 == processes[i].stackReserve + 8 * 1024 * 1024
    {
    }

    // Run, in terms of the team, the cores and the memory behind the frames.
    method RunTeam(register: int -> bool) returns (visited: nat)
      requires Valid()
      modifies this`processCount, hardware`busyTimer, hardware`stacks, hardware.threads, processes
      ensures Valid()
      ensures AsTeam() == TeamRun(old(AsTeam()), ChosenCore(old(hardware.Cores())).Some?)
      ensures visited == if old(processCount) < 1 then 0 else SLOTS
      ensures ChosenCore(hardware.Cores()) == ChosenCore(old(hardware.Cores()))
      ensures hardware.Cores() ==
              if old(processCount) < 1 then old(hardware.Cores())
              else CoresAfter(old(hardware.Cores()), old(Slots()), old(Frames()), register, SLOTS)
      ensures hardware.stacks ==
              if old(processCount) < 1 || ChosenCore(old(hardware.Cores())).None? then old(hardware.stacks)
              else StacksAfter(old(AsWorld()), SLOTS)
    {
      if processCount < 1 {
        return 0;
      }
      ghost var w := AsWorld();
      VisitAll(AsTeam(), ChosenCore(w.cores).Some?);
      VisitedIsRun(w, SLOTS, register);
      visited := VisitSlots(w, register);
      hide AsWorld, Visited, TeamRun, ChosenCore, CoresAfter, StacksAfter, VisitedOf;
    }

    static lemma FramesOfRun(w: World)
      requires WorldFormed(w)
      ensures forall i ::
                && 0 <= i < SLOTS && CanBeScheduled(w.slots[i])
                && (forall j :: i < j < SLOTS && CanBeScheduled(w.slots[j]) ==> w.frames[j] != w.frames[i]) ==>
                w.frames[i] in StacksAfter(w, SLOTS) && StacksAfter(w, SLOTS)[w.frames[i]] == w.contexts[i]
      ensures forall a :: (forall i :: 0 <= i < SLOTS && CanBeScheduled(w.slots[i]) ==> w.frames[i] != a) ==>
                && (a in StacksAfter(w, SLOTS) <==> a in w.stacks)
                && (a in w.stacks ==> StacksAfter(w, SLOTS)[a] == w.stacks[a])
    {
      hide CanBeScheduled, StacksAfter;
      forall i | 0 <= i < SLOTS && CanBeScheduled(w.slots[i])
                 && (forall j :: i < j < SLOTS && CanBeScheduled(w.slots[j]) ==> w.frames[j] != w.frames[i])
        ensures w.frames[i] in StacksAfter(w, SLOTS) && StacksAfter(w, SLOTS)[w.frames[i]] == w.contexts[i]
      {
        FramesHoldContexts(w, SLOTS, i);
      }
      forall a: nat | forall i :: 0 <= i < SLOTS && CanBeScheduled(w.slots[i]) ==> w.frames[i] != a
        ensures a in StacksAfter(w, SLOTS) <==> a in w.stacks
        ensures a in w.stacks ==> StacksAfter(w, SLOTS)[a] == w.stacks[a]
      {
        OtherFramesKept(w, SLOTS, a);
      }
    }

    // The loop of Run.
    method VisitSlots(ghost w: World, register: int -> bool) returns (index: nat)
      requires Valid() && AsWorld() == w
      modifies this`processCount, hardware`busyTimer, hardware`stacks, hardware.threads, processes
      ensures index == SLOTS && Valid() && AsWorld() == VisitedOf(w, SLOTS, register)
    {
      hide Slots, Frames, Contexts, AsWorld, VisitOf;
      index := 0;
      while index < SLOTS
        invariant 0 <= index <= SLOTS && Valid() && AsWorld() == VisitedOf(w, index, register)
      {
        RunSlot(index, register);
        index := index + 1;
      }
    }
  }
}
