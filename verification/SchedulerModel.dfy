/**
 What one scheduler Run does to a process slot and to the choice of a core, as
 functions, and what follows over unbounded runs: exact dispatch times, the
 dispatch count, and the countdown from Spawn.
 */
module SchedulerModel {
  import opened Arithmetic
  import opened Options

  const SLOTS: nat := 32
  const CORES: nat := 8
  const STACK_SIZE: nat := 8 * 1024 * 1024

  // ------------------------------------------------------------------
  // A process slot
  // ------------------------------------------------------------------

  datatype Status = Invalid | Starting | Running | Killed | Frozen | Finished | Count

  datatype Affinity = VeryHigh | High | Standard | LowUsage | VeryLowUsage

  function Ticks(a: Affinity): nat {
    match a
    case VeryHigh => 250
    case High => 200
    case Standard => 1000
    case LowUsage => 1500
    case VeryLowUsage => 2000
  }

  datatype Slot = Slot(status: Status, affinity: Affinity, hasCode: bool, named: bool, pTime: nat)

  predicate CanBeScheduled(s: Slot) {
    && s.status != Killed && s.status != Finished && s.status != Starting && s.status != Frozen
    && s.status != Invalid
    && s.hasCode && s.named && s.pTime < 1
  }

  function Crashed(s: Slot): Slot {
    if s.status == Running then s.(status := Finished, hasCode := false) else s
  }

  function Charged(s: Slot): Slot { s.(pTime := Ticks(s.affinity)) }

  // An unsigned 64-bit countdown.
  function CountedDown(s: Slot): Slot { s.(pTime := (s.pTime - 1) % TWO_64) }

  // One Run, for one slot; core says whether some core takes processes.
  function Tick(s: Slot, core: bool): Slot {
    if CanBeScheduled(s) then if core then Charged(s) else Crashed(Charged(s))
    else CountedDown(s)
  }

  function Woken(s: Slot, up: bool): Slot {
    s.(status := if up then Running else Frozen)
  }

  function Spawned(s: Slot, hasCode: bool, named: bool): Slot {
    s.(status := Starting, hasCode := hasCode, named := named, pTime := 1000)
  }

  // ------------------------------------------------------------------
  // The choice of a core
  // ------------------------------------------------------------------

  datatype ThreadKind = SystemReserved | StandardThread | Boot | InvalidThread

  datatype Core = Core(kind: ThreadKind, stack: nat, sourcePid: int, wakeup: bool, busy: bool, pTime: nat)

  // Indexing core 0 makes it the boot core unless it is reserved.
  function Indexed(cores: seq<Core>): (c: seq<Core>)
    requires |cores| == CORES
    ensures |c| == CORES
  {
    if cores[0].kind == SystemReserved then cores else cores[0 := cores[0].(kind := Boot)]
  }

  predicate TakesProcesses(c: Core) { c.kind != InvalidThread && c.kind != Boot }

  function LowestFrom(cores: seq<Core>, i: nat): (core: Option<nat>)
    requires i <= |cores|
    ensures core.Some? ==> i <= core.value < |cores| && TakesProcesses(cores[core.value])
    ensures core.Some? ==> forall j :: i <= j < core.value ==> !TakesProcesses(cores[j])
    ensures core.None? ==> forall j :: i <= j < |cores| ==> !TakesProcesses(cores[j])
    decreases |cores| - i
  {
    if i == |cores| then None else if TakesProcesses(cores[i]) then Some(i) else LowestFrom(cores, i + 1)
  }

  /** The core a process is switched to: the lowest that is neither the boot
      core nor invalid. */
  function ChosenCore(cores: seq<Core>): (core: Option<nat>)
    requires |cores| == CORES
    ensures core.Some? ==> core.value < CORES && TakesProcesses(Indexed(cores)[core.value])
    ensures core.Some? ==> forall j :: 0 <= j < core.value ==> !TakesProcesses(Indexed(cores)[j])
    ensures core.None? ==> forall j :: 0 <= j < CORES ==> !TakesProcesses(Indexed(cores)[j])
  {
    LowestFrom(Indexed(cores), 0)
  }

  // The cores after a process was switched to the chosen one; accepted is the
  // answer of mp_register_process.
  function Switched(cores: seq<Core>, frame: nat, pid: int, pTime: nat, accepted: bool): (c: seq<Core>)
    requires |cores| == CORES
    ensures |c| == CORES
  {
    var indexed := Indexed(cores);
    match ChosenCore(cores)
    case None => indexed
    case Some(i) =>
      var old' := indexed[i];
      indexed[i := Core(old'.kind, frame, pid, false, !accepted, if accepted then pTime else old'.pTime)]
  }

  predicate SameKinds(a: seq<Core>, b: seq<Core>) {
    |a| == |b| && forall i :: 0 <= i < |a| ==> a[i].kind == b[i].kind
  }

  lemma SameKindsSameChoice(a: seq<Core>, b: seq<Core>)
    requires |a| == |b| == CORES && SameKinds(a, b)
    ensures SameKinds(Indexed(a), Indexed(b)) && ChosenCore(a) == ChosenCore(b)
  {
    var x, y := Indexed(a), Indexed(b);
    assert forall i :: 0 <= i < CORES ==> TakesProcesses(x[i]) == TakesProcesses(y[i]);
  }

  /** Switching processes to a core never changes which core is chosen next, and
      there is one exactly when core 0 is reserved or a later core is usable. */
  lemma ChoiceIsStable(cores: seq<Core>, frame: nat, pid: int, pTime: nat, accepted: bool)
    requires |cores| == CORES
    ensures ChosenCore(Switched(cores, frame, pid, pTime, accepted)) == ChosenCore(cores)
    ensures ChosenCore(cores).Some? <==>
            cores[0].kind == SystemReserved || exists i :: 1 <= i < CORES && TakesProcesses(cores[i])
  {
    var after, indexed := Switched(cores, frame, pid, pTime, accepted), Indexed(cores);
    assert forall i :: 1 <= i < CORES ==> indexed[i] == cores[i];
    assert Indexed(indexed) == indexed;
    SameKindsSameChoice(after, indexed);
  }

  /** The core chosen, by the kinds of the cores: the lowest that may take a
      process, where core 0 may only when it is reserved, and a later core unless
      it is the boot core or invalid. */
  lemma ChosenCoreExactly(cores: seq<Core>, i: nat)
    requires |cores| == CORES && i < CORES
    ensures ChosenCore(cores) == Some(i) <==>
            && (if i == 0 then cores[0].kind == SystemReserved
                else cores[i].kind != Boot && cores[i].kind != InvalidThread)
            && forall j :: 0 <= j < i ==>
                 if j == 0 then cores[0].kind != SystemReserved
                 else cores[j].kind == Boot || cores[j].kind == InvalidThread
  {
    assert forall j :: 1 <= j < CORES ==> Indexed(cores)[j] == cores[j];
  }

  /** Where every core is standard, core 0 becomes the boot core and core 1
      takes the processes. */
  lemma FreshCoresUseCoreOne(cores: seq<Core>)
    requires |cores| == CORES && forall i :: 0 <= i < CORES ==> cores[i].kind == StandardThread
    ensures ChosenCore(cores) == Some(1)
  {
    assert TakesProcesses(Indexed(cores)[1]) && !TakesProcesses(Indexed(cores)[0]);
  }

  // The cores when a Run has visited the first k slots; frames are the slots'
  // stack frames and register is mp_register_process.
  function CoresAfter(cores: seq<Core>, slots: seq<Slot>, frames: seq<nat>, register: int -> bool, k: nat)
    : (c: seq<Core>)
    requires |cores| == CORES && k <= |slots| == |frames|
    ensures |c| == CORES
  {
    if k == 0 then cores
    else
      var before := CoresAfter(cores, slots, frames, register, k - 1);
      if !CanBeScheduled(slots[k - 1]) then before
      else Switched(before, frames[k - 1], k - 1, Ticks(slots[k - 1].affinity), register(k - 1))
  }

  // The highest slot that may be scheduled among the first k.
  function LastDispatched(slots: seq<Slot>, k: nat): (slot: Option<nat>)
    requires k <= |slots|
    ensures slot.Some? ==> slot.value < k && CanBeScheduled(slots[slot.value])
    ensures forall j :: (if slot.Some? then slot.value + 1 else 0) <= j < k ==> !CanBeScheduled(slots[j])
  {
    if k == 0 then None else if CanBeScheduled(slots[k - 1]) then Some(k - 1) else LastDispatched(slots, k - 1)
  }

  // The cores once the chosen core, if any, was given a process; the others are
  // touched only in marking the boot core.
  ghost predicate Given(after: seq<Core>, cores: seq<Core>, frame: nat, pid: int, pTime: nat, accepted: bool)
    requires |after| == |cores| == CORES
  {
    && (forall j :: 0 <= j < CORES && ChosenCore(cores) != Some(j) ==> after[j] == Indexed(cores)[j])
    && (ChosenCore(cores).Some? ==>
          var c := after[ChosenCore(cores).value];
          && c.stack == frame && c.sourcePid == pid && !c.wakeup && c.busy == !accepted
          && (accepted ==> c.pTime == pTime))
  }

  lemma SwitchedGives(cores: seq<Core>, before: seq<Core>, frame: nat, pid: int, pTime: nat, accepted: bool)
    requires |cores| == |before| == CORES && ChosenCore(before) == ChosenCore(cores)
    requires forall j :: 0 <= j < CORES && ChosenCore(cores) != Some(j) ==>
                           before[j] == cores[j] || before[j] == Indexed(cores)[j]
    ensures Given(Switched(before, frame, pid, pTime, accepted), cores, frame, pid, pTime, accepted)
  {
    hide ChosenCore;
  }

  /** However many slots one Run dispatches, they all go to the same core: it is
      left with the frame and the number of the last one, and no other core is
      touched beyond marking the boot core. */
  lemma {:induction false} LastDispatchStays(cores: seq<Core>, slots: seq<Slot>, frames: seq<nat>,
                                             register: int -> bool, k: nat)
    requires |cores| == CORES && k <= |slots| == |frames|
    ensures var after := CoresAfter(cores, slots, frames, register, k);
            && ChosenCore(after) == ChosenCore(cores)
            && match LastDispatched(slots, k)
               case None => after == cores
               case Some(i) => Given(after, cores, frames[i], i, Ticks(slots[i].affinity), register(i))
    decreases k
  {
    hide ChosenCore, CanBeScheduled, Indexed, Ticks, Switched;
    if k > 0 {
      var before := CoresAfter(cores, slots, frames, register, k - 1);
      var frame, pTime, accepted := frames[k - 1], Ticks(slots[k - 1].affinity), register(k - 1);
      LastDispatchStays(cores, slots, frames, register, k - 1);
      ChoiceIsStable(before, frame, k - 1, pTime, accepted);
      SwitchedGives(cores, before, frame, k - 1, pTime, accepted);
    }
  }

  // ------------------------------------------------------------------
  // Dispatch times over unbounded runs
  // ------------------------------------------------------------------

  // The slot after n Runs with a core available.
  function AfterRuns(s: Slot, n: nat): Slot {
    if n == 0 then s else Tick(AfterRuns(s, n - 1), true)
  }

  // Run number r, counting from 1, dispatches the slot.
  predicate DispatchedAt(s: Slot, r: nat)
    requires r >= 1
  {
    CanBeScheduled(AfterRuns(s, r - 1))
  }

  function Dispatches(s: Slot, n: nat): nat {
    if n == 0 then 0 else Dispatches(s, n - 1) + if DispatchedAt(s, n) then 1 else 0
  }

  predicate Schedulable(s: Slot) { s.status == Running && s.hasCode && s.named && s.pTime < TWO_64 }

  // The countdown after n Runs: down from p, then cycling through a, ..., 0.
  function Countdown(p: nat, a: nat, n: nat): int {
    if n <= p then p - n else a - Rem(n - p - 1, a + 1)
  }

  lemma CountdownStep(p: nat, a: nat, n: nat)
    ensures Countdown(p, a, n) >= 0
    ensures Countdown(p, a, n + 1) == if Countdown(p, a, n) == 0 then a else Countdown(p, a, n) - 1
  {
    hide Rem, Quot;
    ZeroDivided(a + 1);
    if n > p { NextInCycle(n - p - 1, a + 1); }
  }

  lemma TickOfSchedulable(s: Slot)
    requires Schedulable(s)
    ensures Tick(s, true) == s.(pTime := if s.pTime == 0 then Ticks(s.affinity) else s.pTime - 1)
  {
  }

  lemma {:induction false} RunsFollowCountdown(s: Slot, n: nat)
    requires Schedulable(s)
    ensures AfterRuns(s, n) == s.(pTime := AfterRuns(s, n).pTime)
    ensures AfterRuns(s, n).pTime == Countdown(s.pTime, Ticks(s.affinity), n)
    ensures Schedulable(AfterRuns(s, n))
    decreases n
  {
    if n > 0 {
      RunsFollowCountdown(s, n - 1);
      CountdownStep(s.pTime, Ticks(s.affinity), n - 1);
      TickOfSchedulable(AfterRuns(s, n - 1));
      hide Countdown, Tick, CanBeScheduled;
    } else {
      hide Tick, CanBeScheduled;
    }
  }

  // Run r is number p + 1 or a multiple of a + 1 Runs later.
  predicate DueAt(p: nat, a: nat, r: nat) {
    r > p && Rem(r - p - 1, a + 1) == 0
  }

  function DuesUpTo(p: nat, a: nat, n: nat): nat {
    if n <= p then 0 else Quot(n - p - 1, a + 1) + 1
  }

  /** A schedulable slot with countdown p and affinity a is dispatched on Run
      p + 1 and then exactly every a + 1 Runs. */
  lemma DispatchTimes(s: Slot, r: nat)
    requires Schedulable(s) && r >= 1
    ensures var p, a := s.pTime, Ticks(s.affinity);
            DispatchedAt(s, r) <==> DueAt(p, a, r)
  {
    hide Rem, Quot;
    var p, a := s.pTime, Ticks(s.affinity);
    RunsFollowCountdown(s, r - 1);
    ZeroDivided(a + 1);
    if r > p + 1 { NextInCycle(r - p - 2, a + 1); }
  }

  /** The periods in numbers: a running slot due at the next Run is dispatched then
      and every 251, 201, 1001, 1501 or 2001 Runs, by its affinity. */
  lemma Periods(s: Slot, r: nat)
    requires Schedulable(s) && s.pTime == 0 && r >= 1
    ensures DispatchedAt(s, r) <==>
            match s.affinity
            case VeryHigh => (r - 1) % 251 == 0
            case High => (r - 1) % 201 == 0
            case Standard => (r - 1) % 1001 == 0
            case LowUsage => (r - 1) % 1501 == 0
            case VeryLowUsage => (r - 1) % 2001 == 0
  {
    hide DispatchedAt;
    DispatchTimes(s, r);
  }

  /** A slot that is asleep when its countdown has run out misses its turn: the
      countdown wraps, and however soon it wakes after that Run, the next 2^64 - 1
      Runs do not dispatch it and the one after them does. */
  lemma SleeperMissesItsTurn(s: Slot, r: nat)
    requires s.pTime == 0 && s.status == Frozen && s.hasCode && s.named
    requires 1 <= r <= 0x1_0000_0000_0000_0000
    ensures DispatchedAt(Woken(Tick(s, true), true), r) <==> r == 0x1_0000_0000_0000_0000
  {
    var woken := Woken(Tick(s, true), true);
    assert woken == s.(status := Running, pTime := TWO_64 - 1);
    hide DispatchedAt;
    DispatchTimes(woken, r);
    hide Rem;
    ZeroDivided(Ticks(s.affinity) + 1);
  }

  /** The number of dispatches in any n Runs, in closed form. */
  lemma {:induction false} DispatchCount(s: Slot, n: nat)
    requires Schedulable(s)
    ensures Dispatches(s, n) == DuesUpTo(s.pTime, Ticks(s.affinity), n)
    decreases n
  {
    hide Rem, Quot, DispatchedAt;
    var p, a := s.pTime, Ticks(s.affinity);
    ZeroDivided(a + 1);
    if n > 0 {
      DispatchCount(s, n - 1);
      DispatchTimes(s, n);
      if n > p + 1 { NextInCycle(n - p - 2, a + 1); }
    }
  }

  // ------------------------------------------------------------------
  // From Spawn, with Wake calls in between
  // ------------------------------------------------------------------

  datatype SlotEvent = RunOnce | WakeCall(up: bool)

  function AfterEvent(s: Slot, e: SlotEvent): Slot {
    match e
    case RunOnce => Tick(s, true)
    case WakeCall(up) => Woken(s, up)
  }

  function AfterEvents(s: Slot, events: seq<SlotEvent>): Slot
    decreases |events|
  {
    if |events| == 0 then s else AfterEvents(AfterEvent(s, events[0]), events[1..])
  }

  function RunsIn(events: seq<SlotEvent>): nat
    decreases |events|
  {
    if |events| == 0 then 0 else (if events[0].RunOnce? then 1 else 0) + RunsIn(events[1..])
  }

  function DispatchesIn(s: Slot, events: seq<SlotEvent>): nat
    decreases |events|
  {
    if |events| == 0 then 0
    else (if events[0].RunOnce? && CanBeScheduled(s) then 1 else 0)
         + DispatchesIn(AfterEvent(s, events[0]), events[1..])
  }

  /** While the countdown lasts it falls by one per Run, whatever the status,
      and nothing is dispatched; when it reaches zero, the next Run dispatches
      the slot exactly when it is running a named process with code. */
  lemma {:induction false} CountdownIgnoresStatus(s: Slot, events: seq<SlotEvent>)
    requires RunsIn(events) <= s.pTime < TWO_64
    ensures var s' := AfterEvents(s, events);
            && s'.pTime == s.pTime - RunsIn(events)
            && DispatchesIn(s, events) == 0
            && s' == s.(pTime := s'.pTime, status := s'.status)
    decreases |events|
  {
    if |events| > 0 {
      CountdownIgnoresStatus(AfterEvent(s, events[0]), events[1..]);
    }
  }

  // The status the Wake calls leave.
  function LastStatus(status: Status, events: seq<SlotEvent>): Status
    decreases |events|
  {
    if |events| == 0 then status
    else LastStatus(if events[0].WakeCall? then (if events[0].up then Running else Frozen) else status, events[1..])
  }

  lemma {:induction false} WakesSetStatus(s: Slot, events: seq<SlotEvent>)
    ensures AfterEvents(s, events).status == LastStatus(s.status, events)
    decreases |events|
  {
    if |events| > 0 {
      WakesSetStatus(AfterEvent(s, events[0]), events[1..]);
    }
  }

  /** From Spawn, over any Wake calls interleaved with Runs: the first 1000 Runs
      never dispatch the slot, and the 1001st does exactly when the last Wake
      left it running and it has code and a name. */
  lemma FirstDispatchAfterSpawn(slot: Slot, hasCode: bool, named: bool, events: seq<SlotEvent>)
    requires RunsIn(events) <= 1000
    ensures var s := Spawned(slot, hasCode, named);
            var s' := AfterEvents(s, events);
            && DispatchesIn(s, events) == 0
            && s'.pTime == 1000 - RunsIn(events)
            && (RunsIn(events) == 1000 ==>
                  (CanBeScheduled(s') <==> LastStatus(Starting, events) == Running && hasCode && named))
            && (RunsIn(events) < 1000 ==> !CanBeScheduled(s'))
  {
    var s := Spawned(slot, hasCode, named);
    CountdownIgnoresStatus(s, events);
    WakesSetStatus(s, events);
    StatusesLeft(Starting, events);
  }

  lemma {:induction false} StatusesLeft(status: Status, events: seq<SlotEvent>)
    requires status in {Starting, Running, Frozen}
    ensures LastStatus(status, events) in {Starting, Running, Frozen}
    decreases |events|
  {
    if |events| > 0 {
      StatusesLeft(if events[0].WakeCall? then (if events[0].up then Running else Frozen) else status, events[1..]);
    }
  }

  // ------------------------------------------------------------------
  // The whole team
  // ------------------------------------------------------------------

  // The slots in order and the process count.
  datatype Team = Team(slots: seq<Slot>, count: int)

  datatype TeamEvent =
    | RunTeam
    | WakeSlot(index: nat, up: bool)
    | Spawn(hasCode: bool, named: bool)

  // Spawn takes the slot numbered by the process count.
  predicate EventDefined(t: Team, e: TeamEvent) {
    && |t.slots| == SLOTS
    && (e.WakeSlot? ==> e.index < SLOTS)
    && (e.Spawn? ==> 0 <= t.count < SLOTS)
  }

  function TeamRun(t: Team, core: bool): Team {
    if t.count < 1 then t else
      Team(seq(|t.slots|, i requires 0 <= i < |t.slots| => Tick(t.slots[i], core)),
           t.count - if core then 0 else Crashes(t.slots))
  }

  // What visiting slot k does to the team.
  function VisitSlot(t: Team, k: nat, core: bool): Team
    requires k < |t.slots|
  {
    var s := t.slots[k];
    Team(t.slots[k := Tick(s, core)],
         t.count - if !core && CanBeScheduled(s) && s.status == Running then 1 else 0)
  }

  // The team when a Run has visited the first k slots.
  function Visited(t: Team, k: nat, core: bool): (v: Team)
    requires k <= |t.slots|
    ensures |v.slots| == |t.slots|
  {
    Team(seq(|t.slots|, i requires 0 <= i < |t.slots| => if i < k then Tick(t.slots[i], core) else t.slots[i]),
         t.count - if core then 0 else Crashes(t.slots[..k]))
  }

  lemma VisitOne(t: Team, k: nat, core: bool)
    requires k < |t.slots|
    ensures VisitSlot(Visited(t, k, core), k, core) == Visited(t, k + 1, core)
  {
    assert t.slots[..k + 1][..k] == t.slots[..k];
    hide Tick, CanBeScheduled;
    assert VisitSlot(Visited(t, k, core), k, core).slots == Visited(t, k + 1, core).slots;
  }

  lemma NotYetVisited(t: Team, k: nat, core: bool)
    requires k < |t.slots|
    ensures Visited(t, k, core).slots[k] == t.slots[k]
  {
  }

  lemma VisitAll(t: Team, core: bool)
    requires t.count >= 1
    ensures Visited(t, 0, core) == t && Visited(t, |t.slots|, core) == TeamRun(t, core)
  {
    hide Tick, CanBeScheduled;
    assert t.slots[..|t.slots|] == t.slots;
    assert Visited(t, 0, core).slots == t.slots;
  }

  function Crashes(slots: seq<Slot>): nat {
    if slots == [] then 0
    else Crashes(slots[..|slots| - 1])
         + if CanBeScheduled(slots[|slots| - 1]) && slots[|slots| - 1].status == Running then 1 else 0
  }

  function TeamStep(t: Team, e: TeamEvent): (t': Team)
    requires EventDefined(t, e)
    ensures |t'.slots| == SLOTS
  {
    match e
    case RunTeam => TeamRun(t, true)
    case WakeSlot(i, up) => t.(slots := t.slots[i := Woken(t.slots[i], up)])
    case Spawn(code, named) =>
      Team(t.slots[t.count := Spawned(t.slots[t.count], code, named)], t.count + 1)
  }

  predicate TeamDefined(t: Team, events: seq<TeamEvent>)
    decreases |events|
  {
    |events| > 0 ==> EventDefined(t, events[0]) && TeamDefined(TeamStep(t, events[0]), events[1..])
  }

  function AfterTeamEvents(t: Team, events: seq<TeamEvent>): Team
    requires TeamDefined(t, events)
    decreases |events|
  {
    if |events| == 0 then t else AfterTeamEvents(TeamStep(t, events[0]), events[1..])
  }

  // What slot i sees of the team's events.
  function SeenOf(i: nat, e: TeamEvent): seq<SlotEvent> {
    match e
    case RunTeam => [RunOnce]
    case WakeSlot(j, up) => if i == j then [WakeCall(up)] else []
    case Spawn(_, _) => []
  }

  function SeenBy(i: nat, events: seq<TeamEvent>): seq<SlotEvent>
    decreases |events|
  {
    if |events| == 0 then [] else SeenOf(i, events[0]) + SeenBy(i, events[1..])
  }

  function RunsOf(events: seq<TeamEvent>): nat
    decreases |events|
  {
    if |events| == 0 then 0 else (if events[0].RunTeam? then 1 else 0) + RunsOf(events[1..])
  }

  // How often the Runs among the events dispatch slot i.
  function TeamDispatches(t: Team, events: seq<TeamEvent>, i: nat): nat
    requires TeamDefined(t, events) && i < SLOTS
    decreases |events|
  {
    if |events| == 0 then 0
    else (if events[0].RunTeam? && t.count >= 1 && CanBeScheduled(t.slots[i]) then 1 else 0)
         + TeamDispatches(TeamStep(t, events[0]), events[1..], i)
  }

  // No event spawns into slot i: it is below the process count, which no event
  // lowers, or nothing is spawned.
  predicate Keeps(t: Team, events: seq<TeamEvent>, i: nat) {
    && |t.slots| == SLOTS && i < SLOTS && 1 <= t.count <= SLOTS
    && (i < t.count || forall k :: 0 <= k < |events| ==> !events[k].Spawn?)
  }

  /** Slots do not disturb each other: over any events of the team, a slot that
      is not spawned anew goes through exactly the events it sees, and no
      process is lost. */
  lemma {:induction false} SlotsAreIndependent(t: Team, events: seq<TeamEvent>, i: nat)
    requires TeamDefined(t, events) && Keeps(t, events, i)
    ensures var t' := AfterTeamEvents(t, events);
            && |t'.slots| == SLOTS && t.count <= t'.count <= SLOTS
            && t'.slots[i] == AfterEvents(t.slots[i], SeenBy(i, events))
            && TeamDispatches(t, events, i) == DispatchesIn(t.slots[i], SeenBy(i, events))
            && RunsIn(SeenBy(i, events)) == RunsOf(events)
    decreases |events|
  {
    if |events| > 0 {
      var first, rest := SeenOf(i, events[0]), SeenBy(i, events[1..]);
      StepSeen(t, events[0], i);
      hide Tick, CanBeScheduled, TeamStep, Woken;
      SlotsAreIndependent(TeamStep(t, events[0]), events[1..], i);
      if |first| == 0 {
        assert first + rest == rest;
      } else {
        assert (first + rest)[1..] == rest;
      }
    }
  }

  // One event of the team, as slot i sees it.
  lemma StepSeen(t: Team, e: TeamEvent, i: nat)
    requires EventDefined(t, e) && Keeps(t, [e], i)
    ensures var seen, next := SeenOf(i, e), TeamStep(t, e);
            && t.count <= next.count <= SLOTS
            && next.slots[i] == (if |seen| == 0 then t.slots[i] else AfterEvent(t.slots[i], seen[0]))
            && (|seen| == 1 && seen[0].RunOnce? <==> e.RunTeam?)
  {
    assert i < t.count || ![e][0].Spawn?;
    hide Tick, CanBeScheduled;
  }

  /** Spawn to first dispatch, for a slot among others: over any events of the
      team with at most 1000 Runs, the next Run dispatches the spawned slot
      exactly when 1000 Runs have passed, the last Wake left it running, and it
      has code and a name. */
  lemma FirstDispatchInTeam(t: Team, hasCode: bool, named: bool, events: seq<TeamEvent>)
    requires EventDefined(t, Spawn(hasCode, named))
    requires TeamDefined(TeamStep(t, Spawn(hasCode, named)), events)
    requires RunsOf(events) <= 1000
    ensures var seen := SeenBy(t.count, events);
            var t' := AfterTeamEvents(TeamStep(t, Spawn(hasCode, named)), events);
            && |t'.slots| == SLOTS
            && t'.slots[t.count].pTime == 1000 - RunsOf(events)
            && TeamDispatches(TeamStep(t, Spawn(hasCode, named)), events, t.count) == 0
            && (CanBeScheduled(t'.slots[t.count]) <==>
                  RunsOf(events) == 1000 && LastStatus(Starting, seen) == Running && hasCode && named)
  {
    SlotsAreIndependent(TeamStep(t, Spawn(hasCode, named)), events, t.count);
    FirstDispatchAfterSpawn(t.slots[t.count], hasCode, named, SeenBy(t.count, events));
  }

  // ------------------------------------------------------------------
  // One Run, with the cores and the stack frames
  // ------------------------------------------------------------------

  // What a switch stores in a stack frame: the image as base and the top of
  // the process's stack.
  datatype Context = Context(base: nat, top: nat)

  // Slots and count, the cores, each slot's frame and context, and the memory
  // behind the frames.
  datatype World = World(slots: seq<Slot>, count: int, cores: seq<Core>, frames: seq<nat>, contexts: seq<Context>,
                         stacks: map<nat, Context>)

  predicate WorldFormed(w: World) {
    |w.slots| == |w.frames| == |w.contexts| == SLOTS && |w.cores| == CORES
  }

  function ChargeOf(w: World, k: nat): World
    requires WorldFormed(w) && k < SLOTS
  {
    w.(slots := w.slots[k := Charged(w.slots[k])])
  }

  function SwitchOf(w: World, k: nat, pTime: nat, register: int -> bool): World
    requires WorldFormed(w) && k < SLOTS
  {
    w.(cores := Switched(w.cores, w.frames[k], k, pTime, register(k)),
       stacks := if ChosenCore(w.cores).Some? then w.stacks[w.frames[k] := w.contexts[k]] else w.stacks)
  }

  function CrashOf(w: World, k: nat): World
    requires WorldFormed(w) && k < SLOTS
  {
    if w.slots[k].status != Running then w else
      w.(slots := w.slots[k := Crashed(w.slots[k])], count := w.count - 1,
         frames := w.frames[k := 0], contexts := w.contexts[k := w.contexts[k].(base := 0)])
  }

  function CountDownOf(w: World, k: nat): World
    requires WorldFormed(w) && k < SLOTS
  {
    w.(slots := w.slots[k := CountedDown(w.slots[k])])
  }

  function DispatchOf(w: World, k: nat, register: int -> bool): World
    requires WorldFormed(w) && k < SLOTS
  {
    SwitchOf(ChargeOf(w, k), k, Charged(w.slots[k]).pTime, register)
  }

  function VisitOf(w: World, k: nat, register: int -> bool): (w': World)
    requires WorldFormed(w) && k < SLOTS
    ensures WorldFormed(w')
  {
    if !CanBeScheduled(w.slots[k]) then CountDownOf(w, k)
    else if ChosenCore(w.cores).Some? then DispatchOf(w, k, register)
    else CrashOf(DispatchOf(w, k, register), k)
  }

  function VisitedOf(w: World, k: nat, register: int -> bool): (w': World)
    requires WorldFormed(w) && k <= SLOTS
    ensures WorldFormed(w')
  {
    if k == 0 then w else VisitOf(VisitedOf(w, k - 1, register), k - 1, register)
  }

  // The memory behind the frames when a Run with a usable core has visited the
  // first k slots.
  function StacksAfter(w: World, k: nat): map<nat, Context>
    requires WorldFormed(w) && k <= SLOTS
  {
    if k == 0 then w.stacks
    else if CanBeScheduled(w.slots[k - 1]) then StacksAfter(w, k - 1)[w.frames[k - 1] := w.contexts[k - 1]]
    else StacksAfter(w, k - 1)
  }

  /** Each dispatched slot's frame holds its image and stack top, unless a later
      one shares the frame. */
  lemma {:induction false} FramesHoldContexts(w: World, k: nat, i: nat)
    requires WorldFormed(w) && i < k <= SLOTS && CanBeScheduled(w.slots[i])
    requires forall j :: i < j < k && CanBeScheduled(w.slots[j]) ==> w.frames[j] != w.frames[i]
    ensures w.frames[i] in StacksAfter(w, k) && StacksAfter(w, k)[w.frames[i]] == w.contexts[i]
    decreases k
  {
    hide CanBeScheduled;
    if i < k - 1 { FramesHoldContexts(w, k - 1, i); }
  }

  /** Every address that is no dispatched slot's frame holds what it held. */
  lemma {:induction false} OtherFramesKept(w: World, k: nat, a: nat)
    requires WorldFormed(w) && k <= SLOTS
    requires forall i :: 0 <= i < k && CanBeScheduled(w.slots[i]) ==> w.frames[i] != a
    ensures a in StacksAfter(w, k) <==> a in w.stacks
    ensures a in w.stacks ==> StacksAfter(w, k)[a] == w.stacks[a]
    decreases k
  {
    hide CanBeScheduled;
    if k > 0 { OtherFramesKept(w, k - 1, a); }
  }

  // One visit, for slots and count and for the cores.
  lemma VisitTeam(w: World, k: nat, register: int -> bool)
    requires WorldFormed(w) && k < SLOTS
    ensures var w', core := VisitOf(w, k, register), ChosenCore(w.cores).Some?;
            && Team(w'.slots, w'.count) == VisitSlot(Team(w.slots, w.count), k, core)
            && ChosenCore(w'.cores) == ChosenCore(w.cores)
            && (forall i :: 0 <= i < SLOTS && (i != k || core) ==>
                  w'.frames[i] == w.frames[i] && w'.contexts[i] == w.contexts[i])
            && (!core ==> w'.stacks == w.stacks)
  {
    hide ChosenCore, Switched, CanBeScheduled, CountedDown, Ticks;
    var s := w.slots[k];
    ChoiceIsStable(w.cores, w.frames[k], k, Charged(s).pTime, register(k));
  }

  /** The loop over the slots is one Run of the team, and it leaves the cores as
      the dispatches in slot order do. */
  lemma {:induction false} VisitedIsRun(w: World, k: nat, register: int -> bool)
    requires WorldFormed(w) && k <= SLOTS
    ensures var w', core := VisitedOf(w, k, register), ChosenCore(w.cores).Some?;
            && Team(w'.slots, w'.count) == Visited(Team(w.slots, w.count), k, core)
            && ChosenCore(w'.cores) == ChosenCore(w.cores)
            && w'.cores == CoresAfter(w.cores, w.slots, w.frames, register, k)
            && (forall i :: 0 <= i < SLOTS && (k <= i || core) ==>
                  w'.frames[i] == w.frames[i] && w'.contexts[i] == w.contexts[i])
            && w'.stacks == if core then StacksAfter(w, k) else w.stacks
    decreases k
  {
    var team, core := Team(w.slots, w.count), ChosenCore(w.cores).Some?;
    if k > 0 {
      hide Visited, VisitSlot, VisitOf, ChosenCore, Switched, CanBeScheduled;
      VisitedIsRun(w, k - 1, register);
      VisitOne(team, k - 1, core);
      NotYetVisited(team, k - 1, core);
      VisitTeam(VisitedOf(w, k - 1, register), k - 1, register);
      VisitCores(VisitedOf(w, k - 1, register), k - 1, register);
    } else {
      assert Visited(team, 0, core).slots == team.slots;
    }
  }

  lemma VisitCores(w: World, k: nat, register: int -> bool)
    requires WorldFormed(w) && k < SLOTS
    ensures var w', s := VisitOf(w, k, register), w.slots[k];
            && w'.cores == (if !CanBeScheduled(s) then w.cores
                            else Switched(w.cores, w.frames[k], k, Ticks(s.affinity), register(k)))
            && (ChosenCore(w.cores).Some? ==>
                  w'.stacks == if CanBeScheduled(s) then w.stacks[w.frames[k] := w.contexts[k]] else w.stacks)
  {
    hide ChosenCore, Switched, CanBeScheduled, CountedDown, Ticks, Crashed;
  }

  // ------------------------------------------------------------------
  // Dispatch times within the team
  // ------------------------------------------------------------------

  // Nothing puts the slot to sleep.
  predicate Awake(events: seq<SlotEvent>) {
    forall k :: 0 <= k < |events| ==> events[k] != WakeCall(false)
  }

  lemma {:induction false} RunsShift(s: Slot, n: nat)
    ensures AfterRuns(Tick(s, true), n) == AfterRuns(s, n + 1)
    ensures Dispatches(s, n + 1) == Dispatches(Tick(s, true), n) + if CanBeScheduled(s) then 1 else 0
    decreases n
  {
    hide Tick, CanBeScheduled;
    assert AfterRuns(s, 0) == s && AfterRuns(s, 1) == Tick(s, true);
    if n > 0 {
      RunsShift(s, n - 1);
      assert DispatchedAt(s, n + 1) == DispatchedAt(Tick(s, true), n);
    } else {
      assert Dispatches(s, 1) == Dispatches(s, 0) + if DispatchedAt(s, 1) then 1 else 0;
    }
  }

  lemma WakingTheAwake(s: Slot)
    requires Schedulable(s)
    ensures Woken(s, true) == s && Schedulable(Tick(s, true))
  {
    TickOfSchedulable(s);
  }

  // Waking a running slot changes nothing, so it only goes through the Runs.
  lemma {:induction false} AwakeSlotsOnlyRun(s: Slot, events: seq<SlotEvent>)
    requires Schedulable(s) && Awake(events)
    ensures AfterEvents(s, events) == AfterRuns(s, RunsIn(events))
    ensures DispatchesIn(s, events) == Dispatches(s, RunsIn(events))
    decreases |events|
  {
    if |events| > 0 {
      WakingTheAwake(s);
      RunsShift(s, RunsIn(events[1..]));
      assert events[0] != WakeCall(false);
      AwakeSlotsOnlyRun(AfterEvent(s, events[0]), events[1..]);
    }
  }

  /** Dispatches of a running slot within the team, over any events that leave it
      awake, Spawns into other slots and Wakes of any slots included: with
      countdown p and affinity a the next Run, number r + 1 after r Runs,
      dispatches it exactly when it is due, on Run p + 1 and then every a + 1,
      and the dispatches so far have the closed form. */
  lemma TeamDispatchTimes(t: Team, events: seq<TeamEvent>, i: nat)
    requires TeamDefined(t, events) && Keeps(t, events, i)
    requires Schedulable(t.slots[i]) && Awake(SeenBy(i, events))
    ensures var t' := AfterTeamEvents(t, events);
            var p, a := t.slots[i].pTime, Ticks(t.slots[i].affinity);
            && |t'.slots| == SLOTS && t'.count >= 1
            && (CanBeScheduled(t'.slots[i]) <==> DueAt(p, a, RunsOf(events) + 1))
            && TeamDispatches(t, events, i) == DuesUpTo(p, a, RunsOf(events))
  {
    hide CanBeScheduled, DueAt, DuesUpTo, Dispatches, AfterRuns, AfterEvents, Schedulable, Awake, Ticks, RunsOf, SeenBy,
         TeamDispatches, DispatchesIn, AfterTeamEvents, TeamDefined, RunsIn;
    var s := t.slots[i];
    SlotsAreIndependent(t, events, i);
    AwakeSlotsOnlyRun(s, SeenBy(i, events));
    DispatchTimes(s, RunsOf(events) + 1);
    DispatchCount(s, RunsOf(events));
  }

  // ------------------------------------------------------------------
  // From Spawn on, in numbers
  // ------------------------------------------------------------------

  /** Spawn touches no slot but its own, and of that one not the affinity. */
  lemma SpawnTouchesOneSlot(t: Team, hasCode: bool, named: bool, i: nat)
    requires EventDefined(t, Spawn(hasCode, named)) && i < SLOTS
    ensures var after := TeamStep(t, Spawn(hasCode, named)).slots;
            && (i != t.count ==> after[i] == t.slots[i])
            && (i == t.count ==> after[i] == Slot(Starting, t.slots[i].affinity, hasCode, named, 1000))
  {
  }

  /** No event of the team changes an affinity. */
  lemma {:induction false} AffinitiesStay(t: Team, events: seq<TeamEvent>, i: nat)
    requires TeamDefined(t, events) && |t.slots| == SLOTS && i < SLOTS
    ensures var t' := AfterTeamEvents(t, events);
            |t'.slots| == SLOTS && t'.slots[i].affinity == t.slots[i].affinity
    decreases |events|
  {
    if |events| > 0 {
      StepKeepsAffinity(t, events[0], i);
      hide TeamStep, EventDefined;
      AffinitiesStay(TeamStep(t, events[0]), events[1..], i);
    }
  }

  lemma StepKeepsAffinity(t: Team, e: TeamEvent, i: nat)
    requires EventDefined(t, e) && i < SLOTS
    ensures TeamStep(t, e).slots[i].affinity == t.slots[i].affinity
  {
    hide CanBeScheduled;
    if e.Spawn? { SpawnTouchesOneSlot(t, e.hasCode, e.named, i); }
  }

  // A spawned slot that was woken within its first 1000 Runs.
  lemma WokenAfterSpawn(t: Team, before: seq<TeamEvent>)
    requires EventDefined(t, Spawn(true, true)) && TeamDefined(TeamStep(t, Spawn(true, true)), before)
    requires RunsOf(before) <= 1000 && LastStatus(Starting, SeenBy(t.count, before)) == Running
    ensures var t2 := AfterTeamEvents(TeamStep(t, Spawn(true, true)), before);
            && |t2.slots| == SLOTS && t.count < t2.count <= SLOTS
            && t2.slots[t.count] == Slot(Running, t.slots[t.count].affinity, true, true, 1000 - RunsOf(before))
            && TeamDispatches(TeamStep(t, Spawn(true, true)), before, t.count) == 0
  {
    var i, t1 := t.count, TeamStep(t, Spawn(true, true));
    SpawnTouchesOneSlot(t, true, true, i);
    hide CanBeScheduled, TeamStep;
    SlotsAreIndependent(t1, before, i);
    CountdownIgnoresStatus(t1.slots[i], SeenBy(i, before));
    WakesSetStatus(t1.slots[i], SeenBy(i, before));
  }

  /** A process of standard affinity, spawned with a name and code, woken within
      1000 Runs of its team and kept awake from then on: the Run numbered r from
      Spawn dispatches it if and only if r is 1001 or a multiple of 1001 later,
      and the number of dispatches has the closed form. */
  lemma SpawnDispatchTimes(t: Team, before: seq<TeamEvent>, after: seq<TeamEvent>)
    requires EventDefined(t, Spawn(true, true)) && t.slots[t.count].affinity == Standard
    requires TeamDefined(TeamStep(t, Spawn(true, true)), before)
    requires RunsOf(before) <= 1000 && LastStatus(Starting, SeenBy(t.count, before)) == Running
    requires TeamDefined(AfterTeamEvents(TeamStep(t, Spawn(true, true)), before), after)
    requires Awake(SeenBy(t.count, after))
    ensures var t1 := TeamStep(t, Spawn(true, true));
            var t2 := AfterTeamEvents(t1, before);
            var t3 := AfterTeamEvents(t2, after);
            var r := RunsOf(before) + RunsOf(after) + 1;
            && |t3.slots| == SLOTS
            && (CanBeScheduled(t3.slots[t.count]) <==> r >= 1001 && (r - 1001) % 1001 == 0)
            && TeamDispatches(t1, before, t.count) + TeamDispatches(t2, after, t.count)
               == if r <= 1001 then 0 else (r - 1002) / 1001 + 1
  {
    WokenAfterSpawn(t, before);
    hide CanBeScheduled, TeamStep, AfterTeamEvents, TeamDefined, TeamDispatches, RunsOf, SeenBy, Awake;
    TeamDispatchTimes(AfterTeamEvents(TeamStep(t, Spawn(true, true)), before), after, t.count);
  }

  /** The same from a team whose slots all have the standard affinity, after any
      events before the Spawn. */
  lemma StandardTeamDispatchTimes(t0: Team, past: seq<TeamEvent>, before: seq<TeamEvent>, after: seq<TeamEvent>)
    requires |t0.slots| == SLOTS && forall i :: 0 <= i < SLOTS ==> t0.slots[i].affinity == Standard
    requires TeamDefined(t0, past)
    requires var t := AfterTeamEvents(t0, past);
             && EventDefined(t, Spawn(true, true)) && TeamDefined(TeamStep(t, Spawn(true, true)), before)
             && TeamDefined(AfterTeamEvents(TeamStep(t, Spawn(true, true)), before), after)
             && LastStatus(Starting, SeenBy(t.count, before)) == Running && Awake(SeenBy(t.count, after))
    requires RunsOf(before) <= 1000
    ensures var t := AfterTeamEvents(t0, past);
            var t3 := AfterTeamEvents(AfterTeamEvents(TeamStep(t, Spawn(true, true)), before), after);
            var r := RunsOf(before) + RunsOf(after) + 1;
            && |t3.slots| == SLOTS
            && (CanBeScheduled(t3.slots[t.count]) <==> r >= 1001 && (r - 1001) % 1001 == 0)
  {
    var t := AfterTeamEvents(t0, past);
    AffinitiesStay(t0, past, t.count);
    hide CanBeScheduled, TeamStep, AfterTeamEvents, TeamDefined, RunsOf, SeenBy, Awake;
    SpawnDispatchTimes(t, before, after);
  }
}
