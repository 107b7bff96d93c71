/** Trap handling and round-robin scheduling (kernel/task.c, kernel/task.h) as steps between states. */
module TaskSteps {
  import opened Machine

  const NR_LOG: nat := 0
  const NR_EXIT: nat := 1
  const EFAULT: nat := 14
  const EINVAL: nat := 22
  const ENOSYS: nat := 38
  const LOG_LIMIT: nat := 256

  /** A saved frame: x0 to x30, stack pointer, program counter and processor state. */
  datatype Regs = Regs(x: seq<nat>, sp: nat, pc: nat, pstate: nat) {
    ghost predicate Ok() { |x| == 31 && forall i :: 0 <= i < |x| ==> x[i] < WORD }
  }

  datatype Task = Task(regs: Regs, image: nat, size: nat, stackBottom: nat, stackTop: nat, runnable: bool, observed: bool,
                       exitCode: nat)

  /** What appears on the console. */
  datatype Output =
    | Loaded(app: nat, image: nat, stack: nat)
    | TrapSeen(app: nat, origin: nat, handler: nat)
    | FaultSeen(app: nat, esr: nat, far: nat, elr: nat)
    | ExitSeen(app: nat, status: nat)
    | AllSeen
    | Prefix(app: nat)
    | Char(c: char)

  /** A trap: the interrupted frame, whether interrupts are masked, an interrupt or a synchronous exception, what the
      timer says, the syndrome and fault address, the exception level register, user memory as the handler reads it, and
      whether the timer can be stopped. */
  datatype Event = Event(regs: Regs, masked: bool, irq: bool, tick: bool, syndrome: nat, far: nat, level: nat,
                         memory: nat -> char, timerStops: bool)

  datatype Outcome = Resume(task: nat) | AllDone | Panic

  datatype State = State(tasks: seq<Task>, current: nat, console: seq<Output>) {
    ghost predicate Ok() { current < |tasks| && forall i :: 0 <= i < |tasks| ==> tasks[i].regs.Ok() }

    ghost predicate Runnable(t: nat) { t < |tasks| && tasks[t].runnable }

    /** The state while a task runs. */
    ghost predicate Running() { Ok() && Runnable(current) }
  }

  /** How many places ahead of `from` task `to` is, going round: between 1 and `n`. */
  function Distance(n: nat, from: nat, to: nat): int { if to > from then to - from else to + n - from }

  /** `next` is the runnable task nearest ahead of the current one. */
  ghost predicate IsNext(s: State, next: nat) {
    s.Runnable(next) && forall t: nat :: s.Runnable(t) ==> Distance(|s.tasks|, s.current, next) <= Distance(|s.tasks|, s.current, t)
  }

  lemma Ahead(n: nat, current: nat, offset: nat)
    requires current < n && 1 <= offset <= n
    ensures var next := (current + offset) % n; next < n && Distance(n, current, next) == offset
    ensures forall t: nat :: t < n && Distance(n, current, t) == offset ==> t == (current + offset) % n
  {
    if current + offset >= n {
      assert (current + offset) % n == current + offset - n;
    }
  }

  /** schedule: go to the nearest runnable task, or finish when there is none. */
  ghost predicate Scheduled(s: State, e: Event, s': State, out: Outcome) {
    match out
    case Resume(next) => IsNext(s, next) && s' == s.(current := next)
    case AllDone => s' == s.(console := s.console + [AllSeen]) && e.timerStops && forall t: nat :: !s.Runnable(t)
    case Panic => s' == s && !e.timerStops && forall t: nat :: !s.Runnable(t)
  }

  /** [pointer, pointer + length) lies within [start, start + size). */
  ghost predicate Within(start: nat, size: nat, pointer: nat, length: nat) {
    start <= pointer && pointer + length <= start + size
  }

  ghost predicate MayLog(t: Task, pointer: nat, length: nat) {
    Within(t.image, t.size, pointer, length) || Within(t.stackBottom, APP_STACK_SIZE, pointer, length)
  }

  ghost function Payload(memory: nat -> char, pointer: nat, length: nat): seq<Output> {
    seq(length, i requires 0 <= i < length => Char(memory(pointer + i)))
  }

  /** Result of the log call, as the 64-bit word left in x0. */
  ghost function LogResult(t: Task, pointer: nat, length: nat): nat {
    if length > LOG_LIMIT then WORD - EINVAL
    else if length == 0 || MayLog(t, pointer, length) then length
    else WORD - EFAULT
  }

  /** What the log call prints. */
  ghost function LogOutput(app: nat, t: Task, memory: nat -> char, pointer: nat, length: nat): seq<Output> {
    if 0 < length <= LOG_LIMIT && MayLog(t, pointer, length) then [Prefix(app)] + Payload(memory, pointer, length) else []
  }

  /** The entry checks of trap that end in a panic. */
  predicate Rejected(t: Task, e: Event) {
    e.regs.pstate % 0x20 != 0 || !e.masked || e.regs.sp < t.stackBottom || e.regs.sp > t.stackTop || e.regs.sp % 16 != 0
  }

  predicate IsSvc(syndrome: nat) { syndrome / 0x400_0000 == 0x15 && syndrome % 0x1_0000 == 0 }

  /** A system call that returns to its caller. */
  predicate Returns(e: Event)
    requires |e.regs.x| == 31
  {
    !e.irq && IsSvc(e.syndrome) && e.regs.x[8] != NR_EXIT
  }

  /** The current task with the interrupted frame saved. */
  function Entered(t: Task, e: Event): Task { t.(regs := e.regs, observed := true) }

  function EnteredOutput(t: Task, app: nat, e: Event): seq<Output> {
    if t.observed then [] else [TrapSeen(app, e.regs.pstate % 0x20, e.level / 4)]
  }

  ghost function WithCurrent(s: State, t: Task, out: seq<Output>): State
    requires s.current < |s.tasks|
  {
    s.(tasks := s.tasks[s.current := t], console := s.console + out)
  }

  /** x0 of the frame that a returning system call leaves. */
  ghost function SyscallResult(t: Task, e: Event): nat
    requires |e.regs.x| == 31
  {
    if e.regs.x[8] == NR_LOG then LogResult(t, e.regs.x[0], e.regs.x[1]) else WORD - ENOSYS
  }

  ghost function SyscallOutput(app: nat, t: Task, e: Event): seq<Output>
    requires |e.regs.x| == 31
  {
    if e.regs.x[8] == NR_LOG then LogOutput(app, t, e.memory, e.regs.x[0], e.regs.x[1]) else []
  }

  /** Does the trap call the scheduler? */
  predicate Schedules(t: Task, e: Event)
    requires |e.regs.x| == 31
  {
    !Rejected(t, e) && if e.irq then e.tick else !Returns(e)
  }

  /** The state in which the scheduler is called: after a tick as entered, else with the task stopped. */
  ghost function BeforeSchedule(s: State, e: Event): State
    requires s.current < |s.tasks| && |e.regs.x| == 31
  {
    var t := s.tasks[s.current];
    var entered, out := Entered(t, e), EnteredOutput(t, s.current, e);
    if e.irq then WithCurrent(s, entered, out)
    else if IsSvc(e.syndrome) then
      WithCurrent(s, entered.(exitCode := e.regs.x[0], runnable := false), out + [ExitSeen(s.current, e.regs.x[0])])
    else WithCurrent(s, entered.(runnable := false), out + [FaultSeen(s.current, e.syndrome, e.far, e.regs.pc)])
  }

  /** One trap. */
  ghost predicate Step(s: State, e: Event, s': State, out: Outcome) {
    && s.Ok() && e.regs.Ok()
    && var t := s.tasks[s.current];
       var entered, seen := Entered(t, e), EnteredOutput(t, s.current, e);
       if Rejected(t, e) then out == Panic && s' == s
       else if Schedules(t, e) then Scheduled(BeforeSchedule(s, e), e, s', out)
       else if e.irq then out == Resume(s.current) && s' == WithCurrent(s, entered, seen)
       else
         && out == Resume(s.current)
         && s' == WithCurrent(s, entered.(regs := e.regs.(x := e.regs.x[0 := SyscallResult(t, e)])), seen + SyscallOutput(s.current, t, e))
  }

  /** Consecutive traps; after the last one the machine may have stopped. */
  ghost predicate Run(states: seq<State>, events: seq<Event>, outs: seq<Outcome>) {
    && |states| == |events| + 1 && |outs| == |events|
    && (forall k :: 0 <= k < |events| ==> StepAt(states, events, outs, k))
  }

  ghost predicate StepAt(states: seq<State>, events: seq<Event>, outs: seq<Outcome>, k: int) {
    && 0 <= k < |events| == |outs| && |states| == |events| + 1
    && Step(states[k], events[k], states[k + 1], outs[k])
    && (k < |events| - 1 ==> outs[k].Resume?)
  }

  /** One step keeps the number of tasks, stops no task but the current one, restarts none, and changes no frame but the
      current task's. */
  lemma StepKeeps(s: State, e: Event, s': State, out: Outcome)
    requires Step(s, e, s', out)
    ensures |s'.tasks| == |s.tasks| && s'.Ok()
    ensures forall t: nat :: t < |s.tasks| && t != s.current ==> s'.tasks[t] == s.tasks[t]
    ensures forall t: nat :: s'.Runnable(t) ==> s.Runnable(t)
    ensures out.Resume? ==> s'.current == out.task && (s.Runnable(s.current) ==> s'.Running())
    ensures s.Runnable(s.current) && !s'.Runnable(s.current) ==> Schedules(s.tasks[s.current], e) && !e.irq
  {
  }

  /** In a run that starts with a running task, every resumed task is runnable. */
  lemma {:induction false} RunRunning(states: seq<State>, events: seq<Event>, outs: seq<Outcome>, k: nat)
    requires Run(states, events, outs) && states[0].Running() && k <= |events|
    ensures k < |events| || (k > 0 && outs[k - 1].Resume?) || k == 0 ==> states[k].Running()
    ensures |states[k].tasks| == |states[0].tasks| && states[k].Ok()
    ensures k > 0 && outs[k - 1].Resume? ==> states[k].current == outs[k - 1].task
  {
    hide Step, State.Runnable;
    if k > 0 {
      RunRunning(states, events, outs, k - 1);
      assert StepAt(states, events, outs, k - 1);
      RunningStep(states[k - 1], events[k - 1], states[k], outs[k - 1]);
    }
  }

  lemma RunningStep(s: State, e: Event, s': State, out: Outcome)
    requires Step(s, e, s', out)
    ensures |s'.tasks| == |s.tasks| && s'.Ok() && (out.Resume? ==> s'.current == out.task && (s.Running() ==> s'.Running()))
  {
    StepKeeps(s, e, s', out);
  }

  /** A task that has exited or faulted is never resumed. */
  lemma {:induction false} NeverResumed(states: seq<State>, events: seq<Event>, outs: seq<Outcome>, t: nat, j: nat, k: nat)
    requires Run(states, events, outs) && states[0].Running() && j <= k <= |events| && !states[j].Runnable(t)
    ensures !states[k].Runnable(t)
    ensures k < |events| ==> outs[k] != Resume(t)
    decreases k - j
  {
    hide Step;
    if j < k {
      NeverResumed(states, events, outs, t, j, k - 1);
      assert StepAt(states, events, outs, k - 1);
      StepKeeps(states[k - 1], events[k - 1], states[k], outs[k - 1]);
    }
    if k < |events| {
      assert StepAt(states, events, outs, k);
      RunRunning(states, events, outs, k);
      RunRunning(states, events, outs, k + 1);
      StepKeeps(states[k], events[k], states[k + 1], outs[k]);
    }
  }

  /** The trap ends its task: an accepted synchronous exception that is a fault or the exit call. */
  predicate Ends(t: Task, e: Event)
    requires |e.regs.x| == 31
  {
    !Rejected(t, e) && !e.irq && (!IsSvc(e.syndrome) || e.regs.x[8] == NR_EXIT)
  }

  lemma EndsStops(s: State, e: Event, s': State, out: Outcome)
    requires Step(s, e, s', out) && Ends(s.tasks[s.current], e)
    ensures !s'.Runnable(s.current) && out != Resume(s.current)
  {
  }

  /** A task that faults or exits at trap `j` is not resumed by that trap or by any later one. */
  lemma NeverAfterEnd(states: seq<State>, events: seq<Event>, outs: seq<Outcome>, t: nat, j: nat, k: nat)
    requires Run(states, events, outs) && states[0].Running() && j <= k < |events|
    requires states[j].Ok() && events[j].regs.Ok() && states[j].current == t && Ends(states[j].tasks[t], events[j])
    ensures outs[k] != Resume(t) && !states[k + 1].Runnable(t)
  {
    hide Step;
    assert StepAt(states, events, outs, j);
    EndsStops(states[j], events[j], states[j + 1], outs[j]);
    NeverResumed(states, events, outs, t, j + 1, k + 1);
    if j < k { NeverResumed(states, events, outs, t, j + 1, k); }
  }

  /** Trap `k` calls the scheduler. */
  ghost predicate CallsAt(states: seq<State>, events: seq<Event>, k: int) {
    && 0 <= k < |events| < |states| && states[k].Ok() && events[k].regs.Ok()
    && Schedules(states[k].tasks[states[k].current], events[k])
  }

  /** How many of the traps [a, b) call the scheduler. */
  ghost function Calls(states: seq<State>, events: seq<Event>, a: nat, b: nat): nat
    requires a <= b
    decreases b - a
  {
    if a == b then 0 else Calls(states, events, a, b - 1) + if CallsAt(states, events, b - 1) then 1 else 0
  }

  /** The scheduler picked task `t` at trap `k`. */
  ghost predicate Picked(states: seq<State>, events: seq<Event>, outs: seq<Outcome>, t: nat, k: int) {
    CallsAt(states, events, k) && k < |outs| && outs[k] == Resume(t)
  }

  lemma RunOk(states: seq<State>, events: seq<Event>, outs: seq<Outcome>)
    requires Run(states, events, outs)
    ensures forall k :: 0 <= k < |events| ==> states[k].Ok() && events[k].regs.Ok()
  {
    forall k | 0 <= k < |events|
      ensures states[k].Ok() && events[k].regs.Ok()
    {
      assert StepAt(states, events, outs, k);
    }
  }

  /** A scheduler call that does not pick a runnable task brings it nearer. */
  lemma Nearer(s: State, e: Event, s': State, out: Outcome, t: nat)
    requires Step(s, e, s', out) && s.Runnable(s.current) && s'.Runnable(t) && s.Runnable(t)
    ensures Schedules(s.tasks[s.current], e) && out != Resume(t) ==>
              Distance(|s'.tasks|, s'.current, t) < Distance(|s.tasks|, s.current, t)
    ensures !Schedules(s.tasks[s.current], e) && s'.current == s.current ==>
              Distance(|s'.tasks|, s'.current, t) == Distance(|s.tasks|, s.current, t)
    ensures !Schedules(s.tasks[s.current], e) ==> s'.current == s.current
  {
    StepKeeps(s, e, s', out);
    if Schedules(s.tasks[s.current], e) {
      var b := BeforeSchedule(s, e);
      assert b.Runnable(t);
    }
  }

  /** As long as a runnable task is not picked, each scheduler call brings it at least one place nearer. */
  lemma {:induction false} Approaches(states: seq<State>, events: seq<Event>, outs: seq<Outcome>, t: nat, a: nat, b: nat)
    requires Run(states, events, outs) && states[0].Running() && a <= b <= |events|
    requires forall k :: a <= k <= b ==> states[k].Runnable(t)
    requires forall k :: a <= k < b ==> !Picked(states, events, outs, t, k)
    ensures Calls(states, events, a, b) + Distance(|states[b].tasks|, states[b].current, t) <=
            Distance(|states[a].tasks|, states[a].current, t)
    decreases b - a
  {
    hide Step;
    if a < b {
      var k := b - 1;
      Approaches(states, events, outs, t, a, k);
      assert StepAt(states, events, outs, k);
      RunOk(states, events, outs);
      RunRunning(states, events, outs, k);
      Nearer(states[k], events[k], states[b], outs[k], t);
      assert !Picked(states, events, outs, t, k);
    }
  }

  /** Round robin: a task that stays runnable is picked within as many scheduler calls as there are tasks. */
  lemma RoundRobin(states: seq<State>, events: seq<Event>, outs: seq<Outcome>, t: nat, a: nat, b: nat)
    requires Run(states, events, outs) && states[0].Running() && a <= b <= |events|
    requires forall k :: a <= k <= b ==> states[k].Runnable(t)
    requires Calls(states, events, a, b) >= |states[0].tasks|
    ensures exists k :: a <= k < b && Picked(states, events, outs, t, k)
  {
    hide Step;
    if forall k :: a <= k < b ==> !Picked(states, events, outs, t, k) {
      Approaches(states, events, outs, t, a, b);
      RunRunning(states, events, outs, a);
      RunRunning(states, events, outs, b);
    }
  }

  /** Between traps of its own, a task's frame does not change. */
  lemma {:induction false} FrameKept(states: seq<State>, events: seq<Event>, outs: seq<Outcome>, t: nat, a: nat, b: nat)
    requires Run(states, events, outs) && a <= b <= |events| && t < |states[a].tasks|
    requires forall k :: a <= k < b ==> states[k].current != t
    ensures t < |states[b].tasks| && states[b].tasks[t] == states[a].tasks[t]
    decreases b - a
  {
    hide Step;
    if a < b {
      FrameKept(states, events, outs, t, a, b - 1);
      assert StepAt(states, events, outs, b - 1);
      StepKeeps(states[b - 1], events[b - 1], states[b], outs[b - 1]);
    }
  }

  /** The frame a step leaves for the task that trapped: the interrupted one, but for x0 after a returning system call. */
  lemma FrameSaved(s: State, e: Event, s': State, out: Outcome)
    requires Step(s, e, s', out) && out.Resume?
    ensures Returns(e) ==> out == Resume(s.current) && s'.current == s.current
    ensures var x0 := SyscallResult(s.tasks[s.current], e);
            s'.tasks[s.current].regs == if Returns(e) then e.regs.(x := e.regs.x[0 := x0]) else e.regs
  {
  }

  /** A resumed task continues from the frame saved at its last trap, `j`: exactly, or, if that trap was the system call
      now returning, with x0 replaced by the result. */
  lemma ResumedFrame(states: seq<State>, events: seq<Event>, outs: seq<Outcome>, t: nat, j: nat, k: nat)
    requires Run(states, events, outs) && states[0].Running() && j <= k < |events| && outs[k] == Resume(t)
    requires states[j].current == t && forall m :: j < m <= k ==> states[m].current != t
    ensures t < |states[k + 1].tasks|
    ensures states[j].Ok() && events[j].regs.Ok()
    ensures var x0 := SyscallResult(states[j].tasks[t], events[j]);
            states[k + 1].tasks[t].regs ==
            if j == k && Returns(events[j]) then events[j].regs.(x := events[j].regs.x[0 := x0]) else events[j].regs
  {
    hide Step;
    RunOk(states, events, outs);
    assert StepAt(states, events, outs, j);
    assert StepAt(states, events, outs, k);
    StepKeeps(states[j], events[j], states[j + 1], outs[j]);
    FrameSaved(states[j], events[j], states[j + 1], outs[j]);
    FrameKept(states, events, outs, t, j + 1, k + 1);
  }

  /** A task resumed for the first time gets the frame it was given at the start. */
  lemma FirstFrame(states: seq<State>, events: seq<Event>, outs: seq<Outcome>, t: nat, k: nat)
    requires Run(states, events, outs) && states[0].Running() && k < |events| && outs[k] == Resume(t)
    requires forall m :: 0 <= m <= k ==> states[m].current != t
    ensures t < |states[0].tasks| == |states[k + 1].tasks| && states[k + 1].tasks[t] == states[0].tasks[t]
  {
    hide Step;
    RunRunning(states, events, outs, k + 1);
    FrameKept(states, events, outs, t, 0, k + 1);
  }
}

/** What the loader sets up, and what every run keeps of it. */
module TaskLoading {
  import opened Machine
  import opened Words
  import opened TaskSteps

  const EL0_PSTATE: nat := 0x340

  /** The record of application `i` before it first runs. */
  function InitialTask(i: nat, size: nat): Task {
    var image := APP_FIRST + i * APP_SLOT_SIZE;
    var top := image + APP_SLOT_SIZE;
    Task(Regs(seq(31, _ => 0), top, image, EL0_PSTATE), image, size, top - APP_STACK_SIZE, top, true, false, 0)
  }

  predicate SizeOk(size: nat) { 0 < size <= APP_IMAGE_SIZE }

  /** Offset of slot `i` in memory. */
  function SlotOffset(i: nat): nat { APP_FIRST - PHYS_OFFSET + i * APP_SLOT_SIZE }

  const STACK_OFFSET: nat := APP_SLOT_SIZE - APP_STACK_SIZE

  lemma SlotBounds(i: nat, size: nat, n: nat)
    requires i < n
    ensures var t := InitialTask(i, size);
            && t.image - PHYS_OFFSET == SlotOffset(i) && t.stackBottom - PHYS_OFFSET == SlotOffset(i) + STACK_OFFSET
            && t.size == size && t.stackTop == t.stackBottom + APP_STACK_SIZE && SlotOffset(i + 1) <= SlotOffset(n)
            && Loaded(i, t.image, t.stackTop) == LoadReport(i)
            && (SizeOk(size) <==> !(size == 0 || size > APP_IMAGE_SIZE || t.image + size > t.stackBottom))
  {
  }

  /** Memory after one slot is loaded: the image at its start, zeros in its stack. */
  ghost function SlotLoaded(ram: seq<Byte>, at: nat, image: seq<Byte>, stack: nat): seq<Byte>
    requires at + |image| <= |ram| && stack + APP_STACK_SIZE <= |ram|
  {
    Overlay(Overlay(ram, at, image), stack, seq(APP_STACK_SIZE, _ => 0))
  }

  /** Memory after the first `k` slots are loaded. */
  ghost function AllLoaded(ram: seq<Byte>, images: seq<seq<Byte>>, k: nat): (r: seq<Byte>)
    requires k <= |images|
    ensures |r| == |ram|
  {
    if k == 0 then ram else
      var rest, at := AllLoaded(ram, images, k - 1), SlotOffset(k - 1);
      if at + |images[k - 1]| <= |ram| && at + APP_SLOT_SIZE <= |ram|
      then SlotLoaded(rest, at, images[k - 1], at + STACK_OFFSET) else rest
  }

  /** Byte `x` belongs to the image or the stack of slot `i`. */
  ghost predicate InSlot(images: seq<seq<Byte>>, i: nat, x: int) {
    i < |images| && (0 <= x - SlotOffset(i) < |images[i]| || STACK_OFFSET <= x - SlotOffset(i) < APP_SLOT_SIZE)
  }

  /** What a loaded slot holds at byte `x` of it. */
  ghost function SlotByte(images: seq<seq<Byte>>, i: nat, x: int): Byte
    requires InSlot(images, i, x)
  {
    if 0 <= x - SlotOffset(i) < |images[i]| then images[i][x - SlotOffset(i)] else 0
  }

  /** Every loaded slot holds its image and a cleared stack. */
  lemma {:induction false} LoadedByte(ram: seq<Byte>, images: seq<seq<Byte>>, k: nat, i: nat, x: nat)
    requires i < k <= |images| && SlotOffset(k) <= |ram| && x < |ram| && InSlot(images, i, x)
    requires forall j :: 0 <= j < k ==> SizeOk(|images[j]|)
    ensures AllLoaded(ram, images, k)[x] == SlotByte(images, i, x)
  {
    hide InSlot, SlotByte, SlotLoaded, AllLoaded;
    AllLoadedStep(ram, images, k);
    OneSlotByte(AllLoaded(ram, images, k - 1), images, k - 1, x);
    if i < k - 1 {
      LoadedByte(ram, images, k - 1, i, x);
      SlotsApart(images, i, k - 1, x);
    }
  }

  /** Bytes that belong to no loaded slot are as before. */
  lemma {:induction false} UntouchedByte(ram: seq<Byte>, images: seq<seq<Byte>>, k: nat, x: nat)
    requires k <= |images| && SlotOffset(k) <= |ram| && x < |ram|
    requires forall j :: 0 <= j < k ==> SizeOk(|images[j]|) && !InSlot(images, j, x)
    ensures AllLoaded(ram, images, k)[x] == ram[x]
  {
    if k > 0 {
      hide InSlot, SlotByte, SlotLoaded, AllLoaded;
      AllLoadedStep(ram, images, k);
      OneSlotByte(AllLoaded(ram, images, k - 1), images, k - 1, x);
      UntouchedByte(ram, images, k - 1, x);
    }
  }

  /** Memory after all images are loaded, as offsets into it: slot `i` begins at 16 MiB and `i` times 128 KiB, with the image
      at its start and a cleared stack in its last 16 KiB; all other bytes are as before. */
  lemma LoadedMemory(ram: seq<Byte>, images: seq<seq<Byte>>, x: nat)
    requires 0x100_0000 + |images| * 0x2_0000 <= |ram| && x < |ram|
    requires forall i :: 0 <= i < |images| ==> 0 < |images[i]| <= 0x1_0000
    ensures var i, o := (x - 0x100_0000) / 0x2_0000, (x - 0x100_0000) % 0x2_0000;
            AllLoaded(ram, images, |images|)[x] ==
            if 0 <= i < |images| && o < |images[i]| then images[i][o]
            else if 0 <= i < |images| && o >= 0x1_c000 then 0
            else ram[x]
  {
    hide AllLoaded;
    var i, o := (x - 0x100_0000) / 0x2_0000, (x - 0x100_0000) % 0x2_0000;
    assert x == 0x100_0000 + i * 0x2_0000 + o;
    if 0 <= i < |images| && (o < |images[i]| || o >= 0x1_c000) {
      LoadedByte(ram, images, |images|, i, x);
    } else {
      forall j: nat | j < |images|
        ensures !InSlot(images, j, x)
      {
        if j < i { assert j + 1 <= i; }
        if i < j { assert i + 1 <= j; }
      }
      UntouchedByte(ram, images, |images|, x);
    }
  }

  lemma AllLoadedStep(ram: seq<Byte>, images: seq<seq<Byte>>, k: nat)
    requires 0 < k <= |images| && SlotOffset(k) <= |ram| && SizeOk(|images[k - 1]|)
    ensures SlotOffset(k - 1) + APP_SLOT_SIZE == SlotOffset(k)
    ensures AllLoaded(ram, images, k) ==
            SlotLoaded(AllLoaded(ram, images, k - 1), SlotOffset(k - 1), images[k - 1], SlotOffset(k - 1) + STACK_OFFSET)
  {
  }

  lemma SlotsApart(images: seq<seq<Byte>>, i: nat, j: nat, x: int)
    requires i < j < |images| && SizeOk(|images[i]|) && InSlot(images, i, x)
    ensures !InSlot(images, j, x)
  {
  }

  lemma OneSlotByte(ram: seq<Byte>, images: seq<seq<Byte>>, i: nat, x: nat)
    requires i < |images| && SizeOk(|images[i]|) && SlotOffset(i) + APP_SLOT_SIZE <= |ram| && x < |ram|
    ensures SlotLoaded(ram, SlotOffset(i), images[i], SlotOffset(i) + STACK_OFFSET)[x] ==
            if InSlot(images, i, x) then SlotByte(images, i, x) else ram[x]
  {
    hide Overlay;
    var at, zeros := SlotOffset(i), seq(APP_STACK_SIZE, _ => 0);
    OverlayAt(ram, at, images[i], x);
    OverlayAt(Overlay(ram, at, images[i]), at + STACK_OFFSET, zeros, x);
  }

  ghost function InitialTasks(images: seq<seq<Byte>>): seq<Task> {
    seq(|images|, i requires 0 <= i < |images| => InitialTask(i, |images[i]|))
  }

  ghost function LoadReport(i: nat): Output { Loaded(i, APP_FIRST + i * APP_SLOT_SIZE, APP_FIRST + (i + 1) * APP_SLOT_SIZE) }

  ghost function LoadReports(n: nat): seq<Output> {
    seq(n, i requires 0 <= i < n => LoadReport(i))
  }

  /** The state in which the first application is entered. */
  ghost function InitialState(images: seq<seq<Byte>>): State {
    State(InitialTasks(images), 0, LoadReports(|images|))
  }

  /** Application `i` as it is first entered: at the start of its image, in slot `i` of 128 KiB, with its stack in the last
      16 KiB of the slot and empty, interrupts enabled at EL0, and every register zero. */
  ghost predicate Fresh(t: Task, i: nat, size: nat) {
    && t.regs.pc == 0x4100_0000 + i * 0x2_0000 && t.regs.sp == t.regs.pc + 0x2_0000 && t.regs.pstate == 0x340
    && |t.regs.x| == 31 && (forall r :: 0 <= r < 31 ==> t.regs.x[r] == 0)
    && t.image == t.regs.pc && t.size == size && t.stackTop == t.regs.sp && t.stackBottom == t.regs.pc + 0x1_c000
    && t.runnable && !t.observed && t.exitCode == 0
  }

  lemma InitialFresh(i: nat, size: nat)
    ensures Fresh(InitialTask(i, size), i, size)
  {
  }

  /** The first application is current, every task is fresh and runnable in its own slot, and the console has one report for
      each, with the ends of its slot. */
  lemma InitialRunning(images: seq<seq<Byte>>)
    requires |images| > 0 && forall i :: 0 <= i < |images| ==> SizeOk(|images[i]|)
    ensures var s := InitialState(images);
            s.Running() && InSlots(s) && |s.tasks| == |images| && forall t: nat :: t < |images| ==> s.Runnable(t)
    ensures var s := InitialState(images); s.current == 0 && forall t :: 0 <= t < |images| ==> Fresh(s.tasks[t], t, |images[t]|)
    ensures var console := InitialState(images).console;
            && |console| == |images|
            && forall t :: 0 <= t < |images| ==>
                 console[t] == Loaded(t, 0x4100_0000 + t * 0x2_0000, 0x4102_0000 + t * 0x2_0000)
  {
    var s := InitialState(images);
    forall t: nat | t < |images|
      ensures TaskSane(s, t) && Fresh(s.tasks[t], t, |images[t]|)
    {
      assert s.tasks[t] == InitialTask(t, |images[t]|);
      InitialFresh(t, |images[t]|);
    }
  }

  /** The first `k` applications are loaded. */
  ghost predicate Loading(was: seq<Byte>, ram: seq<Byte>, images: seq<seq<Byte>>, tasks: seq<Task>, console: seq<Output>, k: int) {
    && 0 <= k <= |images| == |tasks| && SlotOffset(|images|) <= |was|
    && (forall i :: 0 <= i < k ==> SizeOk(|images[i]|) && tasks[i] == InitialTask(i, |images[i]|))
    && console == LoadReports(k) && ram == AllLoaded(was, images, k)
  }

  lemma LoadingStart(was: seq<Byte>, images: seq<seq<Byte>>, tasks: seq<Task>)
    requires |images| == |tasks| && SlotOffset(|images|) <= |was|
    ensures Loading(was, was, images, tasks, [], 0)
  {
  }

  lemma LoadingStep(was: seq<Byte>, ram: seq<Byte>, ram': seq<Byte>, images: seq<seq<Byte>>, tasks: seq<Task>, tasks': seq<Task>,
                    console: seq<Output>, console': seq<Output>, k: nat)
    requires Loading(was, ram, images, tasks, console, k) && k < |images| && SizeOk(|images[k]|)
    requires tasks' == tasks[k := InitialTask(k, |images[k]|)]
    requires console' == console + [LoadReport(k)]
    requires |ram| == |was| && SlotOffset(k) + APP_SLOT_SIZE <= |was|
    requires ram' == SlotLoaded(ram, SlotOffset(k), images[k], SlotOffset(k) + STACK_OFFSET)
    ensures Loading(was, ram', images, tasks', console', k + 1)
  {
    hide Overlay, InitialTask;
  }

  lemma LoadingDone(was: seq<Byte>, ram: seq<Byte>, images: seq<seq<Byte>>, tasks: seq<Task>, console: seq<Output>)
    requires Loading(was, ram, images, tasks, console, |images|)
    ensures State(tasks, 0, console) == InitialState(images) && ram == AllLoaded(was, images, |images|)
    ensures forall i :: 0 <= i < |images| ==> 0 < |images[i]| <= 0x1_0000
  {
    hide Overlay, InitialTask, AllLoaded;
  }

  ghost predicate IsSlot(t: Task, i: nat) {
    && t.image == APP_FIRST + i * APP_SLOT_SIZE && SizeOk(t.size)
    && t.stackTop == t.image + APP_SLOT_SIZE && t.stackBottom == t.stackTop - APP_STACK_SIZE
  }

  /** Each task has its own slot, and its saved frame is one the entry checks accept. */
  ghost predicate InSlots(s: State) { forall i: nat :: i < |s.tasks| ==> TaskSane(s, i) }

  ghost predicate TaskSane(s: State, i: nat) {
    && i < |s.tasks| && IsSlot(s.tasks[i], i)
    && s.tasks[i].stackBottom <= s.tasks[i].regs.sp <= s.tasks[i].stackTop
    && s.tasks[i].regs.sp % 16 == 0 && s.tasks[i].regs.pstate % 0x20 == 0
  }

  /** No byte may be logged by two different tasks. */
  lemma LogsApart(s: State, i: nat, j: nat, p: nat)
    requires InSlots(s) && i < |s.tasks| && j < |s.tasks| && MayLog(s.tasks[i], p, 1) && MayLog(s.tasks[j], p, 1)
    ensures i == j
  {
    assert TaskSane(s, i) && TaskSane(s, j);
  }

  lemma StepInSlots(s: State, e: Event, s': State, out: Outcome)
    requires Step(s, e, s', out) && InSlots(s)
    ensures InSlots(s')
  {
    StepKeeps(s, e, s', out);
    forall i: nat | i < |s'.tasks|
      ensures TaskSane(s', i)
    {
      assert TaskSane(s, i);
    }
  }

  /** Every state of every run keeps the slots apart and the saved frames acceptable. */
  lemma {:induction false} RunInSlots(states: seq<State>, events: seq<Event>, outs: seq<Outcome>, k: nat)
    requires Run(states, events, outs) && InSlots(states[0]) && k <= |events|
    ensures InSlots(states[k])
  {
    hide Step, InSlots;
    if k > 0 {
      RunInSlots(states, events, outs, k - 1);
      assert StepAt(states, events, outs, k - 1);
      StepInSlots(states[k - 1], events[k - 1], states[k], outs[k - 1]);
    }
  }
}

/** The handler itself. */
module Tasks {
  import opened TaskLoading
  import opened Machine
  import opened Words
  import opened ByteStrings
  import opened TaskSteps
  import opened Options

  /** contains; the subtractions cannot wrap, so ranges that pass the end of the address space are refused. */
  function Contains(start: nat, size: nat, pointer: nat, length: nat): (r: bool)
    ensures r <==> Within(start, size, pointer, length)
  {
    pointer >= start && pointer - start <= size && length <= size - (pointer - start)
  }

  class Kernel {
    const tasks: array<Task>
    var current: nat
    var console: seq<Output>

    constructor (tasks': array<Task>, console': seq<Output>)
      ensures tasks == tasks' && current == 0 && console == console'
    {
      tasks, current, console := tasks', 0, console';
    }

    ghost function View(): State
      reads this, tasks
    {
      State(tasks[..], current, console)
    }

    /** next_runnable: a cyclic search that starts after the current task and ends with it. */
    method NextRunnable() returns (next: Option<nat>)
      requires current < tasks.Length
      ensures next.Some? ==> IsNext(View(), next.value)
      ensures next.None? ==> forall t: nat :: !View().Runnable(t)
    {
      var n := tasks.Length;
      for offset := 1 to n + 1
        invariant forall t: nat :: View().Runnable(t) ==> Distance(n, current, t) >= offset
      {
        var candidate := (current + offset) % n;
        Ahead(n, current, offset);
        if tasks[candidate].runnable {
          return Some(candidate);
        }
      }
      next := None;
    }

    /** schedule */
    method Schedule(ghost e: Event, timerStops: bool) returns (out: Outcome)
      requires current < tasks.Length && timerStops == e.timerStops
      modifies this`current, this`console
      ensures Scheduled(old(View()), e, View(), out)
    {
      ghost var s := View();
      var next := NextRunnable();
      assert s == View();
      assert next.None? ==> forall t: nat :: !s.Runnable(t);
      hide State.Runnable;
      if next.Some? {
        current := next.value;
        return Resume(next.value);
      }
      if !timerStops {
        return Panic;
      }
      console := console + [AllSeen];
      out := AllDone;
    }

    /** sys_log for the current task. */
    method SysLog(pointer: nat, length: nat, memory: nat -> char) returns (r: nat)
      requires current < tasks.Length
      modifies this`console
      ensures r == LogResult(tasks[current], pointer, length)
      ensures console == old(console) + LogOutput(current, tasks[current], memory, pointer, length)
    {
      hide Payload, Within;
      var task := tasks[current];
      if length > LOG_LIMIT {
        return WORD - EINVAL;
      }
      if length == 0 {
        return 0;
      }
      if !Contains(task.image, task.size, pointer, length) && !Contains(task.stackBottom, APP_STACK_SIZE, pointer, length) {
        return WORD - EFAULT;
      }
      console := console + [Prefix(current)];
      PutChars(pointer, length, memory);
      r := length;
    }

    /** The bytes of the payload, one by one. */
    method PutChars(pointer: nat, length: nat, memory: nat -> char)
      modifies this`console
      ensures console == old(console) + Payload(memory, pointer, length)
    {
      for i := 0 to length
        invariant console == old(console) + Payload(memory, pointer, i)
      {
        console := console + [Char(memory(pointer + i))];
        assert Payload(memory, pointer, i + 1) == Payload(memory, pointer, i) + [Char(memory(pointer + i))];
      }
    }

    /** Replace the current task's record. */
    method SetCurrent(task: Task)
      requires current < tasks.Length
      modifies tasks
      ensures tasks[..] == old(tasks[..])[current := task]
    {
      tasks[current] := task;
    }

    /** trap */
    method Trap(e: Event) returns (out: Outcome)
      requires View().Ok() && e.regs.Ok()
      modifies this`current, this`console, tasks
      ensures Step(old(View()), e, View(), out)
    {
      assert |e.regs.x| == 31 && current < tasks.Length;
      hide Scheduled, SyscallResult, SyscallOutput, State.Ok, Regs.Ok, EnteredOutput;
      ghost var s := View();
      var task := tasks[current];
      if e.regs.pstate % 0x20 != 0 || !e.masked || e.regs.sp < task.stackBottom || e.regs.sp > task.stackTop || e.regs.sp % 16 != 0 {
        return Panic;
      }
      task := SaveFrame(e);
      if e.irq {
        if !e.tick {
          return Resume(current);
        }
        out := Schedule(e, e.timerStops);
        return;
      }
      if e.syndrome / 0x400_0000 != 0x15 || e.syndrome % 0x1_0000 != 0 {
        Stop(task.(runnable := false), FaultSeen(current, e.syndrome, e.far, e.regs.pc));
        assert View() == BeforeSchedule(s, e);
        out := Schedule(e, e.timerStops);
        return;
      }
      if e.regs.x[8] == NR_EXIT {
        Stop(task.(exitCode := e.regs.x[0], runnable := false), ExitSeen(current, e.regs.x[0]));
        assert View() == BeforeSchedule(s, e);
        out := Schedule(e, e.timerStops);
        return;
      }
      Syscall(task, e);
      SameExtents(s.tasks[current], task, e);
      out := Resume(current);
    }

    /** Save the interrupted frame; the first trap of a task is reported. */
    method SaveFrame(e: Event) returns (task: Task)
      requires current < tasks.Length
      modifies this`console, tasks
      ensures task == Entered(old(tasks[current]), e)
      ensures View() == WithCurrent(old(View()), task, EnteredOutput(old(tasks[current]), current, e))
    {
      task := tasks[current].(regs := e.regs);
      if !task.observed {
        console := console + [TrapSeen(current, e.regs.pstate % 0x20, e.level / 4)];
        task := task.(observed := true);
      }
      SetCurrent(task);
    }

    /** Report and stop the current task. */
    method Stop(task: Task, report: Output)
      requires current < tasks.Length
      modifies this`console, tasks
      ensures View() == WithCurrent(old(View()), task, [report])
    {
      console := console + [report];
      SetCurrent(task);
    }

    /** The system calls that return. */
    method Syscall(task: Task, e: Event)
      requires current < tasks.Length && |e.regs.x| == |task.regs.x| == 31 && tasks[current] == task
      modifies this`console, tasks
      ensures View() == WithCurrent(old(View()), task.(regs := task.regs.(x := task.regs.x[0 := SyscallResult(task, e)])),
                                    SyscallOutput(current, task, e))
    {
      hide LogResult, LogOutput;
      var r := WORD - ENOSYS;
      if e.regs.x[8] == NR_LOG {
        r := SysLog(e.regs.x[0], e.regs.x[1], e.memory);
      }
      SetCurrent(task.(regs := task.regs.(x := task.regs.x[0 := r])));
    }
  }

  lemma OverlayMore(s: seq<Byte>, a: nat, t: seq<Byte>, n: nat)
    requires a + |t| <= |s| && n < |t|
    ensures Overlay(s, a, t[..n + 1]) == Overlay(s, a, t[..n])[a + n := t[n]]
  {
  }

  /** The copy of one image, byte by byte, and the comparison after it. */
  method CopyImage(ram: array<Byte>, at: nat, image: seq<Byte>) returns (same: bool)
    requires at + |image| <= ram.Length
    modifies ram
    ensures same && ram[..] == Overlay(old(ram[..]), at, image)
  {
    ghost var was := ram[..];
    assert Overlay(was, at, image[..0]) == was;
    for offset := 0 to |image|
      invariant ram[..] == Overlay(was, at, image[..offset])
    {
      ram[at + offset] := image[offset];
      OverlayMore(was, at, image, offset);
    }
    assert image[..|image|] == image;
    hide Overlay;
    same := true;
    for offset := 0 to |image|
      invariant same && ram[..] == Overlay(was, at, image)
    {
      OverlayAt(was, at, image, at + offset);
      assert ram[at + offset] == ram[..][at + offset];
      same := same && ram[at + offset] == image[offset];
    }
  }

  /** Image and stack of one application. */
  method LoadSlot(ram: array<Byte>, task: Task, image: seq<Byte>) returns (same: bool)
    requires PHYS_OFFSET <= task.image && task.image + |image| <= task.stackBottom
    requires task.stackBottom + APP_STACK_SIZE - PHYS_OFFSET <= ram.Length
    modifies ram
    ensures same && ram[..] == SlotLoaded(old(ram[..]), task.image - PHYS_OFFSET, image, task.stackBottom - PHYS_OFFSET)
  {
    hide Overlay;
    same := CopyImage(ram, task.image - PHYS_OFFSET, image);
    Memset(ram, task.stackBottom - PHYS_OFFSET, 0, APP_STACK_SIZE);
  }

  /** start_apps: it panics exactly when an image does not fit its slot. Otherwise every slot holds its image and a cleared
      stack, no other byte of memory changed, and the first application is entered with every task runnable. */
  method StartApps(images: seq<seq<Byte>>, ram: array<Byte>) returns (kernel: Option<Kernel>)
    requires |images| > 0 && SlotOffset(|images|) <= ram.Length
    modifies ram
    ensures kernel.None? <==> exists i :: 0 <= i < |images| && (|images[i]| == 0 || |images[i]| > 0x1_0000)
    ensures kernel.Some? ==> ram[..] == AllLoaded(old(ram[..]), images, |images|)
    ensures kernel.Some? ==> kernel.value.View() == InitialState(images)
  {
    hide SizeOk, AllLoaded, InitialTask;
    var tasks := new Task[|images|](_ => InitialTask(0, 0));
    var i, console := 0, [];
    ghost var was := ram[..];
    LoadingStart(was, images, tasks[..]);
    while i < |images|
      invariant Loading(was, ram[..], images, tasks[..], console, i)
    {
      var task := InitialTask(i, |images[i]|);
      SlotBounds(i, |images[i]|, |images|);
      if |images[i]| == 0 || |images[i]| > APP_IMAGE_SIZE || task.image + |images[i]| > task.stackBottom {
        return None;
      }
      ghost var before, bytes := tasks[..], ram[..];
      var same := LoadSlot(ram, task, images[i]);
      tasks[i] := task;
      console := console + [Loaded(i, task.image, task.stackTop)];
      LoadingStep(was, bytes, ram[..], images, before, tasks[..], console[..i], console, i);
      i := i + 1;
    }
    var k := new Kernel(tasks, console);
    LoadingDone(was, ram[..], images, tasks[..], console);
    kernel := Some(k);
  }

  /** What a task may log depends on its extents only. */
  lemma SameExtents(t: Task, u: Task, e: Event)
    requires |e.regs.x| == 31 && t.image == u.image && t.size == u.size && t.stackBottom == u.stackBottom
    ensures SyscallResult(t, e) == SyscallResult(u, e)
    ensures forall app: nat :: SyscallOutput(app, t, e) == SyscallOutput(app, u, e)
  {
  }
}
