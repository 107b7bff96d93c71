/** What one trap does, case by case, in the numbers of the architecture and of the system call interface. */
module TrapLaws {
  import opened TaskSteps

  /** The trap comes from EL0 with interrupts masked, and its stack pointer is 16-byte aligned within the task's stack. */
  ghost predicate Accepted(t: Task, e: Event) {
    && e.regs.pstate % 32 == 0 && e.masked
    && t.stackBottom <= e.regs.sp <= t.stackTop && e.regs.sp % 16 == 0
  }

  /** A supervisor call with immediate zero: exception class 0x15. */
  ghost predicate Svc(e: Event) { !e.irq && e.syndrome / 0x400_0000 == 0x15 && e.syndrome % 0x1_0000 == 0 }

  /** The first trap of a task is reported, from exception level 0. */
  ghost function FirstReport(t: Task, app: nat, e: Event): seq<Output> {
    if t.observed then [] else [TrapSeen(app, 0, e.level / 4)]
  }

  /** The place `k` steps ahead of `from` on the round of `n` tasks. */
  ghost function OnRound(n: nat, from: nat, k: nat): (r: nat)
    requires n > 0
    ensures r < n
  {
    (from + k) % n
  }

  /** Going round from `from`, `to` is the first runnable task; `from` itself comes last. */
  ghost predicate FirstAhead(tasks: seq<Task>, from: nat, to: nat) {
    exists k: nat :: 1 <= k <= |tasks| && StepsAhead(tasks, from, to, k)
  }

  ghost predicate StepsAhead(tasks: seq<Task>, from: nat, to: nat, k: nat)
    requires |tasks| > 0
  {
    && to == OnRound(|tasks|, from, k) && tasks[to].runnable
    && forall j: nat :: 1 <= j < k ==> !tasks[OnRound(|tasks|, from, j)].runnable
  }

  lemma NextIsAhead(s: State, next: nat)
    requires s.current < |s.tasks| && IsNext(s, next)
    ensures FirstAhead(s.tasks, s.current, next)
  {
    var n := |s.tasks|;
    var k := Distance(n, s.current, next);
    Ahead(n, s.current, k);
    forall j: nat | 1 <= j < k
      ensures !s.tasks[OnRound(n, s.current, j)].runnable
    {
      Ahead(n, s.current, j);
      assert !s.Runnable(OnRound(n, s.current, j));
    }
    assert StepsAhead(s.tasks, s.current, next, k);
  }

  /** With these tasks and this console the processor goes to the first runnable task ahead; with none left, the timer is
      stopped and the end is reported, or the kernel panics. */
  ghost predicate Switched(tasks: seq<Task>, from: nat, console: seq<Output>, e: Event, s': State, out: Outcome) {
    && s'.tasks == tasks
    && if exists t :: 0 <= t < |tasks| && tasks[t].runnable then
         FirstAhead(tasks, from, s'.current) && out == Resume(s'.current) && s'.console == console
       else
         && s'.current == from && out == (if e.timerStops then AllDone else Panic)
         && s'.console == console + if e.timerStops then [AllSeen] else []
  }

  lemma ScheduledSwitches(s: State, e: Event, s': State, out: Outcome)
    requires s.current < |s.tasks| && Scheduled(s, e, s', out)
    ensures Switched(s.tasks, s.current, s.console, e, s', out)
  {
    hide FirstAhead;
    assert forall t: nat :: s.Runnable(t) <==> t < |s.tasks| && s.tasks[t].runnable;
    if out.Resume? {
      NextIsAhead(s, out.task);
      assert s.tasks[out.task].runnable;
    }
  }

  /** A trap that is not accepted is a panic and changes nothing; an accepted one panics only when no task is left and the
      timer does not stop. */
  lemma PanicLaw(s: State, e: Event, s': State, out: Outcome)
    requires Step(s, e, s', out)
    ensures !Accepted(s.tasks[s.current], e) ==> out == Panic && s' == s
    ensures s.Running() && Accepted(s.tasks[s.current], e) && out == Panic ==>
              !e.irq && !e.timerStops && forall t: nat :: t < |s.tasks| && t != s.current ==> !s.tasks[t].runnable
  {
    hide IsNext;
    var b := BeforeSchedule(s, e);
    assert Accepted(s.tasks[s.current], e) <==> !Rejected(s.tasks[s.current], e);
    assert forall t: nat :: t < |s.tasks| && t != s.current && s.tasks[t].runnable ==> b.Runnable(t);
    assert s.Running() && e.irq ==> b.Runnable(s.current);
  }

  /** An accepted interrupt that is no tick goes back to the interrupted task. */
  lemma OtherInterruptLaw(s: State, e: Event, s': State, out: Outcome)
    requires Step(s, e, s', out) && Accepted(s.tasks[s.current], e) && e.irq && !e.tick
    ensures var t := s.tasks[s.current];
            && out == Resume(s.current) && s'.current == s.current
            && s'.tasks == s.tasks[s.current := t.(regs := e.regs, observed := true)]
            && s'.console == s.console + FirstReport(t, s.current, e)
  {
  }

  /** A timer tick preempts: the frame is saved, the task stays runnable, and the first runnable task ahead of it is
      resumed, which is the same task only when no other is runnable. */
  lemma TickLaw(s: State, e: Event, s': State, out: Outcome)
    requires Step(s, e, s', out) && s.Running() && Accepted(s.tasks[s.current], e) && e.irq && e.tick
    ensures var t := s.tasks[s.current];
            && out == Resume(s'.current) && s'.tasks == s.tasks[s.current := t.(regs := e.regs, observed := true)]
            && s'.console == s.console + FirstReport(t, s.current, e)
    ensures FirstAhead(s'.tasks, s.current, s'.current)
    ensures forall t: nat :: t < |s.tasks| && t != s.current && s.tasks[t].runnable ==> out != Resume(s.current)
  {
    hide FirstAhead;
    var b := BeforeSchedule(s, e);
    assert b.Runnable(s.current);
    ScheduledSwitches(b, e, s', out);
    forall t: nat | t < |s.tasks| && t != s.current && s.tasks[t].runnable
      ensures out != Resume(s.current)
    {
      assert b.Runnable(t);
    }
  }

  /** A synchronous exception that is no such call is reported with syndrome, fault address and program counter, and ends
      the task. */
  lemma FaultLaw(s: State, e: Event, s': State, out: Outcome)
    requires Step(s, e, s', out) && Accepted(s.tasks[s.current], e) && !e.irq && !Svc(e)
    ensures var t := s.tasks[s.current];
            var console := s.console + FirstReport(t, s.current, e) + [FaultSeen(s.current, e.syndrome, e.far, e.regs.pc)];
            Switched(s.tasks[s.current := t.(regs := e.regs, observed := true, runnable := false)], s.current, console, e, s', out)
  {
    hide Switched, Scheduled;
    var t, b := s.tasks[s.current], BeforeSchedule(s, e);
    assert b.console == s.console + FirstReport(t, s.current, e) + [FaultSeen(s.current, e.syndrome, e.far, e.regs.pc)];
    ScheduledSwitches(b, e, s', out);
  }

  /** Call 1 ends the task with the exit code of x0. */
  lemma ExitLaw(s: State, e: Event, s': State, out: Outcome)
    requires Step(s, e, s', out) && Accepted(s.tasks[s.current], e) && Svc(e) && e.regs.x[8] == 1
    ensures var t, code := s.tasks[s.current], e.regs.x[0];
            var console := s.console + FirstReport(t, s.current, e) + [ExitSeen(s.current, code)];
            var tasks := s.tasks[s.current := t.(regs := e.regs, observed := true, runnable := false, exitCode := code)];
            Switched(tasks, s.current, console, e, s', out)
  {
    hide Switched, Scheduled;
    var t, b := s.tasks[s.current], BeforeSchedule(s, e);
    assert b.console == s.console + FirstReport(t, s.current, e) + [ExitSeen(s.current, e.regs.x[0])];
    ScheduledSwitches(b, e, s', out);
  }

  /** A call returns to its caller: `result` is in x0 and no other register is changed. */
  ghost predicate Returned(s: State, e: Event, s': State, out: Outcome, result: nat, printed: seq<Output>)
    requires s.current < |s.tasks| && |e.regs.x| == 31
  {
    var t, regs := s.tasks[s.current], e.regs.(x := [result] + e.regs.x[1..]);
    && out == Resume(s.current) && s'.current == s.current
    && s'.tasks == s.tasks[s.current := t.(regs := regs, observed := true)]
    && s'.console == s.console + FirstReport(t, s.current, e) + printed
  }

  lemma CallReturns(s: State, e: Event, s': State, out: Outcome)
    requires Step(s, e, s', out) && Accepted(s.tasks[s.current], e) && Svc(e) && e.regs.x[8] != 1
    ensures var t := s.tasks[s.current];
            Returned(s, e, s', out, SyscallResult(t, e), SyscallOutput(s.current, t, e))
  {
    hide SyscallResult, SyscallOutput, Scheduled, BeforeSchedule;
    var t := s.tasks[s.current];
    var r := SyscallResult(t, e);
    assert e.regs.x[0 := r] == [r] + e.regs.x[1..];
    var a, b := FirstReport(t, s.current, e), SyscallOutput(s.current, t, e);
    assert s.console + (a + b) == s.console + a + b;
  }

  /** The bytes [pointer, pointer + length) lie in the task's image or in the 16 KiB of its stack. */
  ghost predicate Loggable(t: Task, pointer: nat, length: nat) {
    || (t.image <= pointer && pointer + length <= t.image + t.size)
    || (t.stackBottom <= pointer && pointer + length <= t.stackBottom + 0x4000)
  }

  /** Call 0 logs x1 bytes at x0: more than 256 are refused with -EINVAL, none is a success, and bytes outside the image
      and the stack are refused with -EFAULT; otherwise exactly those bytes are printed, after the prefix. */
  lemma LogLaw(s: State, e: Event, s': State, out: Outcome)
    requires Step(s, e, s', out) && Accepted(s.tasks[s.current], e) && Svc(e) && e.regs.x[8] == 0
    ensures var t, pointer, length := s.tasks[s.current], e.regs.x[0], e.regs.x[1];
            && (length > 256 ==> Returned(s, e, s', out, 0x1_0000_0000_0000_0000 - 22, []))
            && (length == 0 ==> Returned(s, e, s', out, 0, []))
            && (0 < length <= 256 && !Loggable(t, pointer, length) ==> Returned(s, e, s', out, 0x1_0000_0000_0000_0000 - 14, []))
            && (0 < length <= 256 && Loggable(t, pointer, length) ==>
                  var bytes := seq(length, i requires 0 <= i < length => Char(e.memory(pointer + i)));
                  Returned(s, e, s', out, length, [Prefix(s.current)] + bytes))
  {
    var t, pointer, length := s.tasks[s.current], e.regs.x[0], e.regs.x[1];
    hide Step, Returned;
    CallReturns(s, e, s', out);
    assert MayLog(t, pointer, length) <==> Loggable(t, pointer, length);
    assert Payload(e.memory, pointer, length) == seq(length, i requires 0 <= i < length => Char(e.memory(pointer + i)));
  }

  /** Every other call returns -ENOSYS. */
  lemma UnknownCallLaw(s: State, e: Event, s': State, out: Outcome)
    requires Step(s, e, s', out) && Accepted(s.tasks[s.current], e) && Svc(e) && e.regs.x[8] > 1
    ensures Returned(s, e, s', out, 0x1_0000_0000_0000_0000 - 38, [])
  {
    hide Step, Returned;
    CallReturns(s, e, s', out);
  }

  /** Trap `k` is an accepted timer tick. */
  ghost predicate TickAt(states: seq<State>, events: seq<Event>, k: int) {
    && 0 <= k < |events| < |states| && states[k].current < |states[k].tasks|
    && events[k].irq && events[k].tick && Accepted(states[k].tasks[states[k].current], events[k])
  }

  /** How many of the traps [a, b) are accepted timer ticks. */
  ghost function Ticks(states: seq<State>, events: seq<Event>, a: nat, b: nat): nat
    requires a <= b
    decreases b - a
  {
    if a == b then 0 else Ticks(states, events, a, b - 1) + if TickAt(states, events, b - 1) then 1 else 0
  }

  lemma {:induction false} TicksSchedule(states: seq<State>, events: seq<Event>, outs: seq<Outcome>, a: nat, b: nat)
    requires Run(states, events, outs) && a <= b <= |events|
    ensures Ticks(states, events, a, b) <= Calls(states, events, a, b)
    decreases b - a
  {
    hide Step;
    if a < b {
      TicksSchedule(states, events, outs, a, b - 1);
      RunOk(states, events, outs);
      assert TickAt(states, events, b - 1) ==> CallsAt(states, events, b - 1);
    }
  }

  /** Trap `k` gives task `t` the processor: another task had it, or a tick found no other runnable task. */
  ghost predicate Given(states: seq<State>, events: seq<Event>, outs: seq<Outcome>, t: nat, k: int) {
    && 0 <= k < |outs| == |events| < |states| && outs[k] == Resume(t)
    && (states[k].current != t || TickAt(states, events, k))
  }

  /** Round robin by the clock: among `n` tasks, one that stays runnable is given the processor within `n` timer ticks,
      whatever the other tasks do. */
  lemma TickRoundRobin(states: seq<State>, events: seq<Event>, outs: seq<Outcome>, t: nat, a: nat, b: nat)
    requires Run(states, events, outs) && states[0].Running() && a <= b <= |events|
    requires forall k :: a <= k <= b ==> states[k].Runnable(t)
    requires Ticks(states, events, a, b) >= |states[0].tasks|
    ensures exists k :: a <= k < b && Given(states, events, outs, t, k)
  {
    hide Step;
    TicksSchedule(states, events, outs, a, b);
    RoundRobin(states, events, outs, t, a, b);
    var k :| a <= k < b && Picked(states, events, outs, t, k);
    assert StepAt(states, events, outs, k);
    PickedGiven(states, events, outs, t, k);
  }

  lemma PickedGiven(states: seq<State>, events: seq<Event>, outs: seq<Outcome>, t: nat, k: nat)
    requires Picked(states, events, outs, t, k) && StepAt(states, events, outs, k) && states[k + 1].Runnable(t)
    ensures Given(states, events, outs, t, k)
  {
    var s, e := states[k], events[k];
    hide Step;
    if s.current == t && Ends(s.tasks[t], e) {
      EndsStops(s, e, states[k + 1], outs[k]);
    }
  }
}
