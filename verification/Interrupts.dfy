/** What the interrupt handlers and `pm_new_thread` do to threads: who is removed, who halts, who resumes on
    which ring-0 stack, and how a new thread starts. */
module Interrupts {
  import opened Common
  import opened Scheduling
  import opened Fairness

  // ---- halting and killing ---------------------------------------------------------------

  /** The machine halts exactly on an exception in a thread that is not a user thread. */
  lemma HaltsExactly(s: State, frame: u32, regs: Regs)
    requires Inv(s)
    ensures var o := (StepKeepsInv(s, Interrupt(frame, regs)); Step(s, Interrupt(frame, regs)));
      o.Halted? <==> regs.intNo < 32 && s.queue[0].privilege != PL3
  {
    StepKeepsInv(s, Interrupt(frame, regs));
  }

  /** An exception in a user thread removes that thread, keeps all others in their order, and resumes the next
      one. */
  lemma FaultRemovesThread(s: State, frame: u32, regs: Regs)
    requires Inv(s) && regs.intNo < 32 && s.queue[0].privilege == PL3
    ensures var o := (StepKeepsInv(s, Interrupt(frame, regs)); Step(s, Interrupt(frame, regs)));
      && o.Resumes? && o.at == ResumeAddress(s.queue[1]) && o.state.count == s.count
      && |o.state.queue| == |s.queue| - 1
      && (forall i :: 0 <= i < |o.state.queue| ==> SameThread(o.state.queue[i], s.queue[i + 1]))
      && (forall i :: 0 <= i < |o.state.queue| ==> o.state.queue[i].id != s.queue[0].id)
  {
    StepKeepsInv(s, Interrupt(frame, regs));
    assert Kill(s).queue[0].quantum == QUANTUM;
  }

  /** The thread in the queue, whatever its position and quantum. */
  ghost predicate Queued(t: Thread, q: seq<Thread>) {
    exists i :: 0 <= i < |q| && SameThread(q[i], t)
  }

  lemma ChargeKeepsQueued(q: seq<Thread>, t: Thread)
    requires q != [] && Queued(t, q)
    ensures Queued(t, Charge(q))
  {
    var r := Charge(q);
    var i :| 0 <= i < |q| && SameThread(q[i], t);
    var left := if q[0].quantum > 0 then q[0].quantum - 1 else 0;
    var j := if left == 0 then (if i == 0 then |q| - 1 else i - 1) else i;
    assert SameThread(r[j], t);
  }

  /** Every other interrupt keeps every thread; the interrupted one holds the registers of its frame. */
  lemma InterruptKeepsThreads(s: State, frame: u32, regs: Regs, i: nat)
    requires Inv(s) && regs.intNo >= 32 && i < |s.queue|
    ensures var o := (StepKeepsInv(s, Interrupt(frame, regs)); Step(s, Interrupt(frame, regs)));
      && o.Resumes? && |o.state.queue| == |s.queue| && o.state.count == s.count
      && Queued(if i == 0 then s.queue[0].(regs := regs) else s.queue[i], o.state.queue)
  {
    StepKeepsInv(s, Interrupt(frame, regs));
    var saved, t := Save(s, regs).queue, if i == 0 then s.queue[0].(regs := regs) else s.queue[i];
    assert SameThread(saved[i], t);
    ChargeKeepsQueued(saved, t);
  }

  /** Only timer ticks, system calls and stray vectors reschedule: any other device interrupt returns to the
      very frame it came with, and leaves the queue as it was. */
  lemma DeviceInterruptReturns(s: State, frame: u32, regs: Regs)
    requires Inv(s) && IsIrq(regs) && regs.intNo != TIMER
    ensures var o := (StepKeepsInv(s, Interrupt(frame, regs)); Step(s, Interrupt(frame, regs)));
      o.Resumes? && o.at == frame && o.state.queue == s.queue[0 := s.queue[0].(regs := regs)]
  {
    StepKeepsInv(s, Interrupt(frame, regs));
  }

  // ---- the ring-0 stack --------------------------------------------------------------------

  predicate InUserCode(regs: Regs) {
    regs.cs % 256 == USER_CS
  }

  /** Whenever a thread resumes in user code, the processor's ring-0 stack is that thread's own. Otherwise it is
      the one of the interrupted thread if that was saved in user code, or stays what it was. */
  lemma RingZeroStack(s: State, frame: u32, regs: Regs)
    requires Inv(s)
    ensures var o := (StepKeepsInv(s, Interrupt(frame, regs)); Step(s, Interrupt(frame, regs)));
      o.Resumes? ==>
        o.state.esp0 == if InUserCode(o.state.queue[0].regs) then o.state.queue[0].intStackEsp
                        else if regs.intNo >= 32 && InUserCode(regs) then s.queue[0].intStackEsp
                        else s.esp0
  {
    StepKeepsInv(s, Interrupt(frame, regs));
  }

  /** What `pm_init` stores as thread 0's stack never matters: its first interrupt overwrites it. */
  lemma InitialRegistersAreOverwritten(blank: Thread, top: u32, bottom: u32, top': u32, bottom': u32, intTop: u32,
                                       frame: u32, regs: Regs)
    requires blank.privilege != PL3 && regs.intNo >= 32
    ensures Step(Init(blank, top, bottom, intTop), Interrupt(frame, regs))
         == Step(Init(blank, top', bottom', intTop), Interrupt(frame, regs))
    ensures Init(blank, top, bottom, intTop).esp0 == intTop
  {
    assert Save(Init(blank, top, bottom, intTop), regs) == Save(Init(blank, top', bottom', intTop), regs);
  }

  // ---- new threads -------------------------------------------------------------------------

  /** The requested privilege level of a segment selector, and its index in the descriptor table. */
  function Rpl(selector: u32): nat {
    selector % 4
  }

  function TableIndex(selector: u32): nat {
    selector / 8
  }

  /** The last thread after `pm_new_thread` starts at the entry point asked for, with the privilege asked for
      in all its selectors, interrupts enabled, cleared general registers and its own ring-0 stack. */
  lemma NewThreadIsAsAsked(s: State, r: Request)
    requires Inv(s)
    ensures var s' := Step(s, Spawn(r)).state;
      var n, t := |s.queue|, s'.queue[|s'.queue| - 1];
      && |s'.queue| == n + 1 && s'.queue[..n] == s.queue && s'.esp0 == s.esp0
      && t.id == s'.count && (s.count + 1 < WORD ==> s'.count == s.count + 1)
      && t.privilege == r.privilege && t.quantum == QUANTUM && (r.privilege == PL3 ==> t.intStackEsp == r.intStack)
      && t.regs.eip == r.entry && t.regs.ebp == r.stack && t.regs.useresp == t.regs.esp
      && t.regs.eflags / 512 % 2 == 1 && t.regs.eflags / 4096 % 4 == 0
      && t.regs.eax == t.regs.ebx == t.regs.ecx == t.regs.edx == t.regs.esi == t.regs.edi == 0
      && (r.privilege == PL0 || r.privilege == PL3 ==>
            && Rpl(t.regs.cs) == Rpl(t.regs.ss) == r.privilege
            && t.regs.ds == t.regs.es == t.regs.fs == t.regs.gs == t.regs.ss
            && TableIndex(t.regs.cs) == (if r.privilege == PL0 then 1 else 3)
            && TableIndex(t.regs.ss) == TableIndex(t.regs.cs) + 1
            && (InUserCode(t.regs) <==> r.privilege == PL3))
  {
  }

  /** The event makes the thread that `r` asked for the head and resumes it at the end of its stack, where its
      initial frame lies: at the entry point, with the privilege asked for and its own ring-0 stack. */
  ghost predicate Starts(s: State, e: Event, r: Request, id: u32)
    requires Inv(s)
  {
    Proceeds(s, e) && (StepKeepsInv(s, e);
      var o := Step(s, e);
      && o.Resumes? && o.at == r.stack + r.stackSize == FrameAddress(NewThread(r, id))
      && var head := o.state.queue[0];
        && head.id == id && head.regs == NewThread(r, id).regs && head.regs.eip == r.entry && head.privilege == r.privilege
        && (InUserCode(head.regs) ==> o.state.esp0 == head.intStackEsp))
  }

  lemma ResumedIsStarted(s: State, e: Event, r: Request, id: u32)
    requires Inv(s) && ResumesThread(s, e, NewThread(r, id)) && r.stack + r.stackSize + REGISTERS_SIZE <= WORD
    ensures Starts(s, e, r, id)
  {
    StepKeepsInv(s, e);
    if e.Interrupt? { RingZeroStack(s, e.frame, e.regs); }
  }

  lemma SpawnIsLast(s: State, r: Request)
    requires Inv(s) && Possible(s, Spawn(r))
    ensures s.queue != [] && Step(s, Spawn(r)) == Continues(Create(s, r)) && Inv(Create(s, r))
    ensures var s1 := Create(s, r); |s1.queue| == |s.queue| + 1 && s1.queue[|s.queue|] == NewThread(r, s1.count)
  {
    CreateKeeps(s, r);
  }

  /** And it does start there: the event that first makes it the head starts it, in every run from its creation
      on with as many ticks as there are quanta ahead of it. */
  lemma NewThreadStarts(s: State, r: Request, es: seq<Event>) returns (n: nat)
    requires Inv(s) && Possible(s, Spawn(r)) && r.stack + r.stackSize + REGISTERS_SIZE <= WORD
    requires Inv(Create(s, r)) && Runs(Create(s, r), es) && TotalTicks(es) >= Ahead(Create(s, r).queue, |s.queue|)
    ensures Step(s, Spawn(r)) == Continues(Create(s, r))
    ensures var s1 := Create(s, r);
      && 0 < n <= |es| && TotalTicks(es[..n - 1]) < Ahead(s1.queue, |s.queue|)
      && Runs(s1, es[..n - 1]) && Starts(Run(s1, es[..n - 1]), es[n - 1], r, s1.count)
  {
    SpawnIsLast(s, r);
    hide Inv, Run, Runs, Ahead, Step, NewThread, Starts, ResumesThread, Create;
    var s1 := Create(s, r);
    n := WaitingIsBounded(s1, es, |s.queue|);
    ResumedIsStarted(Run(s1, es[..n - 1]), es[n - 1], r, s1.count);
  }
}
