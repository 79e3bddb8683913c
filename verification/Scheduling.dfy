/** The scheduler of pm.c and the interrupt handlers of idt.c as a step relation on the ready queue:
    each interrupt is one step. Threads are values here; ThreadQueue.dfy holds the code. */
module Scheduling {
  import opened Common

  const QUANTUM: nat := 10
  const PL0: nat := 0
  const PL3: nat := 3
  const USER_CS: nat := 0x1B
  const REGISTERS_SIZE: nat := 76
  /** `PM_ESP_OFFSET` is minus this. */
  const ESP_OFFSET: nat := 48
  const TIMER: nat := 32

  type u32 = x: nat | x < WORD

  /** The frame that the interrupt stubs push, lowest address first. */
  datatype Regs = Regs(gs: u32, fs: u32, es: u32, ds: u32, edi: u32, esi: u32, ebp: u32, esp: u32, ebx: u32, edx: u32,
                       ecx: u32, eax: u32, intNo: u32, errCode: u32, eip: u32, cs: u32, eflags: u32, useresp: u32, ss: u32)

  datatype Thread = Thread(id: u32, regs: Regs, quantum: u32, privilege: u32, intStackEsp: u32)

  /** The ready queue, the thread counter and `tss.esp0`. */
  datatype State = State(queue: seq<Thread>, count: u32, esp0: u32)

  function Wrap(x: int): u32 {
    x % WORD
  }

  // ---- pm.c ----------------------------------------------------------------------------

  /** Where a thread resumes: `thread_regs.esp + PM_ESP_OFFSET`. */
  function ResumeAddress(t: Thread): u32 {
    Wrap(t.regs.esp - ESP_OFFSET)
  }

  function Esp0For(t: Thread, cs: u32, esp0: u32): u32 {
    if cs % 256 == USER_CS then t.intStackEsp else esp0
  }

  function Save(s: State, regs: Regs): State
    requires s.queue != []
  {
    s.(queue := s.queue[0 := s.queue[0].(regs := regs)], esp0 := Esp0For(s.queue[0], regs.cs, s.esp0))
  }

  /** One tick on the queue: charge the head and rotate when its quantum is used up. */
  function Charge(q: seq<Thread>): (r: seq<Thread>)
    requires q != []
    ensures |r| == |q|
  {
    var left := if q[0].quantum > 0 then q[0].quantum - 1 else 0;
    if left == 0 then q[1..] + [q[0].(quantum := QUANTUM)] else q[0 := q[0].(quantum := left)]
  }

  function Schedule(s: State): State
    requires s.queue != []
  {
    var q := Charge(s.queue);
    s.(queue := q, esp0 := Esp0For(q[0], q[0].regs.cs, s.esp0))
  }

  function Kill(s: State): State
    requires |s.queue| > 1
  {
    s.(queue := s.queue[1..])
  }

  /** What `pm_new_thread` is given, and what its calls of `kmalloc` return. `blank` is what the fresh
      descriptor memory holds in the fields that are not set. */
  datatype Request = Request(entry: u32, stackSize: u32, privilege: u32, stack: u32, intStack: u32, blank: Thread)

  function NewThread(r: Request, id: u32): Thread {
    var esp := Wrap(r.stack + r.stackSize + ESP_OFFSET);
    var base := r.blank.regs.(edi := 0, esi := 0, ebp := r.stack, esp := esp, useresp := esp,
                              ebx := 0, edx := 0, ecx := 0, eax := 0, eip := r.entry, eflags := 0x202);
    var regs :=
      if r.privilege == PL0 then base.(cs := 0x08, ss := 0x10, gs := 0x10, fs := 0x10, es := 0x10, ds := 0x10)
      else if r.privilege == PL3 then base.(cs := 0x1B, ss := 0x23, gs := 0x23, fs := 0x23, es := 0x23, ds := 0x23)
      else base;
    Thread(id, regs, QUANTUM, r.privilege, if r.privilege == PL3 then r.intStack else r.blank.intStackEsp)
  }

  /** Where `pm_new_thread` copies the initial frame. */
  function FrameAddress(t: Thread): u32 {
    Wrap(t.regs.esp - REGISTERS_SIZE + 28)
  }

  function Create(s: State, r: Request): State {
    s.(queue := s.queue + [NewThread(r, Wrap(s.count + 1))], count := Wrap(s.count + 1))
  }

  /** `pm_init`; `blank` is what the descriptor memory held. */
  function Init(blank: Thread, stackTop: u32, stackBottom: u32, intStackTop: u32): State {
    State([blank.(id := 0, quantum := QUANTUM, regs := blank.regs.(esp := stackTop, ebp := stackBottom))], 0, intStackTop)
  }

  // ---- the handlers of idt.c -----------------------------------------------------------

  /** An interrupt with its frame at address `frame`, or a call of `pm_new_thread`. */
  datatype Event = Interrupt(frame: u32, regs: Regs) | Spawn(request: Request)

  /** `Halted` is the endless loop on an exception in the kernel. */
  datatype Outcome = Resumes(state: State, at: u32) | Continues(state: State) | Halted

  function IsrHandler(s: State, regs: Regs): Outcome
    requires s.queue != [] && (s.queue[0].privilege == PL3 && regs.intNo < 32 ==> |s.queue| > 1)
  {
    if regs.intNo < 32 then
      if s.queue[0].privilege == PL3 then
        var s' := Schedule(Kill(s));
        Resumes(s', ResumeAddress(s'.queue[0]))
      else Halted
    else
      var s' := Schedule(Save(s, regs));
      Resumes(s', ResumeAddress(s'.queue[0]))
  }

  function IrqHandler(s: State, frame: u32, regs: Regs): Outcome
    requires s.queue != []
  {
    var s1 := Save(s, regs);
    if regs.intNo == TIMER then
      var s2 := Schedule(s1);
      Resumes(s2, ResumeAddress(s2.queue[0]))
    else Resumes(s1, frame)
  }

  predicate IsIrq(regs: Regs) {
    32 <= regs.intNo < 48
  }

  function Step(s: State, e: Event): Outcome
    requires s.queue != [] && (e.Interrupt? && s.queue[0].privilege == PL3 && e.regs.intNo < 32 ==> |s.queue| > 1)
  {
    match e
    case Interrupt(frame, regs) => if IsIrq(regs) then IrqHandler(s, frame, regs) else IsrHandler(s, regs)
    case Spawn(r) => Continues(Create(s, r))
  }

  /** How many times the step calls `proc_schedule`. */
  function Ticks(e: Event): nat {
    if e.Interrupt? && (!IsIrq(e.regs) || e.regs.intNo == TIMER) then 1 else 0
  }

  // ---- what every step keeps -----------------------------------------------------------

  ghost predicate QuantaOk(q: seq<Thread>) {
    q != [] && 1 <= q[0].quantum <= QUANTUM && forall i :: 0 < i < |q| ==> q[i].quantum == QUANTUM
  }

  /** Live ids are distinct and thread 0 is in the queue, unable to be killed. */
  ghost predicate IdsOk(s: State) {
    && (forall i, j :: 0 <= i < j < |s.queue| ==> s.queue[i].id != s.queue[j].id)
    && (forall i :: 0 <= i < |s.queue| ==> s.queue[i].id <= s.count)
    && (exists i :: 0 <= i < |s.queue| && s.queue[i].id == 0)
    && (forall i :: 0 <= i < |s.queue| && s.queue[i].id == 0 ==> s.queue[i].privilege != PL3)
  }

  ghost predicate Inv(s: State) {
    QuantaOk(s.queue) && IdsOk(s)
  }

  ghost predicate Possible(s: State, e: Event) {
    e.Spawn? ==> s.count + 1 < WORD
  }

  lemma ChargeKeeps(s: State)
    requires QuantaOk(s.queue) && IdsOk(s)
    ensures Inv(s.(queue := Charge(s.queue)))
  {
    var q, r := s.queue, Charge(s.queue);
    var k :| 0 <= k < |q| && q[k].id == 0;
    if q[0].quantum == 1 {
      assert forall i :: 0 <= i < |q| - 1 ==> r[i] == q[i + 1];
      assert r[|q| - 1].id == q[0].id && r[|q| - 1].privilege == q[0].privilege;
      assert r[if k > 0 then k - 1 else |q| - 1].id == 0;
    } else {
      assert r[k].id == 0;
    }
  }

  lemma KillKeeps(s: State)
    requires Inv(s) && s.queue[0].privilege == PL3
    ensures |s.queue| > 1 && Inv(Kill(s))
  {
    var k :| 0 <= k < |s.queue| && s.queue[k].id == 0;
    assert Kill(s).queue[k - 1].id == 0;
  }

  lemma SaveKeeps(s: State, regs: Regs)
    requires Inv(s)
    ensures Inv(Save(s, regs))
  {
    var k :| 0 <= k < |s.queue| && s.queue[k].id == 0;
    assert Save(s, regs).queue[k].id == 0;
  }

  /** Creating a thread keeps the invariant until the counter wraps, when a second thread 0 appears. */
  lemma CreateKeeps(s: State, r: Request)
    requires Inv(s)
    ensures Inv(Create(s, r)) <==> s.count + 1 < WORD
  {
    var k :| 0 <= k < |s.queue| && s.queue[k].id == 0;
    var q := Create(s, r).queue;
    assert q[k].id == 0 && (s.count + 1 == WORD ==> q[|s.queue|].id == 0);
  }

  /** The queue always holds thread 0, live ids stay distinct, and quanta stay in order. */
  lemma StepKeepsInv(s: State, e: Event)
    requires Inv(s) && Possible(s, e)
    ensures e.Interrupt? && s.queue[0].privilege == PL3 && e.regs.intNo < 32 ==> |s.queue| > 1
    ensures !Step(s, e).Halted? ==> Inv(Step(s, e).state)
  {
    match e
    case Spawn(r) => CreateKeeps(s, r);
    case Interrupt(frame, regs) =>
      SaveKeeps(s, regs);
      if IsIrq(regs) || regs.intNo >= 32 {
        ChargeKeeps(Save(s, regs));
      } else if s.queue[0].privilege == PL3 {
        KillKeeps(s);
        ChargeKeeps(Kill(s));
      }
  }
}
