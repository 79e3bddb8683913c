/** Runs of the scheduler: waiting is bounded, shares are equal, and a thread resumes where it stopped. */
module Fairness {
  import opened Common
  import opened Scheduling

  // ---- runs ----------------------------------------------------------------------------

  ghost predicate Proceeds(s: State, e: Event)
    requires Inv(s)
  {
    Possible(s, e) && (StepKeepsInv(s, e); !Step(s, e).Halted?)
  }

  /** Events that do not halt the machine and do not exhaust the thread counter. */
  ghost predicate Runs(s: State, es: seq<Event>)
    requires Inv(s)
    decreases |es|
  {
    es == [] || (Proceeds(s, es[0]) && (StepKeepsInv(s, es[0]); Runs(Step(s, es[0]).state, es[1..])))
  }

  ghost function Run(s: State, es: seq<Event>): (r: State)
    requires Inv(s) && Runs(s, es)
    ensures Inv(r)
    decreases |es|
  {
    if es == [] then s
    else
      StepKeepsInv(s, es[0]);
      Run(Step(s, es[0]).state, es[1..])
  }

  function TotalTicks(es: seq<Event>): nat {
    if es == [] then 0 else Ticks(es[0]) + TotalTicks(es[1..])
  }

  // ---- bounded waiting -----------------------------------------------------------------

  /** The quanta of the threads in front of position `k`. */
  function Ahead(q: seq<Thread>, k: nat): nat
    requires k <= |q|
  {
    if k == 0 then 0 else Ahead(q, k - 1) + q[k - 1].quantum
  }

  lemma {:induction false} AheadShift(q: seq<Thread>, r: seq<Thread>, k: nat)
    requires 0 < k <= |q| && k - 1 <= |r| && forall i :: 1 <= i < k ==> r[i - 1].quantum == q[i].quantum
    ensures Ahead(r, k - 1) + q[0].quantum == Ahead(q, k)
  {
    if k > 1 {
      AheadShift(q, r, k - 1);
    }
  }

  lemma {:induction false} AheadHead(q: seq<Thread>, r: seq<Thread>, k: nat)
    requires 0 < k <= |q| && k <= |r| && r[0].quantum + 1 == q[0].quantum
    requires forall i :: 1 <= i < k ==> r[i].quantum == q[i].quantum
    ensures Ahead(r, k) + 1 == Ahead(q, k)
  {
    if k > 1 {
      AheadHead(q, r, k - 1);
    }
  }

  lemma {:induction false} AheadSame(q: seq<Thread>, r: seq<Thread>, k: nat)
    requires k <= |q| && k <= |r| && forall i :: 0 <= i < k ==> r[i].quantum == q[i].quantum
    ensures Ahead(r, k) == Ahead(q, k)
  {
    if k > 0 {
      AheadSame(q, r, k - 1);
    }
  }

  /** One call of `proc_schedule` takes exactly one quantum unit off what a waiting thread has ahead. */
  lemma ChargeAdvances(q: seq<Thread>, k: nat) returns (k': nat)
    requires QuantaOk(q) && 0 < k < |q|
    ensures k' < |q| && Charge(q)[k'] == q[k] && Ahead(Charge(q), k') + 1 == Ahead(q, k) && k' <= k
  {
    if q[0].quantum == 1 {
      k' := k - 1;
      AheadShift(q, Charge(q), k);
    } else {
      k' := k;
      AheadHead(q, Charge(q), k);
    }
  }

  /** The same thread but for its quantum. */
  predicate SameThread(t: Thread, u: Thread) {
    t.(quantum := u.quantum) == u
  }

  /** A step brings a waiting thread closer to the head by at least its ticks, or makes it the head and resumes
      it; it changes nothing of the thread but the quantum. */
  lemma StepAdvances(s: State, e: Event, k: nat) returns (k': nat)
    requires Inv(s) && Proceeds(s, e) && 0 < k < |s.queue|
    ensures var s' := (StepKeepsInv(s, e); Step(s, e).state);
      && k' < |s'.queue| && SameThread(s'.queue[k'], s.queue[k])
      && (k' == 0 || Ahead(s'.queue, k') + Ticks(e) <= Ahead(s.queue, k))
    ensures k' == 0 ==> Step(s, e).Resumes? && Step(s, e).at == ResumeAddress(s.queue[k])
  {
    match e
    case Spawn(r) =>
      k' := k;
      AheadSame(s.queue, Create(s, r).queue, k);
    case Interrupt(frame, regs) =>
      if IsIrq(regs) || regs.intNo >= 32 {
        var saved := Save(s, regs);
        AheadSame(s.queue, saved.queue, k);
        SaveKeeps(s, regs);
        if Ticks(e) == 1 {
          k' := ChargeAdvances(saved.queue, k);
        } else {
          k' := k;
        }
      } else {
        KillKeeps(s);
        var rest := Kill(s).queue;
        AheadShift(s.queue, rest, k);
        if k == 1 {
          k' := 0;
          assert rest[0].quantum == QUANTUM;
        } else {
          k' := ChargeAdvances(rest, k - 1);
        }
      }
  }

  lemma {:induction false} AheadPositive(q: seq<Thread>, k: nat)
    requires QuantaOk(q) && 0 < k <= |q|
    ensures Ahead(q, k) > 0
  {
    if k > 1 { AheadPositive(q, k - 1); }
  }

  /** After the event, the thread is the head, resumed where its registers say. */
  ghost predicate ResumesThread(s: State, e: Event, t: Thread)
    requires Inv(s)
  {
    Proceeds(s, e) && (StepKeepsInv(s, e);
      Step(s, e).Resumes? && SameThread(Step(s, e).state.queue[0], t) && Step(s, e).at == ResumeAddress(t))
  }

  /** A waiting thread is the head after some prefix of the run as soon as the run makes as many
      `proc_schedule` calls as there are quanta ahead of it, whatever is created or killed. Until then it keeps
      its registers and its privilege, and the event that makes it the head resumes it. */
  lemma {:induction false} WaitingIsBounded(s: State, es: seq<Event>, k: nat) returns (n: nat)
    requires Inv(s) && Runs(s, es) && k < |s.queue| && TotalTicks(es) >= Ahead(s.queue, k)
    ensures n <= |es| && Runs(s, es[..n]) && SameThread(Run(s, es[..n]).queue[0], s.queue[k])
    ensures n > 0 ==> TotalTicks(es[..n - 1]) < Ahead(s.queue, k)
    ensures n > 0 <==> k > 0
    ensures n > 0 ==> Runs(s, es[..n - 1]) && ResumesThread(Run(s, es[..n - 1]), es[n - 1], s.queue[k])
    decreases |es|
  {
    hide Step, IdsOk, QuantaOk, Ticks;
    if k == 0 {
      n := 0;
    } else {
      assert Ahead(s.queue, k) > 0 by { AheadPositive(s.queue, k); }
      StepKeepsInv(s, es[0]);
      var k' := StepAdvances(s, es[0], k);
      var s' := Step(s, es[0]).state;
      if k' == 0 {
        n := 1;
        assert es[..1][0] == es[0] && es[..1][1..] == [];
      } else {
        var m := WaitingIsBounded(s', es[1..], k');
        n := m + 1;
        assert es[..n][0] == es[0] && es[..n][1..] == es[1..][..m];
        assert es[..n - 1][0] == es[0] && es[..n - 1][1..] == es[1..][..m - 1];
        assert es[n - 1] == es[1..][m - 1];
      }
    }
  }

  // ---- equal shares --------------------------------------------------------------------

  /** The queue after `n` calls of `proc_schedule` with nothing else in between. */
  function Charged(q: seq<Thread>, n: nat): (r: seq<Thread>)
    requires q != []
    ensures |r| == |q|
    decreases n
  {
    if n == 0 then q else Charged(Charge(q), n - 1)
  }

  /** How many of these calls charge the thread `id`. */
  function ChargesTo(q: seq<Thread>, n: nat, id: u32): nat
    requires q != []
    decreases n
  {
    if n == 0 then 0 else (if q[0].id == id then 1 else 0) + ChargesTo(Charge(q), n - 1, id)
  }

  lemma {:induction false} ChargedSplits(q: seq<Thread>, a: nat, b: nat, id: u32)
    requires q != []
    ensures Charged(q, a + b) == Charged(Charged(q, a), b)
    ensures ChargesTo(q, a + b, id) == ChargesTo(q, a, id) + ChargesTo(Charged(q, a), b, id)
    decreases a
  {
    if a > 0 {
      ChargedSplits(Charge(q), a - 1, b, id);
    }
  }

  /** Fewer calls than the head's quantum only wear that quantum down. */
  lemma {:induction false} HeadRuns(q: seq<Thread>, n: nat, id: u32)
    requires q != [] && n < q[0].quantum
    ensures Charged(q, n) == q[0 := q[0].(quantum := q[0].quantum - n)]
    ensures ChargesTo(q, n, id) == if q[0].id == id then n else 0
    decreases n
  {
    if n > 0 {
      HeadRuns(Charge(q), n - 1, id);
    }
  }

  /** As many calls as the head's quantum send it to the end with a full one. */
  lemma HeadTurn(q: seq<Thread>, id: u32)
    requires q != [] && q[0].quantum > 0
    ensures Charged(q, q[0].quantum) == q[1..] + [q[0].(quantum := QUANTUM)]
    ensures ChargesTo(q, q[0].quantum, id) == if q[0].id == id then q[0].quantum else 0
  {
    var h := q[0].quantum;
    HeadRuns(q, h - 1, id);
    ChargedSplits(q, h - 1, 1, id);
    var worn := Charged(q, h - 1);
    assert Charged(worn, 1) == Charge(worn);
    assert ChargesTo(Charge(worn), 0, id) == 0;
  }

  ghost predicate AllFull(q: seq<Thread>) {
    forall i :: 0 <= i < |q| ==> q[i].quantum == QUANTUM
  }

  ghost predicate IdAmong(q: seq<Thread>, k: nat, id: u32)
    requires k <= |q|
  {
    exists i :: 0 <= i < k && q[i].id == id
  }

  ghost predicate DistinctIds(q: seq<Thread>) {
    forall i, j :: 0 <= i < j < |q| ==> q[i].id != q[j].id
  }

  /** One full turn from the `k`-th rotation of a queue. */
  lemma FullTurn(q: seq<Thread>, k: nat, id: u32)
    requires AllFull(q) && k < |q|
    ensures Charged(q[k..] + q[..k], QUANTUM) == q[k + 1..] + q[..k + 1]
    ensures ChargesTo(q[k..] + q[..k], QUANTUM, id) == if q[k].id == id then QUANTUM else 0
  {
    hide Charged, ChargesTo;
    var r := q[k..] + q[..k];
    assert r[0] == q[k] && r[0].(quantum := QUANTUM) == r[0];
    HeadTurn(r, id);
    assert r[1..] + [r[0]] == q[k + 1..] + q[..k + 1];
  }

  lemma NoTurn(q: seq<Thread>, id: u32)
    requires q != []
    ensures Charged(q, 0) == q && ChargesTo(q, 0, id) == 0
  {
  }

  lemma IdAmongNext(q: seq<Thread>, k: nat, id: u32)
    requires DistinctIds(q) && k < |q|
    ensures IdAmong(q, k + 1, id) <==> IdAmong(q, k, id) || q[k].id == id
    ensures !(IdAmong(q, k, id) && q[k].id == id)
  {
  }

  /** From full quanta, 10 calls per turn serve the first `k` threads in order. */
  lemma {:induction false} FullTurns(q: seq<Thread>, k: nat, id: u32)
    requires q != [] && AllFull(q) && DistinctIds(q) && k <= |q|
    ensures Charged(q, QUANTUM * k) == q[k..] + q[..k]
    ensures ChargesTo(q, QUANTUM * k, id) == if IdAmong(q, k, id) then QUANTUM else 0
  {
    hide Charged, ChargesTo, Charge;
    if k == 0 {
      NoTurn(q, id);
      assert q[0..] + q[..0] == q;
    } else {
      FullTurns(q, k - 1, id);
      FullTurn(q, k - 1, id);
      ChargedSplits(q, QUANTUM * (k - 1), QUANTUM, id);
      assert QUANTUM * (k - 1) + QUANTUM == QUANTUM * k;
      IdAmongNext(q, k - 1, id);
    }
  }

  /** The queue after the head's turn, and after everyone else's. */
  lemma Turned(q: seq<Thread>) returns (turned: seq<Thread>, back: seq<Thread>)
    requires QuantaOk(q) && DistinctIds(q)
    ensures turned == q[1..] + [q[0].(quantum := QUANTUM)] && |turned| == |q| && AllFull(turned) && DistinctIds(turned)
    ensures forall i :: 0 < i < |q| ==> turned[i - 1] == q[i]
    ensures back == turned[|q| - 1..] + turned[..|q| - 1] && back[0] == q[0].(quantum := QUANTUM)
    ensures back[0 := back[0].(quantum := q[0].quantum)] == q
  {
    turned := q[1..] + [q[0].(quantum := QUANTUM)];
    back := turned[|q| - 1..] + turned[..|q| - 1];
    assert back == [q[0].(quantum := QUANTUM)] + q[1..];
  }

  /** In any window of 10 calls per thread, with no creation or kill, every thread is charged exactly 10
      times, and the queue is back where it was. */
  lemma EqualShares(q: seq<Thread>, i: nat)
    requires QuantaOk(q) && DistinctIds(q) && i < |q|
    ensures ChargesTo(q, QUANTUM * |q|, q[i].id) == QUANTUM
    ensures Charged(q, QUANTUM * |q|) == q
  {
    hide Charged, ChargesTo, Charge;
    var h, n, id := q[0].quantum, |q|, q[i].id;
    var turned, back := Turned(q);
    HeadTurn(q, id);
    FullTurns(turned, n - 1, id);
    HeadRuns(back, QUANTUM - h, id);
    ChargedSplits(q, h, QUANTUM * (n - 1), id);
    ChargedSplits(q, h + QUANTUM * (n - 1), QUANTUM - h, id);
    assert h + QUANTUM * (n - 1) + (QUANTUM - h) == QUANTUM * n;
    assert IdAmong(turned, n - 1, id) <==> i > 0 by {
      if i > 0 { assert turned[i - 1].id == id; }
    }
  }

  // ---- equal shares over runs of interrupts ----------------------------------------------

  /** The same threads with the same quanta, whatever their registers. */
  ghost predicate SameShape(q: seq<Thread>, r: seq<Thread>) {
    |q| == |r| && forall i :: 0 <= i < |q| ==> q[i].id == r[i].id && q[i].quantum == r[i].quantum
  }

  lemma {:induction false} ShapeDecides(q: seq<Thread>, r: seq<Thread>, n: nat, id: u32)
    requires q != [] && SameShape(q, r)
    ensures ChargesTo(q, n, id) == ChargesTo(r, n, id)
    decreases n
  {
    if n > 0 {
      var c, d := Charge(q), Charge(r);
      assert SameShape(c, d) by {
        assert q[0].quantum <= 1 ==> forall i :: 0 <= i < |q| - 1 ==> c[i] == q[i + 1] && d[i] == r[i + 1];
      }
      ShapeDecides(c, d, n - 1, id);
    }
  }

  /** An interrupt that kills no thread. */
  predicate Harmless(e: Event) {
    e.Interrupt? && e.regs.intNo >= 32
  }

  /** How many quantum units of the run are charged to thread `id`. */
  ghost function ChargedInRun(s: State, es: seq<Event>, id: u32): nat
    requires Inv(s) && Runs(s, es)
    decreases |es|
  {
    if es == [] then 0
    else
      StepKeepsInv(s, es[0]);
      (if Ticks(es[0]) == 1 && s.queue[0].id == id then 1 else 0) + ChargedInRun(Step(s, es[0]).state, es[1..], id)
  }

  lemma {:induction false} RunCharges(s: State, es: seq<Event>, id: u32)
    requires Inv(s) && Runs(s, es) && forall k :: 0 <= k < |es| ==> Harmless(es[k])
    ensures ChargedInRun(s, es, id) == ChargesTo(s.queue, TotalTicks(es), id)
    decreases |es|
  {
    if es != [] {
      StepKeepsInv(s, es[0]);
      assert Harmless(es[0]);
      var rest := Step(s, es[0]).state;
      var saved := Save(s, es[0].regs).queue;
      RunCharges(rest, es[1..], id);
      ShapeDecides(s.queue, saved, TotalTicks(es), id);
    }
  }

  /** Whatever mix of timer ticks, other interrupts and system calls it is made of: a run with no
      creation and no kill that makes 10 `proc_schedule` calls per thread charges every thread exactly 10. */
  lemma RunsShareEqually(s: State, es: seq<Event>, i: nat)
    requires Inv(s) && Runs(s, es) && i < |s.queue| && forall k :: 0 <= k < |es| ==> Harmless(es[k])
    requires TotalTicks(es) == QUANTUM * |s.queue|
    ensures ChargedInRun(s, es, s.queue[i].id) == QUANTUM
  {
    RunCharges(s, es, s.queue[i].id);
    EqualShares(s.queue, i);
  }

  // ---- resuming where a thread stopped -------------------------------------------------

  /** `pusha` runs with the stack pointer just above the part of the frame pushed after it. */
  predicate Pushed(frame: u32, regs: Regs) {
    regs.esp == Wrap(frame + ESP_OFFSET)
  }

  datatype Stop = Stop(frame: u32, regs: Regs)

  /** For every thread, where its last frame lies and what registers it held: recorded when the thread
      is interrupted and when its initial frame is copied. */
  ghost function Track(stops: map<u32, Stop>, s: State, e: Event): map<u32, Stop>
    requires s.queue != []
  {
    match e
    case Interrupt(frame, regs) => if regs.intNo < 32 then stops else stops[s.queue[0].id := Stop(frame, regs)]
    case Spawn(r) =>
      var t := NewThread(r, Wrap(s.count + 1));
      stops[t.id := Stop(FrameAddress(t), t.regs)]
  }

  ghost predicate StoppedAt(t: Thread, stops: map<u32, Stop>) {
    t.id in stops && t.regs == stops[t.id].regs && ResumeAddress(t) == stops[t.id].frame
  }

  /** Every waiting thread is described by its last stop. */
  ghost predicate AllStopped(s: State, stops: map<u32, Stop>) {
    forall i :: 0 < i < |s.queue| ==> StoppedAt(s.queue[i], stops)
  }

  predicate GoodFrame(e: Event) {
    e.Interrupt? ==> Pushed(e.frame, e.regs)
  }

  lemma ResumeUndoesPush(frame: u32, regs: Regs, t: Thread)
    requires Pushed(frame, regs) && t.regs == regs
    ensures ResumeAddress(t) == frame
  {
  }

  /** Quanta do not matter for where a thread resumes. */
  lemma ChargeKeepsStops(q: seq<Thread>, stops: map<u32, Stop>)
    requires q != [] && forall i :: 0 <= i < |q| ==> StoppedAt(q[i], stops)
    ensures forall i :: 0 <= i < |q| ==> StoppedAt(Charge(q)[i], stops)
  {
    var r := Charge(q);
    forall i | 0 <= i < |q| ensures StoppedAt(r[i], stops) {
      if r != q[0 := r[0]] {
        assert i < |q| - 1 ==> r[i] == q[i + 1];
      }
    }
  }

  /** Each step keeps every waiting thread's stop, and whenever it resumes a thread it does so exactly
      at that thread's last frame, with the registers saved there unchanged. */
  lemma StepResumesAtStop(s: State, e: Event, stops: map<u32, Stop>)
    requires Inv(s) && Proceeds(s, e) && AllStopped(s, stops) && GoodFrame(e)
    ensures var (o, stops') := (StepKeepsInv(s, e); (Step(s, e), Track(stops, s, e)));
      && AllStopped(o.state, stops')
      && (o.Resumes? ==> StoppedAt(o.state.queue[0], stops') && o.at == stops'[o.state.queue[0].id].frame)
  {
    StepKeepsInv(s, e);
    var stops' := Track(stops, s, e);
    match e
    case Spawn(r) =>
      var s' := Create(s, r);
      assert StoppedAt(s'.queue[|s.queue|], stops');
    case Interrupt(frame, regs) =>
      if regs.intNo < 32 {
        ChargeKeepsStops(Kill(s).queue, stops);
      } else {
        var saved := Save(s, regs);
        ResumeUndoesPush(frame, regs, saved.queue[0]);
        assert forall i :: 0 <= i < |saved.queue| ==> StoppedAt(saved.queue[i], stops');
        ChargeKeepsStops(saved.queue, stops');
      }
  }

  ghost function TrackAll(stops: map<u32, Stop>, s: State, es: seq<Event>): map<u32, Stop>
    requires Inv(s) && Runs(s, es)
    decreases |es|
  {
    if es == [] then stops
    else
      StepKeepsInv(s, es[0]);
      TrackAll(Track(stops, s, es[0]), Step(s, es[0]).state, es[1..])
  }

  /** Over whole runs from a lone thread on: after any run, the next step that resumes a thread resumes
      it exactly where it last stopped. */
  lemma {:induction false} RunResumesAtStops(s: State, es: seq<Event>, stops: map<u32, Stop>, e: Event)
    requires Inv(s) && Runs(s, es) && AllStopped(s, stops) && GoodFrame(e) && forall k :: 0 <= k < |es| ==> GoodFrame(es[k])
    requires Proceeds(Run(s, es), e)
    ensures var (end, last) := (Run(s, es), TrackAll(stops, s, es));
      && AllStopped(end, last)
      && var o := (StepKeepsInv(end, e); Step(end, e));
         o.Resumes? ==>
           StoppedAt(o.state.queue[0], Track(last, end, e)) && o.at == Track(last, end, e)[o.state.queue[0].id].frame
    decreases |es|
  {
    if es == [] {
      StepResumesAtStop(s, e, stops);
    } else {
      StepKeepsInv(s, es[0]);
      StepResumesAtStop(s, es[0], stops);
      RunResumesAtStops(Step(s, es[0]).state, es[1..], Track(stops, s, es[0]), e);
    }
  }

  // ---- where a new thread's frame lies ---------------------------------------------------

  /** Bytes in the whole pages granted for `kmalloc((stack_size < 4096) ? 4096 : stack_size)`. */
  function StackBytes(stackSize: nat): nat {
    var asked := if stackSize < PAGE then PAGE else stackSize;
    (asked / PAGE + if asked % PAGE != 0 then 1 else 0) * PAGE
  }

  /** The initial frame is copied exactly where the thread will first resume: at the very end of its
      stack, so outside it. It lies in the pages that `kmalloc` granted for the stack exactly when the
      last of them has 76 bytes to spare. */
  lemma NewThreadFrame(r: Request, id: u32)
    requires r.stack % PAGE == 0 && r.stack + r.stackSize + REGISTERS_SIZE <= WORD
    ensures ResumeAddress(NewThread(r, id)) == FrameAddress(NewThread(r, id)) == r.stack + r.stackSize
    ensures FrameAddress(NewThread(r, id)) + REGISTERS_SIZE <= r.stack + StackBytes(r.stackSize)
       <==> r.stackSize % PAGE <= PAGE - REGISTERS_SIZE && (r.stackSize == 0 || r.stackSize % PAGE != 0)
  {
  }
}
