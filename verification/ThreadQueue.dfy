/** The code of pm.c and of the two handlers of idt.c over the linked ready queue. A node owns its
    thread descriptor, which is kept in the node. */
module ThreadQueue {
  import opened Common
  import opened Lists
  import opened Scheduling

  class ProcessManager {
    var threads: Node<Thread>
    var threadCount: u32
    var esp0: u32
    ghost var nodes: seq<Node<Thread>>
    ghost var state: State

    /** The linked nodes stand for `state`. */
    ghost predicate Valid()
      reads this, nodes
    {
      && IsList(nodes) && threads == nodes[0]
      && threadCount == state.count && esp0 == state.esp0
      && |nodes| == |state.queue|
      && forall i :: 0 <= i < |nodes| ==> nodes[i].data == state.queue[i]
    }

    /** `pm_init`: the running code becomes thread 0; `blank` is what the descriptor memory held. */
    constructor (blank: Thread, stackTop: u32, stackBottom: u32, intStackTop: u32)
      ensures Valid() && fresh(nodes) && state == Init(blank, stackTop, stackBottom, intStackTop)
    {
      var node := new Node<Thread>(0, blank);
      node.data := node.data.(id := 0);
      node.data := node.data.(quantum := QUANTUM);
      node.data := node.data.(regs := node.data.regs.(esp := stackTop, ebp := stackBottom));
      threads, threadCount, esp0 := node, 0, intStackTop;
      nodes := [node];
      state := Init(blank, stackTop, stackBottom, intStackTop);
    }

    method ProcSave(regs: Regs)
      requires Valid()
      modifies this`esp0, this`state, threads`data
      ensures Valid() && state == Save(old(state), regs)
    {
      threads.data := threads.data.(regs := regs);
      if regs.cs % 256 == USER_CS {
        esp0 := threads.data.intStackEsp;
      }
      state := Save(state, regs);
    }

    /** `proc_kill_active`. The code then frees the wrong node, with a length that frees no page. */
    method ProcKillActive()
      requires Valid() && |state.queue| > 1
      modifies this`threads, this`nodes, this`state, nodes
      ensures Valid() && nodes == old(nodes)[1..] && state == Kill(old(state))
    {
      ghost var rest := Without(nodes, 0);
      threads := ListRemoveNode(threads, 0, nodes);
      nodes := rest;
      state := Kill(state);
    }

    /** The quantum part of `proc_schedule`. */
    method ChargeHead()
      requires Valid()
      modifies this`threads, this`nodes, this`state, nodes
      ensures Valid() && state == old(state).(queue := Charge(old(state).queue))
      ensures forall n :: n in nodes <==> n in old(nodes)
    {
      if threads.data.quantum > 0 {
        threads.data := threads.data.(quantum := threads.data.quantum - 1);
      }
      if threads.data.quantum <= 0 {
        threads.data := threads.data.(quantum := QUANTUM);
        ghost var moved := nodes[1..] + [nodes[0]];
        threads := ListMoveToEnd(threads, nodes);
        nodes := moved;
      }
      state := state.(queue := Charge(state.queue));
    }

    method ProcSchedule() returns (at: u32)
      requires Valid()
      modifies this`threads, this`nodes, this`state, this`esp0, nodes
      ensures Valid() && state == Schedule(old(state)) && at == ResumeAddress(state.queue[0])
      ensures forall n :: n in nodes <==> n in old(nodes)
    {
      ChargeHead();
      if threads.data.regs.cs % 256 == USER_CS {
        esp0 := threads.data.intStackEsp;
      }
      state := state.(esp0 := esp0);
      at := Wrap(threads.data.regs.esp - ESP_OFFSET);
    }

    static method FillDescriptor(node: Node<Thread>, r: Request, id: u32)
      requires node.data == r.blank
      modifies node`data
      ensures node.data == NewThread(r, id)
    {
      var t := node.data.(id := id, quantum := QUANTUM);
      var esp := Wrap(r.stack + r.stackSize + ESP_OFFSET);
      t := t.(regs := t.regs.(edi := 0, esi := 0, ebp := r.stack, esp := esp, useresp := esp));
      t := t.(regs := t.regs.(ebx := 0, edx := 0, ecx := 0, eax := 0, eip := r.entry));
      if r.privilege == PL0 {
        t := t.(regs := t.regs.(cs := 0x08, ss := 0x10, gs := 0x10, fs := 0x10, es := 0x10, ds := 0x10));
      }
      if r.privilege == PL3 {
        t := t.(regs := t.regs.(cs := 0x1B, ss := 0x23, gs := 0x23, fs := 0x23, es := 0x23, ds := 0x23));
        t := t.(intStackEsp := r.intStack);
      }
      t := t.(privilege := r.privilege);
      node.data := t.(regs := t.regs.(eflags := 0x202));
    }

    /** `pm_new_thread`, with what its calls of `kmalloc` return in `r`. */
    method PmNewThread(r: Request) returns (id: u32)
      requires Valid()
      modifies this, nodes
      ensures Valid() && forall n :: n in nodes && n !in old(nodes) ==> fresh(n)
      ensures state == Create(old(state), r) && id == state.count
    {
      hide NewThread;
      ghost var before := nodes;
      var index;
      index, nodes := ListAddNode(threads, 0, r.blank, nodes);
      assert forall i :: 0 <= i < |before| ==> nodes[i] == before[i];
      var node := ListAccessNode(threads, index, nodes);
      threadCount := Wrap(threadCount + 1);
      id := threadCount;
      FillDescriptor(node, r, id);
      state := Create(state, r);
    }

    method HandleIsr(regs: Regs) returns (halted: bool, at: u32)
      requires Valid() && (state.queue[0].privilege == PL3 && regs.intNo < 32 ==> |state.queue| > 1)
      modifies this, nodes
      ensures IsrHandler(old(state), regs) == (if halted then Halted else Resumes(state, at)) && Valid()
    {
      if regs.intNo < 32 {
        if threads.data.privilege != PL3 { return true, 0; }
        ProcKillActive();
      } else {
        ProcSave(regs);
      }
      halted := false;
      at := ProcSchedule();
    }

    method HandleIrq(frame: u32, regs: Regs) returns (at: u32)
      requires Valid()
      modifies this, nodes
      ensures IrqHandler(old(state), frame, regs) == Resumes(state, at) && Valid()
    {
      ProcSave(regs);
      at := frame;
      if regs.intNo == TIMER {
        at := ProcSchedule();
      }
    }
  }
}
