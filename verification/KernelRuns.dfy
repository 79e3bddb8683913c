/** The allocator and the page tables run together: tables come from `kmalloc`, and clients allocate, free
    and write their pages in between. What each part assumes of the other holds in every such run. */
module KernelRuns {
  import opened Common
  import PhysicalPages
  import HeapAllocator
  import A = AllocatorRuns
  import P = Paging
  import T = Translation
  import opened Boot

  datatype System = System(a: A.Machine, mem: P.Phys)

  ghost predicate Inv(s: System, cr3: P.Frame, reserved: set<nat>) {
    A.Inv(s.a, reserved) && P.WellMapped(s.mem, cr3) && TablesAllocated(s.a, s.mem, cr3)
  }

  /** Requests and releases of blocks, a client's store into a page of its own, `map_page` with a table from
      `kmalloc` when it needs one, and the other edits of Translation.dfy. */
  datatype Op =
    | Allocate(length: nat, junk: bv8)
    | Free(index: nat)
    | Write(index: nat, frame: P.Frame, i: nat, e: P.Entry)
    | Map(pa: nat, va: nat, user: bool, rw: bool, force: bool, junk: bv8)
    | Edit(op: T.Op)

  ghost predicate IsTable(mem: P.Phys, cr3: P.Frame, frame: nat) {
    frame == cr3 || exists p :: 0 <= p < P.SELF && P.At(mem, cr3, p).present && P.At(mem, cr3, p).frame == frame
  }

  ghost predicate HoldsTable(s: System, cr3: P.Frame, b: A.Block) {
    exists frame: nat :: IsTable(s.mem, cr3, frame) && A.Holds(b, frame)
  }

  ghost predicate PageLeft(s: System)
    requires |s.a.s.used| == PhysicalPages.PAGES
  {
    PhysicalPages.LowestFrom(s.a.s.used, 0, 1) < PhysicalPages.SCANNED
  }

  ghost predicate NeedsTable(s: System, cr3: P.Frame, va: nat)
    requires va < P.WINDOW
  {
    !P.Dir(s.mem, cr3, P.Slot(va)).present
  }

  /** Tables are not freed or scribbled on, and a page is left whenever a table is needed. */
  ghost predicate Legal(s: System, cr3: P.Frame, op: Op)
    requires |s.a.s.used| == PhysicalPages.PAGES
  {
    match op
    case Allocate(_, _) => true
    case Free(k) => k < |s.a.live| ==> !HoldsTable(s, cr3, s.a.live[k])
    case Write(k, frame, i, _) => k < |s.a.live| && i < 1024 && A.Holds(s.a.live[k], frame) && !HoldsTable(s, cr3, s.a.live[k])
    case Map(pa, va, _, _, _, _) => pa < P.SPACE && va < P.WINDOW && (NeedsTable(s, cr3, va) ==> PageLeft(s))
    case Edit(e) => !e.Map? && T.Legal(s.mem, cr3, e)
  }

  /** What `map_page` gets for a new table. */
  ghost function TableFrame(a: A.Machine, junk: bv8): (f: P.Frame)
    requires HeapAllocator.WellShaped(a.s)
    ensures var p := PhysicalPages.LowestFrom(a.s.used, 0, 1); f == if p < PhysicalPages.SCANNED then p else 0
  {
    HeapAllocator.Serve(a.s, PAGE, junk).1 / PAGE
  }

  /** `map_page` is defined here even when no page is left: then it links frame 0. */
  ghost function MapStep(s: System, cr3: P.Frame, reserved: set<nat>, op: Op): System
    requires A.Inv(s.a, reserved) && op.Map? && op.pa < P.SPACE && op.va < P.WINDOW
  {
    if NeedsTable(s, cr3, op.va) then
      System(A.Step(s.a, A.Request(PAGE, op.junk)),
             P.MapPage(s.mem, cr3, op.pa, op.va, op.user, op.rw, op.force, TableFrame(s.a, op.junk)))
    else s.(mem := P.MapPage(s.mem, cr3, op.pa, op.va, op.user, op.rw, op.force, 0))
  }

  ghost function Step(s: System, cr3: P.Frame, k: P.Kernel, reserved: set<nat>, op: Op): System
    requires A.Inv(s.a, reserved) && Legal(s, cr3, op)
  {
    match op
    case Allocate(length, junk) => s.(a := A.Step(s.a, A.Request(length, junk)))
    case Free(i) => s.(a := A.Step(s.a, A.Release(i)))
    case Write(_, frame, i, e) => s.(mem := P.Put(s.mem, frame, i, e))
    case Map(_, _, _, _, _, _) => MapStep(s, cr3, reserved, op)
    case Edit(e) => s.(mem := T.Step(s.mem, cr3, k, e))
  }

  // ---- allocator steps -------------------------------------------------------------------

  lemma StepExtends(m: A.Machine, length: nat, junk: bv8, reserved: set<nat>)
    requires A.Inv(m, reserved)
    ensures m.live <= A.Step(m, A.Request(length, junk)).live
  {
  }

  lemma AllocateKeepsHeld(m: A.Machine, length: nat, junk: bv8, reserved: set<nat>, page: nat)
    requires A.Inv(m, reserved) && HeldByLive(m, page)
    ensures HeldByLive(A.Step(m, A.Request(length, junk)), page)
  {
    hide HeapAllocator.Serve, A.Grant;
    var k :| 0 <= k < |m.live| && A.Holds(m.live[k], page);
    StepExtends(m, length, junk, reserved);
    assert A.Step(m, A.Request(length, junk)).live[k] == m.live[k];
  }

  lemma AllocateKeepsInv(s: System, cr3: P.Frame, length: nat, junk: bv8, reserved: set<nat>)
    requires Inv(s, cr3, reserved)
    ensures Inv(s.(a := A.Step(s.a, A.Request(length, junk))), cr3, reserved)
  {
    hide A.Step, A.Inv, P.WellMapped, HeldByLive;
    A.StepKeepsInv(s.a, A.Request(length, junk), reserved);
    forall page: nat | HeldByLive(s.a, page) {
      AllocateKeepsHeld(s.a, length, junk, reserved, page);
    }
  }

  lemma FreeKeepsInv(s: System, cr3: P.Frame, k: nat, reserved: set<nat>)
    requires Inv(s, cr3, reserved) && (k < |s.a.live| ==> !HoldsTable(s, cr3, s.a.live[k]))
    ensures Inv(s.(a := A.Step(s.a, A.Release(k))), cr3, reserved)
  {
    A.StepKeepsInv(s.a, A.Release(k), reserved);
    if k < |s.a.live| {
      var a' := A.Step(s.a, A.Release(k));
      hide A.Inv, P.WellMapped;
      forall page: nat | IsTable(s.mem, cr3, page) && HeldByLive(s.a, page) ensures HeldByLive(a', page) {
        var j :| 0 <= j < |s.a.live| && A.Holds(s.a.live[j], page);
        assert j != k;
        assert a'.live[if j < k then j else j - 1] == s.a.live[j];
      }
    }
  }

  // ---- memory steps ----------------------------------------------------------------------

  /** The directory links the same tables. */
  ghost predicate SameTables(m: P.Phys, m': P.Phys, cr3: P.Frame) {
    forall p :: 0 <= p < P.SELF ==>
      P.At(m', cr3, p).present == P.At(m, cr3, p).present && P.At(m', cr3, p).frame == P.At(m, cr3, p).frame
  }

  lemma EntryKeepsTables(m: P.Phys, cr3: P.Frame, va: nat, e: P.Entry)
    requires P.WellMapped(m, cr3) && va < P.WINDOW && P.Dir(m, cr3, P.Slot(va)).present
    ensures SameTables(m, P.PutPte(m, cr3, va, e), cr3)
  {
    P.EntryKeeps(m, cr3, P.Slot(va), P.Index(va), e);
    assert forall q :: 0 <= q < 1024 ==> P.Dir(P.PutPte(m, cr3, va, e), cr3, q) == P.Dir(m, cr3, q);
  }

  lemma DplKeepsTables(m: P.Phys, cr3: P.Frame, va: nat, user: bool)
    requires P.WellMapped(m, cr3) && va < P.WINDOW
    ensures SameTables(m, P.SetPageDpl(m, cr3, va, user), cr3)
  {
    var pte := P.Pte(m, cr3, va);
    if P.Dir(m, cr3, P.Slot(va)).present && pte.present {
      EntryKeepsTables(m, cr3, va, pte.(user := user));
    }
  }

  lemma {:induction false} RangeDplKeepsTables(m: P.Phys, cr3: P.Frame, first: nat, count: nat, user: bool)
    requires P.WellMapped(m, cr3) && PAGE * (first + count) <= P.WINDOW
    ensures SameTables(m, P.SetPagesDpl(m, cr3, first, count, user), cr3)
  {
    if count > 0 {
      hide P.SetPageDpl, P.WellMapped, P.Slot, P.Index;
      RangeDplKeepsTables(m, cr3, first, count - 1, user);
      T.RangeDplKeepsTranslation(m, cr3, first, count - 1, user, 0);
      DplKeepsTables(P.SetPagesDpl(m, cr3, first, count - 1, user), cr3, PAGE * (first + count - 1), user);
    }
  }

  lemma EditKeepsTables(m: P.Phys, cr3: P.Frame, k: P.Kernel, op: T.Op)
    requires P.WellMapped(m, cr3) && T.Legal(m, cr3, op) && !op.Map?
    ensures SameTables(m, T.Step(m, cr3, k, op), cr3)
  {
    hide P.SetPageDpl, P.SetPagesDpl, P.WellMapped;
    match op
    case Unmap(va) =>
      if P.Dir(m, cr3, P.Slot(va)).present { EntryKeepsTables(m, cr3, va, P.Pte(m, cr3, va).(present := false)); }
    case Swap(va, pa, user, rw) =>
      if P.Dir(m, cr3, P.Slot(va)).present { EntryKeepsTables(m, cr3, va, P.Linked(pa / PAGE, user, rw)); }
    case SetDpl(va, user) => DplKeepsTables(m, cr3, va / PAGE * PAGE, user);
    case SetRangeDpl(va, length, user) => RangeDplKeepsTables(m, cr3, va / PAGE, P.PageCount(va, length), user);
  }

  lemma SameTablesKeepAllocated(a: A.Machine, m: P.Phys, m': P.Phys, cr3: P.Frame)
    requires TablesAllocated(a, m, cr3) && SameTables(m, m', cr3)
    ensures TablesAllocated(a, m', cr3)
  {
  }

  /** A store into a frame that is no table reaches neither the tables nor any translation. */
  lemma WriteElsewhere(m: P.Phys, cr3: P.Frame, f: P.Frame, i: nat, e: P.Entry, v: nat)
    requires P.WellMapped(m, cr3) && i < 1024 && v < P.WINDOW && !IsTable(m, cr3, f)
    ensures var m' := P.Put(m, f, i, e);
      SameTables(m, m', cr3) && P.WellMapped(m', cr3) && P.Walk(m', cr3, v) == P.Walk(m, cr3, v)
  {
    var m' := P.Put(m, f, i, e);
    forall q | 0 <= q < 1024 ensures P.At(m', cr3, q) == P.At(m, cr3, q) { }
    var p := P.Slot(v);
    assert P.At(m, cr3, p).present ==> P.At(m, cr3, p).frame != f;
  }

  /** The pages of heap nodes are no tables, so clearing nodes, marking words and storing into heap words
      reaches none either. */
  lemma NodesAreNoTables(s: System, cr3: P.Frame, reserved: set<nat>, i: nat)
    requires Inv(s, cr3, reserved) && i < |s.a.s.nodes|
    ensures !IsTable(s.mem, cr3, s.a.s.nodes[i].page)
  {
    forall k | 0 <= k < |s.a.live| ensures !A.Holds(s.a.live[k], s.a.s.nodes[i].page) {
      assert A.BlockOk(s.a.live[k], s.a.s, reserved);
    }
  }

  // ---- map_page --------------------------------------------------------------------------

  /** The directory after `map_page`: the same tables, and the new one if there was none. */
  lemma MapTables(m: P.Phys, cr3: P.Frame, pa: nat, va: nat, user: bool, rw: bool, force: bool, table: P.Frame)
    requires P.WellMapped(m, cr3) && va < P.WINDOW && pa < P.SPACE && (P.Dir(m, cr3, P.Slot(va)).present || table != cr3)
    ensures var m' := P.MapPage(m, cr3, pa, va, user, rw, force, table);
      forall p :: 0 <= p < P.SELF ==>
        P.At(m', cr3, p) == if p == P.Slot(va) && !P.At(m, cr3, p).present then P.Linked(table, user, rw) else P.At(m, cr3, p)
  {
  }

  lemma PageZeroIsUnheld(a: A.Machine, reserved: set<nat>)
    requires A.Inv(a, reserved)
    ensures !HeldByLive(a, 0)
  {
    forall k | 0 <= k < |a.live| ensures !A.Holds(a.live[k], 0) {
      assert A.BlockOk(a.live[k], a.s, reserved);
    }
  }

  /** With no page left the page at address 0 becomes a table, which nobody was granted. */
  lemma MapFrameZero(s: System, cr3: P.Frame, reserved: set<nat>, op: Op)
    requires Inv(s, cr3, reserved) && op.Map? && op.pa < P.SPACE && op.va < P.WINDOW
    requires NeedsTable(s, cr3, op.va) && !PageLeft(s)
    ensures !Inv(MapStep(s, cr3, reserved, op), cr3, reserved)
  {
    var s' := MapStep(s, cr3, reserved, op);
    PageZeroIsUnheld(s.a, reserved);
    AllocateKeepsInv(s, cr3, PAGE, op.junk, reserved);
    PageZeroIsUnheld(s'.a, reserved);
    MapTables(s.mem, cr3, op.pa, op.va, op.user, op.rw, op.force, 0);
    assert P.At(s'.mem, cr3, P.Slot(op.va)) == P.Linked(0, op.user, op.rw);
  }

  /** The page of a new table is outstanding. */
  lemma NewBlockHolds(a: A.Machine, junk: bv8, reserved: set<nat>)
    requires A.Inv(a, reserved) && PhysicalPages.LowestFrom(a.s.used, 0, 1) < PhysicalPages.SCANNED
    ensures HeldByLive(A.Step(a, A.Request(PAGE, junk)), TableFrame(a, junk))
  {
    var f := PhysicalPages.LowestFrom(a.s.used, 0, 1);
    var a' := A.Step(a, A.Request(PAGE, junk));
    assert a'.live[|a.live|] == A.PageBlock(f, PAGE);
    assert A.Holds(a'.live[|a.live|], f);
  }

  lemma MapNewTable(s: System, cr3: P.Frame, reserved: set<nat>, op: Op)
    requires Inv(s, cr3, reserved) && op.Map? && op.pa < P.SPACE && op.va < P.WINDOW
    requires NeedsTable(s, cr3, op.va) && PageLeft(s)
    ensures Inv(MapStep(s, cr3, reserved, op), cr3, reserved)
    ensures T.CanLink(s.mem, cr3, op.va, TableFrame(s.a, op.junk))
  {
    var f := TableFrame(s.a, op.junk);
    NewTableIsUnused(s.a, s.mem, cr3, op.junk, reserved);
    AllocateKeepsInv(s, cr3, PAGE, op.junk, reserved);
    NewBlockHolds(s.a, op.junk, reserved);
    hide A.Inv, A.Step, A.Grant, HeapAllocator.Serve, P.WellMapped, HeldByLive, P.MapPage, TableFrame;
    T.MapPageKeepsTables(s.mem, cr3, op.pa, op.va, op.user, op.rw, op.force, f);
    MapTables(s.mem, cr3, op.pa, op.va, op.user, op.rw, op.force, f);
  }

  /** `map_page` keeps the system in order exactly when it needs no table or a page is left for one. */
  lemma MapNeedsAPage(s: System, cr3: P.Frame, reserved: set<nat>, op: Op)
    requires Inv(s, cr3, reserved) && op.Map? && op.pa < P.SPACE && op.va < P.WINDOW
    ensures Inv(MapStep(s, cr3, reserved, op), cr3, reserved) <==> !NeedsTable(s, cr3, op.va) || PageLeft(s)
  {
    if !NeedsTable(s, cr3, op.va) {
      T.MapPageKeepsTables(s.mem, cr3, op.pa, op.va, op.user, op.rw, op.force, 0);
      MapTables(s.mem, cr3, op.pa, op.va, op.user, op.rw, op.force, 0);
    } else if PageLeft(s) {
      MapNewTable(s, cr3, reserved, op);
    } else {
      MapFrameZero(s, cr3, reserved, op);
    }
  }

  // ---- every step and every run ------------------------------------------------------------

  /** Every legal step keeps the allocator's invariant, the tables well mapped and all of them outstanding;
      the only other thing the operations of the paging module ask for, an unused frame for a new table, then
      needs no assumption. */
  lemma StepKeepsInv(s: System, cr3: P.Frame, k: P.Kernel, reserved: set<nat>, op: Op)
    requires Inv(s, cr3, reserved) && Legal(s, cr3, op) && k.end <= P.WINDOW
    ensures Inv(Step(s, cr3, k, reserved, op), cr3, reserved)
  {
    hide A.Inv, A.Step, P.WellMapped, T.Step, T.Legal, P.MapPage, HeldByLive, MapStep;
    match op
    case Allocate(length, junk) => AllocateKeepsInv(s, cr3, length, junk, reserved);
    case Free(i) => FreeKeepsInv(s, cr3, i, reserved);
    case Write(_, frame, i, e) =>
      WriteElsewhere(s.mem, cr3, frame, i, e, 0);
      SameTablesKeepAllocated(s.a, s.mem, P.Put(s.mem, frame, i, e), cr3);
    case Map(_, _, _, _, _, _) => MapNeedsAPage(s, cr3, reserved, op);
    case Edit(e) =>
      T.StepKeepsKernel(s.mem, cr3, k, e, 0);
      EditKeepsTables(s.mem, cr3, k, e);
      SameTablesKeepAllocated(s.a, s.mem, T.Step(s.mem, cr3, k, e), cr3);
  }

  predicate Unforced(op: Op) {
    op.Map? ==> !op.force
  }

  /** And without a forced mapping it keeps the translation of every mapped kernel address. */
  lemma StepKeepsKernel(s: System, cr3: P.Frame, k: P.Kernel, reserved: set<nat>, op: Op, v: nat)
    requires Inv(s, cr3, reserved) && Legal(s, cr3, op) && Unforced(op) && k.end <= P.WINDOW
    requires v < P.WINDOW && T.InKernel(k, v) && P.Walk(s.mem, cr3, v).Some?
    ensures P.Walk(Step(s, cr3, k, reserved, op).mem, cr3, v) == P.Walk(s.mem, cr3, v)
  {
    hide A.Step, P.WellMapped, P.Walk, T.Step, T.Legal, P.MapPage, HeldByLive, TableFrame, A.Holds;
    match op
    case Allocate(_, _) =>
    case Free(_) =>
    case Write(_, frame, i, e) => WriteElsewhere(s.mem, cr3, frame, i, e, v);
    case Map(pa, va, user, rw, force, junk) =>
      if NeedsTable(s, cr3, va) {
        MapNewTable(s, cr3, reserved, op);
        T.UnforcedMapKeepsMapped(s.mem, cr3, pa, va, user, rw, TableFrame(s.a, junk), v);
      } else {
        T.UnforcedMapKeepsMapped(s.mem, cr3, pa, va, user, rw, 0, v);
      }
    case Edit(e) => T.StepKeepsKernel(s.mem, cr3, k, e, v);
  }

  ghost predicate LegalRun(s: System, cr3: P.Frame, k: P.Kernel, reserved: set<nat>, ops: seq<Op>)
    requires Inv(s, cr3, reserved) && k.end <= P.WINDOW
    decreases |ops|
  {
    ops == [] ||
    (Legal(s, cr3, ops[0])
     && (StepKeepsInv(s, cr3, k, reserved, ops[0]); LegalRun(Step(s, cr3, k, reserved, ops[0]), cr3, k, reserved, ops[1..])))
  }

  /** Every run keeps the system in order. */
  ghost function Run(s: System, cr3: P.Frame, k: P.Kernel, reserved: set<nat>, ops: seq<Op>): (r: System)
    requires Inv(s, cr3, reserved) && k.end <= P.WINDOW && LegalRun(s, cr3, k, reserved, ops)
    ensures Inv(r, cr3, reserved)
    decreases |ops|
  {
    if ops == [] then s
    else
      StepKeepsInv(s, cr3, k, reserved, ops[0]);
      Run(Step(s, cr3, k, reserved, ops[0]), cr3, k, reserved, ops[1..])
  }

  /** However allocations, releases, client stores and paging calls are interleaved, a mapped kernel address
      keeps its translation. */
  lemma {:induction false} RunKeepsKernel(s: System, cr3: P.Frame, k: P.Kernel, reserved: set<nat>, ops: seq<Op>, v: nat)
    requires Inv(s, cr3, reserved) && k.end <= P.WINDOW && LegalRun(s, cr3, k, reserved, ops)
    requires forall i :: 0 <= i < |ops| ==> Unforced(ops[i])
    requires v < P.WINDOW && T.InKernel(k, v) && P.Walk(s.mem, cr3, v).Some?
    ensures P.Walk(Run(s, cr3, k, reserved, ops).mem, cr3, v) == P.Walk(s.mem, cr3, v)
    decreases |ops|
  {
    hide A.Inv, P.WellMapped, TablesAllocated, Legal, Step, P.Walk;
    if ops != [] {
      StepKeepsInv(s, cr3, k, reserved, ops[0]);
      StepKeepsKernel(s, cr3, k, reserved, ops[0], v);
      RunKeepsKernel(Step(s, cr3, k, reserved, ops[0]), cr3, k, reserved, ops[1..], v);
    }
  }

  // ---- the start ---------------------------------------------------------------------------

  /** The allocator after the requests of `init_paging` for a directory and for 1024 tables. */
  ghost function Asked(a: A.Machine, junk: bv8, reserved: set<nat>): (r: A.Machine)
    requires A.Inv(a, reserved)
    ensures A.Inv(r, reserved)
  {
    A.StepKeepsInv(a, A.Request(PAGE, junk), reserved);
    var a1 := A.Step(a, A.Request(PAGE, junk));
    A.StepKeepsInv(a1, A.Request(1024 * PAGE, junk), reserved);
    A.Step(a1, A.Request(1024 * PAGE, junk))
  }

  lemma OnePageBlock(a: A.Machine, length: nat, junk: bv8, reserved: set<nat>) returns (first: nat)
    requires A.Inv(a, reserved) && length > HeapAllocator.DATA_BYTES && HeapAllocator.Serve(a.s, length, junk).1 != 0
    ensures first * PAGE == HeapAllocator.Serve(a.s, length, junk).1
    ensures A.Step(a, A.Request(length, junk)).live == a.live + [A.PageBlock(first, length)]
    ensures HeapAllocator.Serve(a.s, length, junk) == (var r := PhysicalPages.Allocate(a.s.used, length); (a.s.(used := r.1), r.0))
  {
    first := PhysicalPages.LowestFrom(a.s.used, 0, PhysicalPages.PagesFor(length));
  }

  /** When neither request is answered with null, the blocks are aligned, apart, and outstanding. */
  lemma BlocksGranted(a: A.Machine, junk: bv8, reserved: set<nat>) returns (dir: nat, tables: nat)
    requires A.Inv(a, reserved)
    requires var r := HeapAllocator.Serve(a.s, PAGE, junk);
      r.1 != 0 && HeapAllocator.Serve(r.0, 1024 * PAGE, junk).1 != 0
    ensures dir < P.FRAMES && tables + 1024 <= P.FRAMES && !(tables <= dir < tables + 1024)
    ensures var r := HeapAllocator.Serve(a.s, PAGE, junk);
      dir * PAGE == r.1 && tables * PAGE == HeapAllocator.Serve(r.0, 1024 * PAGE, junk).1
    ensures Asked(a, junk, reserved).live == a.live + [A.PageBlock(dir, PAGE), A.PageBlock(tables, 1024 * PAGE)]
  {
    hide PhysicalPages.Allocate;
    dir := OnePageBlock(a, PAGE, junk, reserved);
    A.StepKeepsInv(a, A.Request(PAGE, junk), reserved);
    tables := OnePageBlock(A.Step(a, A.Request(PAGE, junk)), 1024 * PAGE, junk, reserved);
    PagingBlocksFit(a.s.used);
  }

  lemma InitialTablesHeld(a: A.Machine, n: nat, mem: P.Phys, dir: P.Frame, tables: P.Frame)
    requires n + 1 < |a.live| && a.live[n] == A.PageBlock(dir, PAGE) && a.live[n + 1] == A.PageBlock(tables, 1024 * PAGE)
    requires P.InitialTables(mem, dir, tables)
    ensures TablesAllocated(a, mem, dir)
  {
    hide P.IdentityTable;
    assert A.Holds(a.live[n], dir);
    forall p | 0 <= p < P.SELF ensures HeldByLive(a, P.At(mem, dir, p).frame) {
      assert P.At(mem, dir, p).frame == tables + p;
      assert A.Holds(a.live[n + 1], tables + p);
    }
  }

  /** `init_paging` on any allocator state in order, when both its requests are granted, starts such a run,
      with every address below the window mapped to itself. The blocks are what it needs them to be. */
  lemma PagingStarts(a: A.Machine, mem: P.Phys, junk: bv8, reserved: set<nat>, v: nat) returns (dir: nat, tables: nat)
    requires A.Inv(a, reserved) && v < P.WINDOW
    requires var r := HeapAllocator.Serve(a.s, PAGE, junk);
      r.1 != 0 && HeapAllocator.Serve(r.0, 1024 * PAGE, junk).1 != 0
    ensures dir < P.FRAMES && tables + 1024 <= P.FRAMES && !(tables <= dir < tables + 1024)
    ensures var r := HeapAllocator.Serve(a.s, PAGE, junk);
      dir * PAGE == r.1 && tables * PAGE == HeapAllocator.Serve(r.0, 1024 * PAGE, junk).1
    ensures P.InitialTables(mem, dir, tables) ==>
      Inv(System(Asked(a, junk, reserved), mem), dir, reserved) && P.Walk(mem, dir, v) == Some(v)
  {
    dir, tables := BlocksGranted(a, junk, reserved);
    hide A.Inv, Asked, HeapAllocator.Serve, P.InitialTables, P.WellMapped, P.Walk, TablesAllocated;
    if P.InitialTables(mem, dir, tables) {
      T.InitialTablesAreIdentity(mem, dir, tables, v);
      InitialTablesHeld(Asked(a, junk, reserved), |a.live|, mem, dir, tables);
    }
  }
}
