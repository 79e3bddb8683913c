/** Where the parts meet: what the allocator guarantees is what the scheduler and the page tables rely
    on when the kernel starts. */
module Boot {
  import opened Common
  import PhysicalPages
  import HeapAllocator
  import A = AllocatorRuns
  import P = Paging
  import S = Scheduling
  import F = Fairness

  // ---- thread 0 --------------------------------------------------------------------------

  const DESCRIPTOR_BYTES: nat := 92

  function Word(words: seq<nat>, at: nat, k: nat): S.u32
    requires at + k < |words|
  {
    words[at + k] % WORD
  }

  /** A thread descriptor read from 23 words of memory, in the order of its C fields. */
  function Descriptor(words: seq<nat>, at: nat): S.Thread
    requires at + 23 <= |words|
  {
    S.Thread(Word(words, at, 0),
      S.Regs(Word(words, at, 1), Word(words, at, 2), Word(words, at, 3), Word(words, at, 4), Word(words, at, 5),
             Word(words, at, 6), Word(words, at, 7), Word(words, at, 8), Word(words, at, 9), Word(words, at, 10),
             Word(words, at, 11), Word(words, at, 12), Word(words, at, 13), Word(words, at, 14), Word(words, at, 15),
             Word(words, at, 16), Word(words, at, 17), Word(words, at, 18), Word(words, at, 19)),
      Word(words, at, 20), Word(words, at, 21), Word(words, at, 22))
  }

  /** The scheduler starts in order exactly when the descriptor memory does not happen to say PL3 where
      `pm_init` leaves the privilege unset. */
  lemma InitNeedsPrivilege(blank: S.Thread, stackTop: S.u32, stackBottom: S.u32, intStackTop: S.u32)
    ensures S.Inv(S.Init(blank, stackTop, stackBottom, intStackTop)) <==> blank.privilege != S.PL3
  {
    var s := S.Init(blank, stackTop, stackBottom, intStackTop);
    assert s.queue[0].id == 0;
  }

  /** The heap hands out zeroed words, so thread 0 starts with privilege 0 and can never be killed. */
  lemma ThreadZeroIsPrivileged(m: A.Machine, junk: bv8, reserved: set<nat>,
                               stackTop: S.u32, stackBottom: S.u32, intStackTop: S.u32)
    requires A.Inv(m, reserved)
    requires var g := A.Grant(m.s, DESCRIPTOR_BYTES, junk); g.Some? && g.value.HeapBlock?
    ensures var s', b := HeapAllocator.Serve(m.s, DESCRIPTOR_BYTES, junk).0, A.Grant(m.s, DESCRIPTOR_BYTES, junk).value;
      && b.node < |s'.nodes| && b.word + 23 <= |s'.nodes[b.node].words|
      && S.Inv(S.Init(Descriptor(s'.nodes[b.node].words, b.word), stackTop, stackBottom, intStackTop))
  {
    var s', b := HeapAllocator.Serve(m.s, DESCRIPTOR_BYTES, junk).0, A.Grant(m.s, DESCRIPTOR_BYTES, junk).value;
    A.GrantedWordsAreZero(m, DESCRIPTOR_BYTES, junk, reserved, 21);
    A.GrantedWordsAreZero(m, DESCRIPTOR_BYTES, junk, reserved, 22);
    InitNeedsPrivilege(Descriptor(s'.nodes[b.node].words, b.word), stackTop, stackBottom, intStackTop);
  }

  /** The bytes reckoned as a thread's stack are those of the pages that the page path grants for it. */
  lemma StackBytesAreGranted(stackSize: nat)
    ensures F.StackBytes(stackSize) == PAGE * PhysicalPages.PagesFor(if stackSize < PAGE then PAGE else stackSize)
  {
  }

  // ---- page tables -------------------------------------------------------------------------

  ghost predicate HeldByLive(m: A.Machine, page: nat) {
    exists k :: 0 <= k < |m.live| && A.Holds(m.live[k], page)
  }

  /** The directory and every table in use lie in pages that are outstanding. */
  ghost predicate TablesAllocated(m: A.Machine, mem: P.Phys, cr3: P.Frame) {
    && HeldByLive(m, cr3)
    && forall p :: 0 <= p < P.SELF && P.At(mem, cr3, p).present ==> HeldByLive(m, P.At(mem, cr3, p).frame)
  }

  /** A page that `kmalloc` returns for a new table is one that no table uses. */
  lemma NewTableIsUnused(m: A.Machine, mem: P.Phys, cr3: P.Frame, junk: bv8, reserved: set<nat>)
    requires A.Inv(m, reserved) && TablesAllocated(m, mem, cr3)
    requires A.Grant(m.s, PAGE, junk).Some?
    ensures var address := HeapAllocator.Serve(m.s, PAGE, junk).1;
      address % PAGE == 0 && P.Unused(mem, cr3, address / PAGE)
  {
    var f := PhysicalPages.LowestFrom(m.s.used, 0, 1);
    assert PhysicalPages.Fits(m.s.used, f, 1);
    forall page | HeldByLive(m, page) ensures page != f {
      var k :| 0 <= k < |m.live| && A.Holds(m.live[k], page);
      assert A.BlockOk(m.live[k], m.s, reserved);
    }
  }

  /** The directory and the block of 1024 tables that `init_paging` asks for in turn, when neither
      request fails, meet its needs. */
  lemma PagingBlocksFit(used: seq<bool>)
    requires |used| == PhysicalPages.PAGES
    ensures var (a, used1) := PhysicalPages.Allocate(used, PAGE);
      var (b, _) := PhysicalPages.Allocate(used1, 1024 * PAGE);
      a != 0 && b != 0 ==>
        var d, t := a / PAGE, b / PAGE;
        a == d * PAGE && b == t * PAGE && d < P.FRAMES && t + 1024 <= P.FRAMES && !(t <= d < t + 1024)
  {
    hide PhysicalPages.LowestFrom;
    var (a, used1) := PhysicalPages.Allocate(used, PAGE);
    var t := PhysicalPages.LowestFrom(used1, 0, 1024);
    assert t < PhysicalPages.SCANNED ==> PhysicalPages.Fits(used1, t, 1024);
    var d := PhysicalPages.LowestFrom(used, 0, 1);
    assert d < PhysicalPages.SCANNED ==> used1[d];
  }
}
