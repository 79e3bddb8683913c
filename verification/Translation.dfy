/** What the paging operations mean for translation and access, on single calls and over runs. */
module Translation {
  import opened Common
  import opened Paging

  predicate SamePageAs(v: nat, va: nat) {
    v / PAGE == va / PAGE
  }

  lemma {:induction false} SlotAndIndexIdentify(v: nat, va: nat)
    ensures SamePageAs(v, va) <==> Slot(v) == Slot(va) && Index(v) == Index(va)
  {
    assert Slot(v) == v / PAGE / 1024 && Slot(va) == va / PAGE / 1024;
  }

  // ---- the effect of one write on every walk -------------------------------------------

  /** Writing a page table entry changes the translation of its own page and of no other. */
  lemma WalkAfterEntry(m: Phys, cr3: Frame, va: nat, e: Entry, v: nat)
    requires WellMapped(m, cr3) && va < WINDOW && v < WINDOW && Dir(m, cr3, Slot(va)).present
    ensures var m' := PutPte(m, cr3, va, e);
      && WellMapped(m', cr3)
      && Walk(m', cr3, v) == (if !SamePageAs(v, va) then Walk(m, cr3, v)
                              else if e.present then Some(PAGE * e.frame + v % PAGE) else None)
  {
    EntryKeeps(m, cr3, Slot(va), Index(va), e);
    SlotAndIndexIdentify(v, va);
  }

  lemma WalkAfterRaise(m: Phys, cr3: Frame, p: nat, v: nat)
    requires WellMapped(m, cr3) && p < SELF && v < WINDOW
    ensures var m' := Put(m, cr3, p, Dir(m, cr3, p).(user := true));
      WellMapped(m', cr3) && Walk(m', cr3, v) == Walk(m, cr3, v)
  {
    RaiseKeeps(m, cr3, p);
  }

  /** Linking a frame as the table of an empty slot brings that frame's contents to life. */
  lemma WalkAfterLink(m: Phys, cr3: Frame, p: nat, e: Entry, v: nat)
    requires WellMapped(m, cr3) && p < SELF && v < WINDOW && e.present && Unused(m, cr3, e.frame)
    ensures var m', pte := Put(m, cr3, p, e), At(m, e.frame, Index(v));
      && WellMapped(m', cr3)
      && Walk(m', cr3, v) == (if Slot(v) != p then Walk(m, cr3, v)
                              else if pte.present then Some(PAGE * pte.frame + v % PAGE) else None)
  {
    LinkKeeps(m, cr3, p, e);
  }

  // ---- map_page ------------------------------------------------------------------------

  /** The caller's side of `map_page`: a new table must be a frame no table uses. */
  ghost predicate CanLink(m: Phys, cr3: Frame, va: nat, table: Frame)
    requires va < WINDOW
  {
    Dir(m, cr3, Slot(va)).present || Unused(m, cr3, table)
  }

  lemma LinkTwice(m: Phys, cr3: Frame, pa: nat, va: nat, user: bool, rw: bool, force: bool, table: Frame)
    requires WellMapped(m, cr3) && va < WINDOW && pa < SPACE && !CanLink(m, cr3, va, table) && table != cr3
    ensures !WellMapped(MapPage(m, cr3, pa, va, user, rw, force, table), cr3)
  {
    var p :| 0 <= p < SELF && At(m, cr3, p).present && At(m, cr3, p).frame == table;
    var m' := MapPage(m, cr3, pa, va, user, rw, force, table);
    assert p != Slot(va);
    forall q | 0 <= q < 1024
      ensures At(m', cr3, q) == if q == Slot(va) then Linked(table, user, rw) else At(m, cr3, q) { }
    assert At(m', cr3, p).frame == At(m', cr3, Slot(va)).frame;
  }

  /** `map_page` does not look at what `kmalloc` returned. Whatever frame other than the directory's it
      links, the tables stay well mapped exactly when that frame was no table yet. */
  lemma MapPageKeepsTables(m: Phys, cr3: Frame, pa: nat, va: nat, user: bool, rw: bool, force: bool, table: Frame)
    requires WellMapped(m, cr3) && va < WINDOW && pa < SPACE && (Dir(m, cr3, Slot(va)).present || table != cr3)
    ensures WellMapped(MapPage(m, cr3, pa, va, user, rw, force, table), cr3) <==> CanLink(m, cr3, va, table)
  {
    var e := Linked(table, user, rw);
    if !CanLink(m, cr3, va, table) {
      LinkTwice(m, cr3, pa, va, user, rw, force, table);
    } else if Dir(m, cr3, Slot(va)).present {
      WalkAfterEntry(m, cr3, va, Linked(pa / PAGE, user, rw), va);
    } else {
      WalkAfterLink(m, cr3, Slot(va), e, va);
      WalkAfterEntry(Put(m, cr3, Slot(va), e), cr3, va, Linked(pa / PAGE, user, rw), va);
    }
  }

  /** A forced mapping of a page-aligned `pa` translates every offset of its page. */
  lemma MappedPageTranslates(m: Phys, cr3: Frame, pa: nat, va: nat, user: bool, rw: bool, table: Frame, off: nat)
    requires WellMapped(m, cr3) && va < WINDOW && pa < SPACE && pa % PAGE == 0 && CanLink(m, cr3, va, table) && off < PAGE
    ensures Walk(MapPage(m, cr3, pa, va, user, rw, true, table), cr3, va / PAGE * PAGE + off) == Some(pa + off)
  {
    var v, e := va / PAGE * PAGE + off, Linked(pa / PAGE, user, rw);
    assert SamePageAs(v, va);
    if Dir(m, cr3, Slot(va)).present {
      WalkAfterEntry(m, cr3, va, e, v);
    } else {
      WalkAfterLink(m, cr3, Slot(va), Linked(table, user, rw), v);
      WalkAfterEntry(Put(m, cr3, Slot(va), Linked(table, user, rw)), cr3, va, e, v);
    }
  }

  /** Other pages keep their translation, except that a newly linked table must be blank at their
      entry: its frame is not cleared by `map_page`. */
  lemma OtherPagesKeepTranslation(m: Phys, cr3: Frame, pa: nat, va: nat, user: bool, rw: bool, force: bool, table: Frame, v: nat)
    requires WellMapped(m, cr3) && va < WINDOW && pa < SPACE && CanLink(m, cr3, va, table)
    requires v < WINDOW && !SamePageAs(v, va)
    ensures Walk(MapPage(m, cr3, pa, va, user, rw, force, table), cr3, v) == Walk(m, cr3, v)
       <==> Dir(m, cr3, Slot(va)).present || Slot(v) != Slot(va) || !At(m, table, Index(v)).present
  {
    var e := Linked(pa / PAGE, user, rw);
    if Dir(m, cr3, Slot(va)).present {
      WalkAfterEntry(m, cr3, va, e, v);
    } else {
      WalkAfterLink(m, cr3, Slot(va), Linked(table, user, rw), v);
      WalkAfterEntry(Put(m, cr3, Slot(va), Linked(table, user, rw)), cr3, va, e, v);
    }
  }

  /** Without force an existing mapping stays, and so does all of memory. */
  lemma UnforcedMapLeavesMapped(m: Phys, cr3: Frame, pa: nat, va: nat, user: bool, rw: bool, table: Frame)
    requires va < WINDOW && pa < SPACE && Walk(m, cr3, va).Some?
    ensures MapPage(m, cr3, pa, va, user, rw, false, table) == m
  {
  }

  // ---- runs that leave the kernel alone ------------------------------------------------

  datatype Op =
    | Unmap(va: nat)
    | Swap(va: nat, pa: nat, user: bool, rw: bool)
    | Map(pa: nat, va: nat, user: bool, rw: bool, table: Frame)
    | SetDpl(va: nat, user: bool)
    | SetRangeDpl(va: nat, length: nat, user: bool)

  /** Below the window, with a spare frame whenever a table has to be linked. */
  ghost predicate Legal(m: Phys, cr3: Frame, op: Op) {
    match op
    case Unmap(va) => va < WINDOW
    case Swap(va, pa, _, _) => va < WINDOW && pa < SPACE
    case Map(pa, va, _, _, table) => va < WINDOW && pa < SPACE && CanLink(m, cr3, va, table)
    case SetDpl(va, _) => va < WINDOW
    case SetRangeDpl(va, length, _) => PAGE * (va / PAGE + PageCount(va, length)) <= WINDOW
  }

  ghost function Step(m: Phys, cr3: Frame, k: Kernel, op: Op): Phys
    requires Legal(m, cr3, op)
  {
    match op
    case Unmap(va) => UnmapPage(m, cr3, k, va)
    case Swap(va, pa, user, rw) => SwapPage(m, cr3, k, va, pa, user, rw).0
    case Map(pa, va, user, rw, table) => MapPage(m, cr3, pa, va, user, rw, false, table)
    case SetDpl(va, user) => SetPageDpl(m, cr3, va / PAGE * PAGE, user)
    case SetRangeDpl(va, length, user) => SetPagesDpl(m, cr3, va / PAGE, PageCount(va, length), user)
  }

  ghost predicate LegalRun(m: Phys, cr3: Frame, k: Kernel, ops: seq<Op>)
    decreases |ops|
  {
    ops == [] || (Legal(m, cr3, ops[0]) && LegalRun(Step(m, cr3, k, ops[0]), cr3, k, ops[1..]))
  }

  ghost function Run(m: Phys, cr3: Frame, k: Kernel, ops: seq<Op>): Phys
    requires LegalRun(m, cr3, k, ops)
    decreases |ops|
  {
    if ops == [] then m else Run(Step(m, cr3, k, ops[0]), cr3, k, ops[1..])
  }

  /** The page of `v` holds a byte of the kernel, which lies from `location` up to `end`. */
  predicate InKernel(k: Kernel, v: nat) {
    k.location < k.end && k.location / PAGE <= v / PAGE <= (k.end - 1) / PAGE
  }

  ghost predicate KernelMapped(m: Phys, cr3: Frame, k: Kernel) {
    k.end <= WINDOW && forall v :: 0 <= v < WINDOW && InKernel(k, v) ==> Walk(m, cr3, v).Some?
  }

  lemma DplKeepsTranslation(m: Phys, cr3: Frame, va: nat, user: bool, v: nat)
    requires WellMapped(m, cr3) && va < WINDOW && v < WINDOW
    ensures WellMapped(SetPageDpl(m, cr3, va, user), cr3)
    ensures Walk(SetPageDpl(m, cr3, va, user), cr3, v) == Walk(m, cr3, v)
  {
    var pte := Pte(m, cr3, va);
    if Dir(m, cr3, Slot(va)).present && pte.present {
      WalkAfterEntry(m, cr3, va, pte.(user := user), v);
      SlotAndIndexIdentify(v, va);
      WalkAfterRaise(PutPte(m, cr3, va, pte.(user := user)), cr3, Slot(va), v);
    }
  }

  lemma {:induction false} RangeDplKeepsTranslation(m: Phys, cr3: Frame, first: nat, count: nat, user: bool, v: nat)
    requires WellMapped(m, cr3) && PAGE * (first + count) <= WINDOW && v < WINDOW
    ensures WellMapped(SetPagesDpl(m, cr3, first, count, user), cr3)
    ensures Walk(SetPagesDpl(m, cr3, first, count, user), cr3, v) == Walk(m, cr3, v)
  {
    if count > 0 {
      RangeDplKeepsTranslation(m, cr3, first, count - 1, user, v);
      DplKeepsTranslation(SetPagesDpl(m, cr3, first, count - 1, user), cr3, PAGE * (first + count - 1), user, v);
    }
  }

  lemma RoundedUp(end: nat)
    requires 0 < end <= WINDOW
    ensures (end + (PAGE - end % PAGE) % PAGE) % SPACE == ((end - 1) / PAGE + 1) * PAGE
  {
  }

  /** The guard strikes for every address in a page of the kernel, and beyond them for the one address that
      is the end rounded up to a page. */
  lemma GuardIsExact(k: Kernel, va: nat)
    requires k.location < k.end <= WINDOW
    ensures Guarded(k, va) <==> InKernel(k, va) || va == ((k.end - 1) / PAGE + 1) * PAGE
  {
    RoundedUp(k.end);
  }

  /** For a page-aligned address that is the kernel's pages and the one behind them. */
  lemma GuardOfPages(k: Kernel, page: nat)
    requires k.location < k.end <= WINDOW
    ensures Guarded(k, PAGE * page) <==> k.location / PAGE <= page <= (k.end - 1) / PAGE + 1
  {
    GuardIsExact(k, PAGE * page);
  }

  /** So no byte of the kernel lies in a page that `unmap_page` or `swap_page` would take. */
  lemma GuardCoversKernel(k: Kernel, va: nat, v: nat)
    requires k.end <= WINDOW && SamePageAs(v, va) && InKernel(k, v)
    ensures Guarded(k, va) && Guarded(k, va / PAGE * PAGE)
  {
    GuardIsExact(k, va);
    GuardIsExact(k, va / PAGE * PAGE);
  }

  lemma KernelBytesAreInKernel(k: Kernel, v: nat)
    requires k.location <= v < k.end
    ensures InKernel(k, v)
  {
  }

  /** `set_page_present` on a mapped page can only unmap it, and nothing else. */
  lemma PresentTranslation(m: Phys, cr3: Frame, va: nat, present: bool, v: nat)
    requires WellMapped(m, cr3) && va < WINDOW && v < WINDOW
    ensures WellMapped(SetPagePresent(m, cr3, va, present), cr3)
    ensures Walk(SetPagePresent(m, cr3, va, present), cr3, v) == if present || !SamePageAs(v, va) then Walk(m, cr3, v) else None
  {
    SlotAndIndexIdentify(v, va);
    if Dir(m, cr3, Slot(va)).present {
      WalkAfterEntry(m, cr3, va, Pte(m, cr3, va).(present := present), v);
    }
  }

  /** `unmap_page` unmaps its page, unless the guard stops it, and no other page. */
  lemma UnmapTranslation(m: Phys, cr3: Frame, k: Kernel, va: nat, v: nat)
    requires WellMapped(m, cr3) && va < WINDOW && v < WINDOW
    ensures WellMapped(UnmapPage(m, cr3, k, va), cr3)
    ensures Walk(UnmapPage(m, cr3, k, va), cr3, v) == if Guarded(k, va) || !SamePageAs(v, va) then Walk(m, cr3, v) else None
  {
    PresentTranslation(m, cr3, va, false, v);
  }

  /** `swap_page` redirects its page when that was mapped and neither side touches the kernel. */
  lemma SwapTranslation(m: Phys, cr3: Frame, k: Kernel, va: nat, pa: nat, user: bool, rw: bool, v: nat)
    requires WellMapped(m, cr3) && va < WINDOW && pa < SPACE && v < WINDOW
    ensures var (m', original) := SwapPage(m, cr3, k, va, pa, user, rw);
      && WellMapped(m', cr3)
      && Walk(m', cr3, v) == (if Swappable(m, cr3, k, va) && SamePageAs(v, va)
                              then Some(pa / PAGE * PAGE + v % PAGE) else Walk(m, cr3, v))
      && (Swappable(m, cr3, k, va) ==> Walk(m, cr3, va) == Some(original / PAGE * PAGE + va % PAGE))
  {
    if Swappable(m, cr3, k, va) {
      WalkAfterEntry(m, cr3, va, Linked(pa / PAGE, user, rw), v);
      ValueRoundTrip(Pte(m, cr3, va), 0);
    }
  }

  lemma UnforcedMapKeepsMapped(m: Phys, cr3: Frame, pa: nat, va: nat, user: bool, rw: bool, table: Frame, v: nat)
    requires WellMapped(m, cr3) && va < WINDOW && pa < SPACE && CanLink(m, cr3, va, table)
    requires v < WINDOW && Walk(m, cr3, v).Some?
    ensures Walk(MapPage(m, cr3, pa, va, user, rw, false, table), cr3, v) == Walk(m, cr3, v)
  {
    SlotAndIndexIdentify(v, va);
    if !SamePageAs(v, va) {
      OtherPagesKeepTranslation(m, cr3, pa, va, user, rw, false, table, v);
    }
  }

  lemma StepKeepsKernel(m: Phys, cr3: Frame, k: Kernel, op: Op, v: nat)
    requires WellMapped(m, cr3) && Legal(m, cr3, op) && k.end <= WINDOW && v < WINDOW
    ensures WellMapped(Step(m, cr3, k, op), cr3)
    ensures InKernel(k, v) && Walk(m, cr3, v).Some? ==> Walk(Step(m, cr3, k, op), cr3, v) == Walk(m, cr3, v)
  {
    hide Walk, WellMapped, MapPage, UnmapPage, SwapPage, SetPageDpl, SetPagesDpl;
    if InKernel(k, v) && op.Unmap? && SamePageAs(v, op.va) { GuardCoversKernel(k, op.va, v); }
    if InKernel(k, v) && op.Swap? && SamePageAs(v, op.va) { GuardCoversKernel(k, op.va, v); }
    match op
    case Unmap(va) => UnmapTranslation(m, cr3, k, va, v);
    case Swap(va, pa, user, rw) => SwapTranslation(m, cr3, k, va, pa, user, rw, v);
    case Map(pa, va, user, rw, table) =>
      MapPageKeepsTables(m, cr3, pa, va, user, rw, false, table);
      if Walk(m, cr3, v).Some? {
        UnforcedMapKeepsMapped(m, cr3, pa, va, user, rw, table, v);
      }
    case SetDpl(va, user) => DplKeepsTranslation(m, cr3, va / PAGE * PAGE, user, v);
    case SetRangeDpl(va, length, user) =>
      RangeDplKeepsTranslation(m, cr3, va / PAGE, PageCount(va, length), user, v);
  }

  /** However these operations are interleaved, a mapped kernel keeps its translation, in every page that holds
      one of its bytes. */
  lemma {:induction false} RunKeepsKernel(m: Phys, cr3: Frame, k: Kernel, ops: seq<Op>, v: nat)
    requires WellMapped(m, cr3) && KernelMapped(m, cr3, k) && LegalRun(m, cr3, k, ops)
    requires v < WINDOW && InKernel(k, v)
    ensures WellMapped(Run(m, cr3, k, ops), cr3)
    ensures Walk(Run(m, cr3, k, ops), cr3, v) == Walk(m, cr3, v)
    decreases |ops|
  {
    if ops != [] {
      var m' := Step(m, cr3, k, ops[0]);
      forall w | 0 <= w < WINDOW {
        StepKeepsKernel(m, cr3, k, ops[0], w);
      }
      StepKeepsKernel(m, cr3, k, ops[0], v);
      RunKeepsKernel(m', cr3, k, ops[1..], v);
    }
  }

  // ---- who may use a page --------------------------------------------------------------

  ghost predicate UserPage(m: Phys, cr3: Frame, v: nat)
    requires v < WINDOW
  {
    Walk(m, cr3, v).Some? && Pte(m, cr3, v).user
  }

  /** User mode reaches a page when both levels allow it. */
  ghost predicate UserAccess(m: Phys, cr3: Frame, v: nat)
    requires v < WINDOW
  {
    UserPage(m, cr3, v) && Dir(m, cr3, Slot(v)).user
  }

  ghost predicate Covered(m: Phys, cr3: Frame) {
    forall v :: 0 <= v < WINDOW && UserPage(m, cr3, v) ==> Dir(m, cr3, Slot(v)).user
  }

  /** Supervisor writes aside, a page is writable when both levels allow it. */
  ghost predicate WriteAccess(m: Phys, cr3: Frame, v: nat)
    requires v < WINDOW
  {
    Walk(m, cr3, v).Some? && Pte(m, cr3, v).rw && Dir(m, cr3, Slot(v)).rw
  }

  /** Access after `map_page` and `swap_page` replace the entry of `va` by one for `user` and `rw`. */
  lemma EntryAccess(m: Phys, cr3: Frame, va: nat, frame: Frame, user: bool, rw: bool, v: nat)
    requires WellMapped(m, cr3) && va < WINDOW && v < WINDOW && Dir(m, cr3, Slot(va)).present
    ensures var m', dir := PutPte(m, cr3, va, Linked(frame, user, rw)), Dir(m, cr3, Slot(va));
      && UserAccess(m', cr3, v) == (if SamePageAs(v, va) then user && dir.user else UserAccess(m, cr3, v))
      && WriteAccess(m', cr3, v) == (if SamePageAs(v, va) then rw && dir.rw else WriteAccess(m, cr3, v))
  {
    EntryKeeps(m, cr3, Slot(va), Index(va), Linked(frame, user, rw));
    SlotAndIndexIdentify(v, va);
  }

  /** A forced mapping gives what it was asked for only as far as an existing directory entry allows, for
      `map_page` raises none; with a table of its own it gives exactly that. */
  lemma MappedPageAccess(m: Phys, cr3: Frame, pa: nat, va: nat, user: bool, rw: bool, table: Frame, v: nat)
    requires WellMapped(m, cr3) && va < WINDOW && pa < SPACE && CanLink(m, cr3, va, table) && v < WINDOW && SamePageAs(v, va)
    ensures var m', dir := MapPage(m, cr3, pa, va, user, rw, true, table), Dir(m, cr3, Slot(va));
      && UserAccess(m', cr3, v) == (user && (dir.present ==> dir.user))
      && WriteAccess(m', cr3, v) == (rw && (dir.present ==> dir.rw))
  {
    if Dir(m, cr3, Slot(va)).present {
      EntryAccess(m, cr3, va, pa / PAGE, user, rw, v);
    } else {
      WalkAfterLink(m, cr3, Slot(va), Linked(table, user, rw), v);
      EntryAccess(Put(m, cr3, Slot(va), Linked(table, user, rw)), cr3, va, pa / PAGE, user, rw, v);
    }
  }

  /** Where a table was already in place, other pages keep their access under either operation. */
  lemma OtherPagesKeepAccess(m: Phys, cr3: Frame, k: Kernel, pa: nat, va: nat, user: bool, rw: bool, force: bool, table: Frame, v: nat)
    requires WellMapped(m, cr3) && va < WINDOW && pa < SPACE && Dir(m, cr3, Slot(va)).present
    requires v < WINDOW && !SamePageAs(v, va)
    ensures var mapped, swapped := MapPage(m, cr3, pa, va, user, rw, force, table), SwapPage(m, cr3, k, va, pa, user, rw).0;
      && UserAccess(mapped, cr3, v) == UserAccess(m, cr3, v) == UserAccess(swapped, cr3, v)
      && WriteAccess(mapped, cr3, v) == WriteAccess(m, cr3, v) == WriteAccess(swapped, cr3, v)
  {
    EntryAccess(m, cr3, va, pa / PAGE, user, rw, v);
  }

  lemma DplEffect(m: Phys, cr3: Frame, va: nat, user: bool, v: nat)
    requires WellMapped(m, cr3) && va < WINDOW && v < WINDOW
    ensures var m' := SetPageDpl(m, cr3, va, user);
      && UserPage(m', cr3, v) == (if SamePageAs(v, va) && Walk(m, cr3, v).Some? then user else UserPage(m, cr3, v))
      && Dir(m', cr3, Slot(v)).user
           == (Dir(m, cr3, Slot(v)).user || (user && Slot(v) == Slot(va) && Walk(m, cr3, va).Some?))
  {
    var pde, pte := Dir(m, cr3, Slot(va)), Pte(m, cr3, va);
    SlotAndIndexIdentify(v, va);
    if pde.present && pte.present {
      EntryKeeps(m, cr3, Slot(va), Index(va), pte.(user := user));
      RaiseKeeps(PutPte(m, cr3, va, pte.(user := user)), cr3, Slot(va));
    }
  }

  /** Some mapped page among `count` from page number `first` lies in the 4 MB of slot `p`. */
  ghost predicate TouchesSlot(m: Phys, cr3: Frame, first: nat, count: nat, p: nat) {
    exists w :: 0 <= w < WINDOW && first <= w / PAGE < first + count && Slot(w) == p && Walk(m, cr3, w).Some?
  }

  lemma TouchesNone(m: Phys, cr3: Frame, first: nat, p: nat)
    ensures !TouchesSlot(m, cr3, first, 0, p)
  {
  }

  lemma TouchesOneMore(m: Phys, cr3: Frame, first: nat, count: nat, p: nat)
    requires PAGE * (first + count + 1) <= WINDOW
    ensures var va := PAGE * (first + count);
      TouchesSlot(m, cr3, first, count + 1, p)
      <==> TouchesSlot(m, cr3, first, count, p) || (Slot(va) == p && Walk(m, cr3, va).Some?)
  {
    var va := PAGE * (first + count);
    if TouchesSlot(m, cr3, first, count + 1, p) {
      var w :| 0 <= w < WINDOW && first <= w / PAGE < first + count + 1 && Slot(w) == p && Walk(m, cr3, w).Some?;
      SlotAndIndexIdentify(w, va);
    }
    if Slot(va) == p && Walk(m, cr3, va).Some? {
      assert va / PAGE == first + count;
    }
  }

  lemma MappedTogether(m: Phys, cr3: Frame, v: nat, va: nat)
    requires v < WINDOW && va < WINDOW && SamePageAs(v, va)
    ensures Walk(m, cr3, v).Some? == Walk(m, cr3, va).Some?
  {
    SlotAndIndexIdentify(v, va);
  }

  /** Over a range exactly the mapped pages in it get the new user bit, and a directory entry is raised
      exactly on behalf of such a page in its 4 MB. */
  lemma {:induction false} RangeDplEffect(m: Phys, cr3: Frame, first: nat, count: nat, user: bool, v: nat)
    requires WellMapped(m, cr3) && PAGE * (first + count) <= WINDOW && v < WINDOW
    ensures var m' := SetPagesDpl(m, cr3, first, count, user);
      && UserPage(m', cr3, v) == (if first <= v / PAGE < first + count && Walk(m, cr3, v).Some? then user else UserPage(m, cr3, v))
      && Dir(m', cr3, Slot(v)).user == (Dir(m, cr3, Slot(v)).user || (user && TouchesSlot(m, cr3, first, count, Slot(v))))
  {
    hide Walk, WellMapped, SetPageDpl, UserPage, TouchesSlot, Dir, Slot, Index, At;
    if count == 0 {
      TouchesNone(m, cr3, first, Slot(v));
    } else {
      TouchesOneMore(m, cr3, first, count - 1, Slot(v));
      var m1, va := SetPagesDpl(m, cr3, first, count - 1, user), PAGE * (first + count - 1);
      RangeDplEffect(m, cr3, first, count - 1, user, v);
      RangeDplKeepsTranslation(m, cr3, first, count - 1, user, v);
      DplEffect(m1, cr3, va, user, v);
      assert va / PAGE == first + count - 1;
      SlotAndIndexIdentify(v, va);
      RangeDplKeepsTranslation(m, cr3, first, count - 1, user, va);
      if SamePageAs(v, va) { MappedTogether(m, cr3, v, va); }
    }
  }

  predicate PageMeets(v: nat, va: nat, length: nat) {
    v / PAGE * PAGE < va + length && va < v / PAGE * PAGE + PAGE
  }

  /** The pages visited are those that meet the range. */
  lemma VisitedPages(va: nat, length: nat, v: nat)
    requires 0 < length && va + length <= WINDOW
    ensures PAGE * (va / PAGE + PageCount(va, length)) <= WINDOW
    ensures va / PAGE <= v / PAGE < va / PAGE + PageCount(va, length) <==> PageMeets(v, va, length)
  {
    var l := length + va % PAGE;
    assert l < SPACE;
    assert va / PAGE * PAGE + l == va + length;
  }

  /** `set_memory_range_dpl` on a non-empty range gives user mode exactly the mapped pages that meet
      the range, or takes exactly those away, provided no user page hid under a supervisor directory
      entry before; and then none does afterwards. */
  lemma RangeDplAccess(m: Phys, cr3: Frame, va: nat, length: nat, user: bool, v: nat)
    requires WellMapped(m, cr3) && Covered(m, cr3) && 0 < length && va + length <= WINDOW && v < WINDOW
    requires PAGE * (va / PAGE + PageCount(va, length)) <= WINDOW
    ensures var m' := SetPagesDpl(m, cr3, va / PAGE, PageCount(va, length), user);
      && Covered(m', cr3)
      && Walk(m', cr3, v) == Walk(m, cr3, v)
      && UserAccess(m', cr3, v) == (if PageMeets(v, va, length) then user && Walk(m, cr3, v).Some? else UserAccess(m, cr3, v))
  {
    var first, count := va / PAGE, PageCount(va, length);
    var m' := SetPagesDpl(m, cr3, first, count, user);
    forall w | 0 <= w < WINDOW && UserPage(m', cr3, w) ensures Dir(m', cr3, Slot(w)).user {
      RangeDplEffect(m, cr3, first, count, user, w);
    }
    VisitedPages(va, length, v);
    RangeDplEffect(m, cr3, first, count, user, v);
    RangeDplKeepsTranslation(m, cr3, first, count, user, v);
  }

  /** Without any assumption on the directory: pages of the range end up as asked for, and a page outside
      keeps its access unless it is a user page that a supervisor entry had hidden and a mapped page of the
      range in the same 4 MB raises that entry. */
  lemma RangeDplOutside(m: Phys, cr3: Frame, first: nat, count: nat, user: bool, v: nat)
    requires WellMapped(m, cr3) && PAGE * (first + count) <= WINDOW && v < WINDOW
    ensures var m' := SetPagesDpl(m, cr3, first, count, user);
      && (first <= v / PAGE < first + count ==> UserAccess(m', cr3, v) == (user && Walk(m, cr3, v).Some?))
      && (!(first <= v / PAGE < first + count) ==>
           (UserAccess(m', cr3, v) == UserAccess(m, cr3, v)
            <==> !(user && UserPage(m, cr3, v) && !Dir(m, cr3, Slot(v)).user && TouchesSlot(m, cr3, first, count, Slot(v)))))
  {
    RangeDplEffect(m, cr3, first, count, user, v);
    RangeDplKeepsTranslation(m, cr3, first, count, user, v);
    assert first <= v / PAGE < first + count && Walk(m, cr3, v).Some? ==> TouchesSlot(m, cr3, first, count, Slot(v));
  }

  /** An empty range is not always a no-op: off a page boundary it still visits the page of `va`. */
  lemma EmptyRangeVisits(va: nat, v: nat)
    ensures va / PAGE <= v / PAGE < va / PAGE + PageCount(va, 0) <==> va % PAGE != 0 && SamePageAs(v, va)
  {
  }

  // ---- whole tables --------------------------------------------------------------------

  /** `set_page_table_present` can only unmap the 4 MB of its table, and nothing else. */
  lemma TablePresentTranslation(m: Phys, cr3: Frame, va: nat, present: bool, v: nat)
    requires WellMapped(m, cr3) && va < WINDOW && v < WINDOW
    ensures var m' := SetPageTablePresent(m, cr3, va, present);
      && WellMapped(m', cr3)
      && Walk(m', cr3, v) == if present || Slot(v) != Slot(va) then Walk(m, cr3, v) else None
  {
    var pde := Dir(m, cr3, Slot(va));
    if pde.present {
      var m' := Put(m, cr3, Slot(va), pde.(present := present));
      forall q | 0 <= q < 1024
        ensures At(m', cr3, q) == if q == Slot(va) then pde.(present := present) else At(m, cr3, q) { }
    }
  }

  /** The guard of `unmap_page_table` looks at one address, so a mapped byte in the same 4 MB survives
      exactly when that very address is guarded. */
  lemma UnmapTableTranslation(m: Phys, cr3: Frame, k: Kernel, va: nat, v: nat)
    requires WellMapped(m, cr3) && va < WINDOW && v < WINDOW && Walk(m, cr3, v).Some?
    ensures Walk(UnmapPageTable(m, cr3, k, va), cr3, v) == Walk(m, cr3, v) <==> Guarded(k, va) || Slot(v) != Slot(va)
  {
    TablePresentTranslation(m, cr3, va, false, v);
  }

  predicate InTable(p: nat, va: nat) {
    Slot(va) == p
  }

  /** So a table is safe from it exactly when each of its 1024 pages holds a byte of the kernel. */
  lemma GuardedTables(k: Kernel, p: nat)
    requires p < SELF && k.location < k.end <= WINDOW
    ensures (forall va: nat :: InTable(p, va) ==> Guarded(k, va))
       <==> k.location / PAGE <= 1024 * p && 1024 * p + 1023 <= (k.end - 1) / PAGE
  {
    var last := 0x40_0000 * p + 0x3F_FFFF;
    assert InTable(p, 0x40_0000 * p) && InTable(p, last);
    GuardIsExact(k, 0x40_0000 * p);
    GuardIsExact(k, last);
    forall va: nat | InTable(p, va) ensures Guarded(k, va) <==> InKernel(k, va) || va == ((k.end - 1) / PAGE + 1) * PAGE {
      GuardIsExact(k, va);
    }
  }

  /** A kernel from 1 MB to 2 MB loses its mapping to `unmap_page_table(0)`. */
  lemma KernelLosesTable(m: Phys, cr3: Frame, v: nat)
    requires WellMapped(m, cr3) && KernelMapped(m, cr3, Kernel(0x10_0000, 0x20_0000)) && InKernel(Kernel(0x10_0000, 0x20_0000), v)
    ensures Walk(m, cr3, v).Some? && Walk(UnmapPageTable(m, cr3, Kernel(0x10_0000, 0x20_0000), 0), cr3, v) == None
  {
    TablePresentTranslation(m, cr3, 0, false, v);
  }

  /** `set_page_table_dpl` opens the user pages of its 4 MB, or closes them all; it may leave user pages
      behind a supervisor entry. */
  lemma TableDplAccess(m: Phys, cr3: Frame, va: nat, user: bool, v: nat)
    requires WellMapped(m, cr3) && va < WINDOW && v < WINDOW
    ensures var m' := SetPageTableDpl(m, cr3, va, user);
      && WellMapped(m', cr3) && Walk(m', cr3, v) == Walk(m, cr3, v)
      && UserAccess(m', cr3, v) == if Slot(v) == Slot(va) then user && UserPage(m, cr3, v) else UserAccess(m, cr3, v)
  {
    var pde := Dir(m, cr3, Slot(va));
    if pde.present {
      var m' := Put(m, cr3, Slot(va), pde.(user := user));
      forall q | 0 <= q < 1024
        ensures At(m', cr3, q) == if q == Slot(va) then pde.(user := user) else At(m, cr3, q) { }
    }
  }

  /** Given a frame no table uses, swapping a table redirects its 4 MB, and only those, to whatever the
      new frame holds; the old entry's value is returned. */
  lemma SwapTableTranslation(m: Phys, cr3: Frame, k: Kernel, va: nat, table: nat, user: bool, rw: bool, v: nat)
    requires WellMapped(m, cr3) && va < WINDOW && table < SPACE && v < WINDOW && Unused(m, cr3, table / PAGE)
    ensures var (m', original) := SwapPageTable(m, cr3, k, va, table, user, rw);
      var pte := At(m, table / PAGE, Index(v));
      var swapped := Dir(m, cr3, Slot(va)).present && !Guarded(k, PAGE * Dir(m, cr3, Slot(va)).frame) && !Guarded(k, va / PAGE * PAGE);
      && WellMapped(m', cr3)
      && original == (if swapped then Value(Dir(m, cr3, Slot(va))) else 0)
      && Walk(m', cr3, v) == (if !swapped || Slot(v) != Slot(va) then Walk(m, cr3, v)
                              else if pte.present then Some(PAGE * pte.frame + v % PAGE) else None)
  {
    WalkAfterLink(m, cr3, Slot(va), Linked(table / PAGE, user, rw), v);
  }

  // ---- init_paging ---------------------------------------------------------------------

  /** The tables that `init_paging` builds translate every address below the window to itself and
      keep user mode out. */
  lemma InitialTablesAreIdentity(m: Phys, cr3: Frame, tables: Frame, v: nat)
    requires InitialTables(m, cr3, tables) && v < WINDOW
    ensures WellMapped(m, cr3) && Walk(m, cr3, v) == Some(v)
    ensures Covered(m, cr3) && !UserPage(m, cr3, v)
  {
    forall w | 0 <= w < WINDOW ensures Walk(m, cr3, w) == Some(w) && !UserPage(m, cr3, w) {
      assert Slot(w) < SELF && 1024 * Slot(w) + Index(w) == w / PAGE;
      assert At(m, cr3, Slot(w)) == Entry(true, true, false, 0, tables + Slot(w));
      assert IdentityTable(m, tables, Slot(w));
    }
  }
}
