/** What the paging operations store, entry by entry and bit by bit. */
module Entries {
  import opened Common
  import opened Paging
  import opened Translation

  /** Where the fields lie in the 32-bit value: present is bit 0, write access bit 1, user access bit 2, and
      the frame starts at bit 12. */
  lemma EntryLayout(e: Entry)
    ensures Value(e) % 2 == Bit(e.present) && Value(e) / 2 % 2 == Bit(e.rw) && Value(e) / 4 % 2 == Bit(e.user)
    ensures Value(e) / PAGE == e.frame && Value(e) / 8 % 512 == e.flags
  {
    FieldsOfValue(e);
    assert FromValue(Value(e)).present == e.present && FromValue(Value(e)).rw == e.rw && FromValue(Value(e)).user == e.user;
  }

  /** The value of a new entry: the masked address with the access bits asked for, all else clear. */
  function NewValue(address: nat, user: bool, rw: bool): nat {
    address / PAGE * PAGE + 4 * Bit(user) + 2 * Bit(rw) + 1
  }

  ghost predicate SameBut(m: Phys, m': Phys, words: set<nat>) {
    forall w :: 0 <= w < RAM_WORDS && w !in words ==> m'[w] == m[w]
  }

  function DirWord(cr3: Frame, va: nat): nat {
    1024 * cr3 + Slot(va)
  }

  function PteWord(m: Phys, cr3: Frame, va: nat): nat
    requires va < SPACE
  {
    1024 * Dir(m, cr3, Slot(va)).frame + Index(va)
  }

  // ---- map_page --------------------------------------------------------------------------

  /** `map_page` stores the directory entry only when it was absent and the page's entry only when forced or
      when that was absent, as new values; no other word changes. */
  lemma MapPageStores(m: Phys, cr3: Frame, pa: nat, va: nat, user: bool, rw: bool, force: bool, table: Frame)
    requires WellMapped(m, cr3) && va < WINDOW && pa < SPACE && CanLink(m, cr3, va, table)
    ensures var m', linked := MapPage(m, cr3, pa, va, user, rw, force, table), !Dir(m, cr3, Slot(va)).present;
      && SameBut(m, m', {DirWord(cr3, va), PteWord(m', cr3, va)})
      && (if linked then Value(Dir(m', cr3, Slot(va))) == NewValue(PAGE * table, user, rw)
          else Dir(m', cr3, Slot(va)) == Dir(m, cr3, Slot(va)))
      && var old_ := m[PteWord(m', cr3, va)];
         if old_.present && !force then Pte(m', cr3, va) == old_ else Value(Pte(m', cr3, va)) == NewValue(pa, user, rw)
  {
  }

  /** Without force a page that is not mapped becomes mapped; for one behind a table in place that is the same
      as with force. */
  lemma UnforcedMapMapsUnmapped(m: Phys, cr3: Frame, pa: nat, va: nat, user: bool, rw: bool, table: Frame, v: nat)
    requires WellMapped(m, cr3) && va < WINDOW && pa < SPACE && CanLink(m, cr3, va, table)
    requires Walk(m, cr3, va) == None && v < WINDOW && SamePageAs(v, va)
    ensures Walk(MapPage(m, cr3, pa, va, user, rw, false, table), cr3, v)
         == if !Dir(m, cr3, Slot(va)).present && At(m, table, Index(va)).present
            then Some(PAGE * At(m, table, Index(va)).frame + v % PAGE)
            else Some(pa / PAGE * PAGE + v % PAGE)
    ensures Dir(m, cr3, Slot(va)).present ==>
      MapPage(m, cr3, pa, va, user, rw, false, table) == MapPage(m, cr3, pa, va, user, rw, true, table)
  {
    SlotAndIndexIdentify(v, va);
    var e, link := Linked(pa / PAGE, user, rw), Linked(table, user, rw);
    if Dir(m, cr3, Slot(va)).present {
      WalkAfterEntry(m, cr3, va, e, v);
    } else {
      WalkAfterLink(m, cr3, Slot(va), link, v);
      WalkAfterEntry(Put(m, cr3, Slot(va), link), cr3, va, e, v);
    }
  }

  // ---- set_page_dpl and set_memory_range_dpl -----------------------------------------------

  ghost predicate InUse(m: Phys, cr3: Frame, frame: nat) {
    frame == cr3 || exists p :: 0 <= p < SELF && At(m, cr3, p).present && At(m, cr3, p).frame == frame
  }

  /** Nothing but user bits differs, and those only in the directory and in tables in use. */
  ghost predicate OnlyUserBits(m: Phys, m': Phys, cr3: Frame) {
    && (forall w :: 0 <= w < RAM_WORDS ==> m'[w].(user := m[w].user) == m[w])
    && (forall w :: 0 <= w < RAM_WORDS && m'[w] != m[w] ==> InUse(m, cr3, w / 1024))
  }

  /** One page: its own entry and its directory entry. */
  lemma DplStores(m: Phys, cr3: Frame, va: nat, user: bool)
    requires WellMapped(m, cr3) && va < WINDOW
    ensures var m' := SetPageDpl(m, cr3, va, user);
      && SameBut(m, m', {DirWord(cr3, va), PteWord(m, cr3, va)}) && OnlyUserBits(m, m', cr3)
      && (m' != m ==> Walk(m, cr3, va).Some?)
  {
    if Walk(m, cr3, va).Some? {
      assert InUse(m, cr3, Dir(m, cr3, Slot(va)).frame);
    }
  }

  /** In the value of a word that means bit 2. */
  lemma UserBitOfValue(e: Entry, e': Entry)
    requires e'.(user := e.user) == e
    ensures Value(e') - 4 * (Value(e') / 4 % 2) == Value(e) - 4 * (Value(e) / 4 % 2)
  {
    EntryLayout(e);
    EntryLayout(e');
  }

  lemma SameInUse(m: Phys, m': Phys, cr3: Frame, frame: nat)
    requires OnlyUserBits(m, m', cr3)
    ensures InUse(m', cr3, frame) <==> InUse(m, cr3, frame)
  {
    forall p | 0 <= p < SELF
      ensures At(m', cr3, p).present == At(m, cr3, p).present && At(m', cr3, p).frame == At(m, cr3, p).frame
    {
      assert At(m', cr3, p).(user := At(m, cr3, p).user) == At(m, cr3, p);
    }
  }

  lemma OnlyUserBitsCompose(m: Phys, m1: Phys, m2: Phys, cr3: Frame)
    requires OnlyUserBits(m, m1, cr3) && OnlyUserBits(m1, m2, cr3)
    ensures OnlyUserBits(m, m2, cr3)
  {
    hide InUse;
    forall w | 0 <= w < RAM_WORDS && m2[w] != m[w] ensures InUse(m, cr3, w / 1024) {
      SameInUse(m, m1, cr3, w / 1024);
    }
  }

  lemma NoBits(m: Phys, cr3: Frame)
    ensures OnlyUserBits(m, m, cr3)
  {
  }

  /** Over a range, wherever the pages lie. */
  lemma {:induction false} RangeDplStores(m: Phys, cr3: Frame, first: nat, count: nat, user: bool)
    requires WellMapped(m, cr3) && PAGE * (first + count) <= WINDOW
    ensures OnlyUserBits(m, SetPagesDpl(m, cr3, first, count, user), cr3)
  {
    hide SetPageDpl, WellMapped, Slot, Index, OnlyUserBits;
    if count == 0 {
      NoBits(m, cr3);
    } else {
      var m1 := SetPagesDpl(m, cr3, first, count - 1, user);
      RangeDplStores(m, cr3, first, count - 1, user);
      RangeDplKeepsTranslation(m, cr3, first, count - 1, user, 0);
      DplStores(m1, cr3, PAGE * (first + count - 1), user);
      OnlyUserBitsCompose(m, m1, SetPagesDpl(m, cr3, first, count, user), cr3);
    }
  }

  lemma OnlyUserBitsKeepWriteAccess(m: Phys, m': Phys, cr3: Frame, v: nat)
    requires OnlyUserBits(m, m', cr3) && v < WINDOW
    ensures WriteAccess(m', cr3, v) == WriteAccess(m, cr3, v)
  {
    var d := 1024 * cr3 + Slot(v);
    var t := 1024 * m[d].frame + Index(v);
    assert m'[d].(user := m[d].user) == m[d] && m'[t].(user := m[t].user) == m[t];
  }

  /** So no page gains or loses write access, wherever it lies. */
  lemma RangeDplKeepsWriteAccess(m: Phys, cr3: Frame, first: nat, count: nat, user: bool, v: nat)
    requires WellMapped(m, cr3) && PAGE * (first + count) <= WINDOW && v < WINDOW
    ensures WriteAccess(SetPagesDpl(m, cr3, first, count, user), cr3, v) == WriteAccess(m, cr3, v)
  {
    RangeDplStores(m, cr3, first, count, user);
    OnlyUserBitsKeepWriteAccess(m, SetPagesDpl(m, cr3, first, count, user), cr3, v);
  }

  lemma DplKeepsWriteAccess(m: Phys, cr3: Frame, va: nat, user: bool, v: nat)
    requires WellMapped(m, cr3) && va < WINDOW && v < WINDOW
    ensures WriteAccess(SetPageDpl(m, cr3, va, user), cr3, v) == WriteAccess(m, cr3, v)
  {
    DplStores(m, cr3, va, user);
    OnlyUserBitsKeepWriteAccess(m, SetPageDpl(m, cr3, va, user), cr3, v);
  }

  // ---- set_page_present, unmap_page, swap_page -----------------------------------------------

  /** Unmapping clears bit 0 of the page's entry, of a mapped page whose address is outside the guard, and
      stores nothing else. */
  lemma UnmapStores(m: Phys, cr3: Frame, k: Kernel, va: nat)
    requires WellMapped(m, cr3) && va < WINDOW && k.location < k.end <= WINDOW
    ensures var m' := UnmapPage(m, cr3, k, va);
      && SameBut(m, m', {PteWord(m, cr3, va)})
      && (if Walk(m, cr3, va).Some? && !InKernel(k, va) && va != ((k.end - 1) / PAGE + 1) * PAGE
          then Value(m'[PteWord(m, cr3, va)]) == Value(m[PteWord(m, cr3, va)]) - 1
          else m' == m)
  {
    GuardIsExact(k, va);
  }

  /** `set_page_present` to present never changes anything. */
  lemma PresentStores(m: Phys, cr3: Frame, va: nat, present: bool)
    requires WellMapped(m, cr3) && va < WINDOW
    ensures var m' := SetPagePresent(m, cr3, va, present);
      && SameBut(m, m', {PteWord(m, cr3, va)})
      && (if Walk(m, cr3, va).Some? && !present then Value(m'[PteWord(m, cr3, va)]) == Value(m[PteWord(m, cr3, va)]) - 1
          else m' == m)
  {
  }

  /** Page number `page` is one of the kernel's or the one behind. */
  predicate NextToKernel(k: Kernel, page: nat) {
    k.location / PAGE <= page <= (k.end - 1) / PAGE + 1
  }

  /** `swap_page` takes exactly the mapped pages for which neither the page nor its frame is next to the
      kernel. It stores the new entry and returns the value of the old one; a refusal returns 0 and stores
      nothing. A returned 0 is always a refusal. */
  lemma SwapStores(m: Phys, cr3: Frame, k: Kernel, va: nat, pa: nat, user: bool, rw: bool)
    requires WellMapped(m, cr3) && va < WINDOW && pa < SPACE && k.location < k.end <= WINDOW
    ensures var (m', original) := SwapPage(m, cr3, k, va, pa, user, rw);
      var word := PteWord(m, cr3, va);
      if Walk(m, cr3, va).Some? && !NextToKernel(k, va / PAGE) && !NextToKernel(k, Walk(m, cr3, va).value / PAGE)
      then SameBut(m, m', {word}) && Value(m'[word]) == NewValue(pa, user, rw) && original == Value(m[word]) && original != 0
      else m' == m && original == 0
  {
    GuardOfPages(k, va / PAGE);
    GuardOfPages(k, Pte(m, cr3, va).frame);
    assert Walk(m, cr3, va).Some? ==> Walk(m, cr3, va).value / PAGE == Pte(m, cr3, va).frame;
  }

  // ---- whole tables --------------------------------------------------------------------------

  /** `swap_page_table` does the same to the directory entry, on the same conditions for the table's frame. */
  lemma SwapTableStores(m: Phys, cr3: Frame, k: Kernel, va: nat, table: nat, user: bool, rw: bool)
    requires va < WINDOW && table < SPACE && k.location < k.end <= WINDOW
    ensures var (m', original) := SwapPageTable(m, cr3, k, va, table, user, rw);
      var word := DirWord(cr3, va);
      if m[word].present && !NextToKernel(k, va / PAGE) && !NextToKernel(k, m[word].frame)
      then SameBut(m, m', {word}) && Value(m'[word]) == NewValue(table, user, rw) && original == Value(m[word]) && original != 0
      else m' == m && original == 0
  {
    GuardOfPages(k, va / PAGE);
    GuardOfPages(k, m[DirWord(cr3, va)].frame);
  }

  /** The edits of a directory entry change its one bit. */
  lemma TableEditStores(m: Phys, cr3: Frame, va: nat, b: bool)
    requires va < WINDOW
    ensures var dpl, present, word := SetPageTableDpl(m, cr3, va, b), SetPageTablePresent(m, cr3, va, b), DirWord(cr3, va);
      && SameBut(m, dpl, {word}) && dpl[word] == m[word].(user := if m[word].present then b else m[word].user)
      && SameBut(m, present, {word}) && present[word] == m[word].(present := m[word].present && b)
  {
  }

  // ---- the initial tables ----------------------------------------------------------------------

  /** What `init_paging` builds lets the kernel write everywhere below the window. */
  lemma InitialTablesAreWritable(m: Phys, cr3: Frame, tables: Frame, v: nat)
    requires InitialTables(m, cr3, tables) && v < WINDOW
    ensures WriteAccess(m, cr3, v) && !UserAccess(m, cr3, v)
  {
    InitialTablesAreIdentity(m, cr3, tables, v);
    assert IdentityTable(m, tables, Slot(v));
  }
}
