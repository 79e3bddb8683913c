/** The two-level page tables of paging.c, read and edited through the self-mapped window.
    Memory is seen as 32-bit words in the bit-field view of the page entries; the walk is that of
    section 4.3, "32-Bit Paging", of the Intel SDM volume 3A. */
module Paging {
  import opened Common

  const FRAMES: nat := 1048576
  const SELF: nat := 1023
  const RAM_WORDS: nat := 0x4000_0000
  const SPACE: nat := 0x1_0000_0000
  /** All tables appear at WINDOW, one page each; the directory is the last of them. */
  const WINDOW: nat := 0xFFC0_0000
  const DIRECTORY: nat := 0xFFFF_F000

  type Frame = f: nat | f < FRAMES

  type Flags = f: nat | f < 512

  /** A page directory or page table entry; `flags` are bits 3 to 11. */
  datatype Entry = Entry(present: bool, rw: bool, user: bool, flags: Flags, frame: Frame)

  function Bit(b: bool): nat {
    if b then 1 else 0
  }

  /** The `value` member of the entry unions. */
  function Value(e: Entry): (v: nat)
    ensures v < SPACE
  {
    Bit(e.present) + 2 * Bit(e.rw) + 4 * Bit(e.user) + 8 * e.flags + PAGE * e.frame
  }

  function FromValue(v: nat): Entry
    requires v < SPACE
  {
    Entry(v % 2 == 1, v / 2 % 2 == 1, v / 4 % 2 == 1, v / 8 % 512, v / PAGE)
  }

  lemma FieldsOfValue(e: Entry)
    ensures FromValue(Value(e)) == e
  {
    var w3 := e.flags + 512 * e.frame;
    var w2 := Bit(e.user) + 2 * w3;
    var w1 := Bit(e.rw) + 2 * w2;
    assert Value(e) == Bit(e.present) + 2 * w1;
    assert Value(e) / 2 == w1 && w1 / 2 == w2 && w2 / 2 == w3;
    assert Value(e) / 4 == w2 && Value(e) / 8 == w3 && w3 / 512 == e.frame;
  }

  lemma ValueOfFields(v: nat)
    requires v < SPACE
    ensures Value(FromValue(v)) == v
  {
    assert v == v % 2 + 2 * (v / 2) && v / 2 == v / 2 % 2 + 2 * (v / 4) && v / 4 == v / 4 % 2 + 2 * (v / 8);
    assert v / 8 == v / 8 % 512 + 512 * (v / PAGE);
  }

  /** The bit-field view and the value view of an entry carry the same information. */
  lemma ValueRoundTrip(e: Entry, v: nat)
    requires v < SPACE
    ensures FromValue(Value(e)) == e && Value(FromValue(v)) == v
  {
    FieldsOfValue(e);
    ValueOfFields(v);
  }

  lemma AlignedValue(v: nat)
    requires v < SPACE
    ensures FromValue(v / PAGE * PAGE) == Entry(false, false, false, 0, v / PAGE)
  {
    var e := Entry(false, false, false, 0, v / PAGE);
    assert Value(e) == v / PAGE * PAGE;
    FieldsOfValue(e);
  }

  // ---- the MMU -------------------------------------------------------------------------

  type Phys = m: seq<Entry> | |m| == RAM_WORDS
    ghost witness seq(RAM_WORDS, i => Entry(false, false, false, 0, 0))

  function At(m: Phys, f: Frame, i: nat): Entry
    requires i < 1024
  {
    m[1024 * f + i]
  }

  function Put(m: Phys, f: Frame, i: nat, e: Entry): Phys
    requires i < 1024
  {
    m[1024 * f + i := e]
  }

  function Slot(va: nat): (p: nat)
    ensures va < SPACE ==> p < 1024
    ensures va < WINDOW ==> p < SELF
  {
    va / 0x40_0000
  }

  function Index(va: nat): (i: nat)
    ensures i < 1024
  {
    va / PAGE % 1024
  }

  /** The physical address behind a virtual one. */
  function Walk(m: Phys, cr3: Frame, va: nat): Option<nat>
    requires va < SPACE
  {
    var pde := At(m, cr3, Slot(va));
    if !pde.present then None
    else
      var pte := At(m, pde.frame, Index(va));
      if !pte.present then None else Some(PAGE * pte.frame + va % PAGE)
  }

  // ---- the window ----------------------------------------------------------------------

  predicate SelfMapped(m: Phys, cr3: Frame) {
    At(m, cr3, SELF).present && At(m, cr3, SELF).frame == cr3
  }

  /** What the tables rely on: the directory maps itself, and the tables in use are distinct frames
      other than the directory. */
  ghost predicate WellMapped(m: Phys, cr3: Frame) {
    && SelfMapped(m, cr3)
    && (forall p :: 0 <= p < SELF && At(m, cr3, p).present ==> At(m, cr3, p).frame != cr3)
    && (forall p, q :: 0 <= p < q < SELF && At(m, cr3, p).present && At(m, cr3, q).present ==>
          At(m, cr3, p).frame != At(m, cr3, q).frame)
  }

  function TableVa(p: nat, i: nat): (va: nat)
    requires p < 1024 && i < 1024
    ensures va < SPACE && va % 4 == 0
  {
    WINDOW + PAGE * p + 4 * i
  }

  /** Entry `i` of table `p`, seen through the window, is the word the MMU itself would consult. */
  lemma WindowShowsTable(m: Phys, cr3: Frame, p: nat, i: nat)
    requires SelfMapped(m, cr3) && p < 1024 && i < 1024 && At(m, cr3, p).present
    ensures Walk(m, cr3, TableVa(p, i)) == Some(4 * (1024 * At(m, cr3, p).frame + i))
  {
    var va := TableVa(p, i);
    assert Slot(va) == SELF && Index(va) == p && va % PAGE == 4 * i;
  }

  // ---- what each operation does to memory ----------------------------------------------

  function Dir(m: Phys, cr3: Frame, p: nat): Entry
    requires p < 1024
  {
    At(m, cr3, p)
  }

  function Pte(m: Phys, cr3: Frame, va: nat): Entry
    requires va < SPACE
  {
    At(m, Dir(m, cr3, Slot(va)).frame, Index(va))
  }

  function PutPte(m: Phys, cr3: Frame, va: nat, e: Entry): Phys
    requires va < SPACE
  {
    Put(m, Dir(m, cr3, Slot(va)).frame, Index(va), e)
  }

  function Linked(frame: Frame, user: bool, rw: bool): Entry {
    Entry(true, rw, user, 0, frame)
  }

  /** `map_page`; `table` is the frame a new table would come from. */
  function MapPage(m: Phys, cr3: Frame, pa: nat, va: nat, user: bool, rw: bool, force: bool, table: Frame): Phys
    requires va < WINDOW && pa < SPACE
  {
    var m1 := if Dir(m, cr3, Slot(va)).present then m else Put(m, cr3, Slot(va), Linked(table, user, rw));
    if Pte(m1, cr3, va).present && !force then m1 else PutPte(m1, cr3, va, Linked(pa / PAGE, user, rw))
  }

  /** `set_page_dpl`: the directory entry is raised for a user page and never lowered. */
  function SetPageDpl(m: Phys, cr3: Frame, va: nat, user: bool): Phys
    requires va < WINDOW
  {
    var pde, pte := Dir(m, cr3, Slot(va)), Pte(m, cr3, va);
    if !pde.present || !pte.present then m
    else
      var m1 := PutPte(m, cr3, va, pte.(user := user));
      if user && !Dir(m1, cr3, Slot(va)).user
      then Put(m1, cr3, Slot(va), Dir(m1, cr3, Slot(va)).(user := true))
      else m1
  }

  /** `set_page_dpl` on `count` pages from page number `first`. */
  function SetPagesDpl(m: Phys, cr3: Frame, first: nat, count: nat, user: bool): Phys
    requires PAGE * (first + count) <= WINDOW
  {
    if count == 0 then m
    else SetPageDpl(SetPagesDpl(m, cr3, first, count - 1, user), cr3, PAGE * (first + count - 1), user)
  }

  /** How many pages `set_memory_range_dpl` visits; the sum wraps at 32 bits. */
  function PageCount(va: nat, length: nat): nat {
    var l := (length + va % PAGE) % SPACE;
    l / PAGE + if l % PAGE != 0 then 1 else 0
  }

  function SetPagePresent(m: Phys, cr3: Frame, va: nat, present: bool): Phys
    requires va < WINDOW
  {
    if !Dir(m, cr3, Slot(va)).present || !Pte(m, cr3, va).present then m
    else PutPte(m, cr3, va, Pte(m, cr3, va).(present := present))
  }

  datatype Kernel = Kernel(location: nat, end: nat)

  function KernelStart(k: Kernel): nat {
    k.location / PAGE * PAGE
  }

  function KernelTop(k: Kernel): nat {
    (k.end + (PAGE - k.end % PAGE) % PAGE) % SPACE
  }

  predicate Guarded(k: Kernel, address: nat) {
    KernelStart(k) <= address <= KernelTop(k)
  }

  function UnmapPage(m: Phys, cr3: Frame, k: Kernel, va: nat): Phys
    requires va < WINDOW
  {
    if Guarded(k, va) then m else SetPagePresent(m, cr3, va, false)
  }

  predicate Swappable(m: Phys, cr3: Frame, k: Kernel, va: nat)
    requires va < WINDOW
  {
    Dir(m, cr3, Slot(va)).present && Pte(m, cr3, va).present
    && !Guarded(k, PAGE * Pte(m, cr3, va).frame) && !Guarded(k, va / PAGE * PAGE)
  }

  /** `swap_page`; it returns the old entry's value, or 0. */
  function SwapPage(m: Phys, cr3: Frame, k: Kernel, va: nat, pa: nat, user: bool, rw: bool): (Phys, nat)
    requires va < WINDOW && pa < SPACE
  {
    if Swappable(m, cr3, k, va)
    then (PutPte(m, cr3, va, Linked(pa / PAGE, user, rw)), Value(Pte(m, cr3, va)))
    else (m, 0)
  }

  function SwapPageTable(m: Phys, cr3: Frame, k: Kernel, va: nat, table: nat, user: bool, rw: bool): (Phys, nat)
    requires va < WINDOW && table < SPACE
  {
    var pde := Dir(m, cr3, Slot(va));
    if pde.present && !Guarded(k, PAGE * pde.frame) && !Guarded(k, va / PAGE * PAGE)
    then (Put(m, cr3, Slot(va), Linked(table / PAGE, user, rw)), Value(pde))
    else (m, 0)
  }

  function SetPageTableDpl(m: Phys, cr3: Frame, va: nat, user: bool): Phys
    requires va < WINDOW
  {
    var pde := Dir(m, cr3, Slot(va));
    if pde.present then Put(m, cr3, Slot(va), pde.(user := user)) else m
  }

  function SetPageTablePresent(m: Phys, cr3: Frame, va: nat, present: bool): Phys
    requires va < WINDOW
  {
    var pde := Dir(m, cr3, Slot(va));
    if pde.present then Put(m, cr3, Slot(va), pde.(present := present)) else m
  }

  function UnmapPageTable(m: Phys, cr3: Frame, k: Kernel, va: nat): Phys
    requires va < WINDOW
  {
    if Guarded(k, va) then m else SetPageTablePresent(m, cr3, va, false)
  }

  // ---- what keeps the tables well mapped -----------------------------------------------

  /** A frame that is neither the directory nor a table in use. */
  ghost predicate Unused(m: Phys, cr3: Frame, f: nat) {
    f < FRAMES && f != cr3 && forall p :: 0 <= p < SELF && At(m, cr3, p).present ==> At(m, cr3, p).frame != f
  }

  /** Writing one entry of a table in use leaves the directory and every other entry alone. */
  lemma EntryKeeps(m: Phys, cr3: Frame, p: nat, i: nat, e: Entry)
    requires WellMapped(m, cr3) && p < SELF && i < 1024 && Dir(m, cr3, p).present
    ensures var m' := Put(m, Dir(m, cr3, p).frame, i, e);
      && WellMapped(m', cr3)
      && (forall q :: 0 <= q < 1024 ==> Dir(m', cr3, q) == Dir(m, cr3, q))
      && (forall q, j :: 0 <= q < 1024 && 0 <= j < 1024 && Dir(m, cr3, q).present ==>
            At(m', Dir(m, cr3, q).frame, j) == if q == p && j == i then e else At(m, Dir(m, cr3, q).frame, j))
  {
    var m' := Put(m, Dir(m, cr3, p).frame, i, e);
    forall q | 0 <= q < 1024 ensures At(m', cr3, q) == At(m, cr3, q) { }
  }

  /** Linking an unused frame, in place of nothing or of another table, keeps the tables apart. */
  lemma LinkKeeps(m: Phys, cr3: Frame, p: nat, e: Entry)
    requires WellMapped(m, cr3) && p < SELF && e.present && Unused(m, cr3, e.frame)
    ensures var m' := Put(m, cr3, p, e);
      && WellMapped(m', cr3)
      && (forall q :: 0 <= q < 1024 && q != p ==> Dir(m', cr3, q) == Dir(m, cr3, q))
      && (forall f: Frame, j :: 0 <= j < 1024 && f != cr3 ==> At(m', f, j) == At(m, f, j))
  {
    var m' := Put(m, cr3, p, e);
    forall q | 0 <= q < 1024 ensures At(m', cr3, q) == if q == p then e else At(m, cr3, q) { }
  }

  lemma RaiseKeeps(m: Phys, cr3: Frame, p: nat)
    requires WellMapped(m, cr3) && p < SELF
    ensures var m' := Put(m, cr3, p, Dir(m, cr3, p).(user := true));
      && WellMapped(m', cr3)
      && (forall q :: 0 <= q < 1024 && q != p ==> Dir(m', cr3, q) == Dir(m, cr3, q))
      && (forall f: Frame, j :: 0 <= j < 1024 && f != cr3 ==> At(m', f, j) == At(m, f, j))
  {
    var m' := Put(m, cr3, p, Dir(m, cr3, p).(user := true));
    forall q | 0 <= q < 1024
      ensures At(m', cr3, q) == if q == p then At(m, cr3, p).(user := true) else At(m, cr3, q) { }
  }

  lemma SamePage(va: nat)
    ensures Slot(va / PAGE * PAGE) == Slot(va) && Index(va / PAGE * PAGE) == Index(va)
    ensures va / PAGE * PAGE <= va && va / PAGE * PAGE / PAGE == va / PAGE
  {
  }

  lemma NextPage(first: nat, i: nat)
    requires PAGE * (first + i) < WINDOW
    ensures (first * PAGE + i * PAGE) % SPACE == PAGE * (first + i)
    ensures PAGE * (first + i) / PAGE * PAGE == PAGE * (first + i)
  {
  }

  /** Entry (p, i) can be edited without disturbing the entries that the window needs to reach it. */
  predicate Editable(m: Phys, cr3: Frame, p: nat, i: nat)
    requires p < 1024 && i < 1024
  {
    SelfMapped(m, cr3) && Dir(m, cr3, p).present && if p == SELF then i != SELF else Dir(m, cr3, p).frame != cr3
  }

  lemma EditStays(m: Phys, cr3: Frame, p: nat, i: nat, e: Entry)
    requires p < 1024 && i < 1024 && Editable(m, cr3, p, i)
    ensures var f := Dir(m, cr3, p).frame;
      var m' := Put(m, f, i, e);
      && Editable(m', cr3, p, i) && Dir(m', cr3, p) == Dir(m, cr3, p) && At(m', f, i) == e
      && forall e2 :: Put(m', f, i, e2) == Put(m, f, i, e2)
  {
  }

  ghost predicate MapsRow(m: Phys, f: Frame, p: nat)
    requires p < 1024
  {
    forall i :: 0 <= i < 1024 ==> At(m, f, i) == Entry(true, true, false, 0, 1024 * p + i)
  }

  /** Table `p` of the block maps its 4 MB to itself. */
  ghost predicate IdentityTable(m: Phys, tables: Frame, p: nat)
    requires tables + 1024 <= FRAMES && p < 1024
  {
    MapsRow(m, tables + p, p)
  }

  /** Memory as `init_paging` leaves it: 1024 tables in a row that map everything to itself, all but
      the last of them in the directory, and the directory in its own last slot. */
  ghost predicate InitialTables(m: Phys, dir: Frame, tables: Frame) {
    && tables + 1024 <= FRAMES && !(tables <= dir < tables + 1024)
    && (forall p :: 0 <= p < SELF ==> At(m, dir, p) == Entry(true, true, false, 0, tables + p))
    && At(m, dir, SELF) == Entry(true, true, false, 0, dir)
    && (forall p :: 0 <= p < 1024 ==> IdentityTable(m, tables, p))
  }

  lemma RowElsewhere(m: Phys, f: Frame, i: nat, e: Entry, g: Frame, p: nat)
    requires i < 1024 && p < 1024 && f != g && MapsRow(m, g, p)
    ensures MapsRow(Put(m, f, i, e), g, p)
  {
    forall k | 0 <= k < 1024 ensures At(Put(m, f, i, e), g, k) == At(m, g, k) { }
  }

  // ---- the code ------------------------------------------------------------------------

  class Machine {
    const ram: array<Entry>
    var cr3: Frame
    const kernel: Kernel

    predicate Valid()
    {
      ram.Length == RAM_WORDS
    }

    ghost function Mem(): Phys
      requires Valid()
      reads ram
    {
      ram[..]
    }

    method Load(va: nat) returns (e: Entry)
      requires Valid() && va < SPACE && va % 4 == 0 && Walk(Mem(), cr3, va).Some?
      ensures e == Mem()[Walk(Mem(), cr3, va).value / 4]
    {
      var pde := ram[1024 * cr3 + Slot(va)];
      var pte := ram[1024 * pde.frame + Index(va)];
      e := ram[(PAGE * pte.frame + va % PAGE) / 4];
    }

    method Store(va: nat, e: Entry)
      requires Valid() && va < SPACE && va % 4 == 0 && Walk(Mem(), cr3, va).Some?
      modifies ram
      ensures Mem() == old(Mem())[old(Walk(Mem(), cr3, va).value) / 4 := e]
    {
      var pde := ram[1024 * cr3 + Slot(va)];
      var pte := ram[1024 * pde.frame + Index(va)];
      ram[(PAGE * pte.frame + va % PAGE) / 4] := e;
    }

    /** `get_physaddr`, which reads both entries through the window. */
    method GetPhysAddr(va: nat) returns (pa: nat)
      requires Valid() && va < SPACE && SelfMapped(Mem(), cr3)
      ensures pa == match Walk(Mem(), cr3, va) case Some(a) => a case None => 0
    {
      WindowShowsTable(Mem(), cr3, SELF, Slot(va));
      var pde := Load(TableVa(SELF, Slot(va)));
      if !pde.present { return 0; }
      WindowShowsTable(Mem(), cr3, Slot(va), Index(va));
      var pte := Load(TableVa(Slot(va), Index(va)));
      if !pte.present { return 0; }
      return PAGE * pte.frame + va % PAGE;
    }
  
    method SetDirectory(dir: Frame, ghost tables: Frame, i: nat, e: Entry)
      requires Valid() && tables + 1024 <= FRAMES && !(tables <= dir < tables + 1024) && i < 1024
      modifies ram
      ensures Mem() == Put(old(Mem()), dir, i, e)
      ensures forall k :: 0 <= k < 1024 ==> At(Mem(), dir, k) == if k == i then e else At(old(Mem()), dir, k)
      ensures forall q :: 0 <= q < 1024 && IdentityTable(old(Mem()), tables, q) ==> IdentityTable(Mem(), tables, q)
    {
      ram[1024 * dir + i] := e;
      forall q | 0 <= q < 1024 && IdentityTable(old(Mem()), tables, q) ensures IdentityTable(Mem(), tables, q) {
        RowElsewhere(old(Mem()), dir, i, e, tables + q, q);
      }
    }

    method FillTable(tables: Frame, p: nat)
      requires Valid() && tables + 1024 <= FRAMES && p < 1024
      requires forall q :: 0 <= q < p ==> IdentityTable(Mem(), tables, q)
      modifies ram
      ensures forall q :: 0 <= q <= p ==> IdentityTable(Mem(), tables, q)
    {
      var f: Frame := tables + p;
      for i := 0 to 1024
        invariant forall k :: 0 <= k < i ==> At(Mem(), f, k) == Entry(true, true, false, 0, 1024 * p + k)
        invariant forall q :: 0 <= q < p ==> IdentityTable(Mem(), tables, q)
      {
        ghost var m := Mem();
        var e := Entry(true, true, false, 0, 1024 * p + i);
        ram[1024 * f + i] := e;
        assert Mem() == Put(m, f, i, e);
        forall q | 0 <= q < p ensures IdentityTable(Mem(), tables, q) {
          assert IdentityTable(m, tables, q);
          RowElsewhere(m, f, i, e, tables + q, q);
        }
        forall k | 0 <= k < 1024 ensures At(Mem(), f, k) == if k == i then e else At(m, f, k) { }
      }
    }

    /** `init_paging`, before paging is on: plain stores at the two blocks got from `kmalloc`. */
    method InitPaging(dir: Frame, tables: Frame)
      requires Valid() && tables + 1024 <= FRAMES && !(tables <= dir < tables + 1024)
      modifies ram, this`cr3
      ensures cr3 == dir && InitialTables(Mem(), dir, tables)
    {
      for i := 0 to 1024 {
        ram[1024 * dir + i] := Entry(false, true, false, 0, 0);
      }
      for p := 0 to 1024
        invariant forall q :: 0 <= q < p ==> IdentityTable(Mem(), tables, q)
      {
        FillTable(tables, p);
      }
      for i := 0 to SELF
        invariant forall q :: 0 <= q < 1024 ==> IdentityTable(Mem(), tables, q)
        invariant forall k :: 0 <= k < i ==> At(Mem(), dir, k) == Entry(true, true, false, 0, tables + k)
      {
        SetDirectory(dir, tables, i, Entry(true, true, false, 0, tables + i));
      }
      SetDirectory(dir, tables, SELF, Entry(true, true, false, 0, dir));
      cr3 := dir;
    }

    /** Entry `i` of table `p` through the window. */
    method LoadEntry(p: nat, i: nat) returns (e: Entry)
      requires Valid() && p < 1024 && i < 1024 && SelfMapped(Mem(), cr3) && Dir(Mem(), cr3, p).present
      ensures e == At(Mem(), Dir(Mem(), cr3, p).frame, i)
    {
      WindowShowsTable(Mem(), cr3, p, i);
      e := Load(TableVa(p, i));
    }

    method StoreEntry(p: nat, i: nat, e: Entry)
      requires Valid() && p < 1024 && i < 1024 && SelfMapped(Mem(), cr3) && Dir(Mem(), cr3, p).present
      modifies ram
      ensures Mem() == Put(old(Mem()), Dir(old(Mem()), cr3, p).frame, i, e)
    {
      WindowShowsTable(Mem(), cr3, p, i);
      Store(TableVa(p, i), e);
    }

    /** The assignments `value = address`, `user`, `present`, `rw` to one entry, each through the
        window. The entry must not be the one the window itself goes through. */
    method WriteFields(p: nat, i: nat, address: nat, user: bool, rw: bool)
      requires Valid() && p < 1024 && i < 1024 && address < SPACE && Editable(Mem(), cr3, p, i)
      modifies ram
      ensures Mem() == Put(old(Mem()), Dir(old(Mem()), cr3, p).frame, i, Linked(address / PAGE, user, rw))
    {
      hide FromValue, At, Put;
      AlignedValue(address);
      var e := FromValue(address / PAGE * PAGE);
      StoreEntry(p, i, e);
      EditStays(old(Mem()), cr3, p, i, e);
      e := LoadEntry(p, i);
      EditStays(old(Mem()), cr3, p, i, e.(user := user));
      StoreEntry(p, i, e.(user := user));
      e := LoadEntry(p, i);
      EditStays(old(Mem()), cr3, p, i, e.(present := true));
      StoreEntry(p, i, e.(present := true));
      e := LoadEntry(p, i);
      StoreEntry(p, i, e.(rw := rw));
    }

    /** `map_page`; `table` is what `kmalloc` would return for a new page table. */
    method DoMapPage(pa: nat, va: nat, user: bool, rw: bool, force: bool, table: nat)
      requires Valid() && pa < SPACE && va < WINDOW && table < SPACE && WellMapped(Mem(), cr3)
      requires !Dir(Mem(), cr3, Slot(va)).present ==> Unused(Mem(), cr3, table / PAGE)
      modifies ram
      ensures Mem() == MapPage(old(Mem()), cr3, pa, va, user, rw, force, table / PAGE)
    {
      var p := Slot(va);
      var pde := LoadEntry(SELF, p);
      if !pde.present {
        WriteFields(SELF, p, table, user, rw);
        LinkKeeps(old(Mem()), cr3, p, Linked(table / PAGE, user, rw));
      }
      var pte := LoadEntry(p, Index(va));
      if pte.present && !force {
        return;
      }
      WriteFields(p, Index(va), pa, user, rw);
    }

    method DoSetPageDpl(address: nat, user: bool)
      requires Valid() && address < WINDOW && WellMapped(Mem(), cr3)
      modifies ram
      ensures Mem() == SetPageDpl(old(Mem()), cr3, address / PAGE * PAGE, user) && WellMapped(Mem(), cr3)
    {
      var va := address / PAGE * PAGE;
      var pde := LoadEntry(SELF, Slot(va));
      if !pde.present { return; }
      var pte := LoadEntry(Slot(va), Index(va));
      if !pte.present { return; }
      StoreEntry(Slot(va), Index(va), pte.(user := user));
      EntryKeeps(old(Mem()), cr3, Slot(va), Index(va), pte.(user := user));
      if user {
        pde := LoadEntry(SELF, Slot(va));
        if !pde.user {
          RaiseKeeps(Mem(), cr3, Slot(va));
          StoreEntry(SELF, Slot(va), pde.(user := true));
        }
      }
    }

    method DoSetMemoryRangeDpl(va: nat, length: nat, user: bool)
      requires Valid() && va < WINDOW && length < SPACE && WellMapped(Mem(), cr3)
      requires PAGE * (va / PAGE + PageCount(va, length)) <= WINDOW
      modifies ram
      ensures Mem() == SetPagesDpl(old(Mem()), cr3, va / PAGE, PageCount(va, length), user)
      ensures WellMapped(Mem(), cr3)
    {
      hide WellMapped, SetPageDpl, Slot, Index;
      var aligned := va / PAGE * PAGE;
      var extended := (length + (va - aligned)) % SPACE;
      var count := extended / PAGE + if extended % PAGE != 0 then 1 else 0;
      assert count == PageCount(va, length) by { assert va - aligned == va % PAGE; }
      hide PageCount;
      for i := 0 to count
        invariant Mem() == SetPagesDpl(old(Mem()), cr3, va / PAGE, i, user) && WellMapped(Mem(), cr3)
      {
        NextPage(va / PAGE, i);
        DoSetPageDpl((aligned + i * PAGE) % SPACE, user);
      }
    }

    method DoSetPagePresent(address: nat, present: bool)
      requires Valid() && address < WINDOW && WellMapped(Mem(), cr3)
      modifies ram
      ensures Mem() == SetPagePresent(old(Mem()), cr3, address, present)
    {
      hide Slot, Index, At, Guarded, Value;
      var va := address / PAGE * PAGE;
      SamePage(address);
      var pde := LoadEntry(SELF, Slot(va));
      if !pde.present { return; }
      var pte := LoadEntry(Slot(va), Index(va));
      if !pte.present { return; }
      StoreEntry(Slot(va), Index(va), pte.(present := present));
    }

    method DoUnmapPage(va: nat)
      requires Valid() && va < WINDOW && WellMapped(Mem(), cr3)
      modifies ram
      ensures Mem() == UnmapPage(old(Mem()), cr3, kernel, va)
    {
      if KernelStart(kernel) <= va <= KernelTop(kernel) { return; }
      DoSetPagePresent(va, false);
    }

    method DoSetPageTableDpl(address: nat, user: bool)
      requires Valid() && address < WINDOW && SelfMapped(Mem(), cr3)
      modifies ram
      ensures Mem() == SetPageTableDpl(old(Mem()), cr3, address, user)
    {
      var va := address / PAGE * PAGE;
      SamePage(address);
      var pde := LoadEntry(SELF, Slot(va));
      if !pde.present { return; }
      StoreEntry(SELF, Slot(va), pde.(user := user));
    }

    method DoSetPageTablePresent(address: nat, present: bool)
      requires Valid() && address < WINDOW && SelfMapped(Mem(), cr3)
      modifies ram
      ensures Mem() == SetPageTablePresent(old(Mem()), cr3, address, present)
    {
      var va := address / PAGE * PAGE;
      SamePage(address);
      var pde := LoadEntry(SELF, Slot(va));
      if !pde.present { return; }
      StoreEntry(SELF, Slot(va), pde.(present := present));
    }

    method DoUnmapPageTable(va: nat)
      requires Valid() && va < WINDOW && SelfMapped(Mem(), cr3)
      modifies ram
      ensures Mem() == UnmapPageTable(old(Mem()), cr3, kernel, va)
    {
      if KernelStart(kernel) <= va <= KernelTop(kernel) { return; }
      DoSetPageTablePresent(va, false);
    }

    method DoSwapPage(address: nat, pa: nat, user: bool, rw: bool) returns (original: nat)
      requires Valid() && address < WINDOW && pa < SPACE && WellMapped(Mem(), cr3)
      modifies ram
      ensures (Mem(), original) == SwapPage(old(Mem()), cr3, kernel, address, pa, user, rw)
    {
      hide Slot, Index, At, Guarded, Value;
      var va := address / PAGE * PAGE;
      SamePage(address);
      var pde := LoadEntry(SELF, Slot(va));
      if !pde.present { return 0; }
      var pte := LoadEntry(Slot(va), Index(va));
      if !pte.present { return 0; }
      if Guarded(kernel, PAGE * pte.frame) || Guarded(kernel, va) { return 0; }
      original := Value(pte);
      WriteFields(Slot(va), Index(va), pa, user, rw);
    }

    method DoSwapPageTable(address: nat, table: nat, user: bool, rw: bool) returns (original: nat)
      requires Valid() && address < WINDOW && table < SPACE && WellMapped(Mem(), cr3)
      modifies ram
      ensures (Mem(), original) == SwapPageTable(old(Mem()), cr3, kernel, address, table, user, rw)
    {
      hide Slot, Index, At, Guarded, Value;
      var va := address / PAGE * PAGE;
      SamePage(address);
      var pde := LoadEntry(SELF, Slot(va));
      if !pde.present { return 0; }
      if Guarded(kernel, PAGE * pde.frame) || Guarded(kernel, va) { return 0; }
      original := Value(pde);
      WriteFields(SELF, Slot(va), table, user, rw);
    }
  }
}
