/** The physical page allocator of mem.c: one bit per 4 KB page, first fit, and the bitmap
    that boot builds. */
module PhysicalPages {
  import opened Bintools
  import opened Common

  const BITMAP_BYTES: nat := 131072
  const PAGES: nat := 1048576
  /** The allocation loop runs to the size of the bitmap in bytes, so it sees one page in eight. */
  const SCANNED: nat := 131072

  function PagesFor(length: nat): nat {
    length / PAGE + if length % PAGE != 0 then 1 else 0
  }

  // ---- specification -------------------------------------------------------------------

  ghost predicate AllFree(used: seq<bool>, start: nat, count: nat)
    requires start + count <= |used|
  {
    forall k :: start <= k < start + count ==> !used[k]
  }

  ghost predicate Fits(used: seq<bool>, start: nat, count: nat)
    requires |used| == PAGES
  {
    start + count <= SCANNED && AllFree(used, start, count)
  }

  /** The lowest start at or after `from` of a run of `count` free pages. */
  ghost function LowestFrom(used: seq<bool>, from: nat, count: nat): (r: nat)
    requires |used| == PAGES && from <= SCANNED
    ensures from <= r <= SCANNED
    ensures r < SCANNED ==> Fits(used, r, count)
    ensures forall i :: from <= i < r ==> !Fits(used, i, count)
    decreases SCANNED - from
  {
    if from == SCANNED || Fits(used, from, count) then from else LowestFrom(used, from + 1, count)
  }

  lemma LowestIsUnique(used: seq<bool>, from: nat, count: nat, r: nat)
    requires |used| == PAGES && from <= r <= SCANNED
    requires r < SCANNED ==> Fits(used, r, count)
    requires forall i :: from <= i < r ==> !Fits(used, i, count)
    ensures LowestFrom(used, from, count) == r
  {
  }

  /** What `kmalloc`'s page path returns, and the bitmap it leaves. */
  ghost function Allocate(used: seq<bool>, length: nat): (r: (nat, seq<bool>))
    requires |used| == PAGES
    ensures |r.1| == PAGES
  {
    var s := LowestFrom(used, 0, PagesFor(length));
    if s < SCANNED then (s * PAGE, Fill(used, s, PagesFor(length), true)) else (0, used)
  }

  /** A null result means that no run fits exactly when no run starts at page 0, which a caller
      could not tell from a failure. */
  lemma NullMeansNoRun(used: seq<bool>, length: nat)
    requires |used| == PAGES && length > 0
    ensures (Allocate(used, length).0 == 0 <==> forall i :: 0 <= i < SCANNED ==> !Fits(used, i, PagesFor(length)))
       <==> !Fits(used, 0, PagesFor(length))
  {
    var s := LowestFrom(used, 0, PagesFor(length));
    assert s < SCANNED ==> Fits(used, s, PagesFor(length));
  }

  /** The run granted is the lowest that fits. */
  lemma AllocateIsFirstFit(used: seq<bool>, length: nat, i: nat)
    requires |used| == PAGES && length > 0 && i < SCANNED && Fits(used, i, PagesFor(length))
    ensures Allocate(used, length).0 <= i * PAGE
    ensures Fits(used, Allocate(used, length).0 / PAGE, PagesFor(length))
  {
    assert LowestFrom(used, 0, PagesFor(length)) <= i;
  }

  /** `kfree(base, length)`: the pages of `length` rounded down, unless the base is misaligned. */
  ghost function Kfreed(used: seq<bool>, base: nat, length: nat): (r: seq<bool>)
    ensures |r| == |used|
  {
    if base % PAGE == 0 then Fill(used, base / PAGE, length / PAGE, false) else used
  }

  lemma FillThenClear(used: seq<bool>, s: nat, n: nat, m: nat)
    requires s + n <= |used| && AllFree(used, s, n) && m <= n <= m + 1
    ensures Fill(Fill(used, s, n, true), s, m, false) == if m == n then used else used[s + m := true]
  {
  }

  /** `kfree` of what was granted gives the bitmap back exactly when the length is a whole number of
      pages; otherwise the last page, and only that one, stays marked. */
  lemma FreeAfterAllocate(used: seq<bool>, length: nat)
    requires |used| == PAGES && length > 0 && LowestFrom(used, 0, PagesFor(length)) < SCANNED
    ensures var (base, marked) := Allocate(used, length);
      var freed := Kfreed(marked, base, length);
      (freed == used <==> length % PAGE == 0)
      && (length % PAGE != 0 ==> freed == used[base / PAGE + length / PAGE := true])
  {
    hide LowestFrom, Fill;
    var s, n := LowestFrom(used, 0, PagesFor(length)), PagesFor(length);
    assert Fits(used, s, n) && s * PAGE / PAGE == s;
    FillThenClear(used, s, n, length / PAGE);
    if length % PAGE != 0 {
      assert !used[s + n - 1] && used[s + n - 1 := true][s + n - 1];
    }
  }

  /** No run can start between a free page and the next used one when that gap is shorter than
      the run, so the search may resume behind the used page. */
  lemma SkipIsSafe(used: seq<bool>, start: nat, taken: nat, count: nat)
    requires |used| == PAGES && start <= taken < start + count && taken < PAGES && used[taken]
    ensures forall k :: start <= k <= taken ==> !Fits(used, k, count)
  {
  }

  // ---- boot-time memory map ------------------------------------------------------------

  const LONG: nat := 0x1_0000_0000_0000_0000
  const FREE_MEMORY: nat := 1
  const RESERVED: nat := 2

  type u64 = x: nat | x < LONG

  datatype Slot = Slot(base: u64, length: u64, kind: nat)

  datatype BootModule = BootModule(start: nat, end: nat)

  /** First and last page that a free slot clears. The last one lies just past the slot. */
  function FirstPage(s: Slot): nat {
    s.base / PAGE % WORD
  }

  function LastPage(s: Slot): nat {
    (FirstPage(s) + s.length / PAGE % WORD) % WORD
  }

  /** Slots below the kernel become reserved; the others are trimmed to whole pages. */
  function Trimmed(s: Slot, kernel: nat): Slot
  {
    if s.kind != FREE_MEMORY then s
    else if s.base % WORD < kernel then s.(kind := RESERVED)
    else
      var decrease := (PAGE - s.base % WORD % PAGE) % PAGE;
      var length := (s.length + LONG - decrease) % LONG;
      Slot((s.base + decrease) % LONG, length - length % PAGE, s.kind)
  }

  function TrimmedAll(slots: seq<Slot>, kernel: nat): seq<Slot> {
    seq(|slots|, i requires 0 <= i < |slots| => Trimmed(slots[i], kernel))
  }

  ghost predicate SlotFrees(s: Slot, page: nat) {
    s.kind == FREE_MEMORY &&
    (page == FirstPage(s) || page == LastPage(s) || FirstPage(s) <= page <= LastPage(s))
  }

  ghost predicate SomeSlotFrees(slots: seq<Slot>, page: nat) {
    exists i :: 0 <= i < |slots| && SlotFrees(slots[i], page)
  }

  ghost predicate InRange(page: nat, first: nat, count: nat) {
    first <= page < first + count
  }

  /** Where the kernel image ends once the boot modules above it are counted in. */
  function EndWithModules(end: nat, mods: seq<BootModule>): (r: nat)
    ensures r >= end && forall m :: m in mods ==> m.end <= r
    ensures r == end || exists m :: m in mods && m.end == r
  {
    if mods == [] then end
    else
      var e := EndWithModules(end, mods[..|mods| - 1]);
      assert mods == mods[..|mods| - 1] + [mods[|mods| - 1]];
      if mods[|mods| - 1].end > e then mods[|mods| - 1].end else e
  }

  /** Pages set aside for the memory map itself. */
  function MapPages(start: nat, size: nat): nat {
    PagesFor(size + (PAGE - size % PAGE) + start % PAGE)
  }

  /** The page map that `memory_init` builds: a page is free when some slot clears it and neither the
      kernel with its modules nor the memory map claims it. */
  ghost predicate UsedAtBoot(slots: seq<Slot>, image: nat, end: nat, mapStart: nat, mapSize: nat, page: nat)
    requires image <= end
  {
    !SomeSlotFrees(slots, page)
    || InRange(page, image / PAGE, PagesFor(end - image))
    || InRange(page, mapStart / PAGE, MapPages(mapStart, mapSize))
  }

  lemma RangeInBitmap(image: nat, end: nat, mapStart: nat, mapSize: nat)
    requires image <= end < WORD && mapStart + mapSize + 2 * PAGE <= WORD
    ensures image / PAGE + PagesFor(end - image) <= PAGES
    ensures mapStart / PAGE + MapPages(mapStart, mapSize) <= PAGES
  {
  }

  /** Page `page` meets the bytes [start, end). */
  predicate Meets(page: nat, start: nat, end: nat) {
    page * PAGE < end && start < (page + 1) * PAGE && start < end
  }

  /** Every page that meets the memory map is claimed for it, wherever the map starts. */
  lemma MapIsCovered(mapStart: nat, mapSize: nat, page: nat)
    requires Meets(page, mapStart, mapStart + mapSize)
    ensures InRange(page, mapStart / PAGE, MapPages(mapStart, mapSize))
  {
  }

  /** The kernel's page count is taken from its size alone, so its pages are all claimed exactly when
      the start offset does not push the end into one more page. */
  lemma KernelIsCovered(image: nat, end: nat)
    requires image < end
    ensures (forall page: nat :: Meets(page, image, end) ==> InRange(page, image / PAGE, PagesFor(end - image)))
       <==> image % PAGE + (end - image + PAGE - 1) % PAGE < PAGE
  {
    var last := (end - 1) / PAGE;
    assert Meets(last, image, end);
    if image % PAGE + (end - image + PAGE - 1) % PAGE < PAGE {
      forall page: nat | Meets(page, image, end)
        ensures InRange(page, image / PAGE, PagesFor(end - image))
      {
        assert page <= last < image / PAGE + PagesFor(end - image);
      }
    } else {
      assert last == image / PAGE + PagesFor(end - image);
    }
  }

  /** The pages that the trimmed slots clear have bits in the bitmap. */
  ghost predicate SlotsInBitmap(slots: seq<Slot>) {
    forall i :: 0 <= i < |slots| && slots[i].kind == FREE_MEMORY ==>
      FirstPage(slots[i]) < PAGES && LastPage(slots[i]) < PAGES
  }

  /** Page at which the first page boundary in or behind the start of the slot lies. */
  function FirstWhole(s: Slot): nat {
    PagesFor(s.base)
  }

  /** Page in which the end of the slot lies. */
  function EndPage(s: Slot): nat {
    (s.base + s.length) / PAGE
  }

  /** The low half of the base decides what `memory_init` takes for lying below the kernel. */
  predicate Kept(s: Slot, kernel: nat) {
    s.kind == FREE_MEMORY && s.base % WORD >= kernel
  }

  lemma MultipleIsFar(d: int, m: nat)
    ensures d >= 1 ==> d * m >= m
    ensures d <= -1 ==> d * m + m <= 0
  {
  }

  lemma Remainder(q: int, r: nat, m: nat)
    requires r < m
    ensures (q * m + r) % m == r
  {
    var x := q * m + r;
    assert x == x / m * m + x % m;
    assert (x / m - q) * m == r - x % m;
    MultipleIsFar(x / m - q, m);
  }

  lemma SameRemainder(q: int, r: nat, m: nat)
    requires m > 0
    ensures (q * m + r) % m == r % m
  {
    assert q * m + r == (q + r / m) * m + r % m;
    Remainder(q + r / m, r % m, m);
  }

  lemma PagesModulo(n: int)
    ensures n * PAGE % LONG / PAGE % WORD == n % WORD
  {
    var q, r := n / 0x10_0000_0000_0000, n % 0x10_0000_0000_0000;
    assert n * PAGE == q * LONG + r * PAGE;
    Remainder(q, r * PAGE, LONG);
    assert r * PAGE / PAGE == r;
    assert n == 0x10_0000 * q * WORD + r;
    SameRemainder(0x10_0000 * q, r, WORD);
  }

  lemma SumModulo(a: nat, b: int)
    requires a + b >= 0
    ensures (a % WORD + b % WORD) % WORD == (a + b) % WORD
  {
  }

  lemma TrimmedLength(base: u64, length: u64, d: nat)
    requires d < PAGE && (base + d) % PAGE == 0
    ensures var l := (length + LONG - d) % LONG;
      l - l % PAGE == ((base + length) / PAGE - (base + d) / PAGE) * PAGE % LONG
  {
    var l := (length + LONG - d) % LONG;
    var n := (base + length) / PAGE - (base + d) / PAGE;
    if length >= d {
      assert l == length - d && base + length == (base + d) / PAGE * PAGE + l;
      assert n == l / PAGE && l - l % PAGE == n * PAGE;
    } else {
      assert l == LONG + length - d && n == -1;
      assert l - l % PAGE == LONG - PAGE == n * PAGE % LONG;
    }
  }

  /** A kept slot starts at its first page boundary and has its whole pages; the length of a slot without a
      boundary wraps to one page below zero. */
  lemma TrimmedSlot(s: Slot, kernel: nat)
    requires Kept(s, kernel)
    ensures Trimmed(s, kernel)
         == Slot(FirstWhole(s) * PAGE % LONG, (EndPage(s) - FirstWhole(s)) * PAGE % LONG, FREE_MEMORY)
    ensures EndPage(s) + 1 >= FirstWhole(s)
  {
    var d := FirstWhole(s) * PAGE - s.base;
    assert d == (PAGE - s.base % PAGE) % PAGE && s.base % WORD % PAGE == s.base % PAGE;
    TrimmedLength(s.base, s.length, d);
    assert (s.base + d) / PAGE == FirstWhole(s);
  }

  /** It clears from its first page boundary to the page in which it ends, both as 32-bit page numbers. */
  lemma TrimmedPages(s: Slot, kernel: nat)
    requires Kept(s, kernel)
    ensures var t := Trimmed(s, kernel);
      t.kind == FREE_MEMORY && FirstPage(t) == FirstWhole(s) % WORD && LastPage(t) == EndPage(s) % WORD
  {
    TrimmedSlot(s, kernel);
    hide Trimmed, FirstWhole, EndPage;
    PagesModulo(FirstWhole(s));
    PagesModulo(EndPage(s) - FirstWhole(s));
    SumModulo(FirstWhole(s), EndPage(s) - FirstWhole(s));
  }

  predicate HasBits(s: Slot, kernel: nat) {
    Kept(s, kernel) ==> FirstWhole(s) % WORD < PAGES && EndPage(s) % WORD < PAGES
  }

  /** Boot writes inside its bitmap exactly when every slot it keeps starts and ends on pages that have a
      bit. */
  lemma BootStaysInBitmap(slots: seq<Slot>, kernel: nat)
    ensures SlotsInBitmap(TrimmedAll(slots, kernel)) <==> forall i :: 0 <= i < |slots| ==> HasBits(slots[i], kernel)
  {
    hide FirstPage, LastPage, FirstWhole, EndPage;
    var trimmed := TrimmedAll(slots, kernel);
    forall i | 0 <= i < |slots|
      ensures HasBits(slots[i], kernel)
         <==> (trimmed[i].kind == FREE_MEMORY ==> FirstPage(trimmed[i]) < PAGES && LastPage(trimmed[i]) < PAGES)
    {
      if Kept(slots[i], kernel) { TrimmedPages(slots[i], kernel); }
    }
  }

  /** Physical memory whose page numbers fit 32 bits. */
  const SPAN: nat := 0x1000_0000_0000

  predicate InSpan(s: Slot) {
    s.base + s.length + PAGE <= SPAN
  }

  /** For those slots that means lying below 4 GB, or starting so little above a multiple of 4 GB that the
      truncated base falls below the kernel. */
  lemma HasBitsBelow4GB(s: Slot, kernel: nat)
    requires InSpan(s)
    ensures HasBits(s, kernel) <==> !Kept(s, kernel) || (FirstWhole(s) < PAGES && s.base + s.length < WORD)
  {
  }

  /** Memory remapped to 4 GB exactly is set aside; 2 MB further on it sends boot out of its bitmap. */
  lemma RemappedMemory(length: u64, kernel: nat)
    requires 0 < kernel <= 0x20_0000
    ensures Trimmed(Slot(WORD, length, FREE_MEMORY), kernel).kind == RESERVED
    ensures SlotsInBitmap(TrimmedAll([Slot(WORD, length, FREE_MEMORY)], kernel))
    ensures !SlotsInBitmap(TrimmedAll([Slot(WORD + 0x20_0000, length, FREE_MEMORY)], kernel))
  {
    BootStaysInBitmap([Slot(WORD, length, FREE_MEMORY)], kernel);
    var far := Slot(WORD + 0x20_0000, length, FREE_MEMORY);
    BootStaysInBitmap([far], kernel);
    assert [far][0] == far && FirstWhole(far) == PAGES + 512;
  }

  predicate TooShort(s: Slot) {
    s.base / PAGE * PAGE + PAGE > s.base + s.length && s.base % PAGE != 0
  }

  predicate WhollyIn(page: nat, s: Slot) {
    s.base <= page * PAGE && (page + 1) * PAGE <= s.base + s.length
  }

  lemma SpanPages(s: Slot)
    requires InSpan(s)
    ensures FirstWhole(s) % WORD == FirstWhole(s) && EndPage(s) % WORD == EndPage(s) && EndPage(s) + 1 >= FirstWhole(s)
  {
  }

  lemma WholePages(s: Slot, page: nat)
    ensures WhollyIn(page, s) <==> FirstWhole(s) <= page < EndPage(s)
    ensures TooShort(s) <==> EndPage(s) + 1 == FirstWhole(s)
    ensures FirstWhole(s) == s.base / PAGE + if s.base % PAGE != 0 then 1 else 0
  {
  }

  /** A kept slot gives the pages wholly inside it and the page its end lies in. When it does not reach the
      next page boundary, the page above is freed as well. */
  lemma SlotFreesItsPages(s: Slot, kernel: nat, page: nat)
    requires InSpan(s)
    ensures SlotFrees(Trimmed(s, kernel), page) <==>
      Kept(s, kernel) && (WhollyIn(page, s) || page == EndPage(s) || (TooShort(s) && page == s.base / PAGE + 1))
  {
    if Kept(s, kernel) {
      TrimmedPages(s, kernel);
      WholePages(s, page);
      SpanPages(s);
      hide Trimmed, FirstPage, LastPage, FirstWhole, EndPage, WhollyIn, TooShort, InSpan;
    }
  }

  predicate SparesPageZero(s: Slot, kernel: nat) {
    Kept(s, kernel) ==> FirstWhole(s) % WORD != 0 && EndPage(s) % WORD != 0
  }

  /** Page 0, whose address stands for failure, is cleared by no slot exactly when no kept slot starts or
      ends on a page number that truncates to 0. */
  lemma PageZeroIsSpared(slots: seq<Slot>, kernel: nat)
    ensures !SomeSlotFrees(TrimmedAll(slots, kernel), 0) <==> forall i :: 0 <= i < |slots| ==> SparesPageZero(slots[i], kernel)
  {
    hide FirstPage, LastPage, FirstWhole, EndPage;
    var trimmed := TrimmedAll(slots, kernel);
    forall i | 0 <= i < |slots| ensures SparesPageZero(slots[i], kernel) <==> !SlotFrees(trimmed[i], 0) {
      if Kept(slots[i], kernel) { TrimmedPages(slots[i], kernel); }
    }
  }

  /** So it is for every memory map of that span, once the kernel lies above the first two pages. */
  lemma SpanSparesPageZero(s: Slot, kernel: nat)
    requires InSpan(s) && kernel >= 2 * PAGE
    ensures SparesPageZero(s, kernel)
  {
    SpanPages(s);
    assert Kept(s, kernel) ==> FirstWhole(s) >= 2;
  }

  /** Page `page` lies clear of the bytes from `start` to `end`, by `slack` bytes behind them. */
  predicate Clear(page: nat, start: nat, end: nat, slack: nat) {
    (page + 1) * PAGE <= start || page * PAGE >= end + slack
  }

  lemma KernelClaimsNoMore(image: nat, end: nat, page: nat)
    requires image <= end && (page < image / PAGE || page * PAGE >= end + PAGE)
    ensures !InRange(page, image / PAGE, PagesFor(end - image))
  {
    assert (image / PAGE + PagesFor(end - image)) * PAGE <= end + 2 * PAGE - 1;
  }

  lemma MapClaimsNoMore(mapStart: nat, mapSize: nat, page: nat)
    requires Clear(page, mapStart, mapStart + mapSize, 3 * PAGE)
    ensures !InRange(page, mapStart / PAGE, MapPages(mapStart, mapSize))
  {
  }

  /** Boot leaves memory free: every page wholly in a kept slot, clear of the kernel by a page and of the memory
      map by three, is free afterwards. */
  lemma BootFreesTheRest(slots: seq<Slot>, i: nat, image: nat, end: nat, mapStart: nat, mapSize: nat, page: nat)
    requires i < |slots| && InSpan(slots[i]) && Kept(slots[i], image) && WhollyIn(page, slots[i]) && image <= end
    requires page < image / PAGE || page * PAGE >= end + PAGE
    requires Clear(page, mapStart, mapStart + mapSize, 3 * PAGE)
    ensures !UsedAtBoot(TrimmedAll(slots, image), image, end, mapStart, mapSize, page)
  {
    SlotFreesItsPages(slots[i], image, page);
    assert SlotFrees(TrimmedAll(slots, image)[i], page);
    KernelClaimsNoMore(image, end, page);
    MapClaimsNoMore(mapStart, mapSize, page);
  }

  lemma OneMoreSlot(slots: seq<Slot>, i: nat, page: nat)
    requires i < |slots|
    ensures SomeSlotFrees(slots[..i + 1], page) <==> SomeSlotFrees(slots[..i], page) || SlotFrees(slots[i], page)
  {
    assert slots[..i + 1][i] == slots[i];
    assert forall k :: 0 <= k < i ==> slots[..i + 1][k] == slots[..i][k];
  }

  lemma AllOnes(bit: nat)
    requires bit < 8
    ensures TestBit(255, bit)
  {
    Masks();
  }

  // ---- the code ------------------------------------------------------------------------

  class PageMap {
    const bitmap: array<bv8>
    var kernelLocation: nat
    var kernelEnd: nat

    ghost predicate Valid()
      reads this
    {
      bitmap.Length == BITMAP_BYTES
    }

    ghost function Used(): (r: seq<bool>)
      requires Valid()
      reads this, bitmap
      ensures |r| == PAGES
    {
      Bits(bitmap[..])
    }

    method TestBlock(bit: nat) returns (used: bool)
      requires Valid() && bit < PAGES
      ensures used == Used()[bit]
    {
      var byte := bitmap[bit / 8];
      used := TestBit(byte, bit % 8);
    }

    method MarkBlock(value: bool, bit: nat)
      requires Valid() && bit < PAGES
      modifies bitmap
      ensures Used() == old(Used())[bit := value]
    {
      if value {
        SetBit(bit % 8, bitmap, bit / 8);
      } else {
        ClearBit(bit % 8, bitmap, bit / 8);
      }
    }

    method MarkRange(value: bool, start: nat, count: nat)
      requires Valid() && start + count <= PAGES
      modifies bitmap
      ensures Used() == Fill(old(Used()), start, count, value)
    {
      ghost var before := Used();
      assert before == Fill(before, start, 0, value);
      for i := 0 to count
        invariant Used() == Fill(before, start, i, value)
      {
        MarkBlock(value, start + i);
        assert Fill(before, start, i + 1, value) == Fill(before, start, i, value)[start + i := value];
      }
    }

    /** The inner loop of `kmalloc`: whether a run starts at `start`, and otherwise where the search
        resumes behind. */
    method Probe(start: nat, count: nat) returns (complete: bool, stop: nat)
      requires Valid() && start < SCANNED && count > 0 && !Used()[start]
      ensures complete == Fits(Used(), start, count)
      ensures !complete ==> start <= stop < SCANNED && forall k :: start <= k <= stop ==> !Fits(Used(), k, count)
    {
      ghost var used := Used();
      var j := 0;
      while j < count && start + j < SCANNED
        invariant start + j <= SCANNED && j < count && AllFree(used, start, j)
      {
        var taken := TestBlock(start + j);
        if taken {
          SkipIsSafe(used, start, start + j, count);
          return false, start + j;
        }
        if j == count - 1 {
          return true, start;
        }
        j := j + 1;
      }
      return false, start;
    }

    /** The search of `kmalloc`'s page path. */
    method FindRun(count: nat) returns (start: nat)
      requires Valid() && count > 0
      ensures start == LowestFrom(Used(), 0, count)
    {
      ghost var used := Used();
      start := 0;
      while start < SCANNED
        invariant start <= SCANNED && forall k :: 0 <= k < start ==> !Fits(used, k, count)
      {
        var taken := TestBlock(start);
        if !taken {
          var complete, stop := Probe(start, count);
          if complete {
            LowestIsUnique(used, 0, count, start);
            return;
          }
          start := stop;
        } else {
          SkipIsSafe(used, start, start, count);
        }
        start := start + 1;
      }
      LowestIsUnique(used, 0, count, SCANNED);
    }

    /** The page path of `kmalloc`: lengths above the heap's. */
    method AllocPages(length: nat) returns (address: nat)
      requires Valid() && 0 < length < WORD
      modifies bitmap
      ensures (address, Used()) == Allocate(old(Used()), length)
    {
      var start := FindRun(PagesFor(length));
      if start == SCANNED { return 0; }
      MarkRange(true, start, PagesFor(length));
      return start * PAGE;
    }

    method Kfree(base: nat, length: nat) returns (ok: bool)
      requires Valid() && base / PAGE + length / PAGE <= PAGES
      modifies bitmap
      ensures ok == (base % PAGE == 0)
      ensures Used() == Kfreed(old(Used()), base, length)
    {
      if base % PAGE != 0 { return false; }
      MarkRange(false, base / PAGE, length / PAGE);
      return true;
    }

    method Kunfree(base: nat, length: nat) returns (ok: bool)
      requires Valid() && base / PAGE + length / PAGE <= PAGES
      modifies bitmap
      ensures ok == (base % PAGE == 0)
      ensures Used() == if ok then Fill(old(Used()), base / PAGE, length / PAGE, true) else old(Used())
    {
      if base % PAGE != 0 { return false; }
      MarkRange(true, base / PAGE, length / PAGE);
      return true;
    }

    /** The module loop of `memory_init`. */
    method ExtendOverModules(end: nat, mods: seq<BootModule>) returns (kernelEnd: nat)
      ensures kernelEnd == EndWithModules(end, mods)
    {
      kernelEnd := end;
      for i := 0 to |mods|
        invariant kernelEnd == EndWithModules(end, mods[..i])
      {
        assert mods[..i + 1][..i] == mods[..i];
        if mods[i].end > kernelEnd { kernelEnd := mods[i].end; }
      }
      assert mods[..|mods|] == mods;
    }

    /** The two loops of `memory_init` that trim the slots and clear their pages. */
    method TrimSlots(slots: array<Slot>, kernel: nat)
      modifies slots
      ensures slots[..] == TrimmedAll(old(slots[..]), kernel)
    {
      for i := 0 to slots.Length
        invariant forall k :: 0 <= k < i ==> slots[k] == Trimmed(old(slots[k]), kernel)
        invariant forall k :: i <= k < slots.Length ==> slots[k] == old(slots[k])
      {
        slots[i] := Trimmed(slots[i], kernel);
      }
    }

    /** `mark_block(0, ..)` over the pages of every free slot. */
    method ClearSlots(slots: seq<Slot>)
      requires Valid() && SlotsInBitmap(slots)
      modifies bitmap
      ensures forall p :: 0 <= p < PAGES ==> Used()[p] == (old(Used())[p] && !SomeSlotFrees(slots, p))
    {
      ghost var before := Used();
      for i := 0 to |slots|
        invariant forall p :: 0 <= p < PAGES ==> Used()[p] == (before[p] && !SomeSlotFrees(slots[..i], p))
      {
        ghost var now := Used();
        var s := slots[i];
        if s.kind == FREE_MEMORY {
          var first, last := FirstPage(s), LastPage(s);
          MarkBlock(false, first);
          MarkBlock(false, last);
          if first <= last {
            MarkRange(false, first, last + 1 - first);
          }
        }
        forall p | 0 <= p < PAGES
          ensures Used()[p] == (before[p] && !SomeSlotFrees(slots[..i + 1], p))
        {
          OneMoreSlot(slots, i, p);
          assert Used()[p] == (now[p] && !SlotFrees(s, p));
        }
      }
      assert slots[..|slots|] == slots;
    }

    /** `memset(&memory_bitmap, 255, ..)`. */
    method FillBitmap()
      requires Valid()
      modifies bitmap
      ensures forall p :: 0 <= p < PAGES ==> Used()[p]
    {
      for i := 0 to BITMAP_BYTES
        invariant forall k :: 0 <= k < i ==> bitmap[k] == 255
      {
        bitmap[i] := 255;
      }
      forall p | 0 <= p < PAGES ensures Used()[p] {
        assert Used()[p] == TestBit(bitmap[..][p / 8], p % 8);
        AllOnes(p % 8);
      }
    }

    /** `memory_init`: everything used, free slots cleared, then kernel with modules and the memory
        map marked again. `image` to `imageEnd` is the kernel as linked. */
    method MemoryInit(slots: array<Slot>, mods: seq<BootModule>, image: nat, imageEnd: nat, mapStart: nat, mapSize: nat)
      requires Valid() && image <= imageEnd < WORD && mapStart + mapSize + 2 * PAGE <= WORD
      requires forall m :: m in mods ==> m.end < WORD
      requires slots as object != bitmap && SlotsInBitmap(TrimmedAll(slots[..], image))
      modifies this, bitmap, slots
      ensures Valid() && kernelLocation == image && kernelEnd == EndWithModules(imageEnd, mods)
      ensures slots[..] == TrimmedAll(old(slots[..]), image)
      ensures forall p :: 0 <= p < PAGES ==>
        Used()[p] == UsedAtBoot(slots[..], image, kernelEnd, mapStart, mapSize, p)
    {
      kernelLocation := image;
      kernelEnd := ExtendOverModules(imageEnd, mods);
      TrimSlots(slots, image);
      ghost var trimmed := TrimmedAll(old(slots[..]), image);
      FillBitmap();
      assert slots[..] == trimmed;
      ClearSlots(slots[..]);
      assert slots[..] == trimmed;
      RangeInBitmap(image, kernelEnd, mapStart, mapSize);
      MarkRange(true, image / PAGE, PagesFor(kernelEnd - image));
      MarkRange(true, mapStart / PAGE, MapPages(mapStart, mapSize));
    }
  }
}
