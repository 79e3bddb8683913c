/** Whole runs of `kmalloc`, matching `kfree` calls and client stores: what is outstanding never
    overlaps, heap words are zero when granted, and reserved pages stay untouched. */
module AllocatorRuns {
  import opened Bintools
  import opened Common
  import opened PhysicalPages
  import opened HeapAllocator

  // ---- counting marked words -----------------------------------------------------------

  ghost function Ones(bits: seq<bool>, n: nat): (r: nat)
    requires n <= |bits|
    ensures r <= n
  {
    if n == 0 then 0 else Ones(bits, n - 1) + if bits[n - 1] then 1 else 0
  }

  lemma {:induction false} OnesAfterFill(bits: seq<bool>, start: nat, count: nat, n: nat)
    requires start + count <= |bits| && n <= |bits| && AllFree(bits, start, count)
    ensures Ones(Fill(bits, start, count, true), n)
         == Ones(bits, n) + if n <= start then 0 else if n < start + count then n - start else count
  {
    if n > 0 {
      OnesAfterFill(bits, start, count, n - 1);
    }
  }

  lemma {:induction false} OnesOfFresh(page: nat, junk: bv8, n: nat)
    requires n <= GRANTABLE
    ensures Ones(FreshNode(page, junk).bits, n) == if n == GRANTABLE && TestBit(junk, 0) then 1 else 0
  {
    if n > 0 {
      OnesOfFresh(page, junk, n - 1);
    }
  }

  // ---- states with their outstanding blocks --------------------------------------------

  /** A grant: whole pages, words of the `node`-th node, or words of the unlinked node at address 0
      that the code uses when no page is left. */
  datatype Block =
    | PageBlock(first: nat, length: nat)
    | HeapBlock(node: nat, word: nat, length: nat)
    | NullBlock(length: nat)

  datatype Machine = Machine(s: State, live: seq<Block>)

  datatype Op = Request(length: nat, junk: bv8) | Release(index: nat) | Store(index: nat, offset: nat, value: nat)

  ghost function Base(nodes: seq<Node>, b: Block): nat
    requires b.HeapBlock? ==> b.node < |nodes|
  {
    match b
    case PageBlock(first, _) => first * PAGE
    case HeapBlock(node, word, _) => nodes[node].page * PAGE + HEADER + 4 * word
    case NullBlock(_) => HEADER
  }

  /** The block behind the address that `Serve` returns. */
  ghost function Grant(s: State, length: nat, junk: bv8): Option<Block>
    requires WellShaped(s)
  {
    if length > DATA_BYTES then
      var p := LowestFrom(s.used, 0, PagesFor(length));
      if p < SCANNED then Some(PageBlock(p, length)) else None
    else
      var i := FirstAccepting(s.nodes, 0, length);
      if i < |s.nodes| then Some(HeapBlock(i, LowestRun(s.nodes[i].bits, 0, WordsFor(length)), length))
      else if !HasRun(FreshNode(0, junk), length) then None
      else if LowestFrom(s.used, 0, 1) < SCANNED then Some(HeapBlock(|s.nodes|, 0, length))
      else Some(NullBlock(length))
  }

  ghost function Step(m: Machine, op: Op): Machine
    requires WellShaped(m.s) && forall k :: 0 <= k < |m.live| && m.live[k].HeapBlock? ==> m.live[k].node < |m.s.nodes|
  {
    match op
    case Request(length, junk) =>
      var g := Grant(m.s, length, junk);
      Machine(Serve(m.s, length, junk).0, if g.Some? then m.live + [g.value] else m.live)
    case Release(k) =>
      if k < |m.live| then
        Machine(m.s.(used := Kfreed(m.s.used, Base(m.s.nodes, m.live[k]), m.live[k].length)), m.live[..k] + m.live[k + 1..])
      else m
    case Store(k, offset, value) =>
      if k < |m.live| && m.live[k].HeapBlock? && offset < WordsFor(m.live[k].length) && m.live[k].word + offset < DATA_WORDS then
        var b, n := m.live[k], m.s.nodes[m.live[k].node];
        assert WellSized(n);
        m.(s := m.s.(nodes := m.s.nodes[b.node := n.(words := n.words[b.word + offset := value])]))
      else m
  }

  // ---- the invariant -------------------------------------------------------------------

  ghost predicate NodeOk(n: Node, used: seq<bool>, reserved: set<nat>)
    requires |used| == PAGES
  {
    && WellSized(n)
    && 0 < n.page < SCANNED && used[n.page] && n.page !in reserved
    && (forall k :: 0 <= k < GRANTABLE && !n.bits[k] ==> n.words[k] == 0)
    && n.allocatedBytes + (if n.early then 4 else 0) == 4 * Ones(n.bits, GRANTABLE)
  }

  ghost predicate Holds(b: Block, page: nat) {
    b.PageBlock? && b.first <= page < b.first + PagesFor(b.length)
  }

  ghost predicate BlockOk(b: Block, s: State, reserved: set<nat>)
    requires WellShaped(s)
  {
    match b
    case PageBlock(first, length) =>
      && length > DATA_BYTES && first + PagesFor(length) <= SCANNED
      && (forall p: nat :: Holds(b, p) ==> s.used[p] && p !in reserved)
      && (forall i :: 0 <= i < |s.nodes| ==> !Holds(b, s.nodes[i].page))
    case HeapBlock(node, word, length) =>
      && node < |s.nodes| && word < BITMAP_BITS && word + WordsFor(length) <= GRANTABLE
      && (forall k :: word <= k < word + WordsFor(length) ==> s.nodes[node].bits[k])
    case NullBlock(length) => WordsFor(length) <= GRANTABLE
  }

  ghost predicate Apart(a: Block, b: Block) {
    && (a.PageBlock? && b.PageBlock? ==>
        a.first + PagesFor(a.length) <= b.first || b.first + PagesFor(b.length) <= a.first)
    && (a.HeapBlock? && b.HeapBlock? && a.node == b.node && a.length > 0 && b.length > 0 ==>
        a.word + WordsFor(a.length) <= b.word || b.word + WordsFor(b.length) <= a.word)
  }

  ghost predicate Inv(m: Machine, reserved: set<nat>) {
    && WellShaped(m.s) && 0 in reserved
    && (forall p :: p in reserved ==> p < PAGES && m.s.used[p])
    && (forall i :: 0 <= i < |m.s.nodes| ==> NodeOk(m.s.nodes[i], m.s.used, reserved))
    && (forall i, j :: 0 <= i < j < |m.s.nodes| ==> m.s.nodes[i].page != m.s.nodes[j].page)
    && (forall k :: 0 <= k < |m.live| ==> BlockOk(m.live[k], m.s, reserved))
    && (forall j, k :: 0 <= j < k < |m.live| ==> Apart(m.live[j], m.live[k]))
  }

  // ---- one step keeps it ---------------------------------------------------------------

  /** Two non-empty ranges that are not apart share a position. */
  lemma Shared(a: nat, n: nat, b: nat, k: nat)
    requires n > 0 && k > 0
    ensures a + n <= b || b + k <= a || exists q: nat :: InRange(q, a, n) && InRange(q, b, k)
  {
    if a < b + k && b < a + n {
      var q := if a <= b then b else a;
      assert InRange(q, a, n) && InRange(q, b, k);
    }
  }

  lemma RequestPages(m: Machine, length: nat, junk: bv8, reserved: set<nat>)
    requires Inv(m, reserved) && length > DATA_BYTES
    ensures Inv(Step(m, Request(length, junk)), reserved)
  {
    hide LowestFrom, Ones;
    var n := PagesFor(length);
    var p := LowestFrom(m.s.used, 0, n);
    if p < SCANNED {
      var m' := Step(m, Request(length, junk));
      assert Fits(m.s.used, p, n);
      assert m'.s.used == Fill(m.s.used, p, n, true);
      forall k | 0 <= k < |m.live|
        ensures Apart(m.live[k], PageBlock(p, length)) && BlockOk(m.live[k], m'.s, reserved)
      {
        var b := m.live[k];
        if b.PageBlock? {
          Shared(b.first, PagesFor(b.length), p, n);
          assert forall q: nat :: InRange(q, b.first, PagesFor(b.length)) ==> Holds(b, q);
        }
      }
    }
  }

  /** Granting words of a node keeps the node in order. */
  lemma TakeKeepsNode(n: Node, length: nat, used: seq<bool>, reserved: set<nat>)
    requires |used| == PAGES && NodeOk(n, used, reserved) && HasRun(n, length)
    ensures NodeOk(TakeFrom(n, length).0, used, reserved)
  {
    var w, b := WordsFor(length), LowestRun(n.bits, 0, WordsFor(length));
    assert RunAt(n.bits, b, w);
    OnesAfterFill(n.bits, b, w, GRANTABLE);
  }

  lemma FreshNodeOk(page: nat, junk: bv8, used: seq<bool>, reserved: set<nat>)
    requires |used| == PAGES && 0 < page < SCANNED && used[page] && page !in reserved
    ensures NodeOk(FreshNode(page, junk), used, reserved)
  {
    OnesOfFresh(page, junk, GRANTABLE);
  }

  /** Outstanding blocks survive the granting of free words of one node. */
  lemma TakeKeepsBlocks(m: Machine, i: nat, length: nat, k: nat, reserved: set<nat>)
    requires Inv(m, reserved) && i < |m.s.nodes| && HasRun(m.s.nodes[i], length) && k < |m.live|
    ensures var s' := m.s.(nodes := m.s.nodes[i := TakeFrom(m.s.nodes[i], length).0]);
      BlockOk(m.live[k], s', reserved)
      && Apart(m.live[k], HeapBlock(i, LowestRun(m.s.nodes[i].bits, 0, WordsFor(length)), length))
  {
    var n := m.s.nodes[i];
    var w, word := WordsFor(length), LowestRun(n.bits, 0, WordsFor(length));
    assert RunAt(n.bits, word, w);
    var b := m.live[k];
    if b.HeapBlock? && b.node == i && b.length > 0 && length > 0 {
      Shared(b.word, WordsFor(b.length), word, w);
      assert forall q: nat :: InRange(q, b.word, WordsFor(b.length)) ==> n.bits[q];
      assert forall q: nat :: InRange(q, word, w) ==> !n.bits[q];
    }
  }

  lemma RequestWordsOfNode(m: Machine, length: nat, junk: bv8, reserved: set<nat>)
    requires Inv(m, reserved) && length <= DATA_BYTES && FirstAccepting(m.s.nodes, 0, length) < |m.s.nodes|
    ensures Inv(Step(m, Request(length, junk)), reserved)
  {
    hide FirstAccepting, LowestRun, LowestFrom, Ones;
    var i := FirstAccepting(m.s.nodes, 0, length);
    TakeKeepsNode(m.s.nodes[i], length, m.s.used, reserved);
    forall k | 0 <= k < |m.live| {
      TakeKeepsBlocks(m, i, length, k, reserved);
    }
  }

  /** A machine whose node list has grown by a fresh node on a page that was free. */
  ghost function WithNode(m: Machine, page: nat, junk: bv8): Machine
    requires |m.s.used| == PAGES
  {
    m.(s := State(Fill(m.s.used, page, 1, true), m.s.nodes + [FreshNode(page, junk)]))
  }

  lemma NewNodeKeepsInv(m: Machine, page: nat, junk: bv8, reserved: set<nat>)
    requires Inv(m, reserved) && page < SCANNED && !m.s.used[page]
    ensures Inv(WithNode(m, page, junk), reserved)
  {
    FreshNodeOk(page, junk, Fill(m.s.used, page, 1, true), reserved);
  }

  lemma FreshRun(page: nat, junk: bv8, length: nat)
    requires length <= DATA_BYTES
    ensures HasRun(FreshNode(page, junk), length) ==> LowestRun(FreshNode(page, junk).bits, 0, WordsFor(length)) == 0
    ensures HasRun(FreshNode(page, junk), length)
       <==> WordsFor(length) <= BITMAP_BITS || (WordsFor(length) == GRANTABLE && !TestBit(junk, 0))
  {
    var bits, w := FreshNode(page, junk).bits, WordsFor(length);
    var r := LowestRun(bits, 0, w);
    if r < BITMAP_BITS {
      assert RunAt(bits, r, w);
      assert w == GRANTABLE ==> r == 0 && !bits[984];
      assert RunAt(bits, 0, w);
    }
    assert RunAt(bits, 0, w) <==> w <= BITMAP_BITS || (w == GRANTABLE && !bits[984]);
  }

  lemma FreshIsEmpty(page: nat, junk: bv8)
    ensures FreshNode(page, junk).allocatedBytes == 0 && FreshNode(page, junk).page == page
  {
  }

  /** Serving from a new node is adding the node and, if it has room, serving from it. */
  lemma GrowThenTake(m: Machine, length: nat, junk: bv8)
    requires WellShaped(m.s) && length <= DATA_BYTES && FirstAccepting(m.s.nodes, 0, length) == |m.s.nodes|
    requires forall k :: 0 <= k < |m.live| && m.live[k].HeapBlock? ==> m.live[k].node < |m.s.nodes|
    requires 0 < LowestFrom(m.s.used, 0, 1) < SCANNED
    ensures var p := LowestFrom(m.s.used, 0, 1);
      var grown := WithNode(m, p, junk);
      if HasRun(FreshNode(p, junk), length)
      then FirstAccepting(grown.s.nodes, 0, length) < |grown.s.nodes|
           && Step(m, Request(length, junk)) == Step(grown, Request(length, junk))
      else Step(m, Request(length, junk)) == grown
  {
    hide LowestFrom, Fill, LowestRun, FreshNode, Ones;
    var p, i := LowestFrom(m.s.used, 0, 1), |m.s.nodes|;
    FreshRun(0, junk, length);
    FreshRun(p, junk, length);
    var grown, n := WithNode(m, p, junk), FreshNode(p, junk);
    assert n.allocatedBytes == 0 by { FreshIsEmpty(p, junk); }
    if HasRun(n, length) {
      FirstAcceptingIsUnique(grown.s.nodes, 0, length, i);
      assert grown.s.nodes[i := TakeFrom(n, length).0] == m.s.nodes + [TakeFrom(n, length).0];
    }
  }

  lemma RequestWordsOfNewNode(m: Machine, length: nat, junk: bv8, reserved: set<nat>)
    requires Inv(m, reserved) && length <= DATA_BYTES && FirstAccepting(m.s.nodes, 0, length) == |m.s.nodes|
    requires LowestFrom(m.s.used, 0, 1) < SCANNED
    ensures Inv(Step(m, Request(length, junk)), reserved)
  {
    hide Fill, LowestRun, FreshNode, Ones, Serve, Step;
    var p := LowestFrom(m.s.used, 0, 1);
    assert Fits(m.s.used, p, 1) && p > 0;
    GrowThenTake(m, length, junk);
    NewNodeKeepsInv(m, p, junk, reserved);
    if HasRun(FreshNode(p, junk), length) {
      RequestWordsOfNode(WithNode(m, p, junk), length, junk, reserved);
    }
  }

  lemma RequestWordsExhausted(m: Machine, length: nat, junk: bv8, reserved: set<nat>)
    requires Inv(m, reserved) && length <= DATA_BYTES && FirstAccepting(m.s.nodes, 0, length) == |m.s.nodes|
    requires LowestFrom(m.s.used, 0, 1) == SCANNED
    ensures Inv(Step(m, Request(length, junk)), reserved) && Step(m, Request(length, junk)).s == m.s
  {
    hide FirstAccepting, LowestRun, LowestFrom, Ones;
    FreshRun(0, junk, length);
  }

  /** Heap addresses are never page-aligned, so `kfree` of a heap block frees no page. */
  lemma WordsFreeNoPage(m: Machine, k: nat, reserved: set<nat>)
    requires Inv(m, reserved) && k < |m.live| && !m.live[k].PageBlock?
    ensures Base(m.s.nodes, m.live[k]) % PAGE != 0
    ensures Kfreed(m.s.used, Base(m.s.nodes, m.live[k]), m.live[k].length) == m.s.used
  {
    assert BlockOk(m.live[k], m.s, reserved);
  }

  lemma ReleaseKeepsInv(m: Machine, k: nat, reserved: set<nat>)
    requires Inv(m, reserved)
    ensures Inv(Step(m, Release(k)), reserved)
  {
    hide Ones, TestBit;
    if k < |m.live| {
      var b, m' := m.live[k], Step(m, Release(k));
      if b.PageBlock? {
        forall p: nat | p < PAGES && m.s.used[p] && !Holds(b, p) ensures m'.s.used[p] { }
        forall j, q: nat | 0 <= j < |m.live| && j != k && Holds(m.live[j], q) ensures !Holds(b, q) {
          assert Apart(m.live[j], b) || Apart(b, m.live[j]);
        }
      } else {
        WordsFreeNoPage(m, k, reserved);
      }
      forall j | 0 <= j < |m'.live| ensures BlockOk(m'.live[j], m'.s, reserved) {
        var i := if j < k then j else j + 1;
        assert m'.live[j] == m.live[i];
      }
    }
  }

  lemma StoreKeepsInv(m: Machine, k: nat, offset: nat, value: nat, reserved: set<nat>)
    requires Inv(m, reserved)
    ensures Inv(Step(m, Store(k, offset, value)), reserved)
  {
    if k < |m.live| && m.live[k].HeapBlock? {
      assert BlockOk(m.live[k], m.s, reserved);
    }
  }

  lemma StepKeepsInv(m: Machine, op: Op, reserved: set<nat>)
    requires Inv(m, reserved)
    ensures Inv(Step(m, op), reserved)
  {
    match op
    case Request(length, junk) =>
      if length > DATA_BYTES {
        RequestPages(m, length, junk, reserved);
      } else if FirstAccepting(m.s.nodes, 0, length) < |m.s.nodes| {
        RequestWordsOfNode(m, length, junk, reserved);
      } else if LowestFrom(m.s.used, 0, 1) < SCANNED {
        RequestWordsOfNewNode(m, length, junk, reserved);
      } else {
        RequestWordsExhausted(m, length, junk, reserved);
      }
    case Release(k) => ReleaseKeepsInv(m, k, reserved);
    case Store(k, offset, value) => StoreKeepsInv(m, k, offset, value, reserved);
  }

  ghost function Run(m: Machine, ops: seq<Op>, reserved: set<nat>): (r: Machine)
    requires Inv(m, reserved)
    ensures Inv(r, reserved)
    decreases |ops|
  {
    if ops == [] then m
    else
      StepKeepsInv(m, ops[0], reserved);
      Run(Step(m, ops[0]), ops[1..], reserved)
  }

  // ---- what the invariant gives --------------------------------------------------------

  /** The C result of a request is the base of the block granted, or null. */
  lemma GrantAddress(m: Machine, length: nat, junk: bv8, reserved: set<nat>)
    requires Inv(m, reserved)
    ensures var g := Grant(m.s, length, junk);
      var (s', address) := Serve(m.s, length, junk);
      address == (if g.Some? then Base(s'.nodes, g.value) else 0) && (g.Some? ==> address > 0)
  {
    hide FirstAccepting, LowestRun, LowestFrom, Ones;
    if length > DATA_BYTES {
      var p := LowestFrom(m.s.used, 0, PagesFor(length));
      assert p < SCANNED ==> Fits(m.s.used, p, PagesFor(length)) && p > 0;
    } else if FirstAccepting(m.s.nodes, 0, length) == |m.s.nodes| {
      var p := LowestFrom(m.s.used, 0, 1);
      assert p < SCANNED ==> Fits(m.s.used, p, 1) && p > 0;
      FreshRun(0, junk, length);
      FreshRun(p, junk, length);
    }
  }

  ghost predicate Overlap(a: nat, n: nat, b: nat, k: nat) {
    exists q: nat :: InRange(q, a, n) && InRange(q, b, k)
  }

  /** Any two outstanding non-empty blocks occupy disjoint bytes, unless both came from the node at
      address 0: those always collide. */
  lemma OutstandingBlocksAreDisjoint(m: Machine, j: nat, k: nat, reserved: set<nat>)
    requires Inv(m, reserved) && j < k < |m.live| && m.live[j].length > 0 && m.live[k].length > 0
    ensures Overlap(Base(m.s.nodes, m.live[j]), m.live[j].length, Base(m.s.nodes, m.live[k]), m.live[k].length)
       <==> m.live[j].NullBlock? && m.live[k].NullBlock?
  {
    var a, b := m.live[j], m.live[k];
    assert Apart(a, b) && BlockOk(a, m.s, reserved) && BlockOk(b, m.s, reserved);
    if a.NullBlock? && b.NullBlock? {
      assert InRange(HEADER, HEADER, a.length) && InRange(HEADER, HEADER, b.length);
    }
  }

  /** The first page a block lies in, and how many. */
  ghost function FirstPageOf(nodes: seq<Node>, b: Block): nat
    requires b.HeapBlock? ==> b.node < |nodes|
  {
    match b
    case PageBlock(first, _) => first
    case HeapBlock(node, _, _) => nodes[node].page
    case NullBlock(_) => 0
  }

  ghost function PagesOf(b: Block): nat {
    if b.PageBlock? then PagesFor(b.length) else 1
  }

  /** A block's bytes lie in its pages; a heap block's lie in the data words of its node. */
  lemma BlockInPages(m: Machine, k: nat, reserved: set<nat>)
    requires Inv(m, reserved) && k < |m.live|
    ensures var b, base := m.live[k], Base(m.s.nodes, m.live[k]);
      && FirstPageOf(m.s.nodes, b) * PAGE <= base && base + b.length <= (FirstPageOf(m.s.nodes, b) + PagesOf(b)) * PAGE
      && (b.PageBlock? || (FirstPageOf(m.s.nodes, b) * PAGE + HEADER <= base
                           && base + b.length <= FirstPageOf(m.s.nodes, b) * PAGE + HEADER + 4 * GRANTABLE))
  {
    assert BlockOk(m.live[k], m.s, reserved);
  }

  /** Words are zero when they are granted, so a new structure starts out cleared. */
  lemma GrantedWordsAreZero(m: Machine, length: nat, junk: bv8, reserved: set<nat>, k: nat)
    requires Inv(m, reserved) && length <= DATA_BYTES && k < WordsFor(length)
    requires var g := Grant(m.s, length, junk); g.Some? && g.value.HeapBlock?
    ensures var (s', b) := (Serve(m.s, length, junk).0, Grant(m.s, length, junk).value);
      b.node < |s'.nodes| && b.word + k < DATA_WORDS && s'.nodes[b.node].words[b.word + k] == 0
  {
    var i := FirstAccepting(m.s.nodes, 0, length);
    if i < |m.s.nodes| {
      var n := m.s.nodes[i];
      assert RunAt(n.bits, LowestRun(n.bits, 0, WordsFor(length)), WordsFor(length));
      assert NodeOk(n, m.s.used, reserved);
    } else {
      var p := LowestFrom(m.s.used, 0, 1);
      assert Fits(m.s.used, p, 1) && p > 0;
      FreshRun(0, junk, length);
    }
  }

  ghost function WordOf(m: Machine, j: nat, o: nat): nat
    requires WellShaped(m.s) && j < |m.live| && m.live[j].HeapBlock? && m.live[j].node < |m.s.nodes|
    requires m.live[j].word + o < DATA_WORDS
  {
    m.s.nodes[m.live[j].node].words[m.live[j].word + o]
  }

  /** A client's store reaches the word it names in its own block and no other word of any block. */
  lemma StoreReachesItsWord(m: Machine, k: nat, offset: nat, value: nat, j: nat, o: nat, reserved: set<nat>)
    requires Inv(m, reserved) && k < |m.live| && m.live[k].HeapBlock? && offset < WordsFor(m.live[k].length)
    requires j < |m.live| && m.live[j].HeapBlock? && o < WordsFor(m.live[j].length)
    ensures var m' := Step(m, Store(k, offset, value));
      && m'.live == m.live && m'.s.used == m.s.used && WellShaped(m'.s)
      && m.live[j].node < |m.s.nodes| == |m'.s.nodes| && m.live[j].word + o < DATA_WORDS
      && WordOf(m', j, o) == if j == k && o == offset then value else WordOf(m, j, o)
  {
    assert BlockOk(m.live[k], m.s, reserved) && BlockOk(m.live[j], m.s, reserved);
    assert j != k ==> Apart(m.live[j], m.live[k]) || Apart(m.live[k], m.live[j]);
  }

  /** The byte count test never turns away a node whose bitmap has room. */
  lemma PreCheckNeverRejects(n: Node, length: nat, used: seq<bool>, reserved: set<nat>)
    requires |used| == PAGES && NodeOk(n, used, reserved)
    ensures Accepts(n, length) <==> HasRun(n, length)
  {
    if HasRun(n, length) {
      var w, b := WordsFor(length), LowestRun(n.bits, 0, WordsFor(length));
      assert RunAt(n.bits, b, w);
      OnesAfterFill(n.bits, b, w, GRANTABLE);
      assert Ones(Fill(n.bits, b, w, true), GRANTABLE) == Ones(n.bits, GRANTABLE) + w;
    }
  }

  /** Requests of 1 to 3936 bytes succeed as long as some node has a fitting run or one page is free,
      and get the lowest run of the first such node, or the first words of a new one. */
  lemma SmallRequestsSucceed(m: Machine, length: nat, junk: bv8, reserved: set<nat>)
    requires Inv(m, reserved) && 0 < length <= 4 * BITMAP_BITS
    requires (exists i :: 0 <= i < |m.s.nodes| && HasRun(m.s.nodes[i], length))
          || (exists p :: 0 <= p < SCANNED && !m.s.used[p])
    ensures var g := Grant(m.s, length, junk);
      && g.Some? && g.value.HeapBlock? && g.value.length == length && g.value.node <= |m.s.nodes|
      && (g.value.node == |m.s.nodes| ==> g.value.word == 0)
      && (forall i :: 0 <= i < g.value.node && i < |m.s.nodes| ==> !HasRun(m.s.nodes[i], length))
      && (g.value.node < |m.s.nodes| ==>
            RunAt(m.s.nodes[g.value.node].bits, g.value.word, WordsFor(length))
            && forall w :: 0 <= w < g.value.word ==> !RunAt(m.s.nodes[g.value.node].bits, w, WordsFor(length)))
  {
    forall i | 0 <= i < |m.s.nodes| ensures Accepts(m.s.nodes[i], length) <==> HasRun(m.s.nodes[i], length) {
      PreCheckNeverRejects(m.s.nodes[i], length, m.s.used, reserved);
    }
    if FirstAccepting(m.s.nodes, 0, length) == |m.s.nodes| {
      var p :| 0 <= p < SCANNED && !m.s.used[p];
      assert Fits(m.s.used, p, 1);
      FreshRun(0, junk, length);
    }
  }

  /** Larger heap requests always fail: no node can hold more than 985 words. */
  lemma LargeHeapRequestsFail(s: State, length: nat, junk: bv8)
    requires WellShaped(s) && 4 * GRANTABLE < length <= DATA_BYTES
    ensures Serve(s, length, junk).1 == 0
  {
    var page := Allocate(s.used, NODE_BYTES).0 / PAGE;
    var n := if s.nodes != [] && s.nodes[0].page == 0 then ClearedNode(s.nodes[0]) else FreshNode(page, junk);
    assert forall w :: 0 <= w < BITMAP_BITS ==> !RunAt(n.bits, w, WordsFor(length));
    assert forall w :: 0 <= w < BITMAP_BITS ==> !RunAt(FreshNode(page, junk).bits, w, WordsFor(length));
  }

  /** No linked node has room for the request and no page is left for a new one. */
  ghost predicate Exhausted(s: State, length: nat)
    requires WellShaped(s)
  {
    && (forall i :: 0 <= i < |s.nodes| ==> !HasRun(s.nodes[i], length))
    && (forall p :: 0 <= p < SCANNED ==> s.used[p])
  }

  /** Exactly then a request that a node could hold is served from the node at address 0. */
  lemma NullBlockWhenExhausted(m: Machine, length: nat, junk: bv8, reserved: set<nat>)
    requires Inv(m, reserved) && 0 < length <= 4 * BITMAP_BITS
    ensures Grant(m.s, length, junk) == Some(NullBlock(length)) <==> Exhausted(m.s, length)
    ensures Exhausted(m.s, length) <==>
      FirstAccepting(m.s.nodes, 0, length) == |m.s.nodes| && LowestFrom(m.s.used, 0, 1) == SCANNED
  {
    hide LowestRun, Ones;
    forall i | 0 <= i < |m.s.nodes| ensures Accepts(m.s.nodes[i], length) <==> HasRun(m.s.nodes[i], length) {
      PreCheckNeverRejects(m.s.nodes[i], length, m.s.used, reserved);
    }
    forall p | 0 <= p < SCANNED ensures !m.s.used[p] <==> Fits(m.s.used, p, 1) { }
    FreshRun(0, junk, length);
  }

  /** And then every such request is answered with the same address. */
  lemma ExhaustionRepeatsAddress(m: Machine, length: nat, junk: bv8, reserved: set<nat>)
    requires Inv(m, reserved) && 0 < length <= 4 * BITMAP_BITS && Exhausted(m.s, length)
    ensures Serve(m.s, length, junk) == (m.s, HEADER)
    ensures Step(m, Request(length, junk)) == m.(live := m.live + [NullBlock(length)])
  {
    hide LowestRun, Ones, FirstAccepting, LowestFrom;
    NullBlockWhenExhausted(m, length, junk, reserved);
    RequestWordsExhausted(m, length, junk, reserved);
    FreshRun(0, junk, length);
  }

  /** If the first node lies at address 0, where `heap_init` puts it when no page is left, exhaustion clears it:
      all other nodes are lost, and words granted before are granted again. */
  lemma FirstNodeAtZero(s: State, length: nat, junk: bv8)
    requires WellShaped(s) && s.nodes != [] && s.nodes[0].page == 0 && 0 < length <= 4 * BITMAP_BITS
    requires FirstAccepting(s.nodes, 0, length) == |s.nodes| && LowestFrom(s.used, 0, 1) == SCANNED
    ensures var (s', address) := Serve(s, length, junk);
      && address == HEADER && s'.used == s.used && |s'.nodes| == 1 && s'.nodes[0].allocatedBytes == 4 * WordsFor(length)
      && (forall k :: 0 <= k < BITMAP_BITS ==> (s'.nodes[0].bits[k] <==> k < WordsFor(length)))
      && (forall k :: 0 <= k < DATA_WORDS ==> s'.nodes[0].words[k] == 0)
  {
    var bits, w := ClearedNode(s.nodes[0]).bits, WordsFor(length);
    assert RunAt(bits, 0, w);
    assert LowestRun(bits, 0, w) == 0;
  }

  // ---- from boot -----------------------------------------------------------------------

  /** After `heap_init` on any bitmap with a free page to spare, runs may start. */
  lemma BootEstablishesInv(used: seq<bool>, junk: bv8, reserved: set<nat>)
    requires |used| == PAGES && 0 in reserved
    requires forall p :: p in reserved ==> p < PAGES && used[p]
    requires LowestFrom(used, 0, 1) < SCANNED
    ensures Inv(Machine(Init(used, junk), []), reserved)
  {
    hide LowestFrom, LowestRun, Ones, FreshNode, TestBit;
    var p := LowestFrom(used, 0, 1);
    assert Fits(used, p, 1) && p > 0;
    FreshIsEmpty(p, junk);
    FreshNodeOk(p, junk, Fill(used, p, 1, true), reserved);
  }

  lemma UnfreedIsUsed(slots: seq<Slot>, image: nat, end: nat, mapStart: nat, mapSize: nat, page: nat)
    requires image <= end && !SomeSlotFrees(TrimmedAll(slots, image), page)
    ensures UsedAtBoot(TrimmedAll(slots, image), image, end, mapStart, mapSize, page)
  {
  }

  /** So when some such page lies in the part of the bitmap that is scanned, runs may start, and the first
      requests are granted: pages right away, and heap words once the heap is there. */
  lemma BootLeavesMemory(used: seq<bool>, slots: seq<Slot>, i: nat, image: nat, end: nat, mapStart: nat, mapSize: nat,
                         page: nat, length: nat, junk: bv8)
    requires |used| == PAGES && page < SCANNED && image <= end && 0 < length <= 4 * BITMAP_BITS
    requires forall p :: 0 <= p < PAGES ==> used[p] == UsedAtBoot(TrimmedAll(slots, image), image, end, mapStart, mapSize, p)
    requires i < |slots| && InSpan(slots[i]) && Kept(slots[i], image) && WhollyIn(page, slots[i])
    requires page < image / PAGE || page * PAGE >= end + PAGE
    requires Clear(page, mapStart, mapStart + mapSize, 3 * PAGE)
    requires forall j :: 0 <= j < |slots| ==> SparesPageZero(slots[j], image)
    ensures LowestFrom(used, 0, 1) <= page
    ensures 0 < Allocate(used, PAGE).0 <= page * PAGE
    ensures Inv(Machine(Init(used, junk), []), {0}) && Grant(Init(used, junk), length, junk) == Some(HeapBlock(0, 0, length))
  {
    hide UsedAtBoot, LowestRun, Ones;
    BootFreesTheRest(slots, i, image, end, mapStart, mapSize, page);
    PageZeroIsSpared(slots, image);
    assert used[0] by { UnfreedIsUsed(slots, image, end, mapStart, mapSize, 0); }
    assert Fits(used, page, 1);
    BootEstablishesInv(used, junk, {0});
    FreshRun(LowestFrom(used, 0, 1), junk, length);
    PreCheckNeverRejects(Init(used, junk).nodes[0], length, Init(used, junk).used, {0});
  }

  /** Releasing what was requested gives the machine back when the length is a whole number of pages, and only
      then. */
  lemma ReleaseUndoesRequest(m: Machine, length: nat, junk: bv8, reserved: set<nat>)
    requires Inv(m, reserved) && length > DATA_BYTES && Grant(m.s, length, junk).Some?
    ensures var m1 := (StepKeepsInv(m, Request(length, junk), reserved); Step(m, Request(length, junk)));
      Step(m1, Release(|m.live|)) == m <==> length % PAGE == 0
  {
    StepKeepsInv(m, Request(length, junk), reserved);
    FreeAfterAllocate(m.s.used, length);
    var m1 := Step(m, Request(length, junk));
    var p := LowestFrom(m.s.used, 0, PagesFor(length));
    hide LowestFrom, Inv, Kfreed;
    assert m1.live[|m.live|] == PageBlock(p, length);
    assert m1.live[..|m.live|] + m1.live[|m.live| + 1..] == m.live;
  }

  ghost function KernelAndMap(image: nat, end: nat, mapStart: nat, mapSize: nat): set<nat> {
    set p | 0 <= p < PAGES && (Meets(p, image, end) || Meets(p, mapStart, mapStart + mapSize))
  }

  /** From boot on, whatever is requested and released, no outstanding block and no heap node ever
      touches a page of the kernel, its modules, or the memory map: for every kernel whose pages boot claims
      completely, and every memory map that leaves page 0 alone. The bitmap is as given here for the maps
      for which boot writes inside it, which `BootStaysInBitmap` tells. */
  lemma KernelPagesAreNeverGranted(used: seq<bool>, slots: seq<Slot>, image: nat, end: nat, mapStart: nat, mapSize: nat,
                                   junk: bv8, ops: seq<Op>, k: nat, page: nat)
    requires |used| == PAGES && image < end && image % PAGE + (end - image + PAGE - 1) % PAGE < PAGE
    requires forall i :: 0 <= i < |slots| ==> SparesPageZero(slots[i], image)
    requires forall p :: 0 <= p < PAGES ==> used[p] == UsedAtBoot(TrimmedAll(slots, image), image, end, mapStart, mapSize, p)
    requires LowestFrom(used, 0, 1) < SCANNED
    requires page in KernelAndMap(image, end, mapStart, mapSize)
    ensures var reserved := KernelAndMap(image, end, mapStart, mapSize) + {0};
      var m := Machine(Init(used, junk), []);
      && Inv(m, reserved)
      && var m' := Run(m, ops, reserved);
        && m'.s.used[page]
        && (k < |m'.s.nodes| ==> m'.s.nodes[k].page != page)
        && (k < |m'.live| ==> !Holds(m'.live[k], page))
  {
    var reserved := KernelAndMap(image, end, mapStart, mapSize) + {0};
    KernelIsCovered(image, end);
    PageZeroIsSpared(slots, image);
    forall p | p in reserved && p != 0 ensures used[p] {
      if Meets(p, mapStart, mapStart + mapSize) { MapIsCovered(mapStart, mapSize, p); }
    }
    BootEstablishesInv(used, junk, reserved);
    var m' := Run(Machine(Init(used, junk), []), ops, reserved);
    assert k < |m'.live| ==> BlockOk(m'.live[k], m'.s, reserved);
    assert k < |m'.s.nodes| ==> NodeOk(m'.s.nodes[k], m'.s.used, reserved);
  }
}
