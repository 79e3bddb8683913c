/** The word heap of heap.c and its mutual recursion with `kmalloc`: a linked list of page-sized
    nodes, each handing out 4-byte words first fit and never taking them back. */
module HeapAllocator {
  import opened Bintools
  import opened Common
  import opened PhysicalPages

  const DATA_BYTES: nat := 3964
  const DATA_WORDS: nat := 991
  const BITMAP_BITS: nat := 984
  /** Words that can be granted: the end check lets one word past the bitmap through. */
  const GRANTABLE: nat := 985
  const NODE_BYTES: nat := 4095
  const HEADER: nat := 8

  function WordsFor(length: nat): nat {
    length / 4 + if length % 4 != 0 then 1 else 0
  }

  // ---- specification -------------------------------------------------------------------

  /** One node by value. The mark of word 984 is the lowest bit of byte 4095 of its page, which clearing the
      node does not reach; `early` tells whether that mark was set from the start. */
  datatype Node = Node(page: nat, allocatedBytes: nat, bits: seq<bool>, words: seq<nat>, early: bool)

  ghost predicate WellSized(n: Node) {
    |n.bits| == 992 && |n.words| == DATA_WORDS
  }

  /** A node just cleared on a page whose byte 4095 held `junk`. */
  ghost function FreshNode(page: nat, junk: bv8): (n: Node)
    ensures WellSized(n)
  {
    Node(page, 0, seq(992, k requires 0 <= k < 992 => k >= 984 && TestBit(junk, k - 984)), seq(DATA_WORDS, k => 0), TestBit(junk, 0))
  }

  /** A node cleared again where it is. */
  ghost function ClearedNode(n: Node): (r: Node)
    requires WellSized(n)
    ensures WellSized(r)
  {
    Node(n.page, 0, seq(992, k requires 0 <= k < 992 => k >= 984 && n.bits[k]), seq(DATA_WORDS, k => 0), n.bits[984])
  }

  ghost predicate RunAt(bits: seq<bool>, word: nat, count: nat)
    requires |bits| == 992
  {
    word < BITMAP_BITS && !bits[word] && word + count <= GRANTABLE && AllFree(bits, word, count)
  }

  ghost function LowestRun(bits: seq<bool>, from: nat, count: nat): (r: nat)
    requires |bits| == 992 && from <= BITMAP_BITS
    ensures from <= r <= BITMAP_BITS
    ensures r < BITMAP_BITS ==> RunAt(bits, r, count)
    ensures forall k :: from <= k < r ==> !RunAt(bits, k, count)
    decreases BITMAP_BITS - from
  {
    if from == BITMAP_BITS || RunAt(bits, from, count) then from else LowestRun(bits, from + 1, count)
  }

  lemma LowestRunIsUnique(bits: seq<bool>, from: nat, count: nat, r: nat)
    requires |bits| == 992 && from <= r <= BITMAP_BITS
    requires r < BITMAP_BITS ==> RunAt(bits, r, count)
    requires forall k :: from <= k < r ==> !RunAt(bits, k, count)
    ensures LowestRun(bits, from, count) == r
  {
  }

  ghost predicate HasRun(n: Node, length: nat)
    requires WellSized(n)
  {
    LowestRun(n.bits, 0, WordsFor(length)) < BITMAP_BITS
  }

  /** `heap_allocate_from_node`: the node afterwards and the address, 0 on failure. */
  ghost function TakeFrom(n: Node, length: nat): (r: (Node, nat))
    requires WellSized(n)
    ensures WellSized(r.0) && r.0.page == n.page && r.0.words == n.words
  {
    var w, b := WordsFor(length), LowestRun(n.bits, 0, WordsFor(length));
    if b < BITMAP_BITS
    then (n.(bits := Fill(n.bits, b, w, true), allocatedBytes := n.allocatedBytes + 4 * w), n.page * PAGE + HEADER + 4 * b)
    else (n, 0)
  }

  /** The byte count check in front of a node and then its bitmap. */
  ghost predicate Accepts(n: Node, length: nat)
    requires WellSized(n)
  {
    n.allocatedBytes < DATA_BYTES && DATA_BYTES - n.allocatedBytes > length && HasRun(n, length)
  }

  ghost function FirstAccepting(nodes: seq<Node>, from: nat, length: nat): (r: nat)
    requires from <= |nodes| && forall k :: 0 <= k < |nodes| ==> WellSized(nodes[k])
    ensures from <= r <= |nodes|
    ensures r < |nodes| ==> Accepts(nodes[r], length)
    ensures forall i :: from <= i < r ==> !Accepts(nodes[i], length)
    decreases |nodes| - from
  {
    if from == |nodes| || Accepts(nodes[from], length) then from else FirstAccepting(nodes, from + 1, length)
  }

  lemma FirstAcceptingIsUnique(nodes: seq<Node>, from: nat, length: nat, i: nat)
    requires from <= i <= |nodes| && forall k :: 0 <= k < |nodes| ==> WellSized(nodes[k])
    requires i < |nodes| ==> Accepts(nodes[i], length)
    requires forall k :: from <= k < i ==> !Accepts(nodes[k], length)
    ensures FirstAccepting(nodes, from, length) == i
  {
  }

  datatype State = State(used: seq<bool>, nodes: seq<Node>)

  ghost predicate WellShaped(s: State) {
    |s.used| == PAGES && forall k :: 0 <= k < |s.nodes| ==> WellSized(s.nodes[k])
  }

  /** Both `kmalloc` and `heap_alloc`. When no page is left for a new node the code works on a node
      at address 0 instead, which it does not link. If that is where the first node lies, it is cleared and
      the list ends with it. */
  ghost function Serve(s: State, length: nat, junk: bv8): (r: (State, nat))
    requires WellShaped(s)
    ensures WellShaped(r.0)
  {
    if length > DATA_BYTES then
      var (address, used) := Allocate(s.used, length);
      (s.(used := used), address)
    else
      var i := FirstAccepting(s.nodes, 0, length);
      if i < |s.nodes| then
        var (n, address) := TakeFrom(s.nodes[i], length);
        (s.(nodes := s.nodes[i := n]), address)
      else
        var (base, used) := Allocate(s.used, NODE_BYTES);
        if base == 0 && s.nodes != [] && s.nodes[0].page == 0 then
          var (n, address) := TakeFrom(ClearedNode(s.nodes[0]), length);
          (State(used, [n]), address)
        else
          var (n, address) := TakeFrom(FreshNode(base / PAGE, junk), length);
          (State(used, if base == 0 then s.nodes else s.nodes + [n]), address)
  }

  ghost function Init(used: seq<bool>, junk: bv8): (s: State)
    requires |used| == PAGES
    ensures WellShaped(s)
  {
    var (base, used') := Allocate(used, NODE_BYTES);
    State(used', [FreshNode(base / PAGE, junk)])
  }

  lemma NoBit(bit: nat)
    requires bit < 8
    ensures !TestBit(0, bit)
  {
    Masks();
  }

  // ---- the code ------------------------------------------------------------------------

  /** A node in memory. Its two arrays lie inside the C structure, so they are part of the object. */
  class HeapNode {
    const page: nat
    ghost var early: bool
    var memoryAllocated: nat
    var next: HeapNode?
    var data: seq<nat>
    var bitmap: seq<bv8>

    ghost predicate Valid()
      reads this
    {
      |data| == DATA_WORDS && |bitmap| == 124
    }

    ghost function Abs(): (n: Node)
      requires Valid()
      reads this
      ensures WellSized(n)
    {
      Node(page, memoryAllocated, Bits(bitmap), data, early)
    }

    /** `memset` over the 4095 bytes of a node at page `page`; byte 4095 keeps `junk`. */
    constructor (page: nat, junk: bv8)
      ensures Valid() && next == null && Abs() == FreshNode(page, junk)
    {
      this.page, early := page, TestBit(junk, 0);
      memoryAllocated, next := 0, null;
      data := seq(DATA_WORDS, i => 0);
      bitmap := seq(124, i => if i == 123 then junk else 0);
      new;
      forall k | 0 <= k < 992
        ensures Bits(bitmap)[k] == FreshNode(page, junk).bits[k]
      {
        assert Bits(bitmap)[k] == TestBit(bitmap[k / 8], k % 8);
        NoBit(k % 8);
      }
    }

    /** The same `memset` on a node in use. */
    method Clear()
      requires Valid()
      modifies this
      ensures Valid() && next == null && Abs() == ClearedNode(old(Abs()))
    {
      ghost var before := bitmap;
      memoryAllocated, next := 0, null;
      data := seq(DATA_WORDS, i => 0);
      bitmap := seq(123, i => 0) + [bitmap[123]];
      early := Bits(before)[984];
      forall k | 0 <= k < 992
        ensures Bits(bitmap)[k] == (k >= 984 && Bits(before)[k])
      {
        assert Bits(bitmap)[k] == TestBit(bitmap[k / 8], k % 8);
        NoBit(k % 8);
      }
    }

    predicate TestWord(word: nat)
      requires Valid() && word < 992
      reads this
      ensures TestWord(word) == Abs().bits[word]
    {
      assert TestBit(bitmap[word / 8], word % 8) == Bits(bitmap)[word];
      TestBit(bitmap[word / 8], word % 8)
    }

    method MarkBits(word: nat, count: nat)
      requires Valid() && word + count <= 992
      modifies this`bitmap
      ensures Valid() && Bits(bitmap) == Fill(old(Bits(bitmap)), word, count, true)
    {
      ghost var before := Bits(bitmap);
      for i := 0 to count
        invariant Valid() && Bits(bitmap) == Fill(before, word, i, true)
      {
        bitmap := SetBitOf((word + i) % 8, bitmap, (word + i) / 8);
        assert Fill(before, word, i + 1, true) == Fill(before, word, i, true)[word + i := true];
      }
    }

    /** Walks the run at `word`; on failure `stop` is where the outer search resumes behind. */
    method Probe(word: nat, count: nat) returns (complete: bool, stop: nat)
      requires Valid() && word < BITMAP_BITS && !TestWord(word)
      ensures complete == RunAt(Abs().bits, word, count)
      ensures !complete ==> word <= stop && forall k :: word <= k <= stop && k < BITMAP_BITS ==> !RunAt(Abs().bits, k, count)
    {
      ghost var bits := Abs().bits;
      for i := 0 to count
        invariant word + i <= GRANTABLE && AllFree(bits, word, i)
      {
        if TestWord(word + i) {
          return false, word + i;
        }
        if word + i > BITMAP_BITS {
          return false, word + i;
        }
      }
      return true, word;
    }

    /** The outer loop over the bitmap. */
    method FindRun(count: nat) returns (word: nat)
      requires Valid()
      ensures word == LowestRun(Abs().bits, 0, count)
    {
      ghost var bits := Abs().bits;
      word := 0;
      while word < BITMAP_BITS
        invariant forall k :: 0 <= k < word && k < BITMAP_BITS ==> !RunAt(bits, k, count)
      {
        if !TestWord(word) {
          var complete, stop := Probe(word, count);
          if complete {
            LowestRunIsUnique(bits, 0, count, word);
            return;
          }
          word := stop;
        }
        word := word + 1;
      }
      LowestRunIsUnique(bits, 0, count, BITMAP_BITS);
      word := BITMAP_BITS;
    }

    /** `heap_allocate_from_node`. */
    method Allocate(length: nat) returns (success: bool, address: nat)
      requires Valid()
      modifies this`memoryAllocated, this`bitmap
      ensures Valid() && success == HasRun(old(Abs()), length)
      ensures (Abs(), address) == TakeFrom(old(Abs()), length)
      ensures !success ==> Abs() == old(Abs()) && address == 0
    {
      var count := WordsFor(length);
      var word := FindRun(count);
      if word == BITMAP_BITS { return false, 0; }
      MarkBits(word, count);
      memoryAllocated := memoryAllocated + 4 * count;
      return true, page * PAGE + HEADER + 4 * word;
    }
  }

  class Heap {
    const pages: PageMap
    var heapList: HeapNode
    ghost var nodes: seq<HeapNode>
    ghost var state: State

    ghost function Repr(): set<object>
      reads this
    {
      {this, pages, pages.bitmap} + set n | n in nodes
    }

    /** The nodes are linked in order, are distinct, and stand for `state`. */
    ghost predicate Valid()
      reads this, pages, pages.bitmap, nodes
    {
      && pages.Valid() && state.used == pages.Used()
      && |nodes| == |state.nodes| > 0 && nodes[0] == heapList
      && (forall i :: 0 <= i < |nodes| ==> nodes[i].Valid() && state.nodes[i] == nodes[i].Abs())
      && (forall i, j :: 0 <= i < |nodes| && 0 <= j < |nodes| && j == i + 1 ==> nodes[i].next == nodes[j])
      && nodes[|nodes| - 1].next == null
      && (forall i, j :: 0 <= i < j < |nodes| ==> nodes[i] != nodes[j])
    }

    /** `heap_init`. */
    constructor (pages: PageMap, junk: bv8)
      requires pages.Valid()
      modifies pages.bitmap
      ensures Valid() && this.pages == pages && fresh(Repr() - {pages, pages.bitmap})
      ensures state == Init(old(pages.Used()), junk)
    {
      hide TestBit, Bits, Fill, LowestRun, LowestFrom, FreshNode;
      this.pages := pages;
      var base := pages.AllocPages(NODE_BYTES);
      var node := new HeapNode(base / PAGE, junk);
      heapList := node;
      nodes := [node];
      state := State(pages.Used(), [node.Abs()]);
    }

    /** One turn of `heap_alloc`'s loop. */
    method TryNode(node: HeapNode, ghost i: nat, length: nat) returns (success: bool, address: nat)
      requires Valid() && i < |nodes| && node == nodes[i]
      modifies this`state, node`memoryAllocated, node`bitmap
      ensures Valid() && nodes == old(nodes) && success == Accepts(old(state).nodes[i], length)
      ensures !success ==> state == old(state)
      ensures success ==> var (n, a) := TakeFrom(old(state).nodes[i], length);
        address == a && state == old(state).(nodes := old(state).nodes[i := n])
    {
      hide TestBit, Bits, Fill, LowestRun, TakeFrom, HasRun;
      if node.memoryAllocated < DATA_BYTES && DATA_BYTES - node.memoryAllocated > length {
        success, address := node.Allocate(length);
        state := state.(nodes := state.nodes[i := node.Abs()]);
        forall k | 0 <= k < |nodes|
          ensures nodes[k].Valid() && state.nodes[k] == nodes[k].Abs()
        {
          assert k != i ==> nodes[k] != node;
        }
        assert forall i, j :: 0 <= i < |nodes| && 0 <= j < |nodes| && j == i + 1 ==> nodes[i].next == nodes[j];
      } else {
        return false, 0;
      }
    }

    /** `heap_alloc`'s loop over the nodes; without success `last` is the last node. */
    method TryNodes(length: nat) returns (success: bool, address: nat, last: HeapNode)
      requires Valid()
      modifies Repr()
      ensures Valid() && nodes == old(nodes)
      ensures var i := FirstAccepting(old(state).nodes, 0, length);
        if i < |nodes|
        then success && (state, address) == (State(old(state).used, old(state).nodes[i := TakeFrom(old(state).nodes[i], length).0]),
                                             TakeFrom(old(state).nodes[i], length).1)
        else !success && state == old(state) && last == nodes[|nodes| - 1]
    {
      hide TestBit, Bits, Fill, LowestRun, FreshNode, HasRun, TakeFrom;
      last := heapList;
      ghost var i := 0;
      while true
        invariant Valid() && nodes == old(nodes) && state == old(state)
        invariant i < |nodes| && last == nodes[i]
        invariant forall k :: 0 <= k < i ==> !Accepts(state.nodes[k], length)
        decreases |nodes| - i
      {
        success, address := TryNode(last, i, length);
        if success {
          FirstAcceptingIsUnique(old(state).nodes, 0, length, i);
          return;
        }
        assert i + 1 < |nodes| ==> last.next == nodes[i + 1];
        if last.next == null {
          FirstAcceptingIsUnique(state.nodes, 0, length, |nodes|);
          return;
        }
        last := last.next;
        i := i + 1;
      }
    }

    method Link(last: HeapNode, node: HeapNode)
      requires Valid() && last == nodes[|nodes| - 1] && node.Valid() && node.next == null && node !in nodes
      modifies this`state, this`nodes, last`next
      ensures Valid() && nodes == old(nodes) + [node]
      ensures state == old(state).(nodes := old(state).nodes + [old(node.Abs())])
    {
      hide TestBit, Bits, Fill, LowestRun, TakeFrom, HasRun, FreshNode;
      last.next := node;
      nodes := nodes + [node];
      state := state.(nodes := state.nodes + [node.Abs()]);
      assert forall k :: 0 <= k < |nodes| ==> nodes[k].Valid() && state.nodes[k] == nodes[k].Abs();
      assert forall i, j :: 0 <= i < |nodes| && 0 <= j < |nodes| && j == i + 1 ==> nodes[i].next == nodes[j];
    }

    /** The new node at address 0 is the first node. */
    method StartAgain(length: nat) returns (address: nat)
      requires Valid()
      modifies this`state, this`nodes, heapList
      ensures Valid() && nodes == [heapList]
      ensures state.used == old(state).used
      ensures var (n, a) := TakeFrom(ClearedNode(old(state).nodes[0]), length); address == a && state.nodes == [n]
    {
      hide TestBit, Bits, Fill, LowestRun, TakeFrom, HasRun, ClearedNode;
      heapList.Clear();
      var success;
      success, address := heapList.Allocate(length);
      nodes := [heapList];
      state := state.(nodes := [heapList.Abs()]);
    }

    /** Clears the page at `base` as a node, serves the request from it and links it unless the
        page allocator had returned null. */
    method Grow(last: HeapNode, base: nat, length: nat, junk: bv8) returns (address: nat)
      requires Valid() && last == nodes[|nodes| - 1]
      modifies this`state, this`nodes, last`next, heapList
      ensures Valid() && fresh(Repr() - old(Repr()))
      ensures state.used == old(state).used
      ensures var again := base == 0 && old(state).nodes[0].page == 0;
        var (n, a) := TakeFrom(if again then ClearedNode(old(state).nodes[0]) else FreshNode(base / PAGE, junk), length);
        address == a && state.nodes == if again then [n] else if base == 0 then old(state).nodes else old(state).nodes + [n]
    {
      hide TestBit, Bits, Fill, LowestRun, TakeFrom, HasRun, FreshNode, ClearedNode;
      if base == 0 && heapList.page == 0 {
        address := StartAgain(length);
        return;
      }
      var node := new HeapNode(base / PAGE, junk);
      var success;
      success, address := node.Allocate(length);
      if base != 0 {
        Link(last, node);
      }
    }

    method HeapAlloc(length: nat, junk: bv8) returns (address: nat)
      requires Valid() && length < WORD
      modifies Repr()
      ensures Valid() && fresh(Repr() - old(Repr()))
      ensures (state, address) == Serve(old(state), length, junk)
      decreases 2
    {
      hide TestBit, Bits, Fill, LowestRun, LowestFrom, FreshNode, HasRun, TakeFrom;
      if length > DATA_BYTES {
        address := this.Kmalloc(length, junk);
        return;
      }
      var success, last;
      success, address, last := TryNodes(length);
      if success { return; }
      var base := this.Kmalloc(NODE_BYTES, junk);
      address := Grow(last, base, length, junk);
    }

    method Kmalloc(length: nat, junk: bv8) returns (address: nat)
      requires Valid() && length < WORD
      modifies Repr()
      ensures Valid() && fresh(Repr() - old(Repr()))
      ensures length > DATA_BYTES ==> nodes == old(nodes)
      ensures (state, address) == Serve(old(state), length, junk)
      decreases if length <= DATA_BYTES then 3 else 1
    {
      if length <= DATA_BYTES {
        address := HeapAlloc(length, junk);
        return;
      }
      address := pages.AllocPages(length);
      state := state.(used := pages.Used());
    }

    /** `kfree`, which knows nothing of nodes. */
    method Kfree(base: nat, length: nat) returns (ok: bool)
      requires Valid() && base / PAGE + length / PAGE <= PAGES
      modifies this`state, pages.bitmap
      ensures Valid() && nodes == old(nodes) && ok == (base % PAGE == 0)
      ensures state == old(state).(used := Kfreed(old(state).used, base, length))
    {
      hide TestBit, Bits, Fill, LowestRun, Kfreed;
      ok := pages.Kfree(base, length);
      state := state.(used := pages.Used());
    }

    /** A client's store to word `word` of the `i`-th node. */
    method StoreWord(node: HeapNode, ghost i: nat, word: nat, value: nat)
      requires Valid() && i < |nodes| && node == nodes[i] && word < DATA_WORDS
      modifies this`state, node`data
      ensures Valid() && nodes == old(nodes)
      ensures var n := old(state).nodes[i];
        state == old(state).(nodes := old(state).nodes[i := n.(words := n.words[word := value])])
    {
      hide TestBit, Bits, Fill, LowestRun;
      node.data := node.data[word := value];
      state := state.(nodes := state.nodes[i := node.Abs()]);
      forall k | 0 <= k < |nodes| ensures nodes[k].Valid() && state.nodes[k] == nodes[k].Abs() {
        assert k != i ==> nodes[k] != node;
      }
      assert forall i, j :: 0 <= i < |nodes| && 0 <= j < |nodes| && j == i + 1 ==> nodes[i].next == nodes[j];
    }
  }
}
