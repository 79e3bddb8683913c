/** Overwriting with texts that fill at least one block. The block loop rounds its count down, so no pass
    meets the NUL: the chain is linked in order through the free blocks, the entry keeps its old count, and
    once the free blocks run out the remaining passes go to block 0. */
module LongWrites {
  import opened CStrings
  import opened Vfs
  import opened FileSystem

  // ---- free blocks -----------------------------------------------------------------------

  ghost function FreeSet(data: seq<DataBlock>): set<nat> {
    set b | START_OF_DATA <= b < |data| && data[b].mark == FREE_BLOCK
  }

  lemma NextFreeIsFree(data: seq<DataBlock>)
    requires START_OF_DATA <= |data|
    ensures FreeSet(data) == {} <==> FreeBlock(data, START_OF_DATA) == |data|
    ensures if FreeSet(data) == {} then NextFree(data) == LAST_BLOCK else NextFree(data) in FreeSet(data)
  {
    var b := FreeBlock(data, START_OF_DATA);
    if b < |data| {
      assert b in FreeSet(data);
    }
  }

  /** The search looks at marks only. */
  lemma SameMarks(data: seq<DataBlock>, data': seq<DataBlock>)
    requires START_OF_DATA <= |data| == |data'| && forall b :: START_OF_DATA <= b < |data| ==> data'[b].mark == data[b].mark
    ensures NextFree(data') == NextFree(data)
  {
    FoundFree(data', START_OF_DATA, FreeBlock(data, START_OF_DATA));
  }

  // ---- one pass --------------------------------------------------------------------------

  /** A pass without a NUL takes its block from the free ones and names the lowest that is left. */
  lemma FullPass(data: seq<DataBlock>, block: nat, text: seq<cchar>)
    requires BlocksShaped(data) && block < |data| && |text| >= DATA_CHARS
    ensures var d := OnePass(data, block, text);
      && FreeSet(d) == FreeSet(data) - {block}
      && (forall b :: 0 <= b < |data| && b != block ==> d[b] == data[b])
      && d[block].mark == data[block].mark - data[block].mark % 256 + USED_BLOCK
      && d[block].next == NextFree(d) && d[block].chars == text[..DATA_CHARS]
  {
    var d := OnePass(data, block, text);
    var mark := data[block].mark - data[block].mark % 256 + USED_BLOCK;
    var marked := data[block := data[block].(mark := mark)];
    SameMarks(marked, d);
    forall b ensures b in FreeSet(d) <==> b in FreeSet(data) - {block} { }
  }

  /** Pass `j` copies part `j` of the text. */
  function Part(text: seq<cchar>, j: nat): seq<cchar>
    requires (j + 1) * DATA_CHARS <= |text|
  {
    text[j * DATA_CHARS..(j + 1) * DATA_CHARS]
  }

  lemma FirstPart(text: seq<cchar>)
    requires |text| >= DATA_CHARS
    ensures Part(text, 0) == text[..DATA_CHARS]
  {
  }

  lemma PartOfRest(text: seq<cchar>, j: nat)
    requires (j + 2) * DATA_CHARS <= |text|
    ensures |Rest(text)| == |text| - DATA_CHARS && Part(Rest(text), j) == Part(text, j + 1)
  {
  }

  // ---- passes on block 0 -----------------------------------------------------------------

  /** Block 0 holds what a pass left there: the low byte of its first word is the used mark. */
  ghost predicate Scribbled(b: DataBlock, chars: seq<cchar>) {
    b.mark % 256 == USED_BLOCK && b.next == LAST_BLOCK && b.chars == chars
  }

  /** With no block free every pass goes to block 0, and the last one stays. */
  lemma {:induction false} PassesOnBootBlock(data: seq<DataBlock>, text: seq<cchar>, count: nat)
    requires BlocksShaped(data) && FreeSet(data) == {} && count > 0 && |text| >= count * DATA_CHARS
    ensures var r := Passes(data, 0, text, count);
      (forall b :: 0 < b < |data| ==> r[b] == data[b]) && Scribbled(r[0], Part(text, count - 1))
    decreases count
  {
    hide OnePass, Passes, Part, FreeSet, NextFree;
    var d := OnePass(data, 0, text);
    FullPass(data, 0, text);
    NextFreeIsFree(d);
    PassesUnfold(data, 0, text, count);
    if count == 1 {
      PassesUnfold(d, NextFree(d), Rest(text), 0);
      assert text[..DATA_CHARS] == Part(text, 0) by { FirstPart(text); }
    } else {
      PartOfRest(text, count - 2);
      PassesOnBootBlock(d, Rest(text), count - 1);
    }
  }

  // ---- all passes ------------------------------------------------------------------------

  /** How many blocks the passes starting on `block` can use: it and the free ones. */
  ghost function Room(data: seq<DataBlock>, block: nat): (n: nat)
    ensures n > 0
  {
    |FreeSet(data) - {block}| + 1
  }

  /** A block as the passes find it. */
  predicate Startable(data: seq<DataBlock>, block: nat) {
    START_OF_DATA <= block < |data| && (data[block].mark == FREE_BLOCK || data[block].mark == USED_BLOCK)
  }

  /** After the first pass the others start on the lowest block that is left, with one block less. */
  lemma FirstPass(data: seq<DataBlock>, block: nat, text: seq<cchar>)
    requires BlocksShaped(data) && Startable(data, block) && |text| >= DATA_CHARS
    ensures var d := OnePass(data, block, text);
      && d[block] == DataBlock(USED_BLOCK, NextFree(d), Part(text, 0))
      && FreeSet(d) == FreeSet(data) - {block}
      && (forall b :: 0 <= b < |data| && b != block ==> d[b] == data[b])
      && if FreeSet(d) == {} then NextFree(d) == LAST_BLOCK && Room(data, block) == 1
         else Startable(d, NextFree(d)) && NextFree(d) in FreeSet(d) && d[NextFree(d)].mark == FREE_BLOCK
              && Room(data, block) == Room(d, NextFree(d)) + 1
  {
    hide OnePass, Part, NextFree;
    var d := OnePass(data, block, text);
    FullPass(data, block, text);
    FirstPart(text);
    NextFreeIsFree(d);
  }

  /** Passes reach nothing but their blocks and, when those run out, block 0. */
  lemma {:induction false} PassesFrame(data: seq<DataBlock>, block: nat, text: seq<cchar>, count: nat)
    requires BlocksShaped(data) && Startable(data, block) && count > 0 && |text| >= count * DATA_CHARS
    ensures var r := Passes(data, block, text, count);
      && (forall b :: 0 < b < |data| && b != block && b !in FreeSet(data) ==> r[b] == data[b])
      && (count <= Room(data, block) ==> r[0] == data[0])
      && (count > Room(data, block) ==> Scribbled(r[0], Part(text, count - 1)))
    decreases count
  {
    hide OnePass, Passes, Part, NextFree, Room, FreeSet, Scribbled;
    var d := OnePass(data, block, text);
    FirstPass(data, block, text);
    PassesUnfold(data, block, text, count);
    if count == 1 {
      PassesUnfold(d, NextFree(d), Rest(text), 0);
    } else {
      PartOfRest(text, count - 2);
      if FreeSet(d) == {} {
        PassesOnBootBlock(d, Rest(text), count - 1);
      } else {
        PassesFrame(d, NextFree(d), Rest(text), count - 1);
      }
    }
  }

  ghost predicate NoChain(r: seq<DataBlock>, b: nat) {
    forall m: nat :: !IsChain(r, b, m)
  }

  lemma FreeIsNoChain(r: seq<DataBlock>, b: nat)
    requires b < |r| && r[b].mark == FREE_BLOCK
    ensures NoChain(r, b)
  {
  }

  lemma NoChainInFront(r: seq<DataBlock>, block: nat)
    requires block < |r| && r[block].next != LAST_BLOCK && NoChain(r, r[block].next)
    ensures NoChain(r, block)
  {
    forall m: nat ensures !IsChain(r, block, m) {
      assert m > 1 ==> !IsChain(r, r[block].next, m - 1);
    }
  }

  /** From `block` on, exactly the blocks of the set are linked, holding the parts of the text in order. */
  ghost predicate Linked(r: seq<DataBlock>, block: nat, blocks: set<nat>, count: nat, text: seq<cchar>) {
    && IsChain(r, block, count) && |text| >= count * DATA_CHARS
    && (forall b :: b in Chain(r, block, count) <==> b in blocks)
    && (forall j :: 0 <= j < count ==> r[Chain(r, block, count)[j]].chars == Part(text, j))
  }

  lemma LinkedAlone(r: seq<DataBlock>, block: nat, text: seq<cchar>)
    requires START_OF_DATA <= block < |r| && |text| >= DATA_CHARS
    requires r[block] == DataBlock(USED_BLOCK, LAST_BLOCK, Part(text, 0))
    ensures Linked(r, block, {block}, 1, text)
  {
    assert Chain(r, block, 1) == [block];
  }

  lemma LinkedInFront(r: seq<DataBlock>, block: nat, blocks: set<nat>, count: nat, text: seq<cchar>)
    requires START_OF_DATA <= block < |r| && |text| >= (count + 1) * DATA_CHARS && r[block].next != LAST_BLOCK
    requires r[block] == DataBlock(USED_BLOCK, r[block].next, Part(text, 0))
    requires Linked(r, r[block].next, blocks, count, Rest(text))
    ensures Linked(r, block, blocks + {block}, count + 1, text)
  {
    var tail, c := Chain(r, r[block].next, count), Chain(r, block, count + 1);
    assert c == [block] + tail;
    hide IsChain, Chain, Part;
    forall j | 0 <= j < count + 1 ensures r[c[j]].chars == Part(text, j) {
      if j > 0 {
        assert c[j] == tail[j - 1];
        PartOfRest(text, j - 1);
      }
    }
  }

  /** The chain that the passes leave. With fewer passes than blocks it runs into a free block, so it is no
      chain of any length; otherwise it takes in every block. */
  lemma {:induction false} PassesChain(data: seq<DataBlock>, block: nat, text: seq<cchar>, count: nat)
    requires BlocksShaped(data) && Startable(data, block) && count > 0 && |text| >= count * DATA_CHARS
    ensures var r, room := Passes(data, block, text, count), Room(data, block);
      if count < room then NoChain(r, block) else Linked(r, block, FreeSet(data) + {block}, room, text)
    decreases count
  {
    hide OnePass, Passes, Part, NextFree, Room, FreeSet, Linked, NoChain, IsChain, Chain;
    var d, r := OnePass(data, block, text), Passes(data, block, text, count);
    FirstPass(data, block, text);
    PassesUnfold(data, block, text, count);
    var next := NextFree(d);
    if FreeSet(d) == {} {
      if count > 1 { PassesOnBootBlock(d, Rest(text), count - 1); } else { PassesUnfold(d, next, Rest(text), 0); }
      LinkedAlone(r, block, text);
      assert FreeSet(data) + {block} == {block};
    } else if count == 1 {
      PassesUnfold(d, next, Rest(text), 0);
      FreeIsNoChain(r, next);
      NoChainInFront(r, block);
    } else {
      PassesFrame(d, next, Rest(text), count - 1);
      PassesChain(d, next, Rest(text), count - 1);
      if count < Room(data, block) {
        NoChainInFront(r, block);
      } else {
        LinkedInFront(r, block, FreeSet(d) + {next}, Room(d, next), text);
        assert FreeSet(d) + {next} + {block} == FreeSet(data) + {block};
      }
    }
  }

  // ---- the whole call --------------------------------------------------------------------

  ghost function Elements(c: seq<nat>): set<nat> {
    set b | b in c
  }

  lemma {:induction false} DistinctSize(c: seq<nat>)
    requires forall i, j :: 0 <= i < j < |c| ==> c[i] != c[j]
    ensures |Elements(c)| == |c|
  {
    if c != [] {
      var rest := c[..|c| - 1];
      DistinctSize(rest);
      assert Elements(c) == Elements(rest) + {c[|c| - 1]};
    }
  }

  lemma OwnBlocks(fs: Fs, i: nat)
    requires i < |fs.fat| && fs.fat[i].inUse == 1 && EntryOk(fs, i)
    ensures var own := FileBlocks(fs, i);
      && fs.fat[i].first in own && |Elements(own)| == fs.fat[i].blocks
      && forall b :: b in own ==> START_OF_DATA <= b < |fs.data| && fs.data[b].mark == USED_BLOCK
  {
    var c := FileBlocks(fs, i);
    ChainHasNoRepeats(fs.data, fs.fat[i].first, fs.fat[i].blocks);
    DistinctSize(c);
    assert c[0] in c;
  }

  lemma JoinSize(a: set<nat>, b: set<nat>, x: nat)
    requires a !! b && x in b
    ensures |a + (b - {x})| + 1 == |a| + |b|
  {
  }

  lemma FreeAfterCut(data: seq<DataBlock>, cut: seq<DataBlock>, first: nat, own: seq<nat>)
    requires |cut| == |data| && first in own && first < |data| && cut[first].mark == USED_BLOCK
    requires forall b :: b in own ==> START_OF_DATA <= b < |data| && data[b].mark == USED_BLOCK
    requires forall b :: 0 <= b < |data| && b != first ==> cut[b] == if b in own then ZeroBlock() else data[b]
    ensures FreeSet(data) !! Elements(own)
    ensures FreeSet(cut) - {first} == FreeSet(data) + (Elements(own) - {first})
    ensures FreeSet(cut) + {first} == FreeSet(data) + Elements(own)
  {
    forall b ensures b in FreeSet(cut) <==> b in FreeSet(data) + (Elements(own) - {first}) { }
  }

  lemma InElements(c: seq<nat>, b: nat)
    ensures b in Elements(c) <==> b in c
  {
  }

  /** Cutting the file adds all its blocks but the first to the free ones. */
  lemma CutFrees(fs: Fs, i: nat)
    requires Shaped(fs) && i < ENTRIES && fs.fat[i].inUse == 1 && EntryOk(fs, i)
    ensures var cut, first, own := Cut(fs, i), fs.fat[i].first, FileBlocks(fs, i);
      && Startable(cut, first) && FreeSet(cut) + {first} == FreeSet(fs.data) + Elements(own)
      && Room(cut, first) == fs.fat[i].blocks + |FreeSet(fs.data)|
  {
    hide Cut, FileBlocks, EntryOk, IsChain, Chain, Cleared, FreeSet, Elements;
    var cut, first, own := Cut(fs, i), fs.fat[i].first, FileBlocks(fs, i);
    CutMarks(fs, i);
    OwnBlocks(fs, i);
    FreeAfterCut(fs.data, cut, first, own);
    assert first in Elements(own) by { InElements(own, first); }
    JoinSize(FreeSet(fs.data), Elements(own), first);
  }

  lemma LongOverwriteFrame(fs: Fs, i: nat, text: seq<cchar>)
    requires Shaped(fs) && i < ENTRIES && fs.fat[i].inUse == 1 && EntryOk(fs, i) && |text| >= DATA_CHARS
    ensures forall b :: 0 < b < |fs.data| && b !in FileBlocks(fs, i) && b !in FreeSet(fs.data) ==>
      OverwriteAt(fs, i, text).data[b] == fs.data[b]
  {
    hide FreeSet, Room, Scribbled, Part, Passes, Cut, FileBlocks, EntryOk, IsChain, Chain, Cleared, OnePass;
    var cut, first, passes := Cut(fs, i), fs.fat[i].first, |text| / DATA_CHARS;
    CutFrees(fs, i);
    CutMarks(fs, i);
    OwnBlocks(fs, i);
    PassesFrame(cut, first, text, passes);
    forall b | 0 < b < |fs.data| && b !in FileBlocks(fs, i) && b !in FreeSet(fs.data)
      ensures OverwriteAt(fs, i, text).data[b] == fs.data[b]
    {
      assert b !in FreeSet(cut) + {first};
    }
  }

  lemma BootBlockKept(fs: Fs, i: nat)
    requires Shaped(fs) && i < ENTRIES && fs.fat[i].inUse == 1 && EntryOk(fs, i)
    ensures Cut(fs, i)[0] == fs.data[0]
  {
    CutMarks(fs, i);
    OwnBlocks(fs, i);
    assert 0 !in FileBlocks(fs, i);
  }

  /** Everything an overwrite with a text of at least one block does. `room` is what the file and the free
      space can hold. */
  lemma LongOverwrite(fs: Fs, i: nat, text: seq<cchar>)
    requires Shaped(fs) && i < ENTRIES && fs.fat[i].inUse == 1 && EntryOk(fs, i) && |text| >= DATA_CHARS
    ensures var fs', first, own := OverwriteAt(fs, i, text), fs.fat[i].first, FileBlocks(fs, i);
      var passes, room := |text| / DATA_CHARS, fs.fat[i].blocks + |FreeSet(fs.data)|;
      && fs'.fat == fs.fat && |fs'.data| == |fs.data| && Shaped(fs')
      && (forall b :: 0 < b < |fs.data| && b !in own && b !in FreeSet(fs.data) ==> fs'.data[b] == fs.data[b])
      && (if passes < room then NoChain(fs'.data, first)
          else Linked(fs'.data, first, FreeSet(fs.data) + Elements(own), room, text))
      && (if passes <= room then fs'.data[0] == fs.data[0] else Scribbled(fs'.data[0], Part(text, passes - 1)))
  {
    hide FreeSet, Room, Linked, NoChain, Scribbled, Part, Passes, Cut, FileBlocks, EntryOk, IsChain, Chain, Cleared, OnePass;
    var cut, first, passes := Cut(fs, i), fs.fat[i].first, |text| / DATA_CHARS;
    CutFrees(fs, i);
    PassesFrame(cut, first, text, passes);
    PassesChain(cut, first, text, passes);
    LongOverwriteFrame(fs, i, text);
    BootBlockKept(fs, i);
  }

  // ---- what it means for the disk ----------------------------------------------------------

  /** The entry still heads a chain of its block count exactly when there were at least as many passes as
      blocks and no block was free. */
  lemma LongOverwriteEntry(fs: Fs, i: nat, text: seq<cchar>)
    requires Shaped(fs) && i < ENTRIES && fs.fat[i].inUse == 1 && EntryOk(fs, i) && |text| >= DATA_CHARS
    ensures EntryOk(OverwriteAt(fs, i, text), i)
       <==> |text| / DATA_CHARS >= fs.fat[i].blocks && FreeBlock(fs.data, START_OF_DATA) == |fs.data|
  {
    hide OverwriteAt, FreeSet, Part, Chain, Scribbled;
    var r, e, passes := OverwriteAt(fs, i, text).data, fs.fat[i], |text| / DATA_CHARS;
    var room := e.blocks + |FreeSet(fs.data)|;
    LongOverwrite(fs, i, text);
    NextFreeIsFree(fs.data);
    if passes >= room && IsChain(r, e.first, e.blocks) {
      ChainIsUnique(r, e.first, room, e.blocks);
    }
  }

  /** Other files keep entry, blocks and characters whatever is written. */
  lemma OverwriteIsLocal(fs: Fs, i: nat, text: seq<cchar>)
    requires Shaped(fs) && ChainsApart(fs) && i < ENTRIES && fs.fat[i].inUse == 1 && EntryOk(fs, i)
    ensures OnlyFile(fs, OverwriteAt(fs, i, text), i)
  {
    if |text| < DATA_CHARS {
      OverwriteEffect(fs, i, text);
    } else {
      hide OverwriteAt, EntryOk, Part, Linked, NoChain, Scribbled, FileBlocks;
      LongOverwrite(fs, i, text);
      var fs' := OverwriteAt(fs, i, text);
      forall k, b | 0 <= k < ENTRIES && k != i && b in FileBlocks(fs, k) ensures fs'.data[b] == fs.data[b] {
        NotElsewhere(fs, i, k, b);
      }
    }
  }

  lemma OverwriteLeavesOthers(fs: Fs, i: nat, text: seq<cchar>, k: nat)
    requires WellFormed(fs) && i < ENTRIES && fs.fat[i].inUse == 1 && EntryOk(fs, i) && k < ENTRIES && k != i
    ensures Unchanged(fs, OverwriteAt(fs, i, text), k)
  {
    OverwriteIsLocal(fs, i, text);
    OthersUnchanged(fs, OverwriteAt(fs, i, text), i, k);
  }

  /** When the entry survives, its chain takes the same blocks as before, in ascending order, and holds the
      parts of the text. */
  lemma FullDisk(fs: Fs, i: nat, text: seq<cchar>)
    requires Shaped(fs) && i < ENTRIES && fs.fat[i].inUse == 1 && EntryOk(fs, i)
    requires |text| / DATA_CHARS >= fs.fat[i].blocks && FreeBlock(fs.data, START_OF_DATA) == |fs.data|
    ensures var fs' := OverwriteAt(fs, i, text);
      && EntryOk(fs', i) && |FileBlocks(fs', i)| == fs.fat[i].blocks
      && (forall b :: b in FileBlocks(fs', i) <==> b in FileBlocks(fs, i))
      && (forall j :: 0 <= j < fs.fat[i].blocks ==>
            (j + 1) * DATA_CHARS <= |text| && fs'.data[FileBlocks(fs', i)[j]].chars == Part(text, j))
  {
    var e := fs.fat[i];
    assert e.blocks > 0;
    LongOverwriteEntry(fs, i, text);
    LongOverwrite(fs, i, text);
    NextFreeIsFree(fs.data);
    var fs' := OverwriteAt(fs, i, text);
    assert FileBlocks(fs', i) == Chain(fs'.data, e.first, e.blocks);
    hide OverwriteAt, FreeSet, Part, Chain, Scribbled, IsChain, FileBlocks;
    forall b ensures b in FileBlocks(fs', i) <==> b in FileBlocks(fs, i) {
      InElements(FileBlocks(fs, i), b);
    }
  }

  lemma FullDiskMarks(fs: Fs, i: nat, text: seq<cchar>)
    requires Shaped(fs) && i < ENTRIES && fs.fat[i].inUse == 1 && EntryOk(fs, i)
    requires |text| / DATA_CHARS >= fs.fat[i].blocks && FreeBlock(fs.data, START_OF_DATA) == |fs.data|
    ensures var fs' := OverwriteAt(fs, i, text);
      && Shaped(fs') && fs'.fat == fs.fat
      && (forall b :: b in FileBlocks(fs', i) <==> b in FileBlocks(fs, i))
      && forall b :: START_OF_DATA <= b < |fs.data| ==>
           (fs'.data[b].mark != FREE_BLOCK <==> b in FileBlocks(fs', i) || (b !in FileBlocks(fs, i) && fs.data[b].mark != FREE_BLOCK))
  {
    assert fs.fat[i].blocks > 0;
    FullDisk(fs, i, text);
    LongOverwrite(fs, i, text);
    NextFreeIsFree(fs.data);
    hide OverwriteAt, IsChain, FileBlocks, Part, Linked, FreeSet, EntryOk, FreeBlock;
  }

  lemma FullDiskStaysWellFormed(fs: Fs, i: nat, text: seq<cchar>)
    requires WellFormed(fs) && i < ENTRIES && fs.fat[i].inUse == 1 && EntryOk(fs, i)
    requires |text| / DATA_CHARS >= fs.fat[i].blocks && FreeBlock(fs.data, START_OF_DATA) == |fs.data|
    ensures WellFormed(OverwriteAt(fs, i, text))
  {
    var fs' := OverwriteAt(fs, i, text);
    assert SlotsOk(fs) && NamesUnique(fs) && ChainsApart(fs) && |fs.fat| == ENTRIES;
    hide WellFormed, SlotsOk, OverwriteAt, Shaped, IsChain, ChainsApart, NamesUnique, OnlyFile, Held, FileBlocks, FreeBlock;
    FullDiskMarks(fs, i, text);
    LongOverwriteEntry(fs, i, text);
    OverwriteIsLocal(fs, i, text);
    forall k | 0 <= k < ENTRIES && k != i && fs.fat[k].inUse == 1 && EntryOk(fs, k)
      ensures NameOf(fs, k) != Text(fs'.fat[i].name)
    {
      NamesDiffer(fs, i, k);
    }
    ChangeKeepsWellFormed(fs, fs', i);
  }

  /** An overwrite with a text of at least one block keeps the disk well formed exactly when there are at
      least as many whole blocks of text as the file has, and no block is free. */
  lemma FullBlockOverwrite(fs: Fs, i: nat, text: seq<cchar>)
    requires WellFormed(fs) && i < ENTRIES && fs.fat[i].inUse == 1 && EntryOk(fs, i) && |text| >= DATA_CHARS
    ensures WellFormed(OverwriteAt(fs, i, text))
       <==> |text| / DATA_CHARS >= fs.fat[i].blocks && FreeBlock(fs.data, START_OF_DATA) == |fs.data|
  {
    LongOverwriteEntry(fs, i, text);
    if |text| / DATA_CHARS >= fs.fat[i].blocks && FreeBlock(fs.data, START_OF_DATA) == |fs.data| {
      FullDiskStaysWellFormed(fs, i, text);
    }
  }
}
