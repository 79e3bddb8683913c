/** The Clement file system of clement_vfs.c: FAT entries in blocks 1 to 8 head chains of data blocks
    from block 9 on. The disk moves 512-byte blocks; blocks are seen through the structures that the
    code lays over them. */
module Vfs {
  import opened CStrings

  const ENTRIES: nat := 256
  const PER_BLOCK: nat := 32
  const START_OF_DATA: nat := 9
  const FREE_BLOCK: nat := 0
  const USED_BLOCK: nat := 9
  const LAST_BLOCK: nat := 0
  const NAME_CHARS: nat := 11
  const DATA_CHARS: nat := 508
  const HALF: nat := 0x1_0000

  type u16 = x: nat | x < HALF

  datatype FatEntry = FatEntry(inUse: nat, name: seq<cchar>, blocks: u16, first: u16)

  /** Bytes 0-1, bytes 2-3 and the rest of a data block. */
  datatype DataBlock = DataBlock(mark: u16, next: u16, chars: seq<cchar>)

  function ZeroEntry(): FatEntry {
    FatEntry(0, seq(NAME_CHARS, i => 0), 0, 0)
  }

  function ZeroBlock(): DataBlock {
    DataBlock(0, 0, seq(DATA_CHARS, i => 0))
  }

  datatype Fs = Fs(fat: seq<FatEntry>, data: seq<DataBlock>)

  ghost predicate BlocksShaped(data: seq<DataBlock>) {
    START_OF_DATA <= |data| <= HALF && forall b :: 0 <= b < |data| ==> |data[b].chars| == DATA_CHARS
  }

  /** Block 0 of `data` is the boot block; blocks 1 to 8 are the FAT, so `fat` stands for them. */
  ghost predicate Shaped(fs: Fs) {
    && |fs.fat| == ENTRIES && BlocksShaped(fs.data)
    && (forall i :: 0 <= i < ENTRIES ==> |fs.fat[i].name| == NAME_CHARS)
  }

  /** A file name that fits an entry: with its NUL among the first eleven characters. */
  predicate GoodName(name: seq<cchar>) {
    Terminated(name) && Length(name) < NAME_CHARS
  }

  // ---- searches ------------------------------------------------------------------------

  predicate IsEntry(e: FatEntry, name: seq<cchar>)
    requires Terminated(name)
  {
    Matches(name, e.name) && e.inUse == 1
  }

  function FindEntry(fat: seq<FatEntry>, from: nat, name: seq<cchar>): (i: nat)
    requires Terminated(name) && from <= |fat|
    ensures from <= i <= |fat| && (i < |fat| ==> IsEntry(fat[i], name))
    ensures forall k :: from <= k < i ==> !IsEntry(fat[k], name)
    decreases |fat| - from
  {
    if from == |fat| || IsEntry(fat[from], name) then from else FindEntry(fat, from + 1, name)
  }

  function FreeEntry(fat: seq<FatEntry>, from: nat): (i: nat)
    requires from <= |fat|
    ensures from <= i <= |fat| && (i < |fat| ==> fat[i].inUse == 0)
    ensures forall k :: from <= k < i ==> fat[k].inUse != 0
    decreases |fat| - from
  {
    if from == |fat| || fat[from].inUse == 0 then from else FreeEntry(fat, from + 1)
  }

  function FreeBlock(data: seq<DataBlock>, from: nat): (b: nat)
    requires from <= |data|
    ensures from <= b <= |data| && (b < |data| ==> data[b].mark == FREE_BLOCK)
    ensures forall k :: from <= k < b ==> data[k].mark != FREE_BLOCK
    decreases |data| - from
  {
    if from == |data| || data[from].mark == FREE_BLOCK then from else FreeBlock(data, from + 1)
  }

  // ---- chains --------------------------------------------------------------------------

  /** `count` used blocks from `first` on, linked, the last of them marked as last. */
  predicate IsChain(data: seq<DataBlock>, first: nat, count: nat)
    decreases count
  {
    && count > 0 && START_OF_DATA <= first < |data| && data[first].mark == USED_BLOCK
    && if count == 1 then data[first].next == LAST_BLOCK
       else data[first].next != LAST_BLOCK && IsChain(data, data[first].next, count - 1)
  }

  function Chain(data: seq<DataBlock>, first: nat, count: nat): (c: seq<nat>)
    requires IsChain(data, first, count)
    ensures |c| == count && c[0] == first
    ensures forall k :: 0 <= k < count ==> START_OF_DATA <= c[k] < |data| && data[c[k]].mark == USED_BLOCK
    decreases count
  {
    [first] + if count == 1 then [] else Chain(data, data[first].next, count - 1)
  }

  lemma {:induction false} ChainLinks(data: seq<DataBlock>, first: nat, count: nat, k: nat)
    requires IsChain(data, first, count) && k < count
    ensures data[Chain(data, first, count)[k]].next == if k + 1 < count then Chain(data, first, count)[k + 1] else LAST_BLOCK
    decreases count
  {
    if k > 0 {
      ChainLinks(data, data[first].next, count - 1, k - 1);
    }
  }

  /** From one block there is only one chain: its end is where the last mark is. */
  lemma {:induction false} ChainIsUnique(data: seq<DataBlock>, b: nat, n: nat, m: nat)
    requires IsChain(data, b, n) && IsChain(data, b, m)
    ensures n == m
    decreases n
  {
    if n > 1 && m > 1 {
      ChainIsUnique(data, data[b].next, n - 1, m - 1);
    }
  }

  lemma {:induction false} ChainTail(data: seq<DataBlock>, first: nat, count: nat, i: nat)
    requires IsChain(data, first, count) && i < count
    ensures IsChain(data, Chain(data, first, count)[i], count - i)
    decreases count
  {
    if i > 0 {
      var rest := Chain(data, data[first].next, count - 1);
      assert Chain(data, first, count) == [first] + rest;
      hide IsChain, Chain;
      ChainTail(data, data[first].next, count - 1, i - 1);
    }
  }

  /** Chains are acyclic. */
  lemma ChainHasNoRepeats(data: seq<DataBlock>, first: nat, count: nat)
    requires IsChain(data, first, count)
    ensures forall i, j :: 0 <= i < j < count ==> Chain(data, first, count)[i] != Chain(data, first, count)[j]
  {
    var c := Chain(data, first, count);
    forall i, j | 0 <= i < j < count ensures c[i] != c[j] {
      ChainTail(data, first, count, i);
      ChainTail(data, first, count, j);
      if c[i] == c[j] {
        ChainIsUnique(data, c[i], count - i, count - j);
      }
    }
  }

  // ---- operations ----------------------------------------------------------------------

  /** The name loop of `mkfile`: up to and including the NUL, over what the slot held. A longer name is cut
      off and gets no NUL. */
  function CopyName(name: seq<cchar>, old_: seq<cchar>): (r: seq<cchar>)
    requires Terminated(name) && |old_| == NAME_CHARS
    ensures |r| == NAME_CHARS && (GoodName(name) ==> Matches(name, r))
  {
    if GoodName(name) then name[..Length(name) + 1] + old_[Length(name) + 1..] else name[..NAME_CHARS]
  }

  function Mkfile(fs: Fs, name: seq<cchar>): (r: (Fs, bool))
    requires Shaped(fs) && Terminated(name)
  {
    var i, b := FreeEntry(fs.fat, 0), FreeBlock(fs.data, START_OF_DATA);
    if FindEntry(fs.fat, 0, name) < ENTRIES || i == ENTRIES || b == |fs.data| then (fs, false)
    else (Fs(fs.fat[i := FatEntry(1, CopyName(name, fs.fat[i].name), 1, b)],
             fs.data[b := fs.data[b].(mark := USED_BLOCK, next := LAST_BLOCK)]), true)
  }

  function Cleared(data: seq<DataBlock>, blocks: seq<nat>): (r: seq<DataBlock>)
    ensures |r| == |data|
  {
    seq(|data|, b requires 0 <= b < |data| => if b in blocks then ZeroBlock() else data[b])
  }

  /** What `delfile` and `write` need of an entry they follow. */
  ghost predicate EntryOk(fs: Fs, i: nat)
    requires i < |fs.fat|
  {
    fs.fat[i].inUse == 1 ==> Terminated(fs.fat[i].name) && IsChain(fs.data, fs.fat[i].first, fs.fat[i].blocks)
  }

  /** `delfile` once the entry is found. */
  ghost function DelfileAt(fs: Fs, i: nat): Fs
    requires Shaped(fs) && i < ENTRIES && fs.fat[i].inUse == 1 && EntryOk(fs, i)
  {
    Fs(fs.fat[i := ZeroEntry()], Cleared(fs.data, Chain(fs.data, fs.fat[i].first, fs.fat[i].blocks)))
  }

  ghost function Delfile(fs: Fs, name: seq<cchar>): (r: (Fs, bool))
    requires Shaped(fs) && Terminated(name) && forall i :: 0 <= i < ENTRIES ==> EntryOk(fs, i)
  {
    var i := FindEntry(fs.fat, 0, name);
    if i == ENTRIES then (fs, false)
    else
      assert EntryOk(fs, i);
      (DelfileAt(fs, i), true)
  }

  /** The data characters after one pass of the write loop: the text and, if it fits, its NUL. */
  function Written(text: seq<cchar>, old_: seq<cchar>): (r: seq<cchar>)
    requires |old_| == DATA_CHARS
    ensures |r| == DATA_CHARS
  {
    if |text| < DATA_CHARS then text + [0] + old_[|text| + 1..] else text[..DATA_CHARS]
  }

  lemma WrittenIs(text: seq<cchar>, old_: seq<cchar>, chars: seq<cchar>)
    requires |old_| == |chars| == DATA_CHARS
    requires forall k :: 0 <= k < DATA_CHARS ==> chars[k] == if k < |text| then text[k] else if k == |text| then 0 else old_[k]
    ensures chars == Written(text, old_)
  {
  }

  /** What `find_free_block` returns. */
  function NextFree(data: seq<DataBlock>): (b: nat)
    requires START_OF_DATA <= |data|
    ensures b < |data|
  {
    var b := FreeBlock(data, START_OF_DATA);
    if b == |data| then LAST_BLOCK else b
  }

  /** One pass of the block loop of `write`, on block `block` with what is left of the text. Without a NUL
      among the characters copied, the next-block field names the free block that the next pass would use. */
  function OnePass(data: seq<DataBlock>, block: nat, text: seq<cchar>): (r: seq<DataBlock>)
    requires BlocksShaped(data) && block < |data|
    ensures |r| == |data| && BlocksShaped(r)
  {
    var mark := data[block].mark - data[block].mark % 256 + USED_BLOCK;
    var marked := data[block := data[block].(mark := mark)];
    var next := if |text| < DATA_CHARS then LAST_BLOCK else NextFree(marked);
    data[block := DataBlock(mark, next, Written(text, data[block].chars))]
  }

  function Rest(text: seq<cchar>): seq<cchar> {
    if |text| < DATA_CHARS then [] else text[DATA_CHARS..]
  }

  lemma RestDrops(text: seq<cchar>, at: nat)
    requires at + DATA_CHARS <= |text|
    ensures Rest(text[at..]) == text[at + DATA_CHARS..]
  {
  }

  function Passes(data: seq<DataBlock>, block: nat, text: seq<cchar>, count: nat): (r: seq<DataBlock>)
    requires BlocksShaped(data) && block < |data|
    ensures |r| == |data| && BlocksShaped(r)
    decreases count
  {
    if count == 0 then data
    else
      var d := OnePass(data, block, text);
      Passes(d, NextFree(d), Rest(text), count - 1)
  }

  lemma PassesUnfold(data: seq<DataBlock>, block: nat, text: seq<cchar>, count: nat)
    requires BlocksShaped(data) && block < |data|
    ensures Passes(data, block, text, count)
         == if count == 0 then data
            else var d := OnePass(data, block, text); Passes(d, NextFree(d), Rest(text), count - 1)
  {
  }

  /** The block count rounds down. */
  function PassCount(text: seq<cchar>): (n: nat)
    ensures n > 0
  {
    if |text| < DATA_CHARS then 1 else |text| / DATA_CHARS
  }

  /** The data blocks once `write` has cut the file behind its first block. */
  ghost function Cut(fs: Fs, i: nat): (r: seq<DataBlock>)
    requires Shaped(fs) && i < ENTRIES && fs.fat[i].inUse == 1 && EntryOk(fs, i)
    ensures |r| == |fs.data| && BlocksShaped(r)
  {
    var e := fs.fat[i];
    var freed := Cleared(fs.data, Chain(fs.data, e.first, e.blocks)[1..]);
    freed[e.first := freed[e.first].(next := LAST_BLOCK)]
  }

  /** `clement_vfs_write` in overwrite mode, once the entry is found. Only a NUL among the characters copied
      makes it update the entry. */
  ghost function OverwriteAt(fs: Fs, i: nat, text: seq<cchar>): Fs
    requires Shaped(fs) && i < ENTRIES && fs.fat[i].inUse == 1 && EntryOk(fs, i)
  {
    Fs(if |text| < DATA_CHARS then fs.fat[i := fs.fat[i].(blocks := 1)] else fs.fat,
       Passes(Cut(fs, i), fs.fat[i].first, text, PassCount(text)))
  }

  ghost function Overwrite(fs: Fs, name: seq<cchar>, text: seq<cchar>): (r: (Fs, bool))
    requires Shaped(fs) && Terminated(name)
    requires forall i :: 0 <= i < ENTRIES ==> EntryOk(fs, i)
  {
    var i := FindEntry(fs.fat, 0, name);
    if i == ENTRIES then (fs, false)
    else
      assert EntryOk(fs, i);
      (OverwriteAt(fs, i, text), true)
  }

  lemma SuffixText(buffer: seq<cchar>, at: nat)
    requires Terminated(buffer) && at <= Length(buffer)
    ensures Terminated(buffer[at..]) && Length(buffer[at..]) == Length(buffer) - at
    ensures Text(buffer[at..]) == Text(buffer)[at..]
  {
    hide Length;
    LengthIs(buffer[at..], Length(buffer) - at);
  }

  lemma FoundEntry(fat: seq<FatEntry>, from: nat, name: seq<cchar>, i: nat)
    requires Terminated(name) && from <= i <= |fat| && (i < |fat| ==> IsEntry(fat[i], name))
    requires forall k :: from <= k < i ==> !IsEntry(fat[k], name)
    ensures FindEntry(fat, from, name) == i
  {
  }

  /** Cutting the chain behind its first block and freeing the rest, in the order the code does it. */
  lemma TruncateAndFree(data: seq<DataBlock>, first: nat, count: nat)
    requires IsChain(data, first, count)
    ensures var rest := Chain(data, first, count)[1..];
      Cleared(data[first := data[first].(next := LAST_BLOCK)], rest)
      == Cleared(data, rest)[first := data[first].(next := LAST_BLOCK)]
      && Cleared(data, rest)[first] == data[first]
  {
    ChainHasNoRepeats(data, first, count);
    var c := Chain(data, first, count);
    assert first !in c[1..] by {
      assert forall k :: 1 <= k < count ==> c[0] != c[k];
    }
  }

  lemma FoundFreeEntry(fat: seq<FatEntry>, from: nat, i: nat)
    requires from <= i <= |fat| && (i < |fat| ==> fat[i].inUse == 0) && forall k :: from <= k < i ==> fat[k].inUse != 0
    ensures FreeEntry(fat, from) == i
  {
  }

  lemma FoundFree(data: seq<DataBlock>, from: nat, b: nat)
    requires from <= b <= |data| && (b < |data| ==> data[b].mark == FREE_BLOCK)
    requires forall k :: from <= k < b ==> data[k].mark != FREE_BLOCK
    ensures FreeBlock(data, from) == b
  {
  }

  predicate InFat(b: nat) {
    1 <= b < START_OF_DATA
  }

  // ---- the code ------------------------------------------------------------------------

  class Disk {
    const fat: array<FatEntry>
    const data: array<DataBlock>

    ghost function Abs(): Fs
      reads fat, data
    {
      Fs(fat[..], data[..])
    }

    ghost predicate Valid()
      reads fat, data
    {
      fat.Length == ENTRIES && Shaped(Abs())
    }

    /** `ata_read` and `ata_write` of one FAT block. */
    method ReadFatBlock(n: nat) returns (entries: seq<FatEntry>)
      requires fat.Length == ENTRIES && n < ENTRIES / PER_BLOCK
      ensures entries == fat[PER_BLOCK * n..PER_BLOCK * (n + 1)]
    {
      entries := fat[PER_BLOCK * n..PER_BLOCK * (n + 1)];
    }

    method WriteFatBlock(n: nat, entries: seq<FatEntry>)
      requires fat.Length == ENTRIES && n < ENTRIES / PER_BLOCK && |entries| == PER_BLOCK
      modifies fat
      ensures fat[..] == old(fat[..PER_BLOCK * n]) + entries + old(fat[PER_BLOCK * (n + 1)..])
    {
      forall k | 0 <= k < PER_BLOCK { fat[PER_BLOCK * n + k] := entries[k]; }
    }

    /** Comparing the name with every slot stays inside the slot, as it does for every `GoodName`. */
    ghost predicate Searchable(name: seq<cchar>)
      reads fat
    {
      Terminated(name) && forall i :: 0 <= i < fat.Length ==> Comparable(name, fat[i].name)
    }

    /** `find_fat_entry`; `ENTRIES` stands for its -1. */
    method FindFatEntry(name: seq<cchar>) returns (i: nat)
      requires Valid() && Searchable(name)
      ensures i == FindEntry(fat[..], 0, name)
    {
      var table := fat[..];
      i := 0;
      while i < ENTRIES
        invariant i <= ENTRIES && forall k :: 0 <= k < i ==> !IsEntry(table[k], name)
      {
        var r := Strcmp(name, table[i].name);
        if r == 0 && table[i].inUse == 1 { break; }
        i := i + 1;
      }
      FoundEntry(table, 0, name, i);
    }

    method FindFreeBlock() returns (b: nat)
      requires Valid()
      ensures b == NextFree(data[..])
    {
      b := START_OF_DATA;
      while b < data.Length
        invariant START_OF_DATA <= b <= data.Length
        invariant forall k :: START_OF_DATA <= k < b ==> data[k].mark != FREE_BLOCK
      {
        if data[b].mark == FREE_BLOCK {
          FoundFree(data[..], START_OF_DATA, b);
          return;
        }
        b := b + 1;
      }
      FoundFree(data[..], START_OF_DATA, b);
      return 0;
    }

    method CopyChars(name: seq<cchar>, old_: seq<cchar>) returns (r: seq<cchar>)
      requires Terminated(name) && |old_| == NAME_CHARS
      ensures r == CopyName(name, old_)
    {
      ghost var n := Length(name);
      r := old_;
      for i := 0 to NAME_CHARS
        invariant i <= n && |r| == NAME_CHARS
        invariant forall k :: 0 <= k < NAME_CHARS ==> r[k] == if k < i then name[k] else old_[k]
      {
        r := r[i := name[i]];
        if name[i] == 0 { return; }
      }
    }

    method DoMkfile(name: seq<cchar>) returns (ok: bool)
      requires Valid() && Searchable(name)
      modifies fat, data
      ensures (Abs(), ok) == Mkfile(old(Abs()), name)
    {
      var table := fat[..];
      var found := FindFatEntry(name);
      if found != ENTRIES { return false; }
      var i := 0;
      while i < ENTRIES && table[i].inUse != 0
        invariant i <= ENTRIES && forall k :: 0 <= k < i ==> table[k].inUse != 0
      {
        i := i + 1;
      }
      FoundFreeEntry(table, 0, i);
      if i == ENTRIES { return false; }
      var copied := CopyChars(name, table[i].name);
      var b := FindFreeBlock();
      if b == 0 { return false; }
      data[b] := data[b].(mark := USED_BLOCK, next := LAST_BLOCK);
      fat[i] := FatEntry(1, copied, 1, b % HALF);
      return true;
    }

    /** `delete_data_block`; blocks 1 to 8 are the FAT. */
    method DeleteDataBlock(b: nat) returns (ok: bool)
      requires Valid()
      modifies fat, data
      ensures Valid() && ok == (b < data.Length)
      ensures data[..] == if ok && !InFat(b) then old(data[..])[b := ZeroBlock()] else old(data[..])
      ensures forall i :: 0 <= i < ENTRIES ==>
        fat[i] == if InFat(b) && i / PER_BLOCK == b - 1 then ZeroEntry() else old(fat[i])
    {
      if b >= data.Length { return false; }
      if 1 <= b < START_OF_DATA {
        WriteFatBlock(b - 1, seq(PER_BLOCK, i => ZeroEntry()));
      } else {
        data[b] := ZeroBlock();
      }
      return true;
    }

    /** The loop that follows a file's chain. */
    method CollectChain(first: nat, count: nat) returns (blocks: seq<nat>)
      requires IsChain(data[..], first, count)
      ensures blocks == Chain(data[..], first, count)
    {
      assert count > 0;
      hide IsChain, Chain;
      ghost var c := Chain(data[..], first, count);
      blocks := [first];
      for i := 0 to count
        invariant |blocks| == if i < count then i + 1 else count
        invariant blocks == c[..|blocks|]
      {
        assert blocks[i] == c[i];
        ChainLinks(data[..], first, count, i);
        var block := data[blocks[i]];
        if block.next == LAST_BLOCK { break; }
        blocks := blocks + [block.next];
      }
    }

    method DeleteBlocks(blocks: seq<nat>)
      requires Valid() && forall k :: 0 <= k < |blocks| ==> START_OF_DATA <= blocks[k] < data.Length
      modifies fat, data
      ensures Valid() && data[..] == Cleared(old(data[..]), blocks) && fat[..] == old(fat[..])
    {
      ghost var before := data[..];
      assert Cleared(before, blocks[..0]) == before;
      for i := 0 to |blocks|
        invariant data[..] == Cleared(before, blocks[..i]) && fat[..] == old(fat[..])
      {
        var _ := DeleteDataBlock(blocks[i]);
        assert blocks[..i + 1] == blocks[..i] + [blocks[i]];
      }
      assert blocks[..|blocks|] == blocks;
    }

    method DeleteFatEntry(name: seq<cchar>) returns (ok: bool)
      requires Valid() && Searchable(name)
      modifies fat
      ensures var i := FindEntry(old(fat[..]), 0, name);
        ok == (i < ENTRIES) && fat[..] == if ok then old(fat[..])[i := ZeroEntry()] else old(fat[..])
    {
      var i := FindFatEntry(name);
      if i == ENTRIES { return false; }
      var entries := ReadFatBlock(i / PER_BLOCK);
      WriteFatBlock(i / PER_BLOCK, entries[i % PER_BLOCK := ZeroEntry()]);
      return true;
    }

    method DoDelfile(name: seq<cchar>) returns (ok: bool)
      requires Valid() && Searchable(name) && forall i :: 0 <= i < ENTRIES ==> EntryOk(Abs(), i)
      modifies fat, data
      ensures (Abs(), ok) == Delfile(old(Abs()), name)
    {
      hide Cleared, Chain, IsChain, FindEntry, Matches;
      var i := FindFatEntry(name);
      if i == ENTRIES { return false; }
      assert EntryOk(Abs(), i);
      var entries := ReadFatBlock(i / PER_BLOCK);
      var e := entries[i % PER_BLOCK];
      assert e == fat[i];
      var blocks := CollectChain(e.first, e.blocks);
      DeleteBlocks(blocks);
      ok := DeleteFatEntry(name);
    }

    /** The character loop of `write` over one block. */
    method CopyText(buffer: seq<cchar>, old_: seq<cchar>) returns (chars: seq<cchar>, ended: bool)
      requires Terminated(buffer) && |old_| == DATA_CHARS
      ensures chars == Written(Text(buffer), old_) && ended == (Length(buffer) < DATA_CHARS)
    {
      hide Written;
      ghost var n := Length(buffer);
      chars := old_;
      for i := 0 to DATA_CHARS
        invariant i <= n && |chars| == DATA_CHARS
        invariant forall k :: 0 <= k < DATA_CHARS ==> chars[k] == if k < i then buffer[k] else old_[k]
      {
        chars := chars[i := buffer[i]];
        if buffer[i] == 0 {
          WrittenIs(Text(buffer), old_, chars);
          return chars, true;
        }
      }
      WrittenIs(Text(buffer), old_, chars);
      ended := false;
    }

    /** Overwriting starts by cutting the chain behind its first block and freeing the others. */
    method KeepFirstBlock(head: nat, count: nat) returns (first: nat)
      requires Valid() && IsChain(data[..], head, count)
      modifies fat, data
      ensures Valid() && first == head && fat[..] == old(fat[..])
      ensures data[..] == Cleared(old(data[..]), Chain(old(data[..]), head, count)[1..])
                            [head := old(data[head]).(next := LAST_BLOCK)]
      ensures Cleared(old(data[..]), Chain(old(data[..]), head, count)[1..])[head] == old(data[head])
    {
      var blocks := CollectChain(head, count);
      TruncateAndFree(data[..], head, count);
      first := blocks[0];
      data[first] := data[first].(next := LAST_BLOCK);
      DeleteBlocks(blocks[1..]);
    }

    /** One pass of the block loop. */
    method WritePass(i: nat, block: nat, buffer: seq<cchar>, entries: seq<FatEntry>, newBlocks: nat) returns (ended: bool)
      requires Valid() && Terminated(buffer) && i < ENTRIES && block < data.Length && newBlocks < HALF
      requires entries == fat[PER_BLOCK * (i / PER_BLOCK)..PER_BLOCK * (i / PER_BLOCK + 1)]
      modifies fat, data
      ensures Valid() && ended == (Length(buffer) < DATA_CHARS)
      ensures fat[..] == if ended then old(fat[..])[i := old(fat[i]).(blocks := newBlocks)] else old(fat[..])
      ensures data[..] == OnePass(old(data[..]), block, Text(buffer))
    {
      hide Written, FreeBlock, Text, Length;
      var dat := data[block];
      dat := dat.(mark := dat.mark - dat.mark % 256 + USED_BLOCK);
      data[block] := dat;
      ghost var marked := data[..];
      var next := FindFreeBlock();
      var chars;
      chars, ended := CopyText(buffer, dat.chars);
      if ended {
        next := LAST_BLOCK;
        WriteFatBlock(i / PER_BLOCK, entries[i % PER_BLOCK := entries[i % PER_BLOCK].(blocks := newBlocks)]);
      }
      data[block] := DataBlock(dat.mark, next, chars);
      assert data[..] == old(data[..])[block := data[block]];
    }

    /** The block loop. */
    method WritePasses(i: nat, first: nat, buffer: seq<cchar>, entries: seq<FatEntry>)
      requires Valid() && Terminated(buffer) && i < ENTRIES && first < data.Length
      requires entries == fat[PER_BLOCK * (i / PER_BLOCK)..PER_BLOCK * (i / PER_BLOCK + 1)]
      modifies fat, data
      ensures fat[..] == if Length(buffer) < DATA_CHARS then old(fat[..])[i := old(fat[i]).(blocks := 1)] else old(fat[..])
      ensures data[..] == Passes(old(data[..]), first, Text(buffer), PassCount(Text(buffer)))
    {
      hide OnePass, FreeBlock, NextFree, Passes, Rest, Text, Length;
      ghost var text := Text(buffer);
      var len := Strlen(buffer);
      var newBlocks := len / DATA_CHARS;
      if newBlocks == 0 { newBlocks := 1; }
      var at := 0;
      ghost var rest := text;
      for j := 0 to newBlocks
        invariant Valid() && (j == 0 || len >= DATA_CHARS ==> fat[..] == old(fat[..]))
        invariant j < newBlocks ==> at == DATA_CHARS * j && rest == text[at..]
        invariant j == newBlocks && len < DATA_CHARS ==> fat[..] == old(fat[..])[i := old(fat[i]).(blocks := 1)]
        invariant Passes(data[..], if j == 0 then first else NextFree(data[..]), rest, newBlocks - j)
               == Passes(old(data[..]), first, text, newBlocks)
      {
        var block := FindFreeBlock();
        if j == 0 { block := first; }
        SuffixText(buffer, at);
        PassesUnfold(data[..], block, rest, newBlocks - j);
        var ended := WritePass(i, block, buffer[at..], entries, newBlocks % HALF);
        rest := Rest(rest);
        if !ended {
          RestDrops(text, at);
          at := at + DATA_CHARS;
        }
      }
      PassesUnfold(data[..], NextFree(data[..]), rest, 0);
    }

    method DoOverwrite(name: seq<cchar>, buffer: seq<cchar>) returns (ok: bool)
      requires Valid() && Searchable(name) && Terminated(buffer)
      requires forall i :: 0 <= i < ENTRIES ==> EntryOk(Abs(), i)
      modifies fat, data
      ensures (Abs(), ok) == Overwrite(old(Abs()), name, Text(buffer))
    {
      hide Cleared, Passes, FreeBlock, FindEntry, Matches;
      var i := FindFatEntry(name);
      if i == ENTRIES { return false; }
      assert EntryOk(Abs(), i);
      var entries := ReadFatBlock(i / PER_BLOCK);
      var e := entries[i % PER_BLOCK];
      assert e == fat[i];
      ghost var freed := Cleared(data[..], Chain(data[..], e.first, e.blocks)[1..]);
      var first := KeepFirstBlock(e.first, e.blocks);
      assert data[..] == freed[first := freed[first].(next := LAST_BLOCK)];
      WritePasses(i, first, buffer, entries);
      return true;
    }
  }
}
