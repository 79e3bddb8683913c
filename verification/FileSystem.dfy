/** The disk stays well formed under every operation, and what the operations do to the files on it. */
module FileSystem {
  import opened CStrings
  import opened Vfs

  /** The blocks of the file at FAT slot `i`, none when the slot is not in use. */
  ghost function FileBlocks(fs: Fs, i: nat): (c: seq<nat>)
    requires i < |fs.fat|
    ensures forall b :: b in c ==> START_OF_DATA <= b < |fs.data| && fs.data[b].mark == USED_BLOCK
  {
    if fs.fat[i].inUse == 1 && IsChain(fs.data, fs.fat[i].first, fs.fat[i].blocks)
    then Chain(fs.data, fs.fat[i].first, fs.fat[i].blocks)
    else []
  }

  ghost predicate Held(fs: Fs, b: nat) {
    exists i :: 0 <= i < |fs.fat| && b in FileBlocks(fs, i)
  }

  ghost predicate SlotsOk(fs: Fs)
    requires |fs.fat| == ENTRIES
  {
    forall i :: 0 <= i < ENTRIES ==> fs.fat[i].inUse <= 1 && EntryOk(fs, i)
  }

  ghost predicate Apart(c: seq<nat>, d: seq<nat>) {
    forall b :: b in c ==> b !in d
  }

  ghost predicate ChainsApart(fs: Fs)
    requires |fs.fat| == ENTRIES
  {
    forall i, j :: 0 <= i < j < ENTRIES ==> Apart(FileBlocks(fs, i), FileBlocks(fs, j))
  }

  ghost function NameOf(fs: Fs, i: nat): seq<cchar>
    requires i < |fs.fat| && fs.fat[i].inUse == 1 && EntryOk(fs, i)
  {
    Text(fs.fat[i].name)
  }

  ghost predicate NamesUnique(fs: Fs)
    requires |fs.fat| == ENTRIES && SlotsOk(fs)
  {
    forall i, j :: 0 <= i < j < ENTRIES && fs.fat[i].inUse == 1 && fs.fat[j].inUse == 1 ==> NameOf(fs, i) != NameOf(fs, j)
  }

  /** Chains of in-use entries end in the last mark after `blocks` blocks, share none, and hold exactly
      the blocks marked used; names are unique. */
  ghost predicate WellFormed(fs: Fs) {
    && Shaped(fs) && SlotsOk(fs) && ChainsApart(fs) && NamesUnique(fs)
    && forall b :: START_OF_DATA <= b < |fs.data| ==> (fs.data[b].mark != FREE_BLOCK <==> Held(fs, b))
  }

  // ---- changing one file -----------------------------------------------------------------

  lemma {:induction false} ChainFrame(data: seq<DataBlock>, data': seq<DataBlock>, first: nat, count: nat)
    requires IsChain(data, first, count) && |data'| == |data|
    requires forall b :: b in Chain(data, first, count) ==> data'[b].mark == data[b].mark && data'[b].next == data[b].next
    ensures IsChain(data', first, count) && Chain(data', first, count) == Chain(data, first, count)
    decreases count
  {
    var c := Chain(data, first, count);
    assert first == c[0];
    if count > 1 {
      var rest := Chain(data, data[first].next, count - 1);
      assert c == [first] + rest;
      ChainFrame(data, data', data[first].next, count - 1);
    }
  }

  /** `fs'` differs from `fs` only in slot `i` and in blocks that no other file holds. */
  ghost predicate OnlyFile(fs: Fs, fs': Fs, i: nat) {
    && |fs.fat| == |fs'.fat| == ENTRIES && i < ENTRIES && |fs.data| == |fs'.data|
    && (forall k :: 0 <= k < ENTRIES && k != i ==> fs'.fat[k] == fs.fat[k])
    && (forall k, b :: 0 <= k < ENTRIES && k != i && b in FileBlocks(fs, k) ==> fs'.data[b] == fs.data[b])
  }

  lemma OtherFilesStay(fs: Fs, fs': Fs, i: nat, k: nat)
    requires OnlyFile(fs, fs', i) && k < ENTRIES && k != i && EntryOk(fs, k)
    ensures FileBlocks(fs', k) == FileBlocks(fs, k) && EntryOk(fs', k)
  {
    if fs.fat[k].inUse == 1 {
      assert FileBlocks(fs, k) == Chain(fs.data, fs.fat[k].first, fs.fat[k].blocks);
      ChainFrame(fs.data, fs'.data, fs.fat[k].first, fs.fat[k].blocks);
    }
  }

  /** The other slots kept their chains. */
  ghost predicate OthersKept(fs: Fs, fs': Fs, i: nat) {
    && |fs.fat| == |fs'.fat| == ENTRIES && |fs.data| == |fs'.data|
    && forall k :: 0 <= k < ENTRIES && k != i ==>
         fs'.fat[k] == fs.fat[k] && EntryOk(fs', k) && FileBlocks(fs', k) == FileBlocks(fs, k)
  }

  lemma AllOthersKept(fs: Fs, fs': Fs, i: nat)
    requires Shaped(fs) && SlotsOk(fs) && OnlyFile(fs, fs', i)
    ensures OthersKept(fs, fs', i)
  {
    forall k | 0 <= k < ENTRIES && k != i ensures FileBlocks(fs', k) == FileBlocks(fs, k) && EntryOk(fs', k) {
      assert EntryOk(fs, k);
      OtherFilesStay(fs, fs', i, k);
    }
  }

  lemma ChainsStayApart(fs: Fs, fs': Fs, i: nat)
    requires OthersKept(fs, fs', i) && i < ENTRIES && ChainsApart(fs)
    requires forall b :: b in FileBlocks(fs', i) ==> b in FileBlocks(fs, i) || fs.data[b].mark == FREE_BLOCK
    ensures ChainsApart(fs')
  {
    hide FileBlocks;
    forall j, k | 0 <= j < k < ENTRIES ensures Apart(FileBlocks(fs', j), FileBlocks(fs', k)) {
      assert Apart(FileBlocks(fs, j), FileBlocks(fs, k));
    }
  }

  lemma MarksFollow(fs: Fs, fs': Fs, i: nat, b: nat)
    requires OthersKept(fs, fs', i) && i < ENTRIES && ChainsApart(fs)
    requires START_OF_DATA <= b < |fs.data| && (fs.data[b].mark != FREE_BLOCK <==> Held(fs, b))
    ensures Held(fs', b) <==> b in FileBlocks(fs', i) || (b !in FileBlocks(fs, i) && fs.data[b].mark != FREE_BLOCK)
  {
    hide FileBlocks;
    if Held(fs', b) && b !in FileBlocks(fs', i) {
      var k :| 0 <= k < ENTRIES && b in FileBlocks(fs', k);
      assert b in FileBlocks(fs, k);
      assert if i < k then Apart(FileBlocks(fs, i), FileBlocks(fs, k)) else Apart(FileBlocks(fs, k), FileBlocks(fs, i));
    }
    if b !in FileBlocks(fs, i) && Held(fs, b) {
      var k :| 0 <= k < ENTRIES && b in FileBlocks(fs, k);
      assert b in FileBlocks(fs', k);
    }
  }

  lemma NamesStayUnique(fs: Fs, fs': Fs, i: nat)
    requires OthersKept(fs, fs', i) && i < ENTRIES && SlotsOk(fs) && SlotsOk(fs') && NamesUnique(fs)
    requires fs'.fat[i].inUse == 1 ==>
      forall k :: 0 <= k < ENTRIES && k != i && fs.fat[k].inUse == 1 && EntryOk(fs, k) ==> NameOf(fs, k) != Text(fs'.fat[i].name)
    ensures NamesUnique(fs')
  {
    hide FileBlocks, IsChain;
    forall j, k | 0 <= j < k < ENTRIES && fs'.fat[j].inUse == 1 && fs'.fat[k].inUse == 1
      ensures NameOf(fs', j) != NameOf(fs', k)
    {
      assert EntryOk(fs, j) && EntryOk(fs, k);
    }
  }

  /** A change to one file keeps the disk well formed when the file's new chain takes only its own old
      blocks and free ones, the marks follow, and its name clashes with no other. */
  lemma ChangeKeepsWellFormed(fs: Fs, fs': Fs, i: nat)
    requires WellFormed(fs) && OnlyFile(fs, fs', i) && Shaped(fs')
    requires fs'.fat[i].inUse <= 1 && EntryOk(fs', i)
    requires forall b :: b in FileBlocks(fs', i) ==> b in FileBlocks(fs, i) || fs.data[b].mark == FREE_BLOCK
    requires forall b :: START_OF_DATA <= b < |fs.data| ==>
      (fs'.data[b].mark != FREE_BLOCK <==> b in FileBlocks(fs', i) || (b !in FileBlocks(fs, i) && fs.data[b].mark != FREE_BLOCK))
    requires fs'.fat[i].inUse == 1 ==>
      forall k :: 0 <= k < ENTRIES && k != i && fs.fat[k].inUse == 1 && EntryOk(fs, k) ==> NameOf(fs, k) != Text(fs'.fat[i].name)
    ensures WellFormed(fs')
  {
    hide FileBlocks, EntryOk, Shaped;
    AllOthersKept(fs, fs', i);
    ChainsStayApart(fs, fs', i);
    forall b | START_OF_DATA <= b < |fs.data| ensures fs'.data[b].mark != FREE_BLOCK <==> Held(fs', b) {
      MarksFollow(fs, fs', i, b);
    }
    assert SlotsOk(fs');
    NamesStayUnique(fs, fs', i);
  }

  // ---- the operations --------------------------------------------------------------------

  /** A block of file `i` is in no other file. */
  lemma NotElsewhere(fs: Fs, i: nat, k: nat, b: nat)
    requires |fs.fat| == ENTRIES && ChainsApart(fs) && i < ENTRIES && k < ENTRIES && i != k
    ensures !(b in FileBlocks(fs, i) && b in FileBlocks(fs, k))
  {
    assert if i < k then Apart(FileBlocks(fs, i), FileBlocks(fs, k)) else Apart(FileBlocks(fs, k), FileBlocks(fs, i));
  }

  /** Changing one slot and blocks of that slot's file alone is a change to that file only. */
  lemma LocalChange(fs: Fs, fs': Fs, i: nat)
    requires |fs.fat| == ENTRIES && ChainsApart(fs) && i < ENTRIES && |fs.data| == |fs'.data|
    requires |fs'.fat| == ENTRIES && fs'.fat == fs.fat[i := fs'.fat[i]]
    requires forall b :: 0 <= b < |fs.data| && b !in FileBlocks(fs, i) ==> fs'.data[b] == fs.data[b]
    ensures OnlyFile(fs, fs', i)
  {
    forall k, b | 0 <= k < ENTRIES && k != i && b in FileBlocks(fs, k) ensures fs'.data[b] == fs.data[b] {
      NotElsewhere(fs, i, k, b);
    }
  }

  lemma NewNameIsNew(fs: Fs, name: seq<cchar>, i: nat, k: nat)
    requires Shaped(fs) && GoodName(name) && FindEntry(fs.fat, 0, name) == ENTRIES
    requires i < ENTRIES && k < ENTRIES && fs.fat[k].inUse == 1 && EntryOk(fs, k)
    ensures Terminated(CopyName(name, fs.fat[i].name)) && Text(CopyName(name, fs.fat[i].name)) == Text(name)
    ensures NameOf(fs, k) != Text(name)
  {
    var copied := CopyName(name, fs.fat[i].name);
    assert copied[Length(name)] == name[Length(name)] == 0;
    MatchesIsEquality(name, copied);
    MatchesIsEquality(name, fs.fat[k].name);
    assert !IsEntry(fs.fat[k], name);
  }

  lemma CopyReadsBack(name: seq<cchar>, old_: seq<cchar>)
    requires GoodName(name) && |old_| == NAME_CHARS
    ensures Terminated(CopyName(name, old_)) && Text(CopyName(name, old_)) == Text(name)
  {
    var copied := CopyName(name, old_);
    assert copied[Length(name)] == name[Length(name)] == 0;
    MatchesIsEquality(name, copied);
  }

  /** What the slot held behind the name and its NUL stays there; a longer name fills the slot. */
  lemma CopyKeepsRest(name: seq<cchar>, old_: seq<cchar>)
    requires Terminated(name) && |old_| == NAME_CHARS
    ensures forall k :: Length(name) < k < NAME_CHARS ==> CopyName(name, old_)[k] == old_[k]
    ensures forall k :: 0 <= k < NAME_CHARS && k <= Length(name) ==> CopyName(name, old_)[k] == name[k]
  {
  }

  lemma MkfileIsLocal(fs: Fs, name: seq<cchar>)
    requires Shaped(fs) && Terminated(name) && Mkfile(fs, name).1
    ensures FreeEntry(fs.fat, 0) < ENTRIES && OnlyFile(fs, Mkfile(fs, name).0, FreeEntry(fs.fat, 0))
  {
  }

  /** A successful `mkfile` adds a file of one block, which was free, in a slot that was free. */
  lemma MkfileEffect(fs: Fs, name: seq<cchar>)
    requires WellFormed(fs) && GoodName(name) && Mkfile(fs, name).1
    ensures var fs', i, b := Mkfile(fs, name).0, FreeEntry(fs.fat, 0), FreeBlock(fs.data, START_OF_DATA);
      && i < ENTRIES && b < |fs.data| && fs.fat[i].inUse == 0 && fs.data[b].mark == FREE_BLOCK
      && Shaped(fs') && OnlyFile(fs, fs', i) && FileBlocks(fs, i) == [] && FileBlocks(fs', i) == [b]
      && fs'.fat[i].inUse == 1 && EntryOk(fs', i) && NameOf(fs', i) == Text(name)
      && fs'.data == fs.data[b := fs'.data[b]] && fs'.data[b].mark == USED_BLOCK && fs'.data[b].chars == fs.data[b].chars
  {
    hide OnlyFile, SlotsOk, ChainsApart, NamesUnique, Held, CopyName, FreeEntry, FreeBlock, FindEntry;
    MkfileIsLocal(fs, name);
    var (fs', i, b) := (Mkfile(fs, name).0, FreeEntry(fs.fat, 0), FreeBlock(fs.data, START_OF_DATA));
    CopyReadsBack(name, fs.fat[i].name);
    assert IsChain(fs'.data, b, 1) && Chain(fs'.data, b, 1) == [b];
  }

  /** A name without a NUL among its first eleven characters leaves an entry that is no C string. */
  lemma LongNameBreaksEntry(fs: Fs, name: seq<cchar>)
    requires Shaped(fs) && Terminated(name) && !GoodName(name) && Mkfile(fs, name).1
    ensures var i := FreeEntry(fs.fat, 0); i < ENTRIES && !EntryOk(Mkfile(fs, name).0, i)
  {
  }

  /** `mkfile` keeps the disk well formed exactly when it fails or the name fits the entry. */
  lemma MkfileKeepsWellFormed(fs: Fs, name: seq<cchar>)
    requires WellFormed(fs) && Terminated(name)
    ensures WellFormed(Mkfile(fs, name).0) <==> GoodName(name) || !Mkfile(fs, name).1
  {
    if !GoodName(name) && Mkfile(fs, name).1 {
      LongNameBreaksEntry(fs, name);
    } else if Mkfile(fs, name).1 {
      var fs', i := Mkfile(fs, name).0, FreeEntry(fs.fat, 0);
      MkfileEffect(fs, name);
      assert FindEntry(fs.fat, 0, name) == ENTRIES;
      hide Mkfile, FileBlocks, Shaped, EntryOk, IsChain, SlotsOk, ChainsApart, NamesUnique, OnlyFile;
      forall k | 0 <= k < ENTRIES && k != i && fs.fat[k].inUse == 1 && EntryOk(fs, k)
        ensures NameOf(fs, k) != Text(fs'.fat[i].name)
      {
        NewNameIsNew(fs, name, i, k);
      }
      ChangeKeepsWellFormed(fs, fs', i);
    }
  }

  lemma FreeBlockExists(fs: Fs)
    requires WellFormed(fs)
    ensures FreeBlock(fs.data, START_OF_DATA) < |fs.data| <==> exists b :: START_OF_DATA <= b < |fs.data| && !Held(fs, b)
  {
    hide Held, SlotsOk, ChainsApart, NamesUnique;
    var b := FreeBlock(fs.data, START_OF_DATA);
    assert b < |fs.data| ==> !Held(fs, b);
  }

  lemma FreeEntryExists(fs: Fs)
    requires |fs.fat| == ENTRIES
    ensures FreeEntry(fs.fat, 0) < ENTRIES <==> exists i :: 0 <= i < ENTRIES && fs.fat[i].inUse == 0
  {
    var i := FreeEntry(fs.fat, 0);
    assert i < ENTRIES ==> fs.fat[i].inUse == 0;
  }

  ghost function Names(fs: Fs): set<seq<cchar>>
    requires WellFormed(fs)
  {
    set i | 0 <= i < ENTRIES && fs.fat[i].inUse == 1 && EntryOk(fs, i) :: NameOf(fs, i)
  }

  /** The search finds a file exactly when one has the name, and then that one. */
  lemma FoundByName(fs: Fs, name: seq<cchar>)
    requires WellFormed(fs) && Terminated(name)
    ensures var i := FindEntry(fs.fat, 0, name);
      && (i < ENTRIES <==> Text(name) in Names(fs))
      && (i < ENTRIES ==> fs.fat[i].inUse == 1 && EntryOk(fs, i) && NameOf(fs, i) == Text(name))
  {
    var i := FindEntry(fs.fat, 0, name);
    if i < ENTRIES {
      assert EntryOk(fs, i);
      MatchesIsEquality(name, fs.fat[i].name);
      assert NameOf(fs, i) in Names(fs);
    } else if Text(name) in Names(fs) {
      var k :| 0 <= k < ENTRIES && fs.fat[k].inUse == 1 && EntryOk(fs, k) && NameOf(fs, k) == Text(name);
      MatchesIsEquality(name, fs.fat[k].name);
    }
  }

  /** `mkfile` fails exactly for an existing name, a full table or a full disk, and then changes nothing. */
  lemma MkfileSucceeds(fs: Fs, name: seq<cchar>)
    requires WellFormed(fs) && Terminated(name)
    ensures Mkfile(fs, name).1 <==>
      && Text(name) !in Names(fs)
      && (exists i :: 0 <= i < ENTRIES && fs.fat[i].inUse == 0)
      && (exists b :: START_OF_DATA <= b < |fs.data| && !Held(fs, b))
    ensures !Mkfile(fs, name).1 ==> Mkfile(fs, name).0 == fs
  {
    FoundByName(fs, name);
    FreeBlockExists(fs);
    FreeEntryExists(fs);
    hide Held, FindEntry, FreeEntry, FreeBlock, Names, SlotsOk, ChainsApart, NamesUnique, CopyName;
  }

  /** `delfile` clears exactly the file's blocks and its slot. */
  lemma DelfileEffect(fs: Fs, i: nat)
    requires Shaped(fs) && ChainsApart(fs) && i < ENTRIES && fs.fat[i].inUse == 1 && EntryOk(fs, i)
    ensures var fs' := DelfileAt(fs, i);
      && Shaped(fs') && OnlyFile(fs, fs', i) && fs'.fat[i] == ZeroEntry() && FileBlocks(fs', i) == []
      && forall b :: 0 <= b < |fs.data| ==> fs'.data[b] == if b in FileBlocks(fs, i) then ZeroBlock() else fs.data[b]
  {
    LocalChange(fs, DelfileAt(fs, i), i);
  }

  lemma DelfileKeepsWellFormed(fs: Fs, name: seq<cchar>)
    requires WellFormed(fs) && Terminated(name)
    ensures WellFormed(Delfile(fs, name).0)
  {
    var i := FindEntry(fs.fat, 0, name);
    if i < ENTRIES {
      assert EntryOk(fs, i);
      DelfileEffect(fs, i);
      var fs' := DelfileAt(fs, i);
      hide DelfileAt, FileBlocks, Shaped, IsChain, ChainsApart, NamesUnique, OnlyFile, FindEntry;
      ChangeKeepsWellFormed(fs, fs', i);
    }
  }

  lemma NamesDiffer(fs: Fs, i: nat, k: nat)
    requires |fs.fat| == ENTRIES && SlotsOk(fs) && NamesUnique(fs) && i < ENTRIES && k < ENTRIES && i != k
    requires fs.fat[i].inUse == 1 && fs.fat[k].inUse == 1
    ensures EntryOk(fs, i) && EntryOk(fs, k) && NameOf(fs, k) != NameOf(fs, i)
  {
    assert EntryOk(fs, i) && EntryOk(fs, k);
  }

  // ---- overwriting -----------------------------------------------------------------------

  /** What the block held behind the text and its NUL stays there. */
  lemma WrittenReadsBack(text: seq<cchar>, old_: seq<cchar>)
    requires |old_| == DATA_CHARS && |text| < DATA_CHARS && 0 !in text
    ensures Terminated(Written(text, old_)) && Text(Written(text, old_)) == text
    ensures forall k :: |text| < k < DATA_CHARS ==> Written(text, old_)[k] == old_[k]
  {
    var w := Written(text, old_);
    assert w[|text|] == 0;
    LengthIs(w, |text|);
  }

  /** What `write` makes of the file's blocks before it writes into the first. */
  lemma CutMarks(fs: Fs, i: nat)
    requires Shaped(fs) && i < ENTRIES && fs.fat[i].inUse == 1 && EntryOk(fs, i)
    ensures var cut, first, own := Cut(fs, i), fs.fat[i].first, FileBlocks(fs, i);
      && START_OF_DATA <= first < |fs.data| && cut[first].mark == USED_BLOCK
      && forall b :: 0 <= b < |fs.data| && b != first ==> cut[b] == if b in own then ZeroBlock() else fs.data[b]
  {
    var e := fs.fat[i];
    TruncateAndFree(fs.data, e.first, e.blocks);
    var c := Chain(fs.data, e.first, e.blocks);
    assert c == [e.first] + c[1..];
  }

  lemma ShortOverwriteData(fs: Fs, i: nat, text: seq<cchar>)
    requires Shaped(fs) && i < ENTRIES && fs.fat[i].inUse == 1 && EntryOk(fs, i) && |text| < DATA_CHARS
    ensures var fs', first := OverwriteAt(fs, i, text), fs.fat[i].first;
      && fs'.fat == fs.fat[i := fs.fat[i].(blocks := 1)] && START_OF_DATA <= first < |fs.data| == |fs'.data| && Shaped(fs')
      && fs'.data[first] == DataBlock(USED_BLOCK, LAST_BLOCK, Written(text, fs.data[first].chars))
      && forall b :: 0 <= b < |fs.data| && b != first ==>
           fs'.data[b] == if b in FileBlocks(fs, i) then ZeroBlock() else fs.data[b]
  {
    var cut, first := Cut(fs, i), fs.fat[i].first;
    CutMarks(fs, i);
    assert cut[first].chars == fs.data[first].chars by { TruncateAndFree(fs.data, first, fs.fat[i].blocks); }
    PassesUnfold(cut, first, text, 1);
    hide Cut, FileBlocks, EntryOk, IsChain, Chain, Cleared, Written;
    var d := OnePass(cut, first, text);
    PassesUnfold(d, NextFree(d), Rest(text), 0);
  }

  /** Overwriting leaves other files alone; with a text shorter than a block it leaves a one-block chain
      and clears exactly the file's other blocks. */
  lemma OverwriteEffect(fs: Fs, i: nat, text: seq<cchar>)
    requires Shaped(fs) && ChainsApart(fs) && i < ENTRIES && fs.fat[i].inUse == 1 && EntryOk(fs, i)
    requires |text| < DATA_CHARS
    ensures var fs', first := OverwriteAt(fs, i, text), fs.fat[i].first;
      && Shaped(fs') && OnlyFile(fs, fs', i) && fs'.fat[i] == fs.fat[i].(blocks := 1)
      && EntryOk(fs', i) && FileBlocks(fs', i) == [first] && first in FileBlocks(fs, i)
      && fs'.data[first] == DataBlock(USED_BLOCK, LAST_BLOCK, Written(text, fs.data[first].chars))
      && forall b :: 0 <= b < |fs.data| && b != first ==>
           fs'.data[b] == if b in FileBlocks(fs, i) then ZeroBlock() else fs.data[b]
  {
    var fs', e := OverwriteAt(fs, i, text), fs.fat[i];
    ShortOverwriteData(fs, i, text);
    var c := Chain(fs.data, e.first, e.blocks);
    assert FileBlocks(fs, i) == c && c[0] == e.first;
    hide OverwriteAt, Written, Cleared;
    assert IsChain(fs'.data, e.first, 1) && Chain(fs'.data, e.first, 1) == [e.first];
    LocalChange(fs, fs', i);
  }

  lemma OverwriteKeepsWellFormed(fs: Fs, name: seq<cchar>, text: seq<cchar>)
    requires WellFormed(fs) && Terminated(name) && |text| < DATA_CHARS
    ensures WellFormed(Overwrite(fs, name, text).0)
  {
    var i := FindEntry(fs.fat, 0, name);
    if i < ENTRIES {
      assert EntryOk(fs, i);
      OverwriteEffect(fs, i, text);
      var fs' := OverwriteAt(fs, i, text);
      assert SlotsOk(fs) && NamesUnique(fs) && |fs.fat| == ENTRIES;
      hide WellFormed, SlotsOk, OverwriteAt, FileBlocks, Shaped, IsChain, ChainsApart, NamesUnique, OnlyFile, FindEntry, Held;
      forall k | 0 <= k < ENTRIES && k != i && fs.fat[k].inUse == 1 && EntryOk(fs, k)
        ensures NameOf(fs, k) != Text(fs'.fat[i].name)
      {
        NamesDiffer(fs, i, k);
      }
      ChangeKeepsWellFormed(fs, fs', i);
    }
  }

  // ---- runs ------------------------------------------------------------------------------

  datatype Op = Make(name: seq<cchar>) | Delete(name: seq<cchar>) | Write(name: seq<cchar>, text: seq<cchar>)

  predicate InBounds(op: Op) {
    Terminated(op.name) && (op.Make? ==> GoodName(op.name)) && (op.Write? ==> |op.text| < DATA_CHARS && 0 !in op.text)
  }

  ghost function Step(fs: Fs, op: Op): (r: Fs)
    requires WellFormed(fs) && InBounds(op)
    ensures WellFormed(r)
  {
    match op
    case Make(name) => MkfileKeepsWellFormed(fs, name); Mkfile(fs, name).0
    case Delete(name) => DelfileKeepsWellFormed(fs, name); Delfile(fs, name).0
    case Write(name, text) => OverwriteKeepsWellFormed(fs, name, text); Overwrite(fs, name, text).0
  }

  /** Any run of in-bound operations on a well-formed disk ends in a well-formed disk. */
  ghost function Run(fs: Fs, ops: seq<Op>): (r: Fs)
    requires WellFormed(fs) && forall k :: 0 <= k < |ops| ==> InBounds(ops[k])
    ensures WellFormed(r)
    decreases |ops|
  {
    if ops == [] then fs else Run(Step(fs, ops[0]), ops[1..])
  }

  /** A formatted disk: no entry in use, every data block zero. */
  lemma FormattedIsWellFormed(fs: Fs)
    requires Shaped(fs) && (forall i :: 0 <= i < ENTRIES ==> fs.fat[i].inUse == 0)
    requires forall b :: START_OF_DATA <= b < |fs.data| ==> fs.data[b] == ZeroBlock()
    ensures WellFormed(fs)
  {
    assert forall i :: 0 <= i < ENTRIES ==> FileBlocks(fs, i) == [];
  }

  // ---- what users see --------------------------------------------------------------------

  /** The characters stored in a file, block by block. */
  ghost function Contents(fs: Fs, i: nat): seq<seq<cchar>>
    requires i < |fs.fat|
  {
    var c := FileBlocks(fs, i);
    seq(|c|, k requires 0 <= k < |c| => assert c[k] in c; fs.data[c[k]].chars)
  }

  /** Slot `k` holds the same file with the same characters on both disks. */
  ghost predicate Unchanged(fs: Fs, fs': Fs, k: nat) {
    k < |fs.fat| && k < |fs'.fat| && fs'.fat[k] == fs.fat[k]
    && FileBlocks(fs', k) == FileBlocks(fs, k) && Contents(fs', k) == Contents(fs, k)
  }

  /** Whatever the operation does to its own file, every other file keeps its entry, its blocks and its
      characters. */
  lemma OthersUnchanged(fs: Fs, fs': Fs, i: nat, k: nat)
    requires Shaped(fs) && SlotsOk(fs) && OnlyFile(fs, fs', i) && k < ENTRIES && k != i
    ensures Unchanged(fs, fs', k)
  {
    assert EntryOk(fs, k);
    OtherFilesStay(fs, fs', i, k);
    assert forall j :: 0 <= j < |FileBlocks(fs, k)| ==> FileBlocks(fs, k)[j] in FileBlocks(fs, k);
  }

  /** Whatever the name, a new file leaves every existing one alone. */
  lemma MkfileLeavesOthers(fs: Fs, name: seq<cchar>, k: nat)
    requires WellFormed(fs) && Terminated(name) && Mkfile(fs, name).1 && k < ENTRIES && fs.fat[k].inUse == 1
    ensures Unchanged(fs, Mkfile(fs, name).0, k)
  {
    MkfileIsLocal(fs, name);
    OthersUnchanged(fs, Mkfile(fs, name).0, FreeEntry(fs.fat, 0), k);
  }

  /** `delfile` succeeds exactly for an existing name. It leaves every other file alone, frees the slot,
      and turns exactly the file's blocks free. */
  lemma DelfileFrees(fs: Fs, name: seq<cchar>, k: nat, b: nat)
    requires WellFormed(fs) && Terminated(name) && k < ENTRIES && START_OF_DATA <= b < |fs.data|
    ensures var (fs', ok) := Delfile(fs, name);
      && (ok <==> Text(name) in Names(fs))
      && (!ok ==> fs' == fs)
      && |fs'.fat| == ENTRIES && |fs'.data| == |fs.data|
    ensures Delfile(fs, name).1 ==>
      var fs', i := Delfile(fs, name).0, FindEntry(fs.fat, 0, name);
      && i < ENTRIES && fs.fat[i].inUse == 1 && EntryOk(fs, i) && NameOf(fs, i) == Text(name) && fs'.fat[i] == ZeroEntry()
      && (k != i ==> Unchanged(fs, fs', k))
      && fs'.data[b] == if b in FileBlocks(fs, i) then ZeroBlock() else fs.data[b]
  {
    FoundByName(fs, name);
    var i := FindEntry(fs.fat, 0, name);
    if i < ENTRIES {
      assert EntryOk(fs, i);
      DelfileEffect(fs, i);
      hide DelfileAt, FileBlocks, IsChain, FindEntry, ChainsApart, NamesUnique, Held;
      if k != i { OthersUnchanged(fs, DelfileAt(fs, i), i, k); }
    }
  }

  /** Overwriting with a text shorter than a block succeeds exactly for an existing name. The file then
      is one block that reads back as the text; its other blocks are free; nothing else changes. */
  lemma OverwriteReadsBack(fs: Fs, name: seq<cchar>, text: seq<cchar>, k: nat, b: nat)
    requires WellFormed(fs) && Terminated(name) && |text| < DATA_CHARS && 0 !in text
    requires k < ENTRIES && START_OF_DATA <= b < |fs.data|
    ensures Overwrite(fs, name, text).1 <==> Text(name) in Names(fs)
    ensures !Overwrite(fs, name, text).1 ==> Overwrite(fs, name, text).0 == fs
    ensures Overwrite(fs, name, text).1 ==>
      var fs', i := Overwrite(fs, name, text).0, FindEntry(fs.fat, 0, name);
      && i < ENTRIES && fs.fat[i].inUse == 1 && EntryOk(fs, i) && NameOf(fs, i) == Text(name)
      && fs'.fat[i] == fs.fat[i].(blocks := 1) && FileBlocks(fs', i) == [fs.fat[i].first]
      && Terminated(fs'.data[fs.fat[i].first].chars) && Text(fs'.data[fs.fat[i].first].chars) == text
      && (k != i ==> Unchanged(fs, fs', k))
      && (b != fs.fat[i].first ==> fs'.data[b] == if b in FileBlocks(fs, i) then ZeroBlock() else fs.data[b])
  {
    FoundByName(fs, name);
    var i := FindEntry(fs.fat, 0, name);
    if i < ENTRIES {
      assert EntryOk(fs, i);
      OverwriteEffect(fs, i, text);
      WrittenReadsBack(text, fs.data[fs.fat[i].first].chars);
      hide OverwriteAt, FileBlocks, IsChain, FindEntry, ChainsApart, NamesUnique, Held, Written;
      if k != i { OthersUnchanged(fs, OverwriteAt(fs, i, text), i, k); }
    }
  }

  /** The search then finds the new file. */
  lemma NewFileIsFound(fs: Fs, name: seq<cchar>)
    requires WellFormed(fs) && GoodName(name) && Mkfile(fs, name).1
    ensures var mid := Mkfile(fs, name).0; WellFormed(mid) && FindEntry(mid.fat, 0, name) == FreeEntry(fs.fat, 0)
  {
    hide FindEntry, FreeEntry, FreeBlock, FileBlocks, IsChain, Held;
    MkfileKeepsWellFormed(fs, name);
    MkfileEffect(fs, name);
    var mid, i := Mkfile(fs, name).0, FreeEntry(fs.fat, 0);
    FoundByName(mid, name);
    var j := FindEntry(mid.fat, 0, name);
    assert NameOf(mid, i) in Names(mid);
    if j != i { NamesDiffer(mid, i, j); }
  }

  /** Making a new file and deleting it gives back the live files and the free blocks. */
  lemma MakeThenDelete(fs: Fs, name: seq<cchar>, k: nat, b: nat)
    requires WellFormed(fs) && GoodName(name) && Mkfile(fs, name).1 && k < ENTRIES && START_OF_DATA <= b < |fs.data|
    ensures WellFormed(Mkfile(fs, name).0)
    ensures var (fs', ok) := Delfile(Mkfile(fs, name).0, name);
      && ok && |fs'.fat| == ENTRIES && |fs'.data| == |fs.data|
      && fs'.fat[k].inUse == fs.fat[k].inUse
      && (fs.fat[k].inUse == 1 ==> Unchanged(fs, fs', k))
      && (fs'.data[b].mark == FREE_BLOCK <==> fs.data[b].mark == FREE_BLOCK)
  {
    hide Mkfile, Delfile, FileBlocks, IsChain, FindEntry, FreeEntry, FreeBlock, ChainsApart, NamesUnique, Held, Contents, SlotsOk, Names;
    var mid, i := Mkfile(fs, name).0, FreeEntry(fs.fat, 0);
    MkfileEffect(fs, name);
    NewFileIsFound(fs, name);
    FoundByName(mid, name);
    DelfileFrees(mid, name, k, b);
    if k != i { OthersUnchanged(fs, mid, i, k); }
  }

  // ---- new files are empty ---------------------------------------------------------------

  ghost predicate FreeBlocksZero(fs: Fs) {
    forall b :: START_OF_DATA <= b < |fs.data| && fs.data[b].mark == FREE_BLOCK ==> fs.data[b] == ZeroBlock()
  }

  /** Blocks are cleared when they are freed. */
  lemma StepKeepsZero(fs: Fs, op: Op)
    requires WellFormed(fs) && InBounds(op) && FreeBlocksZero(fs)
    ensures FreeBlocksZero(Step(fs, op))
  {
    hide SlotsOk, ChainsApart, NamesUnique, Held, FindEntry, FreeEntry, FreeBlock, FileBlocks, IsChain, DelfileAt, OverwriteAt;
    if op.Make? {
      if Mkfile(fs, op.name).1 { MkfileEffect(fs, op.name); }
    } else {
      FoundByName(fs, op.name);
      var i := FindEntry(fs.fat, 0, op.name);
      if i < ENTRIES {
        assert ChainsApart(fs);
        if op.Delete? { DelfileEffect(fs, i); } else { OverwriteEffect(fs, i, op.text); }
      }
    }
  }

  lemma {:induction false} RunKeepsZero(fs: Fs, ops: seq<Op>)
    requires WellFormed(fs) && FreeBlocksZero(fs) && forall k :: 0 <= k < |ops| ==> InBounds(ops[k])
    ensures FreeBlocksZero(Run(fs, ops))
    decreases |ops|
  {
    hide WellFormed, FreeBlocksZero, Step;
    if ops != [] {
      StepKeepsZero(fs, ops[0]);
      RunKeepsZero(Step(fs, ops[0]), ops[1..]);
    }
  }

  /** After any run on a formatted disk, a file just made holds the empty text. */
  lemma NewFileIsEmpty(fs: Fs, ops: seq<Op>, name: seq<cchar>)
    requires WellFormed(fs) && FreeBlocksZero(fs) && GoodName(name) && forall k :: 0 <= k < |ops| ==> InBounds(ops[k])
    ensures var fs1 := Run(fs, ops);
      Mkfile(fs1, name).1 ==>
        var fs2, i := Mkfile(fs1, name).0, FreeEntry(fs1.fat, 0);
        && i < |fs2.fat| && |FileBlocks(fs2, i)| == 1 && FileBlocks(fs2, i)[0] < |fs2.data|
        && var chars := fs2.data[FileBlocks(fs2, i)[0]].chars; Terminated(chars) && Text(chars) == []
  {
    hide SlotsOk, ChainsApart, NamesUnique, Held, FindEntry, FreeEntry, FreeBlock, FileBlocks, IsChain, Mkfile, Run;
    RunKeepsZero(fs, ops);
    var fs1 := Run(fs, ops);
    if Mkfile(fs1, name).1 {
      MkfileEffect(fs1, name);
      LengthIs(ZeroBlock().chars, 0);
    }
  }

  // ---- files persist -----------------------------------------------------------------------

  /** An operation on another name leaves a file as it is. */
  lemma StepLeavesFile(fs: Fs, op: Op, i: nat)
    requires WellFormed(fs) && InBounds(op) && i < ENTRIES && fs.fat[i].inUse == 1 && EntryOk(fs, i)
    requires NameOf(fs, i) != Text(op.name)
    ensures Unchanged(fs, Step(fs, op), i)
  {
    hide ChainsApart, NamesUnique, Held, FindEntry, FreeEntry, FreeBlock, FileBlocks, IsChain, DelfileAt, OverwriteAt, Contents;
    if op.Make? {
      if Mkfile(fs, op.name).1 { MkfileLeavesOthers(fs, op.name, i); }
    } else {
      FoundByName(fs, op.name);
      var j := FindEntry(fs.fat, 0, op.name);
      if j < ENTRIES {
        assert ChainsApart(fs);
        if op.Delete? { DelfileEffect(fs, j); } else { OverwriteEffect(fs, j, op.text); }
        OthersUnchanged(fs, Step(fs, op), j, i);
      }
    }
  }

  lemma UnchangedTwice(fs: Fs, fs1: Fs, fs2: Fs, i: nat)
    requires Unchanged(fs, fs1, i) && Unchanged(fs1, fs2, i)
    ensures Unchanged(fs, fs2, i)
  {
    hide FileBlocks, Contents;
  }

  lemma UnchangedKeepsName(fs: Fs, fs1: Fs, i: nat)
    requires WellFormed(fs1) && i < ENTRIES && i < |fs.fat| && fs.fat[i].inUse == 1 && EntryOk(fs, i) && Unchanged(fs, fs1, i)
    ensures i < |fs1.fat| && fs1.fat[i].inUse == 1 && EntryOk(fs1, i) && NameOf(fs1, i) == NameOf(fs, i)
  {
    assert SlotsOk(fs1);
  }

  lemma RunUnfold(fs: Fs, ops: seq<Op>)
    requires WellFormed(fs) && forall k :: 0 <= k < |ops| ==> InBounds(ops[k])
    ensures Run(fs, ops) == if ops == [] then fs else Run(Step(fs, ops[0]), ops[1..])
  {
  }

  lemma UnchangedItself(fs: Fs, i: nat)
    requires i < |fs.fat|
    ensures Unchanged(fs, fs, i)
  {
  }

  /** Whatever is done to other names, a file keeps its entry, its blocks and its characters. */
  lemma {:induction false} FilesPersist(fs: Fs, ops: seq<Op>, i: nat)
    requires WellFormed(fs) && i < ENTRIES && i < |fs.fat| && fs.fat[i].inUse == 1 && EntryOk(fs, i)
    requires forall k :: 0 <= k < |ops| ==> InBounds(ops[k]) && Text(ops[k].name) != NameOf(fs, i)
    ensures Unchanged(fs, Run(fs, ops), i)
    decreases |ops|
  {
    hide WellFormed, Step, Run, FileBlocks, Contents, IsChain, EntryOk, NameOf, Unchanged, InBounds;
    RunUnfold(fs, ops);
    if ops == [] {
      UnchangedItself(fs, i);
    } else {
      var fs1 := Step(fs, ops[0]);
      StepLeavesFile(fs, ops[0], i);
      UnchangedKeepsName(fs, fs1, i);
      FilesPersist(fs1, ops[1..], i);
      UnchangedTwice(fs, fs1, Run(fs, ops), i);
    }
  }
}
