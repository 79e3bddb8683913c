/** The in-place tokenizer `strtok` of string.c with its hidden resume position. */
module Tokenizer {
  import opened CStrings
  import opened Common

  /** A string from `p` whose NUL is at `n`. */
  predicate StringAt(t: seq<cchar>, p: nat, n: nat) {
    p <= n < |t| && t[n] == 0 && forall k :: p <= k < n ==> t[k] != 0
  }

  ghost function Delims(delim: seq<cchar>): set<cchar>
    requires Terminated(delim)
  {
    set c | c in Text(delim)
  }

  /** First position from `p` on that holds a delimiter (or, without `want`, anything else), or `n`. */
  function Seek(t: seq<cchar>, p: nat, n: nat, d: set<cchar>, want: bool): (r: nat)
    requires p <= n < |t|
    ensures p <= r <= n && (r < n ==> (t[r] in d) == want)
    ensures forall k :: p <= k < r ==> (t[k] in d) != want
    decreases n - p
  {
    if p == n || (t[p] in d) == want then p else Seek(t, p + 1, n, d, want)
  }

  lemma SeekIs(t: seq<cchar>, p: nat, n: nat, d: set<cchar>, want: bool, r: nat)
    requires p <= r <= n < |t| && (r < n ==> (t[r] in d) == want)
    requires forall k :: p <= k < r ==> (t[k] in d) != want
    ensures Seek(t, p, n, d, want) == r
  {
  }

  /** One call resuming at `p`: the buffer, the next resume position and the word, if any. */
  datatype Outcome = Outcome(text: seq<cchar>, resume: nat, word: Option<nat>)

  function Call(t: seq<cchar>, p: nat, n: nat, d: set<cchar>): (o: Outcome)
    requires StringAt(t, p, n)
    ensures StringAt(o.text, o.resume, n)
  {
    var b := Seek(t, p, n, d, false);
    var e := Seek(t, b, n, d, true);
    if b == n then Outcome(t, n, None)
    else if e == n then Outcome(t, n, Some(b))
    else Outcome(t[e := 0], e + 1, Some(b))
  }

  // ---- the calling protocol ------------------------------------------------------------

  datatype Word = Word(start: nat, end: nat)

  /** A stretch of word characters that cannot be extended on either side. */
  predicate MaximalRun(t: seq<cchar>, p: nat, n: nat, d: set<cchar>, w: Word) {
    && p <= w.start < w.end <= n < |t|
    && (forall k :: w.start <= k < w.end ==> t[k] !in d)
    && (w.start == p || t[w.start - 1] in d)
    && (w.end == n || t[w.end] in d)
  }

  datatype Result = Result(words: seq<Word>, text: seq<cchar>, resume: nat)

  /** Calls until the first null result: the words found and what they leave behind. */
  function Split(t: seq<cchar>, p: nat, n: nat, d: set<cchar>): (r: Result)
    requires StringAt(t, p, n)
    ensures |r.text| == |t| && r.resume == n && StringAt(r.text, n, n)
    decreases n - p
  {
    var o := Call(t, p, n, d);
    if o.word.None? then Result([], o.text, o.resume)
    else
      var w := Word(o.word.value, Seek(t, o.word.value, n, d, true));
      if w.end == n then Result([w], o.text, o.resume)
      else
        var rest := Split(o.text, o.resume, n, d);
        rest.(words := [w] + rest.words)
  }

  function Starts(words: seq<Word>): seq<nat> {
    seq(|words|, i requires 0 <= i < |words| => words[i].start)
  }

  /** One unfolding of `Split`. */
  lemma SplitOnce(t: seq<cchar>, p: nat, n: nat, d: set<cchar>) returns (b: nat, e: nat)
    requires StringAt(t, p, n)
    ensures p <= b <= e <= n && (b < n ==> b < e) && forall k :: b <= k < e ==> t[k] !in d
    ensures b == Seek(t, p, n, d, false) && e == Seek(t, b, n, d, true)
    ensures b == n ==> Split(t, p, n, d) == Result([], t, n)
    ensures b < n && e == n ==> Split(t, p, n, d) == Result([Word(b, e)], t, n)
    ensures e < n ==> t[e] in d && StringAt(t[e := 0], e + 1, n)
    ensures e < n ==> var rest := Split(t[e := 0], e + 1, n, d);
      Split(t, p, n, d) == Result([Word(b, e)] + rest.words, rest.text, n)
  {
    hide Seek;
    b := Seek(t, p, n, d, false);
    e := Seek(t, b, n, d, true);
  }

  /** `Split` is the first call's word followed by what the later calls give. */
  lemma SplitPeelsOneCall(t: seq<cchar>, p: nat, n: nat, d: set<cchar>)
    requires StringAt(t, p, n)
    ensures var r, o := Split(t, p, n, d), Call(t, p, n, d);
      var rest := Split(o.text, o.resume, n, d);
      && p <= o.resume <= n && (o.word.Some? ==> p < o.resume)
      && r.text == rest.text
      && Starts(r.words) == (if o.word.Some? then [o.word.value] else []) + Starts(rest.words)
      && (o.word.None? ==> r == Result([], o.text, n) && o.resume == n && Starts(r.words) == [])
  {
    hide Split, Seek;
    var b, e := SplitOnce(t, p, n, d);
    if e == n {
      var _, _ := SplitOnce(t, n, n, d);
    }
  }

  /** The word of one call is the first maximal run; behind it the others are untouched. */
  lemma CallTakesFirstRun(t: seq<cchar>, p: nat, n: nat, d: set<cchar>, w: Word)
    requires StringAt(t, p, n)
    ensures var o, b := Call(t, p, n, d), Seek(t, p, n, d, false);
      var e := Seek(t, b, n, d, true);
      MaximalRun(t, p, n, d, w) <==> b < n && (w == Word(b, e) || (e < n && MaximalRun(o.text, e + 1, n, d, w)))
  {
    var o, b := Call(t, p, n, d), Seek(t, p, n, d, false);
    var e := Seek(t, b, n, d, true);
    if MaximalRun(t, p, n, d, w) {
      assert t[w.start] !in d && b <= w.start;
      if w.start == b {
        assert w.end < n ==> t[w.end] in d;
        assert w.end <= e;
      } else {
        assert t[w.start - 1] in d && e < w.start;
      }
    }
    if b < n {
      assert MaximalRun(t, p, n, d, Word(b, e));
      if e < n && MaximalRun(o.text, e + 1, n, d, w) {
        assert forall k :: e < k < n ==> o.text[k] == t[k];
        assert w.start != e + 1 ==> o.text[w.start - 1] == t[w.start - 1];
      }
    }
  }

  /** Calling until null yields exactly the maximal delimiter-free runs of the original string. */
  lemma {:induction false} SplitFindsMaximalRuns(t: seq<cchar>, p: nat, n: nat, d: set<cchar>, w: Word)
    requires StringAt(t, p, n)
    ensures w in Split(t, p, n, d).words <==> MaximalRun(t, p, n, d, w)
    decreases n - p
  {
    hide MaximalRun, Seek;
    var o := Call(t, p, n, d);
    CallTakesFirstRun(t, p, n, d, w);
    if o.word.Some? && Seek(t, o.word.value, n, d, true) < n {
      SplitFindsMaximalRuns(o.text, o.resume, n, d, w);
    }
  }

  /** The words come in order and apart. */
  lemma {:induction false} SplitIsOrdered(t: seq<cchar>, p: nat, n: nat, d: set<cchar>)
    requires StringAt(t, p, n)
    ensures var ws := Split(t, p, n, d).words;
      && (forall i :: 0 <= i < |ws| ==> p <= ws[i].start < ws[i].end <= n)
      && (forall i, j :: 0 <= i < j < |ws| ==> ws[i].end < ws[j].start)
    decreases n - p
  {
    hide Split;
    var b, e := SplitOnce(t, p, n, d);
    if e < n {
      SplitIsOrdered(t[e := 0], e + 1, n, d);
    }
  }

  /** Nothing but delimiters inside the string is overwritten, and those with NUL. */
  lemma {:induction false} SplitOverwritesDelimiters(t: seq<cchar>, p: nat, n: nat, d: set<cchar>)
    requires StringAt(t, p, n)
    ensures var t' := Split(t, p, n, d).text;
      forall k :: 0 <= k < |t| ==> t'[k] == t[k] || (p <= k < n && t[k] in d && t'[k] == 0)
    decreases n - p
  {
    hide Split;
    var b, e := SplitOnce(t, p, n, d);
    if e < n {
      SplitOverwritesDelimiters(t[e := 0], e + 1, n, d);
    }
  }

  /** In `t'` the word is a C string with the characters it had in `t`. */
  predicate ReadsBack(t': seq<cchar>, t: seq<cchar>, w: Word) {
    StringAt(t', w.start, w.end) && w.end < |t| && forall k :: w.start <= k < w.end ==> t'[k] == t[k]
  }

  /** Every word can be read from the final buffer, and one more call returns null and changes nothing. */
  lemma {:induction false} SplitLeavesWords(t: seq<cchar>, p: nat, n: nat, d: set<cchar>, i: nat)
    requires StringAt(t, p, n)
    ensures var r := Split(t, p, n, d);
      && (i < |r.words| ==> ReadsBack(r.text, t, r.words[i]))
      && Call(r.text, r.resume, n, d) == Outcome(r.text, r.resume, None)
    decreases n - p
  {
    hide Split;
    var r := Split(t, p, n, d);
    var b, e := SplitOnce(t, p, n, d);
    if e < n {
      SplitOverwritesDelimiters(t[e := 0], e + 1, n, d);
      SplitIsOrdered(t[e := 0], e + 1, n, d);
      if i == 0 {
        assert forall k :: b <= k <= e ==> r.text[k] == t[e := 0][k];
      } else {
        SplitLeavesWords(t[e := 0], e + 1, n, d, i - 1);
      }
    }
  }

  /** In terms of the delimiter string: the words are the stretches inside the string, bounded by its ends or by
      characters of `delim`, that hold none of these characters. */
  lemma WordsAreDelimited(t: seq<cchar>, p: nat, n: nat, delim: seq<cchar>, w: Word)
    requires StringAt(t, p, n) && Terminated(delim)
    ensures w in Split(t, p, n, Delims(delim)).words <==>
      && p <= w.start < w.end <= n
      && (forall k :: w.start <= k < w.end ==> t[k] !in delim[..Length(delim)])
      && (w.start == p || t[w.start - 1] in delim[..Length(delim)])
      && (w.end == n || t[w.end] in delim[..Length(delim)])
  {
    hide Split;
    SplitFindsMaximalRuns(t, p, n, Delims(delim), w);
  }

  // ---- the code ------------------------------------------------------------------------

  class Strtok {
    var oldword: nat

    /** The two scanning loops. */
    method Skip(mem: array<cchar>, p: nat, delim: seq<cchar>, want: bool, ghost n: nat) returns (r: nat)
      requires Terminated(delim) && StringAt(mem[..], p, n)
      ensures r == Seek(mem[..], p, n, Delims(delim), want)
    {
      r := p;
      while mem[r] != 0
        invariant p <= r <= n && forall k :: p <= k < r ==> (mem[k] in Delims(delim)) != want
        decreases n - r
      {
        var found := Strchr(delim, mem[r]);
        if found == want { break; }
        r := r + 1;
      }
      SeekIs(mem[..], p, n, Delims(delim), want, r);
    }

    method Next(mem: array<cchar>, s: Option<nat>, delim: seq<cchar>, ghost n: nat) returns (word: Option<nat>)
      requires Terminated(delim) && StringAt(mem[..], if s.Some? then s.value else oldword, n)
      modifies this, mem
      ensures Outcome(mem[..], oldword, word)
           == Call(old(mem[..]), if s.Some? then s.value else old(oldword), n, Delims(delim))
    {
      var p := if s.Some? then s.value else oldword;
      p := Skip(mem, p, delim, false, n);
      if mem[p] == 0 {
        oldword := p;
        return None;
      }
      word := Some(p);
      p := Skip(mem, p, delim, true, n);
      if mem[p] != 0 {
        mem[p] := 0;
        oldword := p + 1;
      } else {
        oldword := p;
      }
    }

    /** The calling protocol: the string once, then null until null comes back. */
    method All(mem: array<cchar>, s: nat, delim: seq<cchar>, ghost n: nat) returns (starts: seq<nat>)
      requires Terminated(delim) && StringAt(mem[..], s, n)
      modifies this, mem
      ensures var r := Split(old(mem[..]), s, n, Delims(delim));
        mem[..] == r.text && oldword == n && starts == Starts(r.words)
    {
      hide Split, Call, Seek, StringAt, Starts, Delims;
      ghost var d := Delims(delim);
      ghost var r := Split(mem[..], s, n, d);
      SplitPeelsOneCall(mem[..], s, n, d);
      var word := Next(mem, Some(s), delim, n);
      starts := [];
      while word.Some?
        invariant StringAt(mem[..], oldword, n)
        invariant word.None? ==> oldword == n && mem[..] == r.text && starts == Starts(r.words)
        invariant word.Some? ==> var rest := Split(mem[..], oldword, n, d);
          r.text == rest.text && Starts(r.words) == starts + [word.value] + Starts(rest.words)
        decreases n - oldword, if word.Some? then 1 else 0
      {
        starts := starts + [word.value];
        SplitPeelsOneCall(mem[..], oldword, n, d);
        word := Next(mem, None, delim, n);
      }
    }
  }
}
