/** The console grid as a window on the unbounded transcript of what was written. */
module Transcript {
  import opened CStrings
  import opened Console

  /** Everything written since the reset, wrapped at the width: `text` ends in row `row`, column `col`. */
  datatype Log = Log(text: seq<cchar>, row: nat, col: nat)

  ghost predicate Proper(xs: nat, t: Log) {
    t.col < xs && |t.text| == Row(xs, t.row) + t.col
  }

  /** A newline pads the row with blanks; any other character takes one cell. */
  function Typed(xs: nat, t: Log, ch: cchar): (r: Log)
    requires Proper(xs, t)
    ensures Proper(xs, r)
  {
    if IsNewline(ch) then Log(t.text + seq(xs - t.col, i => SPACE), t.row + 1, 0)
    else if t.col + 1 == xs then Log(t.text + [ch], t.row + 1, 0)
    else Log(t.text + [ch], t.row, t.col + 1)
  }

  function LogOf(xs: nat, s: seq<cchar>): (t: Log)
    requires xs > 0
    ensures Proper(xs, t)
  {
    if s == [] then Log([], 0, 0) else Typed(xs, LogOf(xs, s[..|s| - 1]), s[|s| - 1])
  }

  /** Without newlines the log is the string itself, broken every `xs` characters. */
  lemma {:induction false} PlainTextIsLog(xs: nat, s: seq<cchar>)
    requires xs > 0 && forall k :: 0 <= k < |s| ==> !IsNewline(s[k])
    ensures LogOf(xs, s).text == s
    decreases |s|
  {
    if s != [] {
      PlainTextIsLog(xs, s[..|s| - 1]);
    }
  }

  /** A newline adds blanks up to the next multiple of `xs`, a whole row of them on an empty one. */
  lemma NewlinePads(xs: nat, s: seq<cchar>, ch: cchar)
    requires xs > 0 && IsNewline(ch)
    ensures var t, t' := LogOf(xs, s), LogOf(xs, s + [ch]);
      && t'.text[..|t.text|] == t.text && (forall k :: |t.text| <= k < |t'.text| ==> t'.text[k] == SPACE)
      && |t'.text| == (t.row + 1) * xs && |t.text| == t.row * xs + t.col
  {
    var t := LogOf(xs, s);
    assert (s + [ch])[..|s|] == s;
    RowIsProduct(xs, t.row);
    RowIsProduct(xs, t.row + 1);
  }

  function CellAt(text: seq<cchar>, p: nat): cchar {
    if p < |text| then text[p] else SPACE
  }

  /** The cells show the text from position `base` on. */
  ghost predicate ShowsFrom(xs: nat, ys: nat, cells: seq<cchar>, text: seq<cchar>, base: nat) {
    |cells| == CAPACITY && Row(xs, ys) <= CAPACITY &&
    forall k :: 0 <= k < Row(xs, ys) ==> cells[k] == CellAt(text, base + k)
  }

  /** First row of the log on the screen: the last `ys` rows are kept. */
  function Top(ys: nat, row: nat): nat {
    if row < ys then 0 else row + 1 - ys
  }

  /** The grid is the window on the log, but for the cell of the cursor. */
  ghost predicate Window(xs: nat, ys: nat, t: Log, g: Grid)
    requires Fits(xs, ys) && Proper(xs, t)
  {
    && Inside(xs, ys, g) && g.x == t.col && g.y == t.row - Top(ys, t.row)
    && Index(xs, g.x, g.y) < CAPACITY
    && ShowsFrom(xs, ys, g.cells[Index(xs, g.x, g.y) := SPACE], t.text, Row(xs, Top(ys, t.row)))
  }

  lemma {:induction false} RowsAdd(xs: nat, a: nat, b: nat)
    ensures Row(xs, a) + Row(xs, b) == Row(xs, a + b)
  {
    if b > 0 { RowsAdd(xs, a, b - 1); }
  }

  /** The cursor cell is the one behind the text. */
  lemma CursorIsAtEnd(xs: nat, ys: nat, t: Log, g: Grid)
    requires Fits(xs, ys) && Proper(xs, t) && Window(xs, ys, t, g)
    ensures Row(xs, Top(ys, t.row)) + Index(xs, g.x, g.y) == |t.text|
    ensures Index(xs, g.x, g.y) < Row(xs, ys)
  {
    RowsAdd(xs, Top(ys, t.row), g.y);
    IndexBound(xs, ys, g.x, g.y);
  }

  lemma ScrollShows(xs: nat, ys: nat, cells: seq<cchar>, text: seq<cchar>, base: nat)
    requires Fits(xs, ys) && ShowsFrom(xs, ys, cells, text, base) && |text| <= base + Row(xs, ys)
    ensures ShowsFrom(xs, ys, Scrolled(xs, ys, cells), text, base + xs)
  {
    assert Row(xs, ys) == Row(xs, ys - 1) + xs;
  }

  /** Drawing the cursor behind the text hides nothing. */
  lemma CursorHidesNothing(xs: nat, ys: nat, cells: seq<cchar>, text: seq<cchar>, base: nat, i: nat)
    requires ShowsFrom(xs, ys, cells, text, base) && i < CAPACITY && base + i >= |text|
    ensures ShowsFrom(xs, ys, cells[i := CURSOR][i := SPACE], text, base)
  {
  }

  /** The cells after the character itself, before any correction of the cursor. */
  lemma TypedShows(xs: nat, ys: nat, t: Log, g: Grid, ch: cchar)
    requires Fits(xs, ys) && Proper(xs, t) && Window(xs, ys, t, g) && (IsNewline(ch) || !IsControl(ch))
    ensures ShowsFrom(xs, ys, Moved(xs, ys, Put(xs, ys, g, SPACE), ch).cells, Typed(xs, t, ch).text, Row(xs, Top(ys, t.row)))
  {
    CursorIsAtEnd(xs, ys, t, g);
  }

  lemma OneRow(xs: nat)
    ensures Row(xs, 1) == xs
  {
  }

  lemma CursorBehind(xs: nat, ys: nat, cells: seq<cchar>, t: Log, r: Grid, top: nat)
    requires Fits(xs, ys) && Proper(xs, t) && ShowsFrom(xs, ys, cells, t.text, Row(xs, top)) && top <= t.row
    requires Inside(xs, ys, r) && r.x == t.col && r.y == t.row - top
    requires Index(xs, r.x, r.y) < CAPACITY && r.cells == cells[Index(xs, r.x, r.y) := CURSOR]
    ensures ShowsFrom(xs, ys, r.cells[Index(xs, r.x, r.y) := SPACE], t.text, Row(xs, top))
  {
    RowsAdd(xs, top, r.y);
    CursorHidesNothing(xs, ys, cells, t.text, Row(xs, top), Index(xs, r.x, r.y));
  }

  /** One character keeps the grid a window on the log. */
  lemma PutCharShows(xs: nat, ys: nat, t: Log, g: Grid, ch: cchar)
    requires Fits(xs, ys) && Proper(xs, t) && Window(xs, ys, t, g) && (IsNewline(ch) || !IsControl(ch))
    ensures Window(xs, ys, Typed(xs, t, ch), PutChar(xs, ys, g, ch))
  {
    var t', m := Typed(xs, t, ch), Moved(xs, ys, Put(xs, ys, g, SPACE), ch);
    var top, top' := Top(ys, t.row), Top(ys, t'.row);
    TypedShows(xs, ys, t, g, ch);
    var w := Wrapped(xs, m);
    assert w == Grid(m.cells, t'.col, t'.row - top);
    var r := PutChar(xs, ys, g, ch);
    hide ShowsFrom, Scrolled, Row, Moved, Put;
    if w.y >= ys {
      RowsAdd(xs, top, ys);
      assert Row(xs, top') == Row(xs, top) + xs by { RowsAdd(xs, top, 1); OneRow(xs); }
      ScrollShows(xs, ys, w.cells, t'.text, Row(xs, top));
      CursorBehind(xs, ys, Scrolled(xs, ys, w.cells), t', r, top');
    } else {
      CursorBehind(xs, ys, w.cells, t', r, top');
    }
  }

  // ---- control characters ----------------------------------------------------------------

  ghost predicate ShowsCursor(xs: nat, ys: nat, g: Grid) {
    Fits(xs, ys) && Inside(xs, ys, g) && Index(xs, g.x, g.y) < CAPACITY && g.cells[Index(xs, g.x, g.y)] == CURSOR
  }

  lemma NextCell(xs: nat, ys: nat, x: nat, y: nat)
    requires Fits(xs, ys) && x < xs && y < ys && (x + 1 < xs || y + 1 < ys)
    ensures Index(xs, x, y) + 1 < CAPACITY
    ensures Index(xs, x, y) + 1 == if x + 1 < xs then Index(xs, x + 1, y) else Index(xs, 0, y + 1)
  {
    if x + 1 < xs { IndexBound(xs, ys, x + 1, y); } else { IndexBound(xs, ys, 0, y + 1); }
  }

  predicate IsLastCell(xs: nat, ys: nat, g: Grid) {
    g.x + 1 == xs && g.y + 1 == ys
  }

  lemma TypeOne(xs: nat, ys: nat, g: Grid, ch: cchar)
    requires ShowsCursor(xs, ys, g) && !IsControl(ch) && !IsLastCell(xs, ys, g)
    requires Index(xs, g.x, g.y) + 1 < CAPACITY
    ensures PutChar(xs, ys, g, ch) == Grid(g.cells[Index(xs, g.x, g.y) := ch][Index(xs, g.x, g.y) + 1 := CURSOR],
      if g.x + 1 < xs then g.x + 1 else 0, if g.x + 1 < xs then g.y else g.y + 1)
  {
    NextCell(xs, ys, g.x, g.y);
    hide Row, Index, Scrolled;
  }

  /** Typing into the last cell scrolls the character up to the end of the row above. */
  lemma TypeLast(xs: nat, ys: nat, g: Grid, ch: cchar)
    requires ShowsCursor(xs, ys, g) && !IsControl(ch) && IsLastCell(xs, ys, g)
    ensures Index(xs, 0, ys - 1) < CAPACITY
    ensures PutChar(xs, ys, g, ch)
         == Grid(Scrolled(xs, ys, g.cells[Index(xs, g.x, g.y) := ch])[Index(xs, 0, ys - 1) := CURSOR], 0, ys - 1)
  {
    IndexBound(xs, ys, 0, ys - 1);
    hide Row, Index, Scrolled;
  }

  lemma BackOne(xs: nat, ys: nat, g: Grid, back: cchar)
    requires ShowsCursor(xs, ys, g) && (back == BACKSPACE || back == BELL) && (g.x > 0 || g.y > 0)
    ensures var x, y := if g.x > 0 then g.x - 1 else xs - 1, if g.x > 0 then g.y else g.y - 1;
      && Index(xs, x, y) + 1 == Index(xs, g.x, g.y)
      && PutChar(xs, ys, g, back) == Grid(g.cells[Index(xs, g.x, g.y) := SPACE][Index(xs, x, y) := CURSOR], x, y)
  {
    var x, y := if g.x > 0 then g.x - 1 else xs - 1, if g.x > 0 then g.y else g.y - 1;
    NextCell(xs, ys, x, y);
    hide Row, Index, Scrolled;
  }

  lemma BackHome(xs: nat, ys: nat, g: Grid, back: cchar)
    requires ShowsCursor(xs, ys, g) && (back == BACKSPACE || back == BELL) && g.x == 0 && g.y == 0
    ensures Index(xs, 0, 0) == 0 && PutChar(xs, ys, g, back) == Grid(g.cells[0 := SPACE][0 := CURSOR], 0, 0)
  {
    assert Index(xs, 0, 0) == 0;
    hide Row, Index, Scrolled;
  }

  /** What scrolling makes of the last cell and of the row below it. */
  lemma LastCellScrolls(xs: nat, ys: nat, g: Grid, ch: cchar)
    requires ShowsCursor(xs, ys, g) && IsLastCell(xs, ys, g) && Index(xs, 0, ys - 1) < CAPACITY
    ensures var i, j := Index(xs, xs - 1, ys - 1), Index(xs, 0, ys - 1);
      var s, t := Scrolled(xs, ys, g.cells), Scrolled(xs, ys, g.cells[i := ch]);
      && i < CAPACITY && s[j] == SPACE && t[j] == SPACE
      && (ys == 1 ==> s == t && j == 0)
      && (ys > 1 ==> j > 0 && t[j := SPACE][j - 1 := CURSOR] == s && t[j - 1] == ch)
  {
    IndexBound(xs, ys, xs - 1, ys - 1);
    var i, j := Index(xs, xs - 1, ys - 1), Index(xs, 0, ys - 1);
    assert i == j + xs - 1 && Row(xs, ys) == j + xs && Row(xs, ys - 1) == j;
    assert ys > 1 ==> Row(xs, ys - 1) == Row(xs, ys - 2) + xs;
    var s, t := Scrolled(xs, ys, g.cells), Scrolled(xs, ys, g.cells[i := ch]);
    assert forall k :: 0 <= k < CAPACITY && k != j - 1 ==> s[k] == t[k];
    if ys > 1 {
      assert s[j - 1] == g.cells[i] == CURSOR;
    }
  }

  /** A backspace, or a bell, takes back the printable character before it, also across the end of a row.
      Only the cell behind the cursor is lost, and nothing at all when that was blank. After the last cell,
      where typing scrolls, the screen stays scrolled and the cursor goes back to the scrolled cell; on a
      screen of one row it goes home. */
  lemma BackspaceTakesBack(xs: nat, ys: nat, g: Grid, ch: cchar, back: cchar)
    requires ShowsCursor(xs, ys, g) && !IsControl(ch) && (back == BACKSPACE || back == BELL)
    ensures !IsLastCell(xs, ys, g) ==> Index(xs, g.x, g.y) + 1 < CAPACITY
    ensures PutChar(xs, ys, PutChar(xs, ys, g, ch), back) ==
      if !IsLastCell(xs, ys, g) then g.(cells := g.cells[Index(xs, g.x, g.y) + 1 := SPACE])
      else if ys > 1 then Grid(Scrolled(xs, ys, g.cells), xs - 1, ys - 2)
      else Grid(Scrolled(xs, ys, g.cells)[0 := CURSOR], 0, 0)
  {
    hide PutChar, Scrolled;
    if !IsLastCell(xs, ys, g) {
      NextCell(xs, ys, g.x, g.y);
      TypeOne(xs, ys, g, ch);
      BackOne(xs, ys, PutChar(xs, ys, g, ch), back);
      assert g.cells == g.cells[Index(xs, g.x, g.y) := CURSOR];
    } else {
      TypeLast(xs, ys, g, ch);
      LastCellScrolls(xs, ys, g, ch);
      if ys > 1 {
        BackOne(xs, ys, PutChar(xs, ys, g, ch), back);
      } else {
        BackHome(xs, ys, PutChar(xs, ys, g, ch), back);
      }
    }
  }

  /** The row in which a character typed at the cursor ends up, once a form feed has followed. */
  function RowTyped(ys: nat, g: Grid): int {
    if g.y + 1 < ys then g.y else g.y - 1
  }

  lemma ScrollMovesUp(xs: nat, ys: nat, cells: seq<cchar>, x: nat, y: nat)
    requires Fits(xs, ys) && |cells| == CAPACITY && x < xs && y + 1 < ys
    ensures Index(xs, x, y + 1) < CAPACITY && Index(xs, x, y) < Row(xs, ys - 1)
    ensures Scrolled(xs, ys, cells)[Index(xs, x, y)] == cells[Index(xs, x, y + 1)]
  {
    IndexBound(xs, ys, x, y + 1);
    IndexBound(xs, ys - 1, x, y);
  }

  /** A newline, or a return, goes to the start of the next row, or of the last one after scrolling. */
  lemma NewlineGoesDown(xs: nat, ys: nat, g: Grid, ch: cchar) returns (y: nat)
    requires ShowsCursor(xs, ys, g) && (ch == NEWLINE || ch == RETURN)
    ensures y == (if g.y + 1 < ys then g.y + 1 else ys - 1) && Index(xs, 0, y) < CAPACITY
    ensures var erased := g.cells[Index(xs, g.x, g.y) := SPACE];
      PutChar(xs, ys, g, ch)
      == Grid((if g.y + 1 < ys then erased else Scrolled(xs, ys, erased))[Index(xs, 0, y) := CURSOR], 0, y)
  {
    y := if g.y + 1 < ys then g.y + 1 else ys - 1;
    IndexBound(xs, ys, 0, y);
    hide Row, Index, Scrolled;
  }

  /** An escape goes two rows up, or home from the first two rows, and erases nothing else. */
  lemma EscapeGoesUp(xs: nat, ys: nat, g: Grid) returns (x: nat, y: nat)
    requires ShowsCursor(xs, ys, g)
    ensures if g.y >= 2 then x == g.x && y == g.y - 2 else x == 0 && y == 0
    ensures Index(xs, x, y) < CAPACITY
    ensures PutChar(xs, ys, g, ESCAPE) == Grid(g.cells[Index(xs, g.x, g.y) := SPACE][Index(xs, x, y) := CURSOR], x, y)
  {
    if g.y >= 2 { x, y := g.x, g.y - 2; } else { x, y := 0, 0; }
    IndexBound(xs, ys, x, y);
    hide Row, Index, Scrolled;
  }

  /** Where a form feed goes, and the cells it leaves. */
  lemma FeedOne(xs: nat, ys: nat, g: Grid) returns (x: nat, y: nat)
    requires ShowsCursor(xs, ys, g)
    ensures x < xs && y < ys && Index(xs, x, y) < CAPACITY
    ensures if g.x == 0 then x == xs - 1 && y == g.y
            else if g.y + 1 < ys then x == g.x - 1 && y == g.y + 1
            else x == 0 && y == ys - 1
    ensures var erased := g.cells[Index(xs, g.x, g.y) := SPACE];
      PutChar(xs, ys, g, FORM_FEED)
      == Grid((if g.x > 0 && g.y + 1 == ys then Scrolled(xs, ys, erased) else erased)[Index(xs, x, y) := CURSOR], x, y)
  {
    if g.x == 0 { x, y := xs - 1, g.y; }
    else if g.y + 1 < ys { x, y := g.x - 1, g.y + 1; }
    else { x, y := 0, ys - 1; }
    IndexBound(xs, ys, x, y);
    hide Row, Index, Scrolled;
  }

  lemma RowAbove(xs: nat, x: nat, y: nat, z: nat, w: nat)
    requires x < xs && y < z
    ensures Index(xs, x, y) < Index(xs, w, z)
  {
    RowsInOrder(xs, y, z);
  }

  /** A form feed after a printable character puts the cursor on the row below that character, and right
      below it unless that had to scroll from the middle of the last row. */
  lemma FormFeedGoesBelow(xs: nat, ys: nat, g: Grid, ch: cchar)
    requires ShowsCursor(xs, ys, g) && !IsControl(ch) && ys > 1
    ensures var r := PutChar(xs, ys, PutChar(xs, ys, g, ch), FORM_FEED);
      && r.y == RowTyped(ys, g) + 1
      && Index(xs, g.x, RowTyped(ys, g)) < CAPACITY && r.cells[Index(xs, g.x, RowTyped(ys, g))] == ch
      && (r.x == g.x <==> g.y + 1 < ys || g.x == 0 || g.x + 1 == xs)
  {
    hide PutChar, Scrolled;
    var typed := PutChar(xs, ys, g, ch);
    IndexBound(xs, ys, g.x, RowTyped(ys, g));
    var x, y := FeedOne(xs, ys, typed);
    RowAbove(xs, g.x, RowTyped(ys, g), RowTyped(ys, g) + 1, x);
    if IsLastCell(xs, ys, g) {
      TypeLast(xs, ys, g, ch);
      ScrollMovesUp(xs, ys, g.cells[Index(xs, g.x, g.y) := ch], g.x, g.y - 1);
    } else {
      NextCell(xs, ys, g.x, g.y);
      TypeOne(xs, ys, g, ch);
      if g.y + 1 == ys {
        ScrollMovesUp(xs, ys, typed.cells[Index(xs, typed.x, typed.y) := SPACE], g.x, g.y - 1);
      }
    }
  }

  /** After any string of printable characters and newlines written since a reset, every cell but the
      cursor's shows the last `ys` rows of the transcript, and the cursor shows as `_` where the next
      character will go. */
  lemma {:induction false} GridShowsTranscript(xs: nat, ys: nat, g: Grid, s: seq<cchar>)
    requires Fits(xs, ys) && Inside(xs, ys, g) && g.x == 0 && g.y == 0
    requires forall k :: 0 <= k < Row(xs, ys) ==> g.cells[k] == SPACE
    requires forall k :: 0 <= k < |s| ==> IsNewline(s[k]) || !IsControl(s[k])
    ensures var (r, t) := (GridOf(xs, ys, g, s), LogOf(xs, s));
      && Window(xs, ys, t, r)
      && (s != [] ==> r.cells[Index(xs, r.x, r.y)] == CURSOR)
      && Row(xs, Top(ys, t.row)) + Index(xs, r.x, r.y) == |t.text|
    decreases |s|
  {
    var r, t := GridOf(xs, ys, g, s), LogOf(xs, s);
    if s == [] {
      IndexBound(xs, ys, 0, 0);
    } else {
      var rest := s[..|s| - 1];
      GridShowsTranscript(xs, ys, g, rest);
      PutCharShows(xs, ys, LogOf(xs, rest), GridOf(xs, ys, g, rest), s[|s| - 1]);
    }
    CursorIsAtEnd(xs, ys, t, r);
  }
}
