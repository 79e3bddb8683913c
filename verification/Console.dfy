/** The character grid behind the console of console.c; drawing is left aside. */
module Console {
  import opened CStrings

  const CAPACITY: nat := 786432
  const SPACE: cchar := 32
  const CURSOR: cchar := 95
  const BELL: cchar := 7
  const BACKSPACE: cchar := 8
  const NEWLINE: cchar := 10
  const FORM_FEED: cchar := 12
  const RETURN: cchar := 13
  const ESCAPE: cchar := 27

  // ---- specification -------------------------------------------------------------------

  datatype Grid = Grid(cells: seq<cchar>, x: int, y: int)

  /** Offset of row `y` of a grid `xs` wide. */
  function Row(xs: nat, y: nat): nat {
    if y == 0 then 0 else Row(xs, y - 1) + xs
  }

  lemma {:induction false} RowIsProduct(xs: nat, y: nat)
    ensures Row(xs, y) == y * xs
  {
    if y > 0 {
      RowIsProduct(xs, y - 1);
      assert (y - 1) * xs + xs == y * xs;
    }
  }

  lemma {:induction false} RowsInOrder(xs: nat, y: nat, z: nat)
    requires y < z
    ensures Row(xs, y) + xs <= Row(xs, z)
    decreases z
  {
    if y + 1 < z { RowsInOrder(xs, y, z - 1); }
  }

  predicate Fits(xs: nat, ys: nat) {
    xs > 0 && ys > 0 && Row(xs, ys) <= CAPACITY
  }

  predicate Inside(xs: nat, ys: nat, g: Grid) {
    |g.cells| == CAPACITY && 0 <= g.x < xs && 0 <= g.y < ys
  }

  function Index(xs: nat, x: nat, y: nat): nat {
    x + Row(xs, y)
  }

  lemma IndexBound(xs: nat, ys: nat, x: nat, y: nat)
    requires x < xs && y < ys
    ensures Index(xs, x, y) < Row(xs, ys)
  {
    RowsInOrder(xs, y, ys);
  }

  function Put(xs: nat, ys: nat, g: Grid, ch: cchar): (r: Grid)
    requires Fits(xs, ys) && Inside(xs, ys, g)
    ensures Index(xs, g.x, g.y) < CAPACITY && r == g.(cells := g.cells[Index(xs, g.x, g.y) := ch]) && Inside(xs, ys, r)
  {
    IndexBound(xs, ys, g.x, g.y);
    g.(cells := g.cells[Index(xs, g.x, g.y) := ch])
  }

  predicate IsNewline(ch: cchar) {
    ch == NEWLINE || ch == RETURN
  }

  predicate IsControl(ch: cchar) {
    IsNewline(ch) || ch == FORM_FEED || ch == BELL || ch == ESCAPE || ch == BACKSPACE
  }

  /** The switch of `console_putchar`, with the cursor possibly off the grid afterwards. */
  function Moved(xs: nat, ys: nat, g: Grid, ch: cchar): (r: Grid)
    requires Fits(xs, ys) && Inside(xs, ys, g)
  {
    if IsNewline(ch) then g.(x := 0, y := g.y + 1)
    else if ch == FORM_FEED then g.(x := g.x - 1, y := g.y + 1)
    else if ch == BELL || ch == BACKSPACE then g.(x := g.x - 1)
    else if ch == ESCAPE then g.(y := g.y - 2)
    else var p := Put(xs, ys, g, ch); p.(x := p.x + 1)
  }

  /** The corrections of a cursor that left the grid sideways or at the top. */
  function Wrapped(xs: nat, g: Grid): Grid {
    var a := if g.x < 0 then g.(x := xs - 1, y := g.y - 1) else g;
    var b := if a.x >= xs then a.(x := 0, y := a.y + 1) else a;
    if b.y < 0 then b.(x := 0, y := 0) else b
  }

  /** One row up, the last row blank. */
  function Scrolled(xs: nat, ys: nat, cells: seq<cchar>): (r: seq<cchar>)
    requires Fits(xs, ys) && |cells| == CAPACITY
    ensures |r| == CAPACITY
  {
    seq(CAPACITY, k requires 0 <= k < CAPACITY =>
      if k < Row(xs, ys - 1) then cells[k + xs] else if k < Row(xs, ys) then SPACE else cells[k])
  }

  /** `console_putchar`: whatever the character, the cursor ends inside the grid. */
  function PutChar(xs: nat, ys: nat, g: Grid, ch: cchar): (r: Grid)
    requires Fits(xs, ys) && Inside(xs, ys, g)
    ensures Inside(xs, ys, r) && Index(xs, r.x, r.y) < CAPACITY && r.cells[Index(xs, r.x, r.y)] == CURSOR
  {
    var w := Wrapped(xs, Moved(xs, ys, Put(xs, ys, g, SPACE), ch));
    var s := if w.y >= ys then Grid(Scrolled(xs, ys, w.cells), 0, ys - 1) else w;
    IndexBound(xs, ys, s.x, s.y);
    Put(xs, ys, s, CURSOR)
  }

  /** The grid after a whole string. */
  function GridOf(xs: nat, ys: nat, g: Grid, s: seq<cchar>): (r: Grid)
    requires Fits(xs, ys) && Inside(xs, ys, g)
    ensures Inside(xs, ys, r)
  {
    if s == [] then g else PutChar(xs, ys, GridOf(xs, ys, g, s[..|s| - 1]), s[|s| - 1])
  }

  // ---- the code ------------------------------------------------------------------------

  class Screen {
    const buffer: array<cchar>
    var xsize: nat
    var ysize: nat
    var xpos: int
    var ypos: int

    ghost predicate Valid()
      reads this
    {
      buffer.Length == CAPACITY && Fits(xsize, ysize) && 0 <= xpos < xsize && 0 <= ypos < ysize
    }

    ghost function Abs(): Grid
      reads this, buffer
    {
      Grid(buffer[..], xpos, ypos)
    }

    /** `console_reset` for a display of `xs` by `ys` characters. */
    method Reset(xs: nat, ys: nat)
      requires buffer.Length == CAPACITY && Fits(xs, ys)
      modifies this, buffer
      ensures Valid() && xsize == xs && ysize == ys && xpos == 0 && ypos == 0
      ensures forall k :: 0 <= k < Row(xs, ys) ==> buffer[k] == SPACE
    {
      xsize, ysize := xs, ys;
      RowIsProduct(xs, ys);
      var count := xsize * ysize;
      for i := 0 to count
        invariant xsize == xs && ysize == ys && forall k :: 0 <= k < i ==> buffer[k] == SPACE
      {
        buffer[i] := SPACE;
      }
      xpos, ypos := 0, 0;
    }

    method WriteChar(x: nat, y: nat, ch: cchar)
      requires buffer.Length == CAPACITY && Fits(xsize, ysize) && x < xsize && y < ysize
      modifies buffer
      ensures Index(xsize, x, y) < CAPACITY && buffer[..] == old(buffer[..])[Index(xsize, x, y) := ch]
    {
      IndexBound(xsize, ysize, x, y);
      RowIsProduct(xsize, y);
      buffer[x + y * xsize] := ch;
    }

    method MoveRow(i: nat, ghost before: seq<cchar>)
      requires buffer.Length == CAPACITY == |before| && Row(xsize, i + 1) + xsize <= CAPACITY
      requires forall k :: 0 <= k < Row(xsize, i) ==> buffer[k] == before[k + xsize]
      requires forall k :: Row(xsize, i) <= k < CAPACITY ==> buffer[k] == before[k]
      modifies buffer
      ensures forall k :: 0 <= k < Row(xsize, i + 1) ==> buffer[k] == before[k + xsize]
      ensures forall k :: Row(xsize, i + 1) <= k < CAPACITY ==> buffer[k] == before[k]
    {
      ghost var base := Row(xsize, i);
      for j := 0 to xsize
        invariant forall k :: 0 <= k < base + j ==> buffer[k] == before[k + xsize]
        invariant forall k :: base + j <= k < CAPACITY ==> buffer[k] == before[k]
      {
        RowIsProduct(xsize, i);
        RowIsProduct(xsize, i + 1);
        buffer[j + i * xsize] := buffer[j + (i + 1) * xsize];
      }
    }

    method MoveRows()
      requires buffer.Length == CAPACITY && Fits(xsize, ysize)
      modifies buffer
      ensures Row(xsize, ysize - 1) + xsize <= CAPACITY
      ensures forall k :: 0 <= k < Row(xsize, ysize - 1) ==> buffer[k] == old(buffer[k + xsize])
      ensures forall k :: Row(xsize, ysize - 1) <= k < CAPACITY ==> buffer[k] == old(buffer[k])
    {
      ghost var before := buffer[..];
      RowsInOrder(xsize, 0, ysize);
      for i := 0 to ysize - 1
        invariant Row(xsize, i) + xsize <= CAPACITY
        invariant forall k :: 0 <= k < Row(xsize, i) ==> buffer[k] == before[k + xsize]
        invariant forall k :: Row(xsize, i) <= k < CAPACITY ==> buffer[k] == before[k]
      {
        RowsInOrder(xsize, i + 1, ysize);
        MoveRow(i, before);
      }
    }

    method ClearRow(y: nat)
      requires buffer.Length == CAPACITY && Row(xsize, y) + xsize <= CAPACITY
      modifies buffer
      ensures forall k :: 0 <= k < CAPACITY ==>
        buffer[k] == if Row(xsize, y) <= k < Row(xsize, y) + xsize then SPACE else old(buffer[k])
    {
      for j := 0 to xsize
        invariant forall k :: 0 <= k < CAPACITY ==>
          buffer[k] == if Row(xsize, y) <= k < Row(xsize, y) + j then SPACE else old(buffer[k])
      {
        RowIsProduct(xsize, y);
        buffer[j + y * xsize] := SPACE;
      }
    }

    /** Moves the rows up and clears the last one. The code also redraws every cell with the character
        it already holds. */
    method Scroll()
      requires buffer.Length == CAPACITY && Fits(xsize, ysize)
      modifies buffer
      ensures buffer[..] == Scrolled(xsize, ysize, old(buffer[..]))
    {
      MoveRows();
      ClearRow(ysize - 1);
      assert Row(xsize, ysize) == Row(xsize, ysize - 1) + xsize;
    }

    /** The switch over the character. */
    method Move(ch: cchar)
      requires Valid()
      modifies this`xpos, this`ypos, buffer
      ensures Abs() == Moved(xsize, ysize, old(Abs()), ch)
    {
      if ch == NEWLINE || ch == RETURN {
        xpos, ypos := 0, ypos + 1;
      } else if ch == FORM_FEED {
        xpos, ypos := xpos - 1, ypos + 1;
      } else if ch == BELL {
        xpos := xpos - 1;
      } else if ch == ESCAPE {
        ypos := ypos - 2;
      } else if ch == BACKSPACE {
        xpos := xpos - 1;
      } else {
        WriteChar(xpos, ypos, ch);
        xpos := xpos + 1;
      }
    }

    method ConsolePutChar(ch: cchar)
      requires Valid()
      modifies this`xpos, this`ypos, buffer
      ensures Valid() && Abs() == PutChar(xsize, ysize, old(Abs()), ch)
    {
      hide Row, Index, Scrolled, Moved;
      WriteChar(xpos, ypos, SPACE);
      assert Abs() == Put(xsize, ysize, old(Abs()), SPACE);
      Move(ch);
      if xpos < 0 { xpos, ypos := xsize - 1, ypos - 1; }
      if xpos >= xsize { xpos, ypos := 0, ypos + 1; }
      if ypos < 0 { xpos, ypos := 0, 0; }
      if ypos >= ysize {
        Scroll();
        xpos, ypos := 0, ysize - 1;
      }
      WriteChar(xpos, ypos, CURSOR);
    }

    /** `console_write`. */
    method ConsoleWrite(s: seq<cchar>)
      requires Valid()
      modifies this`xpos, this`ypos, buffer
      ensures Valid() && Abs() == GridOf(xsize, ysize, old(Abs()), s)
    {
      hide PutChar;
      for i := 0 to |s|
        invariant Valid() && Abs() == GridOf(xsize, ysize, old(Abs()), s[..i])
      {
        ConsolePutChar(s[i]);
        assert s[..i + 1][..i] == s[..i];
      }
      assert s[..|s|] == s;
    }
  }
}
