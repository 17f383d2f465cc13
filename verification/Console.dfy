/** The text console of kernel/dev/bcon.c and kernel/arch/i386/dev/bcon.c: a 25 by 80 window in video
    memory that scrolls by copying itself up one row.  It shows the end of a page that never scrolls. */
module Console {
  import opened Words

  const COLS: nat := 80
  const ROWS: nat := 25
  const CELLS: nat := 2000
  /** Every offset the 16 bit cursor register can hold is an offset into this much video memory. */
  const VIDEO: nat := 0x20000
  const SPACE: nat := 32

  // ---------------------------------------------------------------- the page

  datatype Cell = Cell(ch: nat, attr: nat)

  /** Text on an unbounded page.  `pos` is the cell of the cursor, counted from the top of the page, and
      `low` the lowest row it has been in.  Cells that are not in the map are blank. */
  datatype Page = Page(cells: map<nat, Cell>, pos: nat, low: nat)

  function At(p: Page, i: nat, attr: nat): Cell { if i in p.cells then p.cells[i] else Cell(SPACE, attr) }

  /** The row of the page that is at the top of the screen. */
  function Top(p: Page): nat { if p.low >= ROWS then p.low - (ROWS - 1) else 0 }

  function Moved(p: Page, pos: nat): Page { p.(pos := pos, low := if pos / COLS > p.low then pos / COLS else p.low) }

  function Typed(p: Page, c: nat, attr: nat): Page
  {
    Moved(p.(cells := p.cells[p.pos := Cell(c % 256, attr)]), p.pos + 1)
  }

  /** What a character does to the page. */
  function Put(p: Page, c: nat, attr: nat): Page
  {
    if c == 13 then Moved(p, p.pos - p.pos % COLS)
    else if c == 10 then Moved(p, (p.pos / COLS + 1) * COLS)
    else if c == 9 then Typed(Typed(Typed(Typed(p, SPACE, attr), SPACE, attr), SPACE, attr), SPACE, attr)
    else if c == 8 then
      if p.pos == 0 then p
      else p.(cells := p.cells[p.pos - 1 := Cell(SPACE, attr)], pos := p.pos - 1)
    else Typed(p, c, attr)
  }

  function PutAll(p: Page, s: seq<nat>, attr: nat): Page
    decreases |s|
  {
    if s == [] then p else PutAll(Put(p, s[0], attr), s[1..], attr)
  }

  /** Every cell that is not one of the `n` from `from` on is the same. */
  ghost predicate OthersSame(p: Page, q: Page, from: nat, n: nat, attr: nat)
  {
    forall i: nat :: !(from <= i < from + n) ==> At(q, i, attr) == At(p, i, attr)
  }

  ghost predicate BlankFrom(q: Page, from: nat, n: nat, attr: nat)
  {
    forall i: nat :: from <= i < from + n ==> i in q.cells && q.cells[i] == Cell(32, attr)
  }

  /** A tab is four spaces. */
  lemma TabExact(p: Page, attr: nat)
    ensures var q := Put(p, 9, attr);
      && q == PutAll(p, [32, 32, 32, 32], attr) && q.pos == p.pos + 4
      && BlankFrom(q, p.pos, 4, attr) && OthersSame(p, q, p.pos, 4, attr)
  {
    hide Moved;
    FourPut(p, 32, attr);
    TypedExact(p, SPACE, attr);
    var q1 := Typed(p, SPACE, attr);
    TypedExact(q1, SPACE, attr);
    var q2 := Typed(q1, SPACE, attr);
    TypedExact(q2, SPACE, attr);
    TypedExact(Typed(q2, SPACE, attr), SPACE, attr);
  }

  lemma FourPut(p: Page, c: nat, attr: nat)
    ensures PutAll(p, [c, c, c, c], attr) == Put(Put(Put(Put(p, c, attr), c, attr), c, attr), c, attr)
  {
    hide Put;
    var s := [c, c, c, c];
    assert s[1..] == [c, c, c] && [c, c, c][1..] == [c, c] && [c, c][1..] == [c] && [c][1..] == [];
    var p1 := Put(p, c, attr);
    var p2 := Put(p1, c, attr);
    assert PutAll(p, s, attr) == PutAll(p1, [c, c, c], attr) == PutAll(p2, [c, c], attr);
    assert PutAll(p2, [c, c], attr) == PutAll(Put(p2, c, attr), [c], attr);
  }

  lemma TypedExact(p: Page, c: nat, attr: nat)
    ensures var q := Typed(p, c, attr);
      q.pos == p.pos + 1 && q.cells == p.cells[p.pos := Cell(c % 256, attr)]
  {
  }

  /** A carriage return goes to the beginning of the row, a line feed to that of the next; a backspace blanks the
      cell before the cursor and goes there, unless there is none; any other character but a tab takes one cell. */
  lemma PutExact(p: Page, c: nat, attr: nat)
    ensures var q := Put(p, 13, attr); q.cells == p.cells && q.pos / 80 == p.pos / 80 && q.pos % 80 == 0
    ensures var q := Put(p, 10, attr); q.cells == p.cells && q.pos / 80 == p.pos / 80 + 1 && q.pos % 80 == 0
    ensures var q := Put(p, 8, attr);
      if p.pos == 0 then q == p
      else q.pos == p.pos - 1 && BlankFrom(q, p.pos - 1, 1, attr) && OthersSame(p, q, p.pos - 1, 1, attr)
    ensures c !in {8, 9, 10, 13} ==>
      var q := Put(p, c, attr);
      q.pos == p.pos + 1 && At(q, p.pos, attr) == Cell(c % 256, attr) && OthersSame(p, q, p.pos, 1, attr)
  {
    RowStart(p.pos);
  }

  /** The lowest row the cursor has been in grows with the cursor. */
  lemma LowestRow(p: Page, c: nat, attr: nat)
    requires p.pos / 80 <= p.low
    ensures var q := Put(p, c, attr); p.low <= q.low && q.pos / 80 <= q.low && (q.low == p.low || q.low == q.pos / 80)
  {
  }

  lemma RowStart(pos: nat)
    ensures (pos - pos % COLS) / 80 == pos / 80 && (pos - pos % COLS) % 80 == 0
    ensures (pos / COLS + 1) * COLS / 80 == pos / 80 + 1 && (pos / COLS + 1) * COLS % 80 == 0
  {
  }

  // ---------------------------------------------------------------- the window

  ghost predicate CellIs(vid: seq<nat>, i: nat, c: Cell)
  {
    2 * i + 1 < |vid| && vid[2 * i] == c.ch && vid[2 * i + 1] == c.attr
  }

  /** The screen shows the last rows of the page, and the cursor is where the page's is. */
  ghost predicate Shows(vid: seq<nat>, cursor: nat, p: Page, attr: nat)
  {
    && |vid| == VIDEO
    && Top(p) * COLS <= p.pos < (Top(p) + ROWS) * COLS && p.pos / COLS <= p.low
    && cursor == p.pos - Top(p) * COLS
    && (forall i :: i in p.cells ==> i / COLS <= p.low)
    && (forall i :: 0 <= i < CELLS ==> Seen(vid, p, attr, i))
  }

  /** The i-th cell of the screen is the cell of the page at that place below the top row. */
  ghost predicate Seen(vid: seq<nat>, p: Page, attr: nat, i: nat)
  {
    CellIs(vid, i, At(p, Top(p) * COLS + i, attr))
  }

  // ---------------------------------------------------------------- what keeps the window

  /** A cell written at the cursor is a cell written on the page. */
  lemma WriteShows(vid: seq<nat>, cursor: nat, p: Page, attr: nat, c: Cell)
    requires Shows(vid, cursor, p, attr)
    ensures Shows(vid[2 * cursor := c.ch][2 * cursor + 1 := c.attr], cursor, p.(cells := p.cells[p.pos := c]), attr)
  {
    var vid', p' := vid[2 * cursor := c.ch][2 * cursor + 1 := c.attr], p.(cells := p.cells[p.pos := c]);
    forall i | 0 <= i < CELLS ensures Seen(vid', p', attr, i) {
      assert Seen(vid, p, attr, i);
    }
  }

  /** Moving the cursor within the window changes nothing else. */
  lemma MoveShows(vid: seq<nat>, cursor: nat, p: Page, attr: nat, pos: nat)
    requires Shows(vid, cursor, p, attr)
    requires Top(p) * COLS <= pos < (Top(p) + ROWS) * COLS
    ensures Shows(vid, pos - Top(p) * COLS, Moved(p, pos), attr) && Top(Moved(p, pos)) == Top(p)
  {
    var p' := Moved(p, pos);
    forall i | 0 <= i < CELLS ensures Seen(vid, p', attr, i) {
      assert Seen(vid, p, attr, i);
    }
  }

  /** Video memory shifted up one row with a blank last row. */
  ghost predicate Shifted(vid: seq<nat>, vid': seq<nat>, attr: nat)
  {
    && |vid| == |vid'| == VIDEO
    && (forall i :: 0 <= i < CELLS - COLS ==>
         vid'[2 * i] == vid[2 * (i + COLS)] && vid'[2 * i + 1] == vid[2 * (i + COLS) + 1])
    && (forall i :: CELLS - COLS <= i < CELLS ==> vid'[2 * i] == SPACE && vid'[2 * i + 1] == attr)
  }

  /** `n` bytes from byte `from` on are blank cells; all others are as before. */
  ghost predicate Blanked(v: seq<nat>, v': seq<nat>, from: nat, n: nat, attr: nat)
  {
    |v| == |v'| && forall k :: 0 <= k < |v| ==>
      (v'[k] == if from <= k < from + n then (if k % 2 == 0 then SPACE else attr) else v[k])
  }

  /** `bytes` bytes have been copied from `src` to `dest` as they were before the copy. */
  ghost predicate Copied(v: seq<nat>, v': seq<nat>, dest: nat, src: nat, bytes: nat)
    requires dest <= src && src + bytes <= |v|
  {
    && |v| == |v'|
    && (forall k :: dest <= k < dest + bytes ==> v'[k] == v[k + (src - dest)])
    && (forall k :: 0 <= k < dest ==> v'[k] == v[k])
    && (forall k :: dest + bytes <= k < |v| ==> v'[k] == v[k])
  }

  lemma ScrollShifts(v0: seq<nat>, v1: seq<nat>, v2: seq<nat>, v3: seq<nat>, attr: nat)
    requires |v0| == VIDEO && Blanked(v0, v1, CELLS * 2, COLS * 2, attr)
    requires Copied(v1, v2, 0, COLS * 2, CELLS * 2) && Blanked(v2, v3, (CELLS - COLS) * 2, COLS * 2, attr)
    ensures Shifted(v0, v3, attr)
  {
    forall i | 0 <= i < CELLS - COLS
      ensures v3[2 * i] == v0[2 * (i + COLS)] && v3[2 * i + 1] == v0[2 * (i + COLS) + 1]
    {
      assert v2[2 * i] == v1[2 * i + 2 * COLS] && v2[2 * i + 1] == v1[2 * i + 1 + 2 * COLS];
    }
  }

  /** A cursor that has left the last row at the bottom is brought back by a one row shift. */
  lemma ScrollShows(vid: seq<nat>, vid': seq<nat>, cursor: nat, p: Page, attr: nat)
    requires Shows(vid, cursor, p, attr) && cursor >= CELLS - COLS && Shifted(vid, vid', attr)
    ensures Shows(vid', CELLS - COLS, Moved(p, (Top(p) + ROWS) * COLS), attr)
  {
    var p' := Moved(p, (Top(p) + ROWS) * COLS);
    assert Top(p') == Top(p) + 1;
    forall i | 0 <= i < CELLS ensures Seen(vid', p', attr, i) {
      if i < CELLS - COLS {
        assert Seen(vid, p, attr, i + COLS);
      } else {
        assert Top(p') * COLS + i !in p.cells;
      }
    }
  }

  class Screen {
    const vid: array<nat>
    var hi: nat
    var lo: nat
    const attrs: nat
    ghost var page: Page

    predicate Registers()
      reads this`hi, this`lo
    {
      hi < 256 && lo < 256
    }

    function Cursor(): nat
      reads this`hi, this`lo
    {
      hi * 256 + lo
    }

    ghost predicate Valid()
      reads this, vid
    {
      vid.Length == VIDEO && Registers() && Shows(vid[..], Cursor(), page, attrs)
    }

    /** The two register writes of bcon_set_cursor_pos and bcon_write_char. */
    method SetOffset(offset: nat)
      requires offset < WORD32
      modifies this`hi, this`lo
      ensures Registers() && Cursor() == offset % 0x10000
    {
      LowWord(offset);
      lo := offset % 256;
      hi := (offset / 256) % 256;
    }

    method GetPos() returns (x: nat, y: nat)
      requires Registers()
      ensures Cursor() == y * COLS + x && x < COLS && y == Cursor() / COLS
    {
      var offset := hi * 256 + lo;
      y, x := offset / COLS, offset % COLS;
    }

    method SetPos(x: nat, y: nat)
      requires x < WORD32 && y < WORD32
      modifies this`hi, this`lo
      ensures Registers() && Cursor() == (x + y * COLS) % WORD32 % 0x10000
    {
      SetOffset((x + y * COLS) % WORD32);
    }

    /** (v + d) in 32 bits. */
    static function Plus(v: nat, d: int): (r: nat)
      requires v < WORD32 && -1 <= d <= 1
      ensures 0 <= v + d < WORD32 ==> r == v + d
      ensures v + d == -1 ==> r == WORD32 - 1
    {
      (v + d) % WORD32
    }

    method CursorDown()
      requires Registers()
      modifies this`hi, this`lo
      ensures Registers() && Cursor() == (old(Cursor()) + COLS) % 0x10000
    {
      var x, y := GetPos();
      OneTurn(x + (y + 1) * COLS);
      SetPos(x, Plus(y, 1));
    }

    /** Above the first row lie the last values of the register. */
    method CursorUp()
      requires Registers()
      modifies this`hi, this`lo
      ensures Registers()
      ensures Cursor() == if old(Cursor()) < COLS then 0x10000 + old(Cursor()) - COLS else old(Cursor()) - COLS
    {
      var x, y := GetPos();
      if y == 0 { FullTurns(x); } else { OneTurn(x + (y - 1) * COLS); }
      SetPos(x, Plus(y, -1));
    }

    /** Left of the first cell lies the last value of the register. */
    method CursorLeft()
      requires Registers()
      modifies this`hi, this`lo
      ensures Registers() && Cursor() == if old(Cursor()) == 0 then 0xFFFF else old(Cursor()) - 1
    {
      var x, y := GetPos();
      OneTurn(Plus(x, -1) + y * COLS);
      SetPos(Plus(x, -1), y);
    }

    method CursorHome()
      requires Registers()
      modifies this`hi, this`lo
      ensures Registers() && Cursor() == old(Cursor()) / COLS * COLS
    {
      var x, y := GetPos();
      OneTurn(y * COLS);
      SetPos(0, y);
    }

    method OffEnd() returns (b: bool)
      requires Registers()
      ensures b <==> Cursor() >= CELLS
    {
      var x, y := GetPos();
      return x >= COLS || y >= ROWS;
    }

    // -------------------------------------------------------------- video memory

    /** bcon_clear_line */
    method ClearLine(y: nat)
      requires vid.Length == VIDEO && y <= ROWS
      modifies vid
      ensures Blanked(old(vid[..]), vid[..], y * COLS * 2, COLS * 2, attrs)
    {
      for i := 0 to COLS
        invariant Blanked(old(vid[..]), vid[..], y * COLS * 2, 2 * i, attrs)
      {
        vid[y * COLS * 2 + 2 * i] := SPACE;
        vid[y * COLS * 2 + 2 * i + 1] := attrs;
      }
    }

    /** memcpy from `src` down to `dest`: copying upwards through overlapping memory is a true shift. */
    method CopyDown(dest: nat, src: nat, bytes: nat)
      requires dest <= src && src + bytes <= vid.Length
      modifies vid
      ensures Copied(old(vid[..]), vid[..], dest, src, bytes)
    {
      ghost var v := vid[..];
      for i := 0 to bytes
        invariant Copied(v, vid[..], dest, src, i)
      {
        vid[dest + i] := vid[src + i];
      }
    }

    /** bcon_scroll_screen_up */
    method ScrollUp()
      requires vid.Length == VIDEO && Registers() && COLS <= Cursor() < CELLS + COLS
      modifies vid, this`hi, this`lo
      ensures Registers() && Cursor() == old(Cursor()) / COLS * COLS - COLS
      ensures Shifted(old(vid[..]), vid[..], attrs)
    {
      hide Blanked, Copied, Shifted, Cursor;
      RowAbove(Cursor());
      CursorUp();
      CursorHome();
      ghost var v0 := vid[..];
      ClearLine(ROWS);
      ghost var v1 := vid[..];
      CopyDown(0, COLS * 2, COLS * ROWS * 2);
      ghost var v2 := vid[..];
      ClearLine(ROWS - 1);
      ScrollShifts(v0, v1, v2, vid[..], attrs);
    }

    /** bcon_write_char */
    method WriteChar(c: nat)
      requires vid.Length == VIDEO && Registers()
      modifies vid, this`hi, this`lo
      ensures Registers() && Cursor() == (old(Cursor()) + 1) % 0x10000
      ensures vid[..] == old(vid[..][2 * Cursor() := c % 256][2 * Cursor() + 1 := attrs])
    {
      var offset := hi * 256 + lo;
      vid[offset * 2] := c % 256;
      vid[offset * 2 + 1] := attrs;
      SetOffset(offset + 1);
    }

    /** The default case of bcon_putchar, to which the spaces of a tab and of a backspace come too. */
    method Type(c: nat)
      requires vid.Length == VIDEO && Registers() && (Cursor() < CELLS || Cursor() == 0xFFFF)
      modifies vid, this
      ensures old(Cursor()) == 0xFFFF ==> Registers() && Cursor() == 0
      ensures old(Valid()) ==> Valid() && page == Typed(old(page), c, attrs)
      ensures old(Valid()) && old(Cursor()) < CELLS - 1 ==> Cursor() == old(Cursor()) + 1
    {
      hide Shows, Shifted, Typed, Cursor;
      ghost var p, cursor, v, shown := page, Cursor(), vid[..], Valid();
      if shown { Bounds(v, cursor, p, attrs); }
      page := Typed(p, c, attrs);
      NextCell(cursor);
      WriteChar(c);
      var off := OffEnd();
      if off { ScrollUp(); }
      if shown { TypedShows(v, vid[..], cursor, p, c, attrs); }
    }

    /** bcon_putchar of '\r'. */
    method CarriageReturn()
      requires Valid()
      modifies vid, this
      ensures Valid() && page == Put(old(page), 13, attrs)
    {
      hide Shows;
      Bounds(vid[..], Cursor(), page, attrs);
      CursorHome();
      MoveShows(vid[..], old(Cursor()), page, attrs, page.pos - page.pos % COLS);
      page := Moved(page, page.pos - page.pos % COLS);
    }

    /** bcon_putchar of '\n'. */
    method NewLine()
      requires Valid()
      modifies vid, this
      ensures Valid() && page == Put(old(page), 10, attrs)
    {
      hide Shows, Shifted, Moved, Top, Put, Cursor;
      ghost var p, cursor, next := page, Cursor(), (page.pos / COLS + 1) * COLS;
      Bounds(vid[..], cursor, p, attrs);
      NextRow(cursor, p.pos, Top(p));
      CursorDown();
      CursorHome();
      var off := OffEnd();
      if off {
        ScrollUp();
        ScrollShows(old(vid[..]), vid[..], cursor, p, attrs);
      } else {
        MoveShows(vid[..], cursor, p, attrs, next);
      }
      LeadsTo(p, attrs);
      page := Moved(p, next);
    }

    /** bcon_putchar of '\b'. */
    method BackSpace()
      requires Valid()
      modifies vid, this
      ensures old(Cursor()) > 0 ==> Valid() && page == Put(old(page), 8, attrs)
      ensures old(Cursor()) == 0 ==> Cursor() == 0xFFFF
    {
      hide Shows, Top, Moved, Typed, Put;
      ghost var p := page;
      Bounds(vid[..], Cursor(), p, attrs);
      if Cursor() > 0 { BackPage(p, attrs); }
      CursorLeft();
      if old(Cursor()) > 0 {
        MoveShows(vid[..], old(Cursor()), p, attrs, p.pos - 1);
        page := Moved(p, p.pos - 1);
      }
      label L:
      Type(SPACE);
      CursorLeft();
      if old(Cursor()) > 0 {
        MoveShows(vid[..], old@L(Cursor()) + 1, page, attrs, p.pos - 1);
        page := Moved(page, p.pos - 1);
      }
    }

    /** bcon_clear_screen: from any state, the screen shows an empty page. */
    method ClearScreen()
      requires vid.Length == VIDEO
      modifies vid, this
      ensures Valid() && page == Page(map[], 0, 0)
    {
      hide Shows;
      for i := 0 to ROWS
        invariant forall k :: 0 <= k < i * COLS ==> CellIs(vid[..], k, Cell(SPACE, attrs))
      {
        ghost var v := vid[..];
        ClearLine(i);
        RowBlank(v, vid[..], i, attrs);
      }
      SetPos(0, 0);
      page := Page(map[], 0, 0);
      BlankShows(vid[..], attrs);
    }

    /** bcon_write: the screen shows what the page looks like after the whole text. */
    method Write(buff: seq<nat>)
      requires Valid() && Tame(page, buff, attrs) && forall i :: 0 <= i < |buff| ==> buff[i] < 256
      modifies vid, this
      ensures Valid() && page == PutAll(old(page), buff, attrs)
    {
      hide Shows;
      ghost var p := page;
      for i := 0 to |buff|
        invariant Valid() && page == PutAll(p, buff[..i], attrs)
      {
        assert buff[..i + 1] == buff[..i] + [buff[i]];
        PutAllSnoc(p, buff[..i], buff[i], attrs);
        TamePrefix(p, buff, i + 1, attrs);
        Bounds(vid[..], Cursor(), page, attrs);
        PutChar(buff[i]);
      }
      assert buff[..|buff|] == buff;
    }

    /** bcon_putchar.  The screen goes on showing the page exactly when the character is not a backspace
        in the first cell of the screen; such a backspace leaves the cursor off the screen. */
    method PutChar(c: nat)
      requires Valid() && c < 256
      modifies vid, this
      ensures Valid() <==> !(c == 8 && old(Cursor()) == 0)
      ensures Valid() ==> page == Put(old(page), c, attrs)
      ensures !Valid() ==> Cursor() == 0xFFFF
    {
      if c == 13 {
        CarriageReturn();
      } else if c == 10 {
        NewLine();
      } else if c == 9 {
        Type(SPACE);
        Type(SPACE);
        Type(SPACE);
        Type(SPACE);
      } else if c == 8 {
        BackSpace();
      } else {
        Type(c);
      }
    }
  }

  lemma RowBlank(v: seq<nat>, v': seq<nat>, y: nat, attr: nat)
    requires |v| == VIDEO && Blanked(v, v', y * COLS * 2, COLS * 2, attr) && y < ROWS
    requires forall k :: 0 <= k < y * COLS ==> CellIs(v, k, Cell(SPACE, attr))
    ensures forall k :: 0 <= k < (y + 1) * COLS ==> CellIs(v', k, Cell(SPACE, attr))
  {
    forall k | 0 <= k < (y + 1) * COLS ensures CellIs(v', k, Cell(SPACE, attr)) {
      if k < y * COLS { assert CellIs(v, k, Cell(SPACE, attr)); }
    }
  }

  lemma LowWord(n: nat)
    ensures n / 256 % 256 * 256 + n % 256 == n % 0x10000
  {
    var q := n / 256;
    Turns(n, q / 256, q % 256 * 256 + n % 256);
  }

  lemma Turns(n: nat, a: nat, r: nat)
    requires n == a * 0x10000 + r && r < 0x10000
    ensures n % 0x10000 == r
  {
  }

  lemma NextCell(cursor: nat)
    requires cursor < CELLS || cursor == 0xFFFF
    ensures (cursor + 1) % 0x10000 == if cursor == 0xFFFF then 0 else cursor + 1
    ensures CELLS / COLS * COLS == CELLS
  {
  }

  lemma OneTurn(n: nat)
    requires n < 2 * WORD32
    ensures n % WORD32 == if n < WORD32 then n else n - WORD32
    ensures n < 0x10000 ==> n % WORD32 % 0x10000 == n
    ensures WORD32 <= n < WORD32 + 0x10000 ==> n % WORD32 % 0x10000 == n - WORD32
    ensures n == WORD32 - 1 ==> n % WORD32 % 0x10000 == 0xFFFF
  {
  }

  lemma FullTurns(x: nat)
    requires x < COLS
    ensures (x + (WORD32 - 1) * COLS) % WORD32 == WORD32 - COLS + x
    ensures (WORD32 - COLS + x) % 0x10000 == 0x10000 - COLS + x
  {
    assert x + (WORD32 - 1) * COLS == (COLS - 1) * WORD32 + (WORD32 - COLS + x);
  }

  lemma RowAbove(cursor: nat)
    requires cursor >= COLS
    ensures (cursor - COLS) / COLS * COLS == cursor / COLS * COLS - COLS
  {
  }

  /** A character written at the cursor, and the cursor moved behind it, or the screen moved up. */
  lemma TypedShows(vid: seq<nat>, vid': seq<nat>, cursor: nat, p: Page, c: nat, attr: nat)
    requires Shows(vid, cursor, p, attr) && |vid| == VIDEO && cursor < CELLS
    requires var v := vid[2 * cursor := c % 256][2 * cursor + 1 := attr];
      if cursor + 1 < CELLS then vid' == v else Shifted(v, vid', attr)
    ensures Shows(vid', if cursor + 1 < CELLS then cursor + 1 else CELLS - COLS, Typed(p, c, attr), attr)
  {
    hide Shows, Shifted, Moved, Top;
    var v := vid[2 * cursor := c % 256][2 * cursor + 1 := attr];
    var q := p.(cells := p.cells[p.pos := Cell(c % 256, attr)]);
    Bounds(vid, cursor, p, attr);
    WriteShows(vid, cursor, p, attr, Cell(c % 256, attr));
    Bounds(v, cursor, q, attr);
    if cursor + 1 < CELLS {
      MoveShows(v, cursor, q, attr, q.pos + 1);
    } else {
      ScrollShows(v, vid', cursor, q, attr);
    }
  }

  lemma NextRow(cursor: nat, pos: nat, top: nat)
    requires cursor < CELLS && pos == cursor + top * COLS
    ensures (cursor + COLS) % 0x10000 == cursor + COLS
    ensures (cursor + COLS) / COLS * COLS + top * COLS == (pos / COLS + 1) * COLS
    ensures (cursor + COLS) / COLS * COLS >= CELLS ==> cursor >= CELLS - COLS && (cursor + COLS) / COLS * COLS == CELLS
  {
  }

  /** A space typed one cell to the left, and back. */
  lemma BackPage(p: Page, attr: nat)
    requires p.pos > 0 && p.pos / COLS <= p.low
    ensures var q := Moved(p, p.pos - 1); var r := Typed(q, SPACE, attr);
      && Top(q) == Top(r) == Top(p) && q.pos == p.pos - 1 && r.pos == p.pos
      && Moved(r, p.pos - 1) == Put(p, 8, attr)
  {
  }

  lemma LeadsTo(p: Page, attr: nat)
    ensures Put(p, 10, attr) == Moved(p, (p.pos / COLS + 1) * COLS)
  {
  }

  /** No character of `s` is a backspace in the first cell of the screen. */
  predicate Tame(p: Page, s: seq<nat>, attr: nat)
    decreases |s|
  {
    s == [] || (!(s[0] == 8 && p.pos == Top(p) * COLS) && Tame(Put(p, s[0], attr), s[1..], attr))
  }

  lemma {:induction false} PutAllSnoc(p: Page, s: seq<nat>, c: nat, attr: nat)
    ensures PutAll(p, s + [c], attr) == Put(PutAll(p, s, attr), c, attr)
    ensures Tame(p, s + [c], attr) <==>
      Tame(p, s, attr) && !(c == 8 && PutAll(p, s, attr).pos == Top(PutAll(p, s, attr)) * COLS)
    decreases |s|
  {
    if s == [] {
      assert [] + [c] == [c] && [c][1..] == [];
    } else {
      assert (s + [c])[1..] == s[1..] + [c];
      PutAllSnoc(Put(p, s[0], attr), s[1..], c, attr);
    }
  }

  lemma {:induction false} TamePrefix(p: Page, s: seq<nat>, i: nat, attr: nat)
    requires Tame(p, s, attr) && i <= |s|
    ensures Tame(p, s[..i], attr)
    decreases |s| - i
  {
    if i == |s| {
      assert s[..i] == s;
    } else {
      TamePrefix(p, s, i + 1, attr);
      assert s[..i + 1] == s[..i] + [s[i]];
      PutAllSnoc(p, s[..i], s[i], attr);
    }
  }

  /** A blank screen shows an empty page. */
  lemma BlankShows(vid: seq<nat>, attr: nat)
    requires |vid| == VIDEO && forall i :: 0 <= i < CELLS ==> CellIs(vid, i, Cell(SPACE, attr))
    ensures Shows(vid, 0, Page(map[], 0, 0), attr)
  {
    forall i | 0 <= i < CELLS ensures Seen(vid, Page(map[], 0, 0), attr, i) {
      assert CellIs(vid, i, Cell(SPACE, attr));
    }
  }

  lemma Bounds(vid: seq<nat>, cursor: nat, p: Page, attr: nat)
    requires Shows(vid, cursor, p, attr)
    ensures |vid| == VIDEO && cursor < CELLS && p.pos == cursor + Top(p) * COLS && p.pos / COLS <= p.low
    ensures p.pos / COLS == cursor / COLS + Top(p) && p.pos % COLS == cursor % COLS
  {
  }
}
