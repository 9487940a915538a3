/** The text screen of vga.c: the cursor, the overlapping row copies and the scroll made of them. */
module Vga {

  const COLUMNS := 80
  const ROWS := 25
  const CELLS := 2000            // on the screen; text memory goes on behind them
  const TEXT_MEMORY := 0x8000    // bytes at 0xB8000
  const ALL_CELLS := 0x4000
  const SHORT_MIN := -0x8000
  const SHORT_MAX := 0x7FFF

  type octet = bv8

  /** Text memory: octet 2i is the character of cell i and octet 2i + 1 its attribute. */
  type Memory = s: seq<octet> | |s| == TEXT_MEMORY witness seq(TEXT_MEMORY, i => 0)

  const SPACE: octet := 0x20

  /** The attribute fb_write_cell stores for two colours. */
  function Attribute(fg: octet, bg: octet): octet {
    ((fg & 0x0F) << 4) | (bg & 0x0F)
  }

  /** The high nibble of an attribute is the first colour, the low nibble the second. */
  lemma AttributeNibbles(fg: octet, bg: octet)
    ensures (Attribute(fg, bg) as int) / 16 == (fg as int) % 16
    ensures (Attribute(fg, bg) as int) % 16 == (bg as int) % 16
  {
    assert Attribute(fg, bg) >> 4 == fg & 0x0F && Attribute(fg, bg) & 0x0F == bg & 0x0F;
    hide Attribute;
    HighNibble(Attribute(fg, bg));
    LowNibble(Attribute(fg, bg));
    LowNibble(fg);
    LowNibble(bg);
  }

  lemma HighNibble(x: octet)
    ensures (x >> 4) as int == (x as int) / 16
  {
  }

  lemma LowNibble(x: octet)
    ensures (x & 0x0F) as int == (x as int) % 16
  {
  }

  /** fb_row_column_to_index of column 0. */
  function RowStart(row: nat): nat {
    row * 80
  }

  function CharAt(s: Memory, i: nat): octet
    requires i < ALL_CELLS
  {
    s[2 * i]
  }

  function AttributeAt(s: Memory, i: nat): octet
    requires i < ALL_CELLS
  {
    s[2 * i + 1]
  }

  // ---------------------------------------------------------------- what a scroll does

  /** t is s after a scroll: every cell shows the one a row below, or a blank in the last row, except
      that the attribute of cell 0 stays; nothing behind the screen changes. */
  ghost predicate Scrolled(s: Memory, t: Memory) {
    && (forall i {:trigger CharAt(t, i)} :: 0 <= i < ALL_CELLS ==>
          CharAt(t, i) == if i < CELLS - COLUMNS then CharAt(s, i + COLUMNS)
                          else if i < CELLS then SPACE else CharAt(s, i))
    && (forall i {:trigger AttributeAt(t, i)} :: 0 <= i < ALL_CELLS ==>
          AttributeAt(t, i) == if 0 < i < CELLS - COLUMNS then AttributeAt(s, i + COLUMNS)
                               else if CELLS - COLUMNS <= i < CELLS then Faded(s)
                               else AttributeAt(s, i))
  }

  /** The attribute of the blank row: the low nibble of the last cell's, twice. */
  function Faded(s: Memory): octet {
    Attribute(AttributeAt(s, CELLS - 1), AttributeAt(s, CELLS - 1))
  }

  /** t is s after k scrolls. */
  ghost predicate ScrolledBy(s: Memory, t: Memory, k: nat)
    decreases k
  {
    if k == 0 then t == s else exists m: Memory :: ScrolledBy(s, m, k - 1) && Scrolled(m, t)
  }

  lemma NotScrolled(s: Memory)
    ensures ScrolledBy(s, s, 0)
  {
  }

  lemma ScrolledOnce(s: Memory, m: Memory, t: Memory, k: nat)
    requires ScrolledBy(s, m, k) && Scrolled(m, t)
    ensures ScrolledBy(s, t, k + 1)
  {
    hide Scrolled;
  }

  /** After k scrolls every cell of the screen shows the one k rows below, or a blank. */
  lemma {:induction false} ScreenAfter(s: Memory, t: Memory, k: nat, i: nat)
    requires ScrolledBy(s, t, k) && i < ALL_CELLS
    ensures CharAt(t, i) == if i >= CELLS then CharAt(s, i)
      else if i + COLUMNS * k < CELLS then CharAt(s, i + COLUMNS * k) else SPACE
    decreases k
  {
    if k > 0 {
      var m: Memory :| ScrolledBy(s, m, k - 1) && Scrolled(m, t);
      ScreenAfter(s, m, k - 1, if i < CELLS - COLUMNS then i + COLUMNS else i);
    }
  }

  lemma FadedOnce(s: Memory, m: Memory)
    requires AttributeAt(m, CELLS - 1) == AttributeAt(s, CELLS - 1) || AttributeAt(m, CELLS - 1) == Faded(s)
    ensures Faded(m) == Faded(s)
  {
  }

  /** The attributes move along, but for that of cell 0, and fade once at the bottom. */
  lemma {:induction false} AttributesAfter(s: Memory, t: Memory, k: nat, i: nat)
    requires ScrolledBy(s, t, k) && i < ALL_CELLS
    ensures AttributeAt(t, i) == if i == 0 || i >= CELLS then AttributeAt(s, i)
      else if i + COLUMNS * k < CELLS then AttributeAt(s, i + COLUMNS * k) else Faded(s)
    decreases k
  {
    if k > 0 {
      var m: Memory :| ScrolledBy(s, m, k - 1) && Scrolled(m, t);
      assert AttributeAt(t, i) == if 0 < i < CELLS - COLUMNS then AttributeAt(m, i + COLUMNS)
        else if CELLS - COLUMNS <= i < CELLS then Faded(m) else AttributeAt(m, i);
      AttributesAfter(s, m, k - 1, CELLS - 1);
      FadedOnce(s, m);
      hide *;
      AttributesAfter(s, m, k - 1, if 0 < i < CELLS - COLUMNS then i + COLUMNS else i);
    }
  }

  // ---------------------------------------------------------------- how the copies make a scroll

  /** The cell that copy k of fb_copy_row from cell number `from` on takes its character from: by copy
      80 a copy to the row below has overwritten the cell it reads. */
  function Source(from: nat, to: nat, k: nat): nat {
    if to == from + COLUMNS && k == COLUMNS then from else from + k
  }

  /** t is s after n copies of fb_copy_row. A copy moves the character of one cell and the attribute
      of the next. */
  ghost predicate Copied(s: Memory, t: Memory, from: nat, to: nat, n: nat)
    requires from + n < ALL_CELLS
  {
    && (forall i {:trigger CharAt(t, i)} :: 0 <= i < ALL_CELLS ==>
          CharAt(t, i) == CharAt(s, if to <= i < to + n then Source(from, to, i - to) else i))
    && (forall i {:trigger AttributeAt(t, i)} :: 0 <= i < ALL_CELLS ==>
          AttributeAt(t, i) == AttributeAt(s, if to < i <= to + n then Source(from, to, i - 1 - to) + 1 else i))
  }

  /** What one turn of the loop of fb_copy_row leaves: the character of cell `from` at `to`, and the
      attribute of the cell behind at the one behind. */
  function CopyCell(s: Memory, from: nat, to: nat): Memory
    requires from + 1 < ALL_CELLS && to + 1 < ALL_CELLS
  {
    var t: Memory := s[2 * to := s[2 * from]];
    t[2 * (to + 1) + 1 := t[2 * (from + 1) + 1]]
  }

  lemma CopyCellCells(s: Memory, from: nat, to: nat, i: nat)
    requires from + 1 < ALL_CELLS && to + 1 < ALL_CELLS && i < ALL_CELLS
    ensures CharAt(CopyCell(s, from, to), i) == CharAt(s, if i == to then from else i)
    ensures AttributeAt(CopyCell(s, from, to), i) == AttributeAt(s, if i == to + 1 then from + 1 else i)
  {
  }

  /** Two rows are the same, next to each other, or too far apart for the copy to meet itself. */
  predicate Apart(from: nat, to: nat) {
    from < to ==> to == from + COLUMNS || to > from + COLUMNS + 1
  }

  lemma CopiedStep(s: Memory, t: Memory, from: nat, to: nat, n: nat)
    requires from <= CELLS && to <= CELLS && Apart(from, to) && n <= COLUMNS && Copied(s, t, from, to, n)
    ensures Copied(s, CopyCell(t, from + n, to + n), from, to, n + 1)
  {
    var u := CopyCell(t, from + n, to + n);
    hide CharAt, AttributeAt, CopyCell;
    assert CharAt(t, from + n) == CharAt(s, Source(from, to, n));
    assert AttributeAt(t, from + n + 1) == AttributeAt(s, Source(from, to, n) + 1);
    hide Apart, Source;
    forall i: nat | i < ALL_CELLS
      ensures CharAt(u, i) == CharAt(s, if to <= i < to + n + 1 then Source(from, to, i - to) else i)
      ensures AttributeAt(u, i) == AttributeAt(s, if to < i <= to + n + 1 then Source(from, to, i - 1 - to) + 1 else i)
    {
      CopyCellCells(t, from + n, to + n, i);
    }
  }

  /** t is s after the scroll has copied the rows up to `row`: each copy of 81 cells goes one character
      and one attribute too far, and the copy of the next row sets those right. */
  ghost predicate Risen(s: Memory, t: Memory, row: nat)
    requires row < ROWS
  {
    Copied(s, t, COLUMNS, 0, if row == 0 then 0 else RowStart(row) + 1)
  }

  lemma RisenStep(s: Memory, t: Memory, u: Memory, row: nat)
    requires 0 < row < ROWS && Risen(s, t, row - 1) && Copied(t, u, RowStart(row), RowStart(row - 1), COLUMNS + 1)
    ensures Risen(s, u, row)
  {
    hide CharAt, AttributeAt;
    forall i: nat | i < ALL_CELLS
      ensures CharAt(u, i) == CharAt(s, if i < RowStart(row) + 1 then Source(COLUMNS, 0, i) else i)
    {
    }
    forall i: nat | i < ALL_CELLS
      ensures AttributeAt(u, i) ==
        AttributeAt(s, if 0 < i <= RowStart(row) + 1 then Source(COLUMNS, 0, i - 1) + 1 else i)
    {
    }
  }

  /** Where the cell i of a screen shifted down comes from, low being the first row that changed: the
      row above, but two rows above for the first column, which each row copy spoils for the row
      below. */
  function Above(low: nat, i: nat): nat {
    if i < RowStart(low) || i > RowStart(ROWS + 1) then i
    else if i % 80 == 0 && i > RowStart(low) && i >= 160 then i - 160
    else if i >= 80 then i - 80
    else i
  }

  /** t is s with the rows from low to the one behind the screen replaced by those above. */
  ghost predicate Sunk(s: Memory, t: Memory, low: nat) {
    if low > ROWS then t == s
    else
      && (forall i {:trigger CharAt(t, i)} :: 0 <= i < ALL_CELLS ==> CharAt(t, i) == CharAt(s, Above(low, i)))
      && (forall i {:trigger AttributeAt(t, i)} :: 0 <= i < ALL_CELLS ==>
            AttributeAt(t, i) == AttributeAt(s, if i == 0 then 0 else Above(low, i - 1) + 1))
  }

  /** The first row that has changed once only the rows up to next are left to shift. */
  function Low(next: int): nat {
    if next < 0 then 1 else next + 2
  }

  lemma Unsunk(s: Memory, t: Memory, from: int)
    requires Sunk(s, t, if from > ROWS then Low(ROWS) else Low(from - 1))
    ensures Sunk(s, t, if from < 0 then 1 else from + 1)
    ensures from >= ROWS ==> t == s
  {
  }

  lemma SunkStep(s: Memory, t: Memory, u: Memory, row: nat)
    requires row < ROWS && Sunk(s, t, row + 2) && Copied(t, u, RowStart(row), RowStart(row + 1), COLUMNS + 1)
    ensures Sunk(s, u, row + 1)
  {
    hide CharAt, AttributeAt;
    forall i: nat | i < ALL_CELLS
      ensures CharAt(u, i) == CharAt(s, Above(row + 1, i))
    {
    }
    forall i: nat | i < ALL_CELLS
      ensures AttributeAt(u, i) == AttributeAt(s, if i == 0 then 0 else Above(row + 1, i - 1) + 1)
    {
    }
  }

  /** t is s with str in the cells from i on, all with attribute a. */
  ghost predicate Written(s: Memory, t: Memory, i: nat, str: seq<octet>, a: octet) {
    && (forall j {:trigger CharAt(t, j)} :: 0 <= j < ALL_CELLS ==>
          CharAt(t, j) == if i <= j < i + |str| then str[j - i] else CharAt(s, j))
    && (forall j {:trigger AttributeAt(t, j)} :: 0 <= j < ALL_CELLS ==>
          AttributeAt(t, j) == if i <= j < i + |str| then a else AttributeAt(s, j))
  }

  function Blanks(n: nat): (s: seq<octet>)
    ensures |s| == n && forall i :: 0 <= i < n ==> s[i] == SPACE
  {
    seq(n, i => SPACE)
  }

  lemma WrittenStep(s: Memory, t: Memory, u: Memory, i: nat, str: seq<octet>, c: octet, a: octet)
    requires Written(s, t, i, str, a) && Written(t, u, i + |str|, [c], a)
    ensures Written(s, u, i, str + [c], a)
  {
    hide CharAt, AttributeAt;
  }

  lemma NothingWritten(s: Memory, i: nat, a: octet)
    ensures Written(s, s, i, [], a)
  {
  }

  lemma NothingWrittenIsSame(s: Memory, t: Memory, i: nat, a: octet)
    requires Written(s, t, i, [], a)
    ensures t == s
  {
    forall b | 0 <= b < TEXT_MEMORY
      ensures t[b] == s[b]
    {
      assert CharAt(t, b / 2) == CharAt(s, b / 2) && AttributeAt(t, b / 2) == AttributeAt(s, b / 2);
    }
  }

  /** Copying the rows and blanking the last one is a scroll. */
  lemma ClearedIsScrolled(s: Memory, t: Memory, u: Memory)
    requires Risen(s, t, ROWS - 1)
    requires Written(t, u, RowStart(ROWS - 1), Blanks(COLUMNS), Faded(t))
    ensures Scrolled(s, u)
  {
    assert AttributeAt(t, CELLS - 1) == AttributeAt(s, CELLS - 1);
    assert Faded(t) == Faded(s);
    hide CharAt, AttributeAt, Faded;
  }

  // ---------------------------------------------------------------- the screen

  class Screen {
    const fb: array<octet>
    var cursorPos: int

    ghost predicate Valid()
      reads this
    {
      fb.Length == TEXT_MEMORY && SHORT_MIN <= cursorPos <= SHORT_MAX
    }

    constructor ()
      ensures Valid() && fresh(fb) && cursorPos == 0
    {
      fb := new octet[TEXT_MEMORY];
      cursorPos := 0;
    }

    /** The contents of text memory. */
    ghost function Text(): Memory
      reads this, fb
      requires fb.Length == TEXT_MEMORY
    {
      fb[..]
    }

    method FbCopyRow(from: int, to: int)
      requires Valid()
      modifies fb
      ensures Valid()
      ensures 0 <= from <= ROWS && 0 <= to <= ROWS ==>
        Copied(old(Text()), Text(), RowStart(from), RowStart(to), COLUMNS + 1)
      ensures !(0 <= from <= ROWS && 0 <= to <= ROWS) ==> Text() == old(Text())
    {
      if from < 0 || from > ROWS || to < 0 || to > ROWS {
        return;
      }
      assert Apart(RowStart(from), RowStart(to));
      CopyCells(RowStart(from), RowStart(to));
    }

    /** The loop of fb_copy_row. */
    method CopyCells(first: nat, target: nat)
      requires Valid() && first <= CELLS && target <= CELLS && Apart(first, target)
      modifies fb
      ensures Copied(old(Text()), Text(), first, target, COLUMNS + 1)
    {
      ghost var s := Text();
      Uncopied(s, first, target);
      var rowInStart, rowOutStart := first, target;
      hide Apart, Copied;
      for i := 0 to COLUMNS + 1
        invariant rowInStart == first + i && rowOutStart == target + i
        invariant Copied(s, Text(), first, target, i)
      {
        rowInStart, rowOutStart := CopyNext(s, first, target, rowInStart, rowOutStart);
      }
    }

    /** One turn of the loop of fb_copy_row. */
    method CopyNext(ghost s: Memory, ghost first: nat, ghost target: nat, rowInStart: nat, rowOutStart: nat)
      returns (nextIn: nat, nextOut: nat)
      requires Valid() && first <= CELLS && target <= CELLS && Apart(first, target)
      requires first <= rowInStart <= first + COLUMNS && rowOutStart - target == rowInStart - first
      requires Copied(s, Text(), first, target, rowInStart - first)
      modifies fb
      ensures nextIn == rowInStart + 1 && nextOut == rowOutStart + 1
      ensures Copied(s, Text(), first, target, nextIn - first)
    {
      ghost var t := Text();
      CopiedStep(s, t, first, target, rowInStart - first);
      hide Apart, Copied;
      fb[rowOutStart * 2] := fb[rowInStart * 2];
      nextOut, nextIn := rowOutStart + 1, rowInStart + 1;
      fb[nextOut * 2 + 1] := fb[nextIn * 2 + 1];
      assert Text() == CopyCell(t, rowInStart, rowOutStart);
    }

    method FbWriteCell(i: nat, c: octet, fg: octet, bg: octet)
      requires Valid() && i < ALL_CELLS
      modifies fb
      ensures Written(old(Text()), Text(), i, [c], Attribute(fg, bg))
    {
      var b := i * 2;
      fb[b] := c;
      fb[b + 1] := Attribute(fg, bg);
    }

    method FbClearRow(r: nat, fg: octet, bg: octet)
      requires Valid() && RowStart(r + 1) <= ALL_CELLS
      modifies fb
      ensures Written(old(Text()), Text(), RowStart(r), Blanks(COLUMNS), Attribute(fg, bg))
    {
      ghost var s := Text();
      var i := RowStart(r);
      NothingWritten(s, i, Attribute(fg, bg));
      hide Written, Attribute;
      for col := 0 to COLUMNS
        invariant i == RowStart(r) + col
        invariant Written(s, Text(), RowStart(r), Blanks(COLUMNS)[..col], Attribute(fg, bg))
      {
        ghost var t := Text();
        FbWriteCell(i, SPACE, fg, bg);
        i := i + 1;
        WrittenStep(s, t, Text(), RowStart(r), Blanks(COLUMNS)[..col], SPACE, Attribute(fg, bg));
        assert Blanks(COLUMNS)[..col + 1] == Blanks(COLUMNS)[..col] + [SPACE];
      }
      assert Blanks(COLUMNS)[..COLUMNS] == Blanks(COLUMNS);
    }

    method FbScroll()
      requires Valid()
      modifies fb
      ensures Scrolled(old(Text()), Text())
    {
      ghost var s := Text();
      RaiseRows();
      ghost var t := Text();
      var color := fb[CELLS * 2 - 1];
      assert Attribute(color, color) == Faded(t);
      hide Attribute, AttributeAt, Faded, Risen, Scrolled, Written;
      FbClearRow(ROWS - 1, color, color);
      ClearedIsScrolled(s, t, Text());
    }

    /** The copying loop of fb_scroll. */
    method RaiseRows()
      requires Valid()
      modifies fb
      ensures Risen(old(Text()), Text(), ROWS - 1)
    {
      ghost var s := Text();
      Uncopied(s, COLUMNS, 0);
      assert Risen(s, Text(), 0);
      hide Risen;
      var row := 1;
      while row < ROWS
        invariant 1 <= row <= ROWS && Risen(s, Text(), row - 1)
      {
        RaiseRow(s, row);
        row := row + 1;
      }
    }

    /** One turn of it. */
    method RaiseRow(ghost s: Memory, row: nat)
      requires Valid() && 0 < row < ROWS && Risen(s, Text(), row - 1)
      modifies fb
      ensures Risen(s, Text(), row)
    {
      ghost var t := Text();
      hide Risen, Copied;
      FbCopyRow(row, row - 1);
      RisenStep(s, t, Text(), row);
    }

    /** The rows from `from` on move down by one, but for what the overlap does to the first column.
        Nothing happens if the shift begins at the row behind the screen, as it does when the cursor
        leaves the top. */
    method FbShiftDown(from: int)
      requires Valid()
      modifies fb
      ensures Sunk(old(Text()), Text(), if from < 0 then 1 else from + 1)
      ensures from >= ROWS ==> Text() == old(Text())
    {
      ghost var s := Text();
      assert Sunk(s, Text(), Low(ROWS));
      var row := ROWS;
      hide Sunk;
      while row >= from
        invariant row <= ROWS && (from > ROWS ==> row == ROWS) && (from <= ROWS ==> row >= from - 1)
        invariant Sunk(s, Text(), Low(row))
      {
        ShiftRow(s, row);
        row := row - 1;
      }
      Unsunk(s, Text(), from);
    }

    /** One turn of the loop of fb_shift_down. */
    method ShiftRow(ghost s: Memory, row: int)
      requires Valid() && row <= ROWS && Sunk(s, Text(), Low(row))
      modifies fb
      ensures Sunk(s, Text(), Low(row - 1))
    {
      ghost var t := Text();
      FbCopyRow(row, row + 1);
      if 0 <= row < ROWS {
        SunkStep(s, t, Text(), row);
      }
    }

    /** The cursor ends on the screen or right behind it, in the column it would have on a screen
        without end, after k scrolls, none of which could be spared; going off the top leaves the
        screen as it is. */
    method FbOffsetCursor(offset: int) returns (ghost k: nat)
      requires Valid() && SHORT_MIN <= cursorPos + offset <= SHORT_MAX
      modifies this, fb
      ensures Valid() && 0 <= cursorPos <= CELLS && (cursorPos - (old(cursorPos) + offset)) % COLUMNS == 0
      ensures ScrolledBy(old(Text()), Text(), k)
      ensures old(cursorPos) + offset >= 0 ==> cursorPos == old(cursorPos) + offset - COLUMNS * k
      ensures k > 0 ==> cursorPos > CELLS - COLUMNS
      ensures old(cursorPos) + offset < 0 ==> Text() == old(Text()) && cursorPos < COLUMNS
    {
      ghost var pos := cursorPos + offset;
      Step(offset);
      k := ScrollBack();
      hide Scrolled, ScrolledBy;
      ghost var up := 0;
      while cursorPos < 0
        invariant Valid() && cursorPos == pos - COLUMNS * k + COLUMNS * up && ScrolledBy(old(Text()), Text(), k)
        invariant up > 0 ==> pos < 0 && cursorPos < COLUMNS && Text() == old(Text())
        invariant k > 0 ==> cursorPos > CELLS - COLUMNS
        invariant pos < 0 ==> Text() == old(Text())
        invariant cursorPos <= CELLS
      {
        cursorPos := cursorPos + COLUMNS;
        FbShiftDown(ROWS);
        up := up + 1;
      }
    }

    /** The two counting loops of fb_offset_cursor. */
    method Step(offset: int)
      requires Valid() && SHORT_MIN <= cursorPos + offset <= SHORT_MAX
      modifies this`cursorPos
      ensures Valid() && cursorPos == old(cursorPos) + offset
    {
      var left := offset;
      if left > 0 {
        while left > 0
          invariant left >= 0 && Valid() && cursorPos + left == old(cursorPos) + offset
        {
          cursorPos := cursorPos + 1;
          left := left - 1;
        }
      } else {
        while left < 0
          invariant left <= 0 && Valid() && cursorPos + left == old(cursorPos) + offset
        {
          cursorPos := cursorPos - 1;
          left := left + 1;
        }
      }
    }

    /** Scroll until the cursor is not behind the screen. */
    method ScrollBack() returns (ghost k: nat)
      requires Valid()
      modifies this`cursorPos, fb
      ensures Valid() && cursorPos == old(cursorPos) - COLUMNS * k <= CELLS
      ensures ScrolledBy(old(Text()), Text(), k) && (k > 0 ==> cursorPos > CELLS - COLUMNS)
      ensures old(cursorPos) <= CELLS ==> k == 0 && Text() == old(Text())
    {
      k := 0;
      ghost var s := Text();
      NotScrolled(s);
      hide Scrolled, ScrolledBy, Text;
      while cursorPos > CELLS
        invariant Valid() && cursorPos == old(cursorPos) - 80 * k && ScrolledBy(s, Text(), k)
        invariant k > 0 ==> cursorPos > CELLS - COLUMNS
        invariant old(cursorPos) <= CELLS ==> k == 0 && Text() == s
      {
        cursorPos := cursorPos - COLUMNS;
        ScrollOnce(s, k);
        k := k + 1;
      }
    }

    /** One more scroll. */
    method ScrollOnce(ghost s: Memory, ghost k: nat)
      requires Valid() && ScrolledBy(s, Text(), k)
      modifies fb
      ensures ScrolledBy(s, Text(), k + 1)
    {
      ghost var m := Text();
      hide Scrolled;
      FbScroll();
      ScrolledOnce(s, m, Text(), k);
    }

    method FbWriteLstr(i: nat, str: seq<octet>, length: int, fg: octet, bg: octet)
      requires Valid() && length <= |str| && (length > 0 ==> i + length <= ALL_CELLS)
      modifies fb
      ensures Written(old(Text()), Text(), i, str[..if length < 0 then 0 else length], Attribute(fg, bg))
    {
      ghost var s := Text();
      NothingWritten(s, i, Attribute(fg, bg));
      hide Written, Attribute;
      var j := 0;
      while j < length
        invariant 0 <= j && (j <= length || j == 0)
        invariant Written(s, Text(), i, str[..j], Attribute(fg, bg))
      {
        ghost var t := Text();
        FbWriteCell(i + j, str[j], fg, bg);
        WrittenStep(s, t, Text(), i, str[..j], str[j], Attribute(fg, bg));
        assert str[..j + 1] == str[..j] + [str[j]];
        j := j + 1;
      }
    }

    /** Printing is writing in text memory, behind the screen as well, and then moving the cursor. */
    method FbPrintLstr(str: seq<octet>, length: int, fg: octet, bg: octet) returns (ghost w: Memory, ghost k: nat)
      requires Valid() && length <= |str| && SHORT_MIN <= cursorPos + length
      requires length > 0 ==> 0 <= cursorPos && cursorPos + length <= ALL_CELLS
      modifies this, fb
      ensures Valid() && 0 <= cursorPos <= CELLS && ScrolledBy(w, Text(), k)
      ensures old(cursorPos) + length >= 0 ==> cursorPos == old(cursorPos) + length - COLUMNS * k
      ensures k > 0 ==> cursorPos > CELLS - COLUMNS
      ensures old(cursorPos) + length < 0 ==>
        Text() == w && cursorPos < COLUMNS && (cursorPos - (old(cursorPos) + length)) % COLUMNS == 0
      ensures if length > 0 then Written(old(Text()), w, old(cursorPos), str[..length], Attribute(fg, bg))
              else w == old(Text())
    {
      var i := if cursorPos < 0 then 0 else cursorPos;
      FbWriteLstr(i, str, length, fg, bg);
      w := Text();
      if length <= 0 { NothingWrittenIsSame(old(Text()), w, i, Attribute(fg, bg)); }
      hide Written, ScrolledBy;
      k := FbOffsetCursor(length);
    }
  }

  /** What a print leaves on the screen: text that reached cell 2000 or went beyond is lost, even
      where the scroll makes room for it. */
  lemma Printed(s: Memory, w: Memory, t: Memory, c: nat, str: seq<octet>, a: octet, k: nat, i: nat)
    requires Written(s, w, c, str, a) && ScrolledBy(w, t, k) && i < CELLS
    ensures CharAt(t, i) ==
      var j := i + COLUMNS * k;
      if j >= CELLS then SPACE else if c <= j < c + |str| then str[j - c] else CharAt(s, j)
  {
    ScreenAfter(w, t, k, i);
  }

  /** And in which colours: cell 0 keeps the attribute it had before the scrolls, the rows that come in
      at the bottom have the low nibble of the last cell's attribute as both colours. */
  lemma PrintedColours(s: Memory, w: Memory, t: Memory, c: nat, str: seq<octet>, fg: octet, bg: octet, k: nat, i: nat)
    requires Written(s, w, c, str, Attribute(fg, bg)) && ScrolledBy(w, t, k) && i < CELLS
    ensures var j := if i == 0 then 0 else i + COLUMNS * k;
      var last := if c <= CELLS - 1 < c + |str| then bg else AttributeAt(s, CELLS - 1);
      var a := AttributeAt(t, i) as int;
      if j >= CELLS then a / 16 == a % 16 == (last as int) % 16
      else if c <= j < c + |str| then a / 16 == (fg as int) % 16 && a % 16 == (bg as int) % 16
      else AttributeAt(t, i) == AttributeAt(s, j)
  {
    AttributesAfter(w, t, k, i);
    AttributeNibbles(fg, bg);
    var last := AttributeAt(w, CELLS - 1);
    AttributeNibbles(last, last);
    assert last == if c <= CELLS - 1 < c + |str| then Attribute(fg, bg) else AttributeAt(s, CELLS - 1);
    hide ScrolledBy, Attribute;
  }

  lemma Uncopied(s: Memory, from: nat, to: nat)
    requires from < ALL_CELLS
    ensures Copied(s, s, from, to, 0)
  {
  }
}
