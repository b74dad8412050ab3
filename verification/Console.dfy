/** src/vga.c: the 80 x 25 text buffer, its cursor and its lock. */
module Console {
  import opened Words
  import opened CStrings
  import opened ConsoleText

  const DEFAULT_COLOR: byte := 0x0F
  const EMPTY: cell := 0x0F20

  /** The screen shows the window of the text from row `scrolls` on, and blanks after it. */
  ghost predicate Shows(buff: seq<cell>, t: Text)
  {
    && |buff| == CELLS && t.Index() >= 0
    && forall i {:trigger buff[i]} :: 0 <= i < CELLS ==> ShowsCell(buff[i], t, i)
  }

  ghost predicate ShowsCell(v: cell, t: Text, i: nat)
    requires t.Index() >= 0
  {
    if i < t.Index() && t.glyphs[COLS * t.scrolls + i].Ink? then v == t.glyphs[COLS * t.scrolls + i].v else IsBlank(v)
  }

  /** Rows 1..24 have moved up one row, the last row is blank in the colour. */
  ghost predicate RowsUp(before: seq<cell>, after: seq<cell>, color: byte)
    requires |before| == |after| == CELLS
  {
    && (forall k {:trigger after[k]} :: 0 <= k < 1920 ==> after[k] == before[k + 80])
    && (forall k {:trigger after[k]} :: 1920 <= k < 2000 ==> after[k] == 256 * color + 32)
  }

  class Console {
    const buff: array<cell>  // vga_buff
    var index: nat           // vga_index
    var limit: nat           // vga_limit
    ghost var text: Text

    ghost predicate Valid()
      reads this, buff
    {
      && buff.Length == CELLS
      && text.Valid() && index == text.Index() && limit == text.limit
      && Shows(buff[..], text)
    }

    /** The buffer after boot, cleared; vga_limit starts at 0. */
    constructor (video: array<cell>)
      requires video.Length == CELLS
      modifies video
      ensures Valid() && buff == video && text == Text([], 0, 0)
      ensures index == limit == 0 && forall k :: 0 <= k < CELLS ==> buff[k] == 0x0F20
    {
      buff := video;
      index, limit := 0, 0;
      text := Text([], 0, 0);
      new;
      ClearScreen();
    }

    method LockCursor()
      requires Valid()
      modifies `limit, `text
      ensures Valid() && text == old(text).Locked() == old(text).Do(Lock) && limit == index
    {
      limit := index;
      text := text.Locked();
    }

    method ClearScreen()
      requires buff.Length == CELLS && limit == text.limit
      modifies buff, `index, `text
      ensures Valid() && text == old(text).Cleared()
      ensures index == 0 && forall k :: 0 <= k < CELLS ==> buff[k] == 0x0F20
    {
      for i := 0 to CELLS
        invariant forall k :: 0 <= k < i ==> buff[k] == EMPTY
        invariant text == old(text)
      {
        buff[i] := EMPTY;
      }
      index := 0;
      text := text.Cleared();
      assert forall i :: 0 <= i < CELLS ==> buff[..][i] == EMPTY;
    }

    /** Rows 1..24 move up one row, the last row becomes blank. */
    method Scroll(color: byte)
      requires buff.Length == CELLS
      modifies buff, `index
      ensures index == LAST_ROW
      ensures forall k :: 0 <= k < LAST_ROW ==> buff[k] == old(buff[k + COLS])
      ensures forall k :: LAST_ROW <= k < CELLS ==> buff[k] == CellOf(SPACE, color)
    {
      for i := 0 to LAST_ROW
        invariant forall k :: 0 <= k < i ==> buff[k] == old(buff[k + COLS])
        invariant forall k :: i <= k < CELLS ==> buff[k] == old(buff[k])
      {
        buff[i] := buff[i + COLS];
      }
      for i := LAST_ROW to CELLS
        invariant forall k :: 0 <= k < LAST_ROW ==> buff[k] == old(buff[k + COLS])
        invariant forall k :: LAST_ROW <= k < i ==> buff[k] == CellOf(SPACE, color)
      {
        buff[i] := CellOf(SPACE, color);
      }
      index := LAST_ROW;
    }

    /** The scroll logic after a character, `t` being the text with that character put in. */
    method ScrollIfFull(ghost t: Text, color: byte)
      requires buff.Length == CELLS && Shows(buff[..], t) && index == t.Index() <= CELLS
      modifies buff, `index
      ensures Shows(buff[..], t.Scrolled()) && index == t.Scrolled().Index()
      ensures old(index) < CELLS ==> buff[..] == old(buff[..]) && index == old(index)
      ensures old(index) >= CELLS ==> index == LAST_ROW && RowsUp(old(buff[..]), buff[..], color)
    {
      ghost var put := buff[..];
      if index >= CELLS {
        Scroll(color);
        ScrollShown(put, buff[..], t, color);
      }
    }

    /**
     * vga_print_char_color. A newline moves the cursor to the next row, a backspace blanks the cell before it
     * unless the lock is there, everything else is written at the cursor. A cursor that has left the screen
     * takes the rows up with it.
     */
    method PrintChar(c: byte, color: byte)
      requires Valid()
      modifies buff, `index, `text
      ensures Valid() && text == old(text).Step(c, color)
      ensures c == 10 && old(index) < 1920 ==> index == old(index) / 80 * 80 + 80 && buff[..] == old(buff[..])
      ensures c == 8 ==>
        if old(index) > limit then index == old(index) - 1 && buff[..] == old(buff[..])[index := 256 * color + 32]
        else index == old(index) && buff[..] == old(buff[..])
      ensures c != 10 && c != 8 && old(index) < 1999 ==> index == old(index) + 1 && buff[..] == old(buff[..])[old(index) := if c < 128 then 256 * color + c else 0xFF00 + c]
      ensures c == 10 && old(index) >= 1920 ==> RowsUp(old(buff[..]), buff[..], color) && index == 1920
      ensures c != 10 && c != 8 && old(index) == 1999 ==>
                RowsUp(old(buff[..])[1999 := if c < 128 then 256 * color + c else 0xFF00 + c], buff[..], color) && index == 1920
    {
      ghost var before, t := buff[..], text;
      text.StepValid(c, color);
      RowAligned(|t.glyphs|, t.scrolls);
      Write(c, color);
      PutShown(before, buff[..], t, c, color);
      ScrollIfFull(t.Put(c, color), color);
      text := text.Step(c, color);
    }

    /** The branches on the character, before the scroll logic. */
    method Write(c: byte, color: byte)
      requires buff.Length == CELLS && index < CELLS
      modifies buff, `index
      ensures c == 10 ==> index == old(index) / 80 * 80 + 80 && buff[..] == old(buff[..])
      ensures c == 8 ==>
        if old(index) > limit then index == old(index) - 1 && buff[..] == old(buff[..])[index := 256 * color + 32]
        else index == old(index) && buff[..] == old(buff[..])
      ensures c != 10 && c != 8 ==> index == old(index) + 1 && buff[..] == old(buff[..])[old(index) := if c < 128 then 256 * color + c else 0xFF00 + c]
    {
      if c == NEWLINE {
        index := (index / COLS + 1) * COLS;
      } else if c == BACKSPACE {
        if index > limit {
          index := index - 1;
          buff[index] := CellOf(SPACE, color);
        }
      } else {
        buff[index] := CellOf(c, color);
        index := index + 1;
      }
    }

    /** vga_print_color: up to the terminating zero, the steps of vga_print_char_color, which the source writes out again. */
    method PrintColor(str: seq<byte>, color: byte)
      requires Valid() && 0 in str
      modifies buff, `index, `text
      ensures Valid() && text == Print(old(text), CString(str), color)
    {
      var s := 0;
      CStringLength(str);
      ghost var n := |CString(str)|;
      while str[s] != 0
        invariant s <= n < |str| && str[n] == 0
        invariant Valid() && text == Print(old(text), str[..s], color)
        decreases |str| - s
      {
        PrintNext(old(text), str, s, color);
        PrintChar(str[s], color);
        s := s + 1;
      }
      assert str[..s] == CString(str);
    }
  }

  /** The buffer after the write for c, before any scroll, shows the text with c put in. */
  lemma PutShown(before: seq<cell>, after: seq<cell>, t: Text, c: byte, color: byte)
    requires t.Valid() && Shows(before, t) && |after| == CELLS && 0 <= t.Put(c, color).Index() <= CELLS
    requires after == if c == NEWLINE then before
                      else if c == BACKSPACE then (if t.Index() > t.limit then before[t.Index() - 1 := CellOf(SPACE, color)] else before)
                      else before[t.Index() := CellOf(c, color)]
    ensures Shows(after, t.Put(c, color))
  {
    var u := t.Put(c, color);
    forall i | 0 <= i < CELLS
      ensures ShowsCell(after[i], u, i)
    {
      assert ShowsCell(before[i], t, i);
    }
  }

  /** After the scroll loops the window starts one row later. */
  lemma ScrollShown(before: seq<cell>, after: seq<cell>, t: Text, color: byte)
    requires Shows(before, t) && t.Index() == CELLS && |after| == CELLS
    requires forall k :: 0 <= k < LAST_ROW ==> after[k] == before[k + COLS]
    requires forall k :: LAST_ROW <= k < CELLS ==> after[k] == CellOf(SPACE, color)
    ensures Shows(after, t.Scrolled())
  {
    forall i | 0 <= i < CELLS
      ensures ShowsCell(after[i], t.Scrolled(), i)
    {
      if i < LAST_ROW {
        assert ShowsCell(before[i + COLS], t, i + COLS);
      }
    }
  }
}
