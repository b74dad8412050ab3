/**
 * The console as an unbounded, row-padded text of which the screen shows a window of
 * 25 rows: printing, backspace up to the lock, scrolling.
 */
module ConsoleText {
  import opened Words

  const COLS := 80
  const CELLS := 2000
  const LAST_ROW := 1920

  const NEWLINE: byte := 10
  const BACKSPACE: byte := 8
  const SPACE: byte := 32

  type cell = x: int | 0 <= x < 0x1_0000

  /** (color << 8) | c with c a signed char, cut to 16 bits: a negative c overwrites the colour. */
  function CellOf(c: byte, color: byte): cell
  {
    if c < 0x80 then 0x100 * color + c else 0xFF00 + c
  }

  predicate IsBlank(v: cell) { v % 0x100 == SPACE }

  /** A printed character or the padding a newline leaves behind. */
  datatype Glyph = Ink(v: cell) | Gap

  /** The text printed since the last clear, how often it scrolled, and the locked index (vga_limit). */
  datatype Text = Text(glyphs: seq<Glyph>, scrolls: nat, limit: nat) {
    function Index(): int { |glyphs| - COLS * scrolls }

    ghost predicate Valid() { 0 <= Index() < CELLS }

    /** End of the current row. */
    function RowEnd(): nat { (|glyphs| / COLS + 1) * COLS }

    /** One character before the scroll test. */
    function Put(c: byte, color: byte): (t: Text)
    {
      if c == NEWLINE then this.(glyphs := glyphs + Gaps(RowEnd() - |glyphs|))
      else if c == BACKSPACE then
        if Index() > limit && glyphs != [] then this.(glyphs := glyphs[..|glyphs| - 1]) else this
      else this.(glyphs := glyphs + [Ink(CellOf(c, color))])
    }

    function Scrolled(): Text
    {
      if Index() >= CELLS then this.(scrolls := scrolls + 1) else this
    }

    function Step(c: byte, color: byte): Text
    {
      Put(c, color).Scrolled()
    }

    lemma StepValid(c: byte, color: byte)
      requires Valid()
      ensures Step(c, color).Valid() && 0 <= Put(c, color).Index() <= CELLS
      ensures Step(c, color).limit == limit
    {
      if c == NEWLINE {
        RowAligned(|glyphs|, scrolls);
      }
    }

    ghost function Locked(): Text
      requires Valid()
    {
      this.(limit := Index())
    }

    /** vga_lock_cursor or a character. */
    function Do(k: Key): Text
    {
      match k
      case Char(c, color) => Step(c, color)
      case Lock => if 0 <= Index() then this.(limit := Index()) else this
    }

    function Cleared(): Text { Text([], 0, limit) }
  }

  function Gaps(n: nat): seq<Glyph> { seq(n, _ => Gap) }

  /**
   * What one character does to the text. A newline fills the row with at least one and at most 80 gaps; a
   * backspace deletes the last glyph exactly when the cursor is past the lock; anything else adds itself. The
   * screen scrolls exactly when that left the cursor behind its 2000 cells.
   */
  lemma StepEdits(t: Text, c: byte, color: byte)
    requires t.Valid()
    ensures var u := t.Step(c, color);
      && (c == 10 ==>
            && |t.glyphs| < |u.glyphs| <= |t.glyphs| + 80 && |u.glyphs| % 80 == 0
            && u.glyphs[..|t.glyphs|] == t.glyphs && forall k :: |t.glyphs| <= k < |u.glyphs| ==> u.glyphs[k] == Gap)
      && (c == 8 ==> u.glyphs == if |t.glyphs| - 80 * t.scrolls > t.limit then t.glyphs[..|t.glyphs| - 1] else t.glyphs)
      && (c != 10 && c != 8 ==> u.glyphs == t.glyphs + [Ink(if c < 128 then 256 * color + c else 0xFF00 + c)])
      && u.scrolls == t.scrolls + (if |u.glyphs| - 80 * t.scrolls >= 2000 then 1 else 0)
      && u.limit == t.limit
  {
    RowEnds(|t.glyphs|);
  }

  lemma RowEnds(n: nat)
    ensures n < (n / 80 + 1) * 80 <= n + 80 && (n / 80 + 1) * 80 % 80 == 0
  {
  }

  /** Rows of the text and rows of the screen end together. */
  lemma RowAligned(length: nat, scrolls: nat)
    requires 0 <= length - COLS * scrolls < CELLS
    ensures (length / COLS + 1) * COLS - COLS * scrolls == ((length - COLS * scrolls) / COLS + 1) * COLS
    ensures (length / COLS + 1) * COLS - COLS * scrolls <= CELLS
  {
    assert length / COLS - scrolls == (length - COLS * scrolls) / COLS;
  }

  /** Printing a string is printing its characters one by one. */
  function Print(t: Text, s: seq<byte>, color: byte): Text
    decreases |s|
  {
    if s == [] then t else Print(t, s[..|s| - 1], color).Step(s[|s| - 1], color)
  }

  lemma PrintNext(t: Text, s: seq<byte>, i: nat, color: byte)
    requires i < |s|
    ensures Print(t, s[..i + 1], color) == Print(t, s[..i], color).Step(s[i], color)
  {
    assert s[..i + 1][..i] == s[..i];
  }

  /** Printing one string after another is printing both. */
  lemma {:induction false} PrintTwice(t: Text, a: seq<byte>, b: seq<byte>, color: byte)
    ensures Print(Print(t, a, color), b, color) == Print(t, a + b, color)
    decreases |b|
  {
    if b == [] {
      assert a + b == a;
    } else {
      PrintTwice(t, a, b[..|b| - 1], color);
      assert (a + b)[..|a + b| - 1] == a + b[..|b| - 1];
    }
  }

  lemma {:induction false} PrintValid(t: Text, s: seq<byte>, color: byte)
    requires t.Valid()
    ensures Print(t, s, color).Valid() && Print(t, s, color).limit == t.limit
    decreases |s|
  {
    if s != [] {
      PrintValid(t, s[..|s| - 1], color);
      Print(t, s[..|s| - 1], color).StepValid(s[|s| - 1], color);
    }
  }

  // ----- the lock -----

  /** Everything up to position p is the same, and the lock keeps backspace beyond it. */
  ghost predicate Protects(t: Text, p: nat, text: seq<Glyph>)
  {
    && p <= |t.glyphs| && t.glyphs[..p] == text
    && p - COLS * t.scrolls <= t.limit
  }

  lemma StepProtects(t: Text, c: byte, color: byte, p: nat, text: seq<Glyph>)
    requires Protects(t, p, text)
    ensures Protects(t.Step(c, color), p, text)
  {
    var u := t.Put(c, color);
    assert |u.glyphs| >= p;
    assert u.glyphs[..p] == t.glyphs[..p];
  }

  /** A step of a run: one character, in some colour, or a lock. */
  datatype Key = Char(c: byte, color: byte) | Lock

  function Run(t: Text, ks: seq<Key>): Text
    decreases |ks|
  {
    if ks == [] then t else Run(t, ks[..|ks| - 1]).Do(ks[|ks| - 1])
  }

  lemma {:induction false} RunProtects(t: Text, ks: seq<Key>, p: nat, text: seq<Glyph>)
    requires Protects(t, p, text)
    ensures Protects(Run(t, ks), p, text)
    decreases |ks|
  {
    if ks != [] {
      RunProtects(t, ks[..|ks| - 1], p, text);
      var k := ks[|ks| - 1];
      if k.Char? {
        StepProtects(Run(t, ks[..|ks| - 1]), k.c, k.color, p, text);
      }
    }
  }

  /** The text present at a lock is never changed by later prints, backspaces and locks, however often the screen scrolls. */
  lemma LockedTextKept(t: Text, ks: seq<Key>)
    requires t.Valid()
    ensures t.glyphs <= Run(t.Locked(), ks).glyphs
  {
    assert t.glyphs[..|t.glyphs|] == t.glyphs;
    RunProtects(t.Locked(), ks, |t.glyphs|, t.glyphs);
  }

  /** Every run keeps the cursor on the screen. */
  lemma {:induction false} RunValid(t: Text, ks: seq<Key>)
    requires t.Valid()
    ensures Run(t, ks).Valid() && Run(t, ks).scrolls >= t.scrolls
    ensures Lock !in ks ==> Run(t, ks).limit == t.limit
    decreases |ks|
  {
    if ks != [] {
      RunValid(t, ks[..|ks| - 1]);
      var k := ks[|ks| - 1];
      if k.Char? {
        Run(t, ks[..|ks| - 1]).StepValid(k.c, k.color);
      }
    }
  }
}
