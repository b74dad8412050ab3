/**
 * The command line: what the keyboard handler keeps in its buffer against what the console
 * shows behind the prompt.
 */
module LineEditor {
  import opened Words
  import opened ConsoleText

  const COLOR: byte := 0x0F       // vga_print's colour
  const PROMPT_COLOR: byte := 0x03
  const BUFFER := 256

  /** The console text and the typed characters; `prompt` and `atLock` are the text's length and scrolls when the prompt was locked. */
  datatype Line = Line(text: Text, typed: seq<byte>, prompt: nat, atLock: nat) {
    /** Rows scrolled since the prompt was locked. */
    function Drift(): int { text.scrolls - atLock }

    ghost predicate Valid()
    {
      && text.Valid() && |typed| < BUFFER
      && (forall k :: 0 <= k < |typed| ==> typed[k] != 0 && typed[k] != NEWLINE && typed[k] != BACKSPACE)
      && text.scrolls >= atLock && text.limit == prompt - COLS * atLock
    }

    /** The text behind the prompt is exactly what is in the buffer. */
    ghost predicate Mirrors()
    {
      && |text.glyphs| == prompt + |typed|
      && forall k {:trigger typed[k]} :: 0 <= k < |typed| ==> text.glyphs[prompt + k] == Ink(CellOf(typed[k], COLOR))
    }

    /** One key other than Enter. */
    function Press(c: byte): Line
    {
      if c == BACKSPACE then
        if typed != [] then this.(typed := typed[..|typed| - 1], text := text.Step(BACKSPACE, COLOR)) else this
      else if c != 0 && |typed| < BUFFER - 1 then this.(typed := typed + [c], text := text.Step(c, COLOR))
      else this
    }

    /** The one way to lose the mirror: a backspace whose character has been scrolled up to or past the lock. */
    predicate Loses(c: byte)
    {
      c == BACKSPACE && 0 < |typed| <= COLS * Drift()
    }

    lemma PressValid(c: byte)
      requires Valid() && c != NEWLINE
      ensures Press(c).Valid() && Press(c).prompt == prompt && Press(c).atLock == atLock
    {
      text.StepValid(c, COLOR);
    }

    /** A key keeps screen and buffer in step exactly when it is not such a backspace. */
    lemma PressMirrors(c: byte)
      requires Valid() && Mirrors() && c != NEWLINE
      ensures Press(c).Mirrors() <==> !Loses(c)
    {
      var l := Press(c);
      if c == BACKSPACE && typed != [] {
        assert text.Index() > text.limit <==> |typed| > COLS * Drift();
        assert forall k :: 0 <= k < |l.typed| ==> l.typed[k] == typed[k];
      } else if l.typed != typed {
        assert l.text.glyphs == text.glyphs + [Ink(CellOf(c, COLOR))];
        assert forall k :: 0 <= k < |typed| ==> l.typed[k] == typed[k];
      }
    }
  }

  function Typed(l: Line, keys: seq<byte>): Line
    decreases |keys|
  {
    if keys == [] then l else Typed(l, keys[..|keys| - 1]).Press(keys[|keys| - 1])
  }

  ghost predicate NoEnter(keys: seq<byte>)
  {
    forall k :: 0 <= k < |keys| ==> keys[k] != NEWLINE
  }

  lemma {:induction false} TypedValid(l: Line, keys: seq<byte>)
    requires l.Valid() && NoEnter(keys)
    ensures var r := Typed(l, keys); r.Valid() && r.prompt == l.prompt && r.atLock == l.atLock && r.text.scrolls >= l.text.scrolls
    decreases |keys|
  {
    if keys != [] {
      TypedValid(l, keys[..|keys| - 1]);
      Typed(l, keys[..|keys| - 1]).PressValid(keys[|keys| - 1]);
    }
  }

  /** The line right after the prompt was printed and locked. */
  ghost predicate Fresh(l: Line)
  {
    l.Valid() && l.typed == [] && l.prompt == |l.text.glyphs| && l.atLock == l.text.scrolls
  }

  /**
   * From a fresh prompt, for every sequence of keys during which the screen does not scroll,
   * the screen mirrors the buffer: the locked index plus the typed length is the cursor.
   */
  lemma {:induction false} MirrorsWithoutScroll(l: Line, keys: seq<byte>)
    requires Fresh(l) && NoEnter(keys) && Typed(l, keys).text.scrolls == l.text.scrolls
    ensures var r := Typed(l, keys);
      && r.Mirrors()
      && |r.typed| < BUFFER
      && r.text.Index() == r.text.limit + |r.typed|
    decreases |keys|
  {
    if keys != [] {
      var before := keys[..|keys| - 1];
      var c := keys[|keys| - 1];
      TypedValid(l, before);
      var p := Typed(l, before);
      assert p.Press(c).text.scrolls >= p.text.scrolls;
      MirrorsWithoutScroll(l, before);
      p.PressMirrors(c);
      TypedValid(l, keys);
    } else {
      assert l.Mirrors();
    }
  }

  /** Some key of the sequence loses the mirror. */
  ghost predicate SomeLoss(l: Line, keys: seq<byte>)
  {
    exists k :: 0 <= k < |keys| && LossAt(l, keys, k)
  }

  ghost predicate LossAt(l: Line, keys: seq<byte>, k: nat)
    requires k < |keys|
  {
    Typed(l, keys[..k]).Loses(keys[k])
  }

  /** Characters on the screen that the buffer no longer holds. */
  function Stale(l: Line): int { |l.text.glyphs| - l.prompt - |l.typed| }

  /** They never go away again, and a losing backspace adds the first one. */
  lemma PressStale(l: Line, c: byte)
    requires l.Valid() && c != NEWLINE
    ensures Stale(l.Press(c)) >= Stale(l)
    ensures l.Loses(c) && Stale(l) == 0 ==> Stale(l.Press(c)) > 0
  {
  }

  /** Scrolling or not, the screen mirrors the buffer exactly as long as no such backspace was pressed. */
  lemma {:induction false} MirrorsUnlessLost(l: Line, keys: seq<byte>)
    requires Fresh(l) && NoEnter(keys)
    ensures Typed(l, keys).Mirrors() <==> !SomeLoss(l, keys)
    ensures !Typed(l, keys).Mirrors() ==> Stale(Typed(l, keys)) > 0
    decreases |keys|
  {
    if keys != [] {
      var n := |keys| - 1;
      var before := keys[..n];
      TypedValid(l, before);
      LossSplit(l, keys);
      MirrorsUnlessLost(l, before);
      var p := Typed(l, before);
      PressStale(p, keys[n]);
      if p.Mirrors() {
        p.PressMirrors(keys[n]);
      }
    } else {
      assert l.Mirrors();
    }
  }

  lemma LossSplit(l: Line, keys: seq<byte>)
    requires keys != []
    ensures var n := |keys| - 1; SomeLoss(l, keys) <==> SomeLoss(l, keys[..n]) || Typed(l, keys[..n]).Loses(keys[n])
  {
    var n := |keys| - 1;
    forall k | 0 <= k < n
      ensures LossAt(l, keys[..n], k) <==> LossAt(l, keys, k)
    {
      assert keys[..n][..k] == keys[..k];
    }
    assert LossAt(l, keys, n) <==> Typed(l, keys[..n]).Loses(keys[n]);
  }

  // ----- what is typed -----

  /** What a key other than Enter does: backspace deletes the last character, any other adds itself while there is room. */
  lemma PressEdits(l: Line, c: byte)
    requires l.Valid() && c != 10
    ensures var r := l.Press(c);
      && (c == 8 ==> r.typed == if l.typed == [] then [] else l.typed[..|l.typed| - 1])
      && (c != 8 && c != 0 && |l.typed| < 255 ==> r.typed == l.typed + [c])
      && (c == 0 || (c != 8 && |l.typed| == 255) ==> r.typed == l.typed)
      && r.text == if r.typed == l.typed then l.text else l.text.Step(c, 0x0F)
  {
    assert forall k: nat :: k < |l.typed| ==> l.typed[..k] != l.typed;
  }

  /** A character that finds the buffer full is dropped. */
  predicate Refused(l: Line, c: byte)
  {
    c != 0 && c != 8 && |l.typed| == 255
  }

  /** The keys that are not dropped. */
  function Heard(l: Line, keys: seq<byte>): seq<byte>
    decreases |keys|
  {
    if keys == [] then []
    else
      var before, c := keys[..|keys| - 1], keys[|keys| - 1];
      Heard(l, before) + if Refused(Typed(l, before), c) then [] else [c]
  }

  /** Read backwards, every backspace deletes one character before it; p of them are still to delete one. */
  function Survivors(keys: seq<byte>, p: nat): seq<byte>
    decreases |keys|
  {
    if keys == [] then []
    else
      var before, c := keys[..|keys| - 1], keys[|keys| - 1];
      if c == 8 then Survivors(before, p + 1)
      else if c == 0 then Survivors(before, p)
      else if p > 0 then Survivors(before, p - 1)
      else Survivors(before, 0) + [c]
  }

  /** From a fresh prompt the buffer holds the characters no later backspace deleted, of those that found room. */
  lemma BufferHoldsSurvivors(l: Line, keys: seq<byte>)
    requires Fresh(l) && NoEnter(keys)
    ensures Typed(l, keys).typed == Survivors(Heard(l, keys), 0)
    ensures |keys| <= 255 ==> Heard(l, keys) == keys
  {
    Surviving(l, keys, 0);
    if |keys| <= 255 {
      AllHeard(l, keys);
    }
  }

  lemma {:induction false} Surviving(l: Line, keys: seq<byte>, p: nat)
    requires Fresh(l) && NoEnter(keys)
    ensures var typed := Typed(l, keys).typed;
      Survivors(Heard(l, keys), p) == if p <= |typed| then typed[..|typed| - p] else []
    decreases |keys|
  {
    if keys == [] {
    } else {
      var before, c := keys[..|keys| - 1], keys[|keys| - 1];
      TypedValid(l, before);
      var was := Typed(l, before);
      if Refused(was, c) {
        Surviving(l, before, p);
        assert Heard(l, keys) == Heard(l, before);
      } else {
        var heard := Heard(l, keys);
        assert heard[..|heard| - 1] == Heard(l, before) && heard[|heard| - 1] == c;
        Surviving(l, before, if c == 8 then p + 1 else if c == 0 || p == 0 then p else p - 1);
      }
    }
  }

  lemma {:induction false} AllHeard(l: Line, keys: seq<byte>)
    requires Fresh(l) && |keys| <= 255
    ensures Heard(l, keys) == keys && |Typed(l, keys).typed| <= |keys|
    decreases |keys|
  {
    if keys == [] {
    } else {
      AllHeard(l, keys[..|keys| - 1]);
      assert keys == keys[..|keys| - 1] + [keys[|keys| - 1]];
    }
  }

  /** A line of characters followed by n backspaces loses its last n characters, and is empty after as many as it had. */
  lemma {:induction false} RubbedOut(l: Line, s: seq<byte>, n: nat)
    requires Fresh(l) && |s| <= 255 && n <= |s|
    requires forall k :: 0 <= k < |s| ==> s[k] != 0 && s[k] != 8 && s[k] != 10
    ensures Typed(l, s + seq(n, _ => 8)).typed == s[..|s| - n]
    decreases n
  {
    if n > 0 {
      RubbedOut(l, s, n - 1);
      assert s + seq(n, _ => 8) == s + seq(n - 1, _ => 8) + [8];
      OneKeyMore(l, s + seq(n - 1, _ => 8), 8);
    } else {
      assert s + seq(0, _ => 8) == s;
      TypedAsIs(l, s);
    }
  }

  lemma OneKeyMore(l: Line, keys: seq<byte>, c: byte)
    ensures Typed(l, keys + [c]) == Typed(l, keys).Press(c)
  {
    assert (keys + [c])[..|keys|] == keys;
  }

  lemma {:induction false} TypedAsIs(l: Line, s: seq<byte>)
    requires Fresh(l) && |s| <= 255
    requires forall k :: 0 <= k < |s| ==> s[k] != 0 && s[k] != 8 && s[k] != 10
    ensures Typed(l, s).typed == s
    decreases |s|
  {
    if s == [] {
    } else {
      TypedAsIs(l, s[..|s| - 1]);
    }
  }

  // ----- the mirror can be lost -----

  /** Typing characters that fit the screen, one row scroll included, appends them. */
  lemma {:induction false} TypedInk(l: Line, n: nat, c: byte)
    requires Fresh(l) && c != 0 && c != NEWLINE && c != BACKSPACE && n < BUFFER
    requires l.text.Index() + n < CELLS + COLS
    ensures var r := Typed(l, seq(n, _ => c));
      && |r.typed| == n
      && |r.text.glyphs| == |l.text.glyphs| + n
      && r.prompt == l.prompt && r.atLock == l.atLock
      && r.Drift() == if l.text.Index() + n >= CELLS then 1 else 0
  {
    if n > 0 {
      TypedInk(l, n - 1, c);
      assert seq(n, _ => c)[..n - 1] == seq(n - 1, _ => c);
    }
  }

  /**
   * On a prompt in the last row, typing to the end of the row and then pressing backspace loses the mirror:
   * the row scrolls up under the lock, so the character stays on the screen and leaves the buffer.
   */
  lemma LastRowLoses(l: Line, c: byte)
    requires Fresh(l) && l.text.Index() >= LAST_ROW && c != 0 && c != NEWLINE && c != BACKSPACE
    ensures var keys := seq(CELLS - l.text.Index(), _ => c) + [BACKSPACE];
      NoEnter(keys) && SomeLoss(l, keys) && !Typed(l, keys).Mirrors()
  {
    var n: nat := CELLS - l.text.Index();
    var keys := seq(n, _ => c) + [BACKSPACE];
    TypedInk(l, n, c);
    assert keys[..n] == seq(n, _ => c);
    assert LossAt(l, keys, n);
    MirrorsUnlessLost(l, keys);
  }

  /** "root@ng-os:~ " */
  const PROMPT_TEXT: seq<byte> := [114, 111, 111, 116, 64, 110, 103, 45, 111, 115, 58, 126, 32]

  /** Such a prompt: 24 rows without ink, then the 13 characters of the prompt in the last row. */
  lemma LossExample()
    ensures var shown := Gaps(1920) + seq(13, i requires 0 <= i < 13 => Ink(CellOf(PROMPT_TEXT[i], PROMPT_COLOR)));
      SomeLoss(Line(Text(shown, 0, 1933), [], 1933, 0), seq(67, _ => 97) + [BACKSPACE])
  {
    var shown := Gaps(1920) + seq(13, i requires 0 <= i < 13 => Ink(CellOf(PROMPT_TEXT[i], PROMPT_COLOR)));
    LastRowLoses(Line(Text(shown, 0, 1933), [], 1933, 0), 97);
  }
}
