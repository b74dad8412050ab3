/** src/keyboard.c: the keyboard handler, its line buffer and the echo. */
module Keyboard {
  import opened Words
  import opened ConsoleText
  import opened CStrings
  import opened LineEditor
  import C = Console
  import Shell

  const NUMBERS: seq<byte> := [0, 27, 49, 50, 51, 52, 53, 54, 55, 56, 57, 48, 45, 61, 8]
  const TOP: seq<byte> := [9, 113, 119, 101, 114, 116, 121, 117, 105, 111, 112, 91, 93, 10]
  const HOME: seq<byte> := [0, 97, 115, 100, 102, 103, 104, 106, 107, 108, 59, 39, 96, 0, 92]
  const BOTTOM: seq<byte> := [122, 120, 99, 118, 98, 110, 109, 44, 46, 47, 0, 42, 0, 32]

  /** kbd_us: scan codes 0 to 57; the rest of the table is zero. */
  const KBD_US: seq<byte> := NUMBERS + TOP + HOME + BOTTOM

  function KeyOf(code: byte): byte
  {
    if code < |KBD_US| then KBD_US[code] else 0
  }

  /** The keys of a US keyboard, lower case. */
  lemma DigitRow()
    ensures KeyOf(2) == '1' as int && KeyOf(3) == '2' as int && KeyOf(4) == '3' as int && KeyOf(5) == '4' as int && KeyOf(6) == '5' as int
    ensures KeyOf(7) == '6' as int && KeyOf(8) == '7' as int && KeyOf(9) == '8' as int && KeyOf(10) == '9' as int && KeyOf(11) == '0' as int
    ensures KeyOf(12) == '-' as int && KeyOf(13) == '=' as int
  {
  }

  lemma TopRow()
    ensures KeyOf(16) == 'q' as int && KeyOf(17) == 'w' as int && KeyOf(18) == 'e' as int && KeyOf(19) == 'r' as int && KeyOf(20) == 't' as int
    ensures KeyOf(21) == 'y' as int && KeyOf(22) == 'u' as int && KeyOf(23) == 'i' as int && KeyOf(24) == 'o' as int && KeyOf(25) == 'p' as int
    ensures KeyOf(26) == '[' as int && KeyOf(27) == ']' as int
  {
  }

  lemma HomeRow()
    ensures KeyOf(30) == 'a' as int && KeyOf(31) == 's' as int && KeyOf(32) == 'd' as int && KeyOf(33) == 'f' as int && KeyOf(34) == 'g' as int
    ensures KeyOf(35) == 'h' as int && KeyOf(36) == 'j' as int && KeyOf(37) == 'k' as int && KeyOf(38) == 'l' as int && KeyOf(39) == ';' as int
    ensures KeyOf(40) == '\'' as int && KeyOf(41) == '`' as int
  {
  }

  lemma BottomRow()
    ensures KeyOf(43) == '\\' as int && KeyOf(44) == 'z' as int && KeyOf(45) == 'x' as int && KeyOf(46) == 'c' as int && KeyOf(47) == 'v' as int
    ensures KeyOf(48) == 'b' as int && KeyOf(49) == 'n' as int && KeyOf(50) == 'm' as int && KeyOf(51) == ',' as int && KeyOf(52) == '.' as int
    ensures KeyOf(53) == '/' as int
  {
  }

  /** Backspace, tab, Enter, space and the rest; modifiers, function keys and key releases give no character. */
  lemma OtherKeys(code: byte)
    ensures KeyOf(14) == 8 && KeyOf(15) == 9 && KeyOf(28) == 10 && KeyOf(57) == 32
    ensures KeyOf(1) == 27 && KeyOf(55) == '*' as int
    ensures code == 0 || code == 29 || code == 42 || code == 54 || code == 56 || code >= 58 ==> KeyOf(code) == 0
  {
  }

  const PROMPT: seq<byte> := Shell.Ascii("\nroot@ng-os:~ ")

  class Keyboard {
    const buffer: array<byte>   // shell_buffer
    var idx: nat                // buffer_idx
    const args: array<nat>      // current_args
    const console: C.Console
    ghost var prompt: nat
    ghost var atLock: nat

    ghost function View(): Line
      requires idx <= buffer.Length
      reads this, buffer, console
    {
      Line(console.text, buffer[..idx], prompt, atLock)
    }

    ghost predicate Valid()
      reads this, buffer, console, console.buff
    {
      && buffer.Length == BUFFER && idx < BUFFER && args.Length == Shell.MAX_ARGS
      && console.Valid()
      && View().Valid()
    }

    /** The prompt was printed and the cursor locked just before. */
    constructor (buffer: array<byte>, args: array<nat>, console: C.Console)
      requires buffer.Length == BUFFER && args.Length == Shell.MAX_ARGS && console.Valid() && console.text.limit == console.text.Index()
      ensures Valid() && Fresh(View()) && this.console == console && this.buffer == buffer
    {
      this.buffer := buffer;
      this.args := args;
      this.console := console;
      this.idx := 0;
      this.prompt := |console.text.glyphs|;
      this.atLock := console.text.scrolls;
    }

    /**
     * Any key but Enter. Backspace shortens the buffer by one, a character is added while there is room, a key
     * release (code 128 and up) or an unmapped key does nothing.
     */
    method Press(code: byte)
      requires Valid() && !(code < 128 && KeyOf(code) == NEWLINE)
      modifies this, buffer, console, console.buff
      ensures Valid() && prompt == old(prompt) && atLock == old(atLock)
      ensures View() == if code < 128 then old(View()).Press(KeyOf(code)) else old(View())
      ensures code == 14 ==> idx == (if old(idx) > 0 then old(idx) - 1 else 0) && buffer[..] == old(buffer[..])
      ensures code < 128 && code != 14 && KeyOf(code) != 0 && old(idx) < 255 ==>
                idx == old(idx) + 1 && buffer[..] == old(buffer[..])[old(idx) := KeyOf(code)]
      ensures code >= 128 || KeyOf(code) == 0 || (code != 14 && old(idx) == 255) ==> idx == old(idx) && buffer[..] == old(buffer[..])
    {
      if code >= 128 {
        return;
      }
      OtherKeys(code);
      var c := KeyOf(code);
      if c == BACKSPACE {
        BackOne();
      } else if c != 0 {
        Append(c);
      }
    }

    /** The branch for '\b'. */
    method BackOne()
      requires Valid()
      modifies this, console, console.buff
      ensures Valid() && prompt == old(prompt) && atLock == old(atLock) && View() == old(View()).Press(BACKSPACE)
      ensures idx == if old(idx) > 0 then old(idx) - 1 else 0
    {
      ghost var l := View();
      l.PressValid(BACKSPACE);
      if idx > 0 {
        idx := idx - 1;
        console.PrintColor([BACKSPACE, 0], C.DEFAULT_COLOR);
        PrintOne(l.text, BACKSPACE, C.DEFAULT_COLOR);
        assert buffer[..idx] == l.typed[..idx];
      }
    }

    /** The branch for a character: one place is kept for the terminating zero. */
    method Append(c: byte)
      requires Valid() && c != 0 && c != BACKSPACE && c != NEWLINE
      modifies this, buffer, console, console.buff
      ensures Valid() && prompt == old(prompt) && atLock == old(atLock) && View() == old(View()).Press(c)
      ensures old(idx) < 255 ==> idx == old(idx) + 1 && buffer[..] == old(buffer[..])[old(idx) := c]
      ensures old(idx) == 255 ==> idx == old(idx) && buffer[..] == old(buffer[..])
    {
      ghost var l := View();
      l.PressValid(c);
      if idx < 255 {
        buffer[idx] := c;
        idx := idx + 1;
        console.PrintColor([c, 0], C.DEFAULT_COLOR);
        PrintOne(l.text, c, C.DEFAULT_COLOR);
        assert buffer[..idx] == l.typed + [c];
      }
    }

    /**
     * Enter: the buffer is terminated and run, then a new prompt is printed and locked. The
     * command line executed is exactly what was typed; `read` is what peek finds in memory. A
     * peek at an unmapped address halts the kernel.
     */
    method Enter(read: word -> Option<word>) returns (halted: bool)
      requires Valid()
      modifies this, buffer, args, console, console.buff
      ensures halted <==> Shell.Faults(Shell.Arguments(old(View()).typed), read)
      ensures !halted ==> Valid() && Fresh(View())
      ensures !halted ==>
        var newline := old(console.text).Step(NEWLINE, C.DEFAULT_COLOR);
        var shown := Print(Shell.Executed(newline, old(View()).typed, read), PROMPT, PROMPT_COLOR);
        shown.Valid() && console.text == shown.Locked()
    {
      ghost var typed := buffer[..idx];
      buffer[idx] := 0;
      CStringIs(buffer[..], idx);
      assert CString(buffer[..]) == typed;
      console.PrintColor([NEWLINE, 0], C.DEFAULT_COLOR);
      PrintOne(old(console.text), NEWLINE, C.DEFAULT_COLOR);
      halted := Shell.ExecuteCommand(console, buffer, args, read);
      if halted {
        return;
      }
      idx := 0;
      CStringOf(PROMPT);
      console.PrintColor(PROMPT + [0], PROMPT_COLOR);
      console.LockCursor();
      prompt := |console.text.glyphs|;
      atLock := console.text.scrolls;
    }
  }

  lemma PrintOne(t: Text, c: byte, color: byte)
    requires c != 0
    ensures 0 in [c, 0] && Print(t, CString([c, 0]), color) == t.Step(c, color)
  {
    assert [c, 0][1] == 0;
    assert [c, 0][1..] == [0];
    assert CString([0]) == [];
    assert CString([c, 0]) == [c];
    assert [c][..0] == [];
    assert Print(t, [], color) == t;
  }
}
