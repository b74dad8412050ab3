/** src/shell.c: the in-place tokenizer and the hexadecimal parser; the hexadecimal printer of src/vga.c. */
module Shell {
  import opened Words
  import opened CStrings
  import opened ConsoleText
  import C = Console

  const MAX_ARGS := 16

  // ----- parse_args -----

  predicate Separator(c: byte) { c == 32 || c == 9 || c == 10 }

  /** A word begins at position i. */
  predicate Begins(s: seq<byte>, i: nat)
    requires i < |s|
  {
    !Separator(s[i]) && (i == 0 || Separator(s[i - 1]))
  }

  /** Where the words of s begin, below position n. */
  function Starts(s: seq<byte>, n: nat): (r: seq<nat>)
    requires n <= |s|
    ensures forall k :: 0 <= k < |r| ==> r[k] < n && Begins(s, r[k])
  {
    if n == 0 then [] else if Begins(s, n - 1) then Starts(s, n - 1) + [n - 1] else Starts(s, n - 1)
  }

  /** First separator at or after a, or the end. */
  function WordEnd(s: seq<byte>, a: nat): (e: nat)
    requires a <= |s|
    ensures a <= e <= |s|
    ensures forall k :: a <= k < e ==> !Separator(s[k])
    ensures e < |s| ==> Separator(s[e])
    decreases |s| - a
  {
    if a == |s| || Separator(s[a]) then a else WordEnd(s, a + 1)
  }

  /** The maximal runs of non-separators, in order. */
  function Tokens(s: seq<byte>): seq<seq<byte>>
  {
    var starts := Starts(s, |s|);
    seq(|starts|, k requires 0 <= k < |starts| => s[starts[k]..WordEnd(s, starts[k])])
  }

  function Min(a: nat, b: nat): nat { if a < b then a else b }

  /** s with its first n characters' separators overwritten by zeros. */
  ghost predicate Mutated(m: seq<byte>, was: seq<byte>, n: nat)
  {
    |m| == |was| && n <= |was| && forall k :: 0 <= k < |m| ==> m[k] == if k < n && Separator(was[k]) then 0 else was[k]
  }

  method ParseArgs(input: array<byte>, args: array<nat>) returns (count: nat)
    requires 0 in input[..] && args.Length == MAX_ARGS
    modifies input, args
    ensures var tokens := Tokens(CString(old(input[..])));
      && count == Min(|tokens|, MAX_ARGS)
      && forall k :: 0 <= k < count ==>
           && args[k] < input.Length
           && 0 in input[args[k]..]
           && CString(input[args[k]..]) == tokens[k]
  {
    ghost var was := input[..];
    CStringLength(was);
    ghost var s := CString(was);
    count := 0;
    var inWord := false;
    var i := 0;
    while input[i] != 0
      invariant i <= |s| && Mutated(input[..], was, i)
      invariant count == Min(|Starts(s, i)|, MAX_ARGS)
      invariant forall k :: 0 <= k < count ==> args[k] == Starts(s, i)[k]
      invariant inWord ==> i > 0 && !Separator(s[i - 1])
      invariant !inWord && i > 0 && !Separator(s[i - 1]) ==> count == MAX_ARGS
      decreases |s| - i
    {
      assert input[i] == s[i];
      if input[i] == 32 || input[i] == 9 || input[i] == 10 {
        inWord := false;
        input[i] := 0;
      } else if !inWord {
        if count < MAX_ARGS {
          args[count] := i;
          count := count + 1;
          inWord := true;
        }
      }
      i := i + 1;
    }
    assert input[..][i] == was[i];
    assert i == |s|;
    forall k | 0 <= k < count
      ensures args[k] < input.Length && 0 in input[args[k]..] && CString(input[args[k]..]) == Tokens(s)[k]
    {
      TokenAt(input[..], was, s, args[k]);
      assert input[args[k]..] == input[..][args[k]..];
    }
  }

  /** In the overwritten buffer the string at the start of a word is that word. */
  lemma TokenAt(m: seq<byte>, was: seq<byte>, s: seq<byte>, a: nat)
    requires |s| < |was| && s == was[..|s|] && was[|s|] == 0 && 0 !in s
    requires Mutated(m, was, |s|) && a < |s|
    ensures 0 in m[a..] && CString(m[a..]) == s[a..WordEnd(s, a)]
  {
    var e := WordEnd(s, a);
    forall k | a <= k < e
      ensures m[k] == s[k] && m[k] != 0
    {
      assert s[k] in s;
    }
    assert m[e] == 0;
    CStringIs(m[a..], e - a);
    assert m[a..][..e - a] == s[a..e];
  }

  // ----- tokenizing what was joined -----

  /** Words have no spaces, tabs and newlines in them, gaps nothing else. */
  ghost predicate Word(w: seq<byte>)
  {
    w != [] && forall k :: 0 <= k < |w| ==> w[k] != 32 && w[k] != 9 && w[k] != 10
  }

  ghost predicate Blank(b: seq<byte>)
  {
    forall k :: 0 <= k < |b| ==> b[k] == 32 || b[k] == 9 || b[k] == 10
  }

  /** Words each preceded by its own gap. */
  function Joined(gaps: seq<seq<byte>>, words: seq<seq<byte>>): seq<byte>
    requires |gaps| == |words|
  {
    if words == [] then [] else Joined(gaps[..|gaps| - 1], words[..|words| - 1]) + gaps[|gaps| - 1] + words[|words| - 1]
  }

  lemma {:induction false} StartsPrefix(s: seq<byte>, t: seq<byte>, n: nat)
    requires n <= |s| <= |t| && t[..|s|] == s
    ensures Starts(t, n) == Starts(s, n)
  {
    if n > 0 {
      StartsPrefix(s, t, n - 1);
      assert t[n - 1] == s[n - 1] && (n > 1 ==> t[n - 2] == s[n - 2]);
    }
  }

  lemma {:induction false} NoStarts(s: seq<byte>, n: nat, m: nat)
    requires n <= m <= |s| && forall k :: n <= k < m ==> !Begins(s, k)
    ensures Starts(s, m) == Starts(s, n)
  {
    if n < m {
      NoStarts(s, n, m - 1);
    }
  }

  lemma {:induction false} EndSame(s: seq<byte>, t: seq<byte>, a: nat)
    requires a <= |s| <= |t| && t[..|s|] == s && (|s| < |t| ==> Separator(t[|s|]))
    ensures WordEnd(t, a) == WordEnd(s, a)
    decreases |s| - a
  {
    if a < |s| {
      assert t[a] == s[a];
      if !Separator(s[a]) {
        EndSame(s, t, a + 1);
      }
    }
  }

  lemma {:induction false} EndOfRun(s: seq<byte>, a: nat)
    requires a <= |s| && forall k :: a <= k < |s| ==> !Separator(s[k])
    ensures WordEnd(s, a) == |s|
    decreases |s| - a
  {
    if a < |s| {
      EndOfRun(s, a + 1);
    }
  }

  /** Appending a gap and a word appends the position where the word begins. */
  lemma StartsAppend(s: seq<byte>, gap: seq<byte>, w: seq<byte>)
    requires Word(w) && Blank(gap) && (gap == [] ==> s == [])
    ensures var t := s + gap + w; Starts(t, |t|) == Starts(s, |s|) + [|s| + |gap|]
  {
    var t := s + gap + w;
    var n := |s| + |gap|;
    assert t[..|s|] == s;
    StartsPrefix(s, t, |s|);
    NoStarts(t, |s|, n);
    assert t[n] == w[0] && Begins(t, n);
    NoStarts(t, n + 1, |t|);
  }

  /** A word of s is the same word when a gap follows, or nothing. */
  lemma TokenSame(s: seq<byte>, t: seq<byte>, a: nat)
    requires a <= |s| <= |t| && t[..|s|] == s && (|s| < |t| ==> Separator(t[|s|]))
    ensures t[a..WordEnd(t, a)] == s[a..WordEnd(s, a)]
  {
    EndSame(s, t, a);
    assert t[a..WordEnd(s, a)] == t[..|s|][a..WordEnd(s, a)];
  }

  /** Appending a gap and a word appends a token; the gap may be empty only at the very beginning. */
  lemma TokensAppend(s: seq<byte>, gap: seq<byte>, w: seq<byte>)
    requires Word(w) && Blank(gap) && (gap == [] ==> s == [])
    ensures Tokens(s + gap + w) == Tokens(s) + [w]
  {
    var t := s + gap + w;
    var n := |s| + |gap|;
    StartsAppend(s, gap, w);
    if gap != [] {
      assert t[..|s|] == s && t[|s|] == gap[0];
      forall k | 0 <= k < |Starts(s, |s|)|
        ensures Tokens(t)[k] == Tokens(s)[k]
      {
        TokenSame(s, t, Starts(s, |s|)[k]);
      }
    }
    EndOfRun(t, n);
    assert t[n..|t|] == w;
  }

  /** Tokenizing words joined by any non-empty gaps gives the words back. */
  lemma {:induction false} JoinThenTokenize(gaps: seq<seq<byte>>, words: seq<seq<byte>>)
    requires |gaps| == |words|
    requires forall k :: 0 <= k < |words| ==> Word(words[k]) && Blank(gaps[k]) && (k > 0 ==> gaps[k] != [])
    ensures Tokens(Joined(gaps, words)) == words
    ensures words != [] ==> Joined(gaps, words) != []
    decreases |words|
  {
    if words != [] {
      var n := |words| - 1;
      JoinThenTokenize(gaps[..n], words[..n]);
      var s := Joined(gaps[..n], words[..n]);
      assert n == 0 ==> s == [];
      TokensAppend(s, gaps[n], words[n]);
      assert words == words[..n] + [words[n]];
    }
  }

  /** What follows the last word adds no token. */
  lemma TrailingGap(s: seq<byte>, gap: seq<byte>)
    requires Blank(gap)
    ensures Tokens(s + gap) == Tokens(s)
  {
    var t := s + gap;
    assert t[..|s|] == s;
    StartsPrefix(s, t, |s|);
    NoStarts(t, |s|, |t|);
    forall k | 0 <= k < |Starts(s, |s|)|
      ensures Tokens(t)[k] == Tokens(s)[k]
    {
      TokenSame(s, t, Starts(s, |s|)[k]);
    }
  }

  // ----- textohex -----

  predicate HexDigit(c: byte) { 48 <= c <= 57 || 65 <= c <= 70 || 97 <= c <= 102 }

  function DigitValue(c: byte): nat
    requires HexDigit(c)
  {
    if c <= 57 then c - 48 else if c <= 70 then c - 65 + 10 else c - 97 + 10
  }

  /** The number a string of hexadecimal digits denotes. */
  function Value(ds: seq<byte>): nat
    requires forall k :: 0 <= k < |ds| ==> HexDigit(ds[k])
  {
    if ds == [] then 0 else 16 * Value(ds[..|ds| - 1]) + DigitValue(ds[|ds| - 1])
  }

  /** Length of the longest prefix of hexadecimal digits from position i on. */
  function DigitsFrom(s: seq<byte>, i: nat): (e: nat)
    requires i <= |s|
    ensures i <= e <= |s|
    ensures forall k :: i <= k < e ==> HexDigit(s[k])
    ensures e < |s| ==> !HexDigit(s[e])
    decreases |s| - i
  {
    if i == |s| || !HexDigit(s[i]) then i else DigitsFrom(s, i + 1)
  }

  /** Past an optional 0x or 0X. */
  function Body(s: seq<byte>): (i: nat)
    ensures i <= |s|
  {
    if |s| >= 2 && s[0] == 48 && (s[1] == 120 || s[1] == 88) then 2 else 0
  }

  /** What a hexadecimal string means: the value of its digit prefix. */
  function HexMeaning(s: seq<byte>): nat
  {
    Value(s[Body(s)..DigitsFrom(s, Body(s))])
  }

  method TextToHex(str: seq<byte>) returns (result: word)
    requires 0 in str
    ensures result == HexMeaning(CString(str)) % WORD_LIMIT
  {
    CStringLength(str);
    ghost var s := CString(str);
    result := 0;
    var i := 0;
    if str[0] == 48 && (str[1] == 120 || str[1] == 88) {
      i := 2;
    }
    ghost var from := i;
    while str[i] != 0
      invariant i <= |s| && Parsed(s, from, i, result)
      decreases |s| - i
    {
      var c := str[i];
      assert c == s[i];
      var digit, v := DecodeDigit(c);
      if !digit {
        break;
      }
      ParseDigit(s, from, i, result);
      result := result * 16 % WORD_LIMIT + v;
      i := i + 1;
    }
    assert DigitsFrom(s, i) == i;
  }

  /** The comparisons on one character. */
  method DecodeDigit(c: byte) returns (digit: bool, v: nat)
    ensures digit <==> HexDigit(c)
    ensures digit ==> v == DigitValue(c) < 16
  {
    if 48 <= c <= 57 {
      return true, c - 48;
    } else if 65 <= c <= 70 {
      return true, c - 65 + 10;
    } else if 97 <= c <= 102 {
      return true, c - 97 + 10;
    }
    return false, 0;
  }

  /** From `from` to i only digits were met, and result is their value in 32 bits. */
  ghost predicate Parsed(s: seq<byte>, from: nat, i: nat, result: word)
  {
    && from <= i <= |s|
    && (forall k :: from <= k < i ==> HexDigit(s[k]))
    && DigitsFrom(s, from) == DigitsFrom(s, i)
    && result == Value(s[from..i]) % WORD_LIMIT
  }

  lemma ParseDigit(s: seq<byte>, from: nat, i: nat, result: word)
    requires Parsed(s, from, i, result) && i < |s| && HexDigit(s[i])
    ensures var r := result * 16 % WORD_LIMIT + DigitValue(s[i]); r < WORD_LIMIT && Parsed(s, from, i + 1, r)
  {
    assert s[from..i + 1][..i - from] == s[from..i];
    ShiftIn(Value(s[from..i]), DigitValue(s[i]));
  }

  /** (result << 4) | v in 32 bits. */
  lemma ShiftIn(value: nat, v: nat)
    requires v < 16
    ensures value % WORD_LIMIT * 16 % WORD_LIMIT + v == (16 * value + v) % WORD_LIMIT
  {
    var q, r := value / WORD_LIMIT, value % WORD_LIMIT;
    var a, b := 16 * r / WORD_LIMIT, 16 * r % WORD_LIMIT;
    assert b == 16 * (r - a * 0x1000_0000);
    RemainderIs(16 * value + v, 16 * q + a, b + v);
  }

  lemma RemainderIs(x: nat, q: nat, r: nat)
    requires x == q * WORD_LIMIT + r && r < WORD_LIMIT
    ensures x % WORD_LIMIT == r
  {
  }

  // ----- vga_hex_print -----

  const HEX_DIGITS: seq<byte> := [48, 49, 50, 51, 52, 53, 54, 55, 56, 57, 65, 66, 67, 68, 69, 70]

  /** The last k hexadecimal digits of n. */
  function Digits(n: nat, k: nat): (ds: seq<byte>)
    ensures |ds| == k && forall i :: 0 <= i < k ==> HexDigit(ds[i])
  {
    if k == 0 then [] else Digits(n / 16, k - 1) + [HEX_DIGITS[n % 16]]
  }

  function HexString(n: word): seq<byte> { [48, 120] + Digits(n, 8) }

  method HexPrint(console: C.Console, n: word)
    requires console.Valid()
    modifies console, console.buff
    ensures console.Valid() && console.text == Print(old(console.text), HexString(n), C.DEFAULT_COLOR)
  {
    var hex := new byte[11](i => if i == 10 then 0 else if i == 1 then 120 else 48);
    var num: nat := n;
    var i := 9;
    while i >= 2
      invariant 1 <= i <= 9
      invariant hex[0] == 48 && hex[1] == 120 && hex[10] == 0
      invariant Digits(num, i - 1) + hex[i + 1..10] == Digits(n, 8)
      modifies hex
    {
      hex[i] := HEX_DIGITS[num % 16];
      num := num / 16;
      i := i - 1;
    }
    assert hex[2..10] == Digits(n, 8);
    assert hex[..] == [48, 120] + hex[2..10] + [0];
    CStringOf(HexString(n));
    console.PrintColor(hex[..], C.DEFAULT_COLOR);
  }

  lemma DigitOf(v: nat)
    requires v < 16
    ensures HexDigit(HEX_DIGITS[v]) && DigitValue(HEX_DIGITS[v]) == v && HEX_DIGITS[v] <= 70
  {
    if v < 8 {
      assert v == 0 || v == 1 || v == 2 || v == 3 || v == 4 || v == 5 || v == 6 || v == 7;
    } else {
      assert v == 8 || v == 9 || v == 10 || v == 11 || v == 12 || v == 13 || v == 14 || v == 15;
    }
  }

  lemma {:induction false} DigitsValue(n: nat, k: nat)
    requires n < Power16(k)
    ensures Value(Digits(n, k)) == n
  {
    if k > 0 {
      DigitsValue(n / 16, k - 1);
      DigitOf(n % 16);
      var ds := Digits(n, k);
      assert ds[..k - 1] == Digits(n / 16, k - 1);
    }
  }

  function Power16(k: nat): nat { if k == 0 then 1 else 16 * Power16(k - 1) }

  /** What vga_hex_print prints, 0x and eight upper-case digits, textohex reads back. */
  lemma PrintedReadsBack(n: word)
    ensures HexMeaning(HexString(n)) == n
    ensures |HexString(n)| == 10 && HexString(n)[0] == 48 && HexString(n)[1] == 120
    ensures forall k :: 2 <= k < 10 ==> 48 <= HexString(n)[k] <= 57 || 65 <= HexString(n)[k] <= 70
  {
    var s := HexString(n);
    assert Power16(2) == 0x100;
    assert Power16(4) == 0x1_0000;
    assert Power16(6) == 0x100_0000;
    assert Power16(8) == WORD_LIMIT;
    DigitsValue(n, 8);
    AllDigits(s, 2);
    assert s[2..10] == Digits(n, 8);
    UpperCase(n, 8);
  }

  lemma {:induction false} UpperCase(n: nat, k: nat)
    ensures forall i :: 0 <= i < k ==> 48 <= Digits(n, k)[i] <= 57 || 65 <= Digits(n, k)[i] <= 70
    decreases k
  {
    if k > 0 {
      UpperCase(n / 16, k - 1);
      DigitOf(n % 16);
      assert HEX_DIGITS[n % 16] <= 70;
    }
  }

  /** The digits in order, in both cases. */
  lemma DigitOrder(v: nat)
    requires v < 16
    ensures var c := "0123456789abcdef"[v] as int; HexDigit(c) && DigitValue(c) == v
    ensures var c := "0123456789ABCDEF"[v] as int; HexDigit(c) && DigitValue(c) == v
  {
    if v < 8 {
      assert v == 0 || v == 1 || v == 2 || v == 3 || v == 4 || v == 5 || v == 6 || v == 7;
    } else {
      assert v == 8 || v == 9 || v == 10 || v == 11 || v == 12 || v == 13 || v == 14 || v == 15;
    }
  }

  /** The same string, but for upper case A to F and X written in lower case in some places. */
  ghost predicate SameButCase(s: seq<byte>, t: seq<byte>)
  {
    |s| == |t| && forall k :: 0 <= k < |s| ==> t[k] == s[k] || ((65 <= s[k] <= 70 || s[k] == 88) && t[k] == s[k] + 32)
  }

  /** Upper and lower case mean the same number. */
  lemma CaseIgnored(s: seq<byte>, t: seq<byte>)
    requires SameButCase(s, t)
    ensures HexMeaning(t) == HexMeaning(s)
  {
    assert Body(t) == Body(s);
    DigitsFromCase(s, t, Body(s));
    ValueCase(s[Body(s)..DigitsFrom(s, Body(s))], t[Body(s)..DigitsFrom(s, Body(s))]);
  }

  lemma {:induction false} DigitsFromCase(s: seq<byte>, t: seq<byte>, i: nat)
    requires SameButCase(s, t) && i <= |s|
    ensures DigitsFrom(t, i) == DigitsFrom(s, i)
    decreases |s| - i
  {
    if i < |s| {
      DigitsFromCase(s, t, i + 1);
    }
  }

  lemma {:induction false} ValueCase(s: seq<byte>, t: seq<byte>)
    requires SameButCase(s, t) && forall k :: 0 <= k < |s| ==> HexDigit(s[k])
    ensures (forall k :: 0 <= k < |t| ==> HexDigit(t[k])) && Value(t) == Value(s)
    decreases |s|
  {
    if s != [] {
      ValueCase(s[..|s| - 1], t[..|t| - 1]);
    }
  }

  lemma {:induction false} AllDigits(s: seq<byte>, i: nat)
    requires i <= |s| && forall k :: i <= k < |s| ==> HexDigit(s[k])
    ensures DigitsFrom(s, i) == |s|
    decreases |s| - i
  {
    if i < |s| {
      AllDigits(s, i + 1);
    }
  }

  // ----- execute_command -----

  /** The bytes of an ASCII literal. */
  function Ascii(s: string): (r: seq<byte>)
    ensures |r| == |s| && 0 !in r
  {
    seq(|s|, i requires 0 <= i < |s| => if 0 < s[i] as int < 0x80 then s[i] as int else 63)
  }

  const HELP_TEXT := "NG-OS v1.0\nAvailable commands:\nclear\nhelp\necho\npeek\n"

  /** Each word followed by a space. */
  function Spaced(words: seq<seq<byte>>): seq<byte>
  {
    if words == [] then [] else Spaced(words[..|words| - 1]) + (words[|words| - 1] + [SPACE])
  }

  /** The address peek reads, when the command line is one that makes it read. */
  predicate Peeks(words: seq<seq<byte>>)
  {
    |words| >= 2 && words[0] == Ascii("peek")
  }

  function PeekAddress(words: seq<seq<byte>>): word
    requires Peeks(words)
  {
    HexMeaning(words[1]) % WORD_LIMIT
  }

  /** The read faults, and the kernel halts. */
  predicate Faults(words: seq<seq<byte>>, read: word -> Option<word>)
  {
    Peeks(words) && read(PeekAddress(words)).None?
  }

  /** What a command line of these words prints; `read` is the word peek finds at an address, if it is mapped. */
  function Reply(words: seq<seq<byte>>, read: word -> Option<word>): seq<byte>
  {
    if words == [] || words[0] == Ascii("clear") then []
    else if words[0] == Ascii("help") then Ascii(HELP_TEXT)
    else if words[0] == Ascii("echo") then Spaced(words[1..])
    else if words[0] == Ascii("peek") then
      if |words| < 2 then Ascii("Usage: peek <hex_address>\n")
      else
        match read(PeekAddress(words))
        case None => []
        case Some(w) => Ascii("Data at ") + words[1] + Ascii(": ") + HexString(w) + Ascii("\n")
    else Ascii("Command not found: ") + words[0]
  }

  /** The words of the command line s that count: the first 16. */
  function Arguments(s: seq<byte>): seq<seq<byte>>
  {
    Tokens(s)[..Min(|Tokens(s)|, MAX_ARGS)]
  }

  /** The console after the command line s. */
  function Executed(t: Text, s: seq<byte>, read: word -> Option<word>): Text
  {
    var words := Arguments(s);
    Print(if words != [] && words[0] == Ascii("clear") then t.Cleared() else t, Reply(words, read), C.DEFAULT_COLOR)
  }

  /** A signed char. */
  function Signed(c: byte): int { if c < 0x80 then c else c - 0x100 }

  method Strcmp(a: seq<byte>, b: seq<byte>) returns (d: int)
    requires 0 in a && 0 in b
    ensures d == 0 <==> CString(a) == CString(b)
  {
    CStringLength(a);
    CStringLength(b);
    var i := 0;
    while a[i] == b[i]
      invariant i <= |CString(a)| && i <= |CString(b)|
      invariant a[..i] == b[..i]
      decreases |a| - i
    {
      if a[i] == 0 {
        return 0;
      }
      i := i + 1;
    }
    assert i < |CString(a)| ==> CString(a)[i] == a[i];
    assert i < |CString(b)| ==> CString(b)[i] == b[i];
    d := Signed(a[i]) - Signed(b[i]);
  }

  /** The comparison with a literal. */
  method Is(a: seq<byte>, name: string) returns (same: bool)
    requires 0 in a
    ensures same <==> CString(a) == Ascii(name)
  {
    CStringOf(Ascii(name));
    var d := Strcmp(a, Ascii(name) + [0]);
    same := d == 0;
  }

  /** vga_print. */
  method Say(console: C.Console, s: seq<byte>)
    requires console.Valid() && 0 !in s
    modifies console, console.buff
    ensures console.Valid() && console.text == Print(old(console.text), s, C.DEFAULT_COLOR)
  {
    CStringOf(s);
    console.PrintColor(s + [0], C.DEFAULT_COLOR);
  }

  /** The arguments parse_args found, as strings in the overwritten buffer. */
  ghost predicate Holds(input: array<byte>, args: array<nat>, words: seq<seq<byte>>)
    reads input, args
  {
    && |words| <= args.Length
    && forall k :: 0 <= k < |words| ==>
         args[k] < input.Length && 0 in input[args[k]..] && CString(input[args[k]..]) == words[k]
  }

  method ExecuteCommand(console: C.Console, input: array<byte>, args: array<nat>, read: word -> Option<word>) returns (halted: bool)
    requires console.Valid() && 0 in input[..] && args.Length == MAX_ARGS
    modifies console, console.buff, input, args
    ensures halted <==> Faults(Arguments(CString(old(input[..]))), read)
    ensures console.Valid() && console.text == Executed(old(console.text), CString(old(input[..])), read)
  {
    ghost var s := CString(input[..]);
    var count := ParseArgs(input, args);
    ghost var words := Tokens(s)[..count];
    if count == 0 {
      return false;
    }
    var command := input[args[0]..];
    assert CString(command) == words[0];
    var clear := Is(command, "clear");
    if clear {
      console.ClearScreen();
      halted := false;
    } else {
      halted := Dispatch(console, input, args, count, words, read);
    }
  }

  lemma NamesDiffer()
    ensures Ascii("help") != Ascii("peek") && Ascii("echo") != Ascii("peek") && Ascii("echo") != Ascii("help")
  {
    assert Ascii("help")[0] == 104 && Ascii("echo")[0] == 101 && Ascii("peek")[0] == 112;
  }

  /** The commands that print. */
  method Dispatch(console: C.Console, input: array<byte>, args: array<nat>, count: nat, ghost words: seq<seq<byte>>, read: word -> Option<word>)
    returns (halted: bool)
    requires console.Valid() && Holds(input, args, words) && count == |words| > 0 && words[0] != Ascii("clear")
    modifies console, console.buff
    ensures halted <==> Faults(words, read)
    ensures console.Valid() && console.text == Print(old(console.text), Reply(words, read), C.DEFAULT_COLOR)
  {
    halted := false;
    NamesDiffer();
    var command := input[args[0]..];
    var help := Is(command, "help");
    var echo := Is(command, "echo");
    var peek := Is(command, "peek");
    if help {
      Say(console, Ascii(HELP_TEXT));
    } else if echo {
      Echo(console, input, args, count, words);
    } else if peek {
      if count < 2 {
        Say(console, Ascii("Usage: peek <hex_address>\n"));
      } else {
        halted := Peek(console, input[args[1]..], read);
      }
    } else {
      Say(console, Ascii("Command not found: "));
      console.PrintColor(command, C.DEFAULT_COLOR);
      PrintTwice(old(console.text), Ascii("Command not found: "), words[0], C.DEFAULT_COLOR);
    }
  }

  method Echo(console: C.Console, input: array<byte>, args: array<nat>, count: nat, ghost words: seq<seq<byte>>)
    requires console.Valid() && Holds(input, args, words) && count == |words| > 0
    modifies console, console.buff
    ensures console.Valid() && console.text == Print(old(console.text), Spaced(words[1..]), C.DEFAULT_COLOR)
  {
    ghost var t := console.text;
    for i := 1 to count
      invariant console.Valid() && Holds(input, args, words)
      invariant console.text == Print(t, Spaced(words[1..i]), C.DEFAULT_COLOR)
    {
      console.PrintColor(input[args[i]..], C.DEFAULT_COLOR);
      Say(console, Ascii(" "));
      assert Ascii(" ") == [SPACE];
      OneMoreWord(t, words, i);
    }
    assert words[1..count] == words[1..];
  }

  lemma SpacedMore(words: seq<seq<byte>>, w: seq<byte>)
    ensures Spaced(words + [w]) == Spaced(words) + (w + [SPACE])
  {
    assert (words + [w])[..|words|] == words;
  }

  lemma OneMoreWord(t: Text, words: seq<seq<byte>>, i: nat)
    requires 1 <= i < |words|
    ensures Print(Print(Print(t, Spaced(words[1..i]), C.DEFAULT_COLOR), words[i], C.DEFAULT_COLOR), [SPACE], C.DEFAULT_COLOR)
         == Print(t, Spaced(words[1..i + 1]), C.DEFAULT_COLOR)
  {
    var before := Spaced(words[1..i]);
    SpacedMore(words[1..i], words[i]);
    assert words[1..i + 1] == words[1..i] + [words[i]];
    PrintTwice(Print(t, before, C.DEFAULT_COLOR), words[i], [SPACE], C.DEFAULT_COLOR);
    PrintTwice(t, before, words[i] + [SPACE], C.DEFAULT_COLOR);
  }

  method Peek(console: C.Console, arg: seq<byte>, read: word -> Option<word>) returns (halted: bool)
    requires console.Valid() && 0 in arg
    modifies console, console.buff
    ensures console.Valid()
    ensures var w := read(HexMeaning(CString(arg)) % WORD_LIMIT);
      && (halted <==> w.None?)
      && console.text == if w.None? then old(console.text) else
           Print(old(console.text), Ascii("Data at ") + CString(arg) + Ascii(": ") + HexString(w.value) + Ascii("\n"), C.DEFAULT_COLOR)
  {
    var t := TextToHex(arg);
    if read(t).None? {
      return true;  // page fault
    }
    halted := false;
    var contents := read(t).value;
    Say(console, Ascii("Data at "));
    console.PrintColor(arg, C.DEFAULT_COLOR);
    PrintTwice(old(console.text), Ascii("Data at "), CString(arg), C.DEFAULT_COLOR);
    Say(console, Ascii(": "));
    PrintTwice(old(console.text), Ascii("Data at ") + CString(arg), Ascii(": "), C.DEFAULT_COLOR);
    HexPrint(console, contents);
    PrintTwice(old(console.text), Ascii("Data at ") + CString(arg) + Ascii(": "), HexString(contents), C.DEFAULT_COLOR);
    Say(console, Ascii("\n"));
    PrintTwice(old(console.text), Ascii("Data at ") + CString(arg) + Ascii(": ") + HexString(contents), Ascii("\n"), C.DEFAULT_COLOR);
  }

  /** The commands by name: the 16-argument limit, the texts and the colour written out. */
  lemma CommandPrints(t: Text, gaps: seq<seq<byte>>, words: seq<seq<byte>>, read: word -> Option<word>)
    requires |gaps| == |words| > 0
    requires forall k :: 0 <= k < |words| ==> Word(words[k]) && Blank(gaps[k]) && (k > 0 ==> gaps[k] != [])
    ensures var r, name := Executed(t, Joined(gaps, words), read), words[0];
      if name == Ascii("clear") then r == Text([], 0, t.limit)
      else if name == Ascii("help") then r == Print(t, Ascii("NG-OS v1.0\nAvailable commands:\nclear\nhelp\necho\npeek\n"), 0x0F)
      else if name == Ascii("echo") then r == Print(t, Spaced(words[1..Min(|words|, 16)]), 0x0F)
      else if name == Ascii("peek") then PeekPrints(t, words, read, r)
      else r == Print(t, Ascii("Command not found: ") + name, 0x0F)
  {
    JoinThenTokenize(gaps, words);
    var first := words[..Min(|words|, MAX_ARGS)];
    assert first[1..] == words[1..Min(|words|, MAX_ARGS)];
    assert |Ascii("clear")| == 5 && |Ascii("help")| == |Ascii("echo")| == |Ascii("peek")| == 4;
    assert Ascii("help")[0] == 104 && Ascii("echo")[0] == 101 && Ascii("peek")[0] == 112;
  }

  /** What is shown when peek ran on t: how to use it, or the word it read, unless that read faulted. */
  ghost predicate PeekPrints(t: Text, words: seq<seq<byte>>, read: word -> Option<word>, r: Text)
  {
    if |words| < 2 then r == Print(t, Ascii("Usage: peek <hex_address>\n"), 0x0F)
    else
      match read(HexMeaning(words[1]) % 0x1_0000_0000)
      case None => r == t
      case Some(w) => r == Print(t, Ascii("Data at ") + words[1] + Ascii(": ") + HexString(w) + Ascii("\n"), 0x0F)
  }

  /** A line without words does nothing, and neither does what follows the last word. */
  lemma BlankLine(t: Text, s: seq<byte>, gap: seq<byte>, read: word -> Option<word>)
    requires Blank(gap)
    ensures Executed(t, gap, read) == t
    ensures Executed(t, s + gap, read) == Executed(t, s, read)
  {
    TrailingGap([], gap);
    assert [] + gap == gap && Tokens([]) == [];
    TrailingGap(s, gap);
  }
}
