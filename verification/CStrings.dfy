/** Zero-terminated strings. */
module CStrings {
  import opened Words

  /** The characters before the first zero. */
  function CString(str: seq<byte>): (s: seq<byte>)
    requires 0 in str
    ensures 0 !in s
  {
    if str[0] == 0 then [] else [str[0]] + CString(str[1..])
  }

  lemma {:induction false} CStringLength(str: seq<byte>)
    requires 0 in str
    ensures var n := |CString(str)|; n < |str| && str[n] == 0 && CString(str) == str[..n]
    ensures forall k :: 0 <= k < |CString(str)| ==> str[k] != 0
    decreases |str|
  {
    if str[0] != 0 {
      CStringLength(str[1..]);
    }
  }

  /** A string ends at its first zero, wherever that is found. */
  lemma CStringIs(str: seq<byte>, n: nat)
    requires n < |str| && str[n] == 0 && forall k :: 0 <= k < n ==> str[k] != 0
    ensures 0 in str && CString(str) == str[..n]
  {
    assert str[n] in str;
    CStringLength(str);
  }

  lemma {:induction false} CStringOf(s: seq<byte>)
    requires 0 !in s
    ensures 0 in s + [0] && CString(s + [0]) == s
    decreases |s|
  {
    assert (s + [0])[|s|] == 0;
    if s != [] {
      assert (s + [0])[1..] == s[1..] + [0];
      CStringOf(s[1..]);
    }
  }
}
