/** Machine bytes and 32-bit words, and little-endian access to unaligned byte memory. */
module Words {

  type byte = x: int | 0 <= x < 0x100
  type word = x: int | 0 <= x < 0x1_0000_0000

  datatype Option<T> = None | Some(value: T)

  const NULL: word := 0
  const WORD_LIMIT := 0x1_0000_0000

  /** The number whose digits in base 256 are the bytes from a up to end, lowest first. */
  function LoadFrom(m: seq<byte>, a: nat, end: nat): (r: nat)
    requires a <= end <= |m| && end <= a + 4
    ensures r < Power256(end - a)
    decreases end - a
  {
    if a == end then 0 else (m[a] as int) + 0x100 * LoadFrom(m, a + 1, end)
  }

  function Power256(k: nat): nat
    requires k <= 4
  {
    if k == 0 then 1 else if k == 1 then 0x100 else if k == 2 then 0x1_0000 else if k == 3 then 0x100_0000 else WORD_LIMIT
  }

  /** The 32-bit word stored at offset a, lowest byte first. */
  function Load(m: seq<byte>, a: nat): word
    requires a + 4 <= |m|
  {
    LoadFrom(m, a, a + 4)
  }

  lemma LoadBytes(m: seq<byte>, a: nat)
    requires a + 4 <= |m|
    ensures Load(m, a) == (m[a] as int) + 0x100 * (m[a + 1] as int) + 0x1_0000 * (m[a + 2] as int) + 0x100_0000 * (m[a + 3] as int)
  {
    assert LoadFrom(m, a + 4, a + 4) == 0;
    assert LoadFrom(m, a + 3, a + 4) == m[a + 3];
    assert LoadFrom(m, a + 2, a + 4) == (m[a + 2] as int) + 0x100 * (m[a + 3] as int);
    assert LoadFrom(m, a + 1, a + 4) == (m[a + 1] as int) + 0x100 * LoadFrom(m, a + 2, a + 4);
  }

  /** A load depends on its four bytes only. */
  lemma LoadSame(m: seq<byte>, m': seq<byte>, a: nat)
    requires a + 4 <= |m| && a + 4 <= |m'|
    requires forall k :: a <= k < a + 4 ==> m'[k] == m[k]
    ensures Load(m', a) == Load(m, a)
  {
    LoadBytes(m, a);
    LoadBytes(m', a);
  }

  /** The memory after the digits of w in base 256, lowest first, are written from a up to end. */
  function StoredFrom(m: seq<byte>, a: nat, end: nat, w: nat): (r: seq<byte>)
    requires a <= end <= |m| && end <= a + 4 && w < Power256(end - a)
    ensures |r| == |m|
    ensures forall i :: 0 <= i < |m| && !(a <= i < end) ==> r[i] == m[i]
    ensures LoadFrom(r, a, end) == w
    decreases end - a
  {
    if a == end then m else StoredFrom(m[a := w % 0x100], a + 1, end, w / 0x100)
  }

  /** The memory after storing w at offset a. */
  function Stored(m: seq<byte>, a: nat, w: word): (r: seq<byte>)
    requires a + 4 <= |m|
    ensures |r| == |m|
    ensures forall i :: 0 <= i < |m| && !(a <= i < a + 4) ==> r[i] == m[i]
    ensures Load(r, a) == w
  {
    StoredFrom(m, a, a + 4, w)
  }

  /** A store does not disturb a load of bytes it does not touch. */
  lemma LoadElsewhere(m: seq<byte>, a: nat, w: word, b: nat)
    requires a + 4 <= |m| && b + 4 <= |m|
    requires a + 4 <= b || b + 4 <= a
    ensures Load(Stored(m, a, w), b) == Load(m, b)
  {
    LoadSame(m, Stored(m, a, w), b);
  }

  method Store(mem: array<byte>, a: nat, w: word)
    requires a + 4 <= mem.Length
    modifies mem
    ensures mem[..] == Stored(old(mem[..]), a, w)
  {
    ghost var m := mem[..];
    var rest: nat := w;
    for i := a to a + 4
      invariant rest < Power256(a + 4 - i)
      invariant StoredFrom(mem[..], i, a + 4, rest) == Stored(m, a, w)
    {
      mem[i] := rest % 0x100;
      rest := rest / 0x100;
    }
  }

  /** Consecutive words ws stored from offset a upwards. */
  function StoredAll(m: seq<byte>, a: nat, ws: seq<word>): (r: seq<byte>)
    requires a + 4 * |ws| <= |m|
    ensures |r| == |m|
    ensures forall i :: 0 <= i < |m| && !(a <= i < a + 4 * |ws|) ==> r[i] == m[i]
    decreases |ws|
  {
    if ws == [] then m
    else
      var n := |ws| - 1;
      Stored(StoredAll(m, a, ws[..n]), a + 4 * n, ws[n])
  }

  lemma {:induction false} LoadStoredAll(m: seq<byte>, a: nat, ws: seq<word>, k: nat)
    requires a + 4 * |ws| <= |m| && k < |ws|
    ensures Load(StoredAll(m, a, ws), a + 4 * k) == ws[k]
    decreases |ws|
  {
    var n := |ws| - 1;
    if k < n {
      LoadStoredAll(m, a, ws[..n], k);
      LoadElsewhere(StoredAll(m, a, ws[..n]), a + 4 * n, ws[n], a + 4 * k);
    }
  }
}
