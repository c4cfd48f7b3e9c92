/** Bytes, byte strings and little-endian integers, shared by the wire modules. */
module Bytes {

  type byte = b: int | 0 <= b < 256

  type Bytes = seq<byte>

  // The bytes of a text of ASCII characters.
  function Ascii(s: string): (r: Bytes)
    requires forall k :: 0 <= k < |s| ==> s[k] < 128 as char
    ensures |r| == |s| && forall k :: 0 <= k < |s| ==> r[k] == s[k] as int
  {
    seq(|s|, k requires 0 <= k < |s| => s[k] as int)
  }

  datatype Option<+T> = None | Some(value: T)

  // b ^ 0x40
  function Xor40(b: byte): (r: byte)
    ensures r != b
  {
    if (b / 64) % 2 == 0 then b + 64 else b - 64
  }

  lemma {:induction false} Associate<T>(a: seq<T>, b: seq<T>, c: seq<T>)
    ensures a + b + c == a + (b + c)
  {
  }

  // The position of the first b in s at or after position from, or -1.
  function IndexFrom(s: Bytes, b: byte, from: nat): (i: int)
    requires from <= |s|
    ensures i == -1 || from <= i < |s|
    ensures i >= 0 ==> s[i] == b && b !in s[from..i]
    ensures i < 0 ==> b !in s[from..]
    decreases |s| - from
  {
    if from == |s| then -1
    else if s[from] == b then from
    else
      assert s[from..] == [s[from]] + s[from + 1..];
      var i := IndexFrom(s, b, from + 1);
      assert i >= 0 ==> s[from..i] == [s[from]] + s[from + 1..i];
      i
  }

  lemma {:induction false} IndexFromIs(s: Bytes, b: byte, from: nat, e: nat)
    requires from <= e < |s| && s[e] == b
    requires forall k :: from <= k < e ==> s[k] != b
    ensures IndexFrom(s, b, from) == e
    decreases e - from
  {
    if from < e { IndexFromIs(s, b, from + 1, e); }
  }

  function IndexOf(s: Bytes, b: byte): (i: int)
    ensures i == -1 || 0 <= i < |s|
    ensures i >= 0 ==> s[i] == b && b !in s[..i]
    ensures i < 0 <==> b !in s
  {
    assert s[0..] == s;
    var i := IndexFrom(s, b, 0);
    assert i >= 0 ==> s[0..i] == s[..i];
    i
  }

  lemma {:induction false} IndexOfAppend(a: Bytes, b: byte, rest: Bytes)
    requires b !in a
    ensures IndexOf(a + [b] + rest, b) == |a|
  {
    var s := a + [b] + rest;
    var i := IndexOf(s, b);
    forall k | 0 <= k < |a|
      ensures s[k] != b
    {
      assert s[k] == a[k];
    }
    forall n | |a| < n <= |s|
      ensures b in s[..n]
    {
      assert s[..n][|a|] == b;
    }
  }

  // ---------------------------------------------------------------------------------------------
  // Little-endian integers
  // ---------------------------------------------------------------------------------------------

  function Pow256(n: nat): (p: nat)
    ensures p >= 1
  {
    if n == 0 then 1 else 256 * Pow256(n - 1)
  }

  function LittleEndian(v: nat, n: nat): (s: Bytes)
    ensures |s| == n
  {
    if n == 0 then [] else [v % 256] + LittleEndian(v / 256, n - 1)
  }

  function FromLittleEndian(s: Bytes): nat {
    if s == [] then 0 else s[0] + 256 * FromLittleEndian(s[1..])
  }

  lemma {:induction false} LittleEndianRoundTrip(v: nat, n: nat)
    requires v < Pow256(n)
    ensures FromLittleEndian(LittleEndian(v, n)) == v
  {
    if n > 0 {
      LittleEndianRoundTrip(v / 256, n - 1);
      assert LittleEndian(v, n)[1..] == LittleEndian(v / 256, n - 1);
    }
  }

  lemma {:induction false} Pow256Values()
    ensures Pow256(1) == 0x100 && Pow256(2) == 0x1_0000 && Pow256(4) == 0x1_0000_0000
    ensures Pow256(8) == 0x1_0000_0000_0000_0000
  {
    assert Pow256(3) == 256 * Pow256(2);
    assert Pow256(5) == 256 * Pow256(4);
    assert Pow256(7) == 256 * Pow256(6) == 256 * 256 * Pow256(5);
  }
}
