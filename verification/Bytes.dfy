// Bytes, fixed-width words and the big-endian accessors of include/dts/net/endian.h.
module Bytes {
  type u4 = x: int | 0 <= x < 0x10
  type byte = x: int | 0 <= x < 0x100
  type u16 = x: int | 0 <= x < 0x1_0000
  type u32 = x: int | 0 <= x < 0x1_0000_0000

  const M16: int := 0x1_0000
  const M32: int := 0x1_0000_0000

  datatype Option<+T> = None | Some(value: T)

  function Min(a: int, b: int): int {
    if a < b then a else b
  }

  // br16 / bw16
  function Br16(s: seq<byte>, i: nat): u16
    requires i + 2 <= |s|
  {
    s[i] as int * 0x100 + s[i + 1]
  }

  function Bw16(x: u16): (s: seq<byte>)
    ensures |s| == 2
  {
    [x / 0x100, x % 0x100]
  }

  // br32 / bw32
  function Br32(s: seq<byte>, i: nat): u32
    requires i + 4 <= |s|
  {
    s[i] as int * 0x100_0000 + s[i + 1] as int * 0x1_0000 + s[i + 2] as int * 0x100 + s[i + 3]
  }

  function Bw32(x: u32): (s: seq<byte>)
    ensures |s| == 4
  {
    [x / 0x100 / 0x100 / 0x100, x / 0x100 / 0x100 % 0x100, x / 0x100 % 0x100, x % 0x100]
  }

  // Reading back what was written.
  lemma Read16(s: seq<byte>, i: nat, x: u16)
    requires i + 2 <= |s| && s[i] == Bw16(x)[0] && s[i + 1] == Bw16(x)[1]
    ensures Br16(s, i) == x
  {
  }

  lemma Read32(s: seq<byte>, i: nat, x: u32)
    requires i + 4 <= |s| && var w := Bw32(x); s[i] == w[0] && s[i + 1] == w[1] && s[i + 2] == w[2] && s[i + 3] == w[3]
    ensures Br32(s, i) == x
  {
    var y := x / 0x100;
    var z := y / 0x100;
    assert x == y * 0x100 + s[i + 3] && y == z * 0x100 + s[i + 2] && z == s[i] as int * 0x100 + s[i + 1];
  }

  // The octets of s from i on spell the number x, most significant first.
  predicate Spells16(s: seq<byte>, i: nat, x: int) {
    i + 2 <= |s| && x == s[i] as int * 0x100 + s[i + 1]
  }

  predicate Spells32(s: seq<byte>, i: nat, x: int) {
    i + 4 <= |s| && x == s[i] as int * 0x100_0000 + s[i + 1] as int * 0x1_0000 + s[i + 2] as int * 0x100 + s[i + 3]
  }

  lemma Written16(s: seq<byte>, i: nat, x: u16)
    requires i + 2 <= |s| && s[i..i + 2] == Bw16(x)
    ensures Spells16(s, i, x)
  {
    var w := s[i..i + 2];
    assert s[i] == w[0] && s[i + 1] == w[1];
  }

  lemma Written32(s: seq<byte>, i: nat, x: u32)
    requires i + 4 <= |s| && s[i..i + 4] == Bw32(x)
    ensures Spells32(s, i, x)
  {
    var w := s[i..i + 4];
    assert s[i] == w[0] && s[i + 1] == w[1] && s[i + 2] == w[2] && s[i + 3] == w[3];
    Read32(s, i, x);
  }

  // Concatenation of a list of chunks.
  function Flatten<T>(chunks: seq<seq<T>>): seq<T> {
    if chunks == [] then [] else chunks[0] + Flatten(chunks[1..])
  }

  lemma {:induction false} FlattenAppend<T>(a: seq<seq<T>>, b: seq<seq<T>>)
    ensures Flatten(a + b) == Flatten(a) + Flatten(b)
  {
    if a == [] {
      assert a + b == b;
    } else {
      FlattenAppend(a[1..], b);
      assert (a + b)[1..] == a[1..] + b && (a + b)[0] == a[0];
      assert a[0] + (Flatten(a[1..]) + Flatten(b)) == (a[0] + Flatten(a[1..])) + Flatten(b);
    }
  }

  lemma FlattenSingle<T>(x: seq<T>)
    ensures Flatten([x]) == x
  {
    assert Flatten<T>([]) == [];
  }

  lemma SliceTake<T>(s: seq<T>, i: nat, n: nat, k: nat)
    requires k <= n && i + n <= |s|
    ensures s[i..i + n][..k] == s[i..i + k]
    ensures s[i..][..k] == s[i..i + k]
  {
  }

  lemma DropAppend<T>(s: seq<T>, t: seq<T>, i: nat)
    requires i <= |s|
    ensures (s + t)[i..] == s[i..] + t
  {
  }

  lemma DropPast<T>(s: seq<T>, t: seq<T>, k: nat)
    requires k <= |t|
    ensures (s + t)[|s| + k..] == t[k..]
  {
  }

  lemma TakeWithin<T>(s: seq<T>, t: seq<T>, k: nat)
    requires k <= |s|
    ensures (s + t)[..k] == s[..k]
  {
  }

  // s with w written at position p.
  function Overwrite(s: seq<byte>, p: nat, w: seq<byte>): (r: seq<byte>)
    requires p + |w| <= |s|
    ensures |r| == |s|
  {
    s[..p] + w + s[p + |w|..]
  }

  lemma OverwriteTwice(s: seq<byte>, p: nat, v: seq<byte>, w: seq<byte>)
    requires p + |v| + |w| <= |s|
    ensures Overwrite(Overwrite(s, p, v), p + |v|, w) == Overwrite(s, p, v + w)
  {
  }

  // Writing inside a window writes the window.
  lemma OverwriteInside(s: seq<byte>, at: nat, n: nat, p: nat, w: seq<byte>)
    requires at + n <= |s| && p + |w| <= n
    ensures Overwrite(s, at + p, w)[at..at + n] == Overwrite(s[at..at + n], p, w)
  {
  }
}
