// The Internet checksum of include/dts/net/checksum.h (RFC 1071).
module Checksum {
  import opened Bytes

  const M64: int := 0x1_0000_0000_0000_0000

  // The sum of the big-endian 16-bit words of an even-length byte sequence, as a
  // mathematical integer.
  function WordSum(s: seq<byte>): nat
    requires |s| % 2 == 0
  {
    if s == [] then 0 else Br16(s, 0) + WordSum(s[2..])
  }

  // The fold loop: add the carries back until the value fits in 16 bits.
  function Fold(n: nat): u16 {
    if n < M16 then n else Fold(n % M16 + n / M16)
  }

  // The ones'-complement representative of n: 0 only for 0, otherwise 1..65535.
  function OnesComplement(n: nat): u16 {
    if n == 0 then 0 else (n - 1) % 0xFFFF + 1
  }

  // How many bytes the loop reads for a given size: an odd size reads one more.
  function Even(size: nat): nat {
    size + size % 2
  }

  // Fold computes the ones'-complement representative, hence is congruent to its
  // argument modulo 65535 and is zero only for zero.
  lemma {:induction false} FoldIsOnesComplement(n: nat)
    ensures Fold(n) == OnesComplement(n)
    ensures Fold(n) % 0xFFFF == n % 0xFFFF
    ensures Fold(n) == 0 <==> n == 0
    decreases n
  {
    if n < M16 {
    } else {
      var m := n % M16 + n / M16;
      FoldIsOnesComplement(m);
      assert n - m == 0xFFFF * (n / M16);
      ModShift(m - 1, n / M16);
      ModShift(m, n / M16);
    }
  }

  lemma ModShift(a: int, k: int)
    ensures (a + 0xFFFF * k) % 0xFFFF == a % 0xFFFF
  {
    var q, r := a / 0xFFFF, a % 0xFFFF;
    assert a + 0xFFFF * k == 0xFFFF * (q + k) + r;
  }

  lemma SmallMod(a: nat)
    requires a < 0x1_FFFE
    ensures a < 0xFFFF ==> a % 0xFFFF == a
    ensures a == 0xFFFF ==> a % 0xFFFF == 0
  {
  }

  // Summing a buffer piece by piece equals summing it flat, when the first piece is even.
  lemma {:induction false} WordSumConcat(a: seq<byte>, b: seq<byte>)
    requires |a| % 2 == 0 && |b| % 2 == 0
    ensures WordSum(a + b) == WordSum(a) + WordSum(b)
  {
    if a == [] {
      assert a + b == b;
    } else {
      WordSumConcat(a[2..], b);
      assert (a + b)[2..] == a[2..] + b;
    }
  }

  // The octets at even offsets weigh 256, those at odd offsets 1.
  function Octets(s: seq<byte>, parity: nat): nat
    requires parity < 2
  {
    if |s| <= parity then 0 else s[parity] + (if |s| < 2 then 0 else Octets(s[2..], parity))
  }

  lemma {:induction false} WordSumOctets(s: seq<byte>)
    requires |s| % 2 == 0
    ensures WordSum(s) == 0x100 * Octets(s, 0) + Octets(s, 1)
  {
    if s != [] {
      WordSumOctets(s[2..]);
    }
  }

  // Replacing the word at an even offset changes the sum by exactly the difference.
  lemma WordSumReplace(s: seq<byte>, i: nat, w: seq<byte>)
    requires |s| % 2 == 0 && i % 2 == 0 && i + 2 <= |s| && |w| == 2
    ensures |s[..i] + w + s[i + 2..]| == |s|
    ensures WordSum(s[..i] + w + s[i + 2..]) == WordSum(s) - Br16(s, i) + Br16(w, 0)
  {
    hide WordSum;
    var a, m, b := s[..i], s[i..i + 2], s[i + 2..];
    assert s == a + (m + b);
    WordSumConcat(a, m + b);
    WordSumConcat(m, b);
    WordSumConcat(a + w, b);
    WordSumConcat(a, w);
    WordSumWord(m);
    WordSumWord(w);
  }

  lemma WordSumWord(w: seq<byte>)
    requires |w| == 2
    ensures WordSum(w) == Br16(w, 0)
  {
    assert w[2..] == [];
  }

  // The sum of n bytes is small: no accumulator of the source overflows on packets.
  lemma {:induction false} WordSumBound(s: seq<byte>)
    requires |s| % 2 == 0
    ensures WordSum(s) <= |s| / 2 * 0xFFFF
  {
    if s != [] {
      WordSumBound(s[2..]);
    }
  }

  // Storing the complement of the fold in a zeroed, even-offset field makes the whole
  // buffer fold to 0xFFFF, which is a checksum of zero: with the 32-bit accumulator and with
  // the 64-bit one, for buffers of any length. The sum may wrap, but the stored complement
  // never makes it wrap again, because 2^32-1 and 2^64-1 are multiples of 65535.
  lemma StoredComplementVerifies(s: seq<byte>, i: nat, m: int)
    requires |s| % 2 == 0 && i % 2 == 0 && i + 2 <= |s| && Br16(s, i) == 0 && (m == M32 || m == M64)
    ensures var t := s[..i] + Bw16(0xFFFF - Fold(WordSum(s) % m)) + s[i + 2..];
            |t| == |s| && Fold(WordSum(t) % m) == 0xFFFF
  {
    var n := WordSum(s) % m;
    var v: u16 := 0xFFFF - Fold(n);
    WordSumReplace(s, i, Bw16(v));
    hide WordSum, Fold;
    var w := WordSum(s);
    CompletesTo(n, m);
    if m == M32 {
      ModAdd32(w, v);
      SmallMod32(n + v);
    } else {
      ModAdd64(w, v);
      SmallMod64(n + v);
    }
  }

  lemma SmallMod32(a: nat)
    requires a < M32
    ensures a % M32 == a
  {
  }

  lemma SmallMod64(a: nat)
    requires a < M64
    ensures a % M64 == a
  {
  }

  // An accumulator with its complement added.
  lemma CompletesTo(n: nat, m: int)
    requires n < m && (m == M32 || m == M64)
    ensures n + (0xFFFF - Fold(n)) < m && Fold(n + (0xFFFF - Fold(n))) == 0xFFFF
  {
    hide Fold;
    ComplementAccepted(n, 0xFFFF - Fold(n));
    if m == M32 {
      NoWrap(n, 65537);
    } else {
      NoWrap(n, 65537 * 0x1_0000_0001);
    }
  }

  lemma NoWrap(n: nat, k: nat)
    requires n <= k * 0xFFFF && k > 0
    ensures n + (0xFFFF - Fold(n)) <= k * 0xFFFF
  {
    FoldIsOnesComplement(n);
    if n > 0 {
      var q, r := (n - 1) / 0xFFFF, (n - 1) % 0xFFFF;
      assert n + (0xFFFF - Fold(n)) == (q + 1) * 0xFFFF;
    }
  }

  // checksum(), with its 32-bit accumulator.
  function Sum32(s: seq<byte>): u16
    requires |s| % 2 == 0
  {
    0xFFFF - Fold(WordSum(s) % M32)
  }

  // So a buffer with its checksum stored in it has the checksum zero.
  lemma StoredChecksumVerifies(s: seq<byte>, i: nat)
    requires |s| % 2 == 0 && i % 2 == 0 && i + 2 <= |s| && Br16(s, i) == 0
    ensures var t := s[..i] + Bw16(Sum32(s)) + s[i + 2..];
            |t| == |s| && Sum32(t) == 0
  {
    StoredComplementVerifies(s, i, M32);
  }

  // The receiver's test: clear the field, recompute, compare with the field as received.
  // It accepts exactly the fields that make the full sum fold to 0xFFFF, except that an
  // all-ones field is refused unless every other word is zero.
  lemma ComplementAccepted(r: nat, v: u16)
    ensures v == 0xFFFF - Fold(r) <==> Fold(r + v) == 0xFFFF && (v == 0xFFFF ==> r == 0)
  {
    FoldIsOnesComplement(r);
    FoldIsOnesComplement(r + v);
    if r > 0 {
      var f: int := OnesComplement(r);
      var q, d := (r - 1) / 0xFFFF, f + v - 1;
      assert r + v - 1 == d + 0xFFFF * q;
      ModShift(d, q);
      if d >= 0xFFFF {
        ModShift(d - 0xFFFF, 1);
        SmallMod(d - 0xFFFF);
      } else {
        SmallMod(d);
      }
    }
  }

  lemma WordSumNext(s: seq<byte>, i: nat)
    requires i % 2 == 0 && i + 2 <= |s|
    ensures WordSum(s[..i + 2]) == WordSum(s[..i]) + Br16(s, i)
  {
    var w := s[i..i + 2];
    assert s[..i + 2] == s[..i] + w;
    WordSumConcat(s[..i], w);
    WordSumWord(w);
  }

  lemma ModAdd32(a: nat, w: nat)
    ensures (a % M32 + w) % M32 == (a + w) % M32
  {
    var q, x := a / M32, a % M32 + w;
    var d, r := x / M32, x % M32;
    assert a + w == M32 * (q + d) + r;
  }

  lemma ModAdd64(a: nat, w: nat)
    ensures (a % M64 + w) % M64 == (a + w) % M64
  {
    var q, x := a / M64, a % M64 + w;
    var d, r := x / M64, x % M64;
    assert a + w == M64 * (q + d) + r;
  }

  // checksum(): 32-bit accumulator over the bytes, then fold and complement.
  method ComputeChecksum(data: array<byte>, at: nat, size: nat) returns (r: u16)
    requires at + Even(size) <= data.Length
    ensures r == Sum32(data[at..at + Even(size)])
  {
    ghost var s := data[at..at + Even(size)];
    var sum := 0;
    var i := 0;
    while i < size
      invariant i % 2 == 0 && i <= Even(size)
      invariant 0 <= sum && sum == WordSum(s[..i]) % M32
    {
      WordSumNext(s, i);
      ModAdd32(WordSum(s[..i]), Br16(s, i));
      sum := (sum + Br16(data[..], at + i)) % M32;
      i := i + 2;
    }
    assert s[..i] == s;
    r := FoldLoop(sum);
    r := 0xFFFF - r;
  }

  // checksum_accmulate(): add a piece to a 64-bit accumulator.
  method Accumulate(acc: nat, data: array<byte>, at: nat, size: nat) returns (r: nat)
    requires acc < M64 && at + Even(size) <= data.Length
    ensures r == (acc + WordSum(data[at..at + Even(size)])) % M64
  {
    ghost var s := data[at..at + Even(size)];
    r := acc;
    var i := 0;
    while i < size
      invariant i % 2 == 0 && i <= Even(size)
      invariant r == (acc + WordSum(s[..i])) % M64
    {
      WordSumNext(s, i);
      ModAdd64(acc + WordSum(s[..i]), Br16(s, i));
      r := (r + Br16(data[..], at + i)) % M64;
      i := i + 2;
    }
    assert s[..i] == s;
  }

  // checksum_complete()
  method Complete(acc: nat) returns (r: u16)
    ensures r == 0xFFFF - Fold(acc)
  {
    r := FoldLoop(acc);
    r := 0xFFFF - r;
  }

  method FoldLoop(n: nat) returns (r: u16)
    ensures r == Fold(n)
  {
    var acc := n;
    while acc / M16 > 0
      invariant acc >= 0 && Fold(acc) == Fold(n)
      decreases acc
    {
      acc := acc % M16 + acc / M16;
    }
    r := acc;
  }
}
