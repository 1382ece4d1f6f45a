// Writing packets: the bw16 and bw32 of include/dts/net/endian.h on a buffer, one field
// after the other.
module Writer {
  import opened Bytes

  // The bytes w have been written at base; what else was in the buffer is as in s0.
  ghost predicate Wrote(data: array<byte>, s0: seq<byte>, base: nat, w: seq<byte>)
    reads data
  {
    base + |w| <= data.Length == |s0| && data[..] == Overwrite(s0, base, w)
  }

  lemma WroteMore(s0: seq<byte>, base: nat, w: seq<byte>, x: seq<byte>)
    requires base + |w| + |x| <= |s0|
    ensures Overwrite(Overwrite(s0, base, w), base + |w|, x) == Overwrite(s0, base, w + x)
  {
    OverwriteTwice(s0, base, w, x);
  }

  lemma Nothing(data: array<byte>, base: nat)
    requires base <= data.Length
    ensures Wrote(data, data[..], base, [])
  {
  }

  method Put8(data: array<byte>, p: nat, x: byte, ghost s0: seq<byte>, ghost base: nat, ghost w: seq<byte>)
    requires Wrote(data, s0, base, w) && p == base + |w| && p + 1 <= data.Length
    modifies data
    ensures Wrote(data, s0, base, w + [x])
  {
    WroteMore(s0, base, w, [x]);
    Set8(data, p, x);
  }

  // A pointer into a buffer.
  datatype Ptr = Ptr(buf: array<byte>, at: nat)

  // The bytes v are where p points.
  ghost predicate Finds(p: Ptr, v: seq<byte>)
    reads p.buf
  {
    p.at + |v| <= p.buf.Length && p.buf[p.at..p.at + |v|] == v
  }

  ghost predicate InSeq(s: seq<byte>, at: nat, v: seq<byte>) {
    at + |v| <= |s| && s[at..at + |v|] == v
  }

  // s is the start of the buffer p points into.
  lemma Found(p: Ptr, s: seq<byte>, v: seq<byte>)
    requires |s| <= p.buf.Length && s == p.buf[..|s|] && InSeq(s, p.at, v)
    ensures Finds(p, v)
  {
  }

  // memcpy of n bytes from where src points
  method PutFrom(data: array<byte>, p: nat, src: Ptr, n: nat, ghost v: seq<byte>, ghost s0: seq<byte>, ghost base: nat,
                 ghost w: seq<byte>)
    requires Wrote(data, s0, base, w) && p == base + |w| && p + n <= data.Length
    requires data != src.buf && Finds(src, v) && |v| == n
    modifies data
    ensures Wrote(data, s0, base, w + v)
  {
    PutBytes(data, p, src.buf[src.at..src.at + n], s0, base, w);
  }

  method Set8(data: array<byte>, p: nat, x: byte)
    requires p + 1 <= data.Length
    modifies data
    ensures data[..] == Overwrite(old(data[..]), p, [x])
  {
    data[p] := x;
  }

  // bw16
  method Set16(data: array<byte>, p: nat, x: u16)
    requires p + 2 <= data.Length
    modifies data
    ensures data[..] == Overwrite(old(data[..]), p, Bw16(x))
  {
    data[p + 1] := x % 0x100;
    data[p] := x / 0x100;
  }

  // bw32
  method Set32(data: array<byte>, p: nat, x: u32)
    requires p + 4 <= data.Length
    modifies data
    ensures data[..] == Overwrite(old(data[..]), p, Bw32(x))
  {
    data[p + 3] := x % 0x100;
    data[p + 2] := x / 0x100 % 0x100;
    data[p + 1] := x / 0x100 / 0x100 % 0x100;
    data[p] := x / 0x100 / 0x100 / 0x100;
  }

  method Put16(data: array<byte>, p: nat, x: u16, ghost s0: seq<byte>, ghost base: nat, ghost w: seq<byte>)
    requires Wrote(data, s0, base, w) && p == base + |w| && p + 2 <= data.Length
    modifies data
    ensures Wrote(data, s0, base, w + Bw16(x))
  {
    WroteMore(s0, base, w, Bw16(x));
    Set16(data, p, x);
  }

  method Put32(data: array<byte>, p: nat, x: u32, ghost s0: seq<byte>, ghost base: nat, ghost w: seq<byte>)
    requires Wrote(data, s0, base, w) && p == base + |w| && p + 4 <= data.Length
    modifies data
    ensures Wrote(data, s0, base, w + Bw32(x))
  {
    WroteMore(s0, base, w, Bw32(x));
    Set32(data, p, x);
  }

  // memcpy of a field kept as bytes
  method PutBytes(data: array<byte>, p: nat, x: seq<byte>, ghost s0: seq<byte>, ghost base: nat, ghost w: seq<byte>)
    requires Wrote(data, s0, base, w) && p == base + |w| && p + |x| <= data.Length
    modifies data
    ensures Wrote(data, s0, base, w + x)
  {
    WroteMore(s0, base, w, x);
    SetBytes(data, p, x);
  }

  method SetBytes(data: array<byte>, p: nat, x: seq<byte>)
    requires p + |x| <= data.Length
    modifies data
    ensures data[..] == Overwrite(old(data[..]), p, x)
  {
    forall i | 0 <= i < |x| {
      data[p + i] := x[i];
    }
  }
}
