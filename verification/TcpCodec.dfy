// tcp_pack and tcp_unpack: the segment on the wire, with the checksum over a pseudo header.
module TcpCodec {
  import opened Bytes
  import opened Checksum
  import opened Dblk
  import opened DblkOps
  import opened FragmentSpec
  import opened Writer

  type u12 = x: int | 0 <= x < 0x1000

  // The fields of the fixed part; data_offset counts 32-bit words.
  datatype Header = Header(srcPort: u16, destPort: u16, sn: u32, ackNo: u32, dataOffset: u4, flags: u12,
                           win: u16, urgentPtr: u16)

  // The 20 bytes of the fixed part.
  function Packed(h: Header, sum: u16): (s: seq<byte>)
    ensures |s| == 20
  {
    Bw16(h.srcPort) + Bw16(h.destPort) + Bw32(h.sn) + Bw32(h.ackNo) + Bw16(h.dataOffset as int * 0x1000 + h.flags)
    + Bw16(h.win) + Bw16(sum) + Bw16(h.urgentPtr)
  }

  // What tcp_unpack reads.
  function Parsed(s: seq<byte>): Header
    requires |s| >= 20
  {
    Header(Br16(s, 0), Br16(s, 2), Br32(s, 4), Br32(s, 8), Br16(s, 12) / 0x1000, Br16(s, 12) % 0x1000,
           Br16(s, 14), Br16(s, 18))
  }

  // pseudo_header_pack
  function Pseudo(src: seq<byte>, dest: seq<byte>, protocol: byte, length: u16): (s: seq<byte>)
    requires |src| == |dest| == 4
    ensures |s| == 12
  {
    src + dest + [0, protocol] + Bw16(length)
  }

  // s with its checksum field cleared.
  function Cleared(s: seq<byte>): (r: seq<byte>)
    requires |s| >= 20
    ensures |r| == |s|
  {
    Overwrite(s, 16, [0, 0])
  }

  // The checksum of a segment whose field is cleared, over the pseudo header ps.
  function SegmentSum(ps: seq<byte>, s: seq<byte>): u16
    requires |ps| % 2 == 0 && |s| % 2 == 0
  {
    0xFFFF - Fold(WordSum(ps) + WordSum(s))
  }

  // Unpacking what was packed gives every field back, and the checksum field.
  lemma ParsedPacked(h: Header, sum: u16, rest: seq<byte>)
    ensures var s := Packed(h, sum) + rest; Parsed(s) == h && Br16(s, 16) == sum && s[20..] == rest
  {
    var s := Packed(h, sum) + rest;
    Read16(s, 0, h.srcPort);
    Read16(s, 2, h.destPort);
    Read32(s, 4, h.sn);
    Read32(s, 8, h.ackNo);
    Read16(s, 12, h.dataOffset as int * 0x1000 + h.flags);
    Read16(s, 14, h.win);
    Read16(s, 16, sum);
    Read16(s, 18, h.urgentPtr);
  }

  lemma ClearedPacked(h: Header, sum: u16, rest: seq<byte>)
    ensures Cleared(Packed(h, sum) + rest) == Packed(h, 0) + rest
  {
    assert Bw16(0) == [0, 0];
  }

  // The segment that is sent: header with its checksum, then the payload.
  function Wire(h: Header, ps: seq<byte>, payload: seq<byte>): (s: seq<byte>)
    requires |ps| % 2 == 0 && |payload| % 2 == 0
    ensures |s| == 20 + |payload|
  {
    Packed(h, SegmentSum(ps, Packed(h, 0) + payload)) + payload
  }

  // ----- the layout, octet by octet (RFC 793, section 3.1) -----

  // s starts with the fixed part of the header h, its checksum apart.
  ghost predicate HeaderOctets(s: seq<byte>, h: Header) {
    && |s| >= 20
    && Spells16(s, 0, h.srcPort) && Spells16(s, 2, h.destPort) && Spells32(s, 4, h.sn) && Spells32(s, 8, h.ackNo)
    && s[12] / 0x10 == h.dataOffset && s[12] as int % 0x10 * 0x100 + s[13] == h.flags
    && Spells16(s, 14, h.win) && Spells16(s, 18, h.urgentPtr)
  }

  // Source, destination, zero, protocol, length.
  ghost predicate PseudoOctets(s: seq<byte>, src: seq<byte>, dest: seq<byte>, protocol: byte, length: u16) {
    |s| == 12 && s[0..4] == src && s[4..8] == dest && s[8] == 0 && s[9] == protocol && Spells16(s, 10, length)
  }

  lemma WireOctets(h: Header, ps: seq<byte>, payload: seq<byte>)
    requires |ps| % 2 == 0 && |payload| % 2 == 0
    ensures var s := Wire(h, ps, payload); HeaderOctets(s, h) && s[20..] == payload
  {
    hide SegmentSum;
    PackedOctets(h, SegmentSum(ps, Packed(h, 0) + payload), payload);
  }

  lemma PackedOctets(h: Header, sum: u16, rest: seq<byte>)
    ensures var s := Packed(h, sum) + rest; HeaderOctets(s, h) && Spells16(s, 16, sum) && s[20..] == rest
  {
    var s := Packed(h, sum) + rest;
    var bits := h.dataOffset as int * 0x1000 + h.flags;
    assert s[0..2] == Bw16(h.srcPort) && s[2..4] == Bw16(h.destPort) && s[4..8] == Bw32(h.sn) && s[8..12] == Bw32(h.ackNo);
    assert s[12..14] == Bw16(bits) && s[14..16] == Bw16(h.win) && s[16..18] == Bw16(sum) && s[18..20] == Bw16(h.urgentPtr);
    hide Packed;
    Written16(s, 0, h.srcPort);
    Written16(s, 2, h.destPort);
    Written32(s, 4, h.sn);
    Written32(s, 8, h.ackNo);
    Written16(s, 12, bits);
    Written16(s, 14, h.win);
    Written16(s, 16, sum);
    Written16(s, 18, h.urgentPtr);
    Nibble(s[12], s[13], h.dataOffset, h.flags);
  }

  lemma Nibble(a: byte, b: byte, high: u4, low: u12)
    requires a as int * 0x100 + b == high as int * 0x1000 + low
    ensures a / 0x10 == high && a as int % 0x10 * 0x100 + b == low
  {
  }

  // And what is read are the numbers the octets spell.
  lemma ParsedOctets(s: seq<byte>)
    requires |s| >= 20
    ensures HeaderOctets(s, Parsed(s))
  {
    Nibble(s[12], s[13], Br16(s, 12) / 0x1000, Br16(s, 12) % 0x1000);
  }

  lemma PseudoIs(src: seq<byte>, dest: seq<byte>, protocol: byte, length: u16)
    requires |src| == |dest| == 4
    ensures PseudoOctets(Pseudo(src, dest, protocol, length), src, dest, protocol, length)
  {
    var s := Pseudo(src, dest, protocol, length);
    assert s[10..12] == Bw16(length);
    Written16(s, 10, length);
  }

  // ----- the checksum test -----

  // A field v is accepted beside words that sum to n.
  predicate Accepts(n: nat, v: u16) {
    v == 0xFFFF - Fold(n)
  }

  // n folds to all ones.
  predicate AllOnes(n: nat) {
    Fold(n) == 0xFFFF
  }

  // The answer of tcp_unpack's test.
  predicate Verifies(ps: seq<byte>, s: seq<byte>)
    requires |ps| % 2 == 0 && |s| % 2 == 0 && |s| >= 20
  {
    Accepts(WordSum(ps) + WordSum(Cleared(s)), Br16(s, 16))
  }

  // Main result: a packed segment verifies and unpacks to its header and payload.
  lemma WireRoundTrip(h: Header, ps: seq<byte>, payload: seq<byte>)
    requires |ps| % 2 == 0 && |payload| % 2 == 0
    ensures var s := Wire(h, ps, payload); Verifies(ps, s) && Parsed(s) == h && s[20..] == payload
  {
    var sum := SegmentSum(ps, Packed(h, 0) + payload);
    ParsedPacked(h, sum, payload);
    ClearedPacked(h, sum, payload);
  }

  // For any segment, also one damaged on the way, the test accepts exactly when pseudo
  // header and segment together fold to 0xFFFF; a field of 0xFFFF only over all zeroes.
  lemma VerifiesIff(ps: seq<byte>, s: seq<byte>)
    requires |ps| % 2 == 0 && |s| % 2 == 0 && |s| >= 20
    ensures Verifies(ps, s) <==>
            AllOnes(WordSum(ps) + WordSum(s))
            && (Br16(s, 16) == 0xFFFF ==> WordSum(ps) + WordSum(Cleared(s)) == 0)
  {
    hide Overwrite, WordSum, Fold;
    ClearedSum(s);
    AcceptedSum(WordSum(ps) + WordSum(Cleared(s)), WordSum(ps) + WordSum(s), Br16(s, 16));
  }

  lemma AcceptedSum(n: nat, full: nat, v: u16)
    requires full == n + v
    ensures Accepts(n, v) <==> AllOnes(full) && (v == 0xFFFF ==> n == 0)
  {
    ComplementAccepted(n, v);
  }

  lemma ClearedSum(s: seq<byte>)
    requires |s| % 2 == 0 && |s| >= 20
    ensures WordSum(s) == WordSum(Cleared(s)) + Br16(s, 16)
  {
    hide WordSum;
    var z: seq<byte> := [0, 0];
    WordSumReplace(s, 16, z);
    assert Cleared(s) == s[..16] + z + s[16 + 2..];
    assert Br16(z, 0) == 0;
  }

  // ----- the packers -----

  method PackHeader(h: Header, data: array<byte>, at: nat)
    requires at + 20 <= data.Length
    modifies data
    ensures data[..] == Overwrite(old(data[..]), at, Packed(h, 0))
  {
    ghost var s0 := data[..];
    Nothing(data, at);
    Put16(data, at, h.srcPort, s0, at, []);
    ghost var w := [] + Bw16(h.srcPort);
    Put16(data, at + 2, h.destPort, s0, at, w);
    w := w + Bw16(h.destPort);
    Put32(data, at + 4, h.sn, s0, at, w);
    w := w + Bw32(h.sn);
    Put32(data, at + 8, h.ackNo, s0, at, w);
    w := w + Bw32(h.ackNo);
    PackHeaderTail(h, data, at, s0, w);
  }

  method PackHeaderTail(h: Header, data: array<byte>, at: nat, ghost s0: seq<byte>, ghost w0: seq<byte>)
    requires at + 20 <= data.Length && |w0| == 12 && Wrote(data, s0, at, w0)
    requires w0 == [] + Bw16(h.srcPort) + Bw16(h.destPort) + Bw32(h.sn) + Bw32(h.ackNo)
    modifies data
    ensures Wrote(data, s0, at, Packed(h, 0))
  {
    var bits := h.dataOffset as int * 0x1000 + h.flags;
    Put16(data, at + 12, bits, s0, at, w0);
    ghost var w := w0 + Bw16(bits);
    Put16(data, at + 14, h.win, s0, at, w);
    w := w + Bw16(h.win);
    Put16(data, at + 16, 0, s0, at, w);
    w := w + Bw16(0);
    Put16(data, at + 18, h.urgentPtr, s0, at, w);
    w := w + Bw16(h.urgentPtr);
    assert w == Packed(h, 0);
  }

  lemma OverwriteAll(s: seq<byte>, w: seq<byte>)
    requires |w| == |s|
    ensures Overwrite(s, 0, w) == w
  {
  }

  // pseudo_header_pack; every caller gives it twelve bytes.
  method PackPseudo(data: array<byte>, src: seq<byte>, dest: seq<byte>, protocol: byte, length: u16)
    requires data.Length == 12 && |src| == |dest| == 4
    modifies data
    ensures data[..] == Pseudo(src, dest, protocol, length)
  {
    ghost var s0 := data[..];
    Nothing(data, 0);
    PutBytes(data, 0, src, s0, 0, []);
    ghost var w := [] + src;
    assert w == src;
    PutBytes(data, 4, dest, s0, 0, w);
    w := w + dest;
    PutBytes(data, 8, [0, protocol], s0, 0, w);
    w := w + [0, protocol];
    Put16(data, 10, length, s0, 0, w);
    OverwriteAll(s0, w + Bw16(length));
  }

  // A node with chunk c, if there is one; otherwise c is empty.
  ghost predicate MaybeHolds(n: Node?, c: seq<byte>)
    reads n, if n == null then {} else {n.data}
  {
    if n == null then c == [] else InBounds(n) && BytesOf(n) == c && n.vsize == 0 && !n.more
  }

  // The block made of the header and the payload, if there is one.
  ghost function Chain(raw: Node, payload: Node?): seq<Node> {
    if payload == null then [raw] else [raw, payload]
  }

  ghost function Chunks(wire: seq<byte>, payload: Node?): seq<seq<byte>>
    requires |wire| >= 20
  {
    if payload == null then [wire] else [wire[..20], wire[20..]]
  }

  lemma ChunksFlat(wire: seq<byte>, payload: Node?)
    requires |wire| >= 20
    ensures Flatten(Chunks(wire, payload)) == wire
  {
    FlattenSingle(wire);
    FlattenSingle(wire[20..]);
    assert [wire[..20], wire[20..]][1..] == [wire[20..]];
  }

  // One piece added to the 64-bit sum, which does not wrap.
  method AddPiece(acc: nat, data: array<byte>, at: nat, size: u16, ghost c: seq<byte>) returns (r: nat)
    requires acc <= 2 * M32 && at + size <= data.Length && data[at..at + size] == c && |c| % 2 == 0
    ensures r == acc + WordSum(c) && r <= acc + M32
  {
    WordSumBound(c);
    r := Accumulate(acc, data, at, size);
  }

  // The pieces are summed one after the other.
  method SumPieces(psd: array<byte>, raw: Node, payload: Node?, ghost hs: seq<byte>, ghost c: seq<byte>) returns (r: u16)
    requires psd.Length == 12 && InBounds(raw) && BytesOf(raw) == hs && |hs| == 20
    requires MaybeHolds(payload, c) && |c| % 2 == 0
    ensures r == SegmentSum(psd[..], hs + c)
  {
    hide WordSum, Fold;
    assert psd[0..12] == psd[..];
    WordSumConcat(hs, c);
    var sum := AddPiece(0, psd, 0, psd.Length, psd[..]);
    sum := AddPiece(sum, raw.data, raw.at, raw.size, hs);
    if payload != null {
      sum := AddPiece(sum, payload.data, payload.at, payload.size, c);
    } else {
      assert WordSum([]) == 0 by { WordSumBound([]); }
    }
    r := Complete(sum);
  }

  // t is s but for n bytes from at on.
  ghost predicate Beside(s: seq<byte>, t: seq<byte>, at: nat, n: nat) {
    at + n <= |s| == |t| && t[..at] == s[..at] && t[at + n..] == s[at + n..]
  }

  lemma TwiceBeside(s: seq<byte>, at: nat, w: seq<byte>, k: nat, x: seq<byte>)
    requires at + |w| <= |s| && k + |x| <= |w|
    ensures Beside(s, Overwrite(Overwrite(s, at, w), at + k, x), at, |w|)
  {
  }

  // tcp_pack, for a segment without options.
  method Pack(h: Header, raw: Node, payload: Node?, psd: array<byte>, src: seq<byte>, dest: seq<byte>, protocol: byte,
              ghost c: seq<byte>)
    returns (ok: bool)
    requires InBounds(raw) && raw.vsize == 0 && !raw.more && MaybeHolds(payload, c) && |c| % 2 == 0
    requires raw != payload && psd.Length == 12 && |src| == |dest| == 4
    requires raw.data != psd && (payload != null ==> payload.data != raw.data && payload.data != psd)
    modifies raw`size, raw`next, raw`more, raw.data, JustThat(payload)`next, psd
    ensures ok == (old(raw.size) > 20)
    ensures !ok ==> unchanged(raw, old(raw.data), psd) && (payload != null ==> unchanged(payload))
    ensures ok ==> psd[..] == Pseudo(src, dest, protocol, (20 + |c|) % M16)
    ensures ok ==> PseudoOctets(psd[..], src, dest, protocol, (20 + |c|) % M16) && HeaderOctets(Wire(h, psd[..], c), h)
    ensures ok ==> RealBlock(Chain(raw, payload), Chunks(Wire(h, psd[..], c), payload))
    ensures raw.data == old(raw.data) && (ok ==> Beside(old(raw.data[..]), raw.data[..], raw.at, 20))
  {
    ok := raw.size > 20;
    if ok {
      hide *;
      PackAll(h, raw, payload, psd, src, dest, protocol, c);
      WireOctets(h, psd[..], c);
      PseudoIs(src, dest, protocol, (20 + |c|) % M16);
    }
  }

  method PackAll(h: Header, raw: Node, payload: Node?, psd: array<byte>, src: seq<byte>, dest: seq<byte>, protocol: byte,
                 ghost c: seq<byte>)
    requires InBounds(raw) && raw.vsize == 0 && !raw.more && MaybeHolds(payload, c) && |c| % 2 == 0 && raw.size > 20
    requires raw != payload && psd.Length == 12 && |src| == |dest| == 4
    requires raw.data != psd && (payload != null ==> payload.data != raw.data && payload.data != psd)
    modifies raw`size, raw`next, raw`more, raw.data, JustThat(payload)`next, psd
    ensures psd[..] == Pseudo(src, dest, protocol, (20 + |c|) % M16)
    ensures RealBlock(Chain(raw, payload), Chunks(Wire(h, psd[..], c), payload))
    ensures raw.data == old(raw.data) && Beside(old(raw.data[..]), raw.data[..], raw.at, 20)
  {
    ghost var s0 := raw.data[..];
    assert raw.at + 20 <= |s0|;
    hide *;
    PackParts(h, raw, payload, psd, src, dest, protocol, c);
    var sum := PackChecksum(h, raw, payload, psd, c);
    TwiceBeside(s0, raw.at, Packed(h, 0), 16, Bw16(sum));
    WireChunks(h, psd[..], c, payload, sum);
    MergePayload(raw, payload, Packed(h, sum), c);
  }

  method PackParts(h: Header, raw: Node, payload: Node?, psd: array<byte>, src: seq<byte>, dest: seq<byte>, protocol: byte,
                   ghost c: seq<byte>)
    requires InBounds(raw) && raw.size > 20 && MaybeHolds(payload, c) && raw != payload
    requires psd.Length == 12 && |src| == |dest| == 4
    requires raw.data != psd && (payload != null ==> payload.data != raw.data && payload.data != psd)
    modifies raw`size, raw.data, psd
    ensures psd[..] == Pseudo(src, dest, protocol, (20 + |c|) % M16) && MaybeHolds(payload, c)
    ensures InBounds(raw) && raw.size == 20 && BytesOf(raw) == Packed(h, 0)
    ensures raw.data[..] == Overwrite(old(raw.data[..]), raw.at, Packed(h, 0))
  {
    hide Packed, Pseudo;
    PackHeader(h, raw.data, raw.at);
    raw.size := 20;
    PackPseudo(psd, src, dest, protocol, (20 + if payload == null then 0 else NodeSize(payload)) % M16);
  }

  method MergePayload(raw: Node, payload: Node?, ghost p: seq<byte>, ghost c: seq<byte>)
    requires InBounds(raw) && BytesOf(raw) == p && raw.vsize == 0 && !raw.more && raw != payload && MaybeHolds(payload, c)
    modifies raw`next, raw`more, JustThat(payload)`next
    ensures RealBlock(Chain(raw, payload), [p] + (if payload == null then [] else [c]))
  {
    Merge(raw, payload, [raw], [p], c);
    assert payload != null ==> [raw] + [payload] == Chain(raw, payload);
  }

  lemma WireChunks(h: Header, ps: seq<byte>, c: seq<byte>, payload: Node?, sum: u16)
    requires |ps| % 2 == 0 && |c| % 2 == 0 && sum == SegmentSum(ps, Packed(h, 0) + c) && (payload == null ==> c == [])
    ensures Chunks(Wire(h, ps, c), payload) == [Packed(h, sum)] + (if payload == null then [] else [c])
  {
    var w := Packed(h, sum) + c;
    assert c == [] ==> w == Packed(h, sum);
    assert w[..20] == Packed(h, sum) && w[20..] == c;
  }

  // The checksum of the packed pieces, written into the header.
  method PackChecksum(h: Header, raw: Node, payload: Node?, psd: array<byte>, ghost c: seq<byte>) returns (sum: u16)
    requires InBounds(raw) && raw.size == 20 && BytesOf(raw) == Packed(h, 0)
    requires MaybeHolds(payload, c) && |c| % 2 == 0 && psd.Length == 12
    requires raw.data != psd && (payload != null ==> payload.data != raw.data)
    modifies raw.data
    ensures sum == SegmentSum(psd[..], Packed(h, 0) + c) && BytesOf(raw) == Packed(h, sum) && MaybeHolds(payload, c)
    ensures raw.data[..] == Overwrite(old(raw.data[..]), raw.at + 16, Bw16(sum))
  {
    sum := SumPieces(psd, raw, payload, Packed(h, 0), c);
    OverwriteInside(raw.data[..], raw.at, 20, 16, Bw16(sum));
    StoreSum(h, sum);
    Set16(raw.data, raw.at + 16, sum);
  }

  lemma StoreSum(h: Header, sum: u16)
    ensures Overwrite(Packed(h, 0), 16, Bw16(sum)) == Packed(h, sum)
  {
  }

  method ReadHeader(raw: Node, ghost s: seq<byte>) returns (h: Header, sum: u16)
    requires InBounds(raw) && BytesOf(raw) == s && |s| >= 20
    ensures h == Parsed(s) && sum == Br16(s, 16)
  {
    var data, at := raw.data[..], raw.at;
    var bits := Br16(data, at + 12);
    h := Header(Br16(data, at), Br16(data, at + 2), Br32(data, at + 4), Br32(data, at + 8), bits / 0x1000, bits % 0x1000,
                Br16(data, at + 14), Br16(data, at + 18));
    sum := Br16(data, at + 16);
  }

  method SumWhole(psd: array<byte>, raw: Node, ghost s: seq<byte>) returns (r: u16)
    requires psd.Length == 12 && InBounds(raw) && BytesOf(raw) == s && |s| % 2 == 0
    ensures r == SegmentSum(psd[..], s)
  {
    hide WordSum, Fold;
    assert psd[0..12] == psd[..];
    var sum := AddPiece(0, psd, 0, psd.Length, psd[..]);
    sum := AddPiece(sum, raw.data, raw.at, raw.size, s);
    r := Complete(sum);
  }

  // A node as dblk_node_init leaves it.
  ghost predicate Plain(n: Node)
    reads n
  {
    n.next == null && !n.dataMalloc && !n.nodeMalloc && !n.more && n.vsize == 0 && n.vmem == null && n.offset == 0
  }

  // tcp_unpack.
  method Unpack(raw: Node, options: Node, payload: Node, psd: array<byte>, src: seq<byte>, dest: seq<byte>,
                protocol: byte, ghost s: seq<byte>)
    returns (ok: bool, h: Option<Header>)
    requires InBounds(raw) && raw.vsize == 0 && !raw.more && BytesOf(raw) == s && |s| % 2 == 0
    requires raw != options && raw != payload && options != payload && raw.data != psd
    requires psd.Length == 12 && |src| == |dest| == 4
    modifies raw.data, options, payload, psd
    ensures h == (if |s| < 20 then None else Some(Parsed(s))) && (h.Some? ==> HeaderOctets(s, h.value))
    ensures ok == (|s| >= 20 && Verifies(Pseudo(src, dest, protocol, |s|), s))
    ensures |s| < 20 ==> unchanged(raw.data, options, payload, psd)
    ensures |s| >= 20 ==> BytesOf(raw) == Cleared(s) && options.data == payload.data == raw.data
    ensures |s| >= 20 ==> raw.data[..] == Overwrite(old(raw.data[..]), raw.at + 16, [0, 0]) && Plain(options) && Plain(payload)
    ensures |s| >= 20 ==> options.at == raw.at + 20 && options.size == (h.value.dataOffset * 4 - 20) % M16
    ensures |s| >= 20 ==> payload.at == raw.at + h.value.dataOffset * 4 && payload.size == (|s| - h.value.dataOffset * 4) % M16
  {
    hide Parsed, Pseudo, WordSum, Fold, Overwrite, HeaderOctets;
    h := None;
    ok := false;
    if raw.size >= 20 {
      ParsedOctets(s);
      var data, at := raw.data, raw.at;
      var header, sum := ReadHeader(raw, s);
      h := Some(header);
      var doff := header.dataOffset as int * 4;
      options.Reset(data, at + 20, (doff - 20) % M16);
      payload.Reset(data, at + doff, (raw.size - doff) % M16);
      OverwriteInside(data[..], at, |s|, 16, Bw16(0));
      Set16(data, at + 16, 0);
      PackPseudo(psd, src, dest, protocol, raw.size);
      var sum1 := SumWhole(psd, raw, Cleared(s));
      ok := sum == sum1;
    }
  }

  // The sending half: what dblk_copy hands to the IP layer is the wire form.
  method PackAndCopy(heap: Heap, h: Header, raw: Node, payload: Node?, psd: array<byte>, src: seq<byte>, dest: seq<byte>,
                     protocol: byte, ghost c: seq<byte>)
    returns (copy: Node)
    requires InBounds(raw) && raw.size > 20 && raw.vsize == 0 && !raw.more && MaybeHolds(payload, c) && |c| % 2 == 0
    requires raw != payload && psd.Length == 12 && |src| == |dest| == 4 && 20 + |c| < M16
    requires raw.data != psd && (payload != null ==> payload.data != raw.data && payload.data != psd)
    modifies heap, raw, raw.data, payload, psd
    ensures fresh(copy) && InBounds(copy) && fresh(copy.data) && copy.vsize == 0 && !copy.more
    ensures BytesOf(copy) == Wire(h, Pseudo(src, dest, protocol, 20 + |c|), c)
  {
    hide Wire, Pseudo, Chunks, RealBlock;
    var packed := Pack(h, raw, payload, psd, src, dest, protocol, c);
    ghost var wire := Wire(h, psd[..], c);
    ChunksFlat(wire, payload);
    copy := Copy(heap, raw, Chain(raw, payload), Chunks(wire, payload));
    assert wire[..|wire| % M16] == wire;
  }

  // The receiving half, for a segment that arrives as it was sent.
  method UnpackWire(h: Header, raw: Node, options: Node, payload: Node, psd: array<byte>, src: seq<byte>, dest: seq<byte>,
                    protocol: byte, ghost c: seq<byte>)
    returns (ok: bool, back: Option<Header>)
    requires |c| % 2 == 0 && 20 + |c| < M16 && h.dataOffset == 5 && psd.Length == 12 && |src| == |dest| == 4
    requires InBounds(raw) && raw.vsize == 0 && !raw.more
    requires BytesOf(raw) == Wire(h, Pseudo(src, dest, protocol, 20 + |c|), c)
    requires raw != options && raw != payload && options != payload && raw.data != psd
    modifies raw.data, options, payload, psd
    ensures ok && back == Some(h) && InBounds(payload) && BytesOf(payload) == c
  {
    hide Wire, Pseudo, Verifies, Parsed, Cleared;
    ghost var ps := Pseudo(src, dest, protocol, 20 + |c|);
    ghost var wire := Wire(h, ps, c);
    WireRoundTrip(h, ps, c);
    ok, back := Unpack(raw, options, payload, psd, src, dest, protocol, wire);
    ClearedRest(wire);
    assert BytesOf(payload) == BytesOf(raw)[20..];
  }

  lemma ClearedRest(s: seq<byte>)
    requires |s| >= 20
    ensures Cleared(s)[20..] == s[20..]
  {
  }

  // Main result over the whole way: pack, merge, flatten with dblk_copy, unpack with the
  // same addresses. Every field and the payload come back and the checksum test passes.
  method PackSendUnpack(heap: Heap, h: Header, raw: Node, payload: Node?, psd: array<byte>, src: seq<byte>, dest: seq<byte>,
                        protocol: byte, options: Node, received: Node, ghost c: seq<byte>)
    returns (ok: bool, back: Option<Header>)
    requires InBounds(raw) && raw.size > 20 && raw.vsize == 0 && !raw.more && MaybeHolds(payload, c) && |c| % 2 == 0
    requires raw != payload && options != received && psd.Length == 12 && |src| == |dest| == 4
    requires raw.data != psd && (payload != null ==> payload.data != raw.data && payload.data != psd)
    requires h.dataOffset == 5 && 20 + |c| < M16
    modifies heap, raw, raw.data, payload, psd, options, received
    ensures ok && back == Some(h) && InBounds(received) && BytesOf(received) == c
  {
    hide Wire, Pseudo;
    var copy := PackAndCopy(heap, h, raw, payload, psd, src, dest, protocol, c);
    ok, back := UnpackWire(h, copy, options, received, psd, src, dest, protocol, c);
  }
}
