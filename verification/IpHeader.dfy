// The IPv4 header of dts_net_ip.c: packing with padding and checksum, and unpacking.
module IpHeader {
  import opened Bytes
  import opened Checksum
  import opened Writer

  type u3 = x: int | 0 <= x < 0x8
  type u13 = x: int | 0 <= x < 0x2000
  type addr = s: seq<byte> | |s| == 4 witness [0, 0, 0, 0]

  // What ip_header_pack writes.
  datatype Fields = Fields(version: u4, tos: byte, totalLength: u16, identification: u16, flags: u3, fragmentOffset: u13,
                           ttl: byte, protocol: byte, src: addr, dest: addr, options: seq<byte>)

  // What ip_header_unpack reads.
  datatype Reading = Reading(version: u4, ihl: u4, tos: byte, totalLength: u16, identification: u16,
                             ttl: byte, protocol: byte, checksum: u16, src: Option<addr>, dest: Option<addr>)

  // The header size for a number of option bytes: 32-bit aligned.
  function HeaderSize(optionSize: nat): (r: nat)
    ensures r % 4 == 0 && optionSize + 20 <= r < optionSize + 24
  {
    var size := optionSize + 20;
    if size % 4 != 0 then size - size % 4 + 4 else size
  }

  function Zeros(n: nat): (s: seq<byte>)
    ensures |s| == n
  {
    seq(n, i => 0)
  }

  function Addresses(f: Fields): (s: seq<byte>)
    ensures |s| <= 8
  {
    if f.version == 4 then f.src + f.dest else []
  }

  // The ten bytes before the checksum; size is the size of the header.
  function Lead(f: Fields, size: nat): (s: seq<byte>)
    requires size < 64
    ensures |s| == 10
  {
    [f.version as int * 0x10 + size / 4, f.tos] + Bw16((f.totalLength + size) % M16) + Bw16(f.identification)
    + Bw16(f.flags as int * 0x2000 + f.fragmentOffset) + [f.ttl, f.protocol]
  }

  // The header on the wire with the given checksum field.
  function Image(f: Fields, sum: u16): (s: seq<byte>)
    requires |f.options| <= 40
    ensures |s| == HeaderSize(|f.options|)
  {
    var size := HeaderSize(|f.options|);
    var w := Lead(f, size) + Bw16(sum) + Addresses(f) + f.options;
    w + Zeros(size - |w|)
  }

  function HeaderChecksum(f: Fields): u16
    requires |f.options| <= 40
  {
    Sum32(Image(f, 0))
  }

  function Sealed(f: Fields): (s: seq<byte>)
    requires |f.options| <= 40
    ensures |s| == HeaderSize(|f.options|)
  {
    Image(f, HeaderChecksum(f))
  }

  // What is read from a datagram, if it is long enough.
  function Read(s: seq<byte>): Option<Reading> {
    if |s| < 20 || s[0] % 0x10 * 4 > |s| then None
    else
      var v4 := s[0] / 0x10 == 4;
      Some(Reading(s[0] / 0x10, s[0] % 0x10, s[1], Br16(s, 2), Br16(s, 6), s[8], s[9], Br16(s, 10),
                   if v4 then Some(s[12..16]) else None, if v4 then Some(s[16..20]) else None))
  }

  // A packed header checksums to zero.
  lemma SealedVerifies(f: Fields)
    requires |f.options| <= 40
    ensures Sum32(Sealed(f)) == 0
  {
    hide Sum32;
    var s := Image(f, 0);
    StoredChecksumVerifies(s, 10);
    ImageReplace(f, HeaderChecksum(f));
  }

  lemma ImageReplace(f: Fields, sum: u16)
    requires |f.options| <= 40
    ensures Br16(Image(f, 0), 10) == 0
    ensures Image(f, 0)[..10] + Bw16(sum) + Image(f, 0)[12..] == Image(f, sum)
  {
    var l := Lead(f, HeaderSize(|f.options|));
    var t := Addresses(f) + f.options + Zeros(HeaderSize(|f.options|) - 12 - |Addresses(f)| - |f.options|);
    forall x: u16 ensures Image(f, x) == l + Bw16(x) + t {
    }
  }

  // Unpacking a packed header, whatever follows it, recovers every field that is read; what
  // comes back as the identification are the flags and the fragment offset.
  lemma ReadSealed(f: Fields, rest: seq<byte>)
    requires |f.options| <= 40 && f.version == 4
    ensures var size := HeaderSize(|f.options|);
            Read(Sealed(f) + rest) == Some(Reading(4, size / 4, f.tos, (f.totalLength + size) % M16,
                                                   f.flags as int * 0x2000 + f.fragmentOffset, f.ttl, f.protocol,
                                                   HeaderChecksum(f), Some(f.src), Some(f.dest)))
  {
    var size, sum := HeaderSize(|f.options|), HeaderChecksum(f);
    var l, s := Lead(f, size), Sealed(f) + rest;
    assert s[..10] == l && s[10..12] == Bw16(sum) && s[12..16] == f.src && s[16..20] == f.dest;
    ReadLead(f, size, s);
    Read16(s, 10, sum);
  }

  lemma ReadLead(f: Fields, size: nat, s: seq<byte>)
    requires size < 64 && |s| >= 20 && s[..10] == Lead(f, size)
    ensures s[0] / 0x10 == f.version && s[0] % 0x10 == size / 4 && s[1] == f.tos && s[8] == f.ttl && s[9] == f.protocol
    ensures Br16(s, 2) == (f.totalLength + size) % M16 && Br16(s, 6) == f.flags as int * 0x2000 + f.fragmentOffset
  {
    var l := Lead(f, size);
    forall i | 0 <= i < 10 ensures s[i] == l[i] {
      assert s[..10][i] == s[i];
    }
    Read16(s, 2, (f.totalLength + size) % M16);
    Read16(s, 6, f.flags as int * 0x2000 + f.fragmentOffset);
  }

  lemma ReadNone(s: seq<byte>)
    requires |s| < 20 || s[0] % 0x10 * 4 > |s|
    ensures Read(s) == None
  {
  }

  // ----- the layout, octet by octet (RFC 791, section 3.1) -----

  ghost predicate HeaderOctets(s: seq<byte>, f: Fields) {
    var size := HeaderSize(|f.options|);
    && |s| >= size && size < 64
    && s[0] / 0x10 == f.version && s[0] % 0x10 * 4 == size && s[1] == f.tos
    && Spells16(s, 2, (f.totalLength + size) % M16) && Spells16(s, 4, f.identification)
    && s[6] / 0x20 == f.flags && s[6] as int % 0x20 * 0x100 + s[7] == f.fragmentOffset
    && s[8] == f.ttl && s[9] == f.protocol
  }

  // Addresses, which only version 4 has, options and padding behind the checksum.
  ghost predicate TailOctets(s: seq<byte>, f: Fields) {
    var at, n := if f.version == 4 then 20 else 12, |f.options|;
    && |s| >= HeaderSize(n) && (f.version == 4 ==> s[12..16] == f.src && s[16..20] == f.dest)
    && s[at..at + n] == f.options && forall i :: at + n <= i < HeaderSize(n) ==> s[i] == 0
  }

  lemma ImageOctets(f: Fields, sum: u16)
    requires |f.options| <= 40
    ensures HeaderOctets(Image(f, sum), f) && TailOctets(Image(f, sum), f) && Spells16(Image(f, sum), 10, sum)
  {
    var size := HeaderSize(|f.options|);
    var s, l := Image(f, sum), Lead(f, size);
    assert s[..10] == l && s[10..12] == Bw16(sum);
    Written16(s, 10, sum);
    LeadOctets(f, size);
    forall i | 0 <= i < 10 ensures s[i] == l[i] {
      assert s[..10][i] == s[i];
    }
    ImageTail(f, sum);
    hide Image, Lead;
  }

  lemma LeadOctets(f: Fields, size: nat)
    requires size == HeaderSize(|f.options|) < 64
    ensures HeaderOctets(Lead(f, size) + Zeros(size - 10), f)
  {
    var s := Lead(f, size) + Zeros(size - 10);
    var bits := f.flags as int * 0x2000 + f.fragmentOffset;
    assert s[2..4] == Bw16((f.totalLength + size) % M16) && s[4..6] == Bw16(f.identification) && s[6..8] == Bw16(bits);
    Written16(s, 2, (f.totalLength + size) % M16);
    Written16(s, 4, f.identification);
    Written16(s, 6, bits);
  }

  lemma ImageTail(f: Fields, sum: u16)
    requires |f.options| <= 40
    ensures TailOctets(Image(f, sum), f)
  {
    var n, s := |f.options|, Image(f, sum);
    var l := Lead(f, HeaderSize(n)) + Bw16(sum);
    if f.version == 4 {
      assert s == l + (f.src + f.dest + f.options + Zeros(HeaderSize(n) - 20 - n));
      hide Image, Lead;
      assert s[12..16] == f.src && s[16..20] == f.dest && s[20..20 + n] == f.options;
    } else {
      assert s == l + (f.options + Zeros(HeaderSize(n) - 12 - n));
      hide Image, Lead;
      assert s[12..12 + n] == f.options;
    }
  }

  // A datagram is read exactly when it has a fixed part and is as long as its header says.
  lemma ReadIff(s: seq<byte>)
    ensures Read(s).Some? <==> |s| >= 20 && s[0] % 0x10 * 4 <= |s|
  {
  }

  // What is read are the numbers the octets spell: the identification comes from the octets
  // of the flags and the fragment offset.
  lemma ReadOctets(s: seq<byte>)
    requires Read(s).Some?
    ensures var g := Read(s).value;
            && |s| >= 20 && g.version == s[0] / 0x10 && g.ihl == s[0] % 0x10 && g.tos == s[1] && g.ttl == s[8] && g.protocol == s[9]
            && Spells16(s, 2, g.totalLength) && Spells16(s, 6, g.identification) && Spells16(s, 10, g.checksum)
            && (g.version == 4 ==> g.src == Some(s[12..16]) && g.dest == Some(s[16..20]))
            && (g.version != 4 ==> g.src == None && g.dest == None)
  {
  }

  // ip_header_t
  class Header {
    var version: u4
    var ihl: u4
    var tos: byte
    var totalLength: u16
    var identification: u16
    var flags: u3
    var fragmentOffset: u13
    var ttl: byte
    var protocol: byte
    var checksum: u16
    var src: addr
    var dest: addr
    var options: seq<byte>

    constructor (f: Fields)
      ensures View() == f
    {
      version, ihl, tos, totalLength, identification := f.version, 0, f.tos, f.totalLength, f.identification;
      flags, fragmentOffset, ttl, protocol, checksum := f.flags, f.fragmentOffset, f.ttl, f.protocol, 0;
      src, dest, options := f.src, f.dest, f.options;
    }

    ghost function View(): Fields
      reads this
    {
      Fields(version, tos, totalLength, identification, flags, fragmentOffset, ttl, protocol, src, dest, options)
    }

    // ip_header_pack. The buffer has room for the padding, too.
    method Pack(data: array<byte>, size: nat) returns (r: nat)
      requires |options| <= 40 && size <= data.Length && HeaderSize(|options|) <= data.Length
      modifies this`totalLength, this`checksum, data
      ensures r == if size < |options| + 20 then 0 else HeaderSize(|options|)
      ensures r == 0 ==> unchanged(this, data)
      ensures r > 0 ==> data[..r] == Sealed(old(View())) && data[r..] == old(data[r..])
      ensures r > 0 ==> totalLength == (old(totalLength) + r) % M16 && checksum == HeaderChecksum(old(View()))
    {
      if size < |options| + 20 {
        return 0;
      }
      hide *;
      ghost var f := View();
      r := HeaderSize(|options|);
      Clear(data, r);
      totalLength := (totalLength + r) % M16;
      checksum := 0;
      PutFields(data, r, f);
      Seal(data, r, f);
    }

    static method Clear(data: array<byte>, r: nat)
      requires r <= data.Length
      modifies data
      ensures data[..r] == Zeros(r) && data[r..] == old(data[r..])
    {
      forall i | 0 <= i < r {
        data[i] := 0;
      }
    }

    // The checksum over the header with a zero field, into that field.
    method Seal(data: array<byte>, r: nat, ghost f: Fields)
      requires |f.options| <= 40 && r == HeaderSize(|f.options|) <= data.Length && data[..r] == Image(f, 0)
      modifies this`checksum, data
      ensures data[..r] == Sealed(f) && checksum == HeaderChecksum(f) && data[r..] == old(data[r..])
    {
      hide Sum32, Overwrite, Image;
      checksum := ComputeChecksum(data, 0, r);
      ImageReplace(f, checksum);
      OverwriteSplit(data[..], r, 10, Bw16(checksum));
      Set16(data, 10, checksum);
    }

    static lemma OverwriteSplit(s: seq<byte>, r: nat, p: nat, w: seq<byte>)
      requires p + |w| <= r <= |s|
      ensures Overwrite(s, p, w)[..r] == s[..r][..p] + w + s[..r][p + |w|..] && Overwrite(s, p, w)[r..] == s[r..]
    {
    }

    // The fields, one after the other, on a cleared buffer.
    method PutFields(data: array<byte>, size: nat, ghost f: Fields)
      requires |f.options| <= 40 && size == HeaderSize(|f.options|) <= data.Length
      requires View() == f.(totalLength := (f.totalLength + size) % M16) && checksum == 0
      requires data[..size] == Zeros(size)
      modifies data
      ensures data[..size] == Image(f, 0) && data[size..] == old(data[size..])
    {
      hide Overwrite, Image, Zeros;
      ghost var s0 := data[..];
      ghost var w := PutLead(data, version as int * 0x10 + size / 4, tos, totalLength, identification,
                             flags as int * 0x2000 + fragmentOffset, ttl, protocol, s0);
      Put16(data, 10, checksum, s0, 0, w);
      w := w + Bw16(checksum);
      var p := 12;
      if version == 4 {
        PutBytes(data, 12, src, s0, 0, w);
        w := w + src;
        PutBytes(data, 16, dest, s0, 0, w);
        w := w + dest;
        p := 20;
      }
      PutBytes(data, p, options, s0, 0, w);
      w := w + options;
      Padded(f, s0, w, size);
    }

    static lemma ZerosDrop(n: nat, k: nat)
      requires k <= n
      ensures Zeros(n)[k..] == Zeros(n - k)
    {
    }

    // What the fields and the cleared buffer make together.
    static lemma Padded(f: Fields, s0: seq<byte>, w: seq<byte>, size: nat)
      requires |f.options| <= 40 && size == HeaderSize(|f.options|) <= |s0| && s0[..size] == Zeros(size)
      requires if f.version == 4 then w == Lead(f, size) + Bw16(0) + f.src + f.dest + f.options
               else w == Lead(f, size) + Bw16(0) + f.options
      ensures Overwrite(s0, 0, w)[..size] == Image(f, 0) && Overwrite(s0, 0, w)[size..] == s0[size..]
    {
      assert w == Lead(f, size) + Bw16(0) + Addresses(f) + f.options;
      hide Lead, Overwrite;
      assert |Lead(f, size)| == 10;
      OverwriteFront(s0, w, size);
      ZerosDrop(size, |w|);
    }

    static lemma OverwriteFront(s: seq<byte>, w: seq<byte>, n: nat)
      requires |w| <= n <= |s|
      ensures Overwrite(s, 0, w)[..n] == w + s[..n][|w|..] && Overwrite(s, 0, w)[n..] == s[n..]
    {
    }

    static method PutLead(data: array<byte>, first: byte, tos: byte, total: u16, ident: u16, bits: u16, ttl: byte,
                          protocol: byte, ghost s0: seq<byte>)
      returns (ghost w: seq<byte>)
      requires 10 <= data.Length && data[..] == s0
      modifies data
      ensures w == [first, tos] + Bw16(total) + Bw16(ident) + Bw16(bits) + [ttl, protocol] && Wrote(data, s0, 0, w)
    {
      Nothing(data, 0);
      hide *;
      Put8(data, 0, first, s0, 0, []);
      w := [] + [first];
      Put8(data, 1, tos, s0, 0, w);
      w := w + [tos];
      assert w == [first, tos];
      Put16(data, 2, total, s0, 0, w);
      w := w + Bw16(total);
      Put16(data, 4, ident, s0, 0, w);
      w := w + Bw16(ident);
      Put16(data, 6, bits, s0, 0, w);
      w := w + Bw16(bits);
      PutBytes(data, 8, [ttl, protocol], s0, 0, w);
      w := w + [ttl, protocol];
    }

    // The fields of a datagram that is long enough.
    static method ReadAll(data: array<byte>, size: nat) returns (g: Reading)
      requires 20 <= size <= data.Length && data[0] % 0x10 * 4 <= size
      ensures Read(data[..size]) == Some(g) && (g.src.Some? <==> data[0] / 0x10 == 4) && (g.dest.Some? <==> g.src.Some?)
      ensures g.version == data[0] / 0x10 && g.ihl == data[0] % 0x10
    {
      var v4 := data[0] / 0x10 == 4;
      g := Reading(data[0] / 0x10, data[0] % 0x10, data[1], Br16(data[..], 2), Br16(data[..], 6), data[8], data[9], Br16(data[..], 10),
                   if v4 then Some(data[12..16]) else None, if v4 then Some(data[16..20]) else None);
      assert data[..size][12..16] == data[12..16] && data[..size][16..20] == data[16..20];
    }

    // The fields after the version and the header length.
    method Take(g: Reading)
      modifies this`tos, this`totalLength, this`identification, this`ttl, this`protocol, this`checksum, this`src, this`dest
      ensures tos == g.tos && totalLength == g.totalLength && identification == g.identification
      ensures ttl == g.ttl && protocol == g.protocol && checksum == g.checksum
      ensures src == (if g.src.Some? then g.src.value else old(src))
      ensures dest == (if g.dest.Some? then g.dest.value else old(dest))
    {
      tos, totalLength, identification := g.tos, g.totalLength, g.identification;
      ttl, protocol, checksum := g.ttl, g.protocol, g.checksum;
      if g.src.Some? {
        src := g.src.value;
      }
      if g.dest.Some? {
        dest := g.dest.value;
      }
    }

    // ip_header_unpack, on the first size bytes of data. The flags and the fragment offset
    // are not read, and a header with options keeps the options field it had.
    method Unpack(data: array<byte>, size: nat) returns (ok: bool)
      requires size <= data.Length
      modifies this
      ensures ok == Read(data[..size]).Some?
      ensures ok ==> var g := Read(data[..size]).value;
                && version == g.version && ihl == g.ihl && tos == g.tos && totalLength == g.totalLength
                && identification == g.identification && ttl == g.ttl && protocol == g.protocol && checksum == g.checksum
                && src == (if g.src.Some? then g.src.value else old(src))
                && dest == (if g.dest.Some? then g.dest.value else old(dest))
      ensures flags == old(flags) && fragmentOffset == old(fragmentOffset)
      ensures options == if size == 20 && ok then [] else old(options)
    {
      hide *;
      if size < 20 {
        ReadNone(data[..size]);
        return false;
      }
      version := data[0] / 0x10;
      ihl := data[0] % 0x10;
      if ihl as int * 4 > size {
        ReadNone(data[..size]);
        return false;
      }
      var g := ReadAll(data, size);
      Take(g);
      if size == 20 {
        options := [];
      }
      return true;
    }
  }

  // Main result: a header packed into a buffer is read back by another host.
  method PackUnpack(h: Header, g: Header, data: array<byte>) returns (r: nat, ok: bool)
    requires h != g && |h.options| <= 40 && h.version == 4 && HeaderSize(|h.options|) <= data.Length
    modifies h, g, data
    ensures ok && r == HeaderSize(|h.options|) && g.version == 4 && g.ihl as int * 4 == r
    ensures g.tos == h.tos && g.totalLength == h.totalLength == (old(h.totalLength) + r) % M16
    ensures g.ttl == h.ttl && g.protocol == h.protocol && g.checksum == h.checksum && g.src == h.src && g.dest == h.dest
    ensures h.View() == old(h.View()).(totalLength := h.totalLength)
    ensures Sum32(data[..r]) == 0
  {
    hide Sum32, Read, Sealed, HeaderChecksum;
    ghost var f := h.View();
    r := h.Pack(data, data.Length);
    SealedVerifies(f);
    ReadSealed(f, data[r..]);
    assert data[..] == Sealed(f) + data[r..];
    ok := g.Unpack(data, data.Length);
    assert data[..data.Length] == data[..];
  }
}
