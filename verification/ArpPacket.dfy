// ARP packets (RFC 826) as dts_net_arp.c writes and reads them.
module ArpPacket {
  import opened Bytes
  import opened Writer

  // The contents of a packet; the addresses have the lengths the packet declares.
  datatype Fields = Fields(hrd: u16, pro: u16, hln: byte, pln: byte, op: u16,
                           sha: seq<byte>, spa: seq<byte>, tha: seq<byte>, tpa: seq<byte>)

  predicate WellSized(f: Fields) {
    |f.sha| == |f.tha| == f.hln && |f.spa| == |f.tpa| == f.pln
  }

  function PacketSize(hln: byte, pln: byte): nat {
    8 + hln as int * 2 + pln as int * 2
  }

  function Image(f: Fields): (s: seq<byte>)
    ensures WellSized(f) ==> |s| == PacketSize(f.hln, f.pln)
  {
    Bw16(f.hrd) + Bw16(f.pro) + [f.hln, f.pln] + Bw16(f.op) + f.sha + f.spa + f.tha + f.tpa
  }

  // What is read from a packet, if it is as long as it says.
  function Parse(s: seq<byte>): (r: Option<Fields>)
    ensures r.Some? ==> WellSized(r.value)
  {
    if |s| < 8 || |s| < PacketSize(s[4], s[5]) then None
    else
      var h: nat, p: nat := s[4], s[5];
      Some(Fields(Br16(s, 0), Br16(s, 2), s[4], s[5], Br16(s, 6), s[8..8 + h], s[8 + h..8 + h + p],
                  s[8 + h + p..8 + h + p + h], s[8 + h + p + h..8 + h + p + h + p]))
  }

  // Reading inverts writing, whatever follows the packet.
  lemma ParseImage(f: Fields, rest: seq<byte>)
    requires WellSized(f)
    ensures Parse(Image(f) + rest) == Some(f)
  {
    var s := Image(f) + rest;
    FixedPart(f, s);
    Addresses(f, s, rest);
  }

  lemma FixedPart(f: Fields, s: seq<byte>)
    requires WellSized(f) && |s| >= |Image(f)| && s[..|Image(f)|] == Image(f)
    ensures Br16(s, 0) == f.hrd && Br16(s, 2) == f.pro && s[4] == f.hln && s[5] == f.pln && Br16(s, 6) == f.op
  {
    var i := Image(f);
    assert i[..8] == Bw16(f.hrd) + Bw16(f.pro) + [f.hln, f.pln] + Bw16(f.op);
    forall k | 0 <= k < 8 ensures s[k] == i[..8][k] {
      assert s[..|i|][k] == i[k];
    }
    Read16(s, 0, f.hrd);
    Read16(s, 2, f.pro);
    Read16(s, 6, f.op);
  }

  lemma Addresses(f: Fields, s: seq<byte>, rest: seq<byte>)
    requires WellSized(f) && s == Image(f) + rest
    ensures var h: nat, p: nat := f.hln, f.pln;
            && s[8..8 + h] == f.sha && s[8 + h..8 + h + p] == f.spa
            && s[8 + h + p..8 + h + p + h] == f.tha && s[8 + h + p + h..8 + h + p + h + p] == f.tpa
  {
  }

  // The layout of RFC 826, octet by octet.
  lemma ImageOctets(f: Fields)
    requires WellSized(f)
    ensures var s := Image(f);
            var h: nat, p: nat := f.hln, f.pln;
            && |s| == 8 + 2 * h + 2 * p && Spells16(s, 0, f.hrd) && Spells16(s, 2, f.pro) && s[4] == f.hln && s[5] == f.pln
            && Spells16(s, 6, f.op) && s[8..8 + h] == f.sha && s[8 + h..8 + h + p] == f.spa
            && s[8 + h + p..8 + 2 * h + p] == f.tha && s[8 + 2 * h + p..] == f.tpa
  {
    var s := Image(f);
    assert s[0..2] == Bw16(f.hrd) && s[2..4] == Bw16(f.pro) && s[6..8] == Bw16(f.op);
    Written16(s, 0, f.hrd);
    Written16(s, 2, f.pro);
    Written16(s, 6, f.op);
    Addresses(f, s, []);
  }

  // And writing inverts reading: a packet that is accepted is the image of what was read.
  lemma ImageParse(s: seq<byte>)
    requires Parse(s).Some?
    ensures var f := Parse(s).value; PacketSize(f.hln, f.pln) <= |s| && Image(f) == s[..PacketSize(f.hln, f.pln)]
  {
  }

  class Packet {
    var hrd: u16
    var pro: u16
    var hln: byte
    var pln: byte
    var op: u16
    var sha: Ptr
    var spa: Ptr
    var tha: Ptr
    var tpa: Ptr
    var data: array<byte>
    var dataSize: byte

    constructor (data: array<byte>, dataSize: byte)
      ensures this.data == data && this.dataSize == dataSize
    {
      hrd, pro, hln, pln, op := 0, 0, 0, 0, 0;
      sha, spa, tha, tpa := Ptr(data, 0), Ptr(data, 0), Ptr(data, 0), Ptr(data, 0);
      this.data, this.dataSize := data, dataSize;
    }

    // The packet, with the addresses its pointers lead to.
    ghost predicate Shows(f: Fields)
      reads this, sha.buf, spa.buf, tha.buf, tpa.buf
    {
      && WellSized(f) && hrd == f.hrd && pro == f.pro && hln == f.hln && pln == f.pln && op == f.op
      && Finds(sha, f.sha) && Finds(spa, f.spa) && Finds(tha, f.tha) && Finds(tpa, f.tpa)
    }

    ghost predicate ApartFromData()
      reads this
    {
      data != sha.buf && data != spa.buf && data != tha.buf && data != tpa.buf
    }

    // arp_pack. A packet longer than 255 bytes never fits, because dataSize is a byte.
    method Pack(ghost f: Fields) returns (r: nat)
      requires Shows(f) && ApartFromData() && dataSize <= data.Length
      modifies this`dataSize, data
      ensures Shows(f) && ApartFromData()
      ensures r == if PacketSize(hln, pln) <= old(dataSize) then PacketSize(hln, pln) else 0
      ensures r == 0 ==> unchanged(this, data)
      ensures r > 0 ==> dataSize == r <= data.Length && data[..] == Overwrite(old(data[..]), 0, Image(f))
    {
      hide Finds, Image, Overwrite;
      var need := PacketSize(hln, pln);
      if dataSize < need {
        return 0;
      }
      dataSize := need;
      PutAll(f);
      r := need;
    }

    method PutAll(ghost f: Fields)
      requires Shows(f) && ApartFromData() && PacketSize(hln, pln) <= data.Length
      modifies data
      ensures Shows(f) && data[..] == Overwrite(old(data[..]), 0, Image(f))
    {
      hide Finds, Overwrite, Bw16;
      var h: nat, p: nat := hln, pln;
      ghost var s0 := data[..];
      ghost var w := PutFixed(data, hrd, pro, hln, pln, op, s0);
      PutFrom(data, 8, sha, h, f.sha, s0, 0, w);
      w := w + f.sha;
      PutFrom(data, 8 + h, spa, p, f.spa, s0, 0, w);
      w := w + f.spa;
      PutFrom(data, 8 + h + p, tha, h, f.tha, s0, 0, w);
      w := w + f.tha;
      PutFrom(data, 8 + h + p + h, tpa, p, f.tpa, s0, 0, w);
    }

    static method PutFixed(data: array<byte>, hrd: u16, pro: u16, hln: byte, pln: byte, op: u16, ghost s0: seq<byte>)
      returns (ghost w: seq<byte>)
      requires 8 <= data.Length && data[..] == s0
      modifies data
      ensures w == Bw16(hrd) + Bw16(pro) + [hln, pln] + Bw16(op) && Wrote(data, s0, 0, w)
    {
      Nothing(data, 0);
      hide *;
      Put16(data, 0, hrd, s0, 0, []);
      w := [] + Bw16(hrd);
      assert w == Bw16(hrd);
      Put16(data, 2, pro, s0, 0, w);
      w := w + Bw16(pro);
      PutBytes(data, 4, [hln, pln], s0, 0, w);
      w := w + [hln, pln];
      Put16(data, 6, op, s0, 0, w);
      w := w + Bw16(op);
    }

    // arp_unpack. The addresses point into the packet's own buffer.
    method Unpack() returns (ok: bool)
      requires dataSize <= data.Length
      modifies this`hrd, this`pro, this`hln, this`pln, this`op, this`sha, this`spa, this`tha, this`tpa
      ensures ok == Parse(data[..dataSize]).Some?
      ensures ok ==> sha.buf == spa.buf == tha.buf == tpa.buf == data && Shows(Parse(data[..dataSize]).value)
      ensures dataSize < 8 ==> unchanged(this)
    {
      hide Finds;
      if dataSize < 8 {
        return false;
      }
      ghost var s := data[..dataSize];
      ReadFixed(s);
      if dataSize < PacketSize(hln, pln) {
        return false;
      }
      SetPointers();
      Pointed(s, Parse(s).value);
      return true;
    }

    method ReadFixed(ghost s: seq<byte>)
      requires 8 <= dataSize <= data.Length && s == data[..dataSize]
      modifies this`hrd, this`pro, this`hln, this`pln, this`op
      ensures hrd == Br16(s, 0) && pro == Br16(s, 2) && hln == s[4] && pln == s[5] && op == Br16(s, 6)
    {
      hrd := Br16(data[..], 0);
      pro := Br16(data[..], 2);
      hln := data[4];
      pln := data[5];
      op := Br16(data[..], 6);
    }

    // The addresses follow one another after the fixed part.
    method SetPointers()
      modifies this`sha, this`spa, this`tha, this`tpa
      ensures PointersSet()
    {
      var h: nat, p: nat := hln, pln;
      sha := Ptr(data, 8);
      spa := Ptr(data, 8 + h);
      tha := Ptr(data, 8 + h + p);
      tpa := Ptr(data, 8 + h + p + h);
    }

    ghost predicate PointersSet()
      reads this
    {
      var h: nat, p: nat := hln, pln;
      sha == Ptr(data, 8) && spa == Ptr(data, 8 + h) && tha == Ptr(data, 8 + h + p) && tpa == Ptr(data, 8 + h + p + h)
    }

    lemma Pointed(s: seq<byte>, f: Fields)
      requires |s| <= data.Length && s == data[..|s|] && Parse(s) == Some(f) && hln == f.hln && pln == f.pln && PointersSet()
      ensures Finds(sha, f.sha) && Finds(spa, f.spa) && Finds(tha, f.tha) && Finds(tpa, f.tpa)
    {
      AddressesAt(s, f);
      hide Finds, InSeq, Parse, WellSized, Image;
      Found(sha, s, f.sha);
      Found(spa, s, f.spa);
      Found(tha, s, f.tha);
      Found(tpa, s, f.tpa);
    }

    // Where the addresses are in a packet that is accepted.
    static lemma AddressesAt(s: seq<byte>, f: Fields)
      requires Parse(s) == Some(f)
      ensures var h: nat, p: nat := f.hln, f.pln;
              && InSeq(s, 8, f.sha) && InSeq(s, 8 + h, f.spa) && InSeq(s, 8 + h + p, f.tha) && InSeq(s, 8 + h + p + h, f.tpa)
    {
    }
  }

  // Main result: for every address lengths that fit, a packet that is packed into a buffer
  // and unpacked from it by another host comes back whole.
  method PackUnpack(p: Packet, q: Packet, ghost f: Fields) returns (ok: bool)
    requires p != q && p.Shows(f) && p.ApartFromData() && p.dataSize <= p.data.Length
    requires q.data == p.data && q.dataSize == p.dataSize
    modifies p, q, p.data
    ensures ok <==> PacketSize(f.hln, f.pln) <= old(p.dataSize)
    ensures p.Shows(f) && (ok ==> q.Shows(f))
  {
    hide Finds, Image, Parse, Overwrite;
    var r := p.Pack(f);
    if r == 0 {
      return false;
    }
    ParsePacked(old(p.data[..]), f, q.dataSize);
    ok := q.Unpack();
  }

  lemma ParsePacked(s0: seq<byte>, f: Fields, n: nat)
    requires WellSized(f) && PacketSize(f.hln, f.pln) <= n <= |s0|
    ensures Parse(Overwrite(s0, 0, Image(f))[..n]) == Some(f)
  {
    hide Parse, Image;
    var i := Image(f);
    assert Overwrite(s0, 0, i)[..n] == i + s0[|i|..n];
    ParseImage(f, s0[|i|..n]);
  }
}
