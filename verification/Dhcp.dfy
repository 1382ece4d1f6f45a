// DHCP messages (RFC 2131) as dts_net_dhcp.c packs, unpacks and searches them.
module Dhcp {
  import opened Bytes
  import opened DhcpOptions
  import opened Writer

  type b16 = s: seq<byte> | |s| == 16 witness seq(16, i => 0)
  type b64 = s: seq<byte> | |s| == 64 witness seq(64, i => 0)
  type b128 = s: seq<byte> | |s| == 128 witness seq(128, i => 0)

  datatype Fixed = Fixed(op: byte, htype: byte, hlen: byte, hops: byte, xid: u32, secs: u16, flags: u16, ciaddr: u32,
                         yiaddr: u32, siaddr: u32, giaddr: u32, chaddr: b16, sname: b64, file: b128)

  // ----- the byte order of the host, and include/arpa/inet.h -----

  datatype Host = LittleEndian | BigEndian

  function Swap32(x: u32): u32 {
    x % 0x100 * 0x100_0000 + x / 0x100 % 0x100 * 0x1_0000 + x / 0x100 / 0x100 % 0x100 * 0x100 + x / 0x100 / 0x100 / 0x100
  }

  function Swap16(x: u16): u16 {
    x % 0x100 * 0x100 + x / 0x100
  }

  function Htonl(h: Host, x: u32): u32 {
    if h.LittleEndian? then Swap32(x) else x
  }

  function Htons(h: Host, x: u16): u16 {
    if h.LittleEndian? then Swap16(x) else x
  }

  // A word as it lies in the memory of the host, and a word read from there.
  function Stored32(h: Host, x: u32): (s: seq<byte>)
    ensures |s| == 4
  {
    if h.BigEndian? then Bw32(x) else [x % 0x100, x / 0x100 % 0x100, x / 0x100 / 0x100 % 0x100, x / 0x100 / 0x100 / 0x100]
  }

  function Stored16(h: Host, x: u16): (s: seq<byte>)
    ensures |s| == 2
  {
    if h.BigEndian? then Bw16(x) else [x % 0x100, x / 0x100]
  }

  function Loaded32(h: Host, s: seq<byte>, i: nat): u32
    requires i + 4 <= |s|
  {
    if h.BigEndian? then Br32(s, i)
    else s[i] as int + s[i + 1] as int * 0x100 + s[i + 2] as int * 0x1_0000 + s[i + 3] as int * 0x100_0000
  }

  function Loaded16(h: Host, s: seq<byte>, i: nat): u16
    requires i + 2 <= |s|
  {
    if h.BigEndian? then Br16(s, i) else s[i] as int + s[i + 1] as int * 0x100
  }

  // secs and flags are read with ntohl, then cut to 16 bits.
  function Heard16(h: Host, s: seq<byte>, i: nat): u16
    requires i + 2 <= |s|
  {
    Htonl(h, Loaded16(h, s, i)) % M16
  }

  lemma Digits32(a: byte, b: byte, c: byte, d: byte)
    ensures var x := a as int + b as int * 0x100 + c as int * 0x1_0000 + d as int * 0x100_0000;
            x % 0x100 == a && x / 0x100 % 0x100 == b && x / 0x100 / 0x100 % 0x100 == c && x / 0x100 / 0x100 / 0x100 == d
  {
    var x := a as int + b as int * 0x100 + c as int * 0x1_0000 + d as int * 0x100_0000;
    var y := b as int + c as int * 0x100 + d as int * 0x1_0000;
    var z := c as int + d as int * 0x100;
    assert x == a as int + 0x100 * y && y == b as int + 0x100 * z;
    assert x / 0x100 == y && y / 0x100 == z;
  }

  // Conversion and store together put the most significant byte first on every host.
  lemma StoredNetwork(h: Host, x: u32, y: u16)
    ensures Stored32(h, Htonl(h, x)) == Bw32(x) && Stored16(h, Htons(h, y)) == Bw16(y)
  {
    var w := Bw32(x);
    Digits32(w[3], w[2], w[1], w[0]);
    Digits32(w[0], w[1], w[2], w[3]);
  }

  // Load and conversion read it back; read with the 32-bit conversion, a 16-bit word is
  // lost on a little-endian host.
  lemma LoadedNetwork(h: Host, s: seq<byte>, i: nat)
    requires i + 4 <= |s|
    ensures Htonl(h, Loaded32(h, s, i)) == Br32(s, i)
  {
    Digits32(s[i], s[i + 1], s[i + 2], s[i + 3]);
  }

  lemma HeardNetwork(h: Host, s: seq<byte>, i: nat)
    requires i + 2 <= |s|
    ensures Heard16(h, s, i) == if h.BigEndian? then Br16(s, i) else 0
  {
    Digits32(s[i], s[i + 1], 0, 0);
    var k := s[i] as int * 0x100 + s[i + 1];
    assert h.LittleEndian? ==> Htonl(h, Loaded16(h, s, i)) == M16 * k;
    MultipleOf16(k);
  }

  lemma MultipleOf16(k: nat)
    ensures M16 * k % M16 == 0
  {
  }

  // ----- the fixed part -----

  function Numbers(f: Fixed): (s: seq<byte>)
    ensures |s| == 28
  {
    [f.op, f.htype, f.hlen, f.hops] + Bw32(f.xid) + Bw16(f.secs) + Bw16(f.flags)
    + Bw32(f.ciaddr) + Bw32(f.yiaddr) + Bw32(f.siaddr) + Bw32(f.giaddr)
  }

  function Image(f: Fixed): (s: seq<byte>)
    ensures |s| == 236
  {
    Numbers(f) + f.chaddr + f.sname + f.file
  }

  // What dhcp_message_unpack reads.
  function Parse(h: Host, s: seq<byte>): Fixed
    requires |s| >= 236
  {
    Fixed(s[0], s[1], s[2], s[3], Htonl(h, Loaded32(h, s, 4)), Heard16(h, s, 8), Heard16(h, s, 10),
          Htonl(h, Loaded32(h, s, 12)), Htonl(h, Loaded32(h, s, 16)), Htonl(h, Loaded32(h, s, 20)),
          Htonl(h, Loaded32(h, s, 24)), s[28..44], s[44..108], s[108..236])
  }

  // What comes back of a message.
  function Heard(h: Host, f: Fixed): Fixed {
    if h.BigEndian? then f else f.(secs := 0, flags := 0)
  }

  lemma ReadStart(f: Fixed, s: seq<byte>)
    requires |s| >= 28 && s[..28] == Numbers(f)
    ensures s[0] == f.op && s[1] == f.htype && s[2] == f.hlen && s[3] == f.hops && Br32(s, 4) == f.xid
    ensures Br16(s, 8) == f.secs && Br16(s, 10) == f.flags
  {
    var w := Numbers(f);
    forall i | 0 <= i < 12 ensures s[i] == w[i] {
      assert s[..28][i] == s[i];
    }
    hide Br16, Br32;
    Read32(s, 4, f.xid);
    Read16(s, 8, f.secs);
    Read16(s, 10, f.flags);
  }

  lemma ReadAddresses(f: Fixed, s: seq<byte>)
    requires |s| >= 28 && s[..28] == Numbers(f)
    ensures Br32(s, 12) == f.ciaddr && Br32(s, 16) == f.yiaddr && Br32(s, 20) == f.siaddr && Br32(s, 24) == f.giaddr
  {
    var w := Numbers(f);
    forall i | 12 <= i < 28 ensures s[i] == w[i] {
      assert s[..28][i] == s[i];
    }
    hide Br16, Br32;
    Read32(s, 12, f.ciaddr);
    Read32(s, 16, f.yiaddr);
    Read32(s, 20, f.siaddr);
    Read32(s, 24, f.giaddr);
  }

  // Every field of a packed message comes back, except that a little-endian host reads
  // secs and flags as zero.
  lemma ParseImage(h: Host, f: Fixed, rest: seq<byte>)
    ensures Parse(h, Image(f) + rest) == Heard(h, f)
  {
    hide Htonl, Heard16, Loaded32;
    var s := Image(f) + rest;
    assert s[..28] == Numbers(f) && s[28..44] == f.chaddr && s[44..108] == f.sname && s[108..236] == f.file;
    ReadStart(f, s);
    ReadAddresses(f, s);
    LoadedNetwork(h, s, 4);
    HeardNetwork(h, s, 8);
    HeardNetwork(h, s, 10);
    LoadedNetwork(h, s, 12);
    LoadedNetwork(h, s, 16);
    LoadedNetwork(h, s, 20);
    LoadedNetwork(h, s, 24);
  }

  // The layout of RFC 2131, section 2, octet by octet.
  lemma ImageOctets(f: Fixed)
    ensures var s := Image(f);
            && s[0] == f.op && s[1] == f.htype && s[2] == f.hlen && s[3] == f.hops
            && Spells32(s, 4, f.xid) && Spells16(s, 8, f.secs) && Spells16(s, 10, f.flags)
            && Spells32(s, 12, f.ciaddr) && Spells32(s, 16, f.yiaddr) && Spells32(s, 20, f.siaddr) && Spells32(s, 24, f.giaddr)
            && s[28..44] == f.chaddr && s[44..108] == f.sname && s[108..236] == f.file
  {
    var s, n := Image(f), Numbers(f);
    assert s[..28] == n;
    NumberOctets(f);
    hide Image, Numbers;
    forall i | 0 <= i < 28 ensures s[i] == n[i] {
      assert s[..28][i] == s[i];
    }
    Rest(f);
  }

  lemma Rest(f: Fixed)
    ensures var s := Image(f); s[28..44] == f.chaddr && s[44..108] == f.sname && s[108..236] == f.file
  {
  }

  lemma NumberOctets(f: Fixed)
    ensures var s := Numbers(f);
            && s[0] == f.op && s[1] == f.htype && s[2] == f.hlen && s[3] == f.hops
            && Spells32(s, 4, f.xid) && Spells16(s, 8, f.secs) && Spells16(s, 10, f.flags)
            && Spells32(s, 12, f.ciaddr) && Spells32(s, 16, f.yiaddr) && Spells32(s, 20, f.siaddr) && Spells32(s, 24, f.giaddr)
  {
    var s := Numbers(f);
    var a := [f.op, f.htype, f.hlen, f.hops] + Bw32(f.xid) + Bw16(f.secs) + Bw16(f.flags);
    var b := Bw32(f.ciaddr) + Bw32(f.yiaddr) + Bw32(f.siaddr) + Bw32(f.giaddr);
    assert s == a + b && |a| == 12;
    assert a[4..8] == Bw32(f.xid) && a[8..10] == Bw16(f.secs) && a[10..12] == Bw16(f.flags);
    FourWords(f.ciaddr, f.yiaddr, f.siaddr, f.giaddr);
    hide Numbers;
    forall i | 0 <= i < 12 ensures s[i] == a[i] {
    }
    assert s[4..8] == a[4..8] && s[8..10] == a[8..10] && s[10..12] == a[10..12];
    assert s[12..16] == b[0..4] && s[16..20] == b[4..8] && s[20..24] == b[8..12] && s[24..28] == b[12..16];
    Written32(s, 4, f.xid);
    Written16(s, 8, f.secs);
    Written16(s, 10, f.flags);
    Written32(s, 12, f.ciaddr);
    Written32(s, 16, f.yiaddr);
    Written32(s, 20, f.siaddr);
    Written32(s, 24, f.giaddr);
  }

  lemma FourWords(a: u32, b: u32, c: u32, d: u32)
    ensures var s := Bw32(a) + Bw32(b) + Bw32(c) + Bw32(d);
            s[0..4] == Bw32(a) && s[4..8] == Bw32(b) && s[8..12] == Bw32(c) && s[12..16] == Bw32(d)
  {
    hide Bw32;
  }

  // And what is read are the numbers the octets spell, secs and flags on a big-endian host only.
  lemma ParseOctets(h: Host, s: seq<byte>)
    requires |s| >= 236
    ensures var f := Parse(h, s);
            && f.op == s[0] && f.htype == s[1] && f.hlen == s[2] && f.hops == s[3]
            && Spells32(s, 4, f.xid) && Spells32(s, 12, f.ciaddr) && Spells32(s, 16, f.yiaddr) && Spells32(s, 20, f.siaddr)
            && Spells32(s, 24, f.giaddr) && f.chaddr == s[28..44] && f.sname == s[44..108] && f.file == s[108..236]
            && if h.BigEndian? then Spells16(s, 8, f.secs) && Spells16(s, 10, f.flags) else f.secs == f.flags == 0
  {
    hide Htonl, Heard16, Loaded32;
    LoadedNetwork(h, s, 4);
    HeardNetwork(h, s, 8);
    HeardNetwork(h, s, 10);
    LoadedNetwork(h, s, 12);
    LoadedNetwork(h, s, 16);
    LoadedNetwork(h, s, 20);
    LoadedNetwork(h, s, 24);
  }

  // So the fixed part makes the round trip exactly when the host is big-endian or both
  // fields are zero.
  lemma RoundTripIff(h: Host, f: Fixed, rest: seq<byte>)
    ensures Parse(h, Image(f) + rest) == f <==> h.BigEndian? || (f.secs == 0 && f.flags == 0)
  {
    hide Parse, Image;
    ParseImage(h, f, rest);
  }

  // ----- the options -----

  // An answer from the options; OutOfData where the source reads past the message.
  datatype Answer = Value(v: u32) | Missing | OutOfData

  function Ask(s: seq<byte>, tag: byte): Scan
    requires |s| >= 4
  {
    if s[..4] == COOKIE then ScanFrom(s, 4, tag) else Absent
  }

  function TypeOf(s: seq<byte>): Answer
    requires |s| >= 4
  {
    match Ask(s, MESSAGE_TYPE)
    case Absent => Missing
    case Beyond => OutOfData
    case At(i) => if i + 2 < |s| then Value(s[i + 2]) else OutOfData
  }

  function LongOf(s: seq<byte>, tag: byte): Answer
    requires |s| >= 4
  {
    match Ask(s, tag)
    case Absent => Missing
    case Beyond => OutOfData
    case At(i) => if i + 6 <= |s| then Value(Br32(s, i + 2)) else OutOfData
  }

  function OptionField(items: seq<Item>, tail: seq<byte>): (s: seq<byte>)
    requires WellFormed(items)
    ensures |s| >= 5
  {
    COOKIE + Closed(items, tail)
  }

  // The options start with the magic cookie 99.130.83.99 (RFC 2131, section 3), then the items
  // in order, then END (255); without the cookie nothing is found.
  lemma OptionOctets(items: seq<Item>, tail: seq<byte>, k: nat)
    requires WellFormed(items) && k < |items|
    ensures var s, i := OptionField(items, tail), 4 + Position(items, k);
            && s[0] == 99 && s[1] == 130 && s[2] == 83 && s[3] == 99
            && i + |EncodeItem(items[k])| < |s| && s[i..i + |EncodeItem(items[k])|] == EncodeItem(items[k])
            && s[4 + |Encode(items)|] == 255
  {
    ItemAt(items, tail, k);
    var c := Closed(items, tail);
    assert c[|Encode(items)|] == 255;
    hide Closed, Position, EncodeItem, Encode;
    SliceAfter(COOKIE, c, Position(items, k), |EncodeItem(items[k])|);
  }

  lemma CookieNeeded(s: seq<byte>, tag: byte)
    requires |s| >= 4 && s[..4] != [99, 130, 83, 99]
    ensures TypeOf(s) == Missing && LongOf(s, tag) == Missing
  {
  }

  // The body of the option that answers, when it is long enough.
  ghost predicate Answers(items: seq<Item>, tag: byte, body: seq<byte>) {
    FirstSeen(items, tag).Some? && items[FirstSeen(items, tag).value] == Opt(tag, body)
  }

  lemma {:induction false} SeenMatches(items: seq<Item>, tag: byte)
    ensures FirstSeen(items, tag).Some? ==> Matches(items[FirstSeen(items, tag).value], tag)
    decreases |items|
  {
    if |items| > 1 && items[0].Pad? {
      SeenMatches(items[2..], tag);
    } else if items != [] && items[0].Opt? && items[0].tag != tag {
      SeenMatches(items[1..], tag);
    }
  }

  lemma AskEncoded(items: seq<Item>, tail: seq<byte>, tag: byte)
    requires WellFormed(items) && tag != END && tag != PAD
    ensures Ask(OptionField(items, tail), tag) == Stops(FirstSeen(items, tag), items, 4)
  {
    hide ScanFrom, Closed;
    assert OptionField(items, tail)[..4] == COOKIE;
    ScanEncoded(COOKIE, items, tail, tag);
  }

  // Where the scan stops, the body follows tag and length.
  lemma BodyAt(items: seq<Item>, tail: seq<byte>, tag: byte, body: seq<byte>)
    requires WellFormed(items) && Answers(items, tag, body)
    ensures var s, i := OptionField(items, tail), 4 + Position(items, FirstSeen(items, tag).value);
            i + 2 + |body| < |s| && s[i + 2..i + 2 + |body|] == body
  {
    hide Closed, Position, FirstSeen;
    var k := FirstSeen(items, tag).value;
    var p, c := Position(items, k), Closed(items, tail);
    ItemAt(items, tail, k);
    var e := EncodeItem(items[k]);
    SliceAfter(COOKIE, c, p, |e|);
    var s := OptionField(items, tail);
    assert s[4 + p..4 + p + |e|] == e;
    assert e[2..] == body;
    assert s[4 + p + 2..4 + p + 2 + |body|] == s[4 + p..4 + p + |e|][2..];
  }

  // Main result for the options: the type is that of the first message type option the
  // scan looks at, and a long is read from the first option with its tag.
  lemma TypeEncoded(items: seq<Item>, tail: seq<byte>)
    requires WellFormed(items)
    ensures FirstSeen(items, 53).None? ==> TypeOf(OptionField(items, tail)) == Missing
    ensures forall body: seq<byte> :: Answers(items, 53, body) && |body| >= 1 ==> TypeOf(OptionField(items, tail)) == Value(body[0])
  {
    hide OptionField, Ask, FirstSeen, Position;
    AskEncoded(items, tail, MESSAGE_TYPE);
    forall body: seq<byte> | Answers(items, MESSAGE_TYPE, body) && |body| >= 1
      ensures TypeOf(OptionField(items, tail)) == Value(body[0])
    {
      BodyAt(items, tail, MESSAGE_TYPE, body);
      var s, i := OptionField(items, tail), 4 + Position(items, FirstSeen(items, MESSAGE_TYPE).value);
      assert s[i + 2] == s[i + 2..i + 2 + |body|][0];
    }
  }

  lemma LongEncoded(items: seq<Item>, tail: seq<byte>, tag: byte)
    requires WellFormed(items) && tag != END && tag != PAD
    ensures FirstSeen(items, tag).None? ==> LongOf(OptionField(items, tail), tag) == Missing
    ensures forall body: seq<byte> :: Answers(items, tag, body) && |body| >= 4 ==> LongOf(OptionField(items, tail), tag) == Value(Br32(body, 0))
  {
    hide OptionField, Ask, FirstSeen, Position;
    AskEncoded(items, tail, tag);
    forall body: seq<byte> | Answers(items, tag, body) && |body| >= 4
      ensures LongOf(OptionField(items, tail), tag) == Value(Br32(body, 0))
    {
      BodyAt(items, tail, tag, body);
      var s, i := OptionField(items, tail), 4 + Position(items, FirstSeen(items, tag).value);
      var u := s[i + 2..i + 2 + |body|];
      assert s[i + 2] == u[0] && s[i + 3] == u[1] && s[i + 4] == u[2] && s[i + 5] == u[3];
    }
  }

  // ----- the message -----

  // dhcp_message_t. The options may lie in another buffer.
  class Message {
    var op: byte
    var htype: byte
    var hlen: byte
    var hops: byte
    var xid: u32
    var secs: u16
    var flags: u16
    var ciaddr: u32
    var yiaddr: u32
    var siaddr: u32
    var giaddr: u32
    var chaddr: b16
    var sname: b64
    var file: b128
    var option: Ptr
    var optionSize: nat
    var raw: array<byte>
    var rawSize: nat

    constructor (f: Fixed, option: Ptr, optionSize: nat, raw: array<byte>, rawSize: nat)
      ensures View() == f && this.option == option && this.optionSize == optionSize && this.raw == raw && this.rawSize == rawSize
    {
      op, htype, hlen, hops, xid, secs, flags := f.op, f.htype, f.hlen, f.hops, f.xid, f.secs, f.flags;
      ciaddr, yiaddr, siaddr, giaddr, chaddr, sname, file := f.ciaddr, f.yiaddr, f.siaddr, f.giaddr, f.chaddr, f.sname, f.file;
      this.option, this.optionSize, this.raw, this.rawSize := option, optionSize, raw, rawSize;
    }

    ghost function View(): Fixed
      reads this
    {
      Fixed(op, htype, hlen, hops, xid, secs, flags, ciaddr, yiaddr, siaddr, giaddr, chaddr, sname, file)
    }

    // dhcp_message_pack
    method Pack(h: Host, ghost o: seq<byte>) returns (ok: bool)
      requires Finds(option, o) && |o| == optionSize && option.buf != raw && rawSize <= raw.Length
      modifies this`rawSize, raw
      ensures ok <==> 236 + optionSize <= old(rawSize)
      ensures !ok ==> unchanged(this, raw)
      ensures ok ==> rawSize == 236 + optionSize <= raw.Length && raw[..] == Overwrite(old(raw[..]), 0, Image(View()) + o)
      ensures View() == old(View()) && Finds(option, o)
    {
      if 236 + optionSize > rawSize {
        return false;
      }
      hide *;
      ghost var s0, f := raw[..], View();
      ghost var w := PutNumbers(h, f, s0);
      w := PutRest(f, s0, w);
      PutFrom(raw, 236, option, optionSize, o, s0, 0, w);
      Written(raw, s0, Image(f) + o);
      rawSize := 236 + optionSize;
      return true;
    }

    static lemma Written(data: array<byte>, s0: seq<byte>, w: seq<byte>)
      requires Wrote(data, s0, 0, w)
      ensures |w| <= data.Length == |s0| && data[..] == Overwrite(s0, 0, w)
    {
    }

    // *((uint32_t *)p) = htonl(x)
    static method PutNet32(h: Host, data: array<byte>, p: nat, x: u32, ghost s0: seq<byte>, ghost w: seq<byte>)
      requires Wrote(data, s0, 0, w) && p == |w| && p + 4 <= data.Length
      modifies data
      ensures Wrote(data, s0, 0, w + Bw32(x))
    {
      StoredNetwork(h, x, 0);
      PutBytes(data, p, Stored32(h, Htonl(h, x)), s0, 0, w);
    }

    static method PutNet16(h: Host, data: array<byte>, p: nat, x: u16, ghost s0: seq<byte>, ghost w: seq<byte>)
      requires Wrote(data, s0, 0, w) && p == |w| && p + 2 <= data.Length
      modifies data
      ensures Wrote(data, s0, 0, w + Bw16(x))
    {
      StoredNetwork(h, 0, x);
      PutBytes(data, p, Stored16(h, Htons(h, x)), s0, 0, w);
    }

    method PutNumbers(h: Host, ghost f: Fixed, ghost s0: seq<byte>) returns (ghost w: seq<byte>)
      requires f == View() && raw.Length >= 236 && raw[..] == s0
      modifies raw
      ensures w == Numbers(f) && Wrote(raw, s0, 0, w)
    {
      Nothing(raw, 0);
      hide Wrote, Bw16, Bw32;
      PutBytes(raw, 0, [op, htype, hlen, hops], s0, 0, []);
      w := [] + [f.op, f.htype, f.hlen, f.hops];
      assert w == [f.op, f.htype, f.hlen, f.hops];
      PutNet32(h, raw, 4, xid, s0, w);
      w := w + Bw32(f.xid);
      PutNet16(h, raw, 8, secs, s0, w);
      w := w + Bw16(f.secs);
      PutNet16(h, raw, 10, flags, s0, w);
      w := w + Bw16(f.flags);
      PutNet32(h, raw, 12, ciaddr, s0, w);
      w := w + Bw32(f.ciaddr);
      PutNet32(h, raw, 16, yiaddr, s0, w);
      w := w + Bw32(f.yiaddr);
      PutNet32(h, raw, 20, siaddr, s0, w);
      w := w + Bw32(f.siaddr);
      PutNet32(h, raw, 24, giaddr, s0, w);
      w := w + Bw32(f.giaddr);
    }

    method PutRest(ghost f: Fixed, ghost s0: seq<byte>, ghost w0: seq<byte>) returns (ghost w: seq<byte>)
      requires f == View() && raw.Length >= 236 && w0 == Numbers(f) && Wrote(raw, s0, 0, w0)
      modifies raw
      ensures w == Image(f) && Wrote(raw, s0, 0, w)
    {
      hide Wrote, Numbers;
      w := w0;
      PutBytes(raw, 28, chaddr, s0, 0, w);
      w := w + f.chaddr;
      PutBytes(raw, 44, sname, s0, 0, w);
      w := w + f.sname;
      PutBytes(raw, 108, file, s0, 0, w);
      w := w + f.file;
    }

    // dhcp_message_unpack. The options stay in the message's own buffer.
    method Unpack(h: Host) returns (ok: bool)
      requires rawSize <= raw.Length
      modifies this
      ensures raw == old(raw) && rawSize == old(rawSize)
      ensures ok <==> rawSize >= 241
      ensures !ok ==> unchanged(this)
      ensures ok ==> View() == Parse(h, raw[..rawSize]) && option == Ptr(raw, 236) && optionSize == rawSize - 236
    {
      if rawSize < 241 {
        return false;
      }
      hide *;
      var f := Parse(h, raw[..rawSize]);
      TakeNumbers(f);
      TakeAddresses(f);
      TakeRest(f);
      return true;
    }

    method TakeNumbers(f: Fixed)
      modifies this`op, this`htype, this`hlen, this`hops, this`xid, this`secs, this`flags
      ensures op == f.op && htype == f.htype && hlen == f.hlen && hops == f.hops && xid == f.xid && secs == f.secs && flags == f.flags
    {
      op, htype, hlen, hops, xid, secs, flags := f.op, f.htype, f.hlen, f.hops, f.xid, f.secs, f.flags;
    }

    method TakeAddresses(f: Fixed)
      modifies this`ciaddr, this`yiaddr, this`siaddr, this`giaddr
      ensures ciaddr == f.ciaddr && yiaddr == f.yiaddr && siaddr == f.siaddr && giaddr == f.giaddr
    {
      ciaddr, yiaddr, siaddr, giaddr := f.ciaddr, f.yiaddr, f.siaddr, f.giaddr;
    }

    method TakeRest(f: Fixed)
      requires rawSize >= 236 && op == f.op && htype == f.htype && hlen == f.hlen && hops == f.hops && xid == f.xid
      requires secs == f.secs && flags == f.flags
      requires ciaddr == f.ciaddr && yiaddr == f.yiaddr && siaddr == f.siaddr && giaddr == f.giaddr
      modifies this`chaddr, this`sname, this`file, this`option, this`optionSize
      ensures View() == f && option == Ptr(raw, 236) && optionSize == rawSize - 236
    {
      chaddr, sname, file := f.chaddr, f.sname, f.file;
      option := Ptr(raw, 236);
      optionSize := rawSize - 236;
    }

    // The scan that dhcp_option_message_type and dhcp_option_long share.
    method Find(tag: byte, ghost o: seq<byte>) returns (r: Scan)
      requires Finds(option, o) && |o| == optionSize >= 4
      ensures r == Ask(o, tag)
    {
      if option.buf[option.at..option.at + 4] != COOKIE {
        assert o[..4] == option.buf[option.at..option.at + 4];
        return Absent;
      }
      assert o[..4] == COOKIE;
      hide Finds;
      var i := 4;
      while i < optionSize
        invariant i >= 4 && ScanFrom(o, i, tag) == ScanFrom(o, 4, tag)
        decreases optionSize - i
      {
        var done;
        done, r, i := Visit(i, tag, o);
        if done {
          return;
        }
      }
      return Absent;
    }

    // The body of the loop.
    method Visit(i: nat, tag: byte, ghost o: seq<byte>) returns (done: bool, r: Scan, next: nat)
      requires Finds(option, o) && |o| == optionSize && i < optionSize
      ensures if done then ScanFrom(o, i, tag) == r else next > i && ScanFrom(o, i, tag) == ScanFrom(o, next, tag)
    {
      var x := Peek(i, o);
      if x == tag {
        return true, At(i), i;
      }
      var j := if x == PAD then i + 1 else i;
      if j >= optionSize {
        return true, Beyond, i;
      }
      x := Peek(j, o);
      if x == END {
        return true, Absent, i;
      }
      if j + 1 >= optionSize {
        return true, Beyond, i;
      }
      x := Peek(j + 1, o);
      return false, Absent, j + 2 + x;
    }

    method Peek(i: nat, ghost o: seq<byte>) returns (x: byte)
      requires Finds(option, o) && i < |o|
      ensures x == o[i]
    {
      return option.buf[option.at + i];
    }

    // dhcp_option_message_type
    method MessageType(ghost o: seq<byte>) returns (r: Answer)
      requires Finds(option, o) && |o| == optionSize >= 4
      ensures r == TypeOf(o)
    {
      var p := Find(MESSAGE_TYPE, o);
      match p {
        case Absent => return Missing;
        case Beyond => return OutOfData;
        case At(i) =>
          if i + 2 < optionSize {
            return Value(option.buf[option.at + i + 2]);
          }
          return OutOfData;
      }
    }

    // dhcp_option_long, for dhcp_option_ip_lease_time and dhcp_option_server_identifier
    method OptionLong(h: Host, tag: byte, ghost o: seq<byte>) returns (r: Answer)
      requires Finds(option, o) && |o| == optionSize >= 4
      ensures r == LongOf(o, tag)
    {
      var p := Find(tag, o);
      match p {
        case Absent => return Missing;
        case Beyond => return OutOfData;
        case At(i) =>
          if i + 6 <= optionSize {
            LoadedNetwork(h, o, i + 2);
            var s := option.buf[option.at..option.at + optionSize];
            return Value(Htonl(h, Loaded32(h, s, i + 2)));
          }
          return OutOfData;
      }
    }
  }

  lemma OffersEncoded(items: seq<Item>, tail: seq<byte>)
    requires WellFormed(items)
    ensures var s := OptionField(items, tail);
            && (FirstSeen(items, 53).None? ==> TypeOf(s) == Missing)
            && (forall body: seq<byte> :: Answers(items, 53, body) && |body| >= 1 ==> TypeOf(s) == Value(body[0]))
            && (FirstSeen(items, 51).None? ==> LongOf(s, 51) == Missing)
            && (forall body: seq<byte> :: Answers(items, 51, body) && |body| >= 4 ==> LongOf(s, 51) == Value(Br32(body, 0)))
  {
    TypeEncoded(items, tail);
    LongEncoded(items, tail, LEASE_TIME);
  }

  // Main result over the whole way: a message packed on one host and unpacked on another
  // keeps its fields, as far as the receiver hears them, and its options answer the same.
  method PackUnpack(m: Message, hm: Host, g: Message, hg: Host, ghost items: seq<Item>, ghost tail: seq<byte>)
    returns (ok: bool, kind: Answer, lease: Answer)
    requires m != g && WellFormed(items) && Finds(m.option, OptionField(items, tail)) && m.optionSize == |OptionField(items, tail)|
    requires m.option.buf != m.raw && 236 + m.optionSize <= m.rawSize <= m.raw.Length && g.raw == m.raw
    modifies m, g, m.raw
    ensures ok && g.View() == Heard(hg, old(m.View())) && Finds(g.option, OptionField(items, tail))
    ensures FirstSeen(items, 53).None? ==> kind == Missing
    ensures forall body: seq<byte> :: Answers(items, 53, body) && |body| >= 1 ==> kind == Value(body[0])
    ensures FirstSeen(items, 51).None? ==> lease == Missing
    ensures forall body: seq<byte> :: Answers(items, 51, body) && |body| >= 4 ==> lease == Value(Br32(body, 0))
  {
    assert LEASE_TIME == 51;
    hide *;
    ghost var o, f, s0 := OptionField(items, tail), m.View(), m.raw[..];
    ok := m.Pack(hm, o);
    Arrived(s0, f, o, hg);
    g.rawSize := m.rawSize;
    ok := g.Unpack(hg);
    Found(g.option, g.raw[..g.rawSize], o);
    kind := g.MessageType(o);
    lease := g.OptionLong(hg, LEASE_TIME, o);
    OffersEncoded(items, tail);
  }

  lemma Arrived(s0: seq<byte>, f: Fixed, o: seq<byte>, h: Host)
    requires 236 + |o| <= |s0|
    ensures var s := Overwrite(s0, 0, Image(f) + o)[..236 + |o|];
            Parse(h, s) == Heard(h, f) && InSeq(s, 236, o)
  {
    hide Image, Parse, Heard;
    assert Overwrite(s0, 0, Image(f) + o)[..236 + |o|] == Image(f) + o;
    ParseImage(h, f, o);
  }
}
