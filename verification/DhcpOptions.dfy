// DHCP options (RFC 2132) and the scan of dts_net_dhcp.c over them.
module DhcpOptions {
  import opened Bytes

  const PAD: byte := 0
  const END: byte := 255
  const MESSAGE_TYPE: byte := 53
  const LEASE_TIME: byte := 51
  const COOKIE: seq<byte> := [99, 130, 83, 99]

  datatype Item = Pad | Opt(tag: byte, body: seq<byte>)

  ghost predicate WellFormed(items: seq<Item>) {
    && (forall i :: 0 <= i < |items| && items[i].Opt? ==>
          items[i].tag != PAD && items[i].tag != END && |items[i].body| < 0x100)
    && (forall i :: 0 <= i < |items| - 1 && items[i].Pad? ==> items[i + 1].Opt?)
  }

  function EncodeItem(x: Item): (s: seq<byte>)
    requires x.Opt? ==> |x.body| < 0x100
    ensures |s| == if x.Pad? then 1 else 2 + |x.body|
  {
    if x.Pad? then [PAD] else [x.tag, |x.body|] + x.body
  }

  function Encode(items: seq<Item>): seq<byte>
    requires WellFormed(items)
  {
    if items == [] then [] else EncodeItem(items[0]) + Encode(items[1..])
  }

  // The layout of RFC 2132, section 2: a PAD is a zero octet, any other option its tag, its
  // length and its body.
  lemma ItemOctets(x: Item)
    requires x.Opt? ==> |x.body| < 0x100
    ensures var e := EncodeItem(x);
            match x
            case Pad => e == [0]
            case Opt(tag, body) => |e| == 2 + |body| && e[0] == tag && e[1] == |body| && e[2..] == body
  {
  }

  // Where the scan stops: at a matching option, without one, or where the source would
  // read past the data.
  datatype Scan = At(pos: nat) | Absent | Beyond

  function ScanFrom(s: seq<byte>, i: nat, tag: byte): Scan
    decreases |s| - i
  {
    if i >= |s| then Absent
    else if s[i] == tag then At(i)
    else
      var j := if s[i] == PAD then i + 1 else i;
      if j >= |s| then Beyond
      else if s[j] == END then Absent
      else if j + 1 >= |s| then Beyond
      else ScanFrom(s, j + 2 + s[j + 1], tag)
  }

  // On any bytes: whatever follows a PAD is taken for a tag that does not match, with a
  // length behind it, unless it is END; a second PAD is, too.
  lemma PadSkips(s: seq<byte>, i: nat, tag: byte)
    requires i + 2 < |s| && s[i] == 0 && tag != 0
    ensures ScanFrom(s, i, tag) == if s[i + 1] == 255 then Absent else ScanFrom(s, i + 3 + s[i + 2], tag)
  {
  }

  // The first option with the tag, and the first one the scan looks at: an option right
  // after a PAD is passed over.
  function First(items: seq<Item>, tag: byte): (r: Option<nat>)
    ensures r.Some? ==> r.value < |items|
  {
    if items == [] then None
    else if items[0].Opt? && items[0].tag == tag then Some(0)
    else Later(First(items[1..], tag), 1)
  }

  function FirstSeen(items: seq<Item>, tag: byte): (r: Option<nat>)
    ensures r.Some? ==> r.value < |items|
  {
    if items == [] then None
    else if items[0].Pad? then (if |items| == 1 then None else Later(FirstSeen(items[2..], tag), 2))
    else if items[0].tag == tag then Some(0)
    else Later(FirstSeen(items[1..], tag), 1)
  }

  function Later(r: Option<nat>, n: nat): Option<nat> {
    if r.None? then None else Some(r.value + n)
  }

  // Where item k starts.
  function Position(items: seq<Item>, k: nat): nat
    requires WellFormed(items) && k <= |items|
  {
    if k == 0 then 0 else |EncodeItem(items[0])| + Position(items[1..], k - 1)
  }

  function Stops(r: Option<nat>, items: seq<Item>, base: nat): Scan
    requires WellFormed(items) && (r.Some? ==> r.value < |items|)
  {
    if r.None? then Absent else At(base + Position(items, r.value))
  }

  // The options with END and whatever follows it.
  function Closed(items: seq<Item>, tail: seq<byte>): (s: seq<byte>)
    requires WellFormed(items)
    ensures s != []
  {
    Encode(items) + [END] + tail
  }

  lemma ClosedStep(items: seq<Item>, tail: seq<byte>)
    requires WellFormed(items) && items != []
    ensures WellFormed(items[1..]) && Closed(items, tail) == EncodeItem(items[0]) + Closed(items[1..], tail)
  {
  }

  // ----- what one round of the scan does after pre -----

  lemma ScanEnd(pre: seq<byte>, items: seq<Item>, tail: seq<byte>, tag: byte)
    requires items == [] && tag != END && tag != PAD
    ensures ScanFrom(pre + Closed(items, tail), |pre|, tag) == Absent
    ensures ScanFrom(pre + ([PAD] + Closed(items, tail)), |pre|, tag) == Absent
  {
    assert (pre + Closed(items, tail))[|pre|] == END;
    var s := pre + ([PAD] + Closed(items, tail));
    assert s[|pre|] == PAD && s[|pre| + 1] == END;
  }

  lemma ScanHit(pre: seq<byte>, x: Item, r: seq<byte>, tag: byte)
    requires x.Opt? && |x.body| < 0x100 && x.tag == tag
    ensures ScanFrom(pre + (EncodeItem(x) + r), |pre|, tag) == At(|pre|)
  {
    assert (pre + (EncodeItem(x) + r))[|pre|] == tag;
  }

  lemma ScanMiss(pre: seq<byte>, x: Item, r: seq<byte>, tag: byte)
    requires x.Opt? && x.tag != PAD && x.tag != END && |x.body| < 0x100 && x.tag != tag
    ensures ScanFrom(pre + (EncodeItem(x) + r), |pre|, tag) == ScanFrom((pre + EncodeItem(x)) + r, |pre + EncodeItem(x)|, tag)
  {
    var e := EncodeItem(x);
    var s := pre + (e + r);
    assert s == (pre + e) + r;
    assert s[|pre|] == e[0] && s[|pre| + 1] == e[1];
  }

  // A PAD, and with it the option after it.
  lemma ScanPad(pre: seq<byte>, x: Item, r: seq<byte>, tag: byte)
    requires x.Opt? && x.tag != END && |x.body| < 0x100 && tag != PAD
    ensures var q := pre + [PAD] + EncodeItem(x);
            ScanFrom(pre + ([PAD] + (EncodeItem(x) + r)), |pre|, tag) == ScanFrom(q + r, |q|, tag)
  {
    var e := EncodeItem(x);
    var s := pre + ([PAD] + (e + r));
    assert s == (pre + [PAD] + e) + r;
    assert s[|pre|] == PAD && s[|pre| + 1] == e[0] && s[|pre| + 2] == e[1];
  }

  // Main result: the scan inverts encoding, for any options and anything before and after
  // them, except that an option right after a PAD is passed over.
  lemma {:induction false} ScanEncoded(pre: seq<byte>, items: seq<Item>, tail: seq<byte>, tag: byte)
    requires WellFormed(items) && tag != END && tag != PAD
    ensures ScanFrom(pre + Closed(items, tail), |pre|, tag) == Stops(FirstSeen(items, tag), items, |pre|)
    decreases |items|
  {
    hide ScanFrom, Closed, EncodeItem, Encode;
    if items == [] {
      ScanEnd(pre, items, tail, tag);
    } else {
      ClosedStep(items, tail);
      var x, r := items[0], Closed(items[1..], tail);
      if x.Pad? {
        ScanEncodedPad(pre, items, tail, tag);
      } else if x.tag == tag {
        ScanHit(pre, x, r, tag);
      } else {
        ScanMiss(pre, x, r, tag);
        ScanEncoded(pre + EncodeItem(x), items[1..], tail, tag);
      }
    }
  }

  lemma {:induction false} ScanEncodedPad(pre: seq<byte>, items: seq<Item>, tail: seq<byte>, tag: byte)
    requires WellFormed(items) && tag != END && tag != PAD && items != [] && items[0].Pad?
    ensures ScanFrom(pre + Closed(items, tail), |pre|, tag) == Stops(FirstSeen(items, tag), items, |pre|)
    decreases |items|, 0
  {
    hide ScanFrom, Closed, Encode;
    ClosedStep(items, tail);
    assert EncodeItem(items[0]) == [PAD];
    if |items| == 1 {
      ScanEnd(pre, items[1..], tail, tag);
    } else {
      var x := items[1];
      ClosedStep(items[1..], tail);
      assert items[1..][1..] == items[2..];
      ScanPad(pre, x, Closed(items[2..], tail), tag);
      ScanEncoded(pre + [PAD] + EncodeItem(x), items[2..], tail, tag);
      PositionPad(items, tag);
    }
  }

  lemma PositionPad(items: seq<Item>, tag: byte)
    requires WellFormed(items) && |items| >= 2 && items[0].Pad?
    ensures WellFormed(items[2..])
    ensures forall k :: 0 <= k <= |items| - 2 ==> Position(items, k + 2) == 1 + |EncodeItem(items[1])| + Position(items[2..], k)
  {
    assert items[1..][1..] == items[2..];
    forall k | 0 <= k <= |items| - 2 ensures Position(items, k + 2) == 1 + |EncodeItem(items[1])| + Position(items[2..], k) {
      assert Position(items, k + 2) == 1 + Position(items[1..], k + 1);
    }
  }

  // ----- what the scan finds -----

  ghost predicate Matches(x: Item, tag: byte) {
    x.Opt? && x.tag == tag
  }

  lemma {:induction false} FirstIsFirst(items: seq<Item>, tag: byte)
    ensures var r := First(items, tag);
            if r.None? then forall i :: 0 <= i < |items| ==> !Matches(items[i], tag)
            else Matches(items[r.value], tag) && forall i :: 0 <= i < r.value ==> !Matches(items[i], tag)
    decreases |items|
  {
    if items != [] && !Matches(items[0], tag) {
      FirstIsFirst(items[1..], tag);
      assert forall i :: 0 < i < |items| ==> items[i] == items[1..][i - 1];
    }
  }

  // The scan meets RFC 2132 exactly when the wanted option is missing, stands first or does
  // not come right after a PAD.
  lemma {:induction false} ScanRightIff(items: seq<Item>, tag: byte)
    requires WellFormed(items)
    ensures var r := First(items, tag);
            FirstSeen(items, tag) == r <==> (r.None? || r.value == 0 || items[r.value - 1].Opt?)
    decreases |items|
  {
    if items == [] {
    } else if items[0].Pad? {
      if |items| > 1 {
        assert items[1..][1..] == items[2..];
        ScanRightIff(items[2..], tag);
      }
    } else if items[0].tag != tag {
      ScanRightIff(items[1..], tag);
    }
  }

  // An option of each kind with a PAD before the wanted one, which the scan does not find.
  lemma PadHidesOption()
    ensures var items := [Pad, Opt(MESSAGE_TYPE, [2])];
            && WellFormed(items) && First(items, MESSAGE_TYPE) == Some(1)
            && ScanFrom(Closed(items, []), 0, MESSAGE_TYPE) == Absent
  {
    var items := [Pad, Opt(MESSAGE_TYPE, [2])];
    ScanEncoded([], items, [], MESSAGE_TYPE);
    assert [] + Closed(items, []) == Closed(items, []);
    FirstIsFirst(items, MESSAGE_TYPE);
    assert items[2..] == [];
  }

  // At the position of an item its encoding is found.
  lemma {:induction false} ItemAt(items: seq<Item>, tail: seq<byte>, k: nat)
    requires WellFormed(items) && k < |items|
    ensures var p, e := Position(items, k), EncodeItem(items[k]);
            p + |e| < |Closed(items, tail)| && Closed(items, tail)[p..p + |e|] == e
    decreases k
  {
    hide Closed, Encode, EncodeItem;
    ClosedStep(items, tail);
    var e0, r := EncodeItem(items[0]), Closed(items[1..], tail);
    if k > 0 {
      ItemAt(items[1..], tail, k - 1);
      SliceAfter(e0, r, Position(items[1..], k - 1), |EncodeItem(items[k])|);
    } else {
      SliceBefore(e0, r);
    }
  }

  lemma SliceAfter(a: seq<byte>, b: seq<byte>, p: nat, n: nat)
    requires p + n <= |b|
    ensures (a + b)[|a| + p..|a| + p + n] == b[p..p + n]
  {
  }

  lemma SliceBefore(a: seq<byte>, b: seq<byte>)
    ensures (a + b)[0..|a|] == a
  {
  }
}
