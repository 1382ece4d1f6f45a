// Reading, writing and joining whole blocks of real nodes.
module DblkOps {
  import opened Bytes
  import opened Dblk
  import opened FragmentSpec

  // A block of real nodes with chunks cs; other nodes may follow it.
  ghost predicate RealBlock(ns: seq<Node>, cs: seq<seq<byte>>)
    reads ns, set n | n in ns :: n.data
  {
    Holds(ns, cs) && Block(ns) && AllReal(ns)
  }

  // dblk_copy_to: the first min(size, total) bytes of the block.
  method CopyTo(d: Node, mem: array<byte>, pos: nat, size: nat, ghost ns: seq<Node>, ghost cs: seq<seq<byte>>)
    returns (done: nat)
    requires RealBlock(ns, cs) && d == ns[0] && Avoids(ns, mem) && pos + size <= mem.Length
    modifies mem
    ensures done == Min(size, |Flatten(cs)|)
    ensures mem[..] == Overwrite(old(mem[..]), pos, Flatten(cs)[..done])
  {
    ghost var s0, goal := mem[..], Flatten(cs)[..Min(size, |Flatten(cs)|)];
    ReadOnFlat(cs, 0, size);
    assert cs[0..] == cs && goal[0..] == goal && goal[..0] == [];
    assert Overwrite(s0, pos, []) == s0;
    done := CopyNodes(d, mem, pos, size, ns, cs, s0, goal);
  }

  method CopyNodes(d: Node, mem: array<byte>, pos: nat, size: nat, ghost ns: seq<Node>, ghost cs: seq<seq<byte>>,
                   ghost s0: seq<byte>, ghost goal: seq<byte>)
    returns (done: nat)
    requires RealBlock(ns, cs) && d == ns[0] && Avoids(ns, mem) && goal[0..] == ReadOn(cs, 0, size)
    requires pos + |goal| <= mem.Length == |s0| && mem[..] == Overwrite(s0, pos, goal[..0])
    modifies mem
    ensures done == |goal| && mem[..] == Overwrite(s0, pos, goal)
  {
    var p, remain := d, size;
    done := 0;
    ghost var j := 0;
    while true
      invariant j < |ns| && p == ns[j] && Holds(ns, cs) && remain >= 0
      invariant 0 <= done <= |goal| && goal[done..] == ReadOn(cs, j, remain)
      invariant mem[..] == Overwrite(s0, pos, goal[..done])
      decreases |ns| - j
    {
      var doSize := CopyOne(p, mem, pos, done, remain, ns, cs, j, s0, goal);
      done := done + doSize;
      remain := remain - doSize;
      if remain == 0 || !p.more {
        return;
      }
      p := p.next;
      j := j + 1;
    }
  }

  // What the chunks become when w is written over the block from chunk j on.
  function Spread(cs: seq<seq<byte>>, w: seq<byte>): (r: seq<seq<byte>>)
    ensures |r| == |cs|
  {
    if cs == [] then []
    else
      var k := Min(|w|, |cs[0]|);
      [w[..k] + cs[0][k..]] + Spread(cs[1..], w[k..])
  }

  // Writing over the chunks is writing over the flat bytes.
  lemma {:induction false} SpreadFlat(cs: seq<seq<byte>>, w: seq<byte>)
    ensures var f := Flatten(cs); Flatten(Spread(cs, w)) == w[..Min(|w|, |f|)] + f[Min(|w|, |f|)..]
    decreases |cs|
  {
    if cs != [] {
      var k := Min(|w|, |cs[0]|);
      SpreadFlat(cs[1..], w[k..]);
      var r := Spread(cs, w);
      assert r[0] == w[..k] + cs[0][k..] && r[1..] == Spread(cs[1..], w[k..]);
      SpreadStep(cs[0], Flatten(cs[1..]), w);
    }
  }

  lemma SpreadStep(c: seq<byte>, f1: seq<byte>, w: seq<byte>)
    ensures var k, v := Min(|w|, |c|), w[Min(|w|, |c|)..];
            var m, n := Min(|v|, |f1|), Min(|w|, |c + f1|);
            (w[..k] + c[k..]) + (v[..m] + f1[m..]) == w[..n] + (c + f1)[n..]
  {
    if |w| <= |c| {
      DropAppend(c, f1, |w|);
      assert w[|w|..] == [] && f1[0..] == f1;
      assert (w + c[|w|..]) + f1 == w + (c[|w|..] + f1);
      assert w[..|w|] == w;
    } else {
      var m := Min(|w| - |c|, |f1|);
      DropPast(c, f1, m);
      SliceTake(w, |c|, |w| - |c|, m);
      assert c[|c|..] == [] && w[..|c|] + w[|c|..|c| + m] == w[..|c| + m];
    }
  }

  // After writing w, the first bytes read are w.
  lemma WriteThenRead(cs: seq<seq<byte>>, w: seq<byte>)
    ensures var k := Min(|w|, |Flatten(cs)|);
            && |Flatten(Spread(cs, w))| == |Flatten(cs)|
            && Flatten(Spread(cs, w))[..k] == w[..k] && Flatten(Spread(cs, w))[k..] == Flatten(cs)[k..]
  {
    SpreadFlat(cs, w);
  }

  // No two nodes of the block share a buffer.
  ghost predicate OwnBuffers(ns: seq<Node>)
    reads ns
  {
    forall i, j :: 0 <= i < j < |ns| ==> ns[i].data != ns[j].data
  }

  // The bytes of each buffer before and behind the node's own.
  ghost predicate Margins(ns: seq<Node>, ms: seq<(seq<byte>, seq<byte>)>)
    reads ns, set n | n in ns :: n.data
  {
    |ms| == |ns| && forall i :: 0 <= i < |ns| ==>
                      InBounds(ns[i]) && ns[i].data[..ns[i].at] == ms[i].0 && ns[i].data[ns[i].at + ns[i].size..] == ms[i].1
  }

  // The first j chunks have been written over with the start of w, the others not yet.
  function Partial(cs: seq<seq<byte>>, w: seq<byte>, j: nat): (r: seq<seq<byte>>)
    requires j <= |cs|
    ensures |r| == |cs|
  {
    Spread(cs, w)[..j] + cs[j..]
  }

  // Chunk j after writing.
  lemma {:induction false} SpreadAt(cs: seq<seq<byte>>, w: seq<byte>, j: nat)
    requires j < |cs|
    ensures var v := w[Min(Start(cs, j), |w|)..];
            var k := Min(|v|, |cs[j]|);
            Spread(cs, w)[j] == v[..k] + cs[j][k..] && |Spread(cs, w)[j]| == |cs[j]|
    decreases |cs|
  {
    if j > 0 {
      var k := Min(|w|, |cs[0]|);
      SpreadAt(cs[1..], w[k..], j - 1);
      StartTail(cs, j);
      var t := Start(cs[1..], j - 1);
      assert w[k..][Min(t, |w| - k)..] == w[Min(Start(cs, j), |w|)..];
    } else {
      assert w[0..] == w;
    }
  }

  lemma {:induction false} StartTail(cs: seq<seq<byte>>, j: nat)
    requires 0 < j <= |cs|
    ensures Start(cs, j) == |cs[0]| + Start(cs[1..], j - 1)
    decreases j
  {
    if j > 1 {
      StartTail(cs, j - 1);
    } else {
      assert Start(cs, 1) == Start(cs, 0) + |cs[0]|;
    }
  }

  // One memcpy into a node: k bytes of w from position `from` on.
  method WriteNode(p: Node, mem: array<byte>, from: nat, k: nat, ghost ns: seq<Node>, ghost cs: seq<seq<byte>>, ghost j: nat,
                   ghost c: seq<byte>, ghost ms: seq<(seq<byte>, seq<byte>)>)
    requires Margins(ns, ms)
    requires Holds(ns, cs) && OwnBuffers(ns) && Avoids(ns, mem) && j < |ns| && p == ns[j] && k <= p.size && from + k <= mem.Length
    requires c == mem[from..from + k] + cs[j][k..]
    modifies p.data
    ensures Holds(ns, cs[j := c]) && Margins(ns, ms)
  {
    hide Overwrite, Flatten, Margins;
    OverwriteSlice(p.data[..], p.at, p.size, mem[from..from + k]);
    WriteInside(p, mem, from, k, ns, j, ms);
    forall i | 0 <= i < |ns| && i != j ensures InBounds(ns[i]) && BytesOf(ns[i]) == cs[i] {
      assert ns[i].data != p.data;
    }
    assert BytesOf(p) == p.data[..][p.at..p.at + p.size];
  }

  // The memcpy leaves the margins alone.
  method WriteInside(p: Node, mem: array<byte>, from: nat, k: nat, ghost ns: seq<Node>, ghost j: nat,
                     ghost ms: seq<(seq<byte>, seq<byte>)>)
    requires Margins(ns, ms) && OwnBuffers(ns) && j < |ns| && p == ns[j] && InBounds(p) && k <= p.size
    requires mem != p.data && from + k <= mem.Length
    modifies p.data
    ensures p.data[..] == Overwrite(old(p.data[..]), p.at, mem[from..from + k]) && Margins(ns, ms)
  {
    hide Overwrite;
    ghost var s0, w := p.data[..], mem[from..from + k];
    OverwriteSlice(s0, p.at, p.size, w);
    assert s0[..p.at] == ms[j].0 && s0[p.at + p.size..] == ms[j].1;
    MemCpy(p.data, p.at, mem, from, k);
    assert p.data[..][..p.at] == p.data[..p.at] && p.data[..][p.at + p.size..] == p.data[p.at + p.size..];
    forall i | 0 <= i < |ns| && i != j ensures ns[i].data != p.data {
    }
  }

  lemma OverwriteSlice(s: seq<byte>, at: nat, size: nat, w: seq<byte>)
    requires at + size <= |s| && |w| <= size
    ensures Overwrite(s, at, w)[at..at + size] == w + s[at..at + size][|w|..]
    ensures Overwrite(s, at, w)[..at] == s[..at] && Overwrite(s, at, w)[at + size..] == s[at + size..]
  {
  }

  lemma PartialStep(cs: seq<seq<byte>>, w: seq<byte>, j: nat)
    requires j < |cs|
    ensures Partial(cs, w, j)[j] == cs[j] && Partial(cs, w, j)[j := Spread(cs, w)[j]] == Partial(cs, w, j + 1)
  {
  }

  lemma PartialEnd(cs: seq<seq<byte>>, w: seq<byte>, j: nat)
    requires j <= |cs| && (j == |cs| || Start(cs, j) >= |w|)
    ensures Partial(cs, w, j) == Spread(cs, w)
  {
    hide Spread, Start;
    forall i | j <= i < |cs| ensures Spread(cs, w)[i] == cs[i] {
      SpreadAt(cs, w, i);
      StartMono(cs, j, i);
    }
  }

  // What a round of the copy takes: k bytes of w for chunk j.
  lemma CopyStep(cs: seq<seq<byte>>, w: seq<byte>, j: nat, done: nat)
    requires j < |cs| && done == Min(Start(cs, j), |w|)
    ensures var k := Min(|w| - done, |cs[j]|);
            && Spread(cs, w)[j] == w[done..done + k] + Partial(cs, w, j)[j][k..]
            && done + k == Min(Start(cs, j + 1), |w|)
            && Partial(cs, w, j)[j := Spread(cs, w)[j]] == Partial(cs, w, j + 1)
            && Partial(cs, w, j)[j] == cs[j]
  {
    SpreadAt(cs, w, j);
    PartialStep(cs, w, j);
    assert Start(cs, j + 1) == Start(cs, j) + |cs[j]|;
    hide Spread, Partial, Start;
    var k := Min(|w| - done, |cs[j]|);
    SliceTake(w, done, k, k);
  }

  method CopyFromNode(p: Node, mem: array<byte>, pos: nat, done: nat, remain: nat, ghost ns: seq<Node>,
                      ghost cs: seq<seq<byte>>, ghost w: seq<byte>, ghost j: nat, ghost ms: seq<(seq<byte>, seq<byte>)>)
    returns (doSize: nat)
    requires Margins(ns, ms)
    requires OwnBuffers(ns) && Avoids(ns, mem) && j < |ns| == |cs| && p == ns[j] && Holds(ns, Partial(cs, w, j))
    requires pos + |w| <= mem.Length && mem[pos..pos + |w|] == w && done == Min(Start(cs, j), |w|) && remain == |w| - done
    modifies p.data
    ensures doSize == Min(remain, |cs[j]|) && done + doSize == Min(Start(cs, j + 1), |w|)
    ensures Holds(ns, Partial(cs, w, j + 1)) && mem[pos..pos + |w|] == w && Margins(ns, ms)
  {
    CopyStep(cs, w, j, done);
    doSize := if remain > p.size then p.size else remain;
    WriteSlice(p, mem, pos, done, doSize, ns, Partial(cs, w, j), j, w, Spread(cs, w)[j], ms);
  }

  // WriteNode, with the bytes named as a slice of w, which mem holds at pos.
  method WriteSlice(p: Node, mem: array<byte>, pos: nat, done: nat, k: nat, ghost ns: seq<Node>, ghost cs: seq<seq<byte>>,
                    ghost j: nat, ghost w: seq<byte>, ghost c: seq<byte>, ghost ms: seq<(seq<byte>, seq<byte>)>)
    requires Margins(ns, ms)
    requires Holds(ns, cs) && OwnBuffers(ns) && Avoids(ns, mem) && j < |ns| && p == ns[j] && k <= p.size
    requires pos + |w| <= mem.Length && mem[pos..pos + |w|] == w && done + k <= |w| && c == w[done..done + k] + cs[j][k..]
    modifies p.data
    ensures Holds(ns, cs[j := c]) && mem[pos..pos + |w|] == w && Margins(ns, ms)
  {
    SliceSlice(mem[..], pos, |w|, done, k);
    WriteNode(p, mem, pos + done, k, ns, cs, j, c, ms);
  }

  // dblk_copy_from: size bytes of mem over the block, as far as it goes, and nothing beside it.
  method CopyFrom(d: Node, mem: array<byte>, pos: nat, size: nat, ghost ns: seq<Node>, ghost cs: seq<seq<byte>>,
                  ghost bufs: set<array<byte>>, ghost ms: seq<(seq<byte>, seq<byte>)>)
    returns (done: nat)
    requires Margins(ns, ms)
    requires RealBlock(ns, cs) && OwnBuffers(ns) && d == ns[0] && pos + size <= mem.Length
    requires mem !in bufs && forall i :: 0 <= i < |ns| ==> ns[i].data in bufs
    modifies bufs
    ensures done == Min(size, Total(cs))
    ensures Holds(ns, Spread(cs, mem[pos..pos + size])) && Margins(ns, ms)
  {
    ghost var w := mem[pos..pos + size];
    PartialStart(cs, w);
    done := CopyFromNodes(d, mem, pos, size, ns, cs, bufs, w, ms);
  }

  lemma PartialStart(cs: seq<seq<byte>>, w: seq<byte>)
    ensures Partial(cs, w, 0) == cs
  {
  }

  method CopyFromNodes(d: Node, mem: array<byte>, pos: nat, size: nat, ghost ns: seq<Node>, ghost cs: seq<seq<byte>>,
                       ghost bufs: set<array<byte>>, ghost w: seq<byte>, ghost ms: seq<(seq<byte>, seq<byte>)>)
    returns (done: nat)
    requires Margins(ns, ms)
    requires Block(ns) && |cs| == |ns| && Holds(ns, Partial(cs, w, 0)) && OwnBuffers(ns) && d == ns[0]
    requires pos + size <= mem.Length && mem !in bufs && forall i :: 0 <= i < |ns| ==> ns[i].data in bufs
    requires |w| == size && mem[pos..pos + size] == w
    modifies bufs
    ensures done == Min(size, Total(cs)) && Holds(ns, Spread(cs, w)) && Margins(ns, ms)
  {
    var p, remain := d, size;
    done := 0;
    ghost var j := 0;
    while true
      invariant j < |ns| && p == ns[j] && Holds(ns, Partial(cs, w, j)) && mem[pos..pos + size] == w && Margins(ns, ms)
      invariant remain == size - done && done == Min(Start(cs, j), |w|)
      decreases |ns| - j
    {
      var doSize := CopyFromNode(p, mem, pos, done, remain, ns, cs, w, j, ms);
      done := done + doSize;
      remain := remain - doSize;
      if remain == 0 || !p.more {
        CopyEnds(cs, w, j, done);
        return;
      }
      p := p.next;
      j := j + 1;
    }
  }

  lemma CopyEnds(cs: seq<seq<byte>>, w: seq<byte>, j: nat, done: nat)
    requires j < |cs| && done == Min(Start(cs, j + 1), |w|) && (done == |w| || j == |cs| - 1)
    ensures Partial(cs, w, j + 1) == Spread(cs, w) && done == Min(|w|, Total(cs))
  {
    StartMono(cs, j + 1, |cs|);
    PartialEnd(cs, w, j + 1);
  }

  lemma SliceSlice(s: seq<byte>, pos: nat, size: nat, i: nat, k: nat)
    requires i + k <= size && pos + size <= |s|
    ensures s[pos..pos + size][i..i + k] == s[pos + i..pos + i + k]
  {
    var t := s[pos..pos + size];
    assert t[i..i + k] == t[i..][..k];
    SliceTake(s, pos + i, size - i, k);
    assert t[i..] == s[pos + i..pos + size];
  }

  // dblk_copy: one new node with the block's bytes. The node keeps its size in 16 bits, so
  // a longer block comes out cut.
  method Copy(heap: Heap, d: Node, ghost ns: seq<Node>, ghost cs: seq<seq<byte>>) returns (copy: Node)
    requires RealBlock(ns, cs) && d == ns[0]
    modifies heap
    ensures fresh(copy) && copy.nodeMalloc && copy.dataMalloc && !copy.more && copy.next == null && copy.vsize == 0
    ensures InBounds(copy) && fresh(copy.data) && BytesOf(copy) == Flatten(cs)[..|Flatten(cs)| % M16]
    ensures copy.at == 0 && copy.data.Length == |Flatten(cs)|
    ensures heap.live == old(heap.live) + {copy, copy.data}
  {
    var total := RealSize(d, ns, cs);
    copy := NewWithBuffer(heap, total);
    FillCopy(d, copy.data, copy.size, ns, cs);
  }

  // dblk_size of a block of real nodes
  method RealSize(d: Node, ghost ns: seq<Node>, ghost cs: seq<seq<byte>>) returns (size: nat)
    requires RealBlock(ns, cs) && d == ns[0]
    ensures size == |Flatten(cs)|
  {
    LengthsTotal(cs, |cs|);
    TotalFlat(cs);
    size := Size(d, ns, Lengths(cs));
  }

  // dblk_node_new_with_buff: the node keeps its size in 16 bits.
  method NewWithBuffer(heap: Heap, size: nat) returns (n: Node)
    modifies heap
    ensures fresh(n) && n.nodeMalloc && n.dataMalloc && !n.more && n.next == null && n.vsize == 0
    ensures n.data != null && fresh(n.data) && n.at == 0 && n.data.Length == size && n.size == size % M16
    ensures heap.live == old(heap.live) + {n, n.data}
  {
    var data := new byte[size];
    heap.Alloc(data);
    n := new Node(data, 0, size % M16);
    heap.Alloc(n);
    n.nodeMalloc, n.dataMalloc := true, true;
  }

  method FillCopy(d: Node, data: array<byte>, size: nat, ghost ns: seq<Node>, ghost cs: seq<seq<byte>>)
    requires RealBlock(ns, cs) && d == ns[0] && Avoids(ns, data) && size <= data.Length == |Flatten(cs)|
    modifies data
    ensures data[..size] == Flatten(cs)[..size]
  {
    ghost var s0 := data[..];
    var done := CopyTo(d, data, 0, size, ns, cs);
    assert data[..] == Flatten(cs)[..size] + s0[size..];
  }

  method LastNode(b: Node, ghost ns: seq<Node>) returns (p: Node)
    requires Block(ns) && b == ns[0]
    ensures p == ns[|ns| - 1]
  {
    p := b;
    ghost var j := 0;
    while p.more
      invariant j < |ns| && p == ns[j]
      decreases |ns| - j
    {
      assert ns[j].next == ns[j + 1];
      p := p.next;
      j := j + 1;
    }
  }

  ghost function JustThat(n: Node?): set<Node> {
    if n == null then {} else {n}
  }

  // dblk_merge: a single node goes to the end of the block, before whatever follows it.
  method Merge(b: Node, n: Node?, ghost ns: seq<Node>, ghost cs: seq<seq<byte>>, ghost c: seq<byte>)
    requires RealBlock(ns, cs) && b == ns[0] && Distinct(ns)
    requires n != null ==> n !in ns && !n.more && n.vsize == 0 && InBounds(n) && BytesOf(n) == c
    modifies ns[|ns| - 1..]`next, ns[|ns| - 1..]`more, JustThat(n)`next
    ensures n == null ==> unchanged(ns[|ns| - 1])
    ensures n != null ==> RealBlock(ns + [n], cs + [c]) && n.next == old(ns[|ns| - 1].next)
    ensures n != null ==> Flatten(cs + [c]) == Flatten(cs) + c
  {
    if n != null {
      var p := LastNode(b, ns);
      LinkAfter(p, n, ns, cs, c);
      MergedBlock(ns, n, cs, c);
      MergedBytes(cs, c);
    }
  }

  method LinkTo(p: Node, n: Node)
    requires p != n
    modifies p`next, p`more, n`next
    ensures n.next == old(p.next) && p.next == n && p.more
  {
    n.next := p.next;
    p.next := n;
    p.more := true;
  }

  method LinkAfter(p: Node, n: Node, ghost ns: seq<Node>, ghost cs: seq<seq<byte>>, ghost c: seq<byte>)
    requires RealBlock(ns, cs) && Distinct(ns) && p == ns[|ns| - 1] && n !in ns
    requires !n.more && n.vsize == 0 && InBounds(n) && BytesOf(n) == c
    modifies p`next, p`more, n`next
    ensures Holds(ns, cs) && AllReal(ns) && Links(ns) && forall i :: 0 <= i < |ns| ==> ns[i].more
    ensures p.next == n && n.next == old(p.next) && !n.more && n.vsize == 0 && InBounds(n) && BytesOf(n) == c
  {
    LinkTo(p, n);
    assert BytesOf(n) == old(BytesOf(n));
    forall i | 0 <= i < |ns| ensures InBounds(ns[i]) && BytesOf(ns[i]) == cs[i] {
      assert BytesOf(ns[i]) == old(BytesOf(ns[i]));
    }
    assert forall i :: 0 <= i < |ns| - 1 ==> ns[i] != p;
  }

  lemma MergedBlock(ns: seq<Node>, n: Node, cs: seq<seq<byte>>, c: seq<byte>)
    requires ns != [] && Holds(ns, cs) && AllReal(ns) && Links(ns) && forall i :: 0 <= i < |ns| ==> ns[i].more
    requires ns[|ns| - 1].next == n && !n.more && n.vsize == 0 && InBounds(n) && BytesOf(n) == c
    ensures RealBlock(ns + [n], cs + [c])
  {
  }

  lemma MergedBytes(cs: seq<seq<byte>>, c: seq<byte>)
    ensures Flatten(cs + [c]) == Flatten(cs) + c
  {
    FlattenAppend(cs, [c]);
    FlattenSingle(c);
  }

  // Where the offset of node i stands after seeking to k.
  function OffsetAt(cs: seq<seq<byte>>, k: nat, i: nat): nat
    requires i < |cs|
  {
    if k <= Start(cs, i) then 0 else Min(k - Start(cs, i), |cs[i]|)
  }

  method SeekNode(p: Node, offset: nat) returns (rest: nat)
    modifies p`offset
    ensures p.offset == Min(offset, p.size) && rest == offset - p.offset
  {
    if p.size > offset {
      p.offset := offset;
      rest := offset - offset;
    } else {
      p.offset := p.size;
      rest := offset - p.size;
    }
  }

  // dblk_seek
  method Seek(d: Node, k: nat, ghost ns: seq<Node>, ghost cs: seq<seq<byte>>)
    requires Sized(ns, cs) && Block(ns) && d == ns[0] && forall i, j :: 0 <= i < j < |ns| ==> ns[i] != ns[j]
    modifies ns`offset
    ensures forall i :: 0 <= i < |ns| ==> ns[i].offset == OffsetAt(cs, k, i)
  {
    var p, offset := d, k;
    ghost var j := 0;
    while true
      invariant j < |ns| && p == ns[j]
      invariant offset == if k <= Start(cs, j) then 0 else k - Start(cs, j)
      invariant forall i :: 0 <= i < j ==> ns[i].offset == OffsetAt(cs, k, i)
      decreases |ns| - j
    {
      assert Start(cs, j + 1) == Start(cs, j) + |cs[j]|;
      offset := SeekNode(p, offset);
      if !p.more {
        return;
      }
      p := p.next;
      j := j + 1;
    }
  }

  // How many bytes are unread in the nodes from i on.
  function UnreadFrom(cs: seq<seq<byte>>, k: nat, i: nat): int
    requires i <= |cs|
    decreases |cs| - i
  {
    if i == |cs| then 0 else |cs[i]| - OffsetAt(cs, k, i) + UnreadFrom(cs, k, i + 1)
  }

  // Seeking to k leaves all but the first k bytes unread; earlier nodes are full, later
  // ones untouched.
  lemma {:induction false} SeekUnread(cs: seq<seq<byte>>, k: nat, i: nat)
    requires i <= |cs|
    ensures UnreadFrom(cs, k, i) == Total(cs) - Start(cs, i) - Min(if k <= Start(cs, i) then 0 else k - Start(cs, i), Total(cs) - Start(cs, i))
    decreases |cs| - i
  {
    StartMono(cs, i, |cs|);
    if i < |cs| {
      assert Start(cs, i + 1) == Start(cs, i) + |cs[i]|;
      StartMono(cs, i + 1, |cs|);
      SeekUnread(cs, k, i + 1);
    }
  }

  lemma SeekSplits(cs: seq<seq<byte>>, k: nat, i: nat)
    requires i < |cs|
    ensures Start(cs, i + 1) <= k ==> OffsetAt(cs, k, i) == |cs[i]|
    ensures k <= Start(cs, i) ==> OffsetAt(cs, k, i) == 0
    ensures UnreadFrom(cs, k, 0) == Total(cs) - Min(k, Total(cs))
  {
    assert Start(cs, i + 1) == Start(cs, i) + |cs[i]|;
    SeekUnread(cs, k, 0);
  }
}
