// dblk_fragment: cutting a block into virtual nodes without copying.
module DblkFragment {
  import opened Bytes
  import opened Dblk
  import opened FragmentSpec

  // dblk_node_new(NULL, 0)
  method NewNode(heap: Heap) returns (f: Node)
    modifies heap
    ensures fresh(f) && Blank(f)
    ensures heap.live == old(heap.live) + {f}
  {
    f := new Node(null, 0, 0);
    f.nodeMalloc := true;
    heap.Alloc(f);
  }

  ghost predicate Blank(f: Node)
    reads f
  {
    f.next == null && f.nodeMalloc && !f.dataMalloc && !f.more && f.vsize == 0 && f.vmem == null && f.offset == 0
  }

  // A node made for a fragment, with nothing but its link set.
  ghost predicate Unset(f: Node)
    reads f
  {
    f.nodeMalloc && !f.dataMalloc && !f.more && f.vsize == 0 && f.vmem == null && f.offset == 0
  }

  ghost predicate AllUnset(fs: seq<Node>, from: nat)
    reads fs
  {
    forall i :: from <= i < |fs| ==> Unset(fs[i])
  }

  ghost function Objects(fs: seq<Node>): set<object> {
    set f | f in fs
  }

  lemma ObjectsSnoc(fs: seq<Node>, f: Node)
    ensures Objects(fs + [f]) == Objects(fs) + {f}
  {
    forall x: Node ensures x in fs + [f] <==> x in fs || x == f {
    }
  }

  // A list of blank nodes, all of them new.
  ghost predicate BlankList(fs: seq<Node>)
    reads fs
  {
    fs != [] && Links(fs) && Ends(fs) && Distinct(fs) && AllUnset(fs, 0)
  }

  // The loop that links fg_cnt blank nodes.
  method MakeList(heap: Heap, count: nat) returns (hdr: Node, ghost fs: seq<Node>)
    modifies heap
    ensures |fs| == (if count == 0 then 1 else count) && fs[0] == hdr && BlankList(fs)
    ensures fresh(fs)
    ensures heap.live == old(heap.live) + Objects(fs)
  {
    hdr := NewNode(heap);
    fs := [hdr];
    var e := hdr;
    var i := 1;
    while i < count
      invariant |fs| == i && (i == 1 || i <= count) && fs[0] == hdr && fs[i - 1] == e && BlankList(fs)
      invariant fresh(fs)
      invariant heap.live == old(heap.live) + Objects(fs)
    {
      fs := AppendNode(heap, e, fs);
      e := e.next;
      i := i + 1;
    }
  }

  method AppendNode(heap: Heap, e: Node, ghost fs: seq<Node>) returns (ghost gs: seq<Node>)
    requires BlankList(fs) && e == fs[|fs| - 1]
    modifies heap, e
    ensures BlankList(gs) && e.next != null && fresh(e.next) && gs == fs + [e.next]
    ensures heap.live == old(heap.live) + {e.next} && Objects(gs) == Objects(fs) + {e.next}
  {
    var f := NewNode(heap);
    e.next := f;
    gs := fs + [f];
    ObjectsSnoc(fs, f);
  }

  // f is fragment i of the block ns with chunks cs: it aliases the bytes from its cursor
  // on and says how many it covers.
  ghost predicate FragmentNode(f: Node, ns: seq<Node>, cs: seq<seq<byte>>, fsize: nat, i: nat)
    reads f, ns
  {
    var c := CursorAt(cs, fsize, i);
    && |ns| == |cs| && c.node < |cs| && c.off <= |cs[c.node]|
    && f.data == ns[c.node].data && f.at == ns[c.node].at + c.off && f.size == |cs[c.node]| - c.off
    && f.vsize == VSize(cs, c, fsize)
    && (if f.vsize > f.size then PointsTo(f.vmem, ns[c.node + 1..], 0) else f.vmem == null)
    && !f.more && !f.dataMalloc && f.nodeMalloc && f.offset == 0
  }

  // A block of real nodes that ends its list, known by its sizes.
  ghost predicate Source(ns: seq<Node>, cs: seq<seq<byte>>)
    reads ns
  {
    Sized(ns, cs) && Block(ns) && Ends(ns) && AllReal(ns)
  }

  // The inner loop: from dblk->next on, over whole nodes.
  method WalkNodes(first: Node?, want: nat, ghost ns: seq<Node>, ghost cs: seq<seq<byte>>, ghost from: nat)
    returns (f: Node?, remain: nat)
    requires Source(ns, cs) && PointsTo(first, ns, from) && want > 0
    ensures PointsTo(f, ns, Walk(cs, from, want).node) && remain == Walk(cs, from, want).off
    ensures f == null <==> from == |ns|
    ensures f == null ==> remain == want
  {
    f, remain := first, want;
    ghost var j := from;
    while f != null && f.size < remain
      invariant PointsTo(f, ns, j) && remain > 0
      invariant Walk(cs, j, remain) == Walk(cs, from, want)
      invariant from < |ns| ==> j < |ns|
      invariant from == |ns| ==> j == from && remain == want
      decreases |ns| - j
    {
      remain := remain - f.size;
      if !f.more {
        break;
      }
      f := f.next;
      j := j + 1;
    }
  }

  // One round of the outer loop: fill in e and move the cursor.
  method SetFragment(e: Node, dblk: Node, offset: nat, fsize: nat, ghost ns: seq<Node>, ghost cs: seq<seq<byte>>,
                     ghost i: nat)
    returns (nextDblk: Node?, nextOffset: nat)
    requires Source(ns, cs) && 0 < fsize < M16 && Unset(e) && e !in ns
    requires var c := CursorAt(cs, fsize, i);
             c.node < |ns| && dblk == ns[c.node] && offset == c.off && c.off <= |cs[c.node]|
    modifies e
    ensures FragmentNode(e, ns, cs, fsize, i) && e.next == old(e.next)
    ensures var d := CursorAt(cs, fsize, i + 1); PointsTo(nextDblk, ns, d.node) && nextOffset == d.off
  {
    ghost var c := CursorAt(cs, fsize, i);
    assert CursorAt(cs, fsize, i + 1) == NextCursor(cs, c, fsize);
    var vmem, vsize := null, fsize;
    if dblk.size > offset + fsize {
      nextDblk, nextOffset := dblk, offset + fsize;
    } else if dblk.size < offset + fsize {
      vmem := dblk.next;
      nextDblk, nextOffset := WalkNodes(vmem, offset + fsize - dblk.size, ns, cs, c.node + 1);
      if nextDblk == null {
        vsize := vsize - nextOffset;
      }
    } else {
      nextDblk, nextOffset := dblk.next, 0;
    }
    e.data, e.at, e.size := dblk.data, dblk.at + offset, dblk.size - offset;
    e.vsize, e.vmem := vsize, vmem;
  }

  // dblk_fragment
  method Fragment(heap: Heap, d: Node?, fsize: nat, ghost ns: seq<Node>, ghost cs: seq<seq<byte>>)
    returns (hdr: Node?, ghost fs: seq<Node>)
    requires PointsTo(d, ns, 0) && (d != null ==> Source(ns, cs)) && 0 < fsize < M16
    modifies heap
    ensures d == null || d.size == 0 ==> hdr == null && fs == [] && heap.live == old(heap.live)
    ensures d != null && d.size > 0 ==> |fs| == FragmentCount(Total(cs), fsize) > 0 && hdr == fs[0] && Fragments(fs, ns, cs, fsize)
    ensures fresh(fs)
    ensures heap.live == old(heap.live) + Objects(fs)
  {
    if d == null || d.size == 0 {
      return null, [];
    }
    var total := Size(d, ns, Lengths(cs));
    LengthsTotal(cs, |cs|);
    var count := total / fsize + (if total % fsize > 0 then 1 else 0);
    SomeBytes(cs, fsize);
    hdr, fs := MakeList(heap, count);
    FillIn(hdr, d, fsize, fs, ns, cs);
  }

  lemma SomeBytes(cs: seq<seq<byte>>, fsize: nat)
    requires cs != [] && |cs[0]| > 0 && fsize > 0
    ensures FragmentCount(Total(cs), fsize) > 0
  {
    StartMono(cs, 1, |cs|);
    assert Start(cs, 1) == Start(cs, 0) + |cs[0]|;
    CountIs(Total(cs), fsize, 0);
  }

  // The list fs holds the fragments of the block, in order.
  ghost predicate Fragments(fs: seq<Node>, ns: seq<Node>, cs: seq<seq<byte>>, fsize: nat)
    reads fs, ns
  {
    && Links(fs) && Ends(fs) && Distinct(fs)
    && forall i :: 0 <= i < |fs| ==> FragmentNode(fs[i], ns, cs, fsize, i)
  }

  // The first i fragments are filled in, the others still blank.
  ghost predicate Filling(fs: seq<Node>, ns: seq<Node>, cs: seq<seq<byte>>, fsize: nat, i: nat)
    reads fs, ns
  {
    && i <= |fs| && Links(fs) && Ends(fs) && Distinct(fs) && AllUnset(fs, i) && Source(ns, cs)
    && forall k :: 0 <= k < i ==> FragmentNode(fs[k], ns, cs, fsize, k)
  }

  // Where the walk over the block stands before fragment i.
  ghost predicate Cursored(dblk: Node?, offset: nat, ns: seq<Node>, cs: seq<seq<byte>>, fsize: nat, i: nat)
    requires fsize > 0
  {
    var c := CursorAt(cs, fsize, i);
    |ns| == |cs| && c.node < |ns| && dblk == ns[c.node] && offset == c.off && c.off <= |cs[c.node]|
  }

  method FillOne(e: Node, dblk: Node, offset: nat, fsize: nat, ghost fs: seq<Node>, ghost ns: seq<Node>,
                 ghost cs: seq<seq<byte>>, ghost i: nat)
    returns (nextDblk: Node?, nextOffset: nat)
    requires 0 < fsize < M16 && Filling(fs, ns, cs, fsize, i) && i < |fs| == FragmentCount(Total(cs), fsize) && e == fs[i]
    requires Cursored(dblk, offset, ns, cs, fsize, i) && forall f :: f in fs ==> f !in ns
    modifies e
    ensures Filling(fs, ns, cs, fsize, i + 1) && PointsTo(e.next, fs, i + 1)
    ensures i + 1 < |fs| ==> nextDblk != null && Cursored(nextDblk, nextOffset, ns, cs, fsize, i + 1)
  {
    hide FragmentNode, Unset, FragmentCount;
    nextDblk, nextOffset := SetFragment(e, dblk, offset, fsize, ns, cs, i);
    if i + 1 < |fs| {
      CursorInside(cs, fsize, i + 1);
    }
  }

  // The outer loop.
  method FillIn(hdr: Node, d: Node, fsize: nat, ghost fs: seq<Node>, ghost ns: seq<Node>, ghost cs: seq<seq<byte>>)
    requires Source(ns, cs) && d == ns[0] && 0 < fsize < M16
    requires |fs| == FragmentCount(Total(cs), fsize) && BlankList(fs) && hdr == fs[0]
    requires forall f :: f in fs ==> f !in ns
    modifies fs
    ensures Fragments(fs, ns, cs, fsize)
  {
    var e: Node?, dblk: Node?, offset := hdr, d, 0;
    ghost var i := 0;
    CursorInside(cs, fsize, 0);
    assert Filling(fs, ns, cs, fsize, 0) && Cursored(dblk, offset, ns, cs, fsize, 0);
    hide Filling, Cursored, FragmentCount;
    while e != null && dblk != null
      invariant PointsTo(e, fs, i) && Filling(fs, ns, cs, fsize, i)
      invariant i < |fs| ==> dblk != null && Cursored(dblk, offset, ns, cs, fsize, i)
      decreases |fs| - i
    {
      dblk, offset := FillOne(e, dblk, offset, fsize, fs, ns, cs, i);
      e := e.next;
      i := i + 1;
    }
    FilledAll(fs, ns, cs, fsize);
  }

  lemma FilledAll(fs: seq<Node>, ns: seq<Node>, cs: seq<seq<byte>>, fsize: nat)
    requires Filling(fs, ns, cs, fsize, |fs|)
    ensures Fragments(fs, ns, cs, fsize)
  {
  }

  lemma CursorInside(cs: seq<seq<byte>>, fsize: nat, i: nat)
    requires 0 < fsize && cs != [] && i < FragmentCount(Total(cs), fsize)
    ensures var c := CursorAt(cs, fsize, i); c.node < |cs| && c.off <= |cs[c.node]|
  {
    CountIs(Total(cs), fsize, i);
    CursorPosition(cs, fsize, i);
  }

  // ----- what a fragment reads as -----

  // Main result: fragment i reads as the i-th stretch of fsize bytes of the block.
  lemma FragmentIsStretch(f: Node, ns: seq<Node>, cs: seq<seq<byte>>, fsize: nat, i: nat)
    requires Holds(ns, cs) && cs != [] && 0 < fsize && i < FragmentCount(Total(cs), fsize)
    requires FragmentNode(f, ns, cs, fsize, i)
    ensures var c := CursorAt(cs, fsize, i);
            && InBounds(f) && f.vsize > 0 && BytesOf(f) == cs[c.node][c.off..] && i * fsize <= |Flatten(cs)|
            && ReadValue(BytesOf(f), f.vsize, cs[c.node + 1..]) == Stretch(Flatten(cs), fsize, i)
  {
    FragmentBytes(f, ns, cs, fsize, i);
    FragmentReads(cs, fsize, i);
    VSizePositive(cs, fsize, i);
  }

  lemma FragmentBytes(f: Node, ns: seq<Node>, cs: seq<seq<byte>>, fsize: nat, i: nat)
    requires Holds(ns, cs) && FragmentNode(f, ns, cs, fsize, i)
    ensures var c := CursorAt(cs, fsize, i); InBounds(f) && BytesOf(f) == cs[c.node][c.off..]
  {
    var c := CursorAt(cs, fsize, i);
    var n := ns[c.node];
    assert InBounds(n) && BytesOf(n) == cs[c.node];
    DropDrop(n.data[..n.at + n.size], n.at, c.off);
  }

  lemma VSizePositive(cs: seq<seq<byte>>, fsize: nat, i: nat)
    requires cs != [] && 0 < fsize && i < FragmentCount(Total(cs), fsize)
    ensures var c := CursorAt(cs, fsize, i); c.node < |cs| && c.off <= |cs[c.node]| && VSize(cs, c, fsize) > 0
  {
    CountIs(Total(cs), fsize, i);
    CursorPosition(cs, fsize, i);
    assert Start(cs, |cs|) == Start(cs, |cs| - 1) + |cs[|cs| - 1]|;
  }

  // Every fragment node but the last declares and reads as exactly fsize bytes.
  lemma AllButLastFull(f: Node, ns: seq<Node>, cs: seq<seq<byte>>, fsize: nat, i: nat)
    requires Holds(ns, cs) && cs != [] && 0 < fsize && i + 1 < FragmentCount(Total(cs), fsize)
    requires FragmentNode(f, ns, cs, fsize, i)
    ensures InBounds(f) && f.vsize == fsize
    ensures |ReadValue(BytesOf(f), f.vsize, cs[CursorAt(cs, fsize, i).node + 1..])| == fsize
  {
    FragmentIsStretch(f, ns, cs, fsize, i);
    TotalFlat(cs);
    FullStretch(Flatten(cs), fsize, i);
    VSizeExactIff(cs, fsize, i);
  }

  // Its declared size is exact except in one case, for the last fragment.
  lemma FragmentExactIff(f: Node, ns: seq<Node>, cs: seq<seq<byte>>, fsize: nat, i: nat)
    requires Holds(ns, cs) && cs != [] && 0 < fsize && i < FragmentCount(Total(cs), fsize)
    requires FragmentNode(f, ns, cs, fsize, i)
    ensures i * fsize <= |Flatten(cs)|
    ensures f.vsize == |Stretch(Flatten(cs), fsize, i)|
       <==> i * fsize + fsize <= |Flatten(cs)| || CursorAt(cs, fsize, i).node == |cs| - 1
  {
    VSizeExactIff(cs, fsize, i);
  }
}
