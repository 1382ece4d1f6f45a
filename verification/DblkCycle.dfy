// The life of a fragmented block: cut, materialise, free the fragments, free the block.
module DblkCycle {
  import opened Bytes
  import opened Dblk
  import opened DblkFragment
  import opened DblkLife
  import opened FragmentSpec

  // Item i reads as stretch i of the block, and its declared size is what the walk says.
  ghost predicate ItemShows(it: Item, cs: seq<seq<byte>>, fsize: nat, i: nat) {
    var c := CursorAt(cs, fsize, i);
    && it.vsize > 0 && it.view.from <= |cs| && i * fsize <= |Flatten(cs)| && !it.more && it.malloc
    && Value(it.view, it.vsize, cs) == Stretch(Flatten(cs), fsize, i)
    && c.node < |cs| && c.off <= |cs[c.node]| && it.vsize == VSize(cs, c, fsize)
  }

  ghost function ItemOf(f: Node, cs: seq<seq<byte>>, fsize: nat, i: nat): Item
    requires InBounds(f)
    reads f, f.data
  {
    Item(f.vsize, View(BytesOf(f), CursorAt(cs, fsize, i).node + 1), f.more, f.nodeMalloc)
  }

  // One fragment as the pass finds it.
  lemma FragmentItem(f: Node, ns: seq<Node>, cs: seq<seq<byte>>, fsize: nat, i: nat) returns (it: Item)
    requires Holds(ns, cs) && cs != [] && 0 < fsize && i < FragmentCount(Total(cs), fsize)
    requires FragmentNode(f, ns, cs, fsize, i)
    ensures Todo(f, it, ns) && ItemShows(it, cs, fsize, i)
  {
    FragmentIsStretch(f, ns, cs, fsize, i);
    it := ItemOf(f, cs, fsize, i);
    var c := CursorAt(cs, fsize, i);
    if f.vsize > f.size {
      assert PointsTo(f.vmem, ns[c.node + 1..], 0);
      assert c.node + 1 < |ns| ==> ns[c.node + 1..][0] == ns[c.node + 1];
    }
  }

  lemma FragmentItems(fs: seq<Node>, ns: seq<Node>, cs: seq<seq<byte>>, fsize: nat) returns (its: seq<Item>)
    requires Holds(ns, cs) && cs != [] && 0 < fsize && |fs| == FragmentCount(Total(cs), fsize)
    requires forall i :: 0 <= i < |fs| ==> FragmentNode(fs[i], ns, cs, fsize, i)
    ensures |its| == |fs| && forall i :: 0 <= i < |fs| ==> Todo(fs[i], its[i], ns) && ItemShows(its[i], cs, fsize, i)
  {
    its := [];
    while |its| < |fs|
      invariant |its| <= |fs|
      invariant forall i :: 0 <= i < |its| ==> Todo(fs[i], its[i], ns) && ItemShows(its[i], cs, fsize, i)
    {
      var it := FragmentItem(fs[|its|], ns, cs, fsize, |its|);
      its := its + [it];
    }
  }

  lemma Index(fs: seq<Node>, ns: seq<Node>) returns (pos: map<Node, nat>)
    requires Distinct(fs) && forall f :: f in fs ==> f !in ns
    ensures Indexed(fs, ns, pos)
  {
    pos := map i: nat | 0 <= i < |fs| :: fs[i] := i;
  }

  // A fragment after materialisation: its own new buffer starts with its stretch of the
  // block, and its size is the declared one.
  ghost predicate Copied(f: Node, cs: seq<seq<byte>>, fsize: nat, i: nat)
    reads f, f.data
  {
    var c := CursorAt(cs, fsize, i);
    && 0 < fsize && i * fsize <= |Flatten(cs)| && c.node < |cs| && c.off <= |cs[c.node]|
    && f.vsize == 0 && InBounds(f) && f.dataMalloc && f.nodeMalloc && !f.more && f.size == VSize(cs, c, fsize)
    && |Stretch(Flatten(cs), fsize, i)| <= f.size
    && BytesOf(f)[..|Stretch(Flatten(cs), fsize, i)|] == Stretch(Flatten(cs), fsize, i)
  }

  lemma DoneIsCopied(f: Node, it: Item, cs: seq<seq<byte>>, buf: set<object?>, fsize: nat, i: nat)
    requires 0 < fsize && Done(f, it, cs, buf) && ItemShows(it, cs, fsize, i)
    ensures Copied(f, cs, fsize, i) && buf == {f.data as object?}
  {
    var st := Stretch(Flatten(cs), fsize, i);
    assert f.data[..|st|] == st;
    SliceTake(f.data[..], 0, f.size, |st|);
  }

  // Main result: cutting a block and materialising the fragments gives nodes that own
  // copies of the block's stretches; the block itself is not touched, and no buffer is
  // shared with it or between fragments.
  method Materialise(heap: Heap, d: Node, fsize: nat, ghost ns: seq<Node>, ghost cs: seq<seq<byte>>)
    returns (hdr: Node, ghost fs: seq<Node>, ghost bufs: seq<set<object?>>)
    requires Source(ns, cs) && Chain(ns, cs) && d == ns[0] && d.size > 0 && 0 < fsize < M16
    modifies heap
    ensures |fs| == FragmentCount(Total(cs), fsize) && fs != [] && hdr == fs[0] && Links(fs) && Ends(fs) && Distinct(fs)
    ensures fresh(fs) && |bufs| == |fs|
    ensures forall i :: 0 <= i < |fs| ==> Copied(fs[i], cs, fsize, i) && bufs[i] == {fs[i].data as object?}
    ensures PairwiseApart(bufs) && fresh(Union(bufs)) && Union(bufs) !! old(heap.live) + Objects(fs)
    ensures heap.live == old(heap.live) + Objects(fs) + Union(bufs)
  {
    var h;
    h, fs := Fragment(heap, d, fsize, ns, cs);
    hdr := h;
    ghost var its := FragmentItems(fs, ns, cs, fsize);
    ghost var pos := Index(fs, ns);
    var ok;
    ok, bufs := ListToRmem(heap, hdr, _ => true, fs, its, ns, cs, pos);
    forall i | 0 <= i < |fs| ensures Copied(fs[i], cs, fsize, i) && bufs[i] == {fs[i].data as object?} {
      DoneIsCopied(fs[i], its[i], cs, bufs[i], fsize, i);
    }
  }

  // A fragment's copy is exact in every case but one: the last fragment, when it is cut
  // short and does not start in the final node, claims more bytes than it has.
  lemma CopiedExactIff(f: Node, cs: seq<seq<byte>>, fsize: nat, i: nat)
    requires cs != [] && Copied(f, cs, fsize, i) && i < FragmentCount(Total(cs), fsize)
    ensures BytesOf(f) == Stretch(Flatten(cs), fsize, i)
       <==> i * fsize + fsize <= |Flatten(cs)| || CursorAt(cs, fsize, i).node == |cs| - 1
  {
    VSizeExactIff(cs, fsize, i);
    if f.size == |Stretch(Flatten(cs), fsize, i)| {
      assert BytesOf(f)[..f.size] == BytesOf(f);
    }
  }

  // ----- freeing -----

  ghost function OwnsOf(fs: seq<Node>, bufs: seq<set<object?>>): (owns: seq<set<object?>>)
    requires |bufs| == |fs|
    ensures |owns| == |fs|
  {
    seq(|fs|, i requires 0 <= i < |fs| => {fs[i] as object?} + bufs[i])
  }

  lemma {:induction false} OwnsUnion(fs: seq<Node>, bufs: seq<set<object?>>)
    requires |bufs| == |fs|
    ensures Union(OwnsOf(fs, bufs)) == Objects(fs) + Union(bufs)
    decreases |fs|
  {
    if fs != [] {
      var n := |fs| - 1;
      OwnsUnion(fs[..n], bufs[..n]);
      assert OwnsOf(fs, bufs)[..n] == OwnsOf(fs[..n], bufs[..n]);
      ObjectsSnoc(fs[..n], fs[n]);
      assert fs[..n] + [fs[n]] == fs;
    } else {
      assert Objects(fs) == {};
    }
  }

  lemma {:induction false} InUnion(bufs: seq<set<object?>>, i: nat)
    requires i < |bufs|
    ensures bufs[i] <= Union(bufs)
    decreases |bufs|
  {
    if i < |bufs| - 1 {
      InUnion(bufs[..|bufs| - 1], i);
    }
  }

  lemma FragmentLedger(fs: seq<Node>, bufs: seq<set<object?>>, mores: seq<bool>)
    requires Distinct(fs) && |mores| == |bufs| == |fs| && PairwiseApart(bufs) && Union(bufs) !! Objects(fs)
    requires forall i :: 0 <= i < |fs| ==>
               && !mores[i] && !fs[i].more && fs[i].nodeMalloc && fs[i].dataMalloc && fs[i].data != null
               && bufs[i] == {fs[i].data as object?}
    ensures Ledger(fs, OwnsOf(fs, bufs), mores)
  {
    var owns := OwnsOf(fs, bufs);
    forall i, j | 0 <= i < j < |fs| ensures owns[i] !! owns[j] {
      InUnion(bufs, i);
      InUnion(bufs, j);
      InUnion(bufs[..j], i);
      assert fs[i] in Objects(fs) && fs[j] in Objects(fs);
    }
  }

  // Main result: cut, materialise, free the fragments, free the block. Every allocation of
  // the block and of the fragments is freed exactly once (Free takes only what is still
  // allocated), so what remains is what there was without the block; and no node or buffer
  // of the block is written.
  method WholeCycle(heap: Heap, d: Node, fsize: nat, ghost ns: seq<Node>, ghost cs: seq<seq<byte>>,
                    ghost owns: seq<set<object?>>, ghost mores: seq<bool>)
    requires Source(ns, cs) && Chain(ns, cs) && d == ns[0] && d.size > 0 && 0 < fsize < M16
    requires Ledger(ns, owns, mores) && Held(heap, owns, 0)
    modifies heap
    ensures heap.live == old(heap.live) - Union(owns)
  {
    var hdr;
    ghost var fs, bufs;
    hdr, fs, bufs := Materialise(heap, d, fsize, ns, cs);
    FreeFragments(heap, hdr, fs, bufs, old(heap.live));
    ListDelete(heap, d, ns, owns, mores);
  }

  // Freeing the fragments gives back what they took and nothing else.
  method FreeFragments(heap: Heap, hdr: Node, ghost fs: seq<Node>, ghost bufs: seq<set<object?>>, ghost before: set<object>)
    requires fs != [] && hdr == fs[0] && Links(fs) && Ends(fs) && Distinct(fs) && |bufs| == |fs|
    requires PairwiseApart(bufs) && Union(bufs) !! before + Objects(fs) && Objects(fs) !! before
    requires forall i :: 0 <= i < |fs| ==>
               && !fs[i].more && fs[i].nodeMalloc && fs[i].dataMalloc && fs[i].data != null
               && bufs[i] == {fs[i].data as object?}
    requires heap.live == before + Objects(fs) + Union(bufs)
    modifies heap
    ensures heap.live == before
  {
    ghost var mores := seq(|fs|, i => false);
    FragmentLedger(fs, bufs, mores);
    ghost var owns := OwnsOf(fs, bufs);
    OwnsUnion(fs, bufs);
    forall i | 0 <= i < |fs| ensures owns[i] <= heap.live {
      InUnion(bufs, i);
      assert fs[i] in Objects(fs);
    }
    ListDelete(heap, hdr, fs, owns, mores);
  }
}
