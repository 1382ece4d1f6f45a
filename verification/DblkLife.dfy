// Materialising virtual nodes and freeing lists.
module DblkLife {
  import opened Bytes
  import opened Dblk
  import opened DblkFragment
  import opened FragmentSpec

  // What a node's bytes come from: its own, and for a virtual one the source block from
  // node number `from` on.
  datatype View = View(own: seq<byte>, from: nat)

  ghost predicate Shows(n: Node, v: View, ns: seq<Node>)
    reads n, n.data
  {
    InBounds(n) && BytesOf(n) == v.own && v.from <= |ns| && (n.vsize > n.size ==> PointsTo(n.vmem, ns, v.from))
  }

  // The source block: where virtual nodes look.
  ghost predicate Chain(ns: seq<Node>, cs: seq<seq<byte>>)
    reads ns, set n | n in ns :: n.data
  {
    Holds(ns, cs) && Links(ns) && Ends(ns)
  }

  function Value(v: View, vsize: nat, cs: seq<seq<byte>>): seq<byte>
    requires v.from <= |cs|
  {
    ReadValue(v.own, vsize, cs[v.from..])
  }

  lemma SuffixChain(ns: seq<Node>, cs: seq<seq<byte>>, from: nat, mem: array<byte>)
    requires Chain(ns, cs) && Avoids(ns, mem) && from <= |ns|
    ensures Holds(ns[from..], cs[from..]) && Links(ns[from..]) && Ends(ns[from..]) && Avoids(ns[from..], mem)
  {
  }

  // n has been given its own bytes: a new buffer that starts with what it showed, and
  // exactly that when its declared size was exact.
  ghost predicate Materialised(n: Node, vsize: nat, value: seq<byte>)
    reads n, n.data
  {
    && n.vsize == 0 && n.vmem == null && n.dataMalloc && n.at == 0 && n.size == vsize
    && n.data != null && n.data.Length == vsize
    && |value| <= vsize && n.data[..|value|] == value
  }

  // dblk_node_to_rmem_node, with a buffer of the node's size.
  method NodeToRmem(n: Node, data: array<byte>, ghost v: View, ghost ns: seq<Node>, ghost cs: seq<seq<byte>>)
    requires Chain(ns, cs) && Shows(n, v, ns) && n.vsize > 0
    requires data.Length == n.vsize && data != n.data && Avoids(ns, data)
    modifies n`size, n`data, n`at, n`vsize, n`vmem, data
    ensures n.data == data && n.at == 0 && n.size == old(n.vsize) && n.vsize == 0 && n.vmem == null
    ensures data[..|Value(v, old(n.vsize), cs)|] == Value(v, old(n.vsize), cs)
    ensures n.next == old(n.next) && n.more == old(n.more) && n.nodeMalloc == old(n.nodeMalloc)
    ensures n.dataMalloc == old(n.dataMalloc)
  {
    ghost var s0, value := data[..], Value(v, n.vsize, cs);
    SuffixChain(ns, cs, v.from, data);
    var doSize := NodeCopyTo(n, data, 0, n.vsize, v.own, ns[v.from..], cs[v.from..]);
    assert data[..] == value + s0[|value|..];
    n.size := doSize;
    n.data, n.at := data, 0;
    n.vsize := 0;
    n.vmem := null;
  }

  // One vmem node of dblk_list_to_rmem_list.
  method MallocToRmem(heap: Heap, n: Node, ghost v: View, ghost ns: seq<Node>, ghost cs: seq<seq<byte>>)
    requires Chain(ns, cs) && Shows(n, v, ns) && n.vsize > 0
    modifies heap, n`size, n`data, n`at, n`vsize, n`vmem, n`dataMalloc
    ensures fresh(n.data) && Materialised(n, old(n.vsize), Value(v, old(n.vsize), cs))
    ensures n.next == old(n.next) && n.more == old(n.more) && n.nodeMalloc == old(n.nodeMalloc)
    ensures heap.live == old(heap.live) + {n.data}
  {
    var data := new byte[n.vsize];
    heap.Alloc(data);
    NodeToRmem(n, data, v, ns, cs);
    n.dataMalloc := true;
  }

  // A node of the list as it is before the pass.
  datatype Item = Item(vsize: nat, view: View, more: bool, malloc: bool)

  ghost predicate Todo(n: Node, it: Item, ns: seq<Node>)
    reads n, n.data
  {
    n.vsize == it.vsize && Shows(n, it.view, ns) && n.more == it.more && n.nodeMalloc == it.malloc
  }

  // What the pass does to a node: a virtual one is materialised in a new buffer, a real
  // one is left alone. buf is what was allocated for it.
  ghost predicate Done(n: Node, it: Item, cs: seq<seq<byte>>, buf: set<object?>)
    reads n, n.data
  {
    && it.view.from <= |cs| && n.more == it.more && n.nodeMalloc == it.malloc
    && if it.vsize > 0
       then Materialised(n, it.vsize, Value(it.view, it.vsize, cs)) && buf == {n.data as object?}
       else n.vsize == 0 && InBounds(n) && BytesOf(n) == it.view.own && buf == {}
  }

  // How far the pass has come: the first |bufs| nodes are done.
  ghost predicate Progress(fs: seq<Node>, its: seq<Item>, ns: seq<Node>, cs: seq<seq<byte>>, bufs: seq<set<object?>>)
    reads fs, set n | n in fs :: n.data
  {
    && |bufs| <= |fs| == |its| && Links(fs) && Ends(fs)
    && (forall i :: 0 <= i < |bufs| ==> Done(fs[i], its[i], cs, bufs[i]))
    && (forall i :: |bufs| <= i < |fs| ==> Todo(fs[i], its[i], ns))
  }

  // pos gives the index of each node of fs, so these are all different, and none is in ns.
  ghost predicate Indexed(fs: seq<Node>, ns: seq<Node>, pos: map<Node, nat>) {
    && (forall i :: 0 <= i < |fs| ==> fs[i] in pos && pos[fs[i]] == i)
    && (forall n :: n in ns ==> n !in pos)
  }

  function Union(owns: seq<set<object?>>): set<object?> {
    if owns == [] then {} else Union(owns[..|owns| - 1]) + owns[|owns| - 1]
  }

  lemma UnionSnoc(owns: seq<set<object?>>, x: set<object?>)
    ensures Union(owns + [x]) == Union(owns) + x
  {
    assert (owns + [x])[..|owns|] == owns;
  }

  // Nothing is in two of the sets.
  ghost predicate PairwiseApart(owns: seq<set<object?>>) {
    forall i :: 0 <= i < |owns| ==> owns[i] !! Union(owns[..i])
  }

  lemma ApartSnoc(owns: seq<set<object?>>, x: set<object?>)
    requires PairwiseApart(owns) && x !! Union(owns)
    ensures PairwiseApart(owns + [x]) && Union(owns + [x]) == Union(owns) + x
  {
    UnionSnoc(owns, x);
    forall i | 0 <= i < |owns + [x]| ensures (owns + [x])[i] !! Union((owns + [x])[..i]) {
      assert (owns + [x])[..i] == owns[..i];
      assert owns[..|owns|] == owns;
    }
  }

  // A virtual node at its turn.
  method ConvertNode(heap: Heap, p: Node, ghost it: Item, ghost ns: seq<Node>, ghost cs: seq<seq<byte>>)
    returns (ghost b: set<object?>)
    requires Chain(ns, cs) && Todo(p, it, ns) && p.vsize > 0
    modifies heap, p`size, p`data, p`at, p`vsize, p`vmem, p`dataMalloc
    ensures Done(p, it, cs, b) && p.next == old(p.next)
    ensures b == {p.data as object?} && p.data != null && fresh(p.data) && b !! old(heap.live) && heap.live == old(heap.live) + b
  {
    MallocToRmem(heap, p, it.view, ns, cs);
    b := {p.data};
  }

  lemma RealIsDone(p: Node, it: Item, ns: seq<Node>, cs: seq<seq<byte>>)
    requires |ns| == |cs| && Todo(p, it, ns) && p.vsize == 0
    ensures Done(p, it, cs, {})
  {
  }

  // The body of the loop. granted tells whether the malloc succeeds.
  method PassNode(heap: Heap, p: Node, granted: bool, ghost fs: seq<Node>, ghost its: seq<Item>,
                  ghost ns: seq<Node>, ghost cs: seq<seq<byte>>, ghost bufs: seq<set<object?>>, ghost pos: map<Node, nat>)
    returns (ok: bool, ghost b: set<object?>)
    requires Progress(fs, its, ns, cs, bufs) && |bufs| < |fs| && p == fs[|bufs|]
    requires Chain(ns, cs) && Indexed(fs, ns, pos)
    modifies heap, p`size, p`data, p`at, p`vsize, p`vmem, p`dataMalloc
    ensures ok <==> old(p.vsize) == 0 || granted
    ensures Progress(fs, its, ns, cs, if ok then bufs + [b] else bufs) && Chain(ns, cs) && p.next == old(p.next)
    ensures fresh(b) && null !in b && (!ok ==> b == {} && p.vsize > 0)
    ensures b !! old(heap.live) && heap.live == old(heap.live) + b
  {
    hide Todo, Done;
    if p.vsize == 0 {
      RealIsDone(p, its[|bufs|], ns, cs);
      return true, {};
    }
    if !granted {
      return false, {};
    }
    b := ConvertNode(heap, p, its[|bufs|], ns, cs);
    return true, b;
  }

  // The same, with the account of what has been allocated in this pass.
  method PassAndNote(heap: Heap, p: Node, granted: bool, ghost fs: seq<Node>, ghost its: seq<Item>, ghost ns: seq<Node>,
                     ghost cs: seq<seq<byte>>, ghost bufs: seq<set<object?>>, ghost made: set<object?>, ghost pos: map<Node, nat>)
    returns (ok: bool, ghost bufs': seq<set<object?>>, ghost b: set<object?>)
    requires Progress(fs, its, ns, cs, bufs) && |bufs| < |fs| && p == fs[|bufs|]
    requires Chain(ns, cs) && Indexed(fs, ns, pos) && PairwiseApart(bufs) && made == Union(bufs) && made <= heap.live
    modifies heap, p`size, p`data, p`at, p`vsize, p`vmem, p`dataMalloc
    ensures if ok then |bufs'| == |bufs| + 1 else bufs' == bufs && p.vsize > 0 && !granted
    ensures Progress(fs, its, ns, cs, bufs') && Chain(ns, cs) && p.next == old(p.next)
    ensures PairwiseApart(bufs') && Union(bufs') == made + b && b !! old(heap.live) && heap.live == old(heap.live) + b
    ensures fresh(b) && PointsTo(p.next, fs, |bufs| + 1)
  {
    ok, b := PassNode(heap, p, granted, fs, its, ns, cs, bufs, pos);
    bufs' := bufs;
    if ok {
      ApartSnoc(bufs, b);
      bufs' := bufs + [b];
    }
  }

  // dblk_list_to_rmem_list: stops at the first malloc that fails.
  method ListToRmem(heap: Heap, d: Node?, granted: nat -> bool, ghost fs: seq<Node>, ghost its: seq<Item>,
                    ghost ns: seq<Node>, ghost cs: seq<seq<byte>>, ghost pos: map<Node, nat>)
    returns (ok: bool, ghost bufs: seq<set<object?>>)
    requires PointsTo(d, fs, 0) && Indexed(fs, ns, pos) && Chain(ns, cs) && Progress(fs, its, ns, cs, [])
    modifies heap, fs`size, fs`data, fs`at, fs`vsize, fs`vmem, fs`dataMalloc
    ensures Progress(fs, its, ns, cs, bufs) && Chain(ns, cs)
    ensures if ok then |bufs| == |fs| else |bufs| < |fs| && fs[|bufs|].vsize > 0 && !granted(|bufs|)
    ensures PairwiseApart(bufs) && fresh(Union(bufs)) && Union(bufs) !! old(heap.live)
    ensures heap.live == old(heap.live) + Union(bufs)
  {
    hide Progress, Chain;
    ok, bufs := true, [];
    var p := d;
    var i := 0;
    ghost var made := {};
    while p != null
      invariant ok && i == |bufs| && PointsTo(p, fs, |bufs|)
      invariant Progress(fs, its, ns, cs, bufs) && Chain(ns, cs)
      invariant PairwiseApart(bufs) && made == Union(bufs)
      invariant fresh(made) && made !! old(heap.live) && heap.live == old(heap.live) + made
      decreases |fs| - |bufs|
    {
      ghost var b;
      ok, bufs, b := PassAndNote(heap, p, granted(i), fs, its, ns, cs, bufs, made, pos);
      made := made + b;
      if !ok {
        break;
      }
      p := p.next;
      i := i + 1;
    }
  }

  // ----- freeing -----

  // What a node owns: itself and its buffer, where they came from malloc.
  ghost function NodeOwned(n: Node): set<object?>
    reads n
  {
    (if n.nodeMalloc then {n as object?} else {}) + (if n.dataMalloc then {n.data as object?} else {})
  }

  // What each node of the list owns and whether its block goes on after it; nothing is
  // owned twice.
  ghost predicate Ledger(ns: seq<Node>, owns: seq<set<object?>>, mores: seq<bool>)
    reads ns
  {
    && |owns| == |mores| == |ns|
    && (forall i :: 0 <= i < |ns| ==> owns[i] == NodeOwned(ns[i]) && mores[i] == ns[i].more && null !in owns[i])
    && forall i, j :: 0 <= i < j < |ns| ==> owns[i] !! owns[j]
  }

  // Where the block that starts at node k ends.
  function BlockEnd(mores: seq<bool>, k: nat): (e: nat)
    requires k <= |mores|
    ensures k <= e <= |mores| && (k < |mores| ==> k < e)
    decreases |mores| - k
  {
    if k == |mores| then k else if !mores[k] then k + 1 else BlockEnd(mores, k + 1)
  }

  // From node k on, everything is still allocated.
  ghost predicate Held(heap: Heap, owns: seq<set<object?>>, k: nat)
    reads heap
  {
    forall i :: k <= i < |owns| ==> owns[i] <= heap.live
  }

  // The two frees of dblk_delete for one node.
  method FreeNode(heap: Heap, p: Node, ghost ns: seq<Node>, ghost owns: seq<set<object?>>, ghost mores: seq<bool>, ghost k: nat)
    requires Ledger(ns, owns, mores) && Held(heap, owns, k) && k < |ns| && p == ns[k]
    modifies heap
    ensures Held(heap, owns, k + 1) && heap.live == old(heap.live) - owns[k]
  {
    if p.dataMalloc {
      heap.Free(p.data);
    }
    if p.nodeMalloc {
      heap.Free(p);
    }
  }

  lemma UnionStep(owns: seq<set<object?>>, i: nat, k: nat)
    requires i <= k < |owns|
    ensures Union(owns[i..k + 1]) == Union(owns[i..k]) + owns[k]
  {
    assert owns[i..k + 1][..k - i] == owns[i..k];
  }

  // dblk_delete: frees the first block of a list, returns the second.
  method Delete(heap: Heap, d: Node?, ghost ns: seq<Node>, ghost owns: seq<set<object?>>, ghost mores: seq<bool>, ghost start: nat)
    returns (rest: Node?)
    requires Links(ns) && Ends(ns) && Ledger(ns, owns, mores) && PointsTo(d, ns, start) && Held(heap, owns, start)
    modifies heap
    ensures var k := BlockEnd(mores, start);
            && PointsTo(rest, ns, k) && Held(heap, owns, k) && heap.live == old(heap.live) - Union(owns[start..k])
  {
    rest := d;
    ghost var k := start;
    while rest != null
      invariant start <= k && PointsTo(rest, ns, k) && Held(heap, owns, k) && BlockEnd(mores, k) == BlockEnd(mores, start)
      invariant heap.live == old(heap.live) - Union(owns[start..k])
      decreases |ns| - k
    {
      var p := rest;
      rest := rest.next;
      var more := p.more;
      UnionStep(owns, start, k);
      FreeNode(heap, p, ns, owns, mores, k);
      k := k + 1;
      if !more {
        break;
      }
    }
  }

  lemma {:induction false} UnionSplit(owns: seq<set<object?>>, i: nat, k: nat)
    requires i <= k <= |owns|
    ensures Union(owns[..k]) == Union(owns[..i]) + Union(owns[i..k])
    decreases k
  {
    if i < k {
      UnionSplit(owns, i, k - 1);
      UnionStep(owns, i, k - 1);
      UnionStep(owns, 0, k - 1);
      assert owns[0..k] == owns[..k] && owns[0..k - 1] == owns[..k - 1];
    }
  }

  // dblk_list_delete: frees every block of the list, each allocation once.
  method ListDelete(heap: Heap, d: Node?, ghost ns: seq<Node>, ghost owns: seq<set<object?>>, ghost mores: seq<bool>)
    requires Links(ns) && Ends(ns) && Ledger(ns, owns, mores) && PointsTo(d, ns, 0) && Held(heap, owns, 0)
    modifies heap
    ensures heap.live == old(heap.live) - Union(owns)
  {
    var p := d;
    ghost var k := 0;
    while p != null
      invariant PointsTo(p, ns, k) && Held(heap, owns, k)
      invariant heap.live == old(heap.live) - Union(owns[..k])
      decreases |ns| - k
    {
      p := Delete(heap, p, ns, owns, mores, k);
      UnionSplit(owns, k, BlockEnd(mores, k));
      k := BlockEnd(mores, k);
    }
    assert owns[..k] == owns;
  }
}
