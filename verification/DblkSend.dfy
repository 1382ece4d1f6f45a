// What goes out when a block ends in a virtual fragment: dblk_copy_to and dblk_size on
// blocks of real and virtual nodes, as ip_hl_send and ether_pack use them.
module DblkSend {
  import opened Bytes
  import opened Dblk
  import opened DblkCycle
  import opened DblkFragment
  import opened DblkLife
  import opened FragmentSpec

  // The size a node declares.
  function Declared(it: Item): nat {
    if it.vsize != 0 then it.vsize else |it.view.own|
  }

  // vals are the bytes the nodes show, sizes what they declare.
  ghost predicate Reads(its: seq<Item>, cs: seq<seq<byte>>, vals: seq<seq<byte>>, sizes: seq<nat>) {
    && |vals| == |sizes| == |its|
    && forall i :: 0 <= i < |its| ==>
         its[i].view.from <= |cs| && vals[i] == Value(its[i].view, its[i].vsize, cs) && sizes[i] == Declared(its[i])
  }

  // The nodes ns are as the items say; the virtual ones look into the source block.
  ghost predicate MixedBlock(ns: seq<Node>, its: seq<Item>, src: seq<Node>, cs: seq<seq<byte>>)
    reads ns, set n | n in ns :: n.data
  {
    && Block(ns) && |its| == |ns| && |src| == |cs|
    && forall i :: 0 <= i < |ns| ==> Todo(ns[i], its[i], src)
  }

  // A node shows no more than it declares.
  ghost predicate Fit(vals: seq<seq<byte>>, sizes: seq<nat>) {
    |vals| == |sizes| && forall i :: 0 <= i < |vals| ==> |vals[i]| <= sizes[i]
  }

  lemma ReadsFit(its: seq<Item>, cs: seq<seq<byte>>, vals: seq<seq<byte>>, sizes: seq<nat>)
    requires Reads(its, cs, vals, sizes)
    ensures Fit(vals, sizes)
  {
  }

  lemma {:induction false} SumMono(sizes: seq<nat>, i: nat, j: nat)
    requires i <= j <= |sizes|
    ensures Sum(sizes[..i]) <= Sum(sizes[..j])
    decreases j
  {
    if i < j {
      SumMono(sizes, i, j - 1);
      SumNext(sizes, j - 1);
    }
  }

  // The memory after the first n nodes: each one's bytes at the place where the declared
  // sizes of those before it end.
  function Placed(s0: seq<byte>, pos: nat, vals: seq<seq<byte>>, sizes: seq<nat>, n: nat): (r: seq<byte>)
    requires Fit(vals, sizes) && n <= |vals| && pos + Sum(sizes[..n]) <= |s0|
    ensures |r| == |s0|
  {
    if n == 0 then s0
    else
      SumNext(sizes, n - 1);
      Overwrite(Placed(s0, pos, vals, sizes, n - 1), pos + Sum(sizes[..n - 1]), vals[n - 1])
  }

  lemma PlacedNext(s0: seq<byte>, pos: nat, vals: seq<seq<byte>>, sizes: seq<nat>, j: nat)
    requires Fit(vals, sizes) && j < |vals| && pos + Sum(sizes) <= |s0|
    ensures Sum(sizes[..j + 1]) == Sum(sizes[..j]) + sizes[j] && pos + Sum(sizes[..j + 1]) <= |s0|
    ensures Placed(s0, pos, vals, sizes, j + 1) == Overwrite(Placed(s0, pos, vals, sizes, j), pos + Sum(sizes[..j]), vals[j])
  {
    SumNext(sizes, j);
    SumMono(sizes, j + 1, |sizes|);
    assert sizes[..|sizes|] == sizes;
  }

  // Nothing is declared from here on, so nothing is shown.
  lemma {:induction false} NothingMore(s0: seq<byte>, pos: nat, vals: seq<seq<byte>>, sizes: seq<nat>, j: nat, n: nat)
    requires Fit(vals, sizes) && j <= n <= |vals|
    requires Sum(sizes[..j]) == Sum(sizes[..n]) && pos + Sum(sizes) <= |s0| && pos + Sum(sizes[..n]) <= |s0|
    ensures Placed(s0, pos, vals, sizes, n) == Placed(s0, pos, vals, sizes, j)
    decreases n
  {
    if j < n {
      PlacedNext(s0, pos, vals, sizes, n - 1);
      SumMono(sizes, j, n - 1);
      NothingMore(s0, pos, vals, sizes, j, n - 1);
      assert vals[n - 1] == [];
      OverwriteNothing(Placed(s0, pos, vals, sizes, n - 1), pos + Sum(sizes[..n - 1]));
    }
  }

  lemma OverwriteNothing(s: seq<byte>, p: nat)
    requires p <= |s|
    ensures Overwrite(s, p, []) == s
  {
  }

  // When every node but the last shows all it declares, the bytes are where they belong,
  // and the declared total is too large by what the last one lacks.
  lemma {:induction false} PlacedExact(s0: seq<byte>, pos: nat, vals: seq<seq<byte>>, sizes: seq<nat>, n: nat)
    requires Fit(vals, sizes) && n <= |vals| && pos + Sum(sizes[..n]) <= |s0|
    requires forall i :: 0 <= i < n - 1 ==> |vals[i]| == sizes[i]
    ensures var flat := Flatten(vals[..n]);
            && pos + |flat| <= |s0| && Placed(s0, pos, vals, sizes, n) == Overwrite(s0, pos, flat)
            && Sum(sizes[..n]) - |flat| == if n == 0 then 0 else sizes[n - 1] - |vals[n - 1]|
    decreases n
  {
    if n == 0 {
      OverwriteNothing(s0, pos);
    } else {
      SumNext(sizes, n - 1);
      PlacedExact(s0, pos, vals, sizes, n - 1);
      assert vals[..n] == vals[..n - 1] + [vals[n - 1]];
      FlattenAppend(vals[..n - 1], [vals[n - 1]]);
      FlattenSingle(vals[n - 1]);
      OverwriteTwice(s0, pos, Flatten(vals[..n - 1]), vals[n - 1]);
    }
  }

  lemma OverwriteByte(s: seq<byte>, at: nat, w: seq<byte>, x: nat)
    requires at + |w| <= |s| && x < |s|
    ensures Overwrite(s, at, w)[x] == if at <= x < at + |w| then w[x - at] else s[x]
  {
  }

  // Nothing is written before the first place or behind the last.
  lemma {:induction false} PlacedBehind(s0: seq<byte>, pos: nat, vals: seq<seq<byte>>, sizes: seq<nat>, n: nat, x: nat)
    requires Fit(vals, sizes) && n <= |vals| && pos + Sum(sizes) <= |s0| && x < |s0|
    ensures pos + Sum(sizes[..n]) <= |s0|
    ensures x < pos || pos + Sum(sizes[..n]) <= x ==> Placed(s0, pos, vals, sizes, n)[x] == s0[x]
    decreases n
  {
    SumMono(sizes, n, |sizes|);
    assert sizes[..|sizes|] == sizes;
    if n > 0 {
      PlacedBehind(s0, pos, vals, sizes, n - 1, x);
      PlacedNext(s0, pos, vals, sizes, n - 1);
      hide Overwrite;
      OverwriteByte(Placed(s0, pos, vals, sizes, n - 1), pos + Sum(sizes[..n - 1]), vals[n - 1], x);
    }
  }

  lemma SumsUpTo(sizes: seq<nat>, j: nat, n: nat)
    requires j < n <= |sizes|
    ensures Sum(sizes[..j]) + sizes[j] == Sum(sizes[..j + 1]) <= Sum(sizes[..n]) <= Sum(sizes)
  {
    SumNext(sizes, j);
    SumMono(sizes, j + 1, n);
    SumMono(sizes, n, |sizes|);
    assert sizes[..|sizes|] == sizes;
  }

  // Each node's bytes stand where the declared sizes before it end, also when a node shows
  // less than it declares: the gap behind it keeps what was there.
  lemma {:induction false} PlacedAt(s0: seq<byte>, pos: nat, vals: seq<seq<byte>>, sizes: seq<nat>, n: nat, j: nat, x: nat)
    requires Fit(vals, sizes) && j < n <= |vals| && pos + Sum(sizes) <= |s0|
    requires pos + Sum(sizes[..j]) <= x < pos + Sum(sizes[..j]) + sizes[j]
    ensures pos + Sum(sizes[..n]) <= |s0| && x < |s0|
    ensures var k := x - pos - Sum(sizes[..j]);
            Placed(s0, pos, vals, sizes, n)[x] == if k < |vals[j]| then vals[j][k] else s0[x]
    decreases n
  {
    hide Overwrite, Sum, Placed;
    SumsUpTo(sizes, j, n);
    SumsUpTo(sizes, n - 1, n);
    PlacedNext(s0, pos, vals, sizes, n - 1);
    if j == n - 1 {
      PlacedBehind(s0, pos, vals, sizes, n - 1, x);
    } else {
      SumsUpTo(sizes, j, n - 1);
      PlacedAt(s0, pos, vals, sizes, n - 1, j, x);
    }
    OverwriteByte(Placed(s0, pos, vals, sizes, n - 1), pos + Sum(sizes[..n - 1]), vals[n - 1], x);
  }

  // ----- dblk_copy_to -----

  lemma Ready(p: Node, it: Item, src: seq<Node>, cs: seq<seq<byte>>, mem: array<byte>)
    requires Chain(src, cs) && Todo(p, it, src) && Avoids(src, mem)
    ensures InBounds(p) && BytesOf(p) == it.view.own && p.vsize == it.vsize && it.view.from <= |src| == |cs|
    ensures var rest, ds := src[it.view.from..], cs[it.view.from..];
            && Holds(rest, ds) && Links(rest) && Ends(rest) && Avoids(rest, mem)
            && (p.vsize > p.size ==> PointsTo(p.vmem, rest, 0))
            && Value(it.view, it.vsize, cs) == ReadValue(it.view.own, p.vsize, ds)
            && |Value(it.view, it.vsize, cs)| <= Declared(it) == NodeSize(p)
  {
    SuffixChain(src, cs, it.view.from, mem);
  }

  // One round: the node's bytes, with room for what it declares.
  method CopyShown(p: Node, mem: array<byte>, at: nat, remain: nat, ghost it: Item, ghost src: seq<Node>,
                   ghost cs: seq<seq<byte>>, ghost val: seq<byte>)
    returns (doSize: nat)
    requires Chain(src, cs) && Todo(p, it, src) && mem != p.data && Avoids(src, mem)
    requires Declared(it) <= remain && at + remain <= mem.Length
    requires it.view.from <= |cs| && val == Value(it.view, it.vsize, cs)
    modifies mem
    ensures doSize == Declared(it) && at + |val| <= mem.Length && mem[..] == Overwrite(old(mem[..]), at, val)
  {
    Ready(p, it, src, cs, mem);
    ghost var own := it.view.own;
    assert p.vsize == 0 ==> val == own && own[..|own|] == own && Declared(it) == |own|;
    hide Overwrite, Holds, Links, Ends, Avoids, Chain, Todo, Value, ReadValue, Shows;
    doSize := NodeCopyTo(p, mem, at, remain, own, src[it.view.from..], cs[it.view.from..]);
  }

  // The same inside the copy of a block.
  method CopyNext(p: Node, mem: array<byte>, pos: nat, done: nat, remain: nat, ghost ns: seq<Node>, ghost its: seq<Item>,
                  ghost src: seq<Node>, ghost cs: seq<seq<byte>>, ghost vals: seq<seq<byte>>, ghost sizes: seq<nat>,
                  ghost s0: seq<byte>, ghost j: nat)
    returns (doSize: nat)
    requires MixedBlock(ns, its, src, cs) && Chain(src, cs) && Avoids(ns, mem) && Avoids(src, mem)
    requires Reads(its, cs, vals, sizes) && Fit(vals, sizes) && j < |ns| && p == ns[j]
    requires pos + Sum(sizes) <= |s0| && pos + Sum(sizes[..j]) <= |s0|
    requires done == Sum(sizes[..j]) && remain >= sizes[j] && pos + done + remain <= mem.Length
    requires mem[..] == Placed(s0, pos, vals, sizes, j)
    modifies mem
    ensures doSize == sizes[j] && done + doSize == Sum(sizes[..j + 1]) && pos + Sum(sizes[..j + 1]) <= |s0|
    ensures mem[..] == Placed(s0, pos, vals, sizes, j + 1)
    ensures MixedBlock(ns, its, src, cs) && Chain(src, cs)
  {
    PlacedNext(s0, pos, vals, sizes, j);
    hide Placed, Overwrite, Value, Todo, Sum, Declared, Block;
    doSize := CopyShown(p, mem, pos + done, remain, its[j], src, cs, vals[j]);
  }

  // dblk_copy_to on a block of real and virtual nodes, with room for what they declare.
  method CopyBlock(d: Node, mem: array<byte>, pos: nat, size: nat, ghost ns: seq<Node>, ghost its: seq<Item>,
                   ghost src: seq<Node>, ghost cs: seq<seq<byte>>, ghost vals: seq<seq<byte>>, ghost sizes: seq<nat>)
    returns (done: nat)
    requires MixedBlock(ns, its, src, cs) && d == ns[0] && Chain(src, cs) && Avoids(ns, mem) && Avoids(src, mem)
    requires Reads(its, cs, vals, sizes) && Fit(vals, sizes) && Sum(sizes) <= size && pos + size <= mem.Length
    modifies mem
    ensures done == Sum(sizes) && sizes[..|vals|] == sizes
    ensures mem[..] == Placed(old(mem[..]), pos, vals, sizes, |vals|)
    ensures MixedBlock(ns, its, src, cs) && Chain(src, cs)
  {
    ghost var s0 := mem[..];
    assert sizes[..|vals|] == sizes;
    hide Reads, Chain, Avoids, Fit, Sum;
    var p, remain := d, size;
    done := 0;
    ghost var j := 0;
    assert Sum(sizes[..0]) == 0 by { EmptySum(sizes); }
    while true
      invariant j < |ns| && p == ns[j] && MixedBlock(ns, its, src, cs) && Chain(src, cs)
      invariant done == Sum(sizes[..j]) && remain == size - done && pos + Sum(sizes[..j]) <= |s0|
      invariant mem[..] == Placed(s0, pos, vals, sizes, j)
      decreases |ns| - j
    {
      RoomLeft(sizes, j);
      var doSize := CopyNext(p, mem, pos, done, remain, ns, its, src, cs, vals, sizes, s0, j);
      done := done + doSize;
      remain := remain - doSize;
      if remain == 0 || !p.more {
        LastRound(s0, pos, vals, sizes, j, size);
        return;
      }
      p := p.next;
      j := j + 1;
    }
  }

  lemma EmptySum(sizes: seq<nat>)
    ensures Sum(sizes[..0]) == 0
  {
  }

  lemma RoomLeft(sizes: seq<nat>, j: nat)
    requires j < |sizes|
    ensures Sum(sizes[..j]) + sizes[j] <= Sum(sizes)
  {
    SumNext(sizes, j);
    SumMono(sizes, j + 1, |sizes|);
    assert sizes[..|sizes|] == sizes;
  }

  // The loop ends at the last node, or when the room is used up.
  lemma LastRound(s0: seq<byte>, pos: nat, vals: seq<seq<byte>>, sizes: seq<nat>, j: nat, size: nat)
    requires Fit(vals, sizes) && j < |vals| && Sum(sizes) <= size && pos + size <= |s0|
    requires Sum(sizes[..j + 1]) == size || j == |vals| - 1
    ensures Sum(sizes[..j + 1]) == Sum(sizes) && pos + Sum(sizes[..|vals|]) <= |s0|
    ensures Placed(s0, pos, vals, sizes, |vals|) == Placed(s0, pos, vals, sizes, j + 1)
  {
    assert sizes[..|vals|] == sizes;
    SumMono(sizes, j + 1, |vals|);
    NothingMore(s0, pos, vals, sizes, j + 1, |vals|);
  }

  // ----- a header and a fragment -----

  // What ip_hl_send hands down: a header node and fragment i of a payload.
  ghost predicate Headed(h: Node, f: Node, hb: seq<byte>, src: seq<Node>, cs: seq<seq<byte>>, fsize: nat, i: nat)
    reads h, h.data, f, src
  {
    && InBounds(h) && BytesOf(h) == hb && h.vsize == 0 && h.more && h.next == f
    && cs != [] && 0 < fsize && i < FragmentCount(Total(cs), fsize) && FragmentNode(f, src, cs, fsize, i)
  }

  lemma HeadedItems(h: Node, f: Node, hb: seq<byte>, src: seq<Node>, cs: seq<seq<byte>>, fsize: nat, i: nat)
    returns (its: seq<Item>)
    requires Headed(h, f, hb, src, cs, fsize, i) && Chain(src, cs)
    ensures i * fsize <= |Flatten(cs)| && |its| == 2
    ensures MixedBlock([h, f], its, src, cs)
    ensures Reads(its, cs, [hb, Stretch(Flatten(cs), fsize, i)], [|hb|, f.vsize])
  {
    var it := FragmentItem(f, src, cs, fsize, i);
    its := [Item(0, View(hb, 0), true, h.nodeMalloc), it];
  }

  // Main result: the header and exactly the fragment's stretch of the payload are written.
  // The reported length, which is also dblk_size, is right exactly when the stretch is full
  // or starts in the final node of the payload; otherwise it is that of a full fragment.
  method SendFragment(h: Node, f: Node, mem: array<byte>, pos: nat, size: nat, ghost hb: seq<byte>, ghost src: seq<Node>,
                      ghost cs: seq<seq<byte>>, ghost fsize: nat, ghost i: nat)
    returns (done: nat)
    requires Headed(h, f, hb, src, cs, fsize, i) && Chain(src, cs) && h.data != mem && f.data != mem && Avoids(src, mem)
    requires |hb| + f.vsize <= size && pos + size <= mem.Length
    modifies mem
    ensures i * fsize <= |Flatten(cs)| && done == |hb| + f.vsize
    ensures var out := hb + Stretch(Flatten(cs), fsize, i);
            && |out| <= done && mem[..] == Overwrite(old(mem[..]), pos, out)
            && (done == |out| <==> i * fsize + fsize <= |Flatten(cs)| || CursorAt(cs, fsize, i).node == |cs| - 1)
  {
    ghost var its := HeadedItems(h, f, hb, src, cs, fsize, i);
    ghost var st := Stretch(Flatten(cs), fsize, i);
    ghost var vals, sizes := [hb, st], [|hb|, f.vsize];
    ReadsFit(its, cs, vals, sizes);
    FragmentExactIff(f, src, cs, fsize, i);
    TwoPieces(mem[..], pos, hb, st, f.vsize);
    assert Avoids([h, f], mem);
    hide MixedBlock, Reads, Fit, Placed, Sum, Chain, Headed, Stretch, CursorAt, Overwrite;
    done := CopyBlock(h, mem, pos, size, [h, f], its, src, cs, vals, sizes);
  }

  lemma TwoPieces(s0: seq<byte>, pos: nat, hb: seq<byte>, st: seq<byte>, vsize: nat)
    requires |st| <= vsize && pos + |hb| + vsize <= |s0|
    ensures Sum([|hb|, vsize]) == |hb| + vsize && [|hb|, vsize][..2] == [|hb|, vsize] && Fit([hb, st], [|hb|, vsize])
    ensures Placed(s0, pos, [hb, st], [|hb|, vsize], 2) == Overwrite(s0, pos, hb + st)
  {
    var vals, sizes := [hb, st], [|hb|, vsize];
    assert sizes[..2] == sizes && sizes[..1] == [|hb|] && sizes[..0] == [];
    SumNext(sizes, 0);
    SumNext(sizes, 1);
    PlacedExact(s0, pos, vals, sizes, 2);
    assert vals[..2] == [hb] + [st];
    FlattenAppend([hb], [st]);
    FlattenSingle(hb);
    FlattenSingle(st);
  }
}
