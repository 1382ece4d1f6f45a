// Data blocks: heap lists of nodes, grouped into blocks by `more`, with virtual nodes that
// alias the bytes of another block (dts_net_dblk.c).
module Dblk {
  import opened Bytes
  import opened FragmentSpec

  // The allocator behind dts_net_malloc and dts_net_free: what is allocated and not freed.
  class Heap {
    ghost var live: set<object>

    ghost method Alloc(o: object)
      modifies this
      ensures live == old(live) + {o}
    {
      live := live + {o};
    }

    method Free(o: object)
      requires o in live
      modifies this
      ensures live == old(live) - {o}
    {
      live := live - {o};
    }
  }

  // dts_net_dblk_t. The data pointer is an array and a position in it.
  class Node {
    var next: Node?
    var data: array?<byte>
    var at: nat
    var size: u16
    var dataMalloc: bool
    var nodeMalloc: bool
    var more: bool
    var vsize: u16
    var vmem: Node?
    var offset: nat

    // dblk_node_init on a new node
    constructor (data: array?<byte>, at: nat, size: u16)
      ensures next == null && this.data == data && this.at == at && this.size == size
      ensures !dataMalloc && !nodeMalloc && !more && vsize == 0 && vmem == null && offset == 0
    {
      next, vmem := null, null;
      this.data, this.at, this.size := data, at, size;
      dataMalloc, nodeMalloc, more := false, false, false;
      vsize, offset := 0, 0;
    }

    // dblk_node_init on a node that exists
    method Reset(data: array?<byte>, at: nat, size: u16)
      modifies this
      ensures next == null && this.data == data && this.at == at && this.size == size
      ensures !dataMalloc && !nodeMalloc && !more && vsize == 0 && vmem == null && offset == 0
    {
      next, vmem := null, null;
      this.data, this.at, this.size := data, at, size;
      dataMalloc, nodeMalloc, more := false, false, false;
      vsize, offset := 0, 0;
    }
  }

  // ----- what a list of nodes means -----

  ghost predicate InBounds(n: Node)
    reads n
  {
    n.data != null && n.at + n.size <= n.data.Length
  }

  ghost function BytesOf(n: Node): (r: seq<byte>)
    requires InBounds(n)
    reads n, n.data
    ensures |r| == n.size
  {
    n.data[n.at..n.at + n.size]
  }

  // The nodes hold the chunks cs, one each.
  ghost predicate Holds(ns: seq<Node>, cs: seq<seq<byte>>)
    reads ns, set n | n in ns :: n.data
  {
    |ns| == |cs| && forall i :: 0 <= i < |ns| ==> InBounds(ns[i]) && BytesOf(ns[i]) == cs[i]
  }

  // Just their sizes.
  ghost predicate Sized(ns: seq<Node>, cs: seq<seq<byte>>)
    reads ns
  {
    |ns| == |cs| && forall i :: 0 <= i < |ns| ==> ns[i].size == |cs[i]|
  }

  ghost predicate AllReal(ns: seq<Node>)
    reads ns
  {
    forall i :: 0 <= i < |ns| ==> ns[i].vsize == 0
  }

  ghost predicate Avoids(ns: seq<Node>, mem: array<byte>)
    reads ns
  {
    forall i :: 0 <= i < |ns| ==> ns[i].data != mem
  }

  ghost predicate Links(ns: seq<Node>)
    reads ns
  {
    forall i :: 0 <= i < |ns| - 1 ==> ns[i].next == ns[i + 1]
  }

  ghost predicate Distinct(ns: seq<Node>) {
    forall i, j :: 0 <= i < j < |ns| ==> ns[i] != ns[j]
  }

  // A logical block: linked nodes, all but the last with `more`.
  ghost predicate Block(ns: seq<Node>)
    reads ns
  {
    ns != [] && Links(ns) && forall i :: 0 <= i < |ns| ==> (ns[i].more <==> i < |ns| - 1)
  }

  ghost predicate Ends(ns: seq<Node>)
    reads ns
  {
    ns != [] ==> ns[|ns| - 1].next == null
  }

  // p points to the node with index i, or is null past the end.
  ghost predicate PointsTo(p: Node?, ns: seq<Node>, i: nat) {
    i <= |ns| && p == if i < |ns| then ns[i] else null
  }

  // dblk_node_size
  function NodeSize(n: Node): nat
    reads n
  {
    if n.vsize != 0 then n.vsize else n.size
  }

  function Sum(sizes: seq<nat>): nat {
    if sizes == [] then 0 else Sum(sizes[..|sizes| - 1]) + sizes[|sizes| - 1]
  }

  lemma SumNext(sizes: seq<nat>, j: nat)
    requires j < |sizes|
    ensures Sum(sizes[..j + 1]) == Sum(sizes[..j]) + sizes[j]
  {
    assert sizes[..j + 1][..j] == sizes[..j];
  }

  // dblk_size: real nodes count with their size, virtual ones with their declared size.
  method Size(d: Node, ghost ns: seq<Node>, ghost sizes: seq<nat>) returns (size: nat)
    requires Block(ns) && d == ns[0] && |sizes| == |ns| && forall i :: 0 <= i < |ns| ==> NodeSize(ns[i]) == sizes[i]
    ensures size == Sum(sizes)
  {
    size := 0;
    var p := d;
    ghost var j := 0;
    while true
      invariant j < |ns| && p == ns[j] && size == Sum(sizes[..j])
      decreases |ns| - j
    {
      SumNext(sizes, j);
      size := size + NodeSize(p);
      if !p.more {
        assert sizes[..j + 1] == sizes;
        return;
      }
      p := p.next;
      j := j + 1;
    }
  }

  function Lengths(cs: seq<seq<byte>>): (r: seq<nat>)
    ensures |r| == |cs|
  {
    seq(|cs|, i requires 0 <= i < |cs| => |cs[i]|)
  }

  lemma {:induction false} LengthsTotal(cs: seq<seq<byte>>, j: nat)
    requires j <= |cs|
    ensures Sum(Lengths(cs)[..j]) == Start(cs, j)
    ensures j == |cs| ==> Sum(Lengths(cs)) == Total(cs)
  {
    if j > 0 {
      LengthsTotal(cs, j - 1);
      SumNext(Lengths(cs), j - 1);
    }
    assert Lengths(cs)[..|cs|] == Lengths(cs);
  }

  // What reading a node of declared size vsize yields, when own are its bytes and cs the
  // chunks of the chain its vmem pointer leads to.
  function ReadValue(own: seq<byte>, vsize: nat, cs: seq<seq<byte>>): seq<byte> {
    if vsize == 0 then own
    else
      var all := own + Flatten(cs);
      all[..Min(vsize, |all|)]
  }

  // ----- copying -----

  method MemCpy(mem: array<byte>, pos: nat, src: array<byte>, from: nat, n: nat)
    requires mem != src && pos + n <= mem.Length && from + n <= src.Length
    modifies mem
    ensures mem[..] == Overwrite(old(mem[..]), pos, src[from..from + n])
  {
    forall i | 0 <= i < n {
      mem[pos + i] := src[from + i];
    }
  }

  // The first k bytes of a node, which are known to be the start of chunk.
  method CopyNode(mem: array<byte>, pos: nat, v: Node, k: nat, ghost chunk: seq<byte>)
    requires InBounds(v) && mem != v.data && k <= v.size && chunk == BytesOf(v) && pos + k <= mem.Length
    modifies mem
    ensures mem[..] == Overwrite(old(mem[..]), pos, chunk[..k])
  {
    SliceTake(v.data[..], v.at, v.size, k);
    MemCpy(mem, pos, v.data, v.at, k);
  }

  // The same inside a walk along the chain rest, when the first k bytes of goal have been
  // written at pos and the next n are the start of chunk j.
  method CopyAfter(mem: array<byte>, v: Node, n: nat, ghost rest: seq<Node>, ghost cs: seq<seq<byte>>, ghost j: nat,
                   ghost s0: seq<byte>, pos: nat, k: nat, ghost goal: seq<byte>)
    requires Holds(rest, cs) && Avoids(rest, mem) && j < |rest| && v == rest[j] && n <= v.size
    requires k + n <= |goal| && goal[k..k + n] == cs[j][..n]
    requires pos + |goal| <= mem.Length == |s0| && mem[..] == Overwrite(s0, pos, goal[..k])
    modifies mem
    ensures Holds(rest, cs)
    ensures mem[..] == Overwrite(s0, pos, goal[..k + n])
  {
    OverwriteTwice(s0, pos, goal[..k], cs[j][..n]);
    assert goal[..k] + cs[j][..n] == goal[..k + n];
    CopyNode(mem, pos + k, v, n, cs[j]);
  }

  // One round: when it is the last one, all of goal has been written.
  method CopyOne(p: Node, mem: array<byte>, pos: nat, done: nat, remain: nat, ghost ns: seq<Node>,
                 ghost cs: seq<seq<byte>>, ghost j: nat, ghost s0: seq<byte>, ghost goal: seq<byte>)
    returns (doSize: nat)
    requires Holds(ns, cs) && Avoids(ns, mem) && j < |ns| && p == ns[j]
    requires done <= |goal| && goal[done..] == ReadOn(cs, j, remain)
    requires pos + |goal| <= mem.Length == |s0| && mem[..] == Overwrite(s0, pos, goal[..done])
    modifies mem
    ensures doSize == Min(remain, |cs[j]|) && done + doSize <= |goal| && Holds(ns, cs)
    ensures mem[..] == Overwrite(s0, pos, goal[..done + doSize])
    ensures remain == doSize || j == |cs| - 1 ==> done + doSize == |goal| && goal[..done + doSize] == goal
    ensures remain > doSize ==> goal[done + doSize..] == ReadOn(cs, j + 1, remain - doSize)
  {
    ReadStep(cs, j, goal, done, remain);
    doSize := if remain > p.size then p.size else remain;
    CopyAfter(mem, p, doSize, ns, cs, j, s0, pos, done, goal);
  }

  // dblk_node_copy_to. A real node is copied as far as size allows; a virtual one is
  // written whole, first its own bytes, then along the vmem chain.
  method NodeCopyTo(n: Node, mem: array<byte>, pos: nat, size: nat,
                    ghost own: seq<byte>, ghost rest: seq<Node>, ghost cs: seq<seq<byte>>) returns (doSize: nat)
    requires InBounds(n) && BytesOf(n) == own && Holds(rest, cs) && Links(rest) && Ends(rest)
    requires n.vsize > n.size ==> PointsTo(n.vmem, rest, 0)
    requires mem != n.data && Avoids(rest, mem) && pos + size <= mem.Length
    requires n.vsize > 0 ==> pos + |ReadValue(own, n.vsize, cs)| <= mem.Length
    modifies mem
    ensures doSize == Min(size, NodeSize(n))
    ensures mem[..] == Overwrite(old(mem[..]), pos, if n.vsize == 0 then own[..doSize] else ReadValue(own, n.vsize, cs))
  {
    if n.vsize == 0 {
      doSize := if size > n.size then n.size else size;
      CopyNode(mem, pos, n, doSize, own);
    } else {
      doSize := if size > n.vsize then n.vsize else size;
      if n.vsize > n.size {
        CopyVirtual(n, mem, pos, own, rest, cs);
      } else {
        TakeWithin(own, Flatten(cs), n.vsize);
        CopyNode(mem, pos, n, n.vsize, own);
      }
    }
  }

  method CopyVirtual(n: Node, mem: array<byte>, pos: nat,
                     ghost own: seq<byte>, ghost rest: seq<Node>, ghost cs: seq<seq<byte>>)
    requires InBounds(n) && BytesOf(n) == own && Holds(rest, cs) && Links(rest) && Ends(rest) && PointsTo(n.vmem, rest, 0)
    requires mem != n.data && Avoids(rest, mem) && n.vsize > n.size
    requires pos + |ReadValue(own, n.vsize, cs)| <= mem.Length
    modifies mem
    ensures mem[..] == Overwrite(old(mem[..]), pos, ReadValue(own, n.vsize, cs))
  {
    ghost var s0 := mem[..];
    ReadStart(own, cs, n.vsize);
    CopyNode(mem, pos, n, n.size, own);
    WalkVmem(n.vmem, mem, pos, n.size, n.vsize - n.size, rest, cs, s0, ReadValue(own, n.vsize, cs));
  }

  // The walk along the vmem chain, after the first own bytes of goal have been written.
  method WalkVmem(vmem: Node?, mem: array<byte>, pos: nat, own: nat, want: nat, ghost rest: seq<Node>,
                  ghost cs: seq<seq<byte>>, ghost s0: seq<byte>, ghost goal: seq<byte>)
    requires Holds(rest, cs) && Links(rest) && Ends(rest) && Avoids(rest, mem) && PointsTo(vmem, rest, 0)
    requires own <= |goal| && want > 0 && goal[own..] == ReadOn(cs, 0, want)
    requires pos + |goal| <= mem.Length == |s0| && mem[..] == Overwrite(s0, pos, goal[..own])
    modifies mem
    ensures mem[..] == Overwrite(s0, pos, goal)
  {
    hide ReadOn, Overwrite;
    var remain, k, v := want, own, vmem;
    ghost var j := 0;
    while remain > 0 && v != null
      invariant PointsTo(v, rest, j) && Holds(rest, cs)
      invariant 0 <= k <= |goal| && remain > 0 && goal[k..] == ReadOn(cs, j, remain)
      invariant mem[..] == Overwrite(s0, pos, goal[..k])
      decreases |rest| - j
    {
      var n := CopyOne(v, mem, pos, k, remain, rest, cs, j, s0, goal);
      k := k + n;
      if remain <= v.size {
        return;
      }
      remain := remain - n;
      v := v.next;
      j := j + 1;
    }
    WalkedOff(cs, goal, k, remain);
  }

  // At the end of the chain nothing is left to read.
  lemma WalkedOff(cs: seq<seq<byte>>, goal: seq<byte>, k: nat, remain: nat)
    requires k <= |goal| && goal[k..] == ReadOn(cs, |cs|, remain)
    ensures goal[..k] == goal
  {
    assert |goal[k..]| == 0;
  }

  // What the walk reads from chunk j on when remain bytes are wanted.
  function ReadOn(cs: seq<seq<byte>>, j: nat, remain: nat): seq<byte>
    requires j <= |cs|
    decreases |cs| - j
  {
    if j == |cs| then []
    else if remain > |cs[j]| then cs[j] + ReadOn(cs, j + 1, remain - |cs[j]|)
    else cs[j][..remain]
  }

  lemma ReadStep(cs: seq<seq<byte>>, j: nat, goal: seq<byte>, k: nat, remain: nat)
    requires j < |cs| && k <= |goal| && goal[k..] == ReadOn(cs, j, remain)
    ensures var n := Min(remain, |cs[j]|);
            && k + n <= |goal| && goal[k..k + n] == cs[j][..n]
            && if remain > |cs[j]| then goal[k + n..] == ReadOn(cs, j + 1, remain - n) else k + n == |goal|
  {
    var n, r := Min(remain, |cs[j]|), ReadOn(cs, j, remain);
    assert |r| == |goal| - k;
    assert goal[k..k + n] == r[..n];
    assert goal[k + n..] == r[n..];
  }

  lemma {:induction false} ReadOnFlat(cs: seq<seq<byte>>, j: nat, remain: nat)
    requires j <= |cs|
    ensures var f := Flatten(cs[j..]); ReadOn(cs, j, remain) == f[..Min(remain, |f|)]
    decreases |cs| - j
  {
    if j < |cs| {
      assert cs[j..][1..] == cs[j + 1..] && cs[j..][0] == cs[j];
      var b := Flatten(cs[j + 1..]);
      if remain <= |cs[j]| {
        TakeWithin(cs[j], b, remain);
      } else {
        ReadOnFlat(cs, j + 1, remain - |cs[j]|);
        var k := Min(remain - |cs[j]|, |b|);
        assert (cs[j] + b)[..|cs[j]| + k] == cs[j] + b[..k];
      }
    }
  }

  lemma ReadStart(own: seq<byte>, cs: seq<seq<byte>>, vsize: nat)
    requires |own| < vsize
    ensures var goal := ReadValue(own, vsize, cs);
            && |own| <= |goal| && goal[..|own|] == own && goal[|own|..] == ReadOn(cs, 0, vsize - |own|)
    ensures own[..|own|] == own
  {
    assert cs[0..] == cs;
    ReadOnFlat(cs, 0, vsize - |own|);
    var f, all := Flatten(cs), own + Flatten(cs);
    var k := Min(vsize - |own|, |f|);
    assert all[..|own| + k] == own + f[..k];
  }
}
