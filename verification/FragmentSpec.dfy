// How dblk_fragment walks a block, on values: the block is a list of byte chunks.
module FragmentSpec {
  import opened Bytes

  // The place in the block where a fragment starts: a node and an offset in it. An offset
  // equal to the node's size is possible and means that the bytes come from later nodes.
  datatype Cursor = Cursor(node: nat, off: nat)

  // Number of bytes before node i.
  function Start(cs: seq<seq<byte>>, i: nat): nat
    requires i <= |cs|
  {
    if i == 0 then 0 else Start(cs, i - 1) + |cs[i - 1]|
  }

  function Total(cs: seq<seq<byte>>): nat {
    Start(cs, |cs|)
  }

  function FragmentCount(total: nat, fsize: nat): nat
    requires fsize > 0
  {
    total / fsize + (if total % fsize > 0 then 1 else 0)
  }

  // The inner loop: from node j on, find the node that holds the remain-th byte; at the
  // final node it stops even when the byte is not there.
  function Walk(cs: seq<seq<byte>>, j: nat, remain: nat): Cursor
    decreases |cs| - j
  {
    if j >= |cs| then Cursor(j, remain)
    else if |cs[j]| < remain then
      if j == |cs| - 1 then Cursor(j, remain - |cs[j]|) else Walk(cs, j + 1, remain - |cs[j]|)
    else Cursor(j, remain)
  }

  // One round of the outer loop.
  function NextCursor(cs: seq<seq<byte>>, c: Cursor, fsize: nat): Cursor
    requires c.node < |cs|
  {
    var size := |cs[c.node]|;
    if size > c.off + fsize then Cursor(c.node, c.off + fsize)
    else if size < c.off + fsize then Walk(cs, c.node + 1, c.off + fsize - size)
    else Cursor(c.node + 1, 0)
  }

  // Where fragment i starts; once off the block, nowhere.
  function CursorAt(cs: seq<seq<byte>>, fsize: nat, i: nat): Cursor {
    if i == 0 then Cursor(0, 0)
    else
      var c := CursorAt(cs, fsize, i - 1);
      if c.node < |cs| then NextCursor(cs, c, fsize) else c
  }

  // The vsize written for a fragment: cut short only when its first node is the final one.
  function VSize(cs: seq<seq<byte>>, c: Cursor, fsize: nat): nat
    requires c.node < |cs| && c.off <= |cs[c.node]|
  {
    if |cs[c.node]| < c.off + fsize && c.node == |cs| - 1 then |cs[c.node]| - c.off else fsize
  }

  // The bytes from a cursor on.
  function From(cs: seq<seq<byte>>, c: Cursor): seq<byte>
    requires c.node < |cs| && c.off <= |cs[c.node]|
  {
    cs[c.node][c.off..] + Flatten(cs[c.node + 1..])
  }

  // Fragment i of the specification: the i-th stretch of fsize bytes of the flat block.
  function Stretch(flat: seq<byte>, fsize: nat, i: nat): seq<byte>
    requires i * fsize <= |flat|
  {
    flat[i * fsize..Min(i * fsize + fsize, |flat|)]
  }

  lemma {:induction false} StartFlat(cs: seq<seq<byte>>, i: nat)
    requires i <= |cs|
    ensures Start(cs, i) <= |Flatten(cs)| && Flatten(cs)[Start(cs, i)..] == Flatten(cs[i..])
    ensures Start(cs, i) + |Flatten(cs[i..])| == |Flatten(cs)|
  {
    if i == 0 {
      assert cs[0..] == cs;
    } else {
      StartFlat(cs, i - 1);
      var t := cs[i - 1..];
      assert t[0] == cs[i - 1] && t[1..] == cs[i..];
      DropPast(t[0], Flatten(t[1..]), 0);
      DropDrop(Flatten(cs), Start(cs, i - 1), |t[0]|);
    }
  }

  lemma DropDrop<T>(s: seq<T>, i: nat, k: nat)
    requires i + k <= |s|
    ensures s[i..][k..] == s[i + k..]
  {
  }

  lemma TotalFlat(cs: seq<seq<byte>>)
    ensures Total(cs) == |Flatten(cs)|
  {
    StartFlat(cs, |cs|);
    assert cs[|cs|..] == [];
  }

  // The walk keeps its position as long as the byte looked for is in the block.
  lemma {:induction false} WalkPosition(cs: seq<seq<byte>>, j: nat, remain: nat)
    requires j <= |cs| && 0 < remain && Start(cs, j) + remain <= Total(cs)
    ensures var c := Walk(cs, j, remain);
            j <= c.node < |cs| && 0 < c.off <= |cs[c.node]| && Start(cs, c.node) + c.off == Start(cs, j) + remain
    decreases |cs| - j
  {
    if |cs[j]| < remain {
      assert Start(cs, j + 1) == Start(cs, j) + |cs[j]|;
      if j < |cs| - 1 {
        WalkPosition(cs, j + 1, remain - |cs[j]|);
      }
    }
  }

  // Fragment i starts at byte i*fsize of the block.
  lemma {:induction false} CursorPosition(cs: seq<seq<byte>>, fsize: nat, i: nat)
    requires 0 < fsize && cs != [] && i * fsize < Total(cs)
    ensures var c := CursorAt(cs, fsize, i);
            c.node < |cs| && c.off <= |cs[c.node]| && Start(cs, c.node) + c.off == i * fsize
  {
    if i > 0 {
      assert i * fsize == (i - 1) * fsize + fsize;
      CursorPosition(cs, fsize, i - 1);
      NextPosition(cs, CursorAt(cs, fsize, i - 1), fsize);
    }
  }

  lemma NextPosition(cs: seq<seq<byte>>, c: Cursor, fsize: nat)
    requires 0 < fsize && c.node < |cs| && c.off <= |cs[c.node]| && Start(cs, c.node) + c.off + fsize < Total(cs)
    ensures var d := NextCursor(cs, c, fsize);
            d.node < |cs| && d.off <= |cs[d.node]| && Start(cs, d.node) + d.off == Start(cs, c.node) + c.off + fsize
  {
    var size := |cs[c.node]|;
    assert Start(cs, c.node + 1) == Start(cs, c.node) + size;
    if size < c.off + fsize {
      WalkPosition(cs, c.node + 1, c.off + fsize - size);
    }
  }

  lemma FromFlat(cs: seq<seq<byte>>, c: Cursor)
    requires c.node < |cs| && c.off <= |cs[c.node]|
    ensures Start(cs, c.node) + c.off <= |Flatten(cs)|
    ensures From(cs, c) == Flatten(cs)[Start(cs, c.node) + c.off..]
  {
    StartFlat(cs, c.node);
    var t := cs[c.node..];
    assert t[0] == cs[c.node] && t[1..] == cs[c.node + 1..];
    DropAppend(t[0], Flatten(t[1..]), c.off);
    DropDrop(Flatten(cs), Start(cs, c.node), c.off);
  }

  // How many fragments: i*fsize is inside the block exactly for i below the count.
  lemma CountIs(total: nat, fsize: nat, i: nat)
    requires fsize > 0
    ensures i < FragmentCount(total, fsize) <==> i * fsize < total
  {
    var q, r := total / fsize, total % fsize;
    assert total == q * fsize + r;
    if i <= q {
      assert i * fsize <= q * fsize by { MulMono(i, q, fsize); }
      if i < q {
        MulMono(i + 1, q, fsize);
      }
    } else {
      MulMono(q + 1, i, fsize);
    }
  }

  lemma MulMono(a: nat, b: nat, f: nat)
    requires a <= b
    ensures a * f <= b * f
    ensures (a + 1) * f == a * f + f
  {
  }

  // Reading a fragment through its cursor and vsize gives its stretch of the block, even
  // when vsize is too large: the read stops where the block ends.
  lemma FragmentReads(cs: seq<seq<byte>>, fsize: nat, i: nat)
    requires 0 < fsize && cs != [] && i < FragmentCount(Total(cs), fsize)
    ensures var c := CursorAt(cs, fsize, i);
            && c.node < |cs| && c.off <= |cs[c.node]| && i * fsize < |Flatten(cs)| == Total(cs)
            && From(cs, c)[..Min(VSize(cs, c, fsize), |From(cs, c)|)] == Stretch(Flatten(cs), fsize, i)
  {
    CountIs(Total(cs), fsize, i);
    CursorPosition(cs, fsize, i);
    TotalFlat(cs);
    ReadsAt(cs, CursorAt(cs, fsize, i), fsize, i * fsize);
  }

  lemma ReadsAt(cs: seq<seq<byte>>, c: Cursor, fsize: nat, p: nat)
    requires c.node < |cs| && c.off <= |cs[c.node]| && p == Start(cs, c.node) + c.off < |Flatten(cs)|
    ensures From(cs, c)[..Min(VSize(cs, c, fsize), |From(cs, c)|)] == Flatten(cs)[p..Min(p + fsize, |Flatten(cs)|)]
  {
    FromFlat(cs, c);
    if c.node == |cs| - 1 {
      assert cs[c.node + 1..] == [];
    }
    var flat := Flatten(cs);
    SliceTake(flat, p, |flat| - p, Min(fsize, |flat| - p));
  }

  // The declared size of fragment i is exact unless it is the last one, its stretch is cut
  // short, and its first node is not the final node of the block.
  lemma VSizeExactIff(cs: seq<seq<byte>>, fsize: nat, i: nat)
    requires 0 < fsize && cs != [] && i < FragmentCount(Total(cs), fsize)
    ensures var c := CursorAt(cs, fsize, i);
            && c.node < |cs| && c.off <= |cs[c.node]| && i * fsize < |Flatten(cs)|
            && (VSize(cs, c, fsize) == |Stretch(Flatten(cs), fsize, i)|
                <==> i * fsize + fsize <= |Flatten(cs)| || c.node == |cs| - 1)
  {
    FragmentReads(cs, fsize, i);
    var c := CursorAt(cs, fsize, i);
    CountIs(Total(cs), fsize, i);
    CursorPosition(cs, fsize, i);
    assert Start(cs, |cs|) == Start(cs, |cs| - 1) + |cs[|cs| - 1]|;
  }

  // Every stretch but the last has the full size.
  lemma FullStretch(flat: seq<byte>, fsize: nat, i: nat)
    requires 0 < fsize && i + 1 < FragmentCount(|flat|, fsize)
    ensures i * fsize <= |flat| && |Stretch(flat, fsize, i)| == fsize && i * fsize + fsize <= |flat|
  {
    CountIs(|flat|, fsize, i + 1);
    MulMono(i, i + 1, fsize);
  }

  // Concatenating the first n stretches.
  function Joined(flat: seq<byte>, fsize: nat, n: nat): seq<byte>
    requires 0 < fsize && (n == 0 || (n - 1) * fsize < |flat|)
    decreases n
  {
    if n == 0 then [] else
      assert n > 1 ==> (n - 1) * fsize == (n - 2) * fsize + fsize;
      Joined(flat, fsize, n - 1) + Stretch(flat, fsize, n - 1)
  }

  lemma {:induction false} JoinedPrefix(flat: seq<byte>, fsize: nat, n: nat)
    requires 0 < fsize && (n == 0 || (n - 1) * fsize < |flat|)
    ensures Joined(flat, fsize, n) == flat[..Min(n * fsize, |flat|)]
    decreases n
  {
    if n > 0 {
      assert n > 1 ==> (n - 1) * fsize == (n - 2) * fsize + fsize;
      assert n * fsize == (n - 1) * fsize + fsize;
      JoinedPrefix(flat, fsize, n - 1);
      var p, e := (n - 1) * fsize, Min(n * fsize, |flat|);
      assert flat[..p] + flat[p..e] == flat[..e];
    }
  }

  // All fragments together are the block.
  lemma FragmentsJoin(flat: seq<byte>, fsize: nat)
    requires 0 < fsize && flat != []
    ensures var n := FragmentCount(|flat|, fsize);
            n > 0 && (n - 1) * fsize < |flat| && Joined(flat, fsize, n) == flat
  {
    hide Joined, FragmentCount;
    var n := FragmentCount(|flat|, fsize);
    CountIs(|flat|, fsize, 0);
    CountIs(|flat|, fsize, n - 1);
    CountIs(|flat|, fsize, n);
    JoinedPrefix(flat, fsize, n);
  }

  // A fragment that starts just where the final node does is found there, and not at the
  // end of an earlier node, exactly when the one before it ends a node it lies in.
  ghost predicate StepsOnto(cs: seq<seq<byte>>, fsize: nat, i: nat)
    requires cs != []
  {
    if i == 0 then |cs| == 1
    else
      var d := CursorAt(cs, fsize, i - 1);
      d.node == |cs| - 2 && d.off + fsize == |cs[d.node]|
  }

  lemma BoundaryNode(cs: seq<seq<byte>>, fsize: nat, i: nat)
    requires 0 < fsize && cs != [] && i * fsize == Start(cs, |cs| - 1) < Total(cs)
    ensures CursorAt(cs, fsize, i).node == |cs| - 1 <==> StepsOnto(cs, fsize, i)
  {
    if i > 0 {
      MulMono(i - 1, i, fsize);
      CursorPosition(cs, fsize, i - 1);
      CursorPosition(cs, fsize, i);
      var d := CursorAt(cs, fsize, i - 1);
      assert Start(cs, d.node + 1) == Start(cs, d.node) + |cs[d.node]|;
      if |cs[d.node]| < d.off + fsize {
        WalkPosition(cs, d.node + 1, d.off + fsize - |cs[d.node]|);
      }
    }
  }

  // The last declared size is exact if and only if the fragment is full or starts in the
  // final node; it does when it starts beyond that node's first byte, or steps onto it.
  lemma LastFragmentExactIff(cs: seq<seq<byte>>, fsize: nat)
    requires 0 < fsize && Total(cs) > 0
    ensures cs != []
    ensures var n := FragmentCount(Total(cs), fsize);
            var c, p := CursorAt(cs, fsize, n - 1), (n - 1) * fsize;
            && n > 0 && c.node < |cs| && c.off <= |cs[c.node]| && p < |Flatten(cs)|
            && (VSize(cs, c, fsize) == |Stretch(Flatten(cs), fsize, n - 1)| <==>
                  p + fsize == Total(cs) || Start(cs, |cs| - 1) < p || (p == Start(cs, |cs| - 1) && StepsOnto(cs, fsize, n - 1)))
  {
    var n := FragmentCount(Total(cs), fsize);
    var p, last := (n - 1) * fsize, Start(cs, |cs| - 1);
    assert Total(cs) == last + |cs[|cs| - 1]|;
    CountIs(Total(cs), fsize, 0);
    CountIs(Total(cs), fsize, n - 1);
    CountIs(Total(cs), fsize, n);
    MulMono(n - 1, n, fsize);
    CursorPosition(cs, fsize, n - 1);
    VSizeExactIff(cs, fsize, n - 1);
    TotalFlat(cs);
    FinalNode(cs, CursorAt(cs, fsize, n - 1), p);
    if p == last {
      BoundaryNode(cs, fsize, n - 1);
    }
  }

  lemma FinalNode(cs: seq<seq<byte>>, c: Cursor, p: nat)
    requires c.node < |cs| && c.off <= |cs[c.node]| && p == Start(cs, c.node) + c.off
    ensures Start(cs, |cs| - 1) < p ==> c.node == |cs| - 1
    ensures p < Start(cs, |cs| - 1) ==> c.node < |cs| - 1
  {
    if c.node < |cs| - 1 {
      StartMono(cs, c.node + 1, |cs| - 1);
    }
  }

  lemma {:induction false} StartMono(cs: seq<seq<byte>>, i: nat, j: nat)
    requires i <= j <= |cs|
    ensures Start(cs, i) <= Start(cs, j)
    decreases j
  {
    if i < j {
      StartMono(cs, i, j - 1);
    }
  }
}
