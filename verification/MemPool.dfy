// The fixed-size pool made by MEM_ITEM_ARR_API: static slots with `used` flags.
module MemPool {
  import opened Bytes

  class Pool<T(==)> {
    const slots: seq<T>
    const used: array<bool>

    ghost predicate Valid()
      reads used
    {
      used.Length == |slots| && forall i, j :: 0 <= i < j < |slots| ==> slots[i] != slots[j]
    }

    // The slots handed out.
    ghost function InUse(): set<T>
      requires Valid()
      reads used
    {
      set i | 0 <= i < |slots| && used[i] :: slots[i]
    }

    constructor (slots: seq<T>)
      requires forall i, j :: 0 <= i < j < |slots| ==> slots[i] != slots[j]
      ensures Valid() && this.slots == slots && fresh(used) && InUse() == {}
    {
      this.slots := slots;
      used := new bool[|slots|](_ => false);
    }

    // mem_alloc_: the first free slot; NULL exactly when every slot is in use.
    method Alloc() returns (o: Option<T>)
      requires Valid()
      modifies used
      ensures Valid()
      ensures o.None? <==> forall x :: x in slots ==> x in old(InUse())
      ensures o.None? ==> InUse() == old(InUse())
      ensures o.Some? ==> o.value in slots && o.value !in old(InUse()) && InUse() == old(InUse()) + {o.value}
      ensures o.Some? ==> forall k :: 0 <= k < |slots| && slots[k] == o.value ==> forall j :: 0 <= j < k ==> slots[j] in old(InUse())
    {
      for i := 0 to |slots|
        invariant forall k :: 0 <= k < i ==> used[k]
        invariant used[..] == old(used[..])
      {
        if !used[i] {
          assert slots[i] !in InUse();
          used[i] := true;
          assert used[i] && slots[i] in InUse();
          return Some(slots[i]);
        }
      }
      forall x | x in slots ensures x in InUse() {
        var k :| 0 <= k < |slots| && slots[k] == x;
        assert used[k];
      }
      return None;
    }

    // mem_free_: clears the flag of the slot, if it is one.
    method Free(x: T)
      requires Valid()
      modifies used
      ensures Valid() && InUse() == old(InUse()) - {x}
    {
      for i := 0 to |slots|
        invariant forall k :: 0 <= k < i ==> used[k] == (old(used[k]) && slots[k] != x)
        invariant forall k :: i <= k < |slots| ==> used[k] == old(used[k])
      {
        if slots[i] == x {
          used[i] := false;
        }
      }
    }
  }
}
