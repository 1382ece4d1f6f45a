// The ARP table of dts_net_ether_arp.c over its bounded pool.
module ArpCache {
  import opened Bytes
  import opened MemPool

  // A timer as far as the table can see it.
  datatype Timer = Timer(expired: bool, remain: nat)

  datatype Entry = Entry(ip: seq<byte>, mac: seq<byte>, tmr: Timer)

  const LIFETIME := Timer(false, 7200)

  class Item {
    var ip: seq<byte>
    var mac: seq<byte>
    var tmr: Timer

    constructor ()
    {
      ip, mac, tmr := [], [], Timer(false, 0);
    }

    // A new binding, with a timer that starts now.
    method Fill(spa: seq<byte>, sha: seq<byte>)
      modifies this
      ensures ip == spa && mac == sha && tmr == Timer(false, 7200)
    {
      ip := spa;
      mac := sha;
      tmr := LIFETIME;
    }
  }

  // ----- the specification, on values -----

  predicate NoneExpired(es: seq<Entry>) {
    forall e :: e in es ==> !e.tmr.expired
  }

  function Live(es: seq<Entry>): (r: seq<Entry>)
    ensures |r| <= |es|
  {
    if es == [] then []
    else if es[|es| - 1].tmr.expired then Live(es[..|es| - 1]) else Live(es[..|es| - 1]) + [es[|es| - 1]]
  }

  // The first entry with the least time left.
  function Shortest(es: seq<Entry>): (k: nat)
    requires es != []
    ensures k < |es|
  {
    var n := |es| - 1;
    if n == 0 then 0
    else
      var k := Shortest(es[..n]);
      if es[n].tmr.remain < es[k].tmr.remain then n else k
  }

  function Without(es: seq<Entry>, k: nat): seq<Entry>
    requires k < |es|
  {
    es[..k] + es[k + 1..]
  }

  lemma WithoutMiddle(l: seq<Entry>, e: Entry, r: seq<Entry>)
    ensures Without(l + ([e] + r), |l|) == l + r
  {
  }

  // What a full table gives up: every expired entry or, if there is none, the one with the
  // least time left.
  function Evict(es: seq<Entry>): seq<Entry> {
    if es != [] && NoneExpired(es) then Without(es, Shortest(es)) else Live(es)
  }

  function InsertAt<T>(s: seq<T>, i: nat, x: T): seq<T>
    requires i <= |s|
  {
    s[..i] + [x] + s[i..]
  }

  lemma InsertAtIs<T>(s: seq<T>, i: nat, x: T)
    requires i <= |s|
    ensures var r := InsertAt(s, i, x); |r| == |s| + 1 && r[i] == x && r[..i] == s[..i] && r[i + 1..] == s[i..]
  {
  }

  // What a lookup answers: the first entry for the address, expired or not.
  function Lookup(es: seq<Entry>, ip: seq<byte>): Option<seq<byte>> {
    if es == [] then None
    else if es[0].ip == ip then Some(es[0].mac)
    else Lookup(es[1..], ip)
  }

  lemma {:induction false} LookupSplit(l: seq<Entry>, r: seq<Entry>, ip: seq<byte>)
    ensures Lookup(l + r, ip) == if Lookup(l, ip).Some? then Lookup(l, ip) else Lookup(r, ip)
    decreases |l|
  {
    if l == [] {
      assert l + r == r;
    } else {
      LookupSplit(l[1..], r, ip);
      assert (l + r)[1..] == l[1..] + r;
    }
  }

  // A new binding is found exactly when no entry for its address with another MAC stands
  // before it.
  lemma NewBindingFoundIff(es: seq<Entry>, k: nat, e: Entry)
    requires k <= |es|
    ensures Lookup(InsertAt(es, k, e), e.ip).Some?
    ensures Lookup(InsertAt(es, k, e), e.ip) == Some(e.mac)
       <==> Lookup(es[..k], e.ip) == None || Lookup(es[..k], e.ip) == Some(e.mac)
  {
    var r := [e] + es[k..];
    assert InsertAt(es, k, e) == es[..k] + r;
    LookupSplit(es[..k], r, e.ip);
    assert Lookup(r, e.ip) == Some(e.mac);
  }

  // An expired entry that stands before the new binding answers instead of it.
  lemma ExpiredAnswers(ip: seq<byte>, old0: seq<byte>, new0: seq<byte>)
    ensures var es := [Entry(ip, old0, Timer(true, 0))];
            Lookup(InsertAt(es, 1, Entry(ip, new0, LIFETIME)), ip) == Some(old0)
  {
    var es := [Entry(ip, old0, Timer(true, 0))];
    assert InsertAt(es, 1, Entry(ip, new0, LIFETIME))[0] == es[0];
  }

  lemma {:induction false} LiveKeeps(es: seq<Entry>)
    ensures forall e :: e in Live(es) <==> e in es && !e.tmr.expired
    ensures NoneExpired(es) <==> |Live(es)| == |es|
    decreases |es|
  {
    if es != [] {
      var p := es[..|es| - 1];
      LiveKeeps(p);
      assert es == p + [es[|es| - 1]];
    }
  }

  // The entries that are alive stay, each once and in order.
  lemma {:induction false} LiveConcat(es: seq<Entry>, fs: seq<Entry>)
    ensures Live(es + fs) == Live(es) + Live(fs)
    decreases |fs|
  {
    if fs == [] {
      assert es + fs == es;
    } else {
      hide Live;
      var p, e := fs[..|fs| - 1], fs[|fs| - 1];
      LiveConcat(es, p);
      LastOfConcat(es, fs);
      LiveSnoc(es + fs);
      LiveSnoc(fs);
      Regroup(Live(es), Live(p), [e]);
    }
  }

  lemma LastOfConcat<T>(s: seq<T>, t: seq<T>)
    requires t != []
    ensures (s + t)[..|s + t| - 1] == s + t[..|t| - 1] && (s + t)[|s + t| - 1] == t[|t| - 1]
  {
  }

  lemma Regroup<T>(a: seq<T>, b: seq<T>, c: seq<T>)
    ensures (a + b) + c == a + (b + c)
  {
  }

  lemma LiveSnoc(es: seq<Entry>)
    requires es != []
    ensures var p, e := es[..|es| - 1], es[|es| - 1]; Live(es) == if e.tmr.expired then Live(p) else Live(p) + [e]
  {
  }

  lemma LiveOne(e: Entry)
    ensures Live([e]) == if e.tmr.expired then [] else [e]
  {
    assert [e][..0] == [];
  }

  lemma {:induction false} ShortestIsLeast(es: seq<Entry>)
    requires es != []
    ensures forall e :: e in es ==> es[Shortest(es)].tmr.remain <= e.tmr.remain
    ensures forall i :: 0 <= i < Shortest(es) ==> es[Shortest(es)].tmr.remain < es[i].tmr.remain
    decreases |es|
  {
    var n := |es| - 1;
    assert es == es[..n] + [es[n]];
    if n > 0 {
      ShortestIsLeast(es[..n]);
    }
  }

  // With nothing expired exactly one entry goes, the first of those with the least time left;
  // otherwise the others stay in order (LiveConcat).
  lemma EvictsOne(es: seq<Entry>)
    requires es != [] && NoneExpired(es)
    ensures var k := Shortest(es);
            && Evict(es) == es[..k] + es[k + 1..]
            && (forall j :: 0 <= j < k ==> es[k].tmr.remain < es[j].tmr.remain)
            && (forall j :: k < j < |es| ==> es[k].tmr.remain <= es[j].tmr.remain)
  {
    ShortestIsLeast(es);
  }

  // Eviction makes room; what stays was there; an entry that goes was expired, or no entry
  // was and it had the least time left.
  lemma EvictionFair(es: seq<Entry>)
    requires es != []
    ensures |Evict(es)| < |es|
    ensures forall e :: e in Evict(es) ==> e in es
    ensures forall e :: e in es && e !in Evict(es) ==>
              e.tmr.expired || (NoneExpired(es) && forall f :: f in es ==> e.tmr.remain <= f.tmr.remain)
    ensures !NoneExpired(es) ==> forall e :: e in es && !e.tmr.expired ==> e in Evict(es)
  {
    LiveKeeps(es);
    ShortestIsLeast(es);
    if NoneExpired(es) {
      var k := Shortest(es);
      assert es == es[..k] + [es[k]] + es[k + 1..];
    }
  }

  // ----- the table -----

  class Table {
    const pool: Pool<Item>
    var items: seq<Item>
    ghost var entries: seq<Entry>
    // Every (ip, mac) pair a reply has brought.
    ghost var learned: set<(seq<byte>, seq<byte>)>

    // The slots in use are exactly the items of the table.
    ghost predicate Valid()
      reads this, pool.used, items
    {
      && pool.Valid() && |pool.slots| >= 1 && |entries| == |items|
      && (forall i, j :: 0 <= i < j < |items| ==> items[i] != items[j])
      && pool.InUse() == (set x | x in items)
      && (forall i :: 0 <= i < |items| ==> EntryOf(items[i]) == entries[i])
      && (forall e :: e in entries ==> (e.ip, e.mac) in learned)
    }

    static ghost function EntryOf(x: Item): Entry
      reads x
    {
      Entry(x.ip, x.mac, x.tmr)
    }

    constructor (slots: seq<Item>)
      requires |slots| >= 1 && forall i, j :: 0 <= i < j < |slots| ==> slots[i] != slots[j]
      ensures Valid() && entries == [] && learned == {} && pool.slots == slots && fresh(pool.used)
    {
      pool := new Pool<Item>(slots);
      items, entries, learned := [], [], {};
    }

    // ether_arp_get_mac_address: the first item whose address matches, if any.
    method GetMacAddress(target: seq<byte>) returns (mac: Option<seq<byte>>)
      requires Valid()
      ensures mac == Lookup(entries, target)
      ensures mac.Some? ==> (target, mac.value) in learned
      ensures mac.Some? ==> exists k :: 0 <= k < |entries| && entries[k].ip == target && entries[k].mac == mac.value
                                        && forall j :: 0 <= j < k ==> entries[j].ip != target
      ensures mac.None? <==> forall e :: e in entries ==> e.ip != target
    {
      for i := 0 to |items|
        invariant forall k :: 0 <= k < i ==> entries[k].ip != target
        invariant Lookup(entries, target) == Lookup(entries[i..], target)
      {
        assert EntryOf(items[i]) == entries[i] == entries[i..][0] && entries[i..][1..] == entries[i + 1..];
        if items[i].ip == target {
          assert entries[i] in entries;
          return Some(items[i].mac);
        }
      }
      return None;
    }

    // Everything but the new items' contents and the flags of the pool.
    ghost predicate Full()
      requires Valid()
      reads this, pool.used, items
    {
      forall x :: x in pool.slots ==> x in pool.InUse()
    }

    // Takes item i out of the table and gives its slot back.
    method Remove(i: nat)
      requires Valid() && i < |items|
      modifies this`items, this`entries, pool.used
      ensures Valid() && items == old(items)[..i] + old(items)[i + 1..] && entries == Without(old(entries), i)
      ensures pool.InUse() == old(pool.InUse()) - {old(items)[i]}
    {
      var dead := items[i];
      items := items[..i] + items[i + 1..];
      entries := Without(entries, i);
      pool.Free(dead);
    }

    // list_remove, for an item known to be in the table at k.
    method RemoveItem(x: Item, ghost k: nat)
      requires Valid() && k < |items| && x == items[k]
      modifies this`items, this`entries, pool.used
      ensures Valid() && items == old(items)[..k] + old(items)[k + 1..] && entries == Without(old(entries), k)
      ensures pool.InUse() == old(pool.InUse()) - {x}
    {
      var i := 0;
      while items[i] != x
        invariant i <= k
        decreases k - i
      {
        i := i + 1;
      }
      Remove(i);
    }

    // The release pass has seen m of the entries es; i of them are still in the table.
    ghost predicate Passing(es: seq<Entry>, its: seq<Item>, inUse: set<Item>, m: nat, i: nat, rmCnt: nat, shortest: Item?)
      reads this, pool.used, items
    {
      && Valid() && |its| == |es| && m <= |es|
      && i == |Live(es[..m])| && entries == Live(es[..m]) + es[m..] && rmCnt == m - i
      && (if rmCnt == 0 then NoneExpired(es[..m]) && entries == es && items == its && pool.InUse() == inUse
          else !NoneExpired(es[..m]) && pool.InUse() < inUse)
      && (shortest == null <==> i == 0)
      && (rmCnt == 0 && m > 0 ==> shortest == its[Shortest(es[..m])])
    }

    lemma PassStart(es: seq<Entry>, its: seq<Item>, inUse: set<Item>)
      requires Valid() && es == entries && its == items && inUse == pool.InUse()
      ensures Passing(es, its, inUse, 0, 0, 0, null)
    {
      assert es[..0] == [] && [] + es[0..] == es;
    }

    // The foreach loop at an expired item.
    method VisitExpired(ghost es: seq<Entry>, ghost its: seq<Item>, ghost inUse: set<Item>, ghost m: nat,
                        i: nat, rmCnt: nat, shortest: Item?)
      returns (rmCnt': nat)
      requires Passing(es, its, inUse, m, i, rmCnt, shortest) && i < |items| && items[i].tmr.expired
      modifies this`items, this`entries, pool.used
      ensures m < |es| && Passing(es, its, inUse, m + 1, i, rmCnt', shortest)
    {
      PassStep(es, m);
      WithoutMiddle(Live(es[..m]), es[m], es[m + 1..]);
      assert entries[i] == es[m] == EntryOf(items[i]);
      assert items[i] in items && items[i] in pool.InUse();
      Remove(i);
      rmCnt' := rmCnt + 1;
    }

    // The foreach loop at an item that is still alive.
    method VisitLive(ghost es: seq<Entry>, ghost its: seq<Item>, ghost inUse: set<Item>, ghost m: nat,
                     i: nat, ghost rmCnt: nat, shortest: Item?)
      returns (shortest': Item)
      requires Passing(es, its, inUse, m, i, rmCnt, shortest) && i < |items| && !items[i].tmr.expired
      ensures m < |es| && Passing(es, its, inUse, m + 1, i + 1, rmCnt, shortest')
    {
      hide Live, NoneExpired, Shortest;
      ghost var l, r := Live(es[..m]), es[m + 1..];
      PassStep(es, m);
      assert entries == l + ([es[m]] + r) == (l + [es[m]]) + r;
      assert entries[i] == es[m] == EntryOf(items[i]);
      if rmCnt == 0 && m > 0 {
        assert es[..m][Shortest(es[..m])] == EntryOf(shortest);
      }
      shortest' := if shortest == null || items[i].tmr.remain < shortest.tmr.remain then items[i] else shortest;
    }

    // The body of the foreach loop.
    method Visit(ghost es: seq<Entry>, ghost its: seq<Item>, ghost inUse: set<Item>, ghost m: nat,
                 i: nat, rmCnt: nat, shortest: Item?)
      returns (i': nat, rmCnt': nat, shortest': Item?)
      requires Passing(es, its, inUse, m, i, rmCnt, shortest) && i < |items|
      modifies this`items, this`entries, pool.used
      ensures m < |es| && Passing(es, its, inUse, m + 1, i', rmCnt', shortest') && i' <= |items|
    {
      i', rmCnt', shortest' := i, rmCnt, shortest;
      if items[i].tmr.expired {
        rmCnt' := VisitExpired(es, its, inUse, m, i, rmCnt, shortest);
      } else {
        shortest' := VisitLive(es, its, inUse, m, i, rmCnt, shortest);
        i' := i + 1;
      }
    }

    // The release pass: drop every expired item; if there was none, the one with the least
    // time left.
    method MakeRoom()
      requires Valid() && items != []
      modifies this`items, this`entries, pool.used
      ensures Valid() && entries == Evict(old(entries))
      ensures pool.InUse() < old(pool.InUse())
    {
      ghost var es, its, inUse := entries, items, pool.InUse();
      PassStart(es, its, inUse);
      ghost var m, i;
      var rmCnt, shortest;
      m, i, rmCnt, shortest := ForEach(es, its, inUse);
      Finish(es, its, inUse, m, i, rmCnt, shortest);
    }

    // The foreach loop.
    method ForEach(ghost es: seq<Entry>, ghost its: seq<Item>, ghost inUse: set<Item>)
      returns (ghost m: nat, i: nat, rmCnt: nat, shortest: Item?)
      requires Passing(es, its, inUse, 0, 0, 0, null)
      modifies this`items, this`entries, pool.used
      ensures Passing(es, its, inUse, m, i, rmCnt, shortest) && i == |items|
    {
      hide Passing;
      m, i, rmCnt, shortest := 0, 0, 0, null;
      while i < |items|
        invariant Passing(es, its, inUse, m, i, rmCnt, shortest) && i <= |items|
        decreases |es| - m
      {
        i, rmCnt, shortest := Visit(es, its, inUse, m, i, rmCnt, shortest);
        m := m + 1;
      }
    }

    method Finish(ghost es: seq<Entry>, ghost its: seq<Item>, ghost inUse: set<Item>, ghost m: nat,
                  ghost i: nat, rmCnt: nat, shortest: Item?)
      requires Passing(es, its, inUse, m, i, rmCnt, shortest) && i == |items| && es != []
      modifies this`items, this`entries, pool.used
      ensures Valid() && entries == Evict(es) && pool.InUse() < inUse
    {
      assert m == |es| && es[..m] == es;
      if rmCnt == 0 {
        assert shortest in items && shortest in pool.InUse();
        RemoveItem(shortest, Shortest(es));
      }
    }

    static lemma PassStep(es: seq<Entry>, m: nat)
      requires m < |es|
      ensures var p, q := es[..m], es[..m + 1];
              && q == p + [es[m]] && es[m..] == [es[m]] + es[m + 1..]
              && Live(q) == (if es[m].tmr.expired then Live(p) else Live(p) + [es[m]])
              && NoneExpired(q) == (NoneExpired(p) && !es[m].tmr.expired)
              && Shortest(q) == if m == 0 || es[m].tmr.remain < p[Shortest(p)].tmr.remain then m else Shortest(p)
    {
      var q := es[..m + 1];
      assert q == es[..m] + [es[m]];
      assert q[..m] == es[..m];
      forall e | e in es[..m] ensures e in q {
      }
      assert q[m] == es[m];
    }

    // The reply branch of ether_arp_ether_recv: learn the binding, making room when no slot
    // is free. at is where list_add puts the item. attempts counts the allocations tried.
    method Learn(spa: seq<byte>, sha: seq<byte>, at: nat) returns (attempts: nat)
      requires Valid() && |spa| == 4 && |sha| == 6 && at <= |items|
      modifies this`items, this`entries, this`learned, pool.used, pool.slots
      ensures Valid() && learned == old(learned) + {(spa, sha)}
      ensures var es := if old(Full()) then Evict(old(entries)) else old(entries);
              var k := Min(at, |es|);
              entries == InsertAt(es, k, Entry(spa, sha, Timer(false, 7200)))
      ensures attempts == if old(Full()) then 2 else 1
    {
      hide Evict, InsertAt;
      attempts := 0;
      while true
        invariant attempts <= 1 && Valid() && learned == old(learned)
        invariant attempts == 0 ==> items == old(items) && entries == old(entries) && pool.InUse() == old(pool.InUse())
        invariant attempts == 1 ==> old(Full()) && entries == Evict(old(entries)) && !Full()
        decreases 2 - attempts
      {
        attempts := attempts + 1;
        var x := pool.Alloc();
        if x.Some? {
          Add(x.value, spa, sha, Min(at, |items|));
          return;
        }
        assert pool.slots[0] in pool.InUse();
        MakeRoom();
      }
    }

    static lemma SetGrows(s: seq<Item>, r: seq<Item>, k: nat, x: Item)
      requires k <= |s| && r == InsertAt(s, k, x)
      ensures (set y | y in r) == (set y | y in s) + {x}
    {
      assert s == s[..k] + s[k..];
    }

    // Fills the item in and puts it in the table.
    method Add(item: Item, spa: seq<byte>, sha: seq<byte>, k: nat)
      requires pool.Valid() && |pool.slots| >= 1 && |entries| == |items| && item in pool.slots && item !in items
      requires forall i, j :: 0 <= i < j < |items| ==> items[i] != items[j]
      requires pool.InUse() == (set x | x in items) + {item}
      requires forall i :: 0 <= i < |items| ==> EntryOf(items[i]) == entries[i]
      requires forall e :: e in entries ==> (e.ip, e.mac) in learned
      requires k <= |items|
      modifies this`items, this`entries, this`learned, item
      ensures Valid() && learned == old(learned) + {(spa, sha)}
      ensures entries == InsertAt(old(entries), k, Entry(spa, sha, LIFETIME))
    {
      item.Fill(spa, sha);
      items := InsertAt(items, k, item);
      entries := InsertAt(entries, k, Entry(spa, sha, LIFETIME));
      learned := learned + {(spa, sha)};
      SetGrows(old(items), items, k, item);
      assert forall i :: 0 <= i < |old(items)| ==> old(items)[i] != item && EntryOf(old(items)[i]) == old(entries)[i];
      assert forall i, j :: 0 <= i < j < |items| ==> items[i] != items[j];
      assert forall i :: 0 <= i < |items| ==> EntryOf(items[i]) == entries[i];
      assert forall e :: e in entries ==> (e.ip, e.mac) in learned;
    }

    // At most one entry per slot.
    lemma TableBounded()
      requires Valid()
      ensures |entries| <= |pool.slots|
    {
      forall x | x in items ensures x in pool.slots {
        assert x in pool.InUse();
      }
      DistinctFit(items, pool.slots);
    }

    static lemma {:induction false} DistinctFit(xs: seq<Item>, ys: seq<Item>)
      requires forall i, j :: 0 <= i < j < |xs| ==> xs[i] != xs[j]
      requires forall x :: x in xs ==> x in ys
      ensures |xs| <= |ys|
      decreases |xs|
    {
      if xs != [] {
        var n := |xs| - 1;
        assert xs[n] in ys;
        var k :| 0 <= k < |ys| && ys[k] == xs[n];
        var zs := ys[..k] + ys[k + 1..];
        forall x | x in xs[..n] ensures x in zs {
          var i :| 0 <= i < n && xs[i] == x;
          assert xs[i] in ys;
          var j :| 0 <= j < |ys| && ys[j] == x;
          assert j != k;
          assert if j < k then zs[j] == x else zs[j - 1] == x;
        }
        DistinctFit(xs[..n], zs);
      }
    }
  }

  // Learn a binding and look it up: what is found is the new binding, or an entry that
  // eviction left standing before it.
  method LearnAndFind(t: Table, spa: seq<byte>, sha: seq<byte>, at: nat) returns (mac: Option<seq<byte>>)
    requires t.Valid() && |spa| == 4 && |sha| == 6 && at <= |t.items|
    modifies t`items, t`entries, t`learned, t.pool.used, t.pool.slots
    ensures t.Valid() && mac.Some?
    ensures var es := if old(t.Full()) then Evict(old(t.entries)) else old(t.entries);
            var before := Lookup(es[..Min(at, |es|)], spa);
            mac == Some(sha) <==> before == None || before == Some(sha)
  {
    hide Evict, Lookup;
    ghost var es := if t.Full() then Evict(t.entries) else t.entries;
    var attempts := t.Learn(spa, sha, at);
    mac := t.GetMacAddress(spa);
    NewBindingFoundIff(es, Min(at, |es|), Entry(spa, sha, LIFETIME));
  }
}
