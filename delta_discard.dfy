/**
 * discard_free_chunks(merged_modified_list, chunk_size, disk_discard, memory_discard)
 * (elijah/provisioning/delta.py): drops every disk item whose chunk the guest marked as
 * discarded (TRIM) and every memory item whose page the guest had free.
 *
 * The list is changed with `list.remove(item)`, which finds the item by identity, so the
 * model follows the surviving positions of the original list. A discard map is given by
 * the chunk numbers whose entry is not None; None stands for an absent map.
 */
module DeltaDiscard {
  import opened Wrappers
  import opened Bytes
  import opened DeltaItems
  import opened DeltaReorder

  const ZERO_DIVISION: string := "ZeroDivisionError: integer division or modulo by zero"

  /** The item's chunk number is listed in the map for its kind. */
  predicate Discarded(item: DeltaItem, chunkSize: int, disk: set<int>, memory: set<int>)
    requires chunkSize != 0
  {
    var chunk := FloorDiv(item.offset, chunkSize);
    (item.deltaType == DELTA_DISK && chunk in disk) || (item.deltaType == DELTA_MEMORY && chunk in memory)
  }

  /** The items that are not discarded, in their order. */
  function Kept(items: seq<DeltaItem>, chunkSize: int, disk: set<int>, memory: set<int>): (r: seq<DeltaItem>)
    requires chunkSize != 0
    ensures |r| <= |items|
    ensures forall x :: x in r <==> x in items && !Discarded(x, chunkSize, disk, memory)
  {
    if items == [] then []
    else
      var n := |items| - 1;
      var front := Kept(items[..n], chunkSize, disk, memory);
      assert items == items[..n] + [items[n]];
      if Discarded(items[n], chunkSize, disk, memory) then front else front + [items[n]]
  }

  function OrEmpty(m: Option<set<int>>): set<int>
  {
    if m.None? then {} else m.value
  }

  /**
   * The list after discard_free_chunks: the offset of every item is divided by chunk_size
   * (so a zero chunk size raises as soon as there is an item), then the discarded items go.
   */
  function FreeChunksDiscarded(items: seq<DeltaItem>, chunkSize: int, diskDiscard: Option<set<int>>, memoryDiscard: Option<set<int>>)
    : (r: Result<seq<DeltaItem>, string>)
    ensures r.Failure? <==> chunkSize == 0 && items != []
  {
    if items == [] then Success([])
    else if chunkSize == 0 then Failure(ZERO_DIVISION)
    else Success(Kept(items, chunkSize, OrEmpty(diskDiscard), OrEmpty(memoryDiscard)))
  }

  /** The positions below n that are not in s, in increasing order. */
  function Keep(n: nat, s: set<nat>): (r: seq<nat>)
    ensures forall k :: 0 <= k < |r| ==> r[k] < n
  {
    if n == 0 then [] else Keep(n - 1, s) + (if n - 1 in s then [] else [n - 1])
  }

  /** Keep(n, s) holds exactly the positions below n outside s. */
  lemma {:induction false} KeepMembers(n: nat, s: set<nat>)
    ensures forall x: nat :: x in Keep(n, s) <==> x < n && x !in s
  {
    if n > 0 {
      KeepMembers(n - 1, s);
      var tail: seq<nat> := if n - 1 in s then [] else [n - 1];
      assert Keep(n, s) == Keep(n - 1, s) + tail;
      assert forall x: nat :: x in Keep(n, s) <==> x in Keep(n - 1, s) || x in tail;
    }
  }

  /** The items at the given positions. */
  function Pick(items: seq<DeltaItem>, ps: seq<nat>): (r: seq<DeltaItem>)
    requires forall k :: 0 <= k < |ps| ==> ps[k] < |items|
    ensures |r| == |ps| && forall k :: 0 <= k < |ps| ==> r[k] == items[ps[k]]
  {
    seq(|ps|, k requires 0 <= k < |ps| => items[ps[k]])
  }

  function Elems(s: seq<nat>): set<nat>
  {
    set x | x in s
  }

  /** `list.remove(x)` on a concatenation touches the part holding the first x. */
  lemma {:induction false} RemoveAppend(a: seq<nat>, b: seq<nat>, x: nat)
    ensures x in a ==> Remove(a + b, x) == Remove(a, x) + b
    ensures x !in a ==> Remove(a + b, x) == a + Remove(b, x)
  {
    if a != [] {
      assert (a + b)[0] == a[0] && (a + b)[1..] == a[1..] + b;
      assert a == [a[0]] + a[1..];
      RemoveAppend(a[1..], b, x);
      if a[0] != x {
        assert Remove(a + b, x) == [a[0]] + Remove(a[1..] + b, x);
        assert Remove(a, x) == [a[0]] + Remove(a[1..], x);
        if x !in a {
          assert x !in a[1..];
          assert Remove(a + b, x) == [a[0]] + (a[1..] + Remove(b, x));
        }
      }
    } else {
      assert a + b == b;
    }
  }

  /** A position at or above n does not change Keep(n, _). */
  lemma {:induction false} KeepIgnoresHigh(n: nat, s: set<nat>, p: nat)
    requires p >= n
    ensures Keep(n, s + {p}) == Keep(n, s)
  {
    if n > 0 {
      KeepIgnoresHigh(n - 1, s, p);
    }
  }

  /** Removing a surviving position from the survivors adds it to the removed set. */
  lemma {:induction false} RemoveFromKeep(n: nat, s: set<nat>, p: nat)
    requires p < n && p !in s
    ensures Remove(Keep(n, s), p) == Keep(n, s + {p})
    decreases n
  {
    if p == n - 1 {
      RemoveLastKept(n, s);
    } else {
      RemoveEarlierKept(n, s, p);
    }
  }

  lemma {:induction false} RemoveLastKept(n: nat, s: set<nat>)
    requires 0 < n && n - 1 !in s
    ensures Remove(Keep(n, s), n - 1) == Keep(n, s + {n - 1})
  {
    var front := Keep(n - 1, s);
    var last: seq<nat> := [n - 1];
    assert Keep(n, s) == front + last;
    assert n - 1 !in front;
    RemoveAppend(front, last, n - 1);
    assert Remove(last, n - 1) == [];
    KeepIgnoresHigh(n - 1, s, n - 1);
    assert n - 1 in s + {n - 1};
    assert Keep(n, s + {n - 1}) == Keep(n - 1, s + {n - 1}) + [];
  }

  lemma {:induction false} RemoveEarlierKept(n: nat, s: set<nat>, p: nat)
    requires p < n - 1 && p !in s
    ensures Remove(Keep(n, s), p) == Keep(n, s + {p})
    decreases n, 0
  {
    var front := Keep(n - 1, s);
    var tail: seq<nat> := if n - 1 in s then [] else [n - 1];
    assert Keep(n, s) == front + tail;
    KeepMembers(n - 1, s);
    assert p in front;
    RemoveAppend(front, tail, p);
    assert Remove(Keep(n, s), p) == Remove(front, p) + tail;
    RemoveFromKeep(n - 1, s, p);
    assert (n - 1 in s + {p}) == (n - 1 in s);
    assert Keep(n, s + {p}) == Keep(n - 1, s + {p}) + tail;
  }

  /** Before any removal every position survives. */
  lemma {:induction false} KeepAll(n: nat)
    ensures Keep(n, {}) == Range(n)
  {
    if n > 0 {
      KeepAll(n - 1);
    }
  }

  /** Picking the surviving positions of a prefix gives the kept items of that prefix. */
  lemma {:induction false} PickKeep(items: seq<DeltaItem>, n: nat, chunkSize: int, disk: set<int>, memory: set<int>, d: set<nat>)
    requires chunkSize != 0 && n <= |items|
    requires forall k :: 0 <= k < |items| ==> (k in d <==> Discarded(items[k], chunkSize, disk, memory))
    ensures Pick(items, Keep(n, d)) == Kept(items[..n], chunkSize, disk, memory)
  {
    if n == 0 {
      assert items[..0] == [];
    } else {
      PickKeep(items, n - 1, chunkSize, disk, memory, d);
      var front := Keep(n - 1, d);
      var x := items[n - 1];
      var tail: seq<nat> := if n - 1 in d then [] else [n - 1];
      var picked: seq<DeltaItem> := if Discarded(x, chunkSize, disk, memory) then [] else [x];
      assert Keep(n, d) == front + tail;
      PickAppend(items, front, tail);
      PickOne(items, tail, picked);
      TakeSnoc(items, n);
      KeptSnoc(items[..n - 1], x, chunkSize, disk, memory);
      assert Pick(items, Keep(n, d)) == Kept(items[..n - 1], chunkSize, disk, memory) + picked;
    }
  }

  /** Picking from a concatenation of positions concatenates the picks. */
  lemma PickAppend(items: seq<DeltaItem>, a: seq<nat>, b: seq<nat>)
    requires forall k :: 0 <= k < |a| ==> a[k] < |items|
    requires forall k :: 0 <= k < |b| ==> b[k] < |items|
    ensures Pick(items, a + b) == Pick(items, a) + Pick(items, b)
  {
  }

  /** Picking at most one position gives the item there, or nothing. */
  lemma PickOne(items: seq<DeltaItem>, tail: seq<nat>, picked: seq<DeltaItem>)
    requires |tail| <= 1 && |picked| == |tail| && forall k :: 0 <= k < |tail| ==> tail[k] < |items| && picked[k] == items[tail[k]]
    ensures Pick(items, tail) == picked
  {
  }

  /** Kept on a list with one more item at the end. */
  lemma KeptSnoc(s: seq<DeltaItem>, x: DeltaItem, chunkSize: int, disk: set<int>, memory: set<int>)
    requires chunkSize != 0
    ensures Kept(s + [x], chunkSize, disk, memory)
         == Kept(s, chunkSize, disk, memory) + (if Discarded(x, chunkSize, disk, memory) then [] else [x])
  {
    assert (s + [x])[..|s|] == s;
  }

  /** Discarding twice keeps what discarding once keeps. */
  lemma {:induction false} KeptTwice(items: seq<DeltaItem>, chunkSize: int, disk: set<int>, memory: set<int>)
    requires chunkSize != 0
    ensures Kept(Kept(items, chunkSize, disk, memory), chunkSize, disk, memory) == Kept(items, chunkSize, disk, memory)
  {
    var k := Kept(items, chunkSize, disk, memory);
    forall x | x in k
      ensures !Discarded(x, chunkSize, disk, memory)
    {
    }
    NoneDiscarded(k, chunkSize, disk, memory);
  }

  /** A list none of whose items is discarded comes back unchanged. */
  lemma {:induction false} NoneDiscarded(items: seq<DeltaItem>, chunkSize: int, disk: set<int>, memory: set<int>)
    requires chunkSize != 0 && forall x :: x in items ==> !Discarded(x, chunkSize, disk, memory)
    ensures Kept(items, chunkSize, disk, memory) == items
  {
    if items != [] {
      var n := |items| - 1;
      assert forall x :: x in items[..n] ==> x in items;
      NoneDiscarded(items[..n], chunkSize, disk, memory);
      assert items == items[..n] + [items[n]];
    }
  }

  /** Applying discard_free_chunks to its own result changes nothing. */
  lemma DiscardIdempotent(items: seq<DeltaItem>, chunkSize: int, diskDiscard: Option<set<int>>, memoryDiscard: Option<set<int>>)
    requires FreeChunksDiscarded(items, chunkSize, diskDiscard, memoryDiscard).Success?
    ensures var once := FreeChunksDiscarded(items, chunkSize, diskDiscard, memoryDiscard).value;
            FreeChunksDiscarded(once, chunkSize, diskDiscard, memoryDiscard) == Success(once)
  {
    if items != [] {
      KeptTwice(items, chunkSize, OrEmpty(diskDiscard), OrEmpty(memoryDiscard));
    }
  }

  /** The positions collected from the first i items: increasing, and exactly the discarded ones. */
  ghost predicate Collected(items: seq<DeltaItem>, chunkSize: int, disk: set<int>, memory: set<int>, removing: seq<nat>, i: nat)
  {
    && (forall a :: 0 <= a < |removing| ==> removing[a] < i)
    && (forall a, b :: 0 <= a < b < |removing| ==> removing[a] < removing[b])
    && (chunkSize != 0 ==> forall k :: 0 <= k < i && k < |items| ==> (k in removing <==> Discarded(items[k], chunkSize, disk, memory)))
  }

  /** Looking at item i appends i to the collected positions exactly when it is discarded. */
  lemma CollectStep(items: seq<DeltaItem>, chunkSize: int, disk: set<int>, memory: set<int>, removing: seq<nat>, i: nat)
    requires chunkSize != 0 && i < |items| && Collected(items, chunkSize, disk, memory, removing, i)
    ensures Collected(items, chunkSize, disk, memory,
                      removing + if Discarded(items[i], chunkSize, disk, memory) then [i] else [], i + 1)
  {
    var next := removing + if Discarded(items[i], chunkSize, disk, memory) then [i] else [];
    assert forall k :: k in next <==> k in removing || (k == i && Discarded(items[i], chunkSize, disk, memory));
  }

  /** Removing the next collected position extends the removed set by it. */
  lemma RemoveNext(n: nat, removing: seq<nat>, t: nat)
    requires t < |removing| && forall a :: 0 <= a < |removing| ==> removing[a] < n
    requires forall a, b :: 0 <= a < b < |removing| ==> removing[a] < removing[b]
    ensures Remove(Keep(n, Elems(removing[..t])), removing[t]) == Keep(n, Elems(removing[..t + 1]))
  {
    var done := removing[..t];
    var p := removing[t];
    assert p !in Elems(done);
    RemoveFromKeep(n, Elems(done), p);
    TakeSnoc(removing, t + 1);
    assert Elems(removing[..t + 1]) == Elems(done) + {p};
  }

  /** The `list.remove` loop over the collected positions, on the positions 0 .. n-1 of the list. */
  method RemoveEach(n: nat, removing: seq<nat>) returns (live: seq<nat>)
    requires forall a :: 0 <= a < |removing| ==> removing[a] < n
    requires forall a, b :: 0 <= a < b < |removing| ==> removing[a] < removing[b]
    ensures live == Keep(n, Elems(removing))
  {
    live := Range(n);
    KeepAll(n);
    assert removing[..0] == [] && Elems([]) == {};
    var t := 0;
    while t < |removing|
      invariant 0 <= t <= |removing| && live == Keep(n, Elems(removing[..t]))
    {
      RemoveNext(n, removing, t);
      live := Remove(live, removing[t]);
      t := t + 1;
    }
    assert removing[..t] == removing;
  }

  /** discard_free_chunks: collect the items to remove, then remove them one by one. */
  method DiscardFreeChunks(items: seq<DeltaItem>, chunkSize: int, diskDiscard: Option<set<int>>, memoryDiscard: Option<set<int>>)
    returns (r: Result<seq<DeltaItem>, string>)
    ensures r == FreeChunksDiscarded(items, chunkSize, diskDiscard, memoryDiscard)
  {
    var disk := OrEmpty(diskDiscard);
    var memory := OrEmpty(memoryDiscard);
    var removing: seq<nat> := [];
    var i := 0;
    while i < |items|
      invariant 0 <= i <= |items| && (i > 0 ==> chunkSize != 0)
      invariant Collected(items, chunkSize, disk, memory, removing, i)
    {
      if chunkSize == 0 {
        return Failure(ZERO_DIVISION);
      }
      var item := items[i];
      var chunk := FloorDiv(item.offset, chunkSize);
      ghost var before := removing;
      if item.deltaType == DELTA_DISK && chunk in disk {
        removing := removing + [i];
      }
      if item.deltaType == DELTA_MEMORY && chunk in memory {
        removing := removing + [i];
      }
      CollectStep(items, chunkSize, disk, memory, before, i);
      assert removing == before + if Discarded(item, chunkSize, disk, memory) then [i] else [];
      i := i + 1;
    }
    if items == [] {
      return Success([]);
    }
    var n := |items|;
    var live := RemoveEach(n, removing);
    PickKeep(items, n, chunkSize, disk, memory, Elems(removing));
    assert items[..n] == items;
    r := Success(Pick(items, live));
  }
}
