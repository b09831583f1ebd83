/**
 * reorder_deltalist(access_list, chunk_size, delta_list) (elijah/provisioning/delta.py):
 * sorts the list by (delta_type, offset) and then, walking the access list backwards,
 * moves each accessed memory chunk to the front, pulling the item a moved REF_SELF item
 * refers to in front of it.
 *
 * Python compares and removes list elements by identity here, so the list is modelled as
 * a sequence of positions in the original list; two items with equal fields stay distinct.
 */
module DeltaReorder {
  import opened Wrappers
  import opened Sorting
  import opened DeltaItems

  /** The positions 0 .. n-1. */
  function Range(n: nat): (r: seq<nat>)
    ensures |r| == n && forall i :: 0 <= i < n ==> r[i] == i
  {
    seq(n, i => i)
  }

  /** `list.reverse()` */
  function Reversed<T>(s: seq<T>): (r: seq<T>)
    ensures |r| == |s| && forall i :: 0 <= i < |s| ==> r[i] == s[|s| - 1 - i]
  {
    if s == [] then [] else Reversed(s[1..]) + [s[0]]
  }

  /**
   * delta_dict after `for item in delta_list: delta_dict[item.index] = item`: each index
   * maps to the last position holding it.
   */
  function IndexDict(items: seq<DeltaItem>): (r: map<int, nat>)
    ensures forall k :: k in r <==> exists i :: 0 <= i < |items| && Index(items[i]) == k
    ensures forall k :: k in r ==> r[k] < |items| && Index(items[r[k]]) == k
    ensures forall k, j :: k in r && r[k] < j < |items| ==> Index(items[j]) != k
  {
    if items == [] then map[]
    else
      var n := |items| - 1;
      var prev := IndexDict(items[..n]);
      IndexDictExtend(items, prev);
      prev[Index(items[n]) := n]
  }

  /** Entering the last item over the table of the others keeps the three facts of IndexDict. */
  lemma IndexDictExtend(items: seq<DeltaItem>, prev: map<int, nat>)
    requires items != []
    requires var front := items[..|items| - 1];
             && (forall k :: k in prev <==> exists i :: 0 <= i < |front| && Index(front[i]) == k)
             && (forall k :: k in prev ==> prev[k] < |front| && Index(front[prev[k]]) == k)
             && (forall k, j :: k in prev && prev[k] < j < |front| ==> Index(front[j]) != k)
    ensures var r := prev[Index(items[|items| - 1]) := |items| - 1];
            && (forall k :: k in r <==> exists i :: 0 <= i < |items| && Index(items[i]) == k)
            && (forall k :: k in r ==> r[k] < |items| && Index(items[r[k]]) == k)
            && (forall k, j :: k in r && r[k] < j < |items| ==> Index(items[j]) != k)
  {
    var front := items[..|items| - 1];
    ExtendKeys(items, front, prev);
    ExtendValues(items, front, prev);
    ExtendLater(items, front, prev);
  }

  lemma ExtendKeys(items: seq<DeltaItem>, front: seq<DeltaItem>, prev: map<int, nat>)
    requires items != [] && front == items[..|items| - 1]
    requires forall k :: k in prev <==> exists i :: 0 <= i < |front| && Index(front[i]) == k
    ensures var r := prev[Index(items[|items| - 1]) := |items| - 1];
            forall k :: k in r <==> exists i :: 0 <= i < |items| && Index(items[i]) == k
  {
    var n := |items| - 1;
    var r := prev[Index(items[n]) := n];
    forall k | k in r
      ensures exists i :: 0 <= i < |items| && Index(items[i]) == k
    {
      if k != Index(items[n]) {
        var i :| 0 <= i < n && Index(front[i]) == k;
        assert items[i] == front[i];
      }
    }
    forall k | exists i :: 0 <= i < |items| && Index(items[i]) == k
      ensures k in r
    {
      var i :| 0 <= i < |items| && Index(items[i]) == k;
      if i < n {
        assert items[i] == front[i];
      }
    }
  }

  lemma ExtendValues(items: seq<DeltaItem>, front: seq<DeltaItem>, prev: map<int, nat>)
    requires items != [] && front == items[..|items| - 1]
    requires forall k :: k in prev ==> prev[k] < |front| && Index(front[prev[k]]) == k
    ensures var r := prev[Index(items[|items| - 1]) := |items| - 1];
            forall k :: k in r ==> r[k] < |items| && Index(items[r[k]]) == k
  {
    var n := |items| - 1;
    forall k | k in prev && k != Index(items[n])
      ensures Index(items[prev[k]]) == k
    {
      assert items[prev[k]] == front[prev[k]];
    }
  }

  lemma ExtendLater(items: seq<DeltaItem>, front: seq<DeltaItem>, prev: map<int, nat>)
    requires items != [] && front == items[..|items| - 1]
    requires forall k :: k in prev ==> prev[k] < |front|
    requires forall k, j :: k in prev && prev[k] < j < |front| ==> Index(front[j]) != k
    ensures var r := prev[Index(items[|items| - 1]) := |items| - 1];
            forall k, j :: k in r && r[k] < j < |items| ==> Index(items[j]) != k
  {
    var n := |items| - 1;
    forall k, j | k in prev && k != Index(items[n]) && prev[k] < j < n
      ensures Index(items[j]) != k
    {
      assert items[j] == front[j];
    }
  }

  /** `list.remove(x)`: the first occurrence of x is dropped. */
  function Remove(s: seq<nat>, x: nat): (r: seq<nat>)
    ensures x !in s ==> r == s
  {
    if s == [] then []
    else
      assert s == [s[0]] + s[1..];
      if s[0] == x then s[1..]
      else [s[0]] + Remove(s[1..], x)
  }

  /** Removing a present element takes exactly one copy of it out of the multiset. */
  lemma {:induction false} RemovePermutes(s: seq<nat>, x: nat)
    requires x in s
    ensures multiset(Remove(s, x)) == multiset(s) - multiset{x}
  {
    assert s == [s[0]] + s[1..];
    if s[0] != x {
      RemovePermutes(s[1..], x);
    }
  }

  /** `list.remove(x); list.insert(0, x)` */
  function ToFront(s: seq<nat>, x: nat): seq<nat>
  {
    [x] + Remove(s, x)
  }

  lemma ToFrontPermutes(s: seq<nat>, x: nat)
    requires x in s
    ensures multiset(ToFront(s, x)) == multiset(s)
    ensures ToFront(s, x)[0] == x
  {
    RemovePermutes(s, x);
  }

  /** The sort key itemgetter('delta_type', 'offset') of a position. */
  function TypeOffsetKey(items: seq<DeltaItem>): nat -> seq<int>
  {
    (id: nat) => if id < |items| then [items[id].deltaType, items[id].offset] else []
  }

  const KEY_ERROR: string := "KeyError: self reference not in delta_dict"

  /** One access-list entry: the memory chunk it names is moved to the front, and its reference before it. */
  function Step(items: seq<DeltaItem>, dict: map<int, nat>, chunkSize: int, order: seq<nat>, chunk: int): Result<seq<nat>, string>
  {
    var ci := GetIndex(DELTA_MEMORY, chunk * chunkSize);
    if ci !in dict then Success(order)
    else
      var id := dict[ci];
      var moved := ToFront(order, id);
      if id < |items| && items[id].refId == REF_SELF then
        if items[id].data.Num? && items[id].data.n in dict then Success(ToFront(moved, dict[items[id].data.n]))
        else Failure(KEY_ERROR)
      else Success(moved)
  }

  /** The steps for a (reversed) access list, in order; the first KeyError ends the walk. */
  function Run(items: seq<DeltaItem>, dict: map<int, nat>, chunkSize: int, order: seq<nat>, chunks: seq<int>): Result<seq<nat>, string>
    decreases |chunks|
  {
    if chunks == [] then Success(order)
    else
      match Step(items, dict, chunkSize, order, chunks[0])
      case Failure(e) => Failure(e)
      case Success(o) => Run(items, dict, chunkSize, o, chunks[1..])
  }

  /** A list of positions each appearing once, that is a permutation of 0 .. n-1. */
  ghost predicate IsPermutation(order: seq<nat>, n: nat)
  {
    multiset(order) == multiset(Range(n))
  }

  lemma PermutationMembers(order: seq<nat>, n: nat, x: nat)
    requires IsPermutation(order, n) && x < n
    ensures x in order
  {
    assert Range(n)[x] == x;
    assert x in multiset(Range(n));
  }

  /** Every entry of a permutation of 0 .. n-1 is a position below n. */
  lemma PermutationBelow(order: seq<nat>, n: nat)
    requires IsPermutation(order, n)
    ensures forall k :: 0 <= k < |order| ==> order[k] < n
  {
    forall k | 0 <= k < |order|
      ensures order[k] < n
    {
      assert order[k] in multiset(order);
      assert order[k] in Range(n);
    }
  }

  /** A successful step leaves a permutation of the positions. */
  lemma StepPermutes(items: seq<DeltaItem>, dict: map<int, nat>, chunkSize: int, order: seq<nat>, chunk: int)
    requires IsPermutation(order, |items|)
    requires forall k :: k in dict ==> dict[k] < |items|
    requires Step(items, dict, chunkSize, order, chunk).Success?
    ensures IsPermutation(Step(items, dict, chunkSize, order, chunk).value, |items|)
  {
    var ci := GetIndex(DELTA_MEMORY, chunk * chunkSize);
    if ci in dict {
      var id := dict[ci];
      PermutationMembers(order, |items|, id);
      ToFrontPermutes(order, id);
      var moved := ToFront(order, id);
      if items[id].refId == REF_SELF {
        var ref := dict[items[id].data.n];
        PermutationMembers(moved, |items|, ref);
        ToFrontPermutes(moved, ref);
      }
    }
  }

  /** A successful walk leaves a permutation of the positions: no item is lost or duplicated. */
  lemma {:induction false} RunPermutes(items: seq<DeltaItem>, chunkSize: int, order: seq<nat>, chunks: seq<int>)
    requires IsPermutation(order, |items|)
    requires Run(items, IndexDict(items), chunkSize, order, chunks).Success?
    ensures IsPermutation(Run(items, IndexDict(items), chunkSize, order, chunks).value, |items|)
    decreases |chunks|
  {
    if chunks != [] {
      StepPermutes(items, IndexDict(items), chunkSize, order, chunks[0]);
      RunPermutes(items, chunkSize, Step(items, IndexDict(items), chunkSize, order, chunks[0]).value, chunks[1..]);
    }
  }

  /** The walk's last step is the entry processed last. */
  lemma {:induction false} RunSnoc(items: seq<DeltaItem>, dict: map<int, nat>, chunkSize: int, order: seq<nat>, chunks: seq<int>, x: int)
    ensures Run(items, dict, chunkSize, order, chunks + [x]) ==
            match Run(items, dict, chunkSize, order, chunks)
            case Failure(e) => Failure(e)
            case Success(o) => Step(items, dict, chunkSize, o, x)
    decreases |chunks|
  {
    if chunks == [] {
      assert ([] + [x])[1..] == [];
    } else {
      assert (chunks + [x])[0] == chunks[0] && (chunks + [x])[1..] == chunks[1..] + [x];
      match Step(items, dict, chunkSize, order, chunks[0])
      case Failure(e) =>
      case Success(o) => RunSnoc(items, dict, chunkSize, o, chunks[1..], x);
    }
  }

  /**
   * A moved REF_SELF item ends up directly behind the item it refers to, both at the
   * front of the list (unless it refers to itself).
   */
  lemma StepPutsReferenceInFront(items: seq<DeltaItem>, chunkSize: int, order: seq<nat>, chunk: int)
    requires var dict := IndexDict(items);
             var ci := GetIndex(DELTA_MEMORY, chunk * chunkSize);
             ci in dict && items[dict[ci]].refId == REF_SELF && items[dict[ci]].data.Num? &&
             items[dict[ci]].data.n in dict && dict[items[dict[ci]].data.n] != dict[ci]
    ensures var dict := IndexDict(items);
            var id := dict[GetIndex(DELTA_MEMORY, chunk * chunkSize)];
            var r := Step(items, dict, chunkSize, order, chunk);
            r.Success? && |r.value| >= 2 && r.value[0] == dict[items[id].data.n] && r.value[1] == id
  {
    var dict := IndexDict(items);
    var id := dict[GetIndex(DELTA_MEMORY, chunk * chunkSize)];
    var ref := dict[items[id].data.n];
    var moved := ToFront(order, id);
    if ref in moved {
      RemoveKeepsOthers(moved, ref, 0);
    }
  }

  /** Removing another element leaves the one before it in place. */
  lemma RemoveKeepsOthers(s: seq<nat>, x: nat, i: nat)
    requires i < |s| && s[i] != x && forall k :: 0 <= k < i ==> s[k] != x
    ensures |Remove(s, x)| > i && Remove(s, x)[i] == s[i]
  {
    if i > 0 {
      RemoveKeepsOthers(s[1..], x, i - 1);
    }
  }

  /** A REF_SELF move whose reference is not in delta_dict raises KeyError. */
  lemma StepMissingReferenceFails(items: seq<DeltaItem>, chunkSize: int, order: seq<nat>, chunk: int)
    requires var dict := IndexDict(items);
             var ci := GetIndex(DELTA_MEMORY, chunk * chunkSize);
             ci in dict && items[dict[ci]].refId == REF_SELF && items[dict[ci]].data.Num? &&
             items[dict[ci]].data.n !in dict
    ensures Step(items, IndexDict(items), chunkSize, order, chunk) == Failure(KEY_ERROR)
  {
  }

  /** The first access-list entry is processed last: its item, if not REF_SELF, ends up first. */
  lemma FirstAccessEndsFirst(items: seq<DeltaItem>, chunkSize: int, order: seq<nat>, access: seq<int>)
    requires access != []
    requires var dict := IndexDict(items);
             var ci := GetIndex(DELTA_MEMORY, access[0] * chunkSize);
             ci in dict && items[dict[ci]].refId != REF_SELF
    requires Run(items, IndexDict(items), chunkSize, order, Reversed(access)).Success?
    ensures var o := Run(items, IndexDict(items), chunkSize, order, Reversed(access)).value;
            |o| > 0 && o[0] == IndexDict(items)[GetIndex(DELTA_MEMORY, access[0] * chunkSize)]
  {
    var dict := IndexDict(items);
    var front := Reversed(access[1..]);
    assert Reversed(access) == front + [access[0]];
    RunSnoc(items, dict, chunkSize, order, front, access[0]);
    StepMovesToFront(items, dict, chunkSize, Run(items, dict, chunkSize, order, front).value, access[0]);
  }

  /** A step for a chunk whose item is not REF_SELF puts that item first. */
  lemma StepMovesToFront(items: seq<DeltaItem>, dict: map<int, nat>, chunkSize: int, order: seq<nat>, chunk: int)
    requires var ci := GetIndex(DELTA_MEMORY, chunk * chunkSize);
             ci in dict && dict[ci] < |items| && items[dict[ci]].refId != REF_SELF
    ensures var r := Step(items, dict, chunkSize, order, chunk);
            r.Success? && |r.value| > 0 && r.value[0] == dict[GetIndex(DELTA_MEMORY, chunk * chunkSize)]
  {
  }

  /** The table of one more item: that item's index now names it. */
  lemma IndexDictNext(items: seq<DeltaItem>, i: nat)
    requires i < |items|
    ensures IndexDict(items[..i + 1]) == IndexDict(items[..i])[Index(items[i]) := i]
  {
    assert items[..i + 1][..i] == items[..i];
  }

  /** The delta_dict loop. */
  method BuildIndexDict(items: seq<DeltaItem>) returns (dict: map<int, nat>)
    ensures dict == IndexDict(items)
  {
    dict := map[];
    var i := 0;
    while i < |items|
      invariant 0 <= i <= |items| && dict == IndexDict(items[..i])
    {
      IndexDictNext(items, i);
      dict := dict[Index(items[i]) := i];
      i := i + 1;
    }
    assert items[..|items|] == items;
  }

  /** The walk over the entries from i on is the step for entry i, then the walk over the rest. */
  lemma RunCons(items: seq<DeltaItem>, dict: map<int, nat>, chunkSize: int, order: seq<nat>, chunks: seq<int>, i: nat)
    requires i < |chunks|
    ensures Run(items, dict, chunkSize, order, chunks[i..]) ==
            match Step(items, dict, chunkSize, order, chunks[i])
            case Failure(e) => Failure(e)
            case Success(o) => Run(items, dict, chunkSize, o, chunks[i + 1..])
  {
    assert chunks[i..][1..] == chunks[i + 1..];
  }

  /** The body of the access-list loop for one chunk. */
  method MoveChunk(items: seq<DeltaItem>, dict: map<int, nat>, chunkSize: int, order: seq<nat>, chunk: int)
    returns (r: Result<seq<nat>, string>)
    requires dict == IndexDict(items)
    ensures r == Step(items, dict, chunkSize, order, chunk)
  {
    var chunkIndex := GetIndex(DELTA_MEMORY, chunk * chunkSize);
    var moved := order;
    if chunkIndex in dict {
      var id := dict[chunkIndex];
      moved := ToFront(moved, id);
      if items[id].refId == REF_SELF {
        if !(items[id].data.Num? && items[id].data.n in dict) {
          return Failure(KEY_ERROR);
        }
        moved := ToFront(moved, dict[items[id].data.n]);
      }
    }
    return Success(moved);
  }

  /**
   * reorder_deltalist: the reordered list, or the KeyError of a self reference missing from
   * the table; the access list is reversed in either case. The final length and index
   * checks cannot fail (RunPermutes).
   */
  method ReorderDeltalist(access: seq<int>, chunkSize: int, items: seq<DeltaItem>)
    returns (r: Result<seq<DeltaItem>, string>, access': seq<int>)
    ensures access' == Reversed(access)
    ensures var run := Run(items, IndexDict(items), chunkSize, SortBy(Range(|items|), TypeOffsetKey(items)), access');
            match run
            case Failure(e) => r == Failure(e)
            case Success(o) => r.Success? && |r.value| == |o| &&
                               forall k :: 0 <= k < |o| ==> o[k] < |items| && r.value[k] == items[o[k]]
  {
    var dict := BuildIndexDict(items);
    var order: seq<nat> := SortBy(Range(|items|), TypeOffsetKey(items));
    access' := Reversed(access);
    ghost var sorted := order;
    var i := 0;
    while i < |access'|
      invariant 0 <= i <= |access'|
      invariant Run(items, dict, chunkSize, order, access'[i..]) == Run(items, dict, chunkSize, sorted, access')
    {
      RunCons(items, dict, chunkSize, order, access', i);
      var moved := MoveChunk(items, dict, chunkSize, order, access'[i]);
      if moved.Failure? {
        return Failure(moved.error), access';
      }
      order := moved.value;
      i := i + 1;
    }
    assert access'[i..] == [];
    assert IsPermutation(sorted, |items|);
    RunPermutes(items, chunkSize, sorted, access');
    PermutationBelow(order, |items|);
    r := Success(seq(|order|, k requires 0 <= k < |order| => items[order[k]]));
  }
}
