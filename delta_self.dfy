/**
 * DeltaList.get_self_delta (elijah/provisioning/delta.py): sort the list by
 * (hash, type, offset) and turn every later RAW/XDELTA item of a run of equal hashes
 * into a reference to the run's first item.
 */
module DeltaSelf {
  import opened Wrappers
  import opened Bytes
  import opened Sorting
  import opened DeltaItems

  /** The sort key (hash_value, delta_type, offset). */
  function SelfKey(item: DeltaItem): seq<int>
  {
    HashKey(item.hash) + [item.deltaType, item.offset]
  }

  /** The sort key of the empty-list branch, offset alone. */
  function OffsetKey(item: DeltaItem): seq<int>
  {
    [item.offset]
  }

  /** The pivot of position i: where the run of equal hashes containing s[i] starts. */
  function RunStart(s: seq<DeltaItem>, i: nat): (r: nat)
    requires i < |s|
    ensures r <= i && s[r].hash == s[i].hash
    ensures forall j :: r <= j <= i ==> s[j].hash == s[i].hash
    ensures r == 0 || s[r].hash != s[r - 1].hash
  {
    if i == 0 || s[i].hash != s[i - 1].hash then i else RunStart(s, i - 1)
  }

  /** The item at position i after the pass. */
  function SelfDeltaAt(s: seq<DeltaItem>, i: nat): (r: DeltaItem)
    requires i < |s|
    ensures r.deltaType == s[i].deltaType && r.offset == s[i].offset && r.offsetLen == s[i].offsetLen && r.hash == s[i].hash
  {
    var p := RunStart(s, i);
    if p < i && IsRawOrXdelta(s[i]) then Redirect(s[i], REF_SELF, Index(s[p])) else s[i]
  }

  /** get_self_delta(delta_list): the list as the pass leaves it. */
  method GetSelfDelta(list: seq<DeltaItem>) returns (r: seq<DeltaItem>)
    ensures list == [] ==> r == []
    ensures list != [] ==> |r| == |list| && forall i :: 0 <= i < |r| ==> r[i] == SelfDeltaAt(SortBy(list, SelfKey), i)
  {
    if |list| == 0 {
      return SortBy(list, OffsetKey);
    }
    var s := SortBy(list, SelfKey);
    r := MarkRuns(s);
  }

  /** The loop of get_self_delta over the sorted list, with `pivot` the current run's first item. */
  method MarkRuns(s: seq<DeltaItem>) returns (r: seq<DeltaItem>)
    requires s != []
    ensures |r| == |s| && forall i :: 0 <= i < |r| ==> r[i] == SelfDeltaAt(s, i)
  {
    r := s;
    var pivot := 0;
    var i := 1;
    while i < |r|
      invariant 1 <= i <= |r| == |s|
      invariant pivot == RunStart(s, i - 1)
      invariant forall k :: 0 <= k < i ==> r[k] == SelfDeltaAt(s, k)
      invariant forall k :: i <= k < |r| ==> r[k] == s[k]
    {
      var item;
      item, pivot := MarkOne(s, r[pivot], r[i], pivot, i);
      r := r[i := item];
      i := i + 1;
    }
  }

  /** One pass of the loop: position i joins the pivot's run or starts a new one. */
  method MarkOne(s: seq<DeltaItem>, first: DeltaItem, item: DeltaItem, pivot: nat, i: nat) returns (item': DeltaItem, pivot': nat)
    requires 0 < i < |s| && pivot == RunStart(s, i - 1)
    requires item == s[i] && first.hash == s[pivot].hash && Index(first) == Index(s[pivot])
    ensures item' == SelfDeltaAt(s, i) && pivot' == RunStart(s, i)
  {
    pivot' := pivot;
    item' := item;
    if item.hash == first.hash {
      if item.refId == REF_XDELTA || item.refId == REF_RAW {
        item' := Redirect(item, REF_SELF, Index(first));
      }
    } else {
      pivot' := i;
    }
  }

  /** The run's first item is left as it is. */
  lemma PivotUntouched(s: seq<DeltaItem>, i: nat)
    requires i < |s|
    ensures RunStart(s, RunStart(s, i)) == RunStart(s, i)
    ensures SelfDeltaAt(s, RunStart(s, i)) == s[RunStart(s, i)]
  {
  }

  /** In a list sorted by (hash, type, offset), the pivot is the first item with its hash. */
  lemma PivotIsFirst(s: seq<DeltaItem>, i: nat, j: nat)
    requires SortedBy(s, SelfKey)
    requires i < |s| && j < RunStart(s, i)
    ensures s[j].hash != s[i].hash
  {
    var p := RunStart(s, i);
    var g := s[p - 1].hash;
    var h := s[i].hash;
    if j < p - 1 {
      assert LexLe(SelfKey(s[j]), SelfKey(s[p - 1]));
    } else {
      LexLeRefl(SelfKey(s[j]));
    }
    assert LexLe(SelfKey(s[p - 1]), SelfKey(s[i]));
    HashKeyAppend(s[j].hash, g, [s[j].deltaType, s[j].offset], [s[p - 1].deltaType, s[p - 1].offset]);
    HashKeyAppend(g, h, [s[p - 1].deltaType, s[p - 1].offset], [s[i].deltaType, s[i].offset]);
    if s[j].hash == h {
      HashLtTrichotomy(g, h);
    }
  }

  /**
   * After sorting, an item becomes REF_SELF iff it already was one, or it is RAW/XDELTA
   * and an earlier item shares its hash; a rewritten item refers to the index of the
   * first item with its hash.
   */
  lemma SelfRefersToFirst(list: seq<DeltaItem>, i: nat)
    requires i < |list|
    ensures var s := SortBy(list, SelfKey);
            && (forall j :: 0 <= j < RunStart(s, i) ==> s[j].hash != s[i].hash)
            && (SelfDeltaAt(s, i) != s[i] ==> SelfDeltaAt(s, i) == Redirect(s[i], REF_SELF, Index(s[RunStart(s, i)])))
            && (SelfDeltaAt(s, i).refId == REF_SELF <==>
                  s[i].refId == REF_SELF || (IsRawOrXdelta(s[i]) && exists j :: 0 <= j < i && s[j].hash == s[i].hash))
  {
    var s := SortBy(list, SelfKey);
    SortBySorted(list, SelfKey);
    var p := RunStart(s, i);
    forall j | 0 <= j < p
      ensures s[j].hash != s[i].hash
    {
      PivotIsFirst(s, i, j);
    }
    if p < i {
      assert s[p].hash == s[i].hash;
    }
  }

  lemma {:induction false} LexLeRefl(a: seq<int>)
    ensures LexLe(a, a)
    decreases |a|
  {
    if a != [] {
      LexLeRefl(a[1..]);
    }
  }

  /** The pass returns a sorted permutation of its input, up to the rewritten reference fields. */
  lemma SelfDeltaPermutes(list: seq<DeltaItem>)
    ensures multiset(SortBy(list, SelfKey)) == multiset(list)
    ensures SortedBy(SortBy(list, SelfKey), SelfKey)
  {
    SortBySorted(list, SelfKey);
  }
}
