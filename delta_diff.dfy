/**
 * diff_with_deltalist and diff_with_hashlist (elijah/provisioning/delta.py): both sort
 * the list and the reference table by hash and walk them together, turning every
 * RAW/XDELTA item whose hash the table holds into a reference to the table entry.
 */
module DeltaDiff {
  import opened Wrappers
  import opened Bytes
  import opened Sorting
  import opened DeltaItems

  /** What a table entry offers a matching item: its hash, start offset and length. */
  datatype Target = Target(hash: Option<seq<byte>>, start: int, length: int)

  function ItemHashKey(item: DeltaItem): seq<int> { HashKey(item.hash) }

  function EntryHashKey(e: HashEntry): seq<int> { HashKey(Some(e.hash)) }

  ghost predicate ItemsHashSorted(s: seq<DeltaItem>)
  {
    forall i, j :: 0 <= i < j < |s| ==> LexLe(HashKey(s[i].hash), HashKey(s[j].hash))
  }

  ghost predicate TargetsHashSorted(s: seq<Target>)
  {
    forall i, j :: 0 <= i < j < |s| ==> LexLe(HashKey(s[i].hash), HashKey(s[j].hash))
  }

  /** The first table position holding hash h. */
  function FirstMatch(ts: seq<Target>, h: Option<seq<byte>>): (r: Option<nat>)
    ensures r.Some? ==> r.value < |ts| && ts[r.value].hash == h && forall k :: 0 <= k < r.value ==> ts[k].hash != h
    ensures r.None? <==> forall k :: 0 <= k < |ts| ==> ts[k].hash != h
  {
    if ts == [] then None
    else if ts[0].hash == h then Some(0)
    else match FirstMatch(ts[1..], h)
      case None => None
      case Some(k) => Some(k + 1)
  }

  /** An item the table matches: RAW/XDELTA with a hash some entry holds. */
  predicate Matches(item: DeltaItem, ts: seq<Target>)
  {
    IsRawOrXdelta(item) && FirstMatch(ts, item.hash).Some?
  }

  /** The item after the walk: a reference to the first entry with its hash, if it matches. */
  function MatchOne(item: DeltaItem, ts: seq<Target>, refId: nat): DeltaItem
  {
    if Matches(item, ts) then Redirect(item, refId, ts[FirstMatch(ts, item.hash).value].start) else item
  }

  /** A RAW/XDELTA item some entry shares a hash with refers to such an entry; any other item is kept. */
  lemma MatchOneRedirects(item: DeltaItem, ts: seq<Target>, refId: nat)
    ensures (IsRawOrXdelta(item) && exists k :: 0 <= k < |ts| && ts[k].hash == item.hash) ==>
              exists k :: 0 <= k < |ts| && ts[k].hash == item.hash && MatchOne(item, ts, refId) == Redirect(item, refId, ts[k].start)
    ensures !(IsRawOrXdelta(item) && exists k :: 0 <= k < |ts| && ts[k].hash == item.hash) ==> MatchOne(item, ts, refId) == item
  {
    if IsRawOrXdelta(item) && exists k :: 0 <= k < |ts| && ts[k].hash == item.hash {
      var k := FirstMatch(ts, item.hash).value;
      assert ts[k].hash == item.hash;
    }
  }

  /** The length check of diff_with_deltalist: a match whose offset_len differs from the entry's. */
  predicate Clash(item: DeltaItem, ts: seq<Target>)
  {
    Matches(item, ts) && item.offsetLen != ts[FirstMatch(ts, item.hash).value].length
  }

  /** The prefix of the length-clash message; the two lengths it formats are not kept. */
  const LENGTH_MISMATCH: string := "DeltaError: Hash is same but length is different"

  /** The walk's outcome: every item matched, or an error when a checked match clashes. */
  function MatchAll(items: seq<DeltaItem>, ts: seq<Target>, refId: nat, checkLength: bool): (r: Result<seq<DeltaItem>, string>)
    ensures r.Failure? <==> checkLength && exists i :: 0 <= i < |items| && Clash(items[i], ts)
    ensures r.Success? ==> |r.value| == |items| && forall i :: 0 <= i < |items| ==> r.value[i] == MatchOne(items[i], ts, refId)
  {
    if checkLength && exists i :: 0 <= i < |items| && Clash(items[i], ts) then Failure(LENGTH_MISMATCH)
    else Success(seq(|items|, i requires 0 <= i < |items| => MatchOne(items[i], ts, refId)))
  }

  /** The walk's state: items before sIndex are matched (without a checked clash), later ones untouched. */
  ghost predicate Walked(items: seq<DeltaItem>, ts: seq<Target>, refId: nat, checkLength: bool, out: seq<DeltaItem>, sIndex: nat)
  {
    && sIndex <= |items| == |out|
    && (forall j :: 0 <= j < sIndex ==> out[j] == MatchOne(items[j], ts, refId))
    && (forall j :: sIndex <= j < |items| ==> out[j] == items[j])
    && (checkLength ==> forall j :: 0 <= j < sIndex ==> !Clash(items[j], ts))
  }

  /** Every entry before index lies below every item from sIndex on. */
  ghost predicate EntriesBelow(items: seq<DeltaItem>, ts: seq<Target>, sIndex: nat, index: nat)
    requires index <= |ts|
  {
    forall k, j :: 0 <= k < index && sIndex <= j < |items| ==> HashLt(ts[k].hash, items[j].hash)
  }

  /** The shared while-loop over the two sorted lists (s_index over items, index over the table). */
  method MatchSorted(items: seq<DeltaItem>, ts: seq<Target>, refId: nat, checkLength: bool) returns (r: Result<seq<DeltaItem>, string>)
    requires ItemsHashSorted(items) && TargetsHashSorted(ts)
    ensures r == MatchAll(items, ts, refId, checkLength)
  {
    var out := items;
    var sIndex := 0;
    var index := 0;
    while index < |ts| && sIndex < |items|
      invariant 0 <= index <= |ts| && 0 <= sIndex <= |items| == |out|
      invariant Walked(items, ts, refId, checkLength, out, sIndex)
      invariant EntriesBelow(items, ts, sIndex, index)
    {
      var delta := out[sIndex];
      var target := ts[index];
      if HashLt(target.hash, delta.hash) {
        TargetBelowRest(items, ts, sIndex, index);
        index := index + 1;
        continue;
      }
      BelowItem(items, ts, sIndex, index);
      if delta.hash == target.hash {
        FirstMatchAt(ts, delta.hash, index);
        MatchedAt(delta, ts, refId, index);
        if delta.refId == REF_XDELTA || delta.refId == REF_RAW {
          if checkLength && delta.offsetLen != target.length {
            return Failure(LENGTH_MISMATCH);
          }
          WalkStep(items, ts, refId, checkLength, out, sIndex, Redirect(delta, refId, target.start));
          out := out[sIndex := Redirect(delta, refId, target.start)];
        } else {
          WalkKeep(items, ts, refId, checkLength, out, sIndex);
        }
      } else {
        NoLaterMatch(items, ts, sIndex, index);
        Unmatched(delta, ts, refId);
        WalkKeep(items, ts, refId, checkLength, out, sIndex);
      }
      sIndex := sIndex + 1;
    }
    if sIndex < |items| {
      TableExhausted(items, ts, sIndex);
      WalkRest(items, ts, refId, checkLength, out, sIndex);
    }
    MatchAllIs(items, ts, refId, checkLength, out);
    return Success(out);
  }

  /** Matching the item at sIndex to v (its outcome) extends the walk by one. */
  lemma WalkStep(items: seq<DeltaItem>, ts: seq<Target>, refId: nat, checkLength: bool, out: seq<DeltaItem>, sIndex: nat, v: DeltaItem)
    requires Walked(items, ts, refId, checkLength, out, sIndex) && sIndex < |items|
    requires v == MatchOne(items[sIndex], ts, refId) && (checkLength ==> !Clash(items[sIndex], ts))
    ensures Walked(items, ts, refId, checkLength, out[sIndex := v], sIndex + 1)
  {
  }

  /** An item its outcome leaves unchanged extends the walk by one without an update. */
  lemma WalkKeep(items: seq<DeltaItem>, ts: seq<Target>, refId: nat, checkLength: bool, out: seq<DeltaItem>, sIndex: nat)
    requires Walked(items, ts, refId, checkLength, out, sIndex) && sIndex < |items|
    requires items[sIndex] == MatchOne(items[sIndex], ts, refId) && (checkLength ==> !Clash(items[sIndex], ts))
    ensures Walked(items, ts, refId, checkLength, out, sIndex + 1)
  {
  }

  /** Items without a match, from sIndex on, complete the walk as they are. */
  lemma WalkRest(items: seq<DeltaItem>, ts: seq<Target>, refId: nat, checkLength: bool, out: seq<DeltaItem>, sIndex: nat)
    requires Walked(items, ts, refId, checkLength, out, sIndex)
    requires forall j :: sIndex <= j < |items| ==> FirstMatch(ts, items[j].hash).None?
    ensures Walked(items, ts, refId, checkLength, out, |items|)
  {
    forall j | sIndex <= j < |items|
      ensures out[j] == MatchOne(items[j], ts, refId) && !Clash(items[j], ts)
    {
      Unmatched(items[j], ts, refId);
    }
  }

  /** The entries before index lie below the current item. */
  lemma BelowItem(items: seq<DeltaItem>, ts: seq<Target>, sIndex: nat, index: nat)
    requires index <= |ts| && sIndex < |items| && EntriesBelow(items, ts, sIndex, index)
    ensures forall k :: 0 <= k < index ==> HashLt(ts[k].hash, items[sIndex].hash)
  {
  }

  /** A list matched item by item, with no checked clash, is the walk's successful outcome. */
  lemma MatchAllIs(items: seq<DeltaItem>, ts: seq<Target>, refId: nat, checkLength: bool, out: seq<DeltaItem>)
    requires Walked(items, ts, refId, checkLength, out, |items|)
    ensures MatchAll(items, ts, refId, checkLength) == Success(out)
  {
    assert out == seq(|items|, i requires 0 <= i < |items| => MatchOne(items[i], ts, refId));
  }

  /** An item whose first match is entry `index` becomes a reference to it, and clashes exactly on a length difference. */
  lemma MatchedAt(item: DeltaItem, ts: seq<Target>, refId: nat, index: nat)
    requires index < |ts| && FirstMatch(ts, item.hash) == Some(index)
    ensures MatchOne(item, ts, refId) == if IsRawOrXdelta(item) then Redirect(item, refId, ts[index].start) else item
    ensures Clash(item, ts) <==> IsRawOrXdelta(item) && item.offsetLen != ts[index].length
  {
  }

  /** An item without a match is kept and never clashes. */
  lemma Unmatched(item: DeltaItem, ts: seq<Target>, refId: nat)
    requires FirstMatch(ts, item.hash).None?
    ensures MatchOne(item, ts, refId) == item && !Clash(item, ts)
  {
  }

  /** An entry below the current item is below every later item too. */
  lemma TargetBelowRest(items: seq<DeltaItem>, ts: seq<Target>, sIndex: nat, index: nat)
    requires ItemsHashSorted(items)
    requires sIndex < |items| && index < |ts| && HashLt(ts[index].hash, items[sIndex].hash)
    requires EntriesBelow(items, ts, sIndex, index)
    ensures EntriesBelow(items, ts, sIndex, index + 1)
  {
    forall j | sIndex < j < |items|
      ensures HashLt(ts[index].hash, items[j].hash)
    {
      HashLeKey(items[sIndex].hash, items[j].hash);
      HashLtTrans(ts[index].hash, items[sIndex].hash, items[j].hash);
    }
  }

  /** Once every entry lies below the remaining items, none of them matches. */
  lemma TableExhausted(items: seq<DeltaItem>, ts: seq<Target>, sIndex: nat)
    requires sIndex <= |items| && EntriesBelow(items, ts, sIndex, |ts|)
    ensures forall j :: sIndex <= j < |items| ==> FirstMatch(ts, items[j].hash).None?
  {
  }

  /** The entry the walk stops at, when its hash is equal, is the first with that hash. */
  lemma FirstMatchAt(ts: seq<Target>, h: Option<seq<byte>>, index: nat)
    requires index < |ts| && ts[index].hash == h
    requires forall k :: 0 <= k < index ==> HashLt(ts[k].hash, h)
    ensures FirstMatch(ts, h) == Some(index)
  {
  }

  /** An item smaller than the current entry has no match at all. */
  lemma NoLaterMatch(items: seq<DeltaItem>, ts: seq<Target>, sIndex: nat, index: nat)
    requires TargetsHashSorted(ts)
    requires sIndex < |items| && index < |ts|
    requires !HashLt(ts[index].hash, items[sIndex].hash) && items[sIndex].hash != ts[index].hash
    requires forall k :: 0 <= k < index ==> HashLt(ts[k].hash, items[sIndex].hash)
    ensures FirstMatch(ts, items[sIndex].hash).None?
  {
    var h := items[sIndex].hash;
    HashLtTrichotomy(h, ts[index].hash);
    BelowAllFrom(ts, index, h);
    NoEntryHolds(ts, index, h);
  }

  /** A hash below entry `index` of a sorted table is below every later entry too. */
  lemma BelowAllFrom(ts: seq<Target>, index: nat, h: Option<seq<byte>>)
    requires TargetsHashSorted(ts) && index < |ts| && HashLt(h, ts[index].hash)
    ensures forall k :: index <= k < |ts| ==> HashLt(h, ts[k].hash)
  {
    forall k | index < k < |ts|
      ensures HashLt(h, ts[k].hash)
    {
      HashLeKey(ts[index].hash, ts[k].hash);
      HashLtTrans(h, ts[index].hash, ts[k].hash);
    }
  }

  /** A hash strictly between the entries before index and those from index on is held by no entry. */
  lemma NoEntryHolds(ts: seq<Target>, index: nat, h: Option<seq<byte>>)
    requires index <= |ts|
    requires forall k :: 0 <= k < index ==> HashLt(ts[k].hash, h)
    requires forall k :: index <= k < |ts| ==> HashLt(h, ts[k].hash)
    ensures FirstMatch(ts, h).None?
  {
    forall k | 0 <= k < |ts|
      ensures ts[k].hash != h
    {
      if k < index {
        assert HashLt(ts[k].hash, h);
      } else {
        assert HashLt(h, ts[k].hash);
      }
    }
  }

  /** Sorting by hash leaves items sorted by hash. */
  lemma SortedByHash(list: seq<DeltaItem>)
    ensures ItemsHashSorted(SortBy(list, ItemHashKey))
  {
    SortBySorted(list, ItemHashKey);
  }

  /** The targets a sorted delta list offers: (hash, offset, offset_len) of each item. */
  function ItemTargets(c: seq<DeltaItem>): (r: seq<Target>)
    ensures |r| == |c| && forall i :: 0 <= i < |c| ==> r[i] == Target(c[i].hash, c[i].offset, c[i].offsetLen)
  {
    seq(|c|, i requires 0 <= i < |c| => Target(c[i].hash, c[i].offset, c[i].offsetLen))
  }

  /** The targets a hash list offers: (hash, start, length) of each entry. */
  function EntryTargets(c: seq<HashEntry>): (r: seq<Target>)
    ensures |r| == |c| && forall i :: 0 <= i < |c| ==> r[i] == Target(Some(c[i].hash), c[i].start, c[i].length)
  {
    seq(|c|, i requires 0 <= i < |c| => Target(Some(c[i].hash), c[i].start, c[i].length))
  }

  /**
   * diff_with_deltalist(delta_list, const_deltalist, ref_id): on success both lists come
   * back sorted by hash, the first rewritten. An empty list is returned untouched; an
   * empty const list raises.
   */
  method DiffWithDeltalist(list: seq<DeltaItem>, constList: seq<DeltaItem>, refId: nat)
    returns (r: Result<(seq<DeltaItem>, seq<DeltaItem>), string>)
    ensures list == [] ==> r == Success((list, constList))
    ensures list != [] && constList == [] ==> r.Failure?
    ensures list != [] && constList != [] ==>
              var s, c := SortBy(list, ItemHashKey), SortBy(constList, ItemHashKey);
              match MatchAll(s, ItemTargets(c), refId, true)
              case Success(m) => r == Success((m, c))
              case Failure(e) => r == Failure(e)
  {
    if |list| == 0 {
      return Success((list, constList));
    }
    if |constList| == 0 {
      return Failure("DeltaError: Need list of DeltaItem for const");
    }
    var s := SortBy(list, ItemHashKey);
    var c := SortBy(constList, ItemHashKey);
    SortedByHash(list);
    SortedByHash(constList);
    var m := MatchSorted(s, ItemTargets(c), refId, true);
    if m.Failure? {
      return Failure(m.error);
    }
    return Success((m.value, c));
  }

  /**
   * diff_with_hashlist(base_hashlist, delta_list, ref_id): on success the hash list comes
   * back sorted by hash and the delta list sorted and rewritten. Lengths are not compared.
   */
  method DiffWithHashlist(base: seq<HashEntry>, list: seq<DeltaItem>, refId: nat)
    returns (base': seq<HashEntry>, list': seq<DeltaItem>)
    ensures list == [] ==> base' == base && list' == list
    ensures list != [] ==> base' == SortBy(base, EntryHashKey)
    ensures list != [] ==> MatchAll(SortBy(list, ItemHashKey), EntryTargets(base'), refId, false) == Success(list')
  {
    if |list| == 0 {
      return base, list;
    }
    base' := SortBy(base, EntryHashKey);
    var s := SortBy(list, ItemHashKey);
    SortedByHash(list);
    SortBySorted(base, EntryHashKey);
    var m := MatchSorted(s, EntryTargets(base'), refId, false);
    list' := m.value;
  }

  /**
   * A walk preserves list length and the items' identities, and an item is rewritten iff
   * it is RAW/XDELTA and some entry has an equal hash, its data then being that entry's start.
   */
  lemma MatchRewritesIff(items: seq<DeltaItem>, ts: seq<Target>, refId: nat, checkLength: bool, i: nat)
    requires MatchAll(items, ts, refId, checkLength).Success? && i < |items|
    requires IsRawOrXdelta(items[i]) ==> refId != items[i].refId
    ensures var r := MatchAll(items, ts, refId, checkLength).value;
            && |r| == |items|
            && r[i].deltaType == items[i].deltaType && r[i].offset == items[i].offset && r[i].hash == items[i].hash
            && (r[i] != items[i] <==> IsRawOrXdelta(items[i]) && exists k :: 0 <= k < |ts| && ts[k].hash == items[i].hash)
            && (r[i] != items[i] ==> exists k :: 0 <= k < |ts| && ts[k].hash == items[i].hash && r[i].data == Num(ts[k].start))
            && (r[i] != items[i] ==> exists k :: 0 <= k < |ts| && r[i] == Redirect(items[i], refId, ts[k].start))
  {
    MatchOneRedirects(items[i], ts, refId);
  }

  /** diff_with_deltalist raises exactly when a matched pair's offset_len differ. */
  lemma DiffRaisesOnLengthClash(items: seq<DeltaItem>, ts: seq<Target>, refId: nat)
    ensures MatchAll(items, ts, refId, true).Failure? <==>
            exists i :: 0 <= i < |items| && IsRawOrXdelta(items[i]) && FirstMatch(ts, items[i].hash).Some? &&
                        items[i].offsetLen != ts[FirstMatch(ts, items[i].hash).value].length
    ensures MatchAll(items, ts, refId, false).Success?
  {
  }
}
