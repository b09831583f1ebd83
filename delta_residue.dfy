/**
 * residue_diff_deltalists(old_deltalist, new_deltalist, base_mem)
 * (elijah/provisioning/delta.py): the residue between two overlays. A new item stays
 * unless the old overlay holds an item with its index and the same hash; every old memory
 * item the new overlay no longer has is reverted to the base memory, either as a
 * REF_BASE_MEM reference to its own offset or, for the short chunk at the end of the
 * snapshot, as RAW bytes read from the base memory file.
 *
 * The base memory file's contents and sha256 are parameters; Const.CHUNK_SIZE is
 * `chunkSize`.
 */
module DeltaResidue {
  import opened Wrappers
  import opened Bytes
  import opened DeltaItems
  import opened DeltaReorder
  import DeltaRecover

  const NO_HASH: string := "DeltaError: Previous delta item should have hash value"
  const NOT_AT_END: string := "DeltaError: Error, This is not possible. This should be the end of memory snapshot"

  /** old_deltadict.get(item.index): the last old item with the item's index. */
  function OldFor(oldList: seq<DeltaItem>, item: DeltaItem): (r: Option<DeltaItem>)
    ensures r.Some? ==> Index(r.value) == Index(item)
  {
    if oldList == [] then None
    else
      var n := |oldList| - 1;
      if Index(oldList[n]) == Index(item) then Some(oldList[n]) else OldFor(oldList[..n], item)
  }

  /** The dictionary built by the loop answers the same lookups. */
  lemma {:induction false} OldForDict(oldList: seq<DeltaItem>, item: DeltaItem)
    ensures var dict := IndexDict(oldList);
            OldFor(oldList, item) == if Index(item) in dict then Some(oldList[dict[Index(item)]]) else None
  {
    if oldList != [] {
      var n := |oldList| - 1;
      OldForDict(oldList[..n], item);
      assert forall i :: 0 <= i < n ==> oldList[..n][i] == oldList[i];
    }
  }

  /** A list holding an item with the index has an entry for it. */
  lemma {:induction false} OldForPresent(oldList: seq<DeltaItem>, k: nat, item: DeltaItem)
    requires k < |oldList| && Index(oldList[k]) == Index(item)
    ensures OldFor(oldList, item).Some?
  {
    var n := |oldList| - 1;
    if k < n {
      assert oldList[..n][k] == oldList[k];
      OldForPresent(oldList[..n], k, item);
    }
  }

  /** The old counterpart of a new item has no hash: the comparison raises. */
  predicate LacksHash(oldList: seq<DeltaItem>, item: DeltaItem)
  {
    var o := OldFor(oldList, item);
    o.Some? && o.value.hash.None?
  }

  /** A new item is kept when the old overlay has no item with its index or a different hash. */
  predicate Changed(oldList: seq<DeltaItem>, item: DeltaItem)
  {
    var o := OldFor(oldList, item);
    o.None? || o.value.hash != item.hash
  }

  /** The kept new items, in order. */
  function NewPart(oldList: seq<DeltaItem>, items: seq<DeltaItem>): (r: seq<DeltaItem>)
    ensures |r| <= |items|
    ensures forall x :: x in r <==> x in items && Changed(oldList, x)
  {
    if items == [] then []
    else
      var n := |items| - 1;
      var front := NewPart(oldList, items[..n]);
      assert items == items[..n] + [items[n]];
      if Changed(oldList, items[n]) then front + [items[n]] else front
  }

  /** An old memory item whose index the new overlay does not hold goes back to the base. */
  predicate Reverts(newList: seq<DeltaItem>, item: DeltaItem)
  {
    item.deltaType != DELTA_DISK && OldFor(newList, item).None?
  }

  /** base_mem_fd.seek(offset); base_mem_fd.read(CHUNK_SIZE) */
  function BaseRead(baseMem: seq<byte>, item: DeltaItem, chunkSize: nat): (r: seq<byte>)
    ensures |r| <= chunkSize
    ensures item.offset + chunkSize <= |baseMem| ==> r == baseMem[item.offset..item.offset + chunkSize]
  {
    Read(PySuffix(baseMem, item.offset), chunkSize).0
  }

  /** A short old item whose base bytes fill a whole chunk: the reversion raises. */
  predicate NotAtEnd(baseMem: seq<byte>, chunkSize: nat, item: DeltaItem)
  {
    item.offsetLen != chunkSize && |BaseRead(baseMem, item, chunkSize)| == chunkSize
  }

  /** The item that replaces a reverted one. */
  function Revert(item: DeltaItem, chunkSize: nat, baseMem: seq<byte>, sha: seq<byte> -> seq<byte>): (r: DeltaItem)
    ensures r.deltaType == item.deltaType && r.offset == item.offset && Index(r) == Index(item)
    ensures item.offsetLen == chunkSize ==>
              r.refId == REF_BASE_MEM && r.hash.None? && r.dataLen == 8 && r.data == Num(item.offset) && r.offsetLen == chunkSize
    ensures item.offsetLen != chunkSize ==>
              var d := BaseRead(baseMem, item, chunkSize);
              r.refId == REF_RAW && r.data == Bytes(d) && r.offsetLen == r.dataLen == |d| && r.hash == Some(sha(d))
  {
    if item.offsetLen != chunkSize then
      var d := BaseRead(baseMem, item, chunkSize);
      DeltaItem(item.deltaType, item.offset, |d|, Some(sha(d)), REF_RAW, |d|, Bytes(d))
    else
      DeltaItem(item.deltaType, item.offset, item.offsetLen, None, REF_BASE_MEM, 8, Num(item.offset))
  }

  /** The reverted old items, in order. */
  function RevertedPart(newList: seq<DeltaItem>, items: seq<DeltaItem>, chunkSize: nat, baseMem: seq<byte>, sha: seq<byte> -> seq<byte>)
    : (r: seq<DeltaItem>)
    ensures |r| <= |items|
  {
    if items == [] then []
    else
      var n := |items| - 1;
      var front := RevertedPart(newList, items[..n], chunkSize, baseMem, sha);
      if Reverts(newList, items[n]) then front + [Revert(items[n], chunkSize, baseMem, sha)] else front
  }

  /** Some new item meets an old one without a hash. */
  predicate SomeLacksHash(oldList: seq<DeltaItem>, newList: seq<DeltaItem>)
  {
    exists k :: 0 <= k < |newList| && LacksHash(oldList, newList[k])
  }

  /** Reverting the old item raises. */
  predicate RevertFails(newList: seq<DeltaItem>, chunkSize: nat, baseMem: seq<byte>, item: DeltaItem)
  {
    Reverts(newList, item) && NotAtEnd(baseMem, chunkSize, item)
  }

  /** Some reverted short item has a whole chunk of base memory behind it. */
  predicate SomeNotAtEnd(oldList: seq<DeltaItem>, newList: seq<DeltaItem>, chunkSize: nat, baseMem: seq<byte>)
  {
    exists k :: 0 <= k < |oldList| && RevertFails(newList, chunkSize, baseMem, oldList[k])
  }

  lemma SomeLacksHashSnoc(oldList: seq<DeltaItem>, items: seq<DeltaItem>, x: DeltaItem)
    ensures SomeLacksHash(oldList, items + [x]) <==> SomeLacksHash(oldList, items) || LacksHash(oldList, x)
  {
    var s := items + [x];
    if SomeLacksHash(oldList, items) {
      var k :| 0 <= k < |items| && LacksHash(oldList, items[k]);
      assert s[k] == items[k];
    }
    if LacksHash(oldList, x) {
      assert s[|items|] == x;
    }
    if SomeLacksHash(oldList, s) {
      var k :| 0 <= k < |s| && LacksHash(oldList, s[k]);
      if k < |items| {
        assert s[k] == items[k];
      }
    }
  }

  lemma PrefixLacksHash(oldList: seq<DeltaItem>, items: seq<DeltaItem>, n: nat)
    requires n <= |items| && SomeLacksHash(oldList, items[..n])
    ensures SomeLacksHash(oldList, items)
  {
    var k :| 0 <= k < n && LacksHash(oldList, items[..n][k]);
    assert items[..n][k] == items[k];
  }

  lemma SomeNotAtEndSnoc(items: seq<DeltaItem>, x: DeltaItem, newList: seq<DeltaItem>, chunkSize: nat, baseMem: seq<byte>)
    ensures SomeNotAtEnd(items + [x], newList, chunkSize, baseMem) <==>
              SomeNotAtEnd(items, newList, chunkSize, baseMem) || RevertFails(newList, chunkSize, baseMem, x)
  {
    var s := items + [x];
    if SomeNotAtEnd(items, newList, chunkSize, baseMem) {
      var k :| 0 <= k < |items| && RevertFails(newList, chunkSize, baseMem, items[k]);
      assert s[k] == items[k];
    }
    if RevertFails(newList, chunkSize, baseMem, x) {
      assert s[|items|] == x;
    }
    if SomeNotAtEnd(s, newList, chunkSize, baseMem) {
      var k :| 0 <= k < |s| && RevertFails(newList, chunkSize, baseMem, s[k]);
      if k < |items| {
        assert s[k] == items[k];
      }
    }
  }

  lemma PrefixNotAtEnd(items: seq<DeltaItem>, n: nat, newList: seq<DeltaItem>, chunkSize: nat, baseMem: seq<byte>)
    requires n <= |items| && SomeNotAtEnd(items[..n], newList, chunkSize, baseMem)
    ensures SomeNotAtEnd(items, newList, chunkSize, baseMem)
  {
    var k :| 0 <= k < n && RevertFails(newList, chunkSize, baseMem, items[..n][k]);
    assert items[..n][k] == items[k];
  }

  /** The residue: the first raise wins; otherwise the kept new items, then the reverted old ones. */
  function ResidueDiff(oldList: seq<DeltaItem>, newList: seq<DeltaItem>, chunkSize: nat, baseMem: seq<byte>, sha: seq<byte> -> seq<byte>)
    : Result<seq<DeltaItem>, string>
  {
    if SomeLacksHash(oldList, newList) then Failure(NO_HASH)
    else if SomeNotAtEnd(oldList, newList, chunkSize, baseMem) then Failure(NOT_AT_END)
    else Success(NewPart(oldList, newList) + RevertedPart(newList, oldList, chunkSize, baseMem, sha))
  }

  /**
   * The reverted part holds, in order, exactly the reversions of the old memory items the
   * new overlay dropped; no disk item is ever reverted.
   */
  lemma {:induction false} RevertedFrom(newList: seq<DeltaItem>, items: seq<DeltaItem>, chunkSize: nat, baseMem: seq<byte>,
                                        sha: seq<byte> -> seq<byte>)
    ensures var r := RevertedPart(newList, items, chunkSize, baseMem, sha);
            && (forall y :: y in r ==> y.deltaType != DELTA_DISK)
            && (forall y :: y in r ==> exists k :: 0 <= k < |items| && Reverts(newList, items[k]) && y == Revert(items[k], chunkSize, baseMem, sha))
            && (forall k :: 0 <= k < |items| && Reverts(newList, items[k]) ==> Revert(items[k], chunkSize, baseMem, sha) in r)
  {
    if items != [] {
      var n := |items| - 1;
      RevertedFrom(newList, items[..n], chunkSize, baseMem, sha);
      var r := RevertedPart(newList, items, chunkSize, baseMem, sha);
      var front := RevertedPart(newList, items[..n], chunkSize, baseMem, sha);
      assert forall k :: 0 <= k < n ==> items[..n][k] == items[k];
      forall y | y in r
        ensures exists k :: 0 <= k < |items| && Reverts(newList, items[k]) && y == Revert(items[k], chunkSize, baseMem, sha)
      {
        if y !in front {
          assert y == Revert(items[n], chunkSize, baseMem, sha);
        }
      }
    }
  }

  /** A successful residue's items: the changed new items first, then the reverted old ones. */
  lemma ResidueContents(oldList: seq<DeltaItem>, newList: seq<DeltaItem>, chunkSize: nat, baseMem: seq<byte>, sha: seq<byte> -> seq<byte>)
    requires ResidueDiff(oldList, newList, chunkSize, baseMem, sha).Success?
    ensures var r := ResidueDiff(oldList, newList, chunkSize, baseMem, sha).value;
            var m := |NewPart(oldList, newList)|;
            && m <= |r| && (forall x :: x in r[..m] <==> x in newList && Changed(oldList, x))
            && (forall y :: y in r[m..] ==> y.deltaType != DELTA_DISK && y.refId in {REF_RAW, REF_BASE_MEM})
            && (forall k :: 0 <= k < |oldList| && Reverts(newList, oldList[k]) && oldList[k].offsetLen == chunkSize ==>
                  DeltaItem(oldList[k].deltaType, oldList[k].offset, chunkSize, None, REF_BASE_MEM, 8, Num(oldList[k].offset)) in r[m..])
  {
    var r := ResidueDiff(oldList, newList, chunkSize, baseMem, sha).value;
    var kept := NewPart(oldList, newList);
    var rev := RevertedPart(newList, oldList, chunkSize, baseMem, sha);
    assert r == kept + rev;
    assert r[..|kept|] == kept && r[|kept|..] == rev;
    RevertedFrom(newList, oldList, chunkSize, baseMem, sha);
    forall y | y in rev
      ensures y.deltaType != DELTA_DISK && y.refId in {REF_RAW, REF_BASE_MEM}
    {
      var k :| 0 <= k < |oldList| && Reverts(newList, oldList[k]) && y == Revert(oldList[k], chunkSize, baseMem, sha);
    }
    forall k | 0 <= k < |oldList| && Reverts(newList, oldList[k]) && oldList[k].offsetLen == chunkSize
      ensures DeltaItem(oldList[k].deltaType, oldList[k].offset, chunkSize, None, REF_BASE_MEM, 8, Num(oldList[k].offset)) in rev
    {
      assert Revert(oldList[k], chunkSize, baseMem, sha) in rev;
    }
  }

  /** With distinct indexes, each item is its own entry. */
  lemma {:induction false} OwnEntry(items: seq<DeltaItem>, k: nat)
    requires k < |items|
    requires forall a, b :: 0 <= a < b < |items| ==> Index(items[a]) != Index(items[b])
    ensures OldFor(items, items[k]) == Some(items[k])
  {
    var n := |items| - 1;
    if k < n {
      assert items[..n][k] == items[k];
      assert forall a, b :: 0 <= a < b < n ==> items[..n][a] == items[a] && items[..n][b] == items[b];
      OwnEntry(items[..n], k);
    }
  }

  /** No item of a prefix of the list is kept when the old overlay is the list itself. */
  lemma {:induction false} NothingNewInSelf(l: seq<DeltaItem>, n: nat)
    requires n <= |l| && forall k :: 0 <= k < |l| ==> l[k].hash.Some?
    requires forall a, b :: 0 <= a < b < |l| ==> Index(l[a]) != Index(l[b])
    ensures NewPart(l, l[..n]) == []
  {
    if n > 0 {
      OwnEntry(l, n - 1);
      assert l[..n][..n - 1] == l[..n - 1];
      NothingNewInSelf(l, n - 1);
    }
  }

  /** No item of a prefix of the list is reverted when the new overlay is the list itself. */
  lemma {:induction false} NothingRevertedInSelf(l: seq<DeltaItem>, n: nat, chunkSize: nat, baseMem: seq<byte>, sha: seq<byte> -> seq<byte>)
    requires n <= |l|
    ensures RevertedPart(l, l[..n], chunkSize, baseMem, sha) == []
  {
    if n > 0 {
      assert l[..n][n - 1] == l[n - 1];
      OldForPresent(l, n - 1, l[n - 1]);
      assert l[..n][..n - 1] == l[..n - 1];
      NothingRevertedInSelf(l, n - 1, chunkSize, baseMem, sha);
    }
  }

  /** An overlay compared with itself leaves no residue, if every item has a hash and its own index. */
  lemma DiffOfSelfIsEmpty(l: seq<DeltaItem>, chunkSize: nat, baseMem: seq<byte>, sha: seq<byte> -> seq<byte>)
    requires forall k :: 0 <= k < |l| ==> l[k].hash.Some?
    requires forall a, b :: 0 <= a < b < |l| ==> Index(l[a]) != Index(l[b])
    ensures ResidueDiff(l, l, chunkSize, baseMem, sha) == Success([])
  {
    forall k | 0 <= k < |l|
      ensures !LacksHash(l, l[k]) && !RevertFails(l, chunkSize, baseMem, l[k])
    {
      OwnEntry(l, k);
    }
    assert l[..|l|] == l;
    NothingNewInSelf(l, |l|);
    NothingRevertedInSelf(l, |l|, chunkSize, baseMem, sha);
    assert !SomeLacksHash(l, l);
    assert !SomeNotAtEnd(l, l, chunkSize, baseMem);
    assert NewPart(l, l) == [] && RevertedPart(l, l, chunkSize, baseMem, sha) == [];
    var empty: seq<DeltaItem> := [];
    assert NewPart(l, l) + RevertedPart(l, l, chunkSize, baseMem, sha) == empty;
    assert ResidueDiff(l, l, chunkSize, baseMem, sha) == Success(empty);
  }

  /**
   * A reverted item recovers to the base memory's bytes at its offset: a whole chunk by
   * the REF_BASE_MEM reference, the short last chunk from its RAW copy.
   */
  lemma RevertRecovers(ctx: DeltaRecover.Context, merge: DeltaRecover.Merge, item: DeltaItem, sha: seq<byte> -> seq<byte>)
    requires !NotAtEnd(ctx.rawMem, ctx.chunkSize, item)
    requires item.offsetLen == ctx.chunkSize ==> item.offset + ctx.chunkSize <= |ctx.rawMem|
    ensures var r := DeltaRecover.RecoverItem(ctx, merge, Revert(item, ctx.chunkSize, ctx.rawMem, sha));
            r.Success? && r.value.refId == REF_RAW && r.value.data == Bytes(BaseRead(ctx.rawMem, item, ctx.chunkSize))
  {
    var rev := Revert(item, ctx.chunkSize, ctx.rawMem, sha);
    if item.offsetLen == ctx.chunkSize {
      DeltaRecover.BaseRecover(ctx, merge, rev);
    }
  }

  /** The loop over new_deltalist: keep what changed; an old item without a hash raises. */
  method KeepChanged(oldList: seq<DeltaItem>, newList: seq<DeltaItem>, oldDict: map<int, nat>)
    returns (r: Result<seq<DeltaItem>, string>)
    requires oldDict == IndexDict(oldList)
    ensures r.Failure? <==> SomeLacksHash(oldList, newList)
    ensures r.Failure? ==> r.error == NO_HASH
    ensures r.Success? ==> r.value == NewPart(oldList, newList)
  {
    var ret: seq<DeltaItem> := [];
    var j := 0;
    while j < |newList|
      invariant 0 <= j <= |newList| && ret == NewPart(oldList, newList[..j])
      invariant !SomeLacksHash(oldList, newList[..j])
    {
      var failed;
      failed, ret := KeepStep(oldList, newList, oldDict, j, ret);
      if failed {
        return Failure(NO_HASH);
      }
      j := j + 1;
    }
    assert newList[..j] == newList;
    r := Success(ret);
  }

  /** One pass of the loop over new_deltalist, stated against the kept prefix. */
  method KeepStep(oldList: seq<DeltaItem>, newList: seq<DeltaItem>, oldDict: map<int, nat>, j: nat, ret: seq<DeltaItem>)
    returns (failed: bool, ret': seq<DeltaItem>)
    requires oldDict == IndexDict(oldList) && j < |newList|
    requires ret == NewPart(oldList, newList[..j]) && !SomeLacksHash(oldList, newList[..j])
    ensures failed ==> SomeLacksHash(oldList, newList)
    ensures !failed ==> ret' == NewPart(oldList, newList[..j + 1]) && !SomeLacksHash(oldList, newList[..j + 1])
  {
    KeptNext(oldList, newList, j);
    var keep := KeepOne(oldList, oldDict, newList[j]);
    if keep.Failure? {
      PrefixLacksHash(oldList, newList, j + 1);
      return true, ret;
    }
    failed := false;
    ret' := if keep.value then ret + [newList[j]] else ret;
  }

  /** One new item: look its index up among the old items; raise when that item has no hash, else say whether it changed. */
  method KeepOne(oldList: seq<DeltaItem>, oldDict: map<int, nat>, item: DeltaItem) returns (r: Result<bool, string>)
    requires oldDict == IndexDict(oldList)
    ensures r.Failure? <==> LacksHash(oldList, item)
    ensures r.Failure? ==> r.error == NO_HASH
    ensures r.Success? ==> r.value == Changed(oldList, item)
  {
    OldForDict(oldList, item);
    var oldItem: Option<DeltaItem> := if Index(item) in oldDict then Some(oldList[oldDict[Index(item)]]) else None;
    if oldItem.Some? && oldItem.value.hash.None? {
      return Failure(NO_HASH);
    }
    r := Success(oldItem.None? || oldItem.value.hash != item.hash);
  }

  /** One more new item: it is kept after the earlier ones exactly when it changed, and it raises exactly when it lacks a hash. */
  lemma KeptNext(oldList: seq<DeltaItem>, newList: seq<DeltaItem>, j: nat)
    requires j < |newList|
    ensures NewPart(oldList, newList[..j + 1])
         == NewPart(oldList, newList[..j]) + (if Changed(oldList, newList[j]) then [newList[j]] else [])
    ensures SomeLacksHash(oldList, newList[..j + 1]) <==> SomeLacksHash(oldList, newList[..j]) || LacksHash(oldList, newList[j])
  {
    assert newList[..j + 1][..j] == newList[..j] && newList[..j + 1][j] == newList[j];
    assert newList[..j + 1] == newList[..j] + [newList[j]];
    SomeLacksHashSnoc(oldList, newList[..j], newList[j]);
  }

  /** The loop over old_deltalist: revert the memory items the new overlay dropped. */
  method RevertMissing(oldList: seq<DeltaItem>, newList: seq<DeltaItem>, newDict: map<int, nat>, chunkSize: nat, baseMem: seq<byte>,
                      sha: seq<byte> -> seq<byte>)
    returns (r: Result<seq<DeltaItem>, string>)
    requires newDict == IndexDict(newList)
    ensures r.Failure? <==> SomeNotAtEnd(oldList, newList, chunkSize, baseMem)
    ensures r.Failure? ==> r.error == NOT_AT_END
    ensures r.Success? ==> r.value == RevertedPart(newList, oldList, chunkSize, baseMem, sha)
  {
    var ret: seq<DeltaItem> := [];
    var i := 0;
    while i < |oldList|
      invariant 0 <= i <= |oldList| && ret == RevertedPart(newList, oldList[..i], chunkSize, baseMem, sha)
      invariant !SomeNotAtEnd(oldList[..i], newList, chunkSize, baseMem)
    {
      var item := oldList[i];
      RevertedNext(newList, oldList, i, chunkSize, baseMem, sha);
      var step := RevertOne(newList, newDict, item, chunkSize, baseMem, sha);
      if step.Failure? {
        PrefixNotAtEnd(oldList, i + 1, newList, chunkSize, baseMem);
        return Failure(NOT_AT_END);
      }
      ret := ret + step.value;
      i := i + 1;
    }
    assert oldList[..i] == oldList;
    r := Success(ret);
  }

  /** One more old item: its reversion, if any, follows, and it raises exactly when its reversion fails. */
  lemma RevertedNext(newList: seq<DeltaItem>, oldList: seq<DeltaItem>, i: nat, chunkSize: nat, baseMem: seq<byte>,
                     sha: seq<byte> -> seq<byte>)
    requires i < |oldList|
    ensures RevertedPart(newList, oldList[..i + 1], chunkSize, baseMem, sha)
         == RevertedPart(newList, oldList[..i], chunkSize, baseMem, sha)
            + (if Reverts(newList, oldList[i]) then [Revert(oldList[i], chunkSize, baseMem, sha)] else [])
    ensures SomeNotAtEnd(oldList[..i + 1], newList, chunkSize, baseMem) <==>
            SomeNotAtEnd(oldList[..i], newList, chunkSize, baseMem) || RevertFails(newList, chunkSize, baseMem, oldList[i])
  {
    assert oldList[..i + 1][..i] == oldList[..i];
    assert oldList[..i + 1] == oldList[..i] + [oldList[i]];
    SomeNotAtEndSnoc(oldList[..i], oldList[i], newList, chunkSize, baseMem);
  }

  /** The body of the old-list loop for one item: its reversion, nothing, or the raise. */
  method RevertOne(newList: seq<DeltaItem>, newDict: map<int, nat>, item: DeltaItem, chunkSize: nat, baseMem: seq<byte>,
                   sha: seq<byte> -> seq<byte>)
    returns (r: Result<seq<DeltaItem>, string>)
    requires newDict == IndexDict(newList)
    ensures r.Failure? <==> RevertFails(newList, chunkSize, baseMem, item)
    ensures r.Failure? ==> r.error == NOT_AT_END
    ensures r.Success? ==> r.value == if Reverts(newList, item) then [Revert(item, chunkSize, baseMem, sha)] else []
  {
    OldForDict(newList, item);
    if item.deltaType != DELTA_DISK && Index(item) !in newDict {
      if item.offsetLen != chunkSize {
        var data := Read(PySuffix(baseMem, item.offset), chunkSize).0;
        assert data == BaseRead(baseMem, item, chunkSize);
        if |data| == chunkSize {
          return Failure(NOT_AT_END);
        }
        return Success([DeltaItem(item.deltaType, item.offset, |data|, Some(sha(data)), REF_RAW, |data|, Bytes(data))]);
      } else {
        return Success([DeltaItem(item.deltaType, item.offset, item.offsetLen, None, REF_BASE_MEM, 8, Num(item.offset))]);
      }
    }
    return Success([]);
  }

  /** residue_diff_deltalists: build both dictionaries, walk the new list, then the old one. */
  method ResidueDiffDeltalists(oldList: seq<DeltaItem>, newList: seq<DeltaItem>, chunkSize: nat, baseMem: seq<byte>, sha: seq<byte> -> seq<byte>)
    returns (r: Result<seq<DeltaItem>, string>)
    ensures r == ResidueDiff(oldList, newList, chunkSize, baseMem, sha)
  {
    var oldDict := BuildIndexDict(oldList);
    var newDict := BuildIndexDict(newList);
    var kept := KeepChanged(oldList, newList, oldDict);
    if kept.Failure? {
      return Failure(kept.error);
    }
    var reverted := RevertMissing(oldList, newList, newDict, chunkSize, baseMem, sha);
    if reverted.Failure? {
      return Failure(reverted.error);
    }
    r := Success(kept.value + reverted.value);
  }
}
