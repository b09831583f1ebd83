/**
 * residue_merge_deltalist(old_deltalist, new_deltalist) (elijah/provisioning/delta.py):
 * the old list followed by the new items, where a new item with the index of an old item
 * replaces it. Before an old item goes, the first of the items that still refer to it
 * (REF_SELF) takes over its reference and data, and the later ones are pointed at that
 * pivot.
 *
 * Python finds and removes list elements by identity and updates the old items in place,
 * so the result list is modelled as a sequence of positions (Old(i) in the old list,
 * New(j) in the new list) and the old items' current fields as a separate sequence.
 */
module DeltaMerge {
  import opened Wrappers
  import opened DeltaItems
  import DeltaReorder

  datatype Pos = Old(i: nat) | New(j: nat)

  /** ret_deltalist, the old items' current fields, and reference_dict (old position -> referring positions). */
  datatype MergeState = MergeState(ret: seq<Pos>, vals: seq<DeltaItem>, refs: map<nat, seq<nat>>)

  /** Every old position the state mentions exists. */
  ghost predicate Valid(st: MergeState, m: nat)
  {
    && |st.vals| == m
    && (forall p :: p in st.ret && p.Old? ==> p.i < m)
    && RefsInRange(st.refs, m)
  }

  ghost predicate RefsInRange(refs: map<nat, seq<nat>>, m: nat)
  {
    forall o :: o in refs ==> o < m && forall k :: 0 <= k < |refs[o]| ==> refs[o][k] < m
  }

  /** The new positions listed are those of the first j new items. */
  ghost predicate NewsBelow(ret: seq<Pos>, j: nat)
  {
    forall p :: p in ret && p.New? ==> p.j < j
  }

  /** Two versions of the old items agree on delta_type, offset and offset_len. */
  ghost predicate SameSlots(a: seq<DeltaItem>, b: seq<DeltaItem>)
  {
    |a| == |b| &&
    forall i :: 0 <= i < |a| ==> a[i].deltaType == b[i].deltaType && a[i].offset == b[i].offset && a[i].offsetLen == b[i].offsetLen
  }

  ghost predicate DictInRange(dict: map<int, nat>, m: nat)
  {
    forall k :: k in dict ==> dict[k] < m
  }

  const VALUE_ERROR: string := "ValueError: list.index(x): x not in list"
  const KEY_ERROR: string := "KeyError: self reference not in delta_dict"

  /** `list.index(x)`: the first position holding x. */
  function Find(s: seq<Pos>, x: Pos): (r: nat)
    requires x in s
    ensures r < |s| && s[r] == x && x !in s[..r]
  {
    if s[0] == x then 0
    else
      var k := Find(s[1..], x);
      assert s[1..][..k] == s[1..k + 1];
      assert s[..k + 1] == [s[0]] + s[1..k + 1];
      k + 1
  }

  /** `del s[q]` */
  function Delete(s: seq<Pos>, q: nat): (r: seq<Pos>)
    requires q < |s|
    ensures |r| == |s| - 1
  {
    s[..q] + s[q + 1..]
  }

  /** `reference_dict[k]` of a defaultdict(list): an absent key reads as the empty list. */
  function Referring(refs: map<nat, seq<nat>>, k: nat): seq<nat>
  {
    if k in refs then refs[k] else []
  }

  /** Filing a position under a key keeps the table within range. */
  lemma FileUnder(refs: map<nat, seq<nat>>, key: nat, x: nat, m: nat)
    requires RefsInRange(refs, m) && key < m && x < m
    ensures RefsInRange(refs[key := Referring(refs, key) + [x]], m)
  {
    var row := Referring(refs, key) + [x];
    assert forall k :: 0 <= k < |row| ==> row[k] < m;
  }

  // ---------------------------------------------------------------- reference_dict

  /** The reference_dict loop from position i on: each REF_SELF item is filed under the item its data names. */
  function RefDictFrom(oldList: seq<DeltaItem>, dict: map<int, nat>, refs: map<nat, seq<nat>>, i: nat): (r: Result<map<nat, seq<nat>>, string>)
    requires i <= |oldList|
    decreases |oldList| - i
  {
    if i == |oldList| then Success(refs)
    else if oldList[i].refId != REF_SELF then RefDictFrom(oldList, dict, refs, i + 1)
    else if oldList[i].data.Num? && oldList[i].data.n in dict then
      var orig := dict[oldList[i].data.n];
      RefDictFrom(oldList, dict, refs[orig := Referring(refs, orig) + [i]], i + 1)
    else Failure(KEY_ERROR)
  }

  /** Every position filed in the table is a REF_SELF item referring to its key's index. */
  lemma {:induction false} RefDictSound(oldList: seq<DeltaItem>, dict: map<int, nat>, refs: map<nat, seq<nat>>, i: nat)
    requires i <= |oldList| && DictInRange(dict, |oldList|)
    requires forall o :: o in refs ==> o < |oldList| && forall k :: 0 <= k < |refs[o]| ==> refs[o][k] < |oldList|
    requires RefDictFrom(oldList, dict, refs, i).Success?
    ensures var r := RefDictFrom(oldList, dict, refs, i).value;
            forall o :: o in r ==> o < |oldList| && forall k :: 0 <= k < |r[o]| ==> r[o][k] < |oldList|
    decreases |oldList| - i
  {
    if i < |oldList| {
      if oldList[i].refId != REF_SELF {
        RefDictSound(oldList, dict, refs, i + 1);
      } else {
        var orig := dict[oldList[i].data.n];
        var refs' := refs[orig := Referring(refs, orig) + [i]];
        assert forall o :: o in refs' ==> o < |oldList| && forall k :: 0 <= k < |refs'[o]| ==> refs'[o][k] < |oldList|;
        RefDictSound(oldList, dict, refs', i + 1);
      }
    }
  }

  /** The reference_dict loop fails exactly when some REF_SELF item names an index no old item has. */
  lemma {:induction false} RefDictFails(oldList: seq<DeltaItem>, dict: map<int, nat>, refs: map<nat, seq<nat>>, i: nat)
    requires i <= |oldList|
    ensures RefDictFrom(oldList, dict, refs, i).Failure? <==>
            exists k :: i <= k < |oldList| && oldList[k].refId == REF_SELF && !(oldList[k].data.Num? && oldList[k].data.n in dict)
    decreases |oldList| - i
  {
    if i < |oldList| {
      if oldList[i].refId != REF_SELF {
        RefDictFails(oldList, dict, refs, i + 1);
      } else if oldList[i].data.Num? && oldList[i].data.n in dict {
        RefDictFails(oldList, dict, refs[dict[oldList[i].data.n] := Referring(refs, dict[oldList[i].data.n]) + [i]], i + 1);
      }
    }
  }

  // ---------------------------------------------------------------- pivot repair

  /** The first referring item, from position k on, still in the result list. */
  function FindPivotFrom(referred: seq<nat>, ret: seq<Pos>, k: nat): (r: Option<nat>)
    requires k <= |referred|
    ensures r.Some? ==> k <= r.value < |referred| && Old(referred[r.value]) in ret &&
                        forall l :: k <= l < r.value ==> Old(referred[l]) !in ret
    ensures r.None? ==> forall l :: k <= l < |referred| ==> Old(referred[l]) !in ret
    decreases |referred| - k
  {
    if k == |referred| then None
    else if Old(referred[k]) in ret then Some(k)
    else FindPivotFrom(referred, ret, k + 1)
  }

  /** The loop over the later referring items: those still listed now refer to the pivot. */
  function Repoint(vals: seq<DeltaItem>, refs: map<nat, seq<nat>>, ret: seq<Pos>, rest: seq<nat>, pivot: nat, target: int)
    : (r: (seq<DeltaItem>, map<nat, seq<nat>>))
    requires forall k :: 0 <= k < |rest| ==> rest[k] < |vals|
    requires pivot < |vals| && RefsInRange(refs, |vals|)
    ensures |r.0| == |vals| && RefsInRange(r.1, |vals|)
    ensures forall i :: 0 <= i < |vals| ==> r.0[i] == vals[i].(data := r.0[i].data)
    ensures forall k :: 0 <= k < |rest| && Old(rest[k]) in ret ==> r.0[rest[k]].data == Num(target)
    ensures forall i :: 0 <= i < |vals| && i !in rest ==> r.0[i] == vals[i]
    ensures refs.Keys <= r.1.Keys <= refs.Keys + {pivot}
    ensures forall o :: o in refs && o != pivot ==> r.1[o] == refs[o]
    decreases |rest|
  {
    if rest == [] then (vals, refs)
    else
      var ri := rest[0];
      var tail := rest[1..];
      assert forall k :: 0 <= k < |tail| ==> tail[k] == rest[k + 1];
      if Old(ri) in ret then
        FileUnder(refs, pivot, ri, |vals|);
        var r := Repoint(vals[ri := vals[ri].(data := Num(target))], refs[pivot := Referring(refs, pivot) + [ri]], ret, tail, pivot, target);
        assert forall i :: 0 <= i < |vals| ==> r.0[i] == vals[i].(data := r.0[i].data);
        r
      else Repoint(vals, refs, ret, tail, pivot, target)
  }

  /** The pivot gains a reference_dict entry exactly when some later referring item is still listed. */
  lemma {:induction false} RepointKeys(vals: seq<DeltaItem>, refs: map<nat, seq<nat>>, ret: seq<Pos>, rest: seq<nat>, pivot: nat, target: int)
    requires forall k :: 0 <= k < |rest| ==> rest[k] < |vals|
    requires pivot < |vals| && RefsInRange(refs, |vals|)
    ensures Repoint(vals, refs, ret, rest, pivot, target).1.Keys ==
            refs.Keys + (if exists k :: 0 <= k < |rest| && Old(rest[k]) in ret then {pivot} else {})
    decreases |rest|
  {
    if rest != [] {
      var ri := rest[0];
      var tail := rest[1..];
      assert forall k :: 0 <= k < |tail| ==> tail[k] == rest[k + 1];
      if Old(ri) in ret {
        FileUnder(refs, pivot, ri, |vals|);
        RepointKeys(vals[ri := vals[ri].(data := Num(target))], refs[pivot := Referring(refs, pivot) + [ri]], ret, tail, pivot, target);
      } else {
        RepointKeys(vals, refs, ret, tail, pivot, target);
        if exists k :: 0 <= k < |rest| && Old(rest[k]) in ret {
          var k :| 0 <= k < |rest| && Old(rest[k]) in ret;
          assert Old(tail[k - 1]) in ret;
        }
      }
    }
  }

  /**
   * The repair done before an old item that others refer to is replaced: the first
   * referring item still listed takes over the old item's ref_id, data_len, data and
   * hash, and the later ones still listed refer to the pivot's index.
   */
  function Repair(st: MergeState, o: nat, m: nat): (r: MergeState)
    requires Valid(st, m) && o in st.refs
    ensures Valid(r, m) && r.ret == st.ret && SameSlots(r.vals, st.vals)
  {
    var referred := st.refs[o];
    match FindPivotFrom(referred, st.ret, 0)
    case None => st
    case Some(p) =>
      var pivot := referred[p];
      var src := st.vals[o];
      var vals1 := st.vals[pivot := st.vals[pivot].(refId := src.refId, dataLen := src.dataLen, data := src.data, hash := src.hash)];
      var rest := referred[p + 1..];
      assert forall k :: 0 <= k < |rest| ==> rest[k] == referred[p + 1 + k];
      var r := Repoint(vals1, st.refs - {o}, st.ret, rest, pivot, Index(vals1[pivot]));
      MergeState(st.ret, r.0, r.1)
  }

  /** The pivot takes over the replaced item's reference; the later referring items point at it. */
  lemma RepairPivot(st: MergeState, o: nat, m: nat)
    requires Valid(st, m) && o in st.refs
    requires FindPivotFrom(st.refs[o], st.ret, 0).Some?
    ensures var p := FindPivotFrom(st.refs[o], st.ret, 0).value;
            var pivot := st.refs[o][p];
            var r := Repair(st, o, m);
            && Old(pivot) in st.ret
            && (forall l :: 0 <= l < p ==> Old(st.refs[o][l]) !in st.ret)
            && r.vals[pivot].refId == st.vals[o].refId && r.vals[pivot].dataLen == st.vals[o].dataLen
            && r.vals[pivot].hash == st.vals[o].hash
            && r.vals[pivot].deltaType == st.vals[pivot].deltaType && r.vals[pivot].offset == st.vals[pivot].offset
            && (forall k :: p < k < |st.refs[o]| && Old(st.refs[o][k]) in st.ret ==>
                  r.vals[st.refs[o][k]].data == Num(Index(st.vals[pivot])))
  {
    var referred := st.refs[o];
    var p := FindPivotFrom(referred, st.ret, 0).value;
    var rest := referred[p + 1..];
    forall k | p < k < |referred| && Old(referred[k]) in st.ret
      ensures Repair(st, o, m).vals[referred[k]].data == Num(Index(st.vals[referred[p]]))
    {
      assert rest[k - p - 1] == referred[k];
    }
  }

  // ---------------------------------------------------------------- the walk over new items

  /** ret_deltalist after new item j: appended, or put in place of old position o (removed from where it was). */
  function NextRet(ret: seq<Pos>, o: Option<nat>, j: nat): seq<Pos>
  {
    match o
    case None => ret + [New(j)]
    case Some(i) => if Old(i) in ret then Delete(ret, Find(ret, Old(i))) + [New(j)] else ret
  }

  /** The old position new item j replaces, if any. */
  function Target(newList: seq<DeltaItem>, dict: map<int, nat>, j: nat): Option<nat>
    requires j < |newList|
  {
    if Index(newList[j]) in dict then Some(dict[Index(newList[j])]) else None
  }

  /** One new item: appended, or replacing the old item with its index after the repair. */
  function MergeStep(newList: seq<DeltaItem>, dict: map<int, nat>, st: MergeState, j: nat, m: nat): (r: Result<MergeState, string>)
    requires j < |newList| && Valid(st, m) && DictInRange(dict, m) && NewsBelow(st.ret, j)
    ensures r.Success? ==> Valid(r.value, m) && NewsBelow(r.value.ret, j + 1) && SameSlots(r.value.vals, st.vals)
    ensures r.Failure? <==> match Target(newList, dict, j) case None => false case Some(o) => Old(o) !in st.ret
    ensures r.Success? ==> r.value.ret == NextRet(st.ret, Target(newList, dict, j), j)
  {
    var key := Index(newList[j]);
    if key !in dict then Success(st.(ret := st.ret + [New(j)]))
    else
      var o := dict[key];
      var st1 := if o in st.refs then Repair(st, o, m) else st;
      if Old(o) !in st1.ret then Failure(VALUE_ERROR)
      else
        var ret := Delete(st1.ret, Find(st1.ret, Old(o))) + [New(j)];
        assert forall p :: p in ret ==> p in st1.ret || p == New(j);
        Success(st1.(ret := ret))
  }

  /** The walk from new item j on. */
  function MergeRun(newList: seq<DeltaItem>, dict: map<int, nat>, st: MergeState, j: nat, m: nat): (r: Result<MergeState, string>)
    requires j <= |newList| && Valid(st, m) && DictInRange(dict, m) && NewsBelow(st.ret, j)
    ensures r.Success? ==> Valid(r.value, m) && NewsBelow(r.value.ret, |newList|) && SameSlots(r.value.vals, st.vals)
    decreases |newList| - j
  {
    if j == |newList| then Success(st)
    else
      var s :- MergeStep(newList, dict, st, j, m);
      MergeRun(newList, dict, s, j + 1, m)
  }

  /** [Old(0), ..., Old(m-1)]: ret_deltalist after copying the old list. */
  function OldPositions(m: nat): (r: seq<Pos>)
    ensures |r| == m && forall k :: 0 <= k < m ==> r[k] == Old(k)
  {
    seq(m, k requires 0 <= k => Old(k))
  }

  /** The items a result list of positions stands for. */
  function Items(ret: seq<Pos>, vals: seq<DeltaItem>, newList: seq<DeltaItem>): (r: seq<DeltaItem>)
    requires forall p :: p in ret ==> if p.Old? then p.i < |vals| else p.j < |newList|
    ensures |r| == |ret|
  {
    seq(|ret|, k requires 0 <= k < |ret| => if ret[k].Old? then vals[ret[k].i] else newList[ret[k].j])
  }

  /** residue_merge_deltalist */
  function Merge(oldList: seq<DeltaItem>, newList: seq<DeltaItem>): (r: Result<seq<DeltaItem>, string>)
  {
    var dict := DeltaReorder.IndexDict(oldList);
    var refs0: map<nat, seq<nat>> := map[];
    var refs :- RefDictFrom(oldList, dict, refs0, 0);
    RefDictSound(oldList, dict, refs0, 0);
    var fin :- MergeRun(newList, dict, MergeState(OldPositions(|oldList|), oldList, refs), 0, |oldList|);
    FinalShape(newList, dict, fin, |oldList|);
    Success(Items(fin.ret, fin.vals, newList))
  }

  /** The final state only lists new positions below |new|. */
  lemma FinalShape(newList: seq<DeltaItem>, dict: map<int, nat>, fin: MergeState, m: nat)
    requires Valid(fin, m)
    requires forall p :: p in fin.ret && p.New? ==> p.j < |newList|
    ensures forall p :: p in fin.ret ==> if p.Old? then p.i < |fin.vals| else p.j < |newList|
  {
  }

  // ---------------------------------------------------------------- properties of the walk

  /** New(0) .. New(j-1). */
  function News(j: nat): (r: seq<Pos>)
    ensures |r| == j && forall k :: 0 <= k < j ==> r[k] == New(k)
  {
    seq(j, k requires 0 <= k => New(k))
  }

  /** Old positions only, strictly increasing: old items in their original order. */
  ghost predicate IncreasingOlds(s: seq<Pos>)
  {
    && (forall k :: 0 <= k < |s| ==> s[k].Old?)
    && (forall k, l :: 0 <= k < l < |s| ==> s[k].i < s[l].i)
  }

  /**
   * The shape of ret_deltalist after j new items: surviving old positions in their
   * original order, then New(0) .. New(j-1).
   */
  ghost predicate Shaped(ret: seq<Pos>, j: nat)
  {
    |ret| >= j && IncreasingOlds(ret[..|ret| - j]) && ret[|ret| - j..] == News(j)
  }

  /** Deleting position q shifts the later entries down by one. */
  lemma DeleteShifts(s: seq<Pos>, q: nat)
    requires q < |s|
    ensures forall k :: 0 <= k < q ==> Delete(s, q)[k] == s[k]
    ensures forall k :: q <= k < |s| - 1 ==> Delete(s, q)[k] == s[k + 1]
  {
  }

  /** Deleting from increasing old positions keeps them increasing and drops exactly that position. */
  lemma DeleteIncreasing(s: seq<Pos>, q: nat, i: nat)
    requires IncreasingOlds(s) && q < |s|
    ensures IncreasingOlds(Delete(s, q))
    ensures Old(i) in Delete(s, q) <==> Old(i) in s && s[q] != Old(i)
  {
    var d := Delete(s, q);
    DeleteShifts(s, q);
    if Old(i) in s && s[q] != Old(i) {
      var k :| 0 <= k < |s| && s[k] == Old(i);
      assert d[if k < q then k else k - 1] == Old(i);
    }
    if Old(i) in d {
      var k :| 0 <= k < |d| && d[k] == Old(i);
      if k >= q {
        assert s[q].i < s[k + 1].i;
      } else {
        assert s[k].i < s[q].i;
      }
    }
  }

  /** Splitting a shaped list into its old part and its new part. */
  lemma ShapedParts(ret: seq<Pos>, j: nat, o: nat) returns (q: nat)
    requires Shaped(ret, j) && Old(o) in ret
    ensures q == Find(ret, Old(o)) && q < |ret| - j
    ensures Delete(ret, q) == Delete(ret[..|ret| - j], q) + News(j)
  {
    q := Find(ret, Old(o));
    var olds := ret[..|ret| - j];
    assert ret == olds + News(j);
    assert forall k :: |olds| <= k < |ret| ==> ret[k] == News(j)[k - |olds|];
    assert ret[..q] == olds[..q];
    assert ret[q + 1..] == olds[q + 1..] + News(j);
  }

  /** A step keeps the shape. */
  lemma ShapeNext(ret: seq<Pos>, o: Option<nat>, j: nat)
    requires Shaped(ret, j) && (o.Some? ==> Old(o.value) in ret)
    ensures Shaped(NextRet(ret, o, j), j + 1)
  {
    assert News(j) + [New(j)] == News(j + 1);
    var olds := ret[..|ret| - j];
    if o.Some? {
      var q := ShapedParts(ret, j, o.value);
      DeleteIncreasing(olds, q, 0);
      var d := NextRet(ret, o, j);
      assert d == Delete(olds, q) + News(j + 1);
      assert d[..|d| - (j + 1)] == Delete(olds, q);
    } else {
      var d := NextRet(ret, o, j);
      assert d == olds + News(j + 1);
      assert d[..|d| - (j + 1)] == olds;
    }
  }

  lemma StepShape(newList: seq<DeltaItem>, dict: map<int, nat>, st: MergeState, j: nat, m: nat)
    requires j < |newList| && Valid(st, m) && DictInRange(dict, m) && NewsBelow(st.ret, j) && Shaped(st.ret, j)
    requires MergeStep(newList, dict, st, j, m).Success?
    ensures Shaped(MergeStep(newList, dict, st, j, m).value.ret, j + 1)
  {
    ShapeNext(st.ret, Target(newList, dict, j), j);
  }

  /** The walk keeps the shape: the result is the surviving old items in order, then every new item in order. */
  lemma {:induction false} RunShape(newList: seq<DeltaItem>, dict: map<int, nat>, st: MergeState, j: nat, m: nat)
    requires j <= |newList| && Valid(st, m) && DictInRange(dict, m) && NewsBelow(st.ret, j) && Shaped(st.ret, j)
    requires MergeRun(newList, dict, st, j, m).Success?
    ensures Shaped(MergeRun(newList, dict, st, j, m).value.ret, |newList|)
    decreases |newList| - j
  {
    if j < |newList| {
      StepShape(newList, dict, st, j, m);
      RunShape(newList, dict, MergeStep(newList, dict, st, j, m).value, j + 1, m);
    }
  }

  /** The old position a new item replaces, if its index is in the table. */
  ghost predicate Replaces(newList: seq<DeltaItem>, dict: map<int, nat>, k: nat, i: nat)
    requires k < |newList|
  {
    Index(newList[k]) in dict && dict[Index(newList[k])] == i
  }

  /** A step drops exactly the old position it replaces. */
  lemma SurvivorsNext(ret: seq<Pos>, o: Option<nat>, j: nat, i: nat)
    requires Shaped(ret, j) && (o.Some? ==> Old(o.value) in ret)
    ensures Old(i) in NextRet(ret, o, j) <==> Old(i) in ret && o != Some(i)
  {
    var olds := ret[..|ret| - j];
    assert ret == olds + News(j);
    assert Old(i) in ret <==> Old(i) in olds;
    if o.Some? {
      var q := ShapedParts(ret, j, o.value);
      DeleteIncreasing(olds, q, i);
      assert NextRet(ret, o, j) == Delete(olds, q) + News(j + 1) by {
        assert News(j) + [New(j)] == News(j + 1);
      }
      assert olds[q] == Old(o.value);
    }
  }

  /** A step drops exactly the old position the new item replaces. */
  lemma StepSurvivors(newList: seq<DeltaItem>, dict: map<int, nat>, st: MergeState, j: nat, m: nat, i: nat)
    requires j < |newList| && Valid(st, m) && DictInRange(dict, m) && NewsBelow(st.ret, j) && Shaped(st.ret, j)
    requires MergeStep(newList, dict, st, j, m).Success?
    ensures Old(i) in MergeStep(newList, dict, st, j, m).value.ret <==> Old(i) in st.ret && !Replaces(newList, dict, j, i)
  {
    SurvivorsNext(st.ret, Target(newList, dict, j), j, i);
  }

  /** An old item survives the walk iff no remaining new item has its index. */
  lemma {:induction false} RunSurvivors(newList: seq<DeltaItem>, dict: map<int, nat>, st: MergeState, j: nat, m: nat, i: nat)
    requires j <= |newList| && Valid(st, m) && DictInRange(dict, m) && NewsBelow(st.ret, j) && Shaped(st.ret, j)
    requires MergeRun(newList, dict, st, j, m).Success?
    ensures Old(i) in MergeRun(newList, dict, st, j, m).value.ret <==>
            Old(i) in st.ret && forall k :: j <= k < |newList| ==> !Replaces(newList, dict, k, i)
    decreases |newList| - j
  {
    if j < |newList| {
      var st' := MergeStep(newList, dict, st, j, m).value;
      assert MergeRun(newList, dict, st, j, m) == MergeRun(newList, dict, st', j + 1, m);
      StepSurvivors(newList, dict, st, j, m, i);
      StepShape(newList, dict, st, j, m);
      RunSurvivors(newList, dict, st', j + 1, m, i);
      assert (forall k :: j <= k < |newList| ==> !Replaces(newList, dict, k, i)) <==>
             !Replaces(newList, dict, j, i) && forall k :: j + 1 <= k < |newList| ==> !Replaces(newList, dict, k, i);
    }
  }

  /** Distinct indexes of the table name distinct old positions. */
  ghost predicate DictInjective(dict: map<int, nat>)
  {
    forall k1, k2 :: k1 in dict && k2 in dict && dict[k1] == dict[k2] ==> k1 == k2
  }

  /** Once an old item is gone, a later new item with its index makes the walk raise. */
  lemma {:induction false} RunToFailure(newList: seq<DeltaItem>, dict: map<int, nat>, st: MergeState, j: nat, m: nat, o: nat, k2: nat)
    requires j <= k2 < |newList| && Valid(st, m) && DictInRange(dict, m) && NewsBelow(st.ret, j) && Shaped(st.ret, j)
    requires Old(o) !in st.ret && Replaces(newList, dict, k2, o)
    ensures MergeRun(newList, dict, st, j, m).Failure?
    decreases |newList| - j
  {
    var step := MergeStep(newList, dict, st, j, m);
    if step.Success? && !Replaces(newList, dict, j, o) {
      StepSurvivors(newList, dict, st, j, m, o);
      StepShape(newList, dict, st, j, m);
      RunToFailure(newList, dict, step.value, j + 1, m, o, k2);
    }
  }

  /** Two new items from position j on share an index that is an old item's. */
  ghost predicate SharedIndex(newList: seq<DeltaItem>, dict: map<int, nat>, j: nat)
  {
    exists k1, k2 :: j <= k1 < k2 < |newList| && Index(newList[k1]) in dict && Index(newList[k1]) == Index(newList[k2])
  }

  /** New item j has an old item's index, and a later new item has it too. */
  ghost predicate LaterTwin(newList: seq<DeltaItem>, dict: map<int, nat>, j: nat)
  {
    j < |newList| && Index(newList[j]) in dict && exists k2 :: j < k2 < |newList| && Index(newList[j]) == Index(newList[k2])
  }

  lemma SharedIndexStep(newList: seq<DeltaItem>, dict: map<int, nat>, j: nat)
    requires j < |newList|
    ensures SharedIndex(newList, dict, j) <==> LaterTwin(newList, dict, j) || SharedIndex(newList, dict, j + 1)
  {
    if SharedIndex(newList, dict, j) {
      var k1, k2 :| j <= k1 < k2 < |newList| && Index(newList[k1]) in dict && Index(newList[k1]) == Index(newList[k2]);
      if k1 > j {
        assert SharedIndex(newList, dict, j + 1);
      }
    }
    if LaterTwin(newList, dict, j) {
      var k2 :| j < k2 < |newList| && Index(newList[j]) == Index(newList[k2]);
      assert SharedIndex(newList, dict, j);
    }
    if SharedIndex(newList, dict, j + 1) {
      var k1, k2 :| j + 1 <= k1 < k2 < |newList| && Index(newList[k1]) in dict && Index(newList[k1]) == Index(newList[k2]);
      assert SharedIndex(newList, dict, j);
    }
  }

  /** With every old item still listed, a step succeeds: only a repair can touch the list, and it does not. */
  lemma StepSucceeds(newList: seq<DeltaItem>, dict: map<int, nat>, st: MergeState, j: nat, m: nat)
    requires j < |newList| && Valid(st, m) && DictInRange(dict, m) && NewsBelow(st.ret, j)
    requires Index(newList[j]) in dict ==> Old(dict[Index(newList[j])]) in st.ret
    ensures MergeStep(newList, dict, st, j, m).Success?
  {
    var key := Index(newList[j]);
    if key in dict && dict[key] in st.refs {
      assert Repair(st, dict[key], m).ret == st.ret;
    }
  }

  /**
   * Given every old item still listed, the walk raises (list.index's ValueError) exactly
   * when two new items have the same index and that index is an old item's.
   */
  lemma {:induction false} RunFails(newList: seq<DeltaItem>, dict: map<int, nat>, st: MergeState, j: nat, m: nat)
    requires j <= |newList| && Valid(st, m) && DictInRange(dict, m) && DictInjective(dict) && NewsBelow(st.ret, j) && Shaped(st.ret, j)
    requires forall k :: j <= k < |newList| && Index(newList[k]) in dict ==> Old(dict[Index(newList[k])]) in st.ret
    ensures MergeRun(newList, dict, st, j, m).Failure? <==> SharedIndex(newList, dict, j)
    decreases |newList| - j
  {
    if j < |newList| {
      StepSucceeds(newList, dict, st, j, m);
      var st' := MergeStep(newList, dict, st, j, m).value;
      assert MergeRun(newList, dict, st, j, m) == MergeRun(newList, dict, st', j + 1, m);
      StepShape(newList, dict, st, j, m);
      SharedIndexStep(newList, dict, j);
      var key := Index(newList[j]);
      if LaterTwin(newList, dict, j) {
        var k2 :| j < k2 < |newList| && key == Index(newList[k2]);
        StepSurvivors(newList, dict, st, j, m, dict[key]);
        RunToFailure(newList, dict, st', j + 1, m, dict[key], k2);
      } else {
        forall k | j + 1 <= k < |newList| && Index(newList[k]) in dict
          ensures Old(dict[Index(newList[k])]) in st'.ret
        {
          StepSurvivors(newList, dict, st, j, m, dict[Index(newList[k])]);
        }
        RunFails(newList, dict, st', j + 1, m);
      }
    }
  }

  // ---------------------------------------------------------------- the whole merge

  /** Old item i is the one filed under its index and some new item has that index. */
  ghost predicate Overwritten(oldList: seq<DeltaItem>, newList: seq<DeltaItem>, i: nat)
    requires i < |oldList|
  {
    var dict := DeltaReorder.IndexDict(oldList);
    dict[Index(oldList[i])] == i && exists k :: 0 <= k < |newList| && Index(newList[k]) == Index(oldList[i])
  }

  lemma InitialState(oldList: seq<DeltaItem>, refs: map<nat, seq<nat>>)
    requires RefsInRange(refs, |oldList|)
    ensures var st := MergeState(OldPositions(|oldList|), oldList, refs);
            Valid(st, |oldList|) && NewsBelow(st.ret, 0) && Shaped(st.ret, 0)
    ensures DictInRange(DeltaReorder.IndexDict(oldList), |oldList|) && DictInjective(DeltaReorder.IndexDict(oldList))
  {
    assert OldPositions(|oldList|)[..|oldList| - 0] == OldPositions(|oldList|);
  }

  /**
   * residue_merge_deltalist raises exactly when a REF_SELF old item names an index no old
   * item has (KeyError), or two new items share the index of an old item (ValueError).
   */
  lemma MergeFails(oldList: seq<DeltaItem>, newList: seq<DeltaItem>)
    ensures Merge(oldList, newList).Failure? <==>
            (exists k :: 0 <= k < |oldList| && oldList[k].refId == REF_SELF &&
               !(oldList[k].data.Num? && exists i :: 0 <= i < |oldList| && Index(oldList[i]) == oldList[k].data.n))
            || (exists k1, k2 :: 0 <= k1 < k2 < |newList| && Index(newList[k1]) == Index(newList[k2]) &&
                  exists i :: 0 <= i < |oldList| && Index(oldList[i]) == Index(newList[k1]))
  {
    var dict := DeltaReorder.IndexDict(oldList);
    var refs0: map<nat, seq<nat>> := map[];
    RefDictFails(oldList, dict, refs0, 0);
    var refs := RefDictFrom(oldList, dict, refs0, 0);
    if refs.Success? {
      RefDictSound(oldList, dict, refs0, 0);
      InitialState(oldList, refs.value);
      RunFails(newList, dict, MergeState(OldPositions(|oldList|), oldList, refs.value), 0, |oldList|);
    }
  }

  /** The final state of a successful merge. */
  lemma MergeFinal(oldList: seq<DeltaItem>, newList: seq<DeltaItem>) returns (fin: MergeState)
    requires Merge(oldList, newList).Success?
    ensures Valid(fin, |oldList|) && NewsBelow(fin.ret, |newList|) && Shaped(fin.ret, |newList|)
    ensures SameSlots(fin.vals, oldList)
    ensures Merge(oldList, newList).value == Items(fin.ret, fin.vals, newList)
    ensures forall i :: 0 <= i < |oldList| ==> (Old(i) in fin.ret <==> !Overwritten(oldList, newList, i))
  {
    var dict := DeltaReorder.IndexDict(oldList);
    var refs0: map<nat, seq<nat>> := map[];
    var refs := RefDictFrom(oldList, dict, refs0, 0).value;
    RefDictSound(oldList, dict, refs0, 0);
    InitialState(oldList, refs);
    var st0 := MergeState(OldPositions(|oldList|), oldList, refs);
    fin := MergeRun(newList, dict, st0, 0, |oldList|).value;
    RunShape(newList, dict, st0, 0, |oldList|);
    forall i | 0 <= i < |oldList|
      ensures Old(i) in fin.ret <==> !Overwritten(oldList, newList, i)
    {
      RunSurvivors(newList, dict, st0, 0, |oldList|, i);
      assert Old(i) in st0.ret;
      OverwrittenIff(oldList, newList, i);
    }
  }

  /** Being overwritten is being the position some new item replaces. */
  lemma OverwrittenIff(oldList: seq<DeltaItem>, newList: seq<DeltaItem>, i: nat)
    requires i < |oldList|
    ensures Overwritten(oldList, newList, i) ==>
            exists k :: 0 <= k < |newList| && Replaces(newList, DeltaReorder.IndexDict(oldList), k, i)
    ensures (exists k :: 0 <= k < |newList| && Replaces(newList, DeltaReorder.IndexDict(oldList), k, i)) ==>
            Overwritten(oldList, newList, i)
  {
    var dict := DeltaReorder.IndexDict(oldList);
    var key := Index(oldList[i]);
    assert key in dict;
    if Overwritten(oldList, newList, i) {
      var k :| 0 <= k < |newList| && Index(newList[k]) == key;
      assert Replaces(newList, dict, k, i);
    }
    if exists k :: 0 <= k < |newList| && Replaces(newList, dict, k, i) {
      var k :| 0 <= k < |newList| && Replaces(newList, dict, k, i);
      assert Index(oldList[dict[Index(newList[k])]]) == Index(newList[k]);
      assert Index(newList[k]) == key && dict[key] == i;
      assert exists k' :: 0 <= k' < |newList| && Index(newList[k']) == Index(oldList[i]);
      assert Overwritten(oldList, newList, i);
    }
  }

  /** A shaped list, entry by entry: increasing old positions, then New(0) .. New(j-1). */
  lemma ShapedEntries(ret: seq<Pos>, j: nat)
    requires Shaped(ret, j)
    ensures forall k :: 0 <= k < |ret| - j ==> ret[k].Old?
    ensures forall k, l :: 0 <= k < l < |ret| - j ==> ret[k].i < ret[l].i
    ensures forall l :: |ret| - j <= l < |ret| ==> ret[l] == New(l - (|ret| - j))
  {
    var p := |ret| - j;
    assert forall k :: 0 <= k < p ==> ret[..p][k] == ret[k];
    assert forall l :: p <= l < |ret| ==> ret[p..][l - p] == ret[l];
  }

  /** The items of a shaped list: old items' current values, then the new items. */
  lemma ItemsLayout(ret: seq<Pos>, vals: seq<DeltaItem>, newList: seq<DeltaItem>, oldList: seq<DeltaItem>) returns (kept: seq<nat>)
    requires Shaped(ret, |newList|) && SameSlots(vals, oldList)
    requires forall p :: p in ret ==> if p.Old? then p.i < |vals| else p.j < |newList|
    ensures var r := Items(ret, vals, newList);
            && r[|r| - |newList|..] == newList
            && |kept| == |r| - |newList|
            && (forall a, b :: 0 <= a < b < |kept| ==> kept[a] < kept[b])
            && (forall k :: 0 <= k < |kept| ==> kept[k] < |oldList| && SameSlots([r[k]], [oldList[kept[k]]]))
            && (forall i :: i in kept <==> Old(i) in ret)
  {
    var r := Items(ret, vals, newList);
    var p := |ret| - |newList|;
    ShapedEntries(ret, |newList|);
    kept := seq(p, k requires 0 <= k < p => ret[k].i);
    forall k | 0 <= k < |newList|
      ensures r[p..][k] == newList[k]
    {
      assert ret[p + k] == New(k);
    }
    forall k | 0 <= k < p
      ensures kept[k] < |oldList| && SameSlots([r[k]], [oldList[kept[k]]])
    {
      assert ret[k] == Old(kept[k]);
    }
    KeptMembers(ret, p, kept);
  }

  /** An old position is among the kept ones exactly when the list holds it. */
  lemma KeptMembers(ret: seq<Pos>, p: nat, kept: seq<nat>)
    requires p <= |ret| && |kept| == p
    requires forall k :: 0 <= k < p ==> ret[k] == Old(kept[k])
    requires forall l :: p <= l < |ret| ==> ret[l].New?
    ensures forall i :: i in kept <==> Old(i) in ret
  {
    forall i
      ensures i in kept <==> Old(i) in ret
    {
      if i in kept {
        var k :| 0 <= k < p && kept[k] == i;
        assert ret[k] == Old(i);
      }
      if Old(i) in ret {
        var k :| 0 <= k < |ret| && ret[k] == Old(i);
        assert kept[k] == i;
      }
    }
  }

  /**
   * r starts with the old items at the increasing positions kept, each still in the slot
   * of its old item, and kept holds exactly the old items not overwritten.
   */
  ghost predicate KeptLayout(r: seq<DeltaItem>, kept: seq<nat>, oldList: seq<DeltaItem>, newList: seq<DeltaItem>)
  {
    && |kept| == |r| - |newList|
    && (forall a, b :: 0 <= a < b < |kept| ==> kept[a] < kept[b])
    && (forall k :: 0 <= k < |kept| ==> kept[k] < |oldList| && SameSlots([r[k]], [oldList[kept[k]]]))
    && (forall i :: 0 <= i < |oldList| ==> (i in kept <==> !Overwritten(oldList, newList, i)))
  }

  /**
   * On success the result is the surviving old items, in their original order, followed
   * by every new item in order; an old item survives iff it is not overwritten, and the
   * survivors keep their delta_type, offset and offset_len.
   */
  lemma MergeLayout(oldList: seq<DeltaItem>, newList: seq<DeltaItem>)
    requires Merge(oldList, newList).Success?
    ensures var r := Merge(oldList, newList).value;
            && |r| >= |newList| && r[|r| - |newList|..] == newList
            && exists kept: seq<nat> :: KeptLayout(r, kept, oldList, newList)
  {
    var fin := MergeFinal(oldList, newList);
    var kept := ItemsLayout(fin.ret, fin.vals, newList, oldList);
    var r := Merge(oldList, newList).value;
    assert r == Items(fin.ret, fin.vals, newList);
    assert KeptLayout(r, kept, oldList, newList);
  }

  // ---------------------------------------------------------------- the loops

  /** The reference_dict loop. */
  method BuildRefDict(oldList: seq<DeltaItem>, dict: map<int, nat>) returns (r: Result<map<nat, seq<nat>>, string>)
    ensures r == RefDictFrom(oldList, dict, map[], 0)
  {
    var refs: map<nat, seq<nat>> := map[];
    var i := 0;
    while i < |oldList|
      invariant 0 <= i <= |oldList|
      invariant RefDictFrom(oldList, dict, refs, i) == RefDictFrom(oldList, dict, map[], 0)
    {
      var item := oldList[i];
      if item.refId == REF_SELF {
        if !(item.data.Num? && item.data.n in dict) {
          return Failure(KEY_ERROR);
        }
        var orig := dict[item.data.n];
        refs := refs[orig := Referring(refs, orig) + [i]];
      }
      i := i + 1;
    }
    return Success(refs);
  }

  /** The loop looking for the first referring item still listed (ret_deltalist.index in a try). */
  method FindPivot(referred: seq<nat>, ret: seq<Pos>) returns (r: Option<nat>)
    ensures r == FindPivotFrom(referred, ret, 0)
  {
    var position := 0;
    while position < |referred|
      invariant 0 <= position <= |referred|
      invariant FindPivotFrom(referred, ret, position) == FindPivotFrom(referred, ret, 0)
    {
      if Old(referred[position]) in ret {
        return Some(position);
      }
      position := position + 1;
    }
    return None;
  }

  /** The loop over referred_deltalist[position_inlist+1:]. */
  method RepointAll(vals: seq<DeltaItem>, refs: map<nat, seq<nat>>, ret: seq<Pos>, rest: seq<nat>, pivot: nat, target: int)
    returns (vals': seq<DeltaItem>, refs': map<nat, seq<nat>>)
    requires forall k :: 0 <= k < |rest| ==> rest[k] < |vals|
    requires pivot < |vals| && RefsInRange(refs, |vals|)
    ensures (vals', refs') == Repoint(vals, refs, ret, rest, pivot, target)
  {
    vals', refs' := vals, refs;
    var k := 0;
    while k < |rest|
      invariant 0 <= k <= |rest| && |vals'| == |vals| && RefsInRange(refs', |vals|)
      invariant Repoint(vals', refs', ret, rest[k..], pivot, target) == Repoint(vals, refs, ret, rest, pivot, target)
    {
      var ri := rest[k];
      assert rest[k..][1..] == rest[k + 1..];
      if Old(ri) in ret {
        FileUnder(refs', pivot, ri, |vals|);
        vals' := vals'[ri := vals'[ri].(data := Num(target))];
        refs' := refs'[pivot := Referring(refs', pivot) + [ri]];
      }
      k := k + 1;
    }
  }

  /** The repair before an old item others refer to is replaced. */
  method RepairReferences(st: MergeState, o: nat, ghost m: nat) returns (r: MergeState)
    requires Valid(st, m) && o in st.refs
    ensures r == Repair(st, o, m)
  {
    var referred := st.refs[o];
    var p := FindPivot(referred, st.ret);
    if p.None? {
      return st;
    }
    var pivot := referred[p.value];
    var src := st.vals[o];
    var vals := st.vals[pivot := st.vals[pivot].(refId := src.refId, dataLen := src.dataLen, data := src.data, hash := src.hash)];
    var rest := referred[p.value + 1..];
    assert forall k :: 0 <= k < |rest| ==> rest[k] == referred[p.value + 1 + k];
    var vals', refs' := RepointAll(vals, st.refs - {o}, st.ret, rest, pivot, Index(vals[pivot]));
    r := MergeState(st.ret, vals', refs');
  }

  /** The body of the loop over the new items. */
  method MergeOne(newList: seq<DeltaItem>, dict: map<int, nat>, st: MergeState, j: nat, ghost m: nat)
    returns (r: Result<MergeState, string>)
    requires j < |newList| && Valid(st, m) && DictInRange(dict, m) && NewsBelow(st.ret, j)
    ensures r == MergeStep(newList, dict, st, j, m)
  {
    var key := Index(newList[j]);
    if key !in dict {
      return Success(st.(ret := st.ret + [New(j)]));
    }
    var o := dict[key];
    var st1 := st;
    if o in st.refs {
      st1 := RepairReferences(st, o, m);
    }
    if Old(o) !in st1.ret {
      return Failure(VALUE_ERROR);
    }
    var position := Find(st1.ret, Old(o));
    return Success(st1.(ret := Delete(st1.ret, position) + [New(j)]));
  }

  /** residue_merge_deltalist(old_deltalist, new_deltalist) */
  method ResidueMergeDeltalist(oldList: seq<DeltaItem>, newList: seq<DeltaItem>) returns (r: Result<seq<DeltaItem>, string>)
    ensures r == Merge(oldList, newList)
  {
    var dict := DeltaReorder.BuildIndexDict(oldList);
    var refs := BuildRefDict(oldList, dict);
    if refs.Failure? {
      return Failure(refs.error);
    }
    var refs0: map<nat, seq<nat>> := map[];
    RefDictSound(oldList, dict, refs0, 0);
    var ret: seq<Pos> := [];
    var i := 0;
    while i < |oldList|
      invariant 0 <= i <= |oldList| && ret == OldPositions(i)
    {
      ret := ret + [Old(i)];
      i := i + 1;
    }
    var st := MergeState(ret, oldList, refs.value);
    ghost var st0 := st;
    InitialState(oldList, refs.value);
    var j := 0;
    while j < |newList|
      invariant 0 <= j <= |newList| && Valid(st, |oldList|) && NewsBelow(st.ret, j)
      invariant MergeRun(newList, dict, st, j, |oldList|) == MergeRun(newList, dict, st0, 0, |oldList|)
    {
      var step := MergeOne(newList, dict, st, j, |oldList|);
      if step.Failure? {
        return Failure(step.error);
      }
      st := step.value;
      j := j + 1;
    }
    FinalShape(newList, dict, st, |oldList|);
    return Success(Items(st.ret, st.vals, newList));
  }
}
