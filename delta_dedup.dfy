/**
 * The per-item deduplication chain of DeltaDedup.perform_dedup
 * (elijah/provisioning/delta.py): every incoming item is looked up in the zero-page
 * table, then the base memory table, then the base disk table; an item none of them
 * matches is either turned into a reference to an earlier item with the same hash or
 * registered in the self table under its own index.
 */
module DeltaDedup {
  import opened Wrappers
  import opened Bytes
  import opened DeltaItems

  type Table = map<Option<seq<byte>>, HashEntry>

  /** Which link of the chain handled an item. */
  datatype Route = ToZeros | ToBaseMem | ToBaseDisk | ToSelf | Registered | Passed

  /** One step of the chain: the route taken, the item after it and the new self table. */
  datatype Step = Step(route: Route, item: DeltaItem, selfTable: Table)

  /** The self table's entry for a new item: (index, 8, hash); the hash field is never read back. */
  function SelfEntry(item: DeltaItem): HashEntry
  {
    HashEntry(Index(item), 8, if item.hash.Some? then item.hash.value else [])
  }

  /**
   * The zero-page table: the hash of chunk_size zero bytes maps to (-1, chunk_size, hash).
   * Memory and disk must use the same chunk size.
   */
  function ZeroTable(memoryChunkSize: nat, diskChunkSize: nat, sha: seq<byte> -> seq<byte>): (r: Result<Table, string>)
    ensures r.Failure? <==> memoryChunkSize != diskChunkSize
    ensures r.Success? ==> r.value.Keys == {Some(sha(Zeros(diskChunkSize)))}
    ensures r.Success? ==> r.value[Some(sha(Zeros(diskChunkSize)))].start == -1
  {
    if memoryChunkSize != diskChunkSize then Failure("DeltaError: Expect same chunk size for Disk and Memory")
    else
      var h := sha(Zeros(diskChunkSize));
      Success(map[Some(h) := HashEntry(-1, diskChunkSize, h)])
  }

  /** The chain for one item (the if/elif ladder after an item is taken from a queue). */
  function ChainItem(zero: Table, mem: Table, disk: Table, self: Table, item: DeltaItem): (r: Step)
    ensures r.route == ToZeros <==> IsRawOrXdelta(item) && item.hash in zero
    ensures r.route == ToBaseMem <==> IsRawOrXdelta(item) && item.hash !in zero && item.hash in mem
    ensures r.route == ToBaseDisk <==> IsRawOrXdelta(item) && item.hash !in zero && item.hash !in mem && item.hash in disk
    ensures r.route == ToSelf <==>
              IsRawOrXdelta(item) && item.hash !in zero && item.hash !in mem && item.hash !in disk && item.hash in self
    ensures r.route == Passed <==> !IsRawOrXdelta(item)
    ensures r.route == ToZeros ==> r.item == Redirect(item, REF_ZEROS, zero[item.hash].start)
    ensures r.route == ToBaseMem ==> r.item == Redirect(item, REF_BASE_MEM, mem[item.hash].start)
    ensures r.route == ToBaseDisk ==> r.item == Redirect(item, REF_BASE_DISK, disk[item.hash].start)
    ensures r.route == ToSelf ==> r.item == Redirect(item, REF_SELF, self[item.hash].start)
    ensures r.route in {Registered, Passed} ==> r.item == item
    ensures r.route == Registered ==> r.selfTable == self[item.hash := SelfEntry(item)]
    ensures r.route != Registered ==> r.selfTable == self
  {
    var z := Deduplicate(zero, item, REF_ZEROS);
    if z.0 then Step(ToZeros, z.1, self)
    else
      var m := Deduplicate(mem, item, REF_BASE_MEM);
      if m.0 then Step(ToBaseMem, m.1, self)
      else
        var d := Deduplicate(disk, item, REF_BASE_DISK);
        if d.0 then Step(ToBaseDisk, d.1, self)
        else if IsRawOrXdelta(item) then
          var s := Deduplicate(self, item, REF_SELF);
          if s.0 then Step(ToSelf, s.1, self)
          else Step(Registered, item, self[item.hash := SelfEntry(item)])
        else Step(Passed, item, self)
  }

  /** The chain over a whole stream of items, threading the self table. */
  function DedupAll(zero: Table, mem: Table, disk: Table, self: Table, items: seq<DeltaItem>): (r: (seq<DeltaItem>, Table))
    ensures |r.0| == |items|
    decreases |items|
  {
    if items == [] then ([], self)
    else
      var s := ChainItem(zero, mem, disk, self, items[0]);
      var rest := DedupAll(zero, mem, disk, s.selfTable, items[1..]);
      ([s.item] + rest.0, rest.1)
  }

  /** Every self-table entry is the index of an earlier item that still carries its data. */
  ghost predicate TableSound(self: Table, done: seq<DeltaItem>)
  {
    forall h :: h in self ==>
      exists i :: 0 <= i < |done| && done[i].hash == h && IsRawOrXdelta(done[i]) && self[h].start == Index(done[i])
  }

  /** A step keeps the self table sound once its output is appended. */
  lemma ChainKeepsTableSound(zero: Table, mem: Table, disk: Table, self: Table, done: seq<DeltaItem>, item: DeltaItem)
    requires TableSound(self, done)
    ensures TableSound(ChainItem(zero, mem, disk, self, item).selfTable, done + [ChainItem(zero, mem, disk, self, item).item])
  {
    var s := ChainItem(zero, mem, disk, self, item);
    var done' := done + [s.item];
    forall h | h in s.selfTable
      ensures exists i :: 0 <= i < |done'| && done'[i].hash == h && IsRawOrXdelta(done'[i]) && s.selfTable[h].start == Index(done'[i])
    {
      if s.route == Registered && h == item.hash {
        assert done'[|done|] == item;
      } else {
        var i :| 0 <= i < |done| && done[i].hash == h && IsRawOrXdelta(done[i]) && self[h].start == Index(done[i]);
        assert done'[i] == done[i];
      }
    }
  }

  /** Among the first n items of all, one with item's hash still carries data, and ref's data is its index. */
  ghost predicate RefersBack(all: seq<DeltaItem>, n: int, item: DeltaItem, ref: DeltaItem)
  {
    exists i :: 0 <= i < n && i < |all| && all[i].hash == item.hash && IsRawOrXdelta(all[i]) && ref.data == Num(Index(all[i]))
  }

  /**
   * Every data-carrying item the chain turns into a self reference points at the index
   * of an earlier item with the same hash that is still RAW/XDELTA in the output.
   */
  lemma {:induction false} SelfRefsPointBack(zero: Table, mem: Table, disk: Table, self: Table, done: seq<DeltaItem>, items: seq<DeltaItem>)
    requires TableSound(self, done)
    ensures forall j :: 0 <= j < |items| && IsRawOrXdelta(items[j]) && DedupAll(zero, mem, disk, self, items).0[j].refId == REF_SELF ==>
              RefersBack(done + DedupAll(zero, mem, disk, self, items).0, |done| + j, items[j], DedupAll(zero, mem, disk, self, items).0[j])
    decreases |items|
  {
    if items != [] {
      var out := DedupAll(zero, mem, disk, self, items).0;
      var s := ChainItem(zero, mem, disk, self, items[0]);
      var rest := DedupAll(zero, mem, disk, s.selfTable, items[1..]).0;
      assert out == [s.item] + rest;
      var done' := done + [s.item];
      assert done + out == done' + rest;
      ChainKeepsTableSound(zero, mem, disk, self, done, items[0]);
      SelfRefsPointBack(zero, mem, disk, s.selfTable, done', items[1..]);
      forall j | 0 <= j < |items| && IsRawOrXdelta(items[j]) && out[j].refId == REF_SELF
        ensures RefersBack(done + out, |done| + j, items[j], out[j])
      {
        if j == 0 {
          assert s.route == ToSelf;
          var h := items[0].hash;
          var i :| 0 <= i < |done| && done[i].hash == h && IsRawOrXdelta(done[i]) && self[h].start == Index(done[i]);
          assert (done + out)[i] == done[i];
        } else {
          assert items[1..][j - 1] == items[j] && rest[j - 1] == out[j];
          assert RefersBack(done' + rest, |done'| + (j - 1), items[1..][j - 1], rest[j - 1]);
        }
      }
    }
  }

  /** A RAW page of zeros becomes a REF_ZEROS reference whose data is -1. */
  lemma ZeroPageDeduplicated(chunkSize: nat, sha: seq<byte> -> seq<byte>, mem: Table, disk: Table, self: Table, item: DeltaItem)
    requires item.refId == REF_RAW && item.hash == Some(sha(Zeros(chunkSize)))
    ensures var zero := ZeroTable(chunkSize, chunkSize, sha).value;
            var s := ChainItem(zero, mem, disk, self, item);
            s.route == ToZeros && s.item.refId == REF_ZEROS && s.item.data == Num(-1) && s.item.dataLen == 8
  {
  }

  /** Two RAW items with a hash no base table holds: the first is registered, the second refers to it. */
  lemma SecondCopyRefersToFirst(zero: Table, mem: Table, disk: Table, a: DeltaItem, b: DeltaItem)
    requires IsRawOrXdelta(a) && IsRawOrXdelta(b) && a.hash == b.hash
    requires a.hash !in zero && a.hash !in mem && a.hash !in disk
    ensures var out := DedupAll(zero, mem, disk, map[], [a, b]).0;
            out[0] == a && out[1] == Redirect(b, REF_SELF, Index(a))
  {
    var s := ChainItem(zero, mem, disk, map[], a);
    assert [a, b][1..] == [b];
    assert [b][1..] == [];
  }

  /**
   * The worker's state: the self table, the counters it reports and the offsets of the
   * delta chunks it has passed on.
   */
  class DedupState {
    var selfTable: Table
    var zeroPages: nat
    var baseMem: nat
    var baseDisk: nat
    var selfRefs: nat
    var diskChunks: seq<nat>
    var memoryChunks: seq<nat>

    constructor()
      ensures selfTable == map[] && zeroPages == 0 && baseMem == 0 && baseDisk == 0 && selfRefs == 0
      ensures diskChunks == [] && memoryChunks == []
    {
      selfTable := map[];
      zeroPages, baseMem, baseDisk, selfRefs := 0, 0, 0, 0;
      diskChunks, memoryChunks := [], [];
    }

    /** Runs the chain on one item, counting its route and recording its offset. */
    method Process(zero: Table, mem: Table, disk: Table, item: DeltaItem) returns (out: DeltaItem)
      modifies this
      ensures var s := ChainItem(zero, mem, disk, old(selfTable), item);
              && out == s.item && selfTable == s.selfTable
              && zeroPages == old(zeroPages) + (if s.route == ToZeros then 1 else 0)
              && baseMem == old(baseMem) + (if s.route == ToBaseMem then 1 else 0)
              && baseDisk == old(baseDisk) + (if s.route == ToBaseDisk then 1 else 0)
              && selfRefs == old(selfRefs) + (if s.route == ToSelf then 1 else 0)
      ensures diskChunks == old(diskChunks) + (if item.deltaType == DELTA_DISK then [item.offset] else [])
      ensures memoryChunks == old(memoryChunks) + (if item.deltaType == DELTA_MEMORY then [item.offset] else [])
    {
      var z := Deduplicate(zero, item, REF_ZEROS);
      if z.0 {
        out := z.1;
        zeroPages := zeroPages + 1;
      } else {
        var m := Deduplicate(mem, item, REF_BASE_MEM);
        if m.0 {
          out := m.1;
          baseMem := baseMem + 1;
        } else {
          var d := Deduplicate(disk, item, REF_BASE_DISK);
          if d.0 {
            out := d.1;
            baseDisk := baseDisk + 1;
          } else {
            out := item;
            if IsRawOrXdelta(item) {
              var s := Deduplicate(selfTable, item, REF_SELF);
              if s.0 {
                out := s.1;
                selfRefs := selfRefs + 1;
              } else {
                selfTable := selfTable[item.hash := SelfEntry(item)];
              }
            }
          }
        }
      }
      if out.deltaType == DELTA_DISK {
        diskChunks := diskChunks + [out.offset];
      } else if out.deltaType == DELTA_MEMORY {
        memoryChunks := memoryChunks + [out.offset];
      }
    }
  }
}
