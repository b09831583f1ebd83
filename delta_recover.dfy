/**
 * Recovered_delta.recover_item (elijah/provisioning/delta.py): rebuilds the bytes of one
 * item from the base memory, the base disk, the zero page, an earlier recovered item or
 * an xdelta patch, and turns the item back into REF_RAW.
 */
module DeltaRecover {
  import opened Wrappers
  import opened Bytes
  import opened DeltaItems

  /**
   * What recover_item reads besides the item: the base memory and disk images, the chunk
   * size and the data of the items recovered so far, keyed by their index.
   */
  datatype Context = Context(rawMem: seq<byte>, rawDisk: seq<byte>, chunkSize: nat, recovered: map<int, seq<byte>>)

  /** tool.merge_data(base, patch, limit): the xdelta decoder, outside this model. */
  type Merge = (seq<byte>, seq<byte>, nat) -> seq<byte>

  /** tool.diff_data(source, target, limit): the xdelta encoder, outside this model. */
  type Diff = (seq<byte>, seq<byte>, nat) -> seq<byte>

  /** The bytes an item stands for, before the length check. */
  function RecoverData(ctx: Context, merge: Merge, item: DeltaItem): (r: Result<seq<byte>, string>)
    ensures item.refId == REF_ZEROS ==> r == Success(Zeros(ctx.chunkSize))
    ensures item.refId == REF_RAW ==> (r.Success? <==> item.data.Bytes?)
    ensures item.refId == REF_SELF ==> (r.Success? <==> item.data.Num? && item.data.n in ctx.recovered)
    ensures item.refId !in {REF_RAW, REF_ZEROS, REF_BASE_MEM, REF_BASE_DISK, REF_SELF, REF_XDELTA} ==> r.Failure?
    ensures item.refId == REF_XDELTA && item.deltaType !in {DELTA_MEMORY, DELTA_DISK} ==>
              r == Failure("DeltaError: Delta type should be either disk or memory")
  {
    if item.refId == REF_RAW then
      if item.data.Bytes? then Success(item.data.b) else Failure("TypeError: data has no length")
    else if item.refId == REF_ZEROS then
      Success(Zeros(ctx.chunkSize))
    else if item.refId == REF_BASE_MEM then
      if item.data.Num? then Success(PySlice(ctx.rawMem, item.data.n, item.data.n + ctx.chunkSize))
      else Failure("TypeError: offset is not an integer")
    else if item.refId == REF_BASE_DISK then
      if item.data.Num? then Success(PySlice(ctx.rawDisk, item.data.n, item.data.n + ctx.chunkSize))
      else Failure("TypeError: offset is not an integer")
    else if item.refId == REF_SELF then
      if item.data.Num? && item.data.n in ctx.recovered then Success(ctx.recovered[item.data.n])
      else Failure("MemoryError: Cannot find self reference")
    else if item.refId == REF_XDELTA then
      if item.deltaType != DELTA_MEMORY && item.deltaType != DELTA_DISK then
        Failure("DeltaError: Delta type should be either disk or memory")
      else if !item.data.Bytes? then Failure("TypeError: patch is not a byte string")
      else if item.deltaType == DELTA_MEMORY then
        var base := PySlice(ctx.rawMem, item.offset, item.offset + item.offsetLen);
        Success(merge(base, item.data.b, |base| * 5))
      else
        var base := PySlice(ctx.rawDisk, item.offset, item.offset + item.offsetLen);
        Success(merge(base, item.data.b, |base| * 5))
    else Failure("MemoryError: Cannot recover: invalid referce id")
  }

  /** recover_item: the item with ref_id REF_RAW and its recovered bytes, if their length is offset_len. */
  function RecoverItem(ctx: Context, merge: Merge, item: DeltaItem): (r: Result<DeltaItem, string>)
    ensures r.Success? <==> RecoverData(ctx, merge, item).Success? && |RecoverData(ctx, merge, item).value| == item.offsetLen
    ensures r.Success? ==> r.value == item.(refId := REF_RAW, data := Bytes(RecoverData(ctx, merge, item).value))
  {
    var d :- RecoverData(ctx, merge, item);
    if |d| != item.offsetLen then Failure("MemoryError: Recovered Size Error")
    else Success(item.(refId := REF_RAW, data := Bytes(d)))
  }

  /** A recovered item is RAW, carries exactly offset_len bytes and keeps its identity and data_len. */
  lemma RecoveredIsRaw(ctx: Context, merge: Merge, item: DeltaItem)
    requires RecoverItem(ctx, merge, item).Success?
    ensures var r := RecoverItem(ctx, merge, item).value;
            && r.refId == REF_RAW && r.data.Bytes? && |r.data.b| == item.offsetLen
            && r.deltaType == item.deltaType && r.offset == item.offset && r.offsetLen == item.offsetLen
            && r.hash == item.hash && r.dataLen == item.dataLen && Index(r) == Index(item)
  {
  }

  /** A zero reference recovers to chunk_size zero bytes, and fails unless offset_len is chunk_size. */
  lemma ZerosRecover(ctx: Context, merge: Merge, item: DeltaItem)
    requires item.refId == REF_ZEROS
    ensures RecoverItem(ctx, merge, item).Success? <==> item.offsetLen == ctx.chunkSize
    ensures RecoverItem(ctx, merge, item).Success? ==>
              RecoverItem(ctx, merge, item).value.data == Bytes(Zeros(ctx.chunkSize))
  {
  }

  /** A base reference recovers to base[data : data + chunk_size] of the image its kind names. */
  lemma BaseRecover(ctx: Context, merge: Merge, item: DeltaItem)
    requires item.refId in {REF_BASE_MEM, REF_BASE_DISK} && item.data.Num?
    requires 0 <= item.data.n && item.data.n + ctx.chunkSize <= |if item.refId == REF_BASE_MEM then ctx.rawMem else ctx.rawDisk|
    requires item.offsetLen == ctx.chunkSize
    ensures var base := if item.refId == REF_BASE_MEM then ctx.rawMem else ctx.rawDisk;
            RecoverItem(ctx, merge, item) ==
              Success(item.(refId := REF_RAW, data := Bytes(base[item.data.n..item.data.n + ctx.chunkSize])))
  {
  }

  /** A base reference reaching past the image's end recovers a short slice and so fails. */
  lemma BasePastEndFails(ctx: Context, merge: Merge, item: DeltaItem)
    requires item.refId == REF_BASE_MEM && item.data.Num? && 0 <= item.data.n
    requires ctx.chunkSize > 0 && item.data.n + ctx.chunkSize > |ctx.rawMem| && item.offsetLen == ctx.chunkSize
    ensures RecoverItem(ctx, merge, item).Failure?
  {
    var s := PySlice(ctx.rawMem, item.data.n, item.data.n + ctx.chunkSize);
    assert |s| < ctx.chunkSize by {
      ClampBelow(ctx.rawMem, item.data.n, item.data.n + ctx.chunkSize);
    }
  }

  /** The length of a slice that starts inside the sequence and ends past it. */
  lemma ClampBelow(s: seq<byte>, lo: int, hi: int)
    requires 0 <= lo && hi > |s| && lo < hi
    ensures |PySlice(s, lo, hi)| < hi - lo
  {
  }

  /** A self reference to an index not yet recovered raises; one to a recovered index copies its bytes. */
  lemma SelfRecover(ctx: Context, merge: Merge, item: DeltaItem, idx: int)
    requires item.refId == REF_SELF && item.data == Num(idx)
    ensures idx !in ctx.recovered ==> RecoverItem(ctx, merge, item).Failure?
    ensures idx in ctx.recovered && |ctx.recovered[idx]| == item.offsetLen ==>
              RecoverItem(ctx, merge, item) == Success(item.(refId := REF_RAW, data := Bytes(ctx.recovered[idx])))
  {
  }

  /** An xdelta item whose kind is neither memory nor disk, or any unknown ref_id, raises. */
  lemma BadKindsFail(ctx: Context, merge: Merge, item: DeltaItem)
    requires (item.refId == REF_XDELTA && item.deltaType !in {DELTA_MEMORY, DELTA_DISK})
          || item.refId !in {REF_RAW, REF_ZEROS, REF_BASE_MEM, REF_BASE_DISK, REF_SELF, REF_XDELTA}
    ensures RecoverItem(ctx, merge, item).Failure?
  {
  }

  /**
   * Recovery undoes table dedup: a RAW chunk deduplicated against base memory whose
   * entry's start holds the same bytes comes back with its bytes (data_len stays 8).
   */
  lemma RecoverUndoesBaseDedup(ctx: Context, merge: Merge, table: map<Option<seq<byte>>, HashEntry>, item: DeltaItem)
    requires item.refId == REF_RAW && item.data.Bytes? && |item.data.b| == item.offsetLen == ctx.chunkSize
    requires item.hash in table
    requires var s := table[item.hash].start;
             0 <= s && s + ctx.chunkSize <= |ctx.rawMem| && ctx.rawMem[s..s + ctx.chunkSize] == item.data.b
    ensures var d := Deduplicate(table, item, REF_BASE_MEM);
            d.0 && RecoverItem(ctx, merge, d.1) == Success(item.(dataLen := 8))
  {
    var d := Deduplicate(table, item, REF_BASE_MEM);
    BaseRecover(ctx, merge, d.1);
  }
}
