/**
 * create_disk_deltalist (src/cloudlet/Disk.py): one DELTA_DISK item per modified chunk
 * of the disk, an xdelta patch against the base disk when the patch is shorter than the
 * chunk and the chunk's bytes otherwise; chunks that a TRIM after their last write or the
 * xray used-block map marks as discarded are left out when apply_discard is set.
 */
module DiskDelta {
  import opened Wrappers
  import opened Bytes
  import opened DeltaItems
  import DeltaRecover
  import Disk

  /**
   * What the function reads besides the chunk list: the modified disk's bytes, the base
   * disk's bytes (the mmap), chunk_size, trim_dict and used_blocks_dict (None and an
   * empty dict are alike here, both false), apply_discard, and sha256 and the xdelta
   * encoder as functions.
   */
  datatype DiskEnv = DiskEnv(
    modified: seq<byte>,
    base: seq<byte>,
    chunkSize: nat,
    trim: map<int, int>,
    usedBlocks: map<int, bool>,
    applyDiscard: bool,
    sha: seq<byte> -> seq<byte>,
    diff: DeltaRecover.Diff)

  /** A key of modified_chunk_dict with its value, the time of the chunk's last write. */
  datatype Modified = Modified(chunk: nat, ctime: int)

  /** offset = chunk * chunk_size */
  function Offset(env: DiskEnv, chunk: nat): nat
  {
    chunk * env.chunkSize
  }

  /** The TRIM check: a non-zero trim time later than the last write discards the chunk. */
  predicate Trimmed(env: DiskEnv, m: Modified)
  {
    m.chunk in env.trim && env.trim[m.chunk] != 0 && env.trim[m.chunk] > m.ctime
  }

  /** A non-zero trim time no later than the last write: the chunk was written after its TRIM. */
  predicate OverwrittenAfterTrim(env: DiskEnv, m: Modified)
  {
    m.chunk in env.trim && env.trim[m.chunk] != 0 && !(env.trim[m.chunk] > m.ctime)
  }

  /** The xray check: with a non-empty used-block map, a chunk whose first sector is not marked True is discarded. */
  predicate Xrayed(env: DiskEnv, m: Modified)
  {
    var sector := Offset(env, m.chunk) / Disk.SECTOR_SIZE;
    |env.usedBlocks| > 0 && !(sector in env.usedBlocks && env.usedBlocks[sector])
  }

  /** Whether the chunk is put out: a discarded chunk is skipped only when apply_discard is set. */
  predicate Kept(env: DiskEnv, m: Modified)
  {
    !(env.applyDiscard && (Trimmed(env, m) || Xrayed(env, m)))
  }

  /** The chunk's bytes: seek to chunk * chunk_size and read chunk_size, short or empty past the end. */
  function ChunkData(env: DiskEnv, chunk: nat): (r: seq<byte>)
    ensures |r| <= env.chunkSize
    ensures Offset(env, chunk) + env.chunkSize <= |env.modified| ==>
              r == env.modified[Offset(env, chunk)..Offset(env, chunk) + env.chunkSize]
  {
    Read(PySuffix(env.modified, Offset(env, chunk)), env.chunkSize).0
  }

  /** base_mmap[offset:offset + len(data)] */
  function Source(env: DiskEnv, chunk: nat): seq<byte>
  {
    var offset := Offset(env, chunk);
    PySlice(env.base, offset, offset + |ChunkData(env, chunk)|)
  }

  /** The patch diff_data makes from the base bytes to the chunk's bytes. */
  function Patch(env: DiskEnv, chunk: nat): seq<byte>
  {
    var source := Source(env, chunk);
    env.diff(source, ChunkData(env, chunk), 2 * |source|)
  }

  /**
   * The chunk's item: DELTA_DISK at offset chunk * chunk_size, as long as the bytes read
   * and with their sha256; an xdelta patch exactly when it is shorter than those bytes,
   * the bytes themselves otherwise.
   */
  function DiskItem(env: DiskEnv, chunk: nat): (item: DeltaItem)
    ensures item.deltaType == DELTA_DISK && item.offset == Offset(env, chunk)
    ensures item.offsetLen == |ChunkData(env, chunk)| <= env.chunkSize
    ensures item.hash == Some(env.sha(ChunkData(env, chunk)))
    ensures item.refId == REF_XDELTA <==> |Patch(env, chunk)| < |ChunkData(env, chunk)|
    ensures item.refId == REF_XDELTA ==> item.data == Bytes(Patch(env, chunk)) && item.dataLen < item.offsetLen
    ensures item.refId != REF_XDELTA ==> item.refId == REF_RAW && item.data == Bytes(ChunkData(env, chunk)) && item.dataLen == item.offsetLen
  {
    var data := ChunkData(env, chunk);
    var patch := Patch(env, chunk);
    if |patch| < |data| then
      DeltaItem(DELTA_DISK, Offset(env, chunk), |data|, Some(env.sha(data)), REF_XDELTA, |patch|, Bytes(patch))
    else
      DeltaItem(DELTA_DISK, Offset(env, chunk), |data|, Some(env.sha(data)), REF_RAW, |data|, Bytes(data))
  }

  /**
   * The delta list and the statistics after some of the chunks: trimed_list, xrayed_list
   * and the count of chunks written after their TRIM.
   */
  datatype DiskRun = DiskRun(items: seq<DeltaItem>, trimmed: seq<nat>, xrayed: seq<nat>, overwritten: nat)

  /** One chunk more. */
  function Visit(env: DiskEnv, run: DiskRun, m: Modified): DiskRun
  {
    DiskRun(
      run.items + (if Kept(env, m) then [DiskItem(env, m.chunk)] else []),
      run.trimmed + (if Trimmed(env, m) then [m.chunk] else []),
      run.xrayed + (if Xrayed(env, m) then [m.chunk] else []),
      run.overwritten + (if OverwrittenAfterTrim(env, m) then 1 else 0))
  }

  /** create_disk_deltalist over the chunks in the order the dict gives them. */
  function DiskDeltas(env: DiskEnv, chunks: seq<Modified>): (r: DiskRun)
    ensures |r.items| <= |chunks| && |r.trimmed| <= |chunks| && |r.xrayed| <= |chunks|
    decreases |chunks|
  {
    if chunks == [] then DiskRun([], [], [], 0)
    else Visit(env, DiskDeltas(env, chunks[..|chunks| - 1]), chunks[|chunks| - 1])
  }

  /** ret_statistics: the two counters and the two lists. */
  datatype DiskStats = DiskStats(trimed: nat, xrayed: nat, trimedList: seq<nat>, xrayedList: seq<nat>)

  /** The loop: counters, lists and the delta list built chunk by chunk. */
  method CreateDiskDeltalist(env: DiskEnv, chunks: seq<Modified>) returns (deltaList: seq<DeltaItem>, stats: DiskStats)
    ensures deltaList == DiskDeltas(env, chunks).items
    ensures stats.trimedList == DiskDeltas(env, chunks).trimmed && stats.xrayedList == DiskDeltas(env, chunks).xrayed
    ensures stats.trimed == |stats.trimedList| && stats.xrayed == |stats.xrayedList|
  {
    var trimCounter := 0;
    var overwrittenAfterTrim := 0;
    var xrayCounter := 0;
    var trimedList: seq<nat> := [];
    var xrayedList: seq<nat> := [];
    deltaList := [];
    var index := 0;
    while index < |chunks|
      invariant 0 <= index <= |chunks|
      invariant DiskDeltas(env, chunks[..index]) == DiskRun(deltaList, trimedList, xrayedList, overwrittenAfterTrim)
      invariant trimCounter == |trimedList| && xrayCounter == |xrayedList|
    {
      DeltasNext(env, chunks, index);
      deltaList, trimedList, trimCounter, xrayedList, xrayCounter, overwrittenAfterTrim :=
        VisitChunk(env, chunks[index], deltaList, trimedList, trimCounter, xrayedList, xrayCounter, overwrittenAfterTrim);
      index := index + 1;
    }
    assert chunks[..index] == chunks;
    stats := DiskStats(trimCounter, xrayCounter, trimedList, xrayedList);
  }

  /** One pass of the loop: the TRIM and xray checks, then the chunk's item unless it is skipped. */
  method VisitChunk(env: DiskEnv, m: Modified, deltaList: seq<DeltaItem>, trimedList: seq<nat>, trimCounter: nat,
                    xrayedList: seq<nat>, xrayCounter: nat, overwrittenAfterTrim: nat)
    returns (deltaList': seq<DeltaItem>, trimedList': seq<nat>, trimCounter': nat,
             xrayedList': seq<nat>, xrayCounter': nat, overwrittenAfterTrim': nat)
    requires trimCounter == |trimedList| && xrayCounter == |xrayedList|
    ensures DiskRun(deltaList', trimedList', xrayedList', overwrittenAfterTrim')
         == Visit(env, DiskRun(deltaList, trimedList, xrayedList, overwrittenAfterTrim), m)
    ensures trimCounter' == |trimedList'| && xrayCounter' == |xrayedList'|
  {
    var trimmed, xrayed;
    trimedList', trimCounter', overwrittenAfterTrim', trimmed := TrimCheck(env, m, trimedList, trimCounter, overwrittenAfterTrim);
    xrayedList', xrayCounter', xrayed := XrayCheck(env, m, xrayedList, xrayCounter);
    var isDiscarded := trimmed || xrayed;
    deltaList' := deltaList;
    if isDiscarded && env.applyDiscard {
      return;
    }
    var deltaItem := MakeItem(env, m.chunk);
    deltaList' := deltaList' + [deltaItem];
  }

  /**
   * The TRIM check of one chunk: a discarded chunk goes on trimed_list and counts, one
   * written after its TRIM counts as overwritten_after_trim.
   */
  method TrimCheck(env: DiskEnv, m: Modified, trimedList: seq<nat>, trimCounter: nat, overwritten: nat)
    returns (trimedList': seq<nat>, trimCounter': nat, overwritten': nat, discarded: bool)
    ensures discarded == Trimmed(env, m)
    ensures trimedList' == trimedList + (if Trimmed(env, m) then [m.chunk] else [])
    ensures trimCounter' == trimCounter + |trimedList'| - |trimedList|
    ensures overwritten' == overwritten + (if OverwrittenAfterTrim(env, m) then 1 else 0)
  {
    trimedList', trimCounter', overwritten', discarded := trimedList, trimCounter, overwritten, false;
    if |env.trim| > 0 {
      if m.chunk in env.trim && env.trim[m.chunk] != 0 {
        var trimTime := env.trim[m.chunk];
        if trimTime > m.ctime {
          trimedList' := trimedList' + [m.chunk];
          trimCounter' := trimCounter' + 1;
          discarded := true;
        } else {
          overwritten' := overwritten' + 1;
        }
      }
    }
  }

  /**
   * The xray check of one chunk: with a non-empty used-block map that does not mark its
   * first sector True, it goes on xrayed_list and counts.
   */
  method XrayCheck(env: DiskEnv, m: Modified, xrayedList: seq<nat>, xrayCounter: nat)
    returns (xrayedList': seq<nat>, xrayCounter': nat, discarded: bool)
    ensures discarded == Xrayed(env, m)
    ensures xrayedList' == xrayedList + (if Xrayed(env, m) then [m.chunk] else [])
    ensures xrayCounter' == xrayCounter + |xrayedList'| - |xrayedList|
  {
    xrayedList', xrayCounter', discarded := xrayedList, xrayCounter, false;
    if |env.usedBlocks| > 0 {
      var startSector := Offset(env, m.chunk) / Disk.SECTOR_SIZE;
      if !(startSector in env.usedBlocks && env.usedBlocks[startSector]) {
        xrayedList' := xrayedList' + [m.chunk];
        xrayCounter' := xrayCounter' + 1;
        discarded := true;
      }
    }
  }

  /** The run after one more chunk. */
  lemma DeltasNext(env: DiskEnv, chunks: seq<Modified>, index: nat)
    requires index < |chunks|
    ensures DiskDeltas(env, chunks[..index + 1]) == Visit(env, DiskDeltas(env, chunks[..index]), chunks[index])
  {
    assert chunks[..index + 1][..index] == chunks[..index];
  }

  /** The item of one chunk that is not skipped: xdelta when the patch is shorter, raw bytes otherwise. */
  method MakeItem(env: DiskEnv, chunk: nat) returns (deltaItem: DeltaItem)
    ensures deltaItem == DiskItem(env, chunk)
  {
    var offset := Offset(env, chunk);
    var data := Read(PySuffix(env.modified, offset), env.chunkSize).0;
    var sourceData := PySlice(env.base, offset, offset + |data|);
    var patch := env.diff(sourceData, data, 2 * |sourceData|);
    if |patch| < |data| {
      deltaItem := DeltaItem(DELTA_DISK, offset, |data|, Some(env.sha(data)), REF_XDELTA, |patch|, Bytes(patch));
    } else {
      deltaItem := DeltaItem(DELTA_DISK, offset, |data|, Some(env.sha(data)), REF_RAW, |data|, Bytes(data));
    }
  }

  /** Without apply_discard every chunk is put out, in order, each as its own item. */
  lemma {:induction false} AllChunksWithoutDiscard(env: DiskEnv, chunks: seq<Modified>)
    requires !env.applyDiscard
    ensures |DiskDeltas(env, chunks).items| == |chunks|
    ensures forall j :: 0 <= j < |chunks| ==> DiskDeltas(env, chunks).items[j] == DiskItem(env, chunks[j].chunk)
    decreases |chunks|
  {
    if chunks != [] {
      var n := |chunks| - 1;
      var front := chunks[..n];
      AllChunksWithoutDiscard(env, front);
      var before := DiskDeltas(env, front).items;
      assert DiskDeltas(env, chunks).items == before + [DiskItem(env, chunks[n].chunk)];
      forall j | 0 <= j < |chunks|
        ensures DiskDeltas(env, chunks).items[j] == DiskItem(env, chunks[j].chunk)
      {
        if j < n {
          assert front[j] == chunks[j];
        }
        SnocAt(before, DiskItem(env, chunks[n].chunk), j, DiskItem(env, chunks[j].chunk));
      }
    }
  }

  /** Some chunk of the list that is kept has this item. */
  ghost predicate FromKept(env: DiskEnv, chunks: seq<Modified>, item: DeltaItem)
  {
    exists j :: 0 <= j < |chunks| && Kept(env, chunks[j]) && item == DiskItem(env, chunks[j].chunk)
  }

  lemma FromKeptLonger(env: DiskEnv, chunks: seq<Modified>, n: nat, item: DeltaItem)
    requires n <= |chunks| && FromKept(env, chunks[..n], item)
    ensures FromKept(env, chunks, item)
  {
    var j :| 0 <= j < n && Kept(env, chunks[..n][j]) && item == DiskItem(env, chunks[..n][j].chunk);
    assert chunks[..n][j] == chunks[j];
  }

  /** Every item comes from a chunk that is kept. */
  lemma {:induction false} ItemsFromKeptChunks(env: DiskEnv, chunks: seq<Modified>)
    ensures forall i :: 0 <= i < |DiskDeltas(env, chunks).items| ==> FromKept(env, chunks, DiskDeltas(env, chunks).items[i])
    decreases |chunks|
  {
    if chunks != [] {
      var n := |chunks| - 1;
      var front := chunks[..n];
      var m := chunks[n];
      ItemsFromKeptChunks(env, front);
      var before := DiskDeltas(env, front).items;
      var items := DiskDeltas(env, chunks).items;
      assert items == before + (if Kept(env, m) then [DiskItem(env, m.chunk)] else []);
      forall i | 0 <= i < |items|
        ensures FromKept(env, chunks, items[i])
      {
        if i < |before| {
          assert items[i] == before[i];
          FromKeptLonger(env, chunks, n, before[i]);
        } else {
          assert items[i] == DiskItem(env, chunks[n].chunk);
        }
      }
    }
  }

  /** Every chunk that is kept has its item in the list. */
  lemma {:induction false} KeptChunksHaveItems(env: DiskEnv, chunks: seq<Modified>)
    ensures forall j :: 0 <= j < |chunks| && Kept(env, chunks[j]) ==> DiskItem(env, chunks[j].chunk) in DiskDeltas(env, chunks).items
    decreases |chunks|
  {
    if chunks != [] {
      var n := |chunks| - 1;
      var front := chunks[..n];
      var m := chunks[n];
      KeptChunksHaveItems(env, front);
      var before := DiskDeltas(env, front).items;
      var items := DiskDeltas(env, chunks).items;
      assert items == before + (if Kept(env, m) then [DiskItem(env, m.chunk)] else []);
      forall j | 0 <= j < |chunks| && Kept(env, chunks[j])
        ensures DiskItem(env, chunks[j].chunk) in items
      {
        if j < n {
          assert front[j] == chunks[j];
          assert DiskItem(env, front[j].chunk) in before;
        } else {
          assert items[|items| - 1] == DiskItem(env, m.chunk);
        }
      }
    }
  }

  /** Some chunk of the list with this number was trimmed. */
  ghost predicate TrimmedIn(env: DiskEnv, chunks: seq<Modified>, c: nat)
  {
    exists j :: 0 <= j < |chunks| && chunks[j].chunk == c && Trimmed(env, chunks[j])
  }

  /** Some chunk of the list with this number was xrayed. */
  ghost predicate XrayedIn(env: DiskEnv, chunks: seq<Modified>, c: nat)
  {
    exists j :: 0 <= j < |chunks| && chunks[j].chunk == c && Xrayed(env, chunks[j])
  }

  /** trimed_list names exactly the chunks trimmed. */
  lemma {:induction false} TrimmedListExact(env: DiskEnv, chunks: seq<Modified>)
    ensures forall c :: c in DiskDeltas(env, chunks).trimmed <==> TrimmedIn(env, chunks, c)
    decreases |chunks|
  {
    if chunks != [] {
      var n := |chunks| - 1;
      var front := chunks[..n];
      var m := chunks[n];
      TrimmedListExact(env, front);
      var after := DiskDeltas(env, chunks).trimmed;
      var before := DiskDeltas(env, front).trimmed;
      assert after == before + (if Trimmed(env, m) then [m.chunk] else []);
      forall c
        ensures c in after <==> TrimmedIn(env, chunks, c)
      {
        if TrimmedIn(env, chunks, c) {
          var j :| 0 <= j < |chunks| && chunks[j].chunk == c && Trimmed(env, chunks[j]);
          if j < n {
            assert front[j] == chunks[j];
            assert TrimmedIn(env, front, c);
          }
        }
        if TrimmedIn(env, front, c) {
          var j :| 0 <= j < n && front[j].chunk == c && Trimmed(env, front[j]);
          assert front[j] == chunks[j];
        }
      }
    }
  }

  /** xrayed_list names exactly the chunks xrayed. */
  lemma {:induction false} XrayedListExact(env: DiskEnv, chunks: seq<Modified>)
    ensures forall c :: c in DiskDeltas(env, chunks).xrayed <==> XrayedIn(env, chunks, c)
    decreases |chunks|
  {
    if chunks != [] {
      var n := |chunks| - 1;
      var front := chunks[..n];
      var m := chunks[n];
      XrayedListExact(env, front);
      var after := DiskDeltas(env, chunks).xrayed;
      var before := DiskDeltas(env, front).xrayed;
      assert after == before + (if Xrayed(env, m) then [m.chunk] else []);
      forall c
        ensures c in after <==> XrayedIn(env, chunks, c)
      {
        if XrayedIn(env, chunks, c) {
          var j :| 0 <= j < |chunks| && chunks[j].chunk == c && Xrayed(env, chunks[j]);
          if j < n {
            assert front[j] == chunks[j];
            assert XrayedIn(env, front, c);
          }
        }
        if XrayedIn(env, front, c) {
          var j :| 0 <= j < n && front[j].chunk == c && Xrayed(env, front[j]);
          assert front[j] == chunks[j];
        }
      }
    }
  }

  /**
   * Recovery gives the chunk back: its item, recovered against the same base disk with an
   * xdelta decoder that undoes the encoder on this chunk, is the RAW item holding the
   * chunk's bytes.
   */
  lemma DiskItemRecovers(env: DiskEnv, chunk: nat, ctx: DeltaRecover.Context, merge: DeltaRecover.Merge)
    requires ctx.rawDisk == env.base
    requires var source := Source(env, chunk);
             merge(source, Patch(env, chunk), |source| * 5) == ChunkData(env, chunk)
    ensures var item := DiskItem(env, chunk);
            DeltaRecover.RecoverItem(ctx, merge, item) == Success(item.(refId := REF_RAW, data := Bytes(ChunkData(env, chunk))))
  {
    var item := DiskItem(env, chunk);
    if item.refId == REF_XDELTA {
      assert PySlice(ctx.rawDisk, item.offset, item.offset + item.offsetLen) == Source(env, chunk);
    }
  }
}
