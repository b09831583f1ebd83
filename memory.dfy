/**
 * The memory half of the base/overlay machinery (elijah/provisioning/Memory.py): the
 * SeekablePipe that turns the queue of snapshot messages into a seekable stream, the
 * page chunking and the per-page rule of Memory._get_mem_hash, the on-disk hash list
 * ("!qI32s" records) and the RAM header walk of Memory._seek_to_end_of_ram.
 */
module Memory {
  import opened Wrappers
  import opened Bytes
  import opened DeltaItems
  import DeltaRecover

  const RAM_PAGE_SIZE: nat := 4096
  const RAM_SAVE_FLAG_MEM_SIZE: nat := 0x04
  /** One hash-list record: 8-byte start, 4-byte length, 32-byte hash. */
  const RECORD_SIZE: nat := 44

  /** The concatenation of a list of byte strings (`"".join`). */
  function Flatten<T>(ss: seq<seq<T>>): seq<T>
  {
    if ss == [] then [] else Flatten(ss[..|ss| - 1]) + ss[|ss| - 1]
  }

  lemma FlattenSnoc<T>(ss: seq<seq<T>>, s: seq<T>)
    ensures Flatten(ss + [s]) == Flatten(ss) + s
  {
    assert (ss + [s])[..|ss|] == ss;
  }

  lemma {:induction false} FlattenCons<T>(s: seq<T>, ss: seq<seq<T>>)
    ensures Flatten([s] + ss) == s + Flatten(ss)
    decreases |ss|
  {
    if ss == [] {
      assert [s] + ss == [] + [s];
      FlattenSnoc([], s);
    } else {
      var init := ss[..|ss| - 1];
      assert [s] + ss == ([s] + init) + [ss[|ss| - 1]];
      FlattenSnoc([s] + init, ss[|ss| - 1]);
      FlattenCons(s, init);
      assert ss == init + [ss[|ss| - 1]];
      FlattenSnoc(init, ss[|ss| - 1]);
    }
  }

  lemma AppendAssoc<T>(a: seq<T>, b: seq<T>, c: seq<T>)
    ensures (a + b) + c == a + (b + c)
  {
  }

  lemma FlattenHeadTail<T>(ss: seq<seq<T>>)
    requires ss != []
    ensures Flatten(ss) == ss[0] + Flatten(ss[1..])
  {
    assert ss == [ss[0]] + ss[1..];
    FlattenCons(ss[0], ss[1..]);
  }

  // ---------------------------------------------------------------- chunks

  /** chunks(l, n): l cut into consecutive pieces of n elements, the last one possibly shorter. */
  function Chunks<T>(l: seq<T>, n: nat): (r: seq<seq<T>>)
    requires n > 0
    decreases |l|
  {
    if |l| == 0 then [] else if |l| <= n then [l] else [l[..n]] + Chunks(l[n..], n)
  }

  /** The pieces put back together give the list. */
  lemma {:induction false} ChunksFlatten<T>(l: seq<T>, n: nat)
    requires n > 0
    ensures Flatten(Chunks(l, n)) == l
    decreases |l|
  {
    if |l| == 0 {
    } else if |l| <= n {
      FlattenCons(l, []);
    } else {
      ChunksFlatten(l[n..], n);
      FlattenCons(l[..n], Chunks(l[n..], n));
      assert l[..n] + l[n..] == l;
    }
  }

  /** Every piece has n elements except the last, which has between 1 and n. */
  lemma {:induction false} ChunksShape<T>(l: seq<T>, n: nat)
    requires n > 0
    ensures var c := Chunks(l, n);
            (l == [] <==> c == []) &&
            (forall i :: 0 <= i < |c| - 1 ==> |c[i]| == n) &&
            (c != [] ==> 0 < |c[|c| - 1]| <= n)
    decreases |l|
  {
    if |l| > n {
      ChunksShape(l[n..], n);
      var c := Chunks(l, n);
      var rest := Chunks(l[n..], n);
      assert c == [l[..n]] + rest;
      forall i | 0 <= i < |c| - 1
        ensures |c[i]| == n
      {
        if i > 0 {
          assert c[i] == rest[i - 1];
        }
      }
    }
  }

  // ---------------------------------------------------------------- SeekablePipe

  /**
   * What the pulling loop of seek/read does with the queue: how many data messages it
   * appends to the buffer, whether it stopped at the success marker, and whether it ran
   * out of queued messages (where get() would wait for ever).
   */
  datatype Pull = Pull(count: nat, ended: bool, blocked: bool)

  /** Pull messages into a buffer of `size` bytes while it holds fewer than `target`. */
  function Fill(size: int, queue: seq<seq<byte>>, target: int, marker: seq<byte>): (r: Pull)
    ensures r.count <= |queue|
    ensures r.ended ==> r.count < |queue| && queue[r.count] == marker && !r.blocked
    ensures r.blocked ==> r.count == |queue|
    decreases |queue|
  {
    if target <= size then Pull(0, false, false)
    else if queue == [] then Pull(0, false, true)
    else if queue[0] == marker then Pull(0, true, false)
    else
      var p := Fill(size + |queue[0]|, queue[1..], target, marker);
      Pull(p.count + 1, p.ended, p.blocked)
  }

  /** A fill outcome after `taken` messages already pulled. */
  function After(p: Pull, taken: nat): Pull
  {
    Pull(p.count + taken, p.ended, p.blocked)
  }

  /** Pulling one ordinary message: the rest of the fill starts from the larger buffer, one message later. */
  lemma FillNext(f0: Pull, size: int, queue: seq<seq<byte>>, target: int, marker: seq<byte>, count: nat)
    requires target > size && queue != [] && queue[0] != marker
    requires f0 == After(Fill(size, queue, target, marker), count)
    ensures f0 == After(Fill(size + |queue[0]|, queue[1..], target, marker), count + 1)
  {
  }

  /** The fill stops at once on an empty queue or at the marker. */
  lemma FillStops(size: int, queue: seq<seq<byte>>, target: int, marker: seq<byte>)
    requires target > size
    ensures queue == [] ==> Fill(size, queue, target, marker) == Pull(0, false, true)
    ensures queue != [] && queue[0] == marker ==> Fill(size, queue, target, marker) == Pull(0, true, false)
  {
  }

  /** Taking message `count` of the queue onto a buffer and a record that hold the ones before it. */
  lemma TakeNext(b0: seq<byte>, t0: seq<seq<byte>>, queue: seq<seq<byte>>, count: nat)
    requires count < |queue|
    ensures queue[count..][0] == queue[count] && queue[count..][1..] == queue[count + 1..]
    ensures (b0 + Flatten(queue[..count])) + queue[count] == b0 + Flatten(queue[..count + 1])
    ensures (t0 + queue[..count]) + [queue[count]] == t0 + queue[..count + 1]
  {
    assert queue[..count + 1] == queue[..count] + [queue[count]];
    FlattenSnoc(queue[..count], queue[count]);
  }

  /** The loop stops only once the target is reached, unless the marker or an empty queue stops it first. */
  lemma {:induction false} FillReachesTarget(size: int, queue: seq<seq<byte>>, target: int, marker: seq<byte>)
    ensures var f := Fill(size, queue, target, marker);
            !f.ended && !f.blocked ==> size + |Flatten(queue[..f.count])| >= target
    decreases |queue|
  {
    var f := Fill(size, queue, target, marker);
    if target > size && queue != [] && queue[0] != marker {
      FillReachesTarget(size + |queue[0]|, queue[1..], target, marker);
      var p := Fill(size + |queue[0]|, queue[1..], target, marker);
      assert queue[..f.count] == [queue[0]] + queue[1..][..p.count];
      FlattenCons(queue[0], queue[1..][..p.count]);
    }
  }

  /** Each message taken was needed: the buffer was still short of the target, and it was not the marker. */
  lemma {:induction false} FillTakesOnlyWhatIsNeeded(size: int, queue: seq<seq<byte>>, target: int, marker: seq<byte>)
    ensures var f := Fill(size, queue, target, marker);
            forall k :: 0 <= k < f.count ==> queue[k] != marker && size + |Flatten(queue[..k])| < target
    decreases |queue|
  {
    var f := Fill(size, queue, target, marker);
    if target > size && queue != [] && queue[0] != marker {
      FillTakesOnlyWhatIsNeeded(size + |queue[0]|, queue[1..], target, marker);
      var p := Fill(size + |queue[0]|, queue[1..], target, marker);
      forall k | 0 <= k < f.count
        ensures queue[k] != marker && size + |Flatten(queue[..k])| < target
      {
        if k > 0 {
          assert queue[..k] == [queue[0]] + queue[1..][..k - 1];
          FlattenCons(queue[0], queue[1..][..k - 1]);
          assert queue[1..][k - 1] == queue[k];
        } else {
          assert queue[..k] == [];
        }
      }
    }
  }

  /**
   * SeekablePipe: a read-only stream over the messages of a queue. `pending` holds the
   * messages the producer will still put on the queue, in order.
   */
  class SeekablePipe {
    var pending: seq<seq<byte>>
    var dataBuffer: seq<byte>
    var currentDataSize: nat
    /** An int: seek accepts a negative offset, and read then slices from the end of the buffer. */
    var currentSeekOffset: int
    var closed: bool
    /** Const.QUEUE_SUCCESS_MESSAGE, the message that ends the stream. */
    const marker: seq<byte>
    /** The data messages taken from the queue so far, in order. */
    ghost var taken: seq<seq<byte>>

    /** The buffer is the messages taken, in order, and its size is tracked. */
    ghost predicate Valid()
      reads this
    {
      currentDataSize == |dataBuffer| && dataBuffer == Flatten(taken)
    }

    constructor(queue: seq<seq<byte>>, successMarker: seq<byte>)
      ensures Valid()
      ensures pending == queue && marker == successMarker
      ensures dataBuffer == [] && taken == [] && currentSeekOffset == 0 && !closed
    {
      taken := [];
      pending := queue;
      marker := successMarker;
      dataBuffer := [];
      currentDataSize := 0;
      currentSeekOffset := 0;
      closed := false;
    }

    /** tell() */
    function Tell(): int
      reads this
    {
      currentSeekOffset
    }

    /** data_buffer += data; current_data_size += len(data) */
    method Append(data: seq<byte>)
      requires Valid()
      modifies this
      ensures Valid()
      ensures dataBuffer == old(dataBuffer) + data && taken == old(taken) + [data]
      ensures currentDataSize == old(currentDataSize) + |data|
      ensures pending == old(pending) && closed == old(closed) && currentSeekOffset == old(currentSeekOffset)
    {
      FlattenSnoc(taken, data);
      dataBuffer := dataBuffer + data;
      currentDataSize := currentDataSize + |data|;
      taken := taken + [data];
    }

    /**
     * The loop shared by seek and read: append queued messages while the buffer is
     * shorter than target; returns whether the marker stopped it.
     */
    method PullUntil(target: int) returns (ended: bool, blocked: bool)
      requires Valid()
      modifies this
      ensures Valid()
      ensures var f := Fill(old(currentDataSize), old(pending), target, marker);
              && ended == f.ended && blocked == f.blocked
              && dataBuffer == old(dataBuffer) + Flatten(old(pending)[..f.count])
              && taken == old(taken) + old(pending)[..f.count]
              && pending == old(pending)[f.count + (if f.ended then 1 else 0)..]
      ensures closed == old(closed) && currentSeekOffset == old(currentSeekOffset)
    {
      ghost var f0 := Fill(currentDataSize, pending, target, marker);
      ghost var q0, b0, t0 := pending, dataBuffer, taken;
      ghost var count: nat := 0;
      ended, blocked := false, false;
      while target > currentDataSize
        invariant Valid()
        invariant !ended && !blocked
        invariant count <= |q0| && pending == q0[count..]
        invariant dataBuffer == b0 + Flatten(q0[..count])
        invariant taken == t0 + q0[..count]
        invariant f0 == After(Fill(currentDataSize, pending, target, marker), count)
        invariant closed == old(closed) && currentSeekOffset == old(currentSeekOffset)
        decreases |pending|
      {
        ended, blocked := PullStep(target, f0, q0, b0, t0, count);
        if blocked || ended {
          break;
        }
        count := count + 1;
      }
    }

    /** PullOne inside the loop of PullUntil, with its effect stated against the fill the loop follows. */
    method PullStep(target: int, ghost f0: Pull, ghost q0: seq<seq<byte>>, ghost b0: seq<byte>, ghost t0: seq<seq<byte>>, ghost count: nat)
      returns (ended: bool, blocked: bool)
      requires Valid() && target > currentDataSize
      requires count <= |q0| && pending == q0[count..]
      requires dataBuffer == b0 + Flatten(q0[..count]) && taken == t0 + q0[..count]
      requires f0 == After(Fill(currentDataSize, pending, target, marker), count)
      modifies this
      ensures Valid() && closed == old(closed) && currentSeekOffset == old(currentSeekOffset)
      ensures ended || blocked ==> ended == f0.ended && blocked == f0.blocked && f0.count == count
      ensures ended || blocked ==> pending == q0[f0.count + (if ended then 1 else 0)..]
      ensures ended || blocked ==> dataBuffer == b0 + Flatten(q0[..f0.count]) && taken == t0 + q0[..f0.count]
      ensures !ended && !blocked ==> count + 1 <= |q0| && pending == q0[count + 1..]
      ensures !ended && !blocked ==> dataBuffer == b0 + Flatten(q0[..count + 1]) && taken == t0 + q0[..count + 1]
      ensures !ended && !blocked ==> f0 == After(Fill(currentDataSize, pending, target, marker), count + 1)
      ensures |pending| <= |old(pending)|
    {
      if pending != [] && pending[0] != marker {
        FillNext(f0, currentDataSize, pending, target, marker, count);
        TakeNext(b0, t0, q0, count);
      }
      FillStops(currentDataSize, pending, target, marker);
      ended, blocked := PullOne();
    }

    /** One pass of the loop: take the next message; the marker ends the stream, anything else is appended. */
    method PullOne() returns (ended: bool, blocked: bool)
      requires Valid()
      modifies this
      ensures Valid()
      ensures blocked == (old(pending) == []) && ended == (old(pending) != [] && old(pending)[0] == marker)
      ensures pending == if blocked then old(pending) else old(pending)[1..]
      ensures blocked || ended ==> dataBuffer == old(dataBuffer) && taken == old(taken) && currentDataSize == old(currentDataSize)
      ensures !blocked && !ended ==> dataBuffer == old(dataBuffer) + old(pending)[0] && taken == old(taken) + [old(pending)[0]]
      ensures !blocked && !ended ==> currentDataSize == old(currentDataSize) + |old(pending)[0]|
      ensures closed == old(closed) && currentSeekOffset == old(currentSeekOffset)
    {
      ended, blocked := false, false;
      if pending == [] {
        blocked := true;
        return;
      }
      var data := pending[0];
      pending := pending[1..];
      if data == marker {
        ended := true;
        return;
      }
      Append(data);
    }

    /** seek(abs_offset): pull until the buffer reaches abs_offset or the marker arrives, then move there. */
    method Seek(absOffset: int) returns (blocked: bool)
      requires Valid()
      modifies this
      ensures Valid()
      ensures var f := Fill(old(currentDataSize), old(pending), absOffset, marker);
              && blocked == f.blocked
              && dataBuffer == old(dataBuffer) + Flatten(old(pending)[..f.count])
              && taken == old(taken) + old(pending)[..f.count]
              && pending == old(pending)[f.count + (if f.ended then 1 else 0)..]
              && closed == (old(closed) || f.ended)
              && currentSeekOffset == (if f.blocked then old(currentSeekOffset) else absOffset)
    {
      var ended;
      ended, blocked := PullUntil(absOffset);
      if blocked {
        return;
      }
      if ended {
        closed := true;
      }
      currentSeekOffset := absOffset;
    }

    /**
     * read(read_size): pull until the buffer covers read_size bytes past the offset,
     * return the bytes between the offset and the end of what is buffered, and move past
     * them. The marker does not set `closed` here: line 551 compares instead of assigning.
     */
    method Read(readSize: int) returns (ret: seq<byte>, blocked: bool)
      requires Valid()
      modifies this
      ensures Valid()
      ensures var target := old(currentSeekOffset) + readSize;
              var f := Fill(old(currentDataSize), old(pending), target, marker);
              && blocked == f.blocked
              && dataBuffer == old(dataBuffer) + Flatten(old(pending)[..f.count])
              && taken == old(taken) + old(pending)[..f.count]
              && pending == old(pending)[f.count + (if f.ended then 1 else 0)..]
              && closed == old(closed)
              && ret == (if f.blocked then [] else PySlice(dataBuffer, old(currentSeekOffset), Min(currentDataSize, target)))
              && currentSeekOffset == old(currentSeekOffset) + |ret|
      ensures readSize >= 0 ==> |ret| <= readSize
      ensures var f := Fill(old(currentDataSize), old(pending), old(currentSeekOffset) + readSize, marker);
              readSize >= 0 && !f.ended && !f.blocked && 0 <= old(currentSeekOffset) <= old(currentDataSize) ==>
                |ret| == readSize
    {
      var target := currentSeekOffset + readSize;
      ghost var size0 := currentDataSize;
      ghost var queue0 := pending;
      var ended;
      ended, blocked := PullUntil(target);
      if blocked {
        ret := [];
        return;
      }
      FillReachesTarget(size0, queue0, target, marker);
      var endOffset := Min(currentDataSize, target);
      ret := PySlice(dataBuffer, currentSeekOffset, endOffset);
      currentSeekOffset := currentSeekOffset + |ret|;
    }
  }

  function Min(a: int, b: int): int
  {
    if a <= b then a else b
  }

  // ---------------------------------------------------------------- hash list file

  const STRUCT_ERROR := "struct.error: unpack requires a string argument of the format's length"

  /** struct.pack("!qI32s", start, length, hash): raises when start or length do not fit their fields. */
  function PackRecord(e: HashEntry): (r: Result<seq<byte>, string>)
    ensures r.Success? <==> InI64(e.start) && 0 <= e.length < U32_LIMIT
    ensures r.Success? ==> |r.value| == RECORD_SIZE
  {
    if !InI64(e.start) || !(0 <= e.length < U32_LIMIT) then Failure("struct.error: argument out of range")
    else
      Pow256Values();
      Success(BeEncode(I64ToU64(e.start), 8) + BeEncode(e.length, 4) + PadOrCut(e.hash, 32))
  }

  /** struct.unpack("!qI32s", data) on a record of exactly 44 bytes. */
  function UnpackRecord(b: seq<byte>): HashEntry
    requires |b| == RECORD_SIZE
  {
    Pow256Values();
    HashEntry(U64ToI64(BeDecode(b[..8])), BeDecode(b[8..12]), b[12..])
  }

  /** The entry as it reads back: its hash padded or cut to 32 bytes. */
  function Stored(e: HashEntry): HashEntry
  {
    e.(hash := PadOrCut(e.hash, 32))
  }

  /** A packed record unpacks to the entry it came from, hash padded or cut to 32 bytes. */
  lemma RecordRoundTrip(e: HashEntry)
    requires PackRecord(e).Success?
    ensures UnpackRecord(PackRecord(e).value) == Stored(e)
  {
    Pow256Values();
    var b := PackRecord(e).value;
    assert b[..8] == BeEncode(I64ToU64(e.start), 8);
    assert b[8..12] == BeEncode(e.length, 4);
    assert b[12..] == PadOrCut(e.hash, 32);
    BeRoundTrip(I64ToU64(e.start), 8);
    BeRoundTrip(e.length, 4);
  }

  /** Any 44-byte record packs back to the same bytes. */
  lemma RecordBytesRoundTrip(b: seq<byte>)
    requires |b| == RECORD_SIZE
    ensures PackRecord(UnpackRecord(b)) == Success(b)
  {
    Pow256Values();
    var e := UnpackRecord(b);
    BeEncodeDecode(b[..8]);
    BeEncodeDecode(b[8..12]);
    assert I64ToU64(e.start) == BeDecode(b[..8]);
    assert PackRecord(e).value == b[..8] + b[8..12] + b[12..];
    assert b == b[..8] + b[8..12] + b[12..];
  }

  lemma {:induction false} BeEncodeDecode(s: seq<byte>)
    ensures BeEncode(BeDecode(s), |s|) == s
  {
    if s != [] {
      var init := s[..|s| - 1];
      BeEncodeDecode(init);
      assert (BeDecode(init) * 256 + s[|s| - 1]) / 256 == BeDecode(init);
      assert s == init + [s[|s| - 1]];
    }
  }

  /** export_to_file: the records of the list, one after the other; the first unpackable entry raises. */
  function ExportHashList(list: seq<HashEntry>): (r: Result<seq<byte>, string>)
    ensures r.Success? ==> |r.value| == RECORD_SIZE * |list|
    ensures r.Success? <==> forall i :: 0 <= i < |list| ==> PackRecord(list[i]).Success?
  {
    if list == [] then Success([])
    else
      var head :- PackRecord(list[0]);
      var rest :- ExportHashList(list[1..]);
      assert forall i :: 1 <= i < |list| ==> list[i] == list[1..][i - 1];
      Success(head + rest)
  }

  /** import_hashlist: 44-byte records until the file ends; a shorter tail raises struct.error. */
  function ImportHashList(b: seq<byte>): (r: Result<seq<HashEntry>, string>)
    ensures r.Success? <==> |b| % RECORD_SIZE == 0
    ensures r.Success? ==> |r.value| == |b| / RECORD_SIZE
    decreases |b|
  {
    if b == [] then Success([])
    else if |b| < RECORD_SIZE then Failure(STRUCT_ERROR)
    else
      var rest :- ImportHashList(b[RECORD_SIZE..]);
      Success([UnpackRecord(b[..RECORD_SIZE])] + rest)
  }

  /** Reading back an exported list gives the list, every hash padded or cut to 32 bytes. */
  lemma {:induction false} HashListRoundTrip(list: seq<HashEntry>)
    requires ExportHashList(list).Success?
    ensures ImportHashList(ExportHashList(list).value) == Success(seq(|list|, i requires 0 <= i < |list| => Stored(list[i])))
  {
    var want := seq(|list|, i requires 0 <= i < |list| => Stored(list[i]));
    if list != [] {
      var b := ExportHashList(list).value;
      var head := PackRecord(list[0]).value;
      var rest := ExportHashList(list[1..]).value;
      assert b == head + rest;
      assert b[..RECORD_SIZE] == head && b[RECORD_SIZE..] == rest;
      RecordRoundTrip(list[0]);
      HashListRoundTrip(list[1..]);
      assert want == [Stored(list[0])] + seq(|list| - 1, i requires 0 <= i < |list| - 1 => Stored(list[1..][i]));
    }
  }

  /** What a loop that has already produced `done` ends with, given the outcome of the rest. */
  function Prepend<T>(done: seq<T>, rest: Result<seq<T>, string>): Result<seq<T>, string>
  {
    if rest.Success? then Success(done + rest.value) else rest
  }

  lemma PrependNothing<T>(rest: Result<seq<T>, string>)
    ensures Prepend([], rest) == rest
  {
    if rest.Success? {
      assert [] + rest.value == rest.value;
    }
  }

  lemma PrependTwice<T>(a: seq<T>, b: seq<T>, rest: Result<seq<T>, string>)
    ensures Prepend(a, Prepend(b, rest)) == Prepend(a + b, rest)
  {
    if rest.Success? {
      assert a + (b + rest.value) == (a + b) + rest.value;
    }
  }

  /** The export loop, writing one record per entry. */
  method ExportToFile(list: seq<HashEntry>) returns (r: Result<seq<byte>, string>)
    ensures r == ExportHashList(list)
  {
    var written: seq<byte> := [];
    var i := 0;
    PrependNothing(ExportHashList(list));
    while i < |list|
      invariant 0 <= i <= |list|
      invariant ExportHashList(list) == Prepend(written, ExportHashList(list[i..]))
    {
      ExportStep(list, i);
      var row := PackRecord(list[i]);
      if row.Failure? {
        return Failure(row.error);
      }
      PrependTwice(written, row.value, ExportHashList(list[i + 1..]));
      written := written + row.value;
      i := i + 1;
    }
    assert list[i..] == [] && written + [] == written;
    return Success(written);
  }

  lemma ExportStep(list: seq<HashEntry>, i: nat)
    requires i < |list|
    ensures ExportHashList(list[i..]) ==
              (var h := PackRecord(list[i]); var t := ExportHashList(list[i + 1..]);
               if h.Failure? then Failure(h.error) else if t.Failure? then t else Success(h.value + t.value))
  {
    assert list[i..][0] == list[i] && list[i..][1..] == list[i + 1..];
  }

  /** The import loop: read 44 bytes at a time until nothing is left. */
  method ImportFromFile(b: seq<byte>) returns (r: Result<seq<HashEntry>, string>)
    ensures r == ImportHashList(b)
  {
    var list: seq<HashEntry> := [];
    var pos := 0;
    PrependNothing(ImportHashList(b));
    while true
      invariant 0 <= pos <= |b|
      invariant ImportHashList(b) == Prepend(list, ImportHashList(b[pos..]))
      decreases |b| - pos
    {
      var data := Read(b[pos..], RECORD_SIZE).0;
      if data == [] {
        assert b[pos..] == [] && list + [] == list;
        return Success(list);
      }
      if |data| != RECORD_SIZE {
        return Failure(STRUCT_ERROR);
      }
      assert b[pos..][RECORD_SIZE..] == b[pos + RECORD_SIZE..];
      PrependTwice(list, [UnpackRecord(data)], ImportHashList(b[pos + RECORD_SIZE..]));
      list := list + [UnpackRecord(data)];
      pos := pos + RECORD_SIZE;
    }
  }

  // ---------------------------------------------------------------- _get_mem_hash

  /**
   * What the page loop reads besides the stream: the base hash list, the base memory
   * image, the free page numbers (free_pfn_dict), apply_free_memory, and the sha256 and
   * xdelta functions.
   */
  datatype PageEnv = PageEnv(hashList: seq<HashEntry>, raw: seq<byte>, freePfn: Option<map<int, int>>,
                             applyFree: bool, sha: seq<byte> -> seq<byte>, diff: DeltaRecover.Diff)

  /** The base hash of the page at ram_offset, if the hash list reaches that far. */
  function BaseHash(hashList: seq<HashEntry>, ramOffset: nat): Option<seq<byte>>
  {
    var idx := ramOffset / RAM_PAGE_SIZE;
    if idx < |hashList| then Some(hashList[idx].hash) else None
  }

  /** free_pfn_dict.get(idx) == 1 for the page's frame number. */
  predicate IsFreePage(freePfn: Option<map<int, int>>, ramOffset: nat)
  {
    var idx := ramOffset / RAM_PAGE_SIZE;
    freePfn.Some? && idx in freePfn.value && freePfn.value[idx] == 1
  }

  /**
   * get_raw_data(offset, length): the base bytes under a page, but only when they end
   * strictly before the end of the image, so the last page of the image never has one.
   */
  function GetRawData(raw: seq<byte>, offset: nat, length: nat): (r: Option<seq<byte>>)
    ensures r.Some? <==> offset + length < |raw|
    ensures r.Some? ==> r.value == raw[offset..offset + length]
  {
    if offset + length < |raw| then Some(raw[offset..offset + length]) else None
  }

  /** What the loop does with one page. */
  datatype Page = Unchanged | Freed | Emit(item: DeltaItem)

  /**
   * One page at ram_offset: skipped when its hash is the base hash at that index,
   * counted as freed when it is a free page and free memory is applied, and otherwise
   * put out as an xdelta patch against the base bytes when that is shorter, else raw.
   */
  function PageRule(env: PageEnv, ramOffset: nat, data: seq<byte>): (r: Page)
    ensures r.Unchanged? <==> BaseHash(env.hashList, ramOffset) == Some(env.sha(data))
    ensures r.Freed? <==> !r.Unchanged? && IsFreePage(env.freePfn, ramOffset) && env.applyFree
    ensures r.Emit? ==>
              && r.item.deltaType == DELTA_MEMORY && r.item.offset == ramOffset && r.item.offsetLen == |data|
              && r.item.hash == Some(env.sha(data)) && r.item.refId in {REF_RAW, REF_XDELTA}
              && r.item.data.Bytes? && r.item.dataLen == |r.item.data.b| <= |data|
    ensures r.Emit? && r.item.refId == REF_RAW ==> r.item.data == Bytes(data)
    ensures r.Emit? && r.item.refId == REF_XDELTA ==> GetRawData(env.raw, ramOffset, |data|).Some?
  {
    if BaseHash(env.hashList, ramOffset) == Some(env.sha(data)) then Unchanged
    else if IsFreePage(env.freePfn, ramOffset) && env.applyFree then Freed
    else
      var rawItem := DeltaItem(DELTA_MEMORY, ramOffset, |data|, Some(env.sha(data)), REF_RAW, |data|, Bytes(data));
      var source := GetRawData(env.raw, ramOffset, |data|);
      if source.None? then Emit(rawItem)
      else
        var patch := env.diff(source.value, data, 2 * |source.value|);
        if |patch| < |data| then
          Emit(DeltaItem(DELTA_MEMORY, ramOffset, |data|, Some(env.sha(data)), REF_XDELTA, |patch|, Bytes(patch)))
        else Emit(rawItem)
  }

  /**
   * Recovery gives the page back: an emitted item, recovered against the same base
   * memory with an xdelta decoder that undoes the encoder on this page, is the RAW item
   * holding the page's bytes.
   */
  lemma PageRecovers(env: PageEnv, ramOffset: nat, data: seq<byte>, ctx: DeltaRecover.Context, merge: DeltaRecover.Merge)
    requires PageRule(env, ramOffset, data).Emit?
    requires ctx.rawMem == env.raw
    requires var src := GetRawData(env.raw, ramOffset, |data|);
             src.Some? ==> merge(src.value, env.diff(src.value, data, 2 * |src.value|), |src.value| * 5) == data
    ensures var item := PageRule(env, ramOffset, data).item;
            DeltaRecover.RecoverItem(ctx, merge, item) == Success(item.(refId := REF_RAW, data := Bytes(data)))
  {
    var item := PageRule(env, ramOffset, data).item;
    if item.refId == REF_XDELTA {
      var src := GetRawData(env.raw, ramOffset, |data|).value;
      assert PySlice(ctx.rawMem, item.offset, item.offset + item.offsetLen) == src;
    }
  }

  /** A base page whose hash is in the list at its own index is never put out. */
  lemma UnchangedPageSkipped(env: PageEnv, idx: nat, data: seq<byte>)
    requires idx < |env.hashList| && env.hashList[idx].hash == env.sha(data)
    ensures PageRule(env, idx * RAM_PAGE_SIZE, data).Unchanged?
  {
    assert (idx * RAM_PAGE_SIZE) / RAM_PAGE_SIZE == idx;
  }

  /** A piece of the page list completed by a queue message, followed by the rest of the message in pages. */
  function Refill(last: seq<byte>, msg: seq<byte>): (r: seq<seq<byte>>)
    ensures r != []
  {
    var required := RAM_PAGE_SIZE - |last|;
    [last + PySlice(msg, 0, required)] + Chunks(PySlice(msg, required, |msg|), RAM_PAGE_SIZE)
  }

  /** Re-chunking loses nothing, and pieces stay within a page. */
  lemma RefillFlatten(last: seq<byte>, msg: seq<byte>)
    requires |last| <= RAM_PAGE_SIZE
    ensures Flatten(Refill(last, msg)) == last + msg
    ensures forall i :: 0 <= i < |Refill(last, msg)| ==> |Refill(last, msg)[i]| <= RAM_PAGE_SIZE
  {
    var required := RAM_PAGE_SIZE - |last|;
    var cut := if required <= |msg| then required else |msg|;
    assert PySlice(msg, 0, required) == msg[..cut];
    assert PySlice(msg, required, |msg|) == msg[cut..];
    var tail := Chunks(msg[cut..], RAM_PAGE_SIZE);
    ChunksFlatten(msg[cut..], RAM_PAGE_SIZE);
    ChunksShape(msg[cut..], RAM_PAGE_SIZE);
    FlattenCons(last + msg[..cut], tail);
    assert msg[..cut] + msg[cut..] == msg;
    var r := Refill(last, msg);
    forall i | 0 <= i < |r|
      ensures |r[i]| <= RAM_PAGE_SIZE
    {
      if i > 0 {
        assert r[i] == tail[i - 1];
      }
    }
  }

  /**
   * How the loop cuts the stream into pages: the pages it processes, how many data
   * messages it took from the queue, whether it stopped at the success marker, and
   * whether it waited on an empty queue.
   */
  datatype Split = Split(pages: seq<seq<byte>>, used: nat, ended: bool, blocked: bool)

  /**
   * The page list and queue handling of _get_mem_hash: while the list holds fewer than
   * two pieces a message is taken; the marker ends the stream, any other message first
   * completes the last piece to a page and is then cut into pages; then one piece is
   * processed. The loop also stops as soon as the list is empty.
   */
  function PageStream(list: seq<seq<byte>>, queue: seq<seq<byte>>, marker: seq<byte>): (r: Split)
    ensures r.used <= |queue|
    decreases |queue|, |list|
  {
    if list == [] then Split([], 0, false, false)
    else if |list| == 1 && queue == [] then Split([], 0, false, true)
    else if |list| == 1 && queue[0] == marker then Split([list[0]], 0, true, false)
    else if |list| == 1 then
      var refilled := Refill(list[0], queue[0]);
      var rest := PageStream(refilled[1..], queue[1..], marker);
      Split([refilled[0]] + rest.pages, rest.used + 1, rest.ended, rest.blocked)
    else
      var rest := PageStream(list[1..], queue, marker);
      Split([list[0]] + rest.pages, rest.used, rest.ended, rest.blocked)
  }

  /** PageStream when the list holds one piece and the marker is next. */
  lemma StreamAtMarker(last: seq<byte>, queue: seq<seq<byte>>, marker: seq<byte>)
    requires queue != [] && queue[0] == marker
    ensures PageStream([last], queue, marker) == Split([last], 0, true, false)
  {
  }

  /** PageStream when the list holds one piece and a data message is next. */
  lemma StreamRefills(last: seq<byte>, queue: seq<seq<byte>>, marker: seq<byte>)
    requires queue != [] && queue[0] != marker
    ensures var refilled := Refill(last, queue[0]);
            PageStream([last], queue, marker) == Join([refilled[0]], 1, PageStream(refilled[1..], queue[1..], marker))
  {
  }

  /** PageStream when the list holds at least two pieces. */
  lemma StreamPops(list: seq<seq<byte>>, queue: seq<seq<byte>>, marker: seq<byte>)
    requires |list| >= 2
    ensures PageStream(list, queue, marker) == Join([list[0]], 0, PageStream(list[1..], queue, marker))
  {
  }

  lemma JoinTwice(a: seq<seq<byte>>, ua: nat, b: seq<seq<byte>>, ub: nat, s: Split)
    ensures Join(a, ua, Join(b, ub, s)) == Join(a + b, ua + ub, s)
  {
    assert a + (b + s.pages) == (a + b) + s.pages;
  }

  /** The marker, when it ends the stream, is the message after the data messages taken. */
  lemma {:induction false} PageStreamEnds(list: seq<seq<byte>>, queue: seq<seq<byte>>, marker: seq<byte>)
    ensures var s := PageStream(list, queue, marker);
            && (forall k :: 0 <= k < s.used ==> queue[k] != marker)
            && (s.ended ==> s.used < |queue| && queue[s.used] == marker)
    decreases |queue|, |list|
  {
    var s := PageStream(list, queue, marker);
    if list == [] || (|list| == 1 && queue == []) {
    } else if |list| == 1 && queue[0] == marker {
      StreamAtMarker(list[0], queue, marker);
    } else if |list| == 1 {
      var refilled := Refill(list[0], queue[0]);
      StreamRefills(list[0], queue, marker);
      PageStreamEnds(refilled[1..], queue[1..], marker);
      forall k | 0 <= k < s.used
        ensures queue[k] != marker
      {
        if k > 0 {
          assert queue[k] == queue[1..][k - 1];
        }
      }
    } else {
      StreamPops(list, queue, marker);
      PageStreamEnds(list[1..], queue, marker);
    }
  }

  /**
   * The pages are the stream re-cut: unless the loop waits for ever, the processed
   * pages put together are the buffered bytes followed by the data messages taken.
   */
  lemma {:induction false} PageStreamCovers(list: seq<seq<byte>>, queue: seq<seq<byte>>, marker: seq<byte>)
    requires forall i :: 0 <= i < |list| ==> |list[i]| <= RAM_PAGE_SIZE
    ensures var s := PageStream(list, queue, marker);
            !s.blocked ==> Flatten(s.pages) == Flatten(list) + Flatten(queue[..s.used])
    decreases |queue|, |list|
  {
    if list == [] || (|list| == 1 && queue == []) {
    } else if |list| == 1 && queue[0] == marker {
      StreamAtMarker(list[0], queue, marker);
      FlattenCons(list[0], []);
      assert list == [list[0]] + [] && queue[..0] == [];
    } else if |list| == 1 {
      assert list == [list[0]];
      RefillCovers(list[0], queue, marker);
    } else {
      StreamPops(list, queue, marker);
      var rest := PageStream(list[1..], queue, marker);
      PageStreamCovers(list[1..], queue, marker);
      assert list == [list[0]] + list[1..];
      FlattenCons(list[0], list[1..]);
      FlattenCons(list[0], rest.pages);
      assert [list[0]] + rest.pages == PageStream(list, queue, marker).pages;
    }
  }

  lemma {:induction false} RefillCovers(last: seq<byte>, queue: seq<seq<byte>>, marker: seq<byte>)
    requires |last| <= RAM_PAGE_SIZE && queue != [] && queue[0] != marker
    ensures var s := PageStream([last], queue, marker);
            !s.blocked ==> Flatten(s.pages) == last + Flatten(queue[..s.used])
    decreases |queue|, 0
  {
    var refilled := Refill(last, queue[0]);
    StreamRefills(last, queue, marker);
    RefillFlatten(last, queue[0]);
    var rest := PageStream(refilled[1..], queue[1..], marker);
    PageStreamCovers(refilled[1..], queue[1..], marker);
    var s := PageStream([last], queue, marker);
    assert s.pages == [refilled[0]] + rest.pages && s.used == rest.used + 1 && s.blocked == rest.blocked;
    if !s.blocked {
      var taken := queue[1..][..rest.used];
      FlattenHeadTail(refilled);
      var used := queue[..rest.used + 1];
      assert used[0] == queue[0] && used[1..] == taken;
      FlattenHeadTail(used);
      FlattenCons(refilled[0], rest.pages);
      calc {
        Flatten(s.pages);
        refilled[0] + Flatten(rest.pages);
        refilled[0] + (Flatten(refilled[1..]) + Flatten(taken));
        { AppendAssoc(refilled[0], Flatten(refilled[1..]), Flatten(taken)); }
        (refilled[0] + Flatten(refilled[1..])) + Flatten(taken);
        (last + queue[0]) + Flatten(taken);
        { AppendAssoc(last, queue[0], Flatten(taken)); }
        last + (queue[0] + Flatten(taken));
        last + Flatten(queue[..s.used]);
      }
    }
  }

  /**
   * A message that does not reach past the partial page at the end of the list only
   * completes that piece; the list is then empty and the loop ends there, without
   * reaching the marker, whatever the queue still holds.
   */
  lemma ShortMessageEndsScan(last: seq<byte>, msg: seq<byte>, later: seq<seq<byte>>, marker: seq<byte>)
    requires 0 < |last| && |last| + |msg| <= RAM_PAGE_SIZE && msg != marker
    ensures PageStream([last], [msg] + later, marker) == Split([last + msg], 1, false, false)
  {
    assert PySlice(msg, 0, RAM_PAGE_SIZE - |last|) == msg;
    assert PySlice(msg, RAM_PAGE_SIZE - |last|, |msg|) == [];
    assert Refill(last, msg) == [last + msg];
    assert ([msg] + later)[1..] == later;
  }

  /** An item on the delta list queue, or the success message that ends it. */
  datatype QueueMsg = Item(item: DeltaItem) | Done

  /** The items the page rule puts out for a list of pages laid end to end from offset 0. */
  function Emitted(env: PageEnv, pages: seq<seq<byte>>): (r: seq<QueueMsg>)
    ensures |r| <= |pages|
  {
    if pages == [] then []
    else
      var init := pages[..|pages| - 1];
      var p := PageRule(env, |Flatten(init)|, pages[|pages| - 1]);
      Emitted(env, init) + (if p.Emit? then [Item(p.item)] else [])
  }

  /** The pages the page rule counts as freed. */
  function FreedCount(env: PageEnv, pages: seq<seq<byte>>): (r: nat)
    ensures r <= |pages|
  {
    if pages == [] then 0
    else
      var init := pages[..|pages| - 1];
      FreedCount(env, init) + (if PageRule(env, |Flatten(init)|, pages[|pages| - 1]).Freed? then 1 else 0)
  }

  /** Every emitted item is a memory item for one of the pages, at that page's offset in the stream. */
  lemma {:induction false} EmittedAreChangedPages(env: PageEnv, pages: seq<seq<byte>>)
    ensures forall m :: m in Emitted(env, pages) ==> EmittedFor(env, pages, m)
  {
    if pages != [] {
      var init := pages[..|pages| - 1];
      EmittedAreChangedPages(env, init);
      forall m | m in Emitted(env, pages)
        ensures EmittedFor(env, pages, m)
      {
        if m in Emitted(env, init) {
          var j :| 0 <= j < |init| && PageRule(env, |Flatten(init[..j])|, init[j]) == Emit(m.item);
          assert init[..j] == pages[..j] && init[j] == pages[j];
        } else {
          assert pages[..|pages| - 1] == init;
        }
      }
    }
  }

  /** One more page: its item, if any, is put out last, and a freed page adds one to the count. */
  lemma PageSnoc(env: PageEnv, done: seq<seq<byte>>, data: seq<byte>)
    ensures var p := PageRule(env, |Flatten(done)|, data);
            && Emitted(env, done + [data]) == Emitted(env, done) + (if p.Emit? then [Item(p.item)] else [])
            && FreedCount(env, done + [data]) == FreedCount(env, done) + (if p.Freed? then 1 else 0)
            && |Flatten(done + [data])| == |Flatten(done)| + |data|
  {
    assert (done + [data])[..|done|] == done;
    FlattenSnoc(done, data);
  }

  ghost predicate EmittedFor(env: PageEnv, pages: seq<seq<byte>>, m: QueueMsg)
  {
    m.Item? && exists j :: 0 <= j < |pages| && PageRule(env, |Flatten(pages[..j])|, pages[j]) == Emit(m.item)
  }

  function Join(donePages: seq<seq<byte>>, doneUsed: nat, s: Split): Split
  {
    Split(donePages + s.pages, doneUsed + s.used, s.ended, s.blocked)
  }

  /**
   * The head of the loop body: take a message when the list holds fewer than two
   * pieces, then pop the next piece.
   */
  method NextPiece(list: seq<seq<byte>>, q: seq<seq<byte>>, marker: seq<byte>)
    returns (data: seq<byte>, list': seq<seq<byte>>, q': seq<seq<byte>>, end: bool, blocked: bool, took: nat)
    requires list != []
    ensures blocked ==> PageStream(list, q, marker) == Split([], 0, false, true)
    ensures !blocked && end ==> PageStream(list, q, marker) == Split([data], 0, true, false)
    ensures !blocked && !end ==> PageStream(list, q, marker) == Join([data], took, PageStream(list', q', marker))
    ensures !blocked ==> |q'| < |q| || (q' == q && |list'| < |list|)
    ensures end ==> took == 0
  {
    data, list', q', end, blocked, took := [], list, q, false, false, 0;
    if |list| < 2 {
      if q == [] {
        blocked := true;
        return;
      }
      var recved := q[0];
      q' := q[1..];
      if recved == marker {
        StreamAtMarker(list[0], q, marker);
        end := true;
      } else {
        StreamRefills(list[0], q, marker);
        var required: int := 0;
        var lastData := list[0];
        required := RAM_PAGE_SIZE - |lastData|;
        lastData := lastData + PySlice(recved, 0, required);
        list' := [lastData];
        list' := list' + Chunks(PySlice(recved, required, |recved|), RAM_PAGE_SIZE);
        took := 1;
      }
    } else {
      StreamPops(list, q, marker);
    }
    data := list'[0];
    list' := list'[1..];
  }

  /** The page rule applied to the next page: its item is put out, or the freed count goes up. */
  method ApplyPage(env: PageEnv, ghost done: seq<seq<byte>>, ramOffset: nat, data: seq<byte>, out: seq<QueueMsg>, freed: nat)
    returns (out': seq<QueueMsg>, freed': nat)
    requires ramOffset == |Flatten(done)| && out == Emitted(env, done) && freed == FreedCount(env, done)
    ensures out' == Emitted(env, done + [data]) && freed' == FreedCount(env, done + [data])
  {
    PageSnoc(env, done, data);
    var page := PageRule(env, ramOffset, data);
    out', freed' := out, freed;
    if page.Emit? {
      out' := out + [Item(page.item)];
    } else if page.Freed? {
      freed' := freed + 1;
    }
  }

  /**
   * _get_mem_hash over a stream whose buffered bytes are `buffer` and whose later
   * messages are `queue`: puts out the page rule's items and then the success message,
   * and returns the freed page count; `blocked` where the source would wait for ever.
   */
  method GetMemHash(env: PageEnv, buffer: seq<byte>, queue: seq<seq<byte>>, marker: seq<byte>)
    returns (out: seq<QueueMsg>, freed: nat, blocked: bool)
    ensures var s := PageStream(Chunks(buffer, RAM_PAGE_SIZE), queue, marker);
            && blocked == s.blocked
            && (!blocked ==> out == Emitted(env, s.pages) + [Done] && freed == FreedCount(env, s.pages))
  {
    var list := Chunks(buffer, RAM_PAGE_SIZE);
    ghost var s0 := PageStream(list, queue, marker);
    var q := queue;
    var ramOffset: nat := 0;
    var end := false;
    ghost var done: seq<seq<byte>> := [];
    ghost var used: nat := 0;
    out, freed, blocked := [], 0, false;
    assert [] + s0.pages == s0.pages;
    while !end && |list| != 0
      invariant ramOffset == |Flatten(done)|
      invariant out == Emitted(env, done) && freed == FreedCount(env, done)
      invariant !end ==> s0 == Join(done, used, PageStream(list, q, marker))
      invariant end ==> s0 == Split(done, used, true, false)
      decreases |q|, |list|
    {
      var data, took;
      ghost var before := PageStream(list, q, marker);
      data, list, q, end, blocked, took := NextPiece(list, q, marker);
      if blocked {
        return;
      }
      if end {
        assert s0 == Join(done, used, Split([data], 0, true, false));
      } else {
        JoinTwice(done, used, [data], took, PageStream(list, q, marker));
      }
      out, freed := ApplyPage(env, done, ramOffset, data, out, freed);
      FlattenSnoc(done, data);
      done := done + [data];
      used := used + took;
      ramOffset := ramOffset + |data|;
    }
    assert done + [] == done;
    out := out + [Done];
  }

  // ---------------------------------------------------------------- _seek_to_end_of_ram

  const NO_TOTAL_SIZE := "MemoryError: invalid header format: no total memory size"

  /**
   * The RAM block list after the total size: one-byte id length, id, 8-byte size,
   * read while the sizes so far are below total; the last size read for an id wins.
   */
  function RamBlocks(s: seq<byte>, total: nat, readSize: nat, info: map<seq<byte>, nat>): (r: Result<map<seq<byte>, nat>, string>)
    ensures total <= readSize ==> r == Success(info)
    decreases |s|
  {
    if total <= readSize then Success(info)
    else if |s| < 1 then Failure(STRUCT_ERROR)
    else
      var idLen := s[0] as nat;
      if |s| < 1 + idLen + 8 then Failure(STRUCT_ERROR)
      else
        var size := BeDecode(s[1 + idLen..9 + idLen]);
        RamBlocks(s[9 + idLen..], total, readSize + size, info[s[1..1 + idLen] := size])
  }

  /**
   * _seek_to_end_of_ram on the bytes from memory_start_offset: the 8-byte total must
   * carry RAM_SAVE_FLAG_MEM_SIZE; its page-aligned part bounds the block list.
   */
  function RamInfo(s: seq<byte>): (r: Result<map<seq<byte>, nat>, string>)
    ensures r.Success? ==> |s| >= 8 && (BeDecode(s[..8]) / RAM_SAVE_FLAG_MEM_SIZE) % 2 == 1
  {
    if |s| < 8 then Failure(STRUCT_ERROR)
    else
      var total := BeDecode(s[..8]);
      if (total / RAM_SAVE_FLAG_MEM_SIZE) % 2 == 0 then Failure(NO_TOTAL_SIZE)
      else RamBlocks(s[8..], PageAligned(total), 0, map[])
  }

  /** A block of the RAM header: its id string and its length. */
  datatype RamBlock = RamBlock(id: seq<byte>, length: nat)

  predicate Encodable(blocks: seq<RamBlock>)
  {
    forall i :: 0 <= i < |blocks| ==> |blocks[i].id| < 256 && blocks[i].length < U64_LIMIT
  }

  /** How qemu lays the block list out. */
  function EncodeBlocks(blocks: seq<RamBlock>): seq<byte>
    requires Encodable(blocks)
  {
    if blocks == [] then []
    else
      Pow256Values();
      [|blocks[0].id|] + blocks[0].id + BeEncode(blocks[0].length, 8) + EncodeBlocks(blocks[1..])
  }

  function SumLengths(blocks: seq<RamBlock>): nat
  {
    if blocks == [] then 0 else blocks[0].length + SumLengths(blocks[1..])
  }

  /** The dict the source builds: entries added in order, the later one winning. */
  function Record(info: map<seq<byte>, nat>, blocks: seq<RamBlock>): map<seq<byte>, nat>
    decreases |blocks|
  {
    if blocks == [] then info else Record(info[blocks[0].id := blocks[0].length], blocks[1..])
  }

  /** Cutting a concatenation where it was joined gives back its parts. */
  lemma SplitAt<T>(a: seq<T>, b: seq<T>)
    ensures (a + b)[..|a|] == a && (a + b)[|a|..] == b
  {
  }

  lemma EncodeBlocksHead(blocks: seq<RamBlock>)
    requires Encodable(blocks) && blocks != []
    ensures Encodable(blocks[1..])
    ensures Pow256(8) == U64_LIMIT
    ensures EncodeBlocks(blocks) ==
              [|blocks[0].id|] + blocks[0].id + BeEncode(blocks[0].length, 8) + EncodeBlocks(blocks[1..])
  {
    Pow256Values();
    var tail := blocks[1..];
    forall i | 0 <= i < |tail|
      ensures |tail[i].id| < 256 && tail[i].length < U64_LIMIT
    {
      assert tail[i] == blocks[i + 1];
    }
  }

  /**
   * The block walk reads back exactly the blocks whose preceding sizes are still below
   * the total, and nothing after them, whatever follows.
   */
  lemma {:induction false} RamBlocksRoundTrip(blocks: seq<RamBlock>, rest: seq<byte>, total: nat, readSize: nat, info: map<seq<byte>, nat>)
    requires Encodable(blocks)
    requires EachBelow(blocks, readSize, total) && readSize + SumLengths(blocks) >= total
    ensures RamBlocks(EncodeBlocks(blocks) + rest, total, readSize, info) == Success(Record(info, blocks))
  {
    if blocks != [] {
      var b := blocks[0];
      var tail := blocks[1..];
      assert blocks[..0] == [];
      EncodedHead(blocks, rest);
      SumsAfterHead(blocks, readSize, total);
      RamBlocksRoundTrip(tail, rest, total, readSize + b.length, info[b.id := b.length]);
      RamBlocksStep(EncodeBlocks(blocks) + rest, total, readSize, info, b.id, b.length, EncodeBlocks(tail) + rest);
      assert Record(info, blocks) == Record(info[b.id := b.length], tail);
    } else {
      assert SumLengths(blocks) == 0;
    }
  }

  /** Where the first block's fields sit in the encoding. */
  lemma EncodedHead(blocks: seq<RamBlock>, rest: seq<byte>)
    requires Encodable(blocks) && blocks != []
    ensures Encodable(blocks[1..])
    ensures var s := EncodeBlocks(blocks) + rest;
            var n := |blocks[0].id|;
            && |s| >= 9 + n && s[0] as nat == n && s[1..1 + n] == blocks[0].id
            && BeDecode(s[1 + n..9 + n]) == blocks[0].length && s[9 + n..] == EncodeBlocks(blocks[1..]) + rest
  {
    EncodeBlocksHead(blocks);
    var b := blocks[0];
    var n := |b.id|;
    var size := BeEncode(b.length, 8);
    var tail := EncodeBlocks(blocks[1..]);
    Regroup([n], b.id, size, tail, rest);
    FieldsAt(n, b.id, size, tail + rest);
    BeRoundTrip(b.length, 8);
  }

  lemma Regroup<T>(a: seq<T>, b: seq<T>, c: seq<T>, d: seq<T>, e: seq<T>)
    ensures (a + b + c + d) + e == a + (b + (c + (d + e)))
  {
  }

  lemma FieldsAt(n: byte, id: seq<byte>, size: seq<byte>, later: seq<byte>)
    requires |id| == n as nat && |size| == 8
    ensures var s := [n] + (id + (size + later));
            && |s| >= 9 + n as nat && s[0] == n && s[1..1 + n as nat] == id
            && s[1 + n as nat..9 + n as nat] == size && s[9 + n as nat..] == later
  {
    var s := [n] + (id + (size + later));
    SplitAt([n], id + (size + later));
    SplitAt(id, size + later);
    SplitAt(size, later);
  }

  /** Before each block, the sizes read so far are still below the total. */
  ghost predicate EachBelow(blocks: seq<RamBlock>, readSize: nat, total: nat)
  {
    forall k :: 0 <= k < |blocks| ==> readSize + SumLengths(blocks[..k]) < total
  }

  lemma SumsAfterHead(blocks: seq<RamBlock>, readSize: nat, total: nat)
    requires blocks != []
    requires EachBelow(blocks, readSize, total) && readSize + SumLengths(blocks) >= total
    ensures EachBelow(blocks[1..], readSize + blocks[0].length, total)
    ensures readSize + blocks[0].length + SumLengths(blocks[1..]) >= total
  {
    forall k | 0 <= k < |blocks| - 1
      ensures readSize + blocks[0].length + SumLengths(blocks[1..][..k]) < total
    {
      assert blocks[..k + 1][0] == blocks[0] && blocks[..k + 1][1..] == blocks[1..][..k];
      assert readSize + SumLengths(blocks[..k + 1]) < total;
    }
  }

  /** total_mem_size & ~0xfff: the total rounded down to whole pages. */
  function PageAligned(total: nat): nat
  {
    total - total % RAM_PAGE_SIZE
  }

  /** The header a snapshot with these blocks starts with reads back to their dict. */
  lemma RamInfoRoundTrip(header: nat, blocks: seq<RamBlock>, rest: seq<byte>)
    requires header < U64_LIMIT && (header / RAM_SAVE_FLAG_MEM_SIZE) % 2 == 1
    requires Encodable(blocks)
    requires forall k :: 0 <= k < |blocks| ==> SumLengths(blocks[..k]) < PageAligned(header)
    requires SumLengths(blocks) >= PageAligned(header)
    ensures RamInfo(BeEncode(header, 8) + (EncodeBlocks(blocks) + rest)) == Success(Record(map[], blocks))
  {
    var total := PageAligned(header);
    Pow256Values();
    SplitAt(BeEncode(header, 8), EncodeBlocks(blocks) + rest);
    BeRoundTrip(header, 8);
    RamBlocksRoundTrip(blocks, rest, total, 0, map[]);
  }

  /** One pass of the block loop, on the unread part of the file. */
  lemma RamBlocksStep(t: seq<byte>, total: nat, readSize: nat, info: map<seq<byte>, nat>,
                      id: seq<byte>, size: nat, later: seq<byte>)
    requires total > readSize && |t| >= 1 && |t| >= 9 + t[0] as nat
    requires t[1..1 + t[0] as nat] == id && BeDecode(t[1 + t[0] as nat..9 + t[0] as nat]) == size
    requires t[9 + t[0] as nat..] == later
    ensures RamBlocks(t, total, readSize, info) == RamBlocks(later, total, readSize + size, info[id := size])
  {
  }

  /** The header loop of _seek_to_end_of_ram; fin.read consumes the file from the front. */
  method SeekToEndOfRam(s: seq<byte>) returns (r: Result<map<seq<byte>, nat>, string>)
    ensures r == RamInfo(s)
  {
    var head, fin := Read(s, 8).0, Read(s, 8).1;
    if |head| != 8 {
      return Failure(STRUCT_ERROR);
    }
    var totalMemSize := BeDecode(head);
    if (totalMemSize / RAM_SAVE_FLAG_MEM_SIZE) % 2 == 0 {
      return Failure(NO_TOTAL_SIZE);
    }
    totalMemSize := PageAligned(totalMemSize);
    var readRamlenSize := 0;
    var ramInfo: map<seq<byte>, nat> := map[];
    while totalMemSize > readRamlenSize
      invariant RamInfo(s) == RamBlocks(fin, totalMemSize, readRamlenSize, ramInfo)
      decreases |fin|
    {
      var lenByte, after := Read(fin, 1).0, Read(fin, 1).1;
      if |lenByte| != 1 {
        return Failure(STRUCT_ERROR);
      }
      var idStringLen := lenByte[0] as nat;
      var field, after2 := Read(after, idStringLen + 8).0, Read(after, idStringLen + 8).1;
      if |field| != idStringLen + 8 {
        return Failure(STRUCT_ERROR);
      }
      var idString := field[..idStringLen];
      var memSize := BeDecode(field[idStringLen..]);
      assert fin[1..1 + idStringLen] == idString && fin[1 + idStringLen..9 + idStringLen] == field[idStringLen..];
      assert fin[9 + idStringLen..] == after2;
      RamBlocksStep(fin, totalMemSize, readRamlenSize, ramInfo, idString, memSize, after2);
      ramInfo := ramInfo[idString := memSize];
      readRamlenSize := readRamlenSize + memSize;
      fin := after2;
    }
    return Success(ramInfo);
  }
}
