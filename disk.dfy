/**
 * The disk half (src/cloudlet/Disk.py): the sliding-window hash list of a base disk
 * (hashing) and its reader (base_hashlist), the discard ranges of the qemu log
 * (parse_qemu_log), and the disk delta list (create_disk_deltalist).
 */
module Disk {
  import opened Wrappers
  import opened Bytes
  import opened DeltaItems
  import DeltaRecover
  import Memory

  const INVALID_DISK := "DiskError: invalid raw disk size"
  const INT_ZERO_DIVISION := "ZeroDivisionError: integer division or modulo by zero"
  const FLOAT_ZERO_DIVISION := "ZeroDivisionError: float division by zero"
  const STRUCT_ERROR := "struct.error: unpack requires a string argument of length 12"
  const PACK_ERROR := "struct.error: argument out of range"
  const SECTOR_SIZE: nat := 512

  // ---------------------------------------------------------------- hashing

  /** How many full window-sized reads n bytes allow; a read of size 0 comes back empty and stops at once. */
  function FullReads(n: nat, w: nat): nat
    decreases n
  {
    if w == 0 || n < w then 0 else 1 + FullReads(n - w, w)
  }

  /** The reads fit in the bytes, and what is left is shorter than one more window. */
  lemma {:induction false} FullReadsBound(n: nat, w: nat)
    ensures Stride(FullReads(n, w), w) <= n
    ensures w > 0 ==> n - Stride(FullReads(n, w), w) < w
    decreases n
  {
    if w > 0 && n >= w {
      FullReadsBound(n - w, w);
      StrideFront(FullReads(n - w, w), w);
    }
  }

  /**
   * In closed form: n // w full reads, which take up all of n but its remainder n % w.
   * (The sizes are never negative, so Python's floor division agrees with Dafny's.)
   */
  lemma {:induction false} FullReadsClosed(n: nat, w: nat)
    requires w > 0
    ensures FullReads(n, w) == n / w && Stride(n / w, w) == n - n % w
    decreases n
  {
    if n < w {
      DivSmall(n, w);
    } else {
      FullReadsClosed(n - w, w);
      DivStep(n, w);
    }
  }

  /** How many full windows hashing reads past its first chunk: (size - chunk_size) // window_size. */
  function Slides(size: nat, chunk: nat, w: nat): (n: nat)
    requires 0 < w && chunk <= size
  {
    DivNonneg(size - chunk, w);
    (size - chunk) / w
  }

  lemma {:induction false} DivNonneg(a: nat, w: nat)
    requires w > 0
    ensures a / w >= 0
    decreases a
  {
    if a < w {
      DivSmall(a, w);
    } else {
      DivStep(a, w);
      DivNonneg(a - w, w);
    }
  }

  /** Where hashing's reads stop on a disk of the given size: all of it but the remainder past the last full window. */
  function ReadEnd(size: nat, chunk: nat, w: nat): (e: nat)
    requires 0 < w && chunk <= size
    ensures chunk <= e <= size
  {
    ModBelow(size - chunk, w);
    size - (size - chunk) % w
  }

  lemma ModBelow(a: nat, w: nat)
    requires w > 0
    ensures a % w <= a
  {
    if a < w {
      DivSmall(a, w);
    }
  }

  /** Euclidean division is unique: a quotient and a remainder below w are n / w and n % w. */
  lemma DivUnique(n: int, w: int, q: int, r: int)
    requires w > 0 && n == w * q + r && 0 <= r < w
    ensures n / w == q && n % w == r
  {
    var q', r' := n / w, n % w;
    assert n == w * q' + r' && 0 <= r' < w;
    if q > q' {
      assert w * (q - q') == w * q - w * q';
      MulGrows(w, q - q');
    } else if q < q' {
      assert w * (q' - q) == w * q' - w * q;
      MulGrows(w, q' - q);
    }
  }

  lemma MulGrows(w: int, d: int)
    requires w > 0 && d >= 1
    ensures w * d >= w
  {
    assert w * d == w * (d - 1) + w;
  }

  /** Taking w away takes one from the quotient and leaves the remainder. */
  lemma DivStep(n: int, w: int)
    requires n >= w > 0
    ensures (n - w) / w == n / w - 1 && (n - w) % w == n % w
  {
    DivUnique(n, w, (n - w) / w + 1, (n - w) % w);
  }

  lemma DivSmall(n: int, w: int)
    requires 0 <= n < w
    ensures n / w == 0 && n % w == n
  {
    DivUnique(n, w, 0, n);
  }

  /** k * w, the offset of window k, written as repeated addition. */
  function Stride(k: nat, w: nat): (r: nat)
  {
    if k == 0 then 0 else Stride(k - 1, w) + w
  }

  lemma {:induction false} StrideIsProduct(k: nat, w: nat)
    ensures Stride(k, w) == k * w
  {
    if k > 0 {
      StrideIsProduct(k - 1, w);
    }
  }

  lemma {:induction false} StrideFront(k: nat, w: nat)
    ensures Stride(k + 1, w) == w + Stride(k, w)
  {
  }

  lemma StrideMono(j: nat, k: nat, w: nat)
    requires j <= k
    ensures Stride(j, w) <= Stride(k, w)
    decreases k
  {
    if j < k {
      StrideMono(j, k - 1, w);
    }
  }

  /** data = data[window_size:] + added */
  function Slide(data: seq<byte>, w: nat, added: seq<byte>): seq<byte>
  {
    PySuffix(data, w) + added
  }

  /**
   * Where the loop's data starts at window k: at 0 first; then, with window_size <= chunk_size,
   * chunk_size bytes before the end, otherwise at the end of the read before (the whole
   * window_size bytes of the last read).
   */
  function WindowStart(chunk: nat, w: nat, k: nat): nat
  {
    if k == 0 then 0 else if w <= chunk then Stride(k, w) else chunk + Stride(k - 1, w)
  }

  /**
   * The loop's data at window k, which ends where its k-th read ended, at
   * chunk_size + k * window_size.
   */
  function WindowAt(disk: seq<byte>, chunk: nat, w: nat, k: nat): seq<byte>
  {
    PySlice(disk, WindowStart(chunk, w, k), chunk + Stride(k, w))
  }

  /** The first read is window 0. */
  lemma FirstWindow(disk: seq<byte>, chunk: nat, w: nat)
    requires chunk <= |disk|
    ensures Read(disk, chunk).0 == WindowAt(disk, chunk, w, 0)
  {
  }

  /**
   * Sliding is what makes the windows: window k with its first window_size bytes dropped
   * and the next window_size bytes of the disk appended is window k + 1.
   */
  lemma SlideNext(disk: seq<byte>, chunk: nat, w: nat, k: nat)
    requires 0 < w && chunk + Stride(k + 1, w) <= |disk|
    ensures Stride(k + 1, w) == Stride(k, w) + w
    ensures Slide(WindowAt(disk, chunk, w, k), w, disk[chunk + Stride(k, w)..chunk + Stride(k + 1, w)]) == WindowAt(disk, chunk, w, k + 1)
  {
    if w <= chunk {
      SlideWithin(disk, chunk, w, k);
    } else {
      SlidePast(disk, chunk, w, k);
    }
  }

  /** With window_size <= chunk_size, the chunk_size bytes ending at e slide to the ones ending at e + window_size. */
  lemma SlideWithin(disk: seq<byte>, chunk: nat, w: nat, k: nat)
    requires 0 < w <= chunk && chunk + Stride(k + 1, w) <= |disk|
    ensures Stride(k + 1, w) == Stride(k, w) + w
    ensures Slide(WindowAt(disk, chunk, w, k), w, disk[chunk + Stride(k, w)..chunk + Stride(k + 1, w)]) == WindowAt(disk, chunk, w, k + 1)
  {
    var e := chunk + Stride(k, w);
    assert chunk + Stride(k + 1, w) == e + w;
    assert WindowAt(disk, chunk, w, k) == disk[e - chunk..e];
    assert WindowAt(disk, chunk, w, k + 1) == disk[e + w - chunk..e + w];
    assert PySuffix(disk[e - chunk..e], w) == disk[e - chunk + w..e];
    assert disk[e - chunk + w..e] + disk[e..e + w] == disk[e + w - chunk..e + w];
  }

  /** With window_size > chunk_size, the window is dropped whole: the next window is the bytes read. */
  lemma SlidePast(disk: seq<byte>, chunk: nat, w: nat, k: nat)
    requires chunk < w && chunk + Stride(k + 1, w) <= |disk|
    ensures Stride(k + 1, w) == Stride(k, w) + w
    ensures Slide(WindowAt(disk, chunk, w, k), w, disk[chunk + Stride(k, w)..chunk + Stride(k + 1, w)]) == WindowAt(disk, chunk, w, k + 1)
  {
    var e := chunk + Stride(k, w);
    assert chunk + Stride(k + 1, w) == e + w;
    if k > 0 {
      StrideFront(k - 1, w);
    }
    var lo := WindowStart(chunk, w, k);
    assert 0 <= lo <= e && e - lo <= w;
    assert WindowAt(disk, chunk, w, k) == disk[lo..e];
    assert WindowAt(disk, chunk, w, k + 1) == disk[e..e + w];
    assert PySuffix(disk[lo..e], w) == [];
    assert [] + disk[e..e + w] == disk[e..e + w];
  }

  /** With window_size <= chunk_size, window k holds the chunk_size bytes at offset k * window_size. */
  lemma WindowCovers(disk: seq<byte>, chunk: nat, w: nat, k: nat)
    requires w <= chunk && chunk + Stride(k, w) <= |disk|
    ensures WindowAt(disk, chunk, w, k) == disk[Stride(k, w)..Stride(k, w) + chunk]
  {
  }

  /** The hashes in hash_dic, as a set. */
  function Hashes(t: seq<HashEntry>): set<seq<byte>>
  {
    set i | 0 <= i < |t| :: t[i].hash
  }

  lemma HashesSnoc(t: seq<HashEntry>, e: HashEntry)
    ensures Hashes(t + [e]) == Hashes(t) + {e.hash}
  {
    var u := t + [e];
    assert u[|t|] == e;
    assert forall i :: 0 <= i < |t| ==> u[i] == t[i];
  }

  /** hash_dic.get(hashed) == None: a new hash is added at the end; the entries in insertion order. */
  function Remembered(order: seq<HashEntry>, hashed: seq<byte>, sOffset: nat, dataLen: nat): (r: seq<HashEntry>)
    ensures Hashes(r) == Hashes(order) + {hashed}
  {
    if hashed in Hashes(order) then order
    else
      HashesSnoc(order, HashEntry(sOffset, dataLen, hashed));
      order + [HashEntry(sOffset, dataLen, hashed)]
  }

  /** sha256 of window k. */
  function WindowHash(disk: seq<byte>, chunk: nat, w: nat, sha: seq<byte> -> seq<byte>, k: nat): seq<byte>
  {
    sha(WindowAt(disk, chunk, w, k))
  }

  /** hash_dic after the first n windows, its entries in the order they were made. */
  function Table(disk: seq<byte>, chunk: nat, w: nat, sha: seq<byte> -> seq<byte>, n: nat): (t: seq<HashEntry>)
    ensures |t| <= n
  {
    if n == 0 then []
    else Remembered(Table(disk, chunk, w, sha, n - 1), WindowHash(disk, chunk, w, sha, n - 1), Stride(n - 1, w), chunk)
  }

  // The properties of the table depend only on the sequence of window hashes; they are
  // proved once over any sequence of hashes and then read back for the windows of a disk.

  /** hash_dic built from the hashes hs of windows 0, 1, ..., entries in the order they were made. */
  function Entries(hs: seq<seq<byte>>, chunk: nat, w: nat): (t: seq<HashEntry>)
    ensures |t| <= |hs|
  {
    if hs == [] then []
    else Remembered(Entries(hs[..|hs| - 1], chunk, w), hs[|hs| - 1], Stride(|hs| - 1, w), chunk)
  }

  /** The hashes of the first n windows. */
  function WindowHashes(disk: seq<byte>, chunk: nat, w: nat, sha: seq<byte> -> seq<byte>, n: nat): (hs: seq<seq<byte>>)
    ensures |hs| == n
  {
    if n == 0 then [] else WindowHashes(disk, chunk, w, sha, n - 1) + [WindowHash(disk, chunk, w, sha, n - 1)]
  }

  lemma WindowHashesAt(disk: seq<byte>, chunk: nat, w: nat, sha: seq<byte> -> seq<byte>, n: nat)
    ensures forall k :: 0 <= k < n ==> WindowHashes(disk, chunk, w, sha, n)[k] == WindowHash(disk, chunk, w, sha, k)
  {
    forall k | 0 <= k < n
      ensures WindowHashes(disk, chunk, w, sha, n)[k] == WindowHash(disk, chunk, w, sha, k)
    {
      WindowHashAt(disk, chunk, w, sha, n, k);
    }
  }

  lemma {:induction false} WindowHashAt(disk: seq<byte>, chunk: nat, w: nat, sha: seq<byte> -> seq<byte>, n: nat, k: nat)
    requires k < n
    ensures WindowHashes(disk, chunk, w, sha, n)[k] == WindowHash(disk, chunk, w, sha, k)
  {
    if k < n - 1 {
      WindowHashAt(disk, chunk, w, sha, n - 1, k);
    }
    SnocAt(WindowHashes(disk, chunk, w, sha, n - 1), WindowHash(disk, chunk, w, sha, n - 1), k, WindowHash(disk, chunk, w, sha, k));
  }

  /** The table of the first n windows is the table built from their hashes. */
  lemma {:induction false} TableIsEntries(disk: seq<byte>, chunk: nat, w: nat, sha: seq<byte> -> seq<byte>, n: nat)
    ensures Table(disk, chunk, w, sha, n) == Entries(WindowHashes(disk, chunk, w, sha, n), chunk, w)
  {
    if n > 0 {
      TableIsEntries(disk, chunk, w, sha, n - 1);
      Snoc(WindowHashes(disk, chunk, w, sha, n - 1), WindowHash(disk, chunk, w, sha, n - 1));
    }
  }

  lemma {:induction false} EntriesComplete(hs: seq<seq<byte>>, chunk: nat, w: nat)
    ensures forall k :: 0 <= k < |hs| ==> hs[k] in Hashes(Entries(hs, chunk, w))
  {
    if hs != [] {
      var front := hs[..|hs| - 1];
      EntriesComplete(front, chunk, w);
      assert forall k :: 0 <= k < |front| ==> front[k] == hs[k];
    }
  }

  lemma {:induction false} EntriesHashLengths(hs: seq<seq<byte>>, chunk: nat, w: nat)
    requires forall k :: 0 <= k < |hs| ==> |hs[k]| == 32
    ensures forall i :: 0 <= i < |Entries(hs, chunk, w)| ==> |Entries(hs, chunk, w)[i].hash| == 32
  {
    if hs != [] {
      var front := hs[..|hs| - 1];
      assert forall k :: 0 <= k < |front| ==> front[k] == hs[k];
      EntriesHashLengths(front, chunk, w);
    }
  }

  lemma {:induction false} EntriesDistinct(hs: seq<seq<byte>>, chunk: nat, w: nat)
    ensures forall i, j :: 0 <= i < j < |Entries(hs, chunk, w)| ==> Entries(hs, chunk, w)[i].hash != Entries(hs, chunk, w)[j].hash
  {
    if hs != [] {
      var front := hs[..|hs| - 1];
      EntriesDistinct(front, chunk, w);
      var prev := Entries(front, chunk, w);
      var t := Entries(hs, chunk, w);
      if t != prev {
        forall i, j | 0 <= i < j < |t|
          ensures t[i].hash != t[j].hash
        {
          assert t[i] == prev[i];
          if j < |prev| {
            assert t[j] == prev[j];
          } else {
            assert prev[i].hash in Hashes(prev);
          }
        }
      }
    }
  }

  /** Entry e was made by window k, the first of hs with e's hash. */
  ghost predicate MadeBy(hs: seq<seq<byte>>, chunk: nat, w: nat, e: HashEntry, k: int)
  {
    0 <= k < |hs| && e.length == chunk && e.start == Stride(k, w) && hs[k] == e.hash &&
    forall j :: 0 <= j < k ==> hs[j] != e.hash
  }

  /** A hash missing from the table is none of the hashes it was built from. */
  lemma {:induction false} EntriesMiss(hs: seq<seq<byte>>, chunk: nat, w: nat, h: seq<byte>)
    requires h !in Hashes(Entries(hs, chunk, w))
    ensures forall j :: 0 <= j < |hs| ==> hs[j] != h
  {
    EntriesComplete(hs, chunk, w);
  }

  /** Entry e was made by the first window of hs with e's hash. */
  ghost predicate MadeFirstIn(hs: seq<seq<byte>>, chunk: nat, w: nat, e: HashEntry)
  {
    exists k :: MadeBy(hs, chunk, w, e, k)
  }

  lemma {:induction false} EntriesKeepFirst(hs: seq<seq<byte>>, chunk: nat, w: nat)
    ensures forall i :: 0 <= i < |Entries(hs, chunk, w)| ==> MadeFirstIn(hs, chunk, w, Entries(hs, chunk, w)[i])
  {
    if hs == [] {
      assert Entries(hs, chunk, w) == [];
    } else {
      var n := |hs|;
      var front := hs[..n - 1];
      EntriesKeepFirst(front, chunk, w);
      var prev := Entries(front, chunk, w);
      var t := Entries(hs, chunk, w);
      assert forall k :: 0 <= k < n - 1 ==> front[k] == hs[k];
      forall i | 0 <= i < |t|
        ensures MadeFirstIn(hs, chunk, w, t[i])
      {
        if i < |prev| {
          assert MadeFirstIn(front, chunk, w, prev[i]);
          var k :| MadeBy(front, chunk, w, prev[i], k);
          assert t[i] == prev[i];
          assert MadeBy(hs, chunk, w, t[i], k);
        } else {
          EntriesMiss(front, chunk, w, hs[n - 1]);
          assert MadeBy(hs, chunk, w, t[i], n - 1);
        }
      }
    }
  }

  /** Every window hashed so far has its hash in the table. */
  lemma TableComplete(disk: seq<byte>, chunk: nat, w: nat, sha: seq<byte> -> seq<byte>, n: nat)
    ensures forall k :: 0 <= k < n ==> WindowHash(disk, chunk, w, sha, k) in Hashes(Table(disk, chunk, w, sha, n))
  {
    TableIsEntries(disk, chunk, w, sha, n);
    WindowHashesAt(disk, chunk, w, sha, n);
    EntriesComplete(WindowHashes(disk, chunk, w, sha, n), chunk, w);
  }

  /** With a 32-byte digest, every hash in the table is 32 bytes long. */
  lemma TableHashLengths(disk: seq<byte>, chunk: nat, w: nat, sha: seq<byte> -> seq<byte>, n: nat)
    requires forall x :: |sha(x)| == 32
    ensures forall i :: 0 <= i < |Table(disk, chunk, w, sha, n)| ==> |Table(disk, chunk, w, sha, n)[i].hash| == 32
  {
    TableIsEntries(disk, chunk, w, sha, n);
    WindowHashesAt(disk, chunk, w, sha, n);
    EntriesHashLengths(WindowHashes(disk, chunk, w, sha, n), chunk, w);
  }

  /** No hash is in the table twice. */
  lemma TableDistinct(disk: seq<byte>, chunk: nat, w: nat, sha: seq<byte> -> seq<byte>, n: nat)
    ensures forall i, j :: 0 <= i < j < |Table(disk, chunk, w, sha, n)| ==>
              Table(disk, chunk, w, sha, n)[i].hash != Table(disk, chunk, w, sha, n)[j].hash
  {
    TableIsEntries(disk, chunk, w, sha, n);
    EntriesDistinct(WindowHashes(disk, chunk, w, sha, n), chunk, w);
  }

  /** Window k is the first window with hash h. */
  ghost predicate FirstAt(disk: seq<byte>, chunk: nat, w: nat, sha: seq<byte> -> seq<byte>, k: nat, h: seq<byte>)
  {
    WindowHash(disk, chunk, w, sha, k) == h && forall j :: 0 <= j < k ==> WindowHash(disk, chunk, w, sha, j) != h
  }

  /** Entry e carries chunk_size and the offset of the first window with its hash, one of the first n. */
  ghost predicate MadeFirst(disk: seq<byte>, chunk: nat, w: nat, sha: seq<byte> -> seq<byte>, n: nat, e: HashEntry)
  {
    e.length == chunk && exists k: nat :: k < n && e.start == Stride(k, w) && FirstAt(disk, chunk, w, sha, k, e.hash)
  }

  /**
   * Each entry carries chunk_size and the offset of the first window with its hash: an
   * entry once made is never overwritten.
   */
  lemma TableKeepsFirst(disk: seq<byte>, chunk: nat, w: nat, sha: seq<byte> -> seq<byte>, n: nat)
    ensures forall i :: 0 <= i < |Table(disk, chunk, w, sha, n)| ==> MadeFirst(disk, chunk, w, sha, n, Table(disk, chunk, w, sha, n)[i])
  {
    var hs := WindowHashes(disk, chunk, w, sha, n);
    TableIsEntries(disk, chunk, w, sha, n);
    EntriesKeepFirst(hs, chunk, w);
    forall i | 0 <= i < |Table(disk, chunk, w, sha, n)|
      ensures MadeFirst(disk, chunk, w, sha, n, Table(disk, chunk, w, sha, n)[i])
    {
      FirstWindowOf(disk, chunk, w, sha, n, Table(disk, chunk, w, sha, n)[i]);
    }
  }

  /** Made by the first window with its hash, read back for the windows of the disk. */
  lemma FirstWindowOf(disk: seq<byte>, chunk: nat, w: nat, sha: seq<byte> -> seq<byte>, n: nat, e: HashEntry)
    requires MadeFirstIn(WindowHashes(disk, chunk, w, sha, n), chunk, w, e)
    ensures MadeFirst(disk, chunk, w, sha, n, e)
  {
    var hs := WindowHashes(disk, chunk, w, sha, n);
    WindowHashesAt(disk, chunk, w, sha, n);
    var k :| MadeBy(hs, chunk, w, e, k);
    assert FirstAt(disk, chunk, w, sha, k, e.hash);
  }

  /** "!QI" takes the offset as an unsigned 64-bit and the length as an unsigned 32-bit integer. */
  predicate Packs(e: HashEntry)
  {
    0 <= e.start < U64_LIMIT && 0 <= e.length < U32_LIMIT
  }

  /** struct.pack("!QI%ds", s_offset, data_len, hash): the hash at its own length. */
  function PackEntry(e: HashEntry): (r: Result<seq<byte>, string>)
    ensures r.Success? <==> Packs(e)
    ensures r.Failure? ==> r.error == PACK_ERROR
    ensures r.Success? ==> |r.value| == 12 + |e.hash| && r.value[12..] == e.hash
  {
    if !(0 <= e.start < U64_LIMIT && 0 <= e.length < U32_LIMIT) then Failure(PACK_ERROR)
    else
      Pow256Values();
      Success(BeEncode(e.start, 8) + BeEncode(e.length, 4) + e.hash)
  }

  /** The hash-list file: every entry packed, in order; one that does not pack stops the write. */
  function WriteRecords(t: seq<HashEntry>): (r: Result<seq<byte>, string>)
    ensures r.Success? <==> forall i :: 0 <= i < |t| ==> Packs(t[i])
    ensures r.Failure? ==> r.error == PACK_ERROR
  {
    if t == [] then Success([])
    else
      var row :- PackEntry(t[0]);
      var rest :- WriteRecords(t[1..]);
      assert forall i :: 1 <= i < |t| ==> t[i] == t[1..][i - 1];
      Success(row + rest)
  }

  /**
   * hashing(disk, meta, chunk_size, window_size): the hash-list file it writes and the
   * sha256 of the bytes it read. A window size of 0 fails dividing the disk size by it,
   * a disk shorter than one chunk is refused, and a disk shorter than one window fails
   * in the progress computation (the disk size over window_size is 0 there). Otherwise
   * the loop hashes window 0 and one more window per full read of window_size bytes,
   * and has read the disk up to the end of the last window.
   */
  function Hashing(disk: seq<byte>, chunk: nat, w: nat, sha: seq<byte> -> seq<byte>): (r: Result<(seq<byte>, seq<byte>), string>)
    ensures w == 0 ==> r == Failure(INT_ZERO_DIVISION)
    ensures r == Failure(INVALID_DISK) <==> w > 0 && (chunk == 0 || |disk| < chunk)
    ensures r == Failure(FLOAT_ZERO_DIVISION) <==> w > 0 && 0 < chunk <= |disk| < w
  {
    if w == 0 then Failure(INT_ZERO_DIVISION)
    else if chunk == 0 || |disk| < chunk then Failure(INVALID_DISK)
    else if |disk| < w then Failure(FLOAT_ZERO_DIVISION)
    else
      var file := WriteRecords(Table(disk, chunk, w, sha, Slides(|disk|, chunk, w) + 1));
      if file.Failure? then Failure(file.error) else Success((file.value, sha(disk[..ReadEnd(|disk|, chunk, w)])))
  }

  /**
   * What a successful hashing writes, read back as base_hashlist reads it: every record
   * carries chunk_size, a 32-byte hash and the offset of the first window with that hash,
   * and the hash of every window the loop hashed is in the file.
   */
  lemma HashingFileContents(disk: seq<byte>, chunk: nat, w: nat, sha: seq<byte> -> seq<byte>)
    requires Hashing(disk, chunk, w, sha).Success?
    requires forall x :: |sha(x)| == 32
    ensures ParseHashlist(Hashing(disk, chunk, w, sha).value.0).Success?
    ensures var es := ParseHashlist(Hashing(disk, chunk, w, sha).value.0).value;
            forall i :: 0 <= i < |es| ==>
              MadeFirst(disk, chunk, w, sha, Slides(|disk|, chunk, w) + 1, es[i]) && |es[i].hash| == 32
    ensures var es := ParseHashlist(Hashing(disk, chunk, w, sha).value.0).value;
            forall k :: 0 <= k <= Slides(|disk|, chunk, w) ==> WindowHash(disk, chunk, w, sha, k) in Hashes(es)
  {
    var n := Slides(|disk|, chunk, w) + 1;
    HashingRoundTrip(disk, chunk, w, sha);
    TableKeepsFirst(disk, chunk, w, sha, n);
    TableHashLengths(disk, chunk, w, sha, n);
    TableComplete(disk, chunk, w, sha, n);
  }

  /**
   * The windows hashed are every full window: the last one ends at the end of the disk
   * but its remainder, and one more would run past the end of the disk.
   */
  lemma HashingSeesEveryWindow(disk: seq<byte>, chunk: nat, w: nat)
    requires 0 < chunk <= |disk| && 0 < w
    ensures var count := Slides(|disk|, chunk, w);
            && chunk + Stride(count, w) == ReadEnd(|disk|, chunk, w)
            && chunk + Stride(count, w) <= |disk| < chunk + Stride(count + 1, w)
  {
    FullReadsBound(|disk| - chunk, w);
    FullReadsClosed(|disk| - chunk, w);
  }

  /** The records a hash list holds, in order: a 12-byte header, then 32 bytes of hash. */
  function ParseHashlist(b: seq<byte>): (r: Result<seq<HashEntry>, string>)
    decreases |b|
  {
    if b == [] then Success([])
    else if |b| < 12 then Failure(STRUCT_ERROR)
    else
      var sha := Read(b[12..], 32);
      var rest :- ParseHashlist(sha.1);
      Success([HashEntry(BeDecode(b[..8]), BeDecode(b[8..12]), sha.0)] + rest)
  }

  /** base_hashlist reads back what hashing wrote, when every hash is 32 bytes long. */
  lemma {:induction false} HashlistRoundTrip(t: seq<HashEntry>)
    requires WriteRecords(t).Success?
    requires forall i :: 0 <= i < |t| ==> |t[i].hash| == 32
    ensures ParseHashlist(WriteRecords(t).value) == Success(t)
  {
    if t != [] {
      Pow256Values();
      var e := t[0];
      var rest := WriteRecords(t[1..]).value;
      var b := WriteRecords(t).value;
      var head := BeEncode(e.start, 8) + BeEncode(e.length, 4);
      assert b == head + (e.hash + rest);
      assert b[..8] == BeEncode(e.start, 8) && b[8..12] == BeEncode(e.length, 4);
      assert b[12..] == e.hash + rest;
      assert Read(b[12..], 32) == (e.hash, rest);
      BeRoundTrip(e.start, 8);
      BeRoundTrip(e.length, 4);
      HashlistRoundTrip(t[1..]);
      assert t == [e] + t[1..];
    }
  }

  /** Hashing's file reads back as its table when sha256 gives 32 bytes. */
  lemma HashingRoundTrip(disk: seq<byte>, chunk: nat, w: nat, sha: seq<byte> -> seq<byte>)
    requires Hashing(disk, chunk, w, sha).Success?
    requires forall x :: |sha(x)| == 32
    ensures ParseHashlist(Hashing(disk, chunk, w, sha).value.0) == Success(Table(disk, chunk, w, sha, Slides(|disk|, chunk, w) + 1))
  {
    TableRoundTrip(disk, chunk, w, sha, Slides(|disk|, chunk, w) + 1);
  }

  /** A table of 32-byte hashes, once written, reads back as itself. */
  lemma TableRoundTrip(disk: seq<byte>, chunk: nat, w: nat, sha: seq<byte> -> seq<byte>, n: nat)
    requires forall x :: |sha(x)| == 32
    requires WriteRecords(Table(disk, chunk, w, sha, n)).Success?
    ensures ParseHashlist(WriteRecords(Table(disk, chunk, w, sha, n)).value) == Success(Table(disk, chunk, w, sha, n))
  {
    TableHashLengths(disk, chunk, w, sha, n);
    HashlistRoundTrip(Table(disk, chunk, w, sha, n));
  }

  /** The write loop of hashing: one packed record per entry. */
  method WriteHashFile(t: seq<HashEntry>) returns (r: Result<seq<byte>, string>)
    ensures r == WriteRecords(t)
  {
    var written: seq<byte> := [];
    var i := 0;
    Memory.PrependNothing(WriteRecords(t));
    while i < |t|
      invariant 0 <= i <= |t|
      invariant WriteRecords(t) == Memory.Prepend(written, WriteRecords(t[i..]))
    {
      assert t[i..][0] == t[i] && t[i..][1..] == t[i + 1..];
      var row := PackEntry(t[i]);
      if row.Failure? {
        return Failure(row.error);
      }
      Memory.PrependTwice(written, row.value, WriteRecords(t[i + 1..]));
      written := written + row.value;
      i := i + 1;
    }
    assert t[i..] == [] && written + [] == written;
    return Success(written);
  }

  /**
   * hashing: the window size divides the disk size for the progress bar, a short first
   * read is refused, and the first pass of the loop divides by that quotient (the only
   * pass where it can be 0 is that first one, so the method tests it once, before the loop).
   */
  method HashDisk(disk: seq<byte>, chunk: nat, w: nat, sha: seq<byte> -> seq<byte>) returns (r: Result<(seq<byte>, seq<byte>), string>)
    ensures r == Hashing(disk, chunk, w, sha)
  {
    if w == 0 {
      return Failure(INT_ZERO_DIVISION);
    }
    var totalIteration := |disk| / w;
    var first := Read(disk, chunk);
    var data := first.0;
    var rest := first.1;
    if data == [] || |data| < chunk {
      assert Hashing(disk, chunk, w, sha) == Failure(INVALID_DISK);
      return Failure(INVALID_DISK);
    }
    if totalIteration == 0 {
      DivIsZero(|disk|, w);
      return Failure(FLOAT_ZERO_DIVISION);
    }
    DivIsZero(|disk|, w);
    r := HashDiskTail(disk, chunk, w, sha, data, rest);
  }

  /** hashing past its three checks: the loop over the windows and the write of the table. */
  method HashDiskTail(disk: seq<byte>, chunk: nat, w: nat, sha: seq<byte> -> seq<byte>, data: seq<byte>, rest: seq<byte>)
    returns (r: Result<(seq<byte>, seq<byte>), string>)
    requires 0 < w <= |disk| && 0 < chunk <= |disk|
    requires data == Read(disk, chunk).0 && rest == Read(disk, chunk).1
    ensures r == Hashing(disk, chunk, w, sha)
  {
    var order, entire := HashWindows(disk, chunk, w, sha, data, rest);
    var file := WriteHashFile(order);
    r := if file.Failure? then Failure(file.error) else Success((file.value, sha(entire)));
  }

  /**
   * hashing's loop: hash the window, remember the first offset of each new hash, read
   * window_size more bytes and slide, until a read comes back short. The table of every
   * window, and the bytes read up to the end of the last one.
   */
  method HashWindows(disk: seq<byte>, chunk: nat, w: nat, sha: seq<byte> -> seq<byte>, data0: seq<byte>, rest0: seq<byte>)
    returns (order: seq<HashEntry>, entire: seq<byte>)
    requires 0 < w && 0 < chunk <= |disk|
    requires data0 == Read(disk, chunk).0 && rest0 == Read(disk, chunk).1
    ensures order == Table(disk, chunk, w, sha, Slides(|disk|, chunk, w) + 1) && entire == disk[..ReadEnd(|disk|, chunk, w)]
  {
    var data := data0;
    var rest := rest0;
    ghost var k: nat := 0;
    entire := data;
    var sOffset: nat := 0;
    var dataLen := |data|;
    var hashDic: map<seq<byte>, HashEntry> := map[];
    order := [];
    FirstWindow(disk, chunk, w);
    assert Read(disk, chunk).0 + rest == disk;
    while true
      invariant AtWindow(disk, chunk, w, sha, k, data, entire, rest, order, sOffset)
      invariant dataLen == chunk && hashDic.Keys == Hashes(order)
      decreases |rest|
    {
      var hashed := sha(data);
      KeysStep(hashDic, order, hashed, sOffset, dataLen);
      if hashed !in hashDic {
        hashDic := hashDic[hashed := HashEntry(sOffset, dataLen, hashed)];
      }
      var next := Read(rest, w);
      var added := next.0;
      if added == [] || |added| != w {
        LastWindow(disk, chunk, w, sha, k, data, entire, rest, order, sOffset);
        order := Remembered(order, hashed, sOffset, dataLen);
        return;
      }
      NextWindow(disk, chunk, w, sha, k, data, entire, rest, order, sOffset);
      order := Remembered(order, hashed, sOffset, dataLen);
      sOffset := sOffset + w;
      data := Slide(data, w, added);
      entire := entire + added;
      rest := next.1;
      k := k + 1;
    }
  }

  /**
   * The loop's state before it hashes window k: the window, the bytes read so far, the
   * bytes left, the table of the windows before and window k's offset.
   */
  ghost predicate AtWindow(disk: seq<byte>, chunk: nat, w: nat, sha: seq<byte> -> seq<byte>, k: nat,
                           data: seq<byte>, entire: seq<byte>, rest: seq<byte>, order: seq<HashEntry>, sOffset: nat)
  {
    && 0 < w && chunk + Stride(k, w) <= |disk| && sOffset == Stride(k, w)
    && data == WindowAt(disk, chunk, w, k)
    && entire == disk[..chunk + Stride(k, w)] && rest == disk[chunk + Stride(k, w)..]
    && order == Table(disk, chunk, w, sha, k)
    && FullReads(|disk| - chunk, w) == k + FullReads(|rest|, w)
  }

  /** A full read of window_size bytes moves the loop to window k + 1. */
  lemma NextWindow(disk: seq<byte>, chunk: nat, w: nat, sha: seq<byte> -> seq<byte>, k: nat,
                   data: seq<byte>, entire: seq<byte>, rest: seq<byte>, order: seq<HashEntry>, sOffset: nat)
    requires AtWindow(disk, chunk, w, sha, k, data, entire, rest, order, sOffset)
    requires |Read(rest, w).0| == w
    ensures AtWindow(disk, chunk, w, sha, k + 1, Slide(data, w, Read(rest, w).0), entire + Read(rest, w).0,
                     Read(rest, w).1, Remembered(order, sha(data), sOffset, chunk), sOffset + w)
  {
    Advance(disk, chunk, w, k, entire, rest);
    WindowSlides(disk, chunk, w, k, data, Read(rest, w).0);
    TableNext(disk, chunk, w, sha, k, data, order);
  }

  /** The bytes read after window k, slid onto it, are window k + 1. */
  lemma WindowSlides(disk: seq<byte>, chunk: nat, w: nat, k: nat, data: seq<byte>, added: seq<byte>)
    requires 0 < w && chunk + Stride(k + 1, w) <= |disk| && Stride(k + 1, w) == Stride(k, w) + w
    requires data == WindowAt(disk, chunk, w, k)
    requires added == disk[chunk + Stride(k, w)..chunk + Stride(k + 1, w)]
    ensures Slide(data, w, added) == WindowAt(disk, chunk, w, k + 1)
  {
    SlideNext(disk, chunk, w, k);
  }

  /** Remembering window k's hash turns the table of k windows into the table of k + 1. */
  lemma TableNext(disk: seq<byte>, chunk: nat, w: nat, sha: seq<byte> -> seq<byte>, k: nat, data: seq<byte>, order: seq<HashEntry>)
    requires data == WindowAt(disk, chunk, w, k) && order == Table(disk, chunk, w, sha, k)
    ensures Remembered(order, sha(data), Stride(k, w), chunk) == Table(disk, chunk, w, sha, k + 1)
  {
  }

  /** A short read ends the loop after window k, the last of the disk. */
  lemma LastWindow(disk: seq<byte>, chunk: nat, w: nat, sha: seq<byte> -> seq<byte>, k: nat,
                   data: seq<byte>, entire: seq<byte>, rest: seq<byte>, order: seq<HashEntry>, sOffset: nat)
    requires AtWindow(disk, chunk, w, sha, k, data, entire, rest, order, sOffset)
    requires 0 < w && chunk <= |disk| && (Read(rest, w).0 == [] || |Read(rest, w).0| != w)
    ensures Remembered(order, sha(data), sOffset, chunk) == Table(disk, chunk, w, sha, Slides(|disk|, chunk, w) + 1)
    ensures entire == disk[..ReadEnd(|disk|, chunk, w)]
  {
    ShortRead(rest, w);
    FullReadsClosed(|disk| - chunk, w);
    assert k == Slides(|disk|, chunk, w);
    assert chunk + Stride(k, w) == ReadEnd(|disk|, chunk, w);
    assert sha(data) == WindowHash(disk, chunk, w, sha, k);
    assert Table(disk, chunk, w, sha, k + 1) == Remembered(order, WindowHash(disk, chunk, w, sha, k), Stride(k, w), chunk);
  }

  /** hash_dic's keys are the hashes of the table before and after one more window. */
  lemma KeysStep(dic: map<seq<byte>, HashEntry>, order: seq<HashEntry>, hashed: seq<byte>, sOffset: nat, dataLen: nat)
    requires dic.Keys == Hashes(order)
    ensures var dic' := if hashed !in dic then dic[hashed := HashEntry(sOffset, dataLen, hashed)] else dic;
            dic'.Keys == Hashes(Remembered(order, hashed, sOffset, dataLen))
  {
  }

  /**
   * One read of the loop: the window_size bytes read next extend the bytes hashed so far
   * and leave one full read fewer.
   */
  lemma Advance(disk: seq<byte>, chunk: nat, w: nat, k: nat, entire: seq<byte>, rest: seq<byte>)
    requires 0 < w && chunk + Stride(k, w) <= |disk| && |rest| >= w
    requires entire == disk[..chunk + Stride(k, w)] && rest == disk[chunk + Stride(k, w)..]
    ensures Stride(k + 1, w) == Stride(k, w) + w && chunk + Stride(k + 1, w) <= |disk|
    ensures Read(rest, w).0 == disk[chunk + Stride(k, w)..chunk + Stride(k + 1, w)]
    ensures entire + Read(rest, w).0 == disk[..chunk + Stride(k + 1, w)]
    ensures Read(rest, w).1 == disk[chunk + Stride(k + 1, w)..]
    ensures FullReads(|rest|, w) == 1 + FullReads(|Read(rest, w).1|, w)
  {
    var p := chunk + Stride(k, w);
    assert chunk + Stride(k + 1, w) == p + w;
    assert Read(rest, w).0 == disk[p..p + w];
    assert disk[..p] + disk[p..p + w] == disk[..p + w];
  }

  /** The disk size over window_size is 0 exactly when the disk is shorter than one window. */
  lemma DivIsZero(a: nat, b: nat)
    requires b > 0
    ensures a / b == 0 <==> a < b
  {
  }

  /** A short read: no full read was left. */
  lemma ShortRead(rest: seq<byte>, w: nat)
    requires 0 < w && (Read(rest, w).0 == [] || |Read(rest, w).0| != w)
    ensures FullReads(|rest|, w) == 0
  {
  }

  /** base_hashlist: read a 12-byte header and 32 bytes of hash until the file is used up. */
  method BaseHashlist(b: seq<byte>) returns (r: Result<seq<HashEntry>, string>)
    ensures r == ParseHashlist(b)
  {
    var list: seq<HashEntry> := [];
    var rest := b;
    Memory.PrependNothing(ParseHashlist(b));
    while true
      invariant ParseHashlist(b) == Memory.Prepend(list, ParseHashlist(rest))
      decreases |rest|
    {
      var header := Read(rest, 12);
      if header.0 == [] {
        break;
      }
      if |header.0| != 12 {
        return Failure(STRUCT_ERROR);
      }
      var sha := Read(header.1, 32);
      var entry := HashEntry(BeDecode(header.0[..8]), BeDecode(header.0[8..12]), sha.0);
      assert rest[..8] == header.0[..8] && rest[8..12] == header.0[8..12] && rest[12..] == header.1;
      Memory.PrependTwice(list, [entry], ParseHashlist(sha.1));
      list := list + [entry];
      rest := sha.1;
    }
    assert list + [] == list;
    return Success(list);
  }
}
