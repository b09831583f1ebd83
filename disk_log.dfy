/**
 * parse_qemu_log (src/cloudlet/Disk.py): the DMA and TRIM events of qemu's log, as
 * dma_dict and discard_dict. Log lines come in already split into their fields; the
 * text splitting and number parsing, and the counters kept only for logging, are not
 * modelled. Event times are whole numbers here.
 */
module DiskLog {
  import opened Wrappers
  import opened Bytes
  import Disk

  /** MEM_SIFT_OFFSET: the libvirt and KVM headers in front of guest memory in the DMA address. */
  const MEM_SIFT_OFFSET: int := 4096 + 4096

  /** mem_addr is read with long(), so a zero chunk_size fails Python 2's long division. */
  const LONG_ZERO_DIVISION := "ZeroDivisionError: long division or modulo by zero"

  /** One log line, its fields read: an empty line, a dma event, a bdrv_discard event or anything else. */
  datatype LogLine =
    | Blank
    | Dma(time: int, memAddr: int, secNum: int, secLen: int, fromDisk: int)
    | Discard(time: int, startSec: int, totalLen: int)
    | Other(time: int)

  /** A dma_dict value: {'time', 'mem_chunk', 'read'}. */
  datatype DmaEntry = DmaEntry(time: int, memChunk: int, read: bool)

  /**
   * The two dicts. dma_dict is keyed by sec_num * 512.0 / chunk_size, a float that is one
   * to one with the sector number for a fixed chunk size, so the model keys it by the
   * sector number; discard_dict maps a chunk number to the time of its TRIM.
   */
  datatype QemuLog = QemuLog(dma: map<int, DmaEntry>, discard: map<int, int>)

  /** The decimal text of n, as "%d" writes it. */
  function Decimal(n: int): (r: string)
    ensures |r| > 0
    decreases if n < 0 then 1 - n else n
  {
    if n < 0 then "-" + Decimal(-n)
    else if n < 10 then ["0123456789"[n]]
    else Decimal(n / 10) + ["0123456789"[n % 10]]
  }

  function DmaLengthError(secLen: int, chunk: nat): string
  {
    "DiskError: DMA sector length(" + Decimal(secLen) + ") is not same as chunk size(" + Decimal(chunk) + ")"
  }

  /** int(ceil(a * 1.0 / b)) for a positive b, computed exactly. */
  function CeilDiv(a: int, b: int): (r: int)
    requires b > 0
    ensures b * r - b < a <= b * r
  {
    var q := FloorDiv(-a, b);
    assert b * q <= -a < b * q + b;
    assert b * (-q) == -(b * q);
    -q
  }

  /** discard_dict[chunk_num] = event_time for every chunk_num in xrange(lo, hi). */
  function MarkRange(d: map<int, int>, lo: int, hi: int, t: int): (r: map<int, int>)
    ensures forall c :: c in r <==> c in d || lo <= c < hi
    ensures forall c :: c in r ==> r[c] == if lo <= c < hi then t else d[c]
    decreases hi - lo
  {
    if lo >= hi then d else MarkRange(d[lo := t], lo + 1, hi, t)
  }

  /** The inner loop of a bdrv_discard line. */
  method MarkChunks(d: map<int, int>, lo: int, hi: int, t: int) returns (r: map<int, int>)
    ensures r == MarkRange(d, lo, hi, t)
  {
    r := d;
    var c := lo;
    while c < hi
      invariant MarkRange(r, c, hi, t) == MarkRange(d, lo, hi, t)
      decreases hi - c
    {
      r := r[c := t];
      c := c + 1;
    }
  }

  /** The first and the end chunk number a bdrv_discard line marks. */
  function DiscardBounds(startSec: int, totalLen: int, chunk: nat): (r: (int, int))
    requires chunk > 0
  {
    (CeilDiv(startSec * Disk.SECTOR_SIZE, chunk), FloorDiv(startSec * Disk.SECTOR_SIZE + totalLen * Disk.SECTOR_SIZE, chunk))
  }

  /** What one line that is not empty does to the dicts, or the error it raises. */
  function ApplyLine(log: QemuLog, l: LogLine, chunk: nat): (r: Result<QemuLog, string>)
    requires !l.Blank?
    ensures l.Other? ==> r == Success(log)
    ensures l.Dma? ==> (r.Success? <==> chunk > 0 && l.secLen == chunk)
    ensures l.Dma? && chunk == 0 ==> r == Failure(LONG_ZERO_DIVISION)
    ensures l.Discard? ==> (r.Success? <==> chunk > 0)
    ensures l.Discard? && chunk == 0 ==> r == Failure(Disk.FLOAT_ZERO_DIVISION)
    ensures r.Success? && !l.Discard? ==> r.value.discard == log.discard
    ensures r.Success? && !l.Dma? ==> r.value.dma == log.dma
  {
    match l
    case Other(_) => Success(log)
    case Dma(time, memAddr, secNum, secLen, fromDisk) =>
      if chunk == 0 then Failure(LONG_ZERO_DIVISION)
      else
        var memChunk := FloorDiv(memAddr + MEM_SIFT_OFFSET, chunk);
        if secLen != chunk then Failure(DmaLengthError(secLen, chunk))
        else if secNum % 8 == 0 then Success(log.(dma := log.dma[secNum := DmaEntry(time, memChunk, fromDisk != 0)]))
        else Success(log)
    case Discard(time, startSec, totalLen) =>
      if chunk == 0 then Failure(Disk.FLOAT_ZERO_DIVISION)
      else
        var (lo, hi) := DiscardBounds(startSec, totalLen, chunk);
        Success(log.(discard := MarkRange(log.discard, lo, hi, time)))
  }

  /** The log's lines up to the first empty one, each applied in turn. */
  function ParseLines(lines: seq<LogLine>, chunk: nat, log: QemuLog): Result<QemuLog, string>
    decreases |lines|
  {
    if lines == [] || lines[0].Blank? then Success(log)
    else
      var next :- ApplyLine(log, lines[0], chunk);
      ParseLines(lines[1..], chunk, next)
  }

  /** All lines but the last, which might be cut short. */
  function Complete(lines: seq<LogLine>): (r: seq<LogLine>)
    ensures lines != [] ==> lines == r + [lines[|lines| - 1]]
    ensures lines == [] ==> r == []
  {
    if lines == [] then [] else lines[..|lines| - 1]
  }

  /**
   * parse_qemu_log(qemu_logfile, chunk_size): two empty dicts without a log file,
   * otherwise the events of all its lines but the last, read up to the first empty line.
   */
  function ParseQemuLog(file: Option<seq<LogLine>>, chunk: nat): (r: Result<QemuLog, string>)
    ensures file.None? ==> r == Success(QemuLog(map[], map[]))
  {
    match file
    case None => Success(QemuLog(map[], map[]))
    case Some(lines) => ParseLines(Complete(lines), chunk, QemuLog(map[], map[]))
  }

  /** The parse method: the outer loop over the lines, the inner one over a discard's chunks. */
  method ReadQemuLog(file: Option<seq<LogLine>>, chunk: nat) returns (r: Result<QemuLog, string>)
    ensures r == ParseQemuLog(file, chunk)
  {
    if file.None? {
      return Success(QemuLog(map[], map[]));
    }
    var lines := Complete(file.value);
    var dma: map<int, DmaEntry> := map[];
    var discard: map<int, int> := map[];
    var i := 0;
    while i < |lines|
      invariant 0 <= i <= |lines|
      invariant ParseQemuLog(file, chunk) == ParseLines(lines[i..], chunk, QemuLog(dma, discard))
    {
      var l := lines[i];
      assert lines[i..][0] == l && lines[i..][1..] == lines[i + 1..];
      if l.Blank? {
        break;
      }
      match l {
        case Dma(time, memAddr, secNum, secLen, fromDisk) =>
          if chunk == 0 {
            return Failure(LONG_ZERO_DIVISION);
          }
          var memChunk := FloorDiv(memAddr + MEM_SIFT_OFFSET, chunk);
          if secLen != chunk {
            return Failure(DmaLengthError(secLen, chunk));
          }
          if secNum % 8 == 0 {
            dma := dma[secNum := DmaEntry(time, memChunk, fromDisk != 0)];
          }
        case Discard(time, startSec, totalLen) =>
          if chunk == 0 {
            return Failure(Disk.FLOAT_ZERO_DIVISION);
          }
          var lo := CeilDiv(startSec * Disk.SECTOR_SIZE, chunk);
          var hi := FloorDiv(startSec * Disk.SECTOR_SIZE + totalLen * Disk.SECTOR_SIZE, chunk);
          discard := MarkChunks(discard, lo, hi, time);
        case Other(_) =>
      }
      i := i + 1;
    }
    return Success(QemuLog(dma, discard));
  }

  /** b * x <= b * y for x <= y and b >= 0. */
  lemma MulMono(b: int, x: int, y: int)
    requires b >= 0 && x <= y
    ensures b * x <= b * y
  {
    assert b * y - b * x == b * (y - x);
  }

  /**
   * A bdrv_discard marks exactly the chunks lying wholly inside the discarded sectors: c
   * is marked when c * chunk_size is at or after the first discarded byte and chunk c
   * ends at or before the last.
   */
  lemma DiscardMarksWholeChunks(startSec: int, totalLen: int, chunk: nat, c: int)
    requires chunk > 0
    ensures var (lo, hi) := DiscardBounds(startSec, totalLen, chunk);
            lo <= c < hi <==>
              startSec * Disk.SECTOR_SIZE <= c * chunk && c * chunk + chunk <= startSec * Disk.SECTOR_SIZE + totalLen * Disk.SECTOR_SIZE
  {
    var (lo, hi) := DiscardBounds(startSec, totalLen, chunk);
    var a := startSec * Disk.SECTOR_SIZE;
    var e := startSec * Disk.SECTOR_SIZE + totalLen * Disk.SECTOR_SIZE;
    assert chunk * lo - chunk < a <= chunk * lo;
    assert chunk * hi <= e < chunk * hi + chunk;
    if lo <= c {
      MulMono(chunk, lo, c);
    } else {
      MulMono(chunk, c, lo - 1);
    }
    if c < hi {
      MulMono(chunk, c + 1, hi);
    } else {
      MulMono(chunk, hi + 1, c + 1);
    }
    assert chunk * (c + 1) == c * chunk + chunk;
    assert chunk * (lo - 1) == chunk * lo - chunk;
    assert chunk * (hi + 1) == chunk * hi + chunk;
  }

  /** Where the parse stops: at the first empty line, or after the last line. */
  function StopAt(lines: seq<LogLine>): (r: nat)
    ensures r <= |lines| && (r < |lines| ==> lines[r].Blank?)
    ensures forall i :: 0 <= i < r ==> !lines[i].Blank?
  {
    if lines == [] || lines[0].Blank? then 0 else 1 + StopAt(lines[1..])
  }

  /** Line l, a TRIM, marks chunk c. */
  predicate Marks(l: LogLine, chunk: nat, c: int)
  {
    l.Discard? && chunk > 0 &&
    var (lo, hi) := DiscardBounds(l.startSec, l.totalLen, chunk);
    lo <= c < hi
  }

  /** Line l is a DMA event at sector s that the dict records. */
  predicate Records(l: LogLine, s: int)
  {
    l.Dma? && l.secNum == s && s % 8 == 0
  }

  /**
   * A parse that succeeds marks in discard_dict exactly the chunks that some TRIM line
   * before the first empty line marks.
   */
  lemma {:induction false} ParsedDiscards(lines: seq<LogLine>, chunk: nat, log: QemuLog)
    requires ParseLines(lines, chunk, log).Success?
    ensures var r := ParseLines(lines, chunk, log).value;
            forall c :: c in r.discard <==> c in log.discard || exists i :: 0 <= i < StopAt(lines) && Marks(lines[i], chunk, c)
    decreases |lines|
  {
    if lines != [] && !lines[0].Blank? {
      var next := ApplyLine(log, lines[0], chunk).value;
      ParsedDiscards(lines[1..], chunk, next);
      var n := StopAt(lines);
      var r := ParseLines(lines, chunk, log).value;
      assert r == ParseLines(lines[1..], chunk, next).value;
      forall c
        ensures c in r.discard <==> c in log.discard || exists i :: 0 <= i < n && Marks(lines[i], chunk, c)
      {
        if exists i :: 1 <= i < n && Marks(lines[i], chunk, c) {
          var i :| 1 <= i < n && Marks(lines[i], chunk, c);
          assert lines[1..][i - 1] == lines[i];
        }
        if exists i :: 0 <= i < n - 1 && Marks(lines[1..][i], chunk, c) {
          var i :| 0 <= i < n - 1 && Marks(lines[1..][i], chunk, c);
          assert lines[1..][i] == lines[i + 1];
        }
      }
    }
  }

  /** One TRIM line sets the time of the chunks it marks and leaves every other chunk's time alone. */
  lemma ApplyTrim(log: QemuLog, l: LogLine, chunk: nat, c: int)
    requires !l.Blank? && ApplyLine(log, l, chunk).Success?
    ensures Marks(l, chunk, c) ==> c in ApplyLine(log, l, chunk).value.discard && ApplyLine(log, l, chunk).value.discard[c] == l.time
    ensures !Marks(l, chunk, c) && c in log.discard ==> c in ApplyLine(log, l, chunk).value.discard && ApplyLine(log, l, chunk).value.discard[c] == log.discard[c]
  {}

  /** Line i, before the first empty line, is the last one marking chunk c. */
  predicate LastMark(lines: seq<LogLine>, chunk: nat, c: int, i: int)
  {
    0 <= i < StopAt(lines) && Marks(lines[i], chunk, c) && forall j :: i < j < StopAt(lines) ==> !Marks(lines[j], chunk, c)
  }

  /** No line before the first empty line marks chunk c. */
  predicate Unmarked(lines: seq<LogLine>, chunk: nat, c: int)
  {
    forall i :: 0 <= i < StopAt(lines) ==> !Marks(lines[i], chunk, c)
  }

  /** Dropping the first line of a log whose first line is not empty. */
  lemma MarksTail(lines: seq<LogLine>, chunk: nat, c: int)
    requires lines != [] && !lines[0].Blank?
    ensures forall i :: 1 <= i && LastMark(lines, chunk, c, i) ==> LastMark(lines[1..], chunk, c, i - 1)
    ensures LastMark(lines, chunk, c, 0) ==> Unmarked(lines[1..], chunk, c)
    ensures Unmarked(lines, chunk, c) ==> !Marks(lines[0], chunk, c) && Unmarked(lines[1..], chunk, c)
  {
    var tail := lines[1..];
    var n := StopAt(lines);
    assert StopAt(tail) == n - 1;
    assert forall j :: 0 <= j < n - 1 ==> tail[j] == lines[j + 1];
  }

  /**
   * TRIMs later in the log win: a chunk some line marks carries the time of the last
   * such line.
   */
  lemma {:induction false} LastTrimWins(lines: seq<LogLine>, chunk: nat, log: QemuLog)
    requires ParseLines(lines, chunk, log).Success?
    ensures forall c, i :: LastMark(lines, chunk, c, i) ==>
              c in ParseLines(lines, chunk, log).value.discard && ParseLines(lines, chunk, log).value.discard[c] == lines[i].time
    decreases |lines|
  {
    if lines != [] && !lines[0].Blank? {
      var next := ApplyLine(log, lines[0], chunk).value;
      var tail := lines[1..];
      LastTrimWins(tail, chunk, next);
      UnmarkedKept(tail, chunk, next);
      assert ParseLines(lines, chunk, log) == ParseLines(tail, chunk, next);
      forall c, i | LastMark(lines, chunk, c, i)
        ensures c in ParseLines(lines, chunk, log).value.discard && ParseLines(lines, chunk, log).value.discard[c] == lines[i].time
      {
        MarksTail(lines, chunk, c);
        if i > 0 {
          assert tail[i - 1] == lines[i];
          assert LastMark(tail, chunk, c, i - 1);
        } else {
          ApplyTrim(log, lines[0], chunk, c);
        }
      }
    }
  }

  /** A chunk no line marks keeps the time it had. */
  lemma {:induction false} UnmarkedKept(lines: seq<LogLine>, chunk: nat, log: QemuLog)
    requires ParseLines(lines, chunk, log).Success?
    ensures forall c :: c in log.discard && Unmarked(lines, chunk, c) ==>
              c in ParseLines(lines, chunk, log).value.discard && ParseLines(lines, chunk, log).value.discard[c] == log.discard[c]
    decreases |lines|
  {
    if lines != [] && !lines[0].Blank? {
      var next := ApplyLine(log, lines[0], chunk).value;
      var tail := lines[1..];
      UnmarkedKept(tail, chunk, next);
      assert ParseLines(lines, chunk, log) == ParseLines(tail, chunk, next);
      forall c | c in log.discard && Unmarked(lines, chunk, c)
        ensures c in ParseLines(lines, chunk, log).value.discard && ParseLines(lines, chunk, log).value.discard[c] == log.discard[c]
      {
        MarksTail(lines, chunk, c);
        ApplyTrim(log, lines[0], chunk, c);
      }
    }
  }

  /** A parse that succeeds records in dma_dict exactly the sectors some DMA line at a multiple of eight sectors names. */
  lemma {:induction false} ParsedDmas(lines: seq<LogLine>, chunk: nat, log: QemuLog)
    requires ParseLines(lines, chunk, log).Success?
    ensures var r := ParseLines(lines, chunk, log).value;
            forall s :: s in r.dma <==> s in log.dma || exists i :: 0 <= i < StopAt(lines) && Records(lines[i], s)
    decreases |lines|
  {
    if lines != [] && !lines[0].Blank? {
      var next := ApplyLine(log, lines[0], chunk).value;
      ParsedDmas(lines[1..], chunk, next);
      var n := StopAt(lines);
      var r := ParseLines(lines, chunk, log).value;
      assert r == ParseLines(lines[1..], chunk, next).value;
      forall s
        ensures s in r.dma <==> s in log.dma || exists i :: 0 <= i < n && Records(lines[i], s)
      {
        if exists i :: 1 <= i < n && Records(lines[i], s) {
          var i :| 1 <= i < n && Records(lines[i], s);
          assert lines[1..][i - 1] == lines[i];
        }
        if exists i :: 0 <= i < n - 1 && Records(lines[1..][i], s) {
          var i :| 0 <= i < n - 1 && Records(lines[1..][i], s);
          assert lines[1..][i] == lines[i + 1];
        }
      }
    }
  }

  /** The line after the last one read never changes what the log gives. */
  lemma LastLineIgnored(lines: seq<LogLine>, last: LogLine, other: LogLine, chunk: nat)
    ensures ParseQemuLog(Some(lines + [last]), chunk) == ParseQemuLog(Some(lines + [other]), chunk)
  {
    assert Complete(lines + [last]) == lines == Complete(lines + [other]);
  }
}
