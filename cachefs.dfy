/**
 * The FUSE operations of the caching filesystem (src/server/caching/fuse/fuse.c): mapping
 * a mount path to a store key, decoding the attribute blob into stat fields, and turning
 * store replies into FUSE return codes.
 */
module CacheFs {
  import opened Wrappers
  import opened Bytes
  import opened GLib
  import Redis

  const ENOENT: int := 2
  const EACCES: int := 13
  const O_RDONLY: int := 0

  /** The one served file and its content. */
  const HELLO_PATH: string := "/hello"
  const HELLO_STR: string := "Hello World!\n"

  /** convert_to_relpath: the store key of a mount path, under the prefix `root` (URL_ROOT). */
  function ConvertToRelpath(root: string, path: string): (r: string)
    ensures |r| >= |root| && r[..|root|] == root
    ensures path == "/" ==> |r| == |root|
    ensures path != "/" ==> r[|root|..] == path
  {
    if path == "/" then root else root + path
  }

  /** Distinct non-empty paths get distinct keys; in particular only "/" maps to the root itself. */
  lemma RelpathInjective(root: string, p: string, q: string)
    requires p != "" && q != ""
    ensures ConvertToRelpath(root, p) == ConvertToRelpath(root, q) ==> p == q
    ensures ConvertToRelpath(root, p) == root <==> p == "/"
  {
    var rp, rq := ConvertToRelpath(root, p), ConvertToRelpath(root, q);
    if rp == rq && p != "/" && q != "/" {
      assert p == rp[|root|..] && q == rq[|root|..];
    }
  }

  // ---------------------------------------------------------------- the attribute blob

  /** The fields the blob can name; IsLocal is the `exists` key, written to *is_local. */
  datatype Field = ATime | CTime | MTime | Mode | Gid | Uid | NLink | Size | IsLocal

  /** The key names strcmp recognises. */
  function KeyField(key: string): Option<Field>
  {
    if key == "atime" then Some(ATime)
    else if key == "ctime" then Some(CTime)
    else if key == "mtime" then Some(MTime)
    else if key == "mode" then Some(Mode)
    else if key == "gid" then Some(Gid)
    else if key == "uid" then Some(Uid)
    else if key == "nlink" then Some(NLink)
    else if key == "size" then Some(Size)
    else if key == "exists" then Some(IsLocal)
    else None
  }

  /**
   * The modelled fields of struct stat on x86-64 Linux: time_t and off_t are signed
   * 64-bit, mode_t, gid_t and uid_t unsigned 32-bit, nlink_t unsigned 64-bit.
   */
  datatype StatValue = StatValue(atime: int, ctime: int, mtime: int, mode: nat, gid: nat, uid: nat, nlink: nat, size: int)

  /** The buffer after memset(stbuf, 0, sizeof(struct stat)). */
  const ZeroStat: StatValue := StatValue(0, 0, 0, 0, 0, 0, 0, 0)

  /** The stat buffer together with *is_local. */
  datatype ParseState = ParseState(st: StatValue, local: bool)

  /** The value a field currently holds (is_local as 0 or 1). */
  function Get(s: ParseState, f: Field): int
  {
    match f
    case ATime => s.st.atime
    case CTime => s.st.ctime
    case MTime => s.st.mtime
    case Mode => s.st.mode
    case Gid => s.st.gid
    case Uid => s.st.uid
    case NLink => s.st.nlink
    case Size => s.st.size
    case IsLocal => if s.local then 1 else 0
  }

  /** What the C assignment of the guint64 v stores in field f (implicit conversion). */
  function Stored(f: Field, v: nat): (r: int)
    requires v < U64_LIMIT
    ensures f in {ATime, CTime, MTime, Size} ==> InI64(r) && I64ToU64(r) == v
    ensures f in {Mode, Gid, Uid} ==> 0 <= r < U32_LIMIT && r % U32_LIMIT == v % U32_LIMIT
    ensures f == NLink ==> r == v
    ensures f == IsLocal ==> (r == 1 <==> v != 0) && (r == 0 <==> v == 0)
  {
    match f
    case ATime => U64ToI64(v)
    case CTime => U64ToI64(v)
    case MTime => U64ToI64(v)
    case Size => U64ToI64(v)
    case Mode => v % U32_LIMIT
    case Gid => v % U32_LIMIT
    case Uid => v % U32_LIMIT
    case NLink => v
    case IsLocal => if v != 0 then 1 else 0
  }

  /** One assignment of the if/else-if chain: it sets its own field and no other. */
  function Assign(s: ParseState, f: Field, v: nat): (r: ParseState)
    requires v < U64_LIMIT
    ensures forall g :: Get(r, g) == if g == f then Stored(f, v) else Get(s, g)
  {
    match f
    case ATime => s.(st := s.st.(atime := U64ToI64(v)))
    case CTime => s.(st := s.st.(ctime := U64ToI64(v)))
    case MTime => s.(st := s.st.(mtime := U64ToI64(v)))
    case Size => s.(st := s.st.(size := U64ToI64(v)))
    case Mode => s.(st := s.st.(mode := v % U32_LIMIT))
    case Gid => s.(st := s.st.(gid := v % U32_LIMIT))
    case Uid => s.(st := s.st.(uid := v % U32_LIMIT))
    case NLink => s.(st := s.st.(nlink := v))
    case IsLocal => s.(local := v != 0)
  }

  /**
   * One comma-separated component: split at ':', the text before the first ':' is the
   * key, the text between the first and the second ':' the value.
   */
  function ParseComponent(c: string): (r: Option<(Field, nat)>)
    ensures r.Some? ==> r.value.1 < U64_LIMIT
    ensures r.Some? ==> |StrSplit(c, ':')| >= 2 && KeyField(StrSplit(c, ':')[0]) == Some(r.value.0) &&
                        StrToU64(StrSplit(c, ':')[1]) == Some(r.value.1)
  {
    var pieces := StrSplit(c, ':');
    if |pieces| < 2 then None
    else match StrToU64(pieces[1])
      case None => None
      case Some(v) =>
        match KeyField(pieces[0])
        case None => None
        case Some(f) => Some((f, v))
  }

  /** The loop over the components: it stops at the first bad one, keeping what was assigned. */
  function Fold(comps: seq<string>, s: ParseState): (bool, ParseState)
  {
    if comps == [] then (true, s)
    else match ParseComponent(comps[0])
      case None => (false, s)
      case Some((f, v)) => Fold(comps[1..], Assign(s, f, v))
  }

  /** parse_stinfo as a function of the blob and the incoming buffer and flag. */
  function Parse(buf: string, s: ParseState): (bool, ParseState)
  {
    Fold(StrSplit(buf, ','), s)
  }

  /** The value of the last component naming f, if any. */
  function LastAssigned(comps: seq<string>, f: Field): (r: Option<nat>)
    ensures r.Some? ==> r.value < U64_LIMIT
  {
    if comps == [] then None
    else
      var rest := LastAssigned(comps[1..], f);
      if rest.Some? then rest
      else match ParseComponent(comps[0])
        case Some((g, v)) => if g == f then Some(v) else None
        case None => None
  }

  /** parse_stinfo succeeds iff every component parses. */
  lemma {:induction false} FoldSucceeds(comps: seq<string>, s: ParseState)
    ensures Fold(comps, s).0 <==> forall i :: 0 <= i < |comps| ==> ParseComponent(comps[i]).Some?
  {
    if comps != [] {
      match ParseComponent(comps[0]) {
        case None =>
          assert !Fold(comps, s).0;
        case Some((f, v)) =>
          assert Fold(comps, s) == Fold(comps[1..], Assign(s, f, v));
          FoldSucceeds(comps[1..], Assign(s, f, v));
          assert forall i :: 1 <= i < |comps| ==> comps[i] == comps[1..][i - 1];
      }
    }
  }

  /**
   * After a successful parse every field holds the value of the last component naming it,
   * and a field no component names keeps its incoming value.
   */
  lemma {:induction false} FoldLastWins(comps: seq<string>, s: ParseState, f: Field)
    requires Fold(comps, s).0
    ensures Get(Fold(comps, s).1, f) ==
            if LastAssigned(comps, f).Some? then Stored(f, LastAssigned(comps, f).value) else Get(s, f)
  {
    if comps != [] {
      match ParseComponent(comps[0]) {
        case Some((g, v)) =>
          FoldLastWins(comps[1..], Assign(s, g, v), f);
      }
    }
  }

  /** An empty component, such as the one a trailing comma leaves, makes the parse fail. */
  lemma EmptyComponentFails()
    ensures ParseComponent("") == None
  {
  }

  /** A string free of the separator is one piece. */
  lemma NoSeparator(c: string, sep: char)
    requires sep !in c
    ensures SplitOn(c, sep) == [c]
  {
  }

  /** A component without ':' makes the parse fail. */
  lemma NoColonFails(c: string)
    requires ':' !in c
    ensures ParseComponent(c) == None
  {
    if c != "" {
      SplitOnHead(c, ':');
    }
  }

  /** An unrecognised key makes the parse fail. */
  lemma UnknownKeyFails(key: string, rest: string)
    requires ':' !in key && KeyField(key) == None
    ensures ParseComponent(key + ":" + rest) == None
  {
    SplitOnPrefix(key, ':', rest);
  }

  /** A value from which no number can be read (end == start) makes the parse fail. */
  lemma NoNumberFails(key: string, value: string)
    requires ':' !in key && ':' !in value && StrToU64(value) == None
    ensures ParseComponent(key + ":" + value) == None
  {
    SplitOnPrefix(key, ':', value);
    if value != "" {
      SplitOnHead(value, ':');
    }
  }

  /** Extra colons are ignored: only the text up to the second ':' is the value. */
  lemma ExtraColonsIgnored(key: string, value: string, rest: string)
    requires ':' !in key && ':' !in value
    ensures ParseComponent(key + ":" + value + ":" + rest) == ParseComponent(key + ":" + value)
  {
    var long, short := key + ":" + value + ":" + rest, key + ":" + value;
    assert long == key + [':'] + (value + [':'] + rest);
    SplitOnPrefix(key, ':', value + [':'] + rest);
    SplitOnPrefix(value, ':', rest);
    var pieces := StrSplit(long, ':');
    assert pieces == [key] + ([value] + SplitOn(rest, ':'));
    assert pieces[0] == key && pieces[1] == value;
    assert short == key + [':'] + value;
    SplitOnPrefix(key, ':', value);
    NoSeparator(value, ':');
    assert StrSplit(short, ':') == [key, value];
  }

  /** Text after the digits is ignored: "size:12abc" sets the size to 12. */
  lemma TrailingTextIgnored(digits: string, text: string)
    requires digits != [] && forall k :: 0 <= k < |digits| ==> IsDigit(digits[k])
    requires DecimalValue(digits) <= U64_MAX
    requires (text == [] || !IsDigit(text[0])) && ':' !in text
    ensures ParseComponent("size:" + digits + text) == Some((Size, DecimalValue(digits)))
  {
    assert "size:" + digits + text == "size:" + (digits + text);
    DigitsHaveNoColon(digits, text);
    StrToU64DigitsThenText(digits, text);
    SizeComponent(digits + text, DecimalValue(digits));
  }

  lemma SizeComponent(value: string, v: nat)
    requires ':' !in value && StrToU64(value) == Some(v)
    ensures ParseComponent("size:" + value) == Some((Size, v))
  {
    SizePieces(value);
    SizeKey();
    ComponentOf("size:" + value, "size", value, Size, v);
  }

  lemma DigitsHaveNoColon(digits: string, text: string)
    requires forall k :: 0 <= k < |digits| ==> IsDigit(digits[k])
    requires ':' !in text
    ensures ':' !in digits + text
  {
    var value := digits + text;
    forall k | 0 <= k < |value|
      ensures value[k] != ':'
    {
      if k < |digits| {
        assert value[k] == digits[k];
      } else {
        assert value[k] == text[k - |digits|];
      }
    }
  }

  lemma SizePieces(value: string)
    requires ':' !in value
    ensures StrSplit("size:" + value, ':') == ["size", value]
  {
    assert "size:" + value == "size" + [':'] + value;
    SplitOnPrefix("size", ':', value);
    NoSeparator(value, ':');
  }

  lemma SizeKey()
    ensures KeyField("size") == Some(Size)
  {
  }

  /** A component that splits into a known key and a number assigns that number to the key's field. */
  lemma ComponentOf(c: string, key: string, value: string, f: Field, v: nat)
    requires StrSplit(c, ':') == [key, value] && KeyField(key) == Some(f) && StrToU64(value) == Some(v)
    ensures ParseComponent(c) == Some((f, v))
  {
  }

  /** A blob ending in a comma is rejected. */
  lemma TrailingCommaFails(s: ParseState)
    ensures !Parse("size:1,", s).0
  {
    SplitOnPrefix("size:1", ',', "");
    assert "size:1," == "size:1" + "," + "";
    FoldSucceeds(StrSplit("size:1,", ','), s);
    EmptyComponentFails();
    assert StrSplit("size:1,", ',')[1] == "";
  }

  /** The stat buffer: the fields parse_stinfo and do_getattr write. */
  class Stat {
    var atime: int
    var ctime: int
    var mtime: int
    var mode: nat
    var gid: nat
    var uid: nat
    var nlink: nat
    var size: int

    constructor ()
      ensures Value() == ZeroStat
    {
      atime, ctime, mtime, mode, gid, uid, nlink, size := 0, 0, 0, 0, 0, 0, 0, 0;
    }

    function Value(): StatValue
      reads this
    {
      StatValue(atime, ctime, mtime, mode, gid, uid, nlink, size)
    }

    /** memset(stbuf, 0, sizeof(struct stat)). */
    method Clear()
      modifies this
      ensures Value() == ZeroStat
    {
      atime, ctime, mtime, mode, gid, uid, nlink, size := 0, 0, 0, 0, 0, 0, 0, 0;
    }
  }

  /** The strcmp chain of parse_stinfo: store v in the field `key` names, if it names one. */
  method AssignKey(stbuf: Stat, key: string, v: nat, isLocal: bool) returns (known: bool, isLocal': bool)
    requires v < U64_LIMIT
    modifies stbuf
    ensures known <==> KeyField(key).Some?
    ensures known ==> ParseState(stbuf.Value(), isLocal') == Assign(ParseState(old(stbuf.Value()), isLocal), KeyField(key).value, v)
    ensures !known ==> stbuf.Value() == old(stbuf.Value()) && isLocal' == isLocal
  {
    known, isLocal' := true, isLocal;
    if key == "atime" {
      stbuf.atime := U64ToI64(v);
    } else if key == "ctime" {
      stbuf.ctime := U64ToI64(v);
    } else if key == "mtime" {
      stbuf.mtime := U64ToI64(v);
    } else if key == "mode" {
      stbuf.mode := v % U32_LIMIT;
    } else if key == "gid" {
      stbuf.gid := v % U32_LIMIT;
    } else if key == "uid" {
      stbuf.uid := v % U32_LIMIT;
    } else if key == "nlink" {
      stbuf.nlink := v;
    } else if key == "size" {
      stbuf.size := U64ToI64(v);
    } else if key == "exists" {
      isLocal' := v != 0;
    } else {
      known := false;
    }
  }

  /** parse_stinfo(buf, is_local, stbuf): the loop over the components, assigning in place. */
  method ParseStinfo(buf: string, isLocal: bool, stbuf: Stat) returns (ok: bool, isLocal': bool)
    modifies stbuf
    ensures (ok, ParseState(stbuf.Value(), isLocal')) == Parse(buf, ParseState(old(stbuf.Value()), isLocal))
  {
    var components := StrSplit(buf, ',');
    isLocal' := isLocal;
    var i := 0;
    while i < |components|
      invariant 0 <= i <= |components|
      invariant Fold(components[i..], ParseState(stbuf.Value(), isLocal')) == Parse(buf, ParseState(old(stbuf.Value()), isLocal))
    {
      var cur := components[i];
      ghost var before := ParseState(stbuf.Value(), isLocal');
      assert components[i..][0] == cur && components[i..][1..] == components[i + 1..];
      var eachStinfo := StrSplit(cur, ':');
      if |eachStinfo| < 2 {
        return false, isLocal';
      }
      var value := StrToU64(eachStinfo[1]);
      if value.None? {
        return false, isLocal';
      }
      var known;
      known, isLocal' := AssignKey(stbuf, eachStinfo[0], value.value, isLocal');
      if !known {
        return false, isLocal';
      }
      assert ParseComponent(cur) == Some((KeyField(eachStinfo[0]).value, value.value));
      assert Fold(components[i..], before) == Fold(components[i + 1..], ParseState(stbuf.Value(), isLocal'));
      i := i + 1;
    }
    ok := true;
  }

  // ---------------------------------------------------------------- FUSE operations

  /** A FUSE callback's effect: a return code, the unfinished fetch branch, or a crash. */
  datatype FsResult = Ret(rc: int) | NeedsFetch | Crash

  /** The initial state do_getattr parses into: a zeroed buffer, is_local false. */
  const InitState: ParseState := ParseState(ZeroStat, false)

  /** The attribute blob a GET reply hands to do_getattr, or None for a NULL ret_buf. */
  predicate BlobParses(reply: Redis.Reply)
  {
    reply.Str? && |reply.s| > 0 && Parse(reply.s, InitState).0
  }

  /**
   * do_getattr as a function of whether the client is connected and the reply to its
   * GET: the outcome and the final stat buffer.
   */
  function Getattr(connected: bool, reply: Option<Redis.Reply>): (r: (FsResult, StatValue))
    ensures r.0 == Crash <==> connected && reply.None?
    ensures r.0 == Ret(-ENOENT) <==> !connected || (reply.Some? && !BlobParses(reply.value))
    ensures r.0 == Ret(0) <==> connected && reply.Some? && BlobParses(reply.value) && Parse(reply.value.s, InitState).1.local
    ensures r.0 == NeedsFetch <==> connected && reply.Some? && BlobParses(reply.value) && !Parse(reply.value.s, InitState).1.local
    ensures r.0 in {Ret(0), NeedsFetch} ==> r.1 == Parse(reply.value.s, InitState).1.st
  {
    if !connected then (Ret(-ENOENT), ZeroStat)
    else if reply.None? then (Crash, ZeroStat)
    else match Redis.AttrBuffer(reply.value, None)
      case None => (Ret(-ENOENT), ZeroStat)
      case Some(b) =>
        var (ok, ps) := Parse(b, InitState);
        if !ok then (Ret(-ENOENT), ps.st)
        else if ps.local then (Ret(0), ps.st)
        else (NeedsFetch, ps.st)
  }

  /** Every stat field the blob does not name is 0 after a getattr that reached the blob. */
  lemma GetattrUnnamedZero(connected: bool, reply: Option<Redis.Reply>, f: Field)
    requires Getattr(connected, reply).0 in {Ret(0), NeedsFetch}
    requires f != IsLocal && LastAssigned(StrSplit(reply.value.s, ','), f) == None
    ensures Get(ParseState(Getattr(connected, reply).1, false), f) == 0
  {
    FoldLastWins(StrSplit(reply.value.s, ','), InitState, f);
  }

  /** do_getattr(path, stbuf). */
  method DoGetattr(client: Redis.RedisHandler, root: string, path: string, stbuf: Stat) returns (r: FsResult)
    modifies stbuf
    ensures (r, stbuf.Value()) ==
            Getattr(client.CheckConnection(), client.Command(Redis.Get(Redis.AttrKey(ConvertToRelpath(root, path)))))
  {
    var relPath := ConvertToRelpath(root, path);
    stbuf.Clear();
    var rc: Redis.CallResult;
    var retBuf: Option<string>;
    ghost var sent: seq<Redis.Command>;
    rc, retBuf, sent := client.GetAttr(relPath, None);
    if rc.Crashed? {
      return Crash;
    }
    if rc != Redis.Returned(Redis.EXIT_SUCCESS) {
      return Ret(-ENOENT);
    }
    if retBuf.None? {
      return Ret(-ENOENT);
    }
    var ok, isLocal := ParseStinfo(retBuf.value, false, stbuf);
    if !ok {
      return Ret(-ENOENT);
    }
    if isLocal {
      return Ret(0);
    }
    return NeedsFetch;
  }

  /** do_readdir as a function: the names handed to filler, and the outcome. */
  function Readdir(connected: bool, reply: Option<Redis.Reply>): (r: (FsResult, seq<string>))
    ensures |r.1| >= 2 && r.1[..2] == [".", ".."]
    ensures r.0 == Crash <==> connected && reply.None?
    ensures r.0 == Ret(-ENOENT) <==> !connected
    ensures r.0 == Ret(0) <==> connected && reply.Some?
    ensures r.0 == Ret(0) ==> reply.Some? && r.1[2..] == Redis.ListAfter(reply.value, [])
    ensures r.0 != Ret(0) ==> r.1 == [".", ".."]
  {
    if !connected then (Ret(-ENOENT), [".", ".."])
    else if reply.None? then (Crash, [".", ".."])
    else (Ret(0), [".", ".."] + Redis.ListAfter(reply.value, []))
  }

  /** The loop of do_readdir: filler is called once per name, in list order. */
  method FillNames(filled: seq<string>, names: seq<string>) returns (r: seq<string>)
    ensures r == filled + names
  {
    r := filled;
    var i := 0;
    while i < |names|
      invariant 0 <= i <= |names|
      invariant r == filled + names[..i]
    {
      r := r + [names[i]];
      i := i + 1;
    }
    assert names[..|names|] == names;
  }

  /** do_readdir(path, buf, filler): `filled` lists the names passed to filler, in order. */
  method DoReaddir(client: Redis.RedisHandler, root: string, path: string) returns (r: FsResult, filled: seq<string>)
    ensures (r, filled) == Readdir(client.CheckConnection(), client.Command(Redis.LRangeAll(Redis.ListKey(ConvertToRelpath(root, path)))))
  {
    var relPath := ConvertToRelpath(root, path);
    filled := [".", ".."];
    var rc: Redis.CallResult;
    var dirlist: seq<string>;
    ghost var sent: seq<Redis.Command>;
    ghost var connected := client.CheckConnection();
    ghost var reply := client.Command(Redis.LRangeAll(Redis.ListKey(relPath)));
    rc, dirlist, sent := client.GetReaddir(relPath, []);
    if rc.Crashed? {
      assert connected && reply.None?;
      return Crash, filled;
    }
    if rc == Redis.Returned(Redis.EXIT_SUCCESS) {
      assert connected && reply.Some?;
      assert dirlist == Redis.ListAfter(reply.value, []);
      filled := FillNames(filled, dirlist);
      return Ret(0), filled;
    }
    assert !connected;
    return Ret(-ENOENT), filled;
  }

  /**
   * do_open(path, fi): the path is checked before the access mode. The access mode is
   * flags & 3, which on two's complement ints is the Euclidean remainder modulo 4.
   */
  function DoOpen(path: string, flags: int): (r: int)
    ensures r in {0, -ENOENT, -EACCES}
    ensures r == 0 <==> path == HELLO_PATH && flags % 4 == O_RDONLY
    ensures path != HELLO_PATH ==> r == -ENOENT
    ensures r == -EACCES <==> path == HELLO_PATH && flags % 4 != O_RDONLY
  {
    if path != HELLO_PATH then -ENOENT
    else if flags % 4 != O_RDONLY then -EACCES
    else 0
  }

  /** A read yields the bytes copied, an error code, or a memcpy past the end of the string. */
  datatype ReadResult = Copied(data: string) | Failed(rc: int) | Overrun

  /**
   * do_read(path, buf, size, offset) over `content` (the served string up to its NUL).
   * `offset < len` compares the off_t converted to size_t, so a negative offset reads
   * nothing; `offset + size` wraps modulo 2^64, and a wrapped sum skips the clamp.
   */
  function DoRead(path: string, content: string, size: nat, offset: int): (r: ReadResult)
    requires size < U64_LIMIT && InI64(offset)
    requires |content| < 0x8000_0000_0000_0000
    ensures path != HELLO_PATH <==> r == Failed(-ENOENT)
    ensures r == Overrun <==> path == HELLO_PATH && 0 <= offset < |content| && offset + size >= U64_LIMIT
    ensures r.Copied? ==> |r.data| <= size
    ensures r.Copied? && (offset < 0 || offset >= |content|) ==> r.data == []
    ensures r.Copied? && 0 <= offset < |content| ==> offset + |r.data| <= |content| && r.data == content[offset..offset + |r.data|]
  {
    if path != HELLO_PATH then Failed(-ENOENT)
    else
      var len := |content|;
      var off := I64ToU64(offset);
      if off < len then
        if (off + size) % U64_LIMIT > len then Copied(content[off..])
        else if off + size >= U64_LIMIT then Overrun
        else Copied(content[off..off + size])
      else Copied([])
  }

  /** Absent wrap-around, a read returns exactly min(size, len - offset) bytes from the offset. */
  lemma DoReadCopiesMin(content: string, size: nat, offset: int)
    requires size < U64_LIMIT && InI64(offset) && offset + size < U64_LIMIT
    requires |content| < 0x8000_0000_0000_0000
    ensures DoRead(HELLO_PATH, content, size, offset) ==
            if 0 <= offset < |content| then Copied(content[offset..if offset + size < |content| then offset + size else |content|])
            else Copied([])
  {
    if offset < 0 {
      assert I64ToU64(offset) >= 0x8000_0000_0000_0000;
    }
  }

  /** The wrap-around: a huge size at a small offset skips the clamp. */
  lemma DoReadWraps()
    ensures DoRead(HELLO_PATH, HELLO_STR, U64_LIMIT - 1, 1) == Overrun
  {
  }
}
