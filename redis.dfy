/**
 * The key-value store client of the caching filesystem (src/server/caching/fuse/redis.c):
 * one process-wide handle, three commands, and what each command's reply makes of the
 * caller's out-parameter and of the return code.
 */
module Redis {
  import opened Wrappers

  const EXIT_SUCCESS: int := 0
  const EXIT_FAILURE: int := 1

  /** The attribute blob of a path is stored under the path followed by U+03B1 (alpha). */
  function AttrKey(path: string): string { path + "\U{03B1}" }

  /** The directory listing of a path is stored under the path followed by U+03B2 (beta). */
  function ListKey(path: string): string { path + "\U{03B2}" }

  /** The reply kinds of the Redis protocol. */
  datatype Reply = Nil | Str(s: string) | Integer(n: int) | Array(elements: seq<Reply>) | Status(s: string) | Error(s: string)

  /** What the store holds under a key. */
  datatype Value = StrValue(s: string) | ListValue(items: seq<string>)

  type Store = map<string, Value>

  /** The three command shapes: "GET k", "LRANGE k 0 -1", "EXISTS k". */
  datatype Command = Get(key: string) | LRangeAll(key: string) | Exists(key: string)

  /** The reply the store gives to a command. */
  function Respond(store: Store, cmd: Command): (r: Reply)
    ensures cmd.Exists? ==> r == Integer(if cmd.key in store then 1 else 0)
    ensures cmd.Get? && cmd.key !in store ==> r == Nil
    ensures cmd.LRangeAll? && cmd.key !in store ==> r == Array([])
  {
    match cmd
    case Get(k) =>
      if k !in store then Nil
      else (match store[k] case StrValue(s) => Str(s) case ListValue(_) => Error("WRONGTYPE"))
    case LRangeAll(k) =>
      if k !in store then Array([])
      else (match store[k] case ListValue(xs) => Array(seq(|xs|, i requires 0 <= i < |xs| => Str(xs[i]))) case StrValue(_) => Error("WRONGTYPE"))
    case Exists(k) => Integer(if k in store then 1 else 0)
  }

  /** What a C caller gets back: a return code, or a crash of the process. */
  datatype CallResult = Returned(rc: int) | Crashed

  /**
   * redisCommand's reply is dereferenced (reply->type) before check_redis_return tests it
   * for NULL, so a missing reply crashes the process; any reply object, whatever its
   * type, makes the call succeed.
   */
  function ReturnCode(reply: Option<Reply>): (r: CallResult)
    ensures r == Returned(EXIT_SUCCESS) <==> reply.Some?
    ensures r == Crashed <==> reply.None?
  {
    if reply.None? then Crashed else Returned(EXIT_SUCCESS)
  }

  /**
   * The text g_strndup copies out of one element of an array reply. An element that is
   * not a string would append g_strndup(NULL, 0), a NULL pointer, to the list; such an
   * element is mapped to "" here, and the LRANGE replies of the store in this model only
   * hold string elements, so it never arises.
   */
  function ElementText(r: Reply): string
  {
    match r
    case Str(s) => s
    case Status(s) => s
    case Error(s) => s
    case _ => ""
  }

  /** *ret_buf after _redis_get_attr: set only from a non-empty string reply. */
  function AttrBuffer(reply: Reply, buf: Option<string>): (r: Option<string>)
    ensures reply.Str? && |reply.s| > 0 ==> r == Some(reply.s)
    ensures !(reply.Str? && |reply.s| > 0) ==> r == buf
  {
    if reply.Str? && |reply.s| > 0 then Some(reply.s) else buf
  }

  /** *is_exists after _redis_file_exists: set only from an integer reply. */
  function ExistsFlag(reply: Reply, isExists: bool): (r: bool)
    ensures reply.Integer? ==> (r <==> reply.n == 1)
    ensures !reply.Integer? ==> r == isExists
  {
    if reply.Integer? then reply.n == 1 else isExists
  }

  /** *ret_list after _redis_get_readdir: every element appended in order, only for an array reply. */
  function ListAfter(reply: Reply, list: seq<string>): (r: seq<string>)
    ensures reply.Array? ==> |r| == |list| + |reply.elements| && r[..|list|] == list &&
                             forall i :: 0 <= i < |reply.elements| ==> r[|list| + i] == ElementText(reply.elements[i])
    ensures !reply.Array? ==> r == list
  {
    if reply.Array? then list + seq(|reply.elements|, i requires 0 <= i < |reply.elements| => ElementText(reply.elements[i]))
    else list
  }

  /**
   * The global `handle`: whether it and its connection exist, the store at the other end
   * and whether the transport delivers a reply (false: I/O error, EOF or timeout, for
   * which redisCommand returns NULL). The mutex is left out: each call is atomic.
   */
  class RedisHandler {
    var hasHandle: bool
    var hasConn: bool
    var store: Store
    var linkUp: bool

    constructor (hasHandle: bool, hasConn: bool, store: Store, linkUp: bool)
      ensures this.hasHandle == hasHandle && this.hasConn == hasConn
      ensures this.store == store && this.linkUp == linkUp
    {
      this.hasHandle := hasHandle;
      this.hasConn := hasConn;
      this.store := store;
      this.linkUp := linkUp;
    }

    /** check_connection: both the handle and its connection exist. */
    predicate CheckConnection()
      reads this
    {
      hasHandle && hasConn
    }

    /** What redisCommand returns for cmd: the store's reply, or NULL when the transport fails. */
    function Command(cmd: Command): (r: Option<Reply>)
      reads this
      ensures linkUp ==> r == Some(Respond(store, cmd))
      ensures !linkUp ==> r == None
    {
      if linkUp then Some(Respond(store, cmd)) else None
    }

    /** _redis_file_exists(path, is_exists): `sent` lists the commands issued. */
    method FileExists(path: string, isExists: bool) returns (r: CallResult, isExists': bool, ghost sent: seq<Command>)
      ensures !CheckConnection() ==> r == Returned(EXIT_FAILURE) && isExists' == isExists && sent == []
      ensures CheckConnection() ==> sent == [Exists(AttrKey(path))]
      ensures CheckConnection() ==> r == ReturnCode(Command(Exists(AttrKey(path))))
      ensures CheckConnection() && r.Returned? ==> isExists' == ExistsFlag(Command(Exists(AttrKey(path))).value, isExists)
      ensures r.Crashed? || isExists' == isExists || r == Returned(EXIT_SUCCESS)
    {
      isExists' := isExists;
      if !CheckConnection() {
        return Returned(EXIT_FAILURE), isExists', [];
      }
      var cmd := Exists(AttrKey(path));
      sent := [cmd];
      var reply := Command(cmd);
      if reply.None? {
        return Crashed, isExists', sent;
      }
      if reply.value.Integer? {
        isExists' := reply.value.n == 1;
      }
      r := ReturnCode(reply);
    }

    /** _redis_get_attr(path, ret_buf): None stands for a NULL *ret_buf. */
    method GetAttr(path: string, buf: Option<string>) returns (r: CallResult, buf': Option<string>, ghost sent: seq<Command>)
      ensures !CheckConnection() ==> r == Returned(EXIT_FAILURE) && buf' == buf && sent == []
      ensures CheckConnection() ==> sent == [Get(AttrKey(path))]
      ensures CheckConnection() ==> r == ReturnCode(Command(Get(AttrKey(path))))
      ensures CheckConnection() && r.Returned? ==> buf' == AttrBuffer(Command(Get(AttrKey(path))).value, buf)
    {
      buf' := buf;
      if !CheckConnection() {
        return Returned(EXIT_FAILURE), buf', [];
      }
      var cmd := Get(AttrKey(path));
      sent := [cmd];
      var reply := Command(cmd);
      if reply.None? {
        return Crashed, buf', sent;
      }
      if reply.value.Str? && |reply.value.s| > 0 {
        buf' := Some(reply.value.s);
      }
      r := ReturnCode(reply);
    }

    /** _redis_get_readdir(path, ret_list): appends the elements of an array reply one by one. */
    method GetReaddir(path: string, list: seq<string>) returns (r: CallResult, list': seq<string>, ghost sent: seq<Command>)
      ensures !CheckConnection() ==> r == Returned(EXIT_FAILURE) && list' == list && sent == []
      ensures CheckConnection() ==> sent == [LRangeAll(ListKey(path))]
      ensures CheckConnection() ==> r == ReturnCode(Command(LRangeAll(ListKey(path))))
      ensures CheckConnection() && r.Returned? ==> list' == ListAfter(Command(LRangeAll(ListKey(path))).value, list)
    {
      list' := list;
      if !CheckConnection() {
        return Returned(EXIT_FAILURE), list', [];
      }
      var cmd := LRangeAll(ListKey(path));
      sent := [cmd];
      var reply := Command(cmd);
      if reply.None? {
        return Crashed, list', sent;
      }
      if reply.value.Array? {
        var elements := reply.value.elements;
        var i := 0;
        while i < |elements|
          invariant 0 <= i <= |elements|
          invariant list' == list + seq(i, k requires 0 <= k < i => ElementText(elements[k]))
        {
          list' := list' + [ElementText(elements[i])];
          i := i + 1;
        }
      }
      r := ReturnCode(reply);
    }
  }

  /** A path absent from the store still makes GET succeed, with *ret_buf left as it was. */
  lemma AbsentAttrSucceeds(store: Store, path: string, buf: Option<string>)
    requires AttrKey(path) !in store
    ensures ReturnCode(Some(Respond(store, Get(AttrKey(path))))) == Returned(EXIT_SUCCESS)
    ensures AttrBuffer(Respond(store, Get(AttrKey(path))), buf) == buf
  {
  }

  /** The attribute key and the list key of two paths never coincide. */
  lemma {:induction false} KeysDistinct(p: string, q: string)
    ensures AttrKey(p) != ListKey(q)
    ensures AttrKey(p) == AttrKey(q) ==> p == q
    ensures ListKey(p) == ListKey(q) ==> p == q
  {
    assert AttrKey(p)[|AttrKey(p)| - 1] == '\U{03B1}';
    if |AttrKey(p)| == |ListKey(q)| {
      assert ListKey(q)[|ListKey(q)| - 1] == '\U{03B2}';
    }
    if AttrKey(p) == AttrKey(q) {
      assert p == AttrKey(p)[..|p|] && q == AttrKey(q)[..|q|];
    }
    if ListKey(p) == ListKey(q) {
      assert p == ListKey(p)[..|p|] && q == ListKey(q)[..|q|];
    }
  }
}
