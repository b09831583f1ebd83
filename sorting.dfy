/**
 * Python's list.sort(key=...) over the keys the core sorts by. Keys are flattened to
 * sequences of integers compared lexicographically, the way Python compares tuples and
 * byte strings. The sort is an insertion sort; what is proved of it is that it returns a
 * permutation of its input ordered by the key.
 */
module Sorting {
  import opened Wrappers
  import opened Bytes

  /** Lexicographic order on integer sequences (a proper prefix comes first). */
  predicate LexLe(a: seq<int>, b: seq<int>)
    decreases |a|
  {
    a == [] || (b != [] && (a[0] < b[0] || (a[0] == b[0] && LexLe(a[1..], b[1..]))))
  }

  lemma {:induction false} LexLeTotal(a: seq<int>, b: seq<int>)
    ensures LexLe(a, b) || LexLe(b, a)
    decreases |a|
  {
    if a != [] && b != [] && a[0] == b[0] {
      LexLeTotal(a[1..], b[1..]);
    }
  }

  lemma {:induction false} LexLeTrans(a: seq<int>, b: seq<int>, c: seq<int>)
    requires LexLe(a, b) && LexLe(b, c)
    ensures LexLe(a, c)
    decreases |a|
  {
    if a != [] && a[0] == b[0] && b[0] == c[0] {
      LexLeTrans(a[1..], b[1..], c[1..]);
    }
  }

  lemma {:induction false} LexLeAntisym(a: seq<int>, b: seq<int>)
    requires LexLe(a, b) && LexLe(b, a)
    ensures a == b
    decreases |a|
  {
    if a != [] {
      LexLeAntisym(a[1..], b[1..]);
      assert a == [a[0]] + a[1..] && b == [b[0]] + b[1..];
    }
  }

  lemma LexLePair(a: int, b: int, c: int, d: int)
    ensures LexLe([a, b], [c, d]) <==> a < c || (a == c && b <= d)
  {
    assert [a, b][1..] == [b] && [c, d][1..] == [d];
    assert [b][1..] == [] && [d][1..] == [];
    assert LexLe([b], [d]) <==> b <= d;
  }

  ghost predicate SortedBy<T>(s: seq<T>, key: T -> seq<int>)
  {
    forall i, j :: 0 <= i < j < |s| ==> LexLe(key(s[i]), key(s[j]))
  }

  /** Inserts x after every element whose key is at most x's key. */
  function InsertBy<T>(x: T, s: seq<T>, key: T -> seq<int>): (r: seq<T>)
    ensures multiset(r) == multiset(s) + multiset{x}
    ensures |r| == |s| + 1
  {
    if s == [] then [x]
    else if LexLe(key(s[0]), key(x)) then
      assert s == [s[0]] + s[1..];
      [s[0]] + InsertBy(x, s[1..], key)
    else [x] + s
  }

  lemma {:induction false} InsertBySorted<T>(x: T, s: seq<T>, key: T -> seq<int>)
    requires SortedBy(s, key)
    ensures SortedBy(InsertBy(x, s, key), key)
  {
    if s != [] {
      if LexLe(key(s[0]), key(x)) {
        var t := InsertBy(x, s[1..], key);
        SortedTail(s, key);
        InsertBySorted(x, s[1..], key);
        InsertByAbove(x, s[1..], key, key(s[0]));
        ConsSorted(s[0], t, key);
      } else {
        LexLeTotal(key(s[0]), key(x));
        forall j | 0 <= j < |s| ensures LexLe(key(x), key(s[j])) {
          if j > 0 {
            LexLeTrans(key(x), key(s[0]), key(s[j]));
          }
        }
        ConsSorted(x, s, key);
      }
    }
  }

  /** The tail of a sorted sequence is sorted and bounded below by its head. */
  lemma SortedTail<T>(s: seq<T>, key: T -> seq<int>)
    requires s != [] && SortedBy(s, key)
    ensures SortedBy(s[1..], key)
    ensures forall k :: 0 <= k < |s[1..]| ==> LexLe(key(s[0]), key(s[1..][k]))
  {
    forall i, j | 0 <= i < j < |s[1..]| ensures LexLe(key(s[1..][i]), key(s[1..][j])) {
      assert s[1..][i] == s[i + 1] && s[1..][j] == s[j + 1];
    }
    forall k | 0 <= k < |s[1..]| ensures LexLe(key(s[0]), key(s[1..][k])) {
      assert s[1..][k] == s[k + 1];
    }
  }

  /** A head at most every key of a sorted sequence keeps it sorted. */
  lemma ConsSorted<T>(a: T, t: seq<T>, key: T -> seq<int>)
    requires SortedBy(t, key)
    requires forall k :: 0 <= k < |t| ==> LexLe(key(a), key(t[k]))
    ensures SortedBy([a] + t, key)
  {
    var r := [a] + t;
    forall i, j | 0 <= i < j < |r| ensures LexLe(key(r[i]), key(r[j])) {
      assert r[j] == t[j - 1];
      if i > 0 {
        assert r[i] == t[i - 1];
      }
    }
  }

  /** A lower bound of x and of every key of s bounds every key after the insertion. */
  lemma {:induction false} InsertByAbove<T>(x: T, s: seq<T>, key: T -> seq<int>, lo: seq<int>)
    requires LexLe(lo, key(x)) && forall k :: 0 <= k < |s| ==> LexLe(lo, key(s[k]))
    ensures forall k :: 0 <= k < |InsertBy(x, s, key)| ==> LexLe(lo, key(InsertBy(x, s, key)[k]))
  {
    if s != [] && LexLe(key(s[0]), key(x)) {
      forall k | 0 <= k < |s[1..]| ensures LexLe(lo, key(s[1..][k])) {
        assert s[1..][k] == s[k + 1];
      }
      InsertByAbove(x, s[1..], key, lo);
      var r := InsertBy(x, s, key);
      assert r == [s[0]] + InsertBy(x, s[1..], key);
      forall k | 0 <= k < |r| ensures LexLe(lo, key(r[k])) {
        if k > 0 {
          assert r[k] == InsertBy(x, s[1..], key)[k - 1];
        }
      }
    } else if s != [] {
      var r := InsertBy(x, s, key);
      assert r == [x] + s;
      forall k | 0 <= k < |r| ensures LexLe(lo, key(r[k])) {
        if k > 0 {
          assert r[k] == s[k - 1];
        }
      }
    }
  }

  /** The stable sort of s by key. */
  function SortBy<T>(s: seq<T>, key: T -> seq<int>): (r: seq<T>)
    ensures multiset(r) == multiset(s)
    ensures |r| == |s|
  {
    if s == [] then []
    else
      assert s == s[..|s| - 1] + [s[|s| - 1]];
      InsertBy(s[|s| - 1], SortBy(s[..|s| - 1], key), key)
  }

  lemma {:induction false} SortBySorted<T>(s: seq<T>, key: T -> seq<int>)
    ensures SortedBy(SortBy(s, key), key)
  {
    if s != [] {
      SortBySorted(s[..|s| - 1], key);
      InsertBySorted(s[|s| - 1], SortBy(s[..|s| - 1], key), key);
    }
  }

  /**
   * Order-preserving flattening of an optional byte string: None sorts first (as in
   * Python 2), each byte b becomes b + 1 and a terminating 0 makes the code prefix-free,
   * so a key made of a hash followed by further fields compares like the Python tuple.
   */
  function EncBytes(s: seq<byte>): (r: seq<int>)
    ensures r != []
  {
    if s == [] then [0] else [s[0] as int + 1] + EncBytes(s[1..])
  }

  function HashKey(h: Option<seq<byte>>): (r: seq<int>)
    ensures r != []
  {
    match h
    case None => [-1]
    case Some(s) => EncBytes(s)
  }

  /** Python 2's `a < b` between two hash values (None or byte strings). */
  predicate HashLt(a: Option<seq<byte>>, b: Option<seq<byte>>)
  {
    a != b && LexLe(HashKey(a), HashKey(b))
  }

  lemma {:induction false} EncBytesAppend(s: seq<byte>, t: seq<byte>, x: seq<int>, y: seq<int>)
    ensures LexLe(EncBytes(s) + x, EncBytes(t) + y) <==>
            (if s == t then LexLe(x, y) else LexLe(EncBytes(s), EncBytes(t)))
  {
    var u, v := EncBytes(s) + x, EncBytes(t) + y;
    if s == [] && t == [] {
      assert u == [0] + x && v == [0] + y;
      assert u[1..] == x && v[1..] == y;
    } else if s == [] || t == [] {
    } else {
      assert u[0] == s[0] as int + 1 && v[0] == t[0] as int + 1;
      assert u[1..] == EncBytes(s[1..]) + x && v[1..] == EncBytes(t[1..]) + y;
      EncBytesAppend(s[1..], t[1..], x, y);
      if s[0] == t[0] {
        assert s == [s[0]] + s[1..] && t == [t[0]] + t[1..];
      }
    }
  }

  /** A key that starts with a hash compares like the tuple (hash, rest). */
  lemma HashKeyAppend(a: Option<seq<byte>>, b: Option<seq<byte>>, x: seq<int>, y: seq<int>)
    ensures LexLe(HashKey(a) + x, HashKey(b) + y) <==> HashLt(a, b) || (a == b && LexLe(x, y))
  {
    var u, v := HashKey(a) + x, HashKey(b) + y;
    match a {
      case None =>
        if b == None {
          assert u == [-1] + x && v == [-1] + y;
          assert u[1..] == x && v[1..] == y;
        }
      case Some(s) =>
        if b.Some? {
          EncBytesAppend(s, b.value, x, y);
        }
    }
  }

  lemma {:induction false} EncBytesInjective(s: seq<byte>, t: seq<byte>)
    ensures EncBytes(s) == EncBytes(t) ==> s == t
  {
    if s != [] && t != [] && EncBytes(s) == EncBytes(t) {
      assert EncBytes(s)[1..] == EncBytes(s[1..]) && EncBytes(t)[1..] == EncBytes(t[1..]);
      EncBytesInjective(s[1..], t[1..]);
      assert s == [s[0]] + s[1..] && t == [t[0]] + t[1..];
    }
  }

  lemma HashKeyInjective(a: Option<seq<byte>>, b: Option<seq<byte>>)
    ensures HashKey(a) == HashKey(b) ==> a == b
  {
    if a.Some? && b.Some? {
      EncBytesInjective(a.value, b.value);
    }
  }

  lemma HashLtTrichotomy(a: Option<seq<byte>>, b: Option<seq<byte>>)
    ensures HashLt(a, b) || a == b || HashLt(b, a)
    ensures !(HashLt(a, b) && HashLt(b, a))
  {
    LexLeTotal(HashKey(a), HashKey(b));
    if LexLe(HashKey(a), HashKey(b)) && LexLe(HashKey(b), HashKey(a)) {
      LexLeAntisym(HashKey(a), HashKey(b));
      HashKeyInjective(a, b);
    }
  }

  /** Key order on hashes is "less than or equal" in Python 2's order. */
  lemma HashLeKey(a: Option<seq<byte>>, b: Option<seq<byte>>)
    ensures LexLe(HashKey(a), HashKey(b)) <==> HashLt(a, b) || a == b
  {
    HashKeyAppend(a, b, [], []);
    assert HashKey(a) + [] == HashKey(a) && HashKey(b) + [] == HashKey(b);
  }

  /** Chains of hash comparisons with at least one strict step are strict. */
  lemma HashLtTrans(a: Option<seq<byte>>, b: Option<seq<byte>>, c: Option<seq<byte>>)
    requires (HashLt(a, b) && (HashLt(b, c) || b == c)) || ((HashLt(a, b) || a == b) && HashLt(b, c))
    ensures HashLt(a, c)
  {
    if a != b && b != c {
      LexLeTrans(HashKey(a), HashKey(b), HashKey(c));
      if a == c {
        LexLeAntisym(HashKey(a), HashKey(b));
        HashKeyInjective(a, b);
      }
    }
  }
}
