/**
 * The byte-bounded LRU store of lru/lru.go.
 *
 * The recency list `ll` is a sequence of entries with the most recently used
 * entry at index 0 (the list's front) and the least recently used one last
 * (the list's back). The first half of the module specifies the store's
 * operations as functions on such sequences and proves their laws; the class
 * `Cache` at the end is the store itself, whose methods change its fields in
 * place and are proved against those functions.
 */
module Lru {

  datatype Option<+T> = None | Some(value: T)

  /** A stored value. Only its length in bytes matters to the store. */
  datatype Value = Value(bytes: seq<bv8>) {
    function Len(): nat { |bytes| }
  }

  /** What a miss reports in place of a value (Go's nil `Value`). */
  const Zero: Value := Value([])

  /** A key: the bytes of a Go string, so `len(key)` is its length. */
  type Key = seq<bv8>

  /** One element of the recency list. */
  datatype Entry = Entry(key: Key, value: Value)

  /** The bytes an entry is charged: key length plus value length. */
  function Size(e: Entry): nat {
    |e.key| + e.value.Len()
  }

  /** The bytes charged for a whole list. */
  function TotalBytes(s: seq<Entry>): nat {
    if s == [] then 0 else Size(s[0]) + TotalBytes(s[1..])
  }

  ghost function KeySet(s: seq<Entry>): set<Key> {
    set e | e in s :: e.key
  }

  function KeyAt(s: seq<Entry>, i: nat): Key
    requires i < |s|
  {
    s[i].key
  }

  /** No key occurs twice: the list and the key index agree one to one. */
  ghost predicate DistinctKeys(s: seq<Entry>) {
    forall i: nat, j: nat | i < j < |s| :: KeyAt(s, i) != KeyAt(s, j)
  }

  // ---------------------------------------------------------------------
  // Operations on the recency list
  // ---------------------------------------------------------------------

  /** The position of the first entry for `key`, as the map lookup `c.cache[key]` finds it. */
  function Find(s: seq<Entry>, key: Key): (r: Option<nat>)
    ensures r.None? <==> key !in KeySet(s)
    ensures r.Some? ==> r.value < |s| && s[r.value].key == key
    ensures r.Some? ==> forall j | 0 <= j < r.value :: s[j].key != key
  {
    if s == [] then None
    else if s[0].key == key then Some(0)
    else
      match Find(s[1..], key)
      case None =>
        assert forall e | e in s :: e == s[0] || e in s[1..];
        None
      case Some(i) => Some(i + 1)
  }

  /** The value resident under `key`, if any. */
  function Lookup(s: seq<Entry>, key: Key): (r: Option<Value>)
    ensures r.None? <==> key !in KeySet(s)
    ensures r.Some? ==> Entry(key, r.value) in s
  {
    match Find(s, key)
    case None => None
    case Some(i) => Some(s[i].value)
  }

  /** The list with `key`'s element unlinked: the first half of `MoveToFront`. */
  function Remove(s: seq<Entry>, key: Key): seq<Entry> {
    match Find(s, key)
    case None => s
    case Some(i) => s[..i] + s[i + 1..]
  }

  /** Reference definition: the entries whose key is not `key`, in list order. */
  function Others(s: seq<Entry>, key: Key): seq<Entry> {
    if s == [] then []
    else (if s[0].key == key then [] else [s[0]]) + Others(s[1..], key)
  }

  /** Get's effect on the list: a resident key's element moves to the front. */
  function Touch(s: seq<Entry>, key: Key): seq<Entry> {
    match Lookup(s, key)
    case None => s
    case Some(v) => [Entry(key, v)] + Remove(s, key)
  }

  /** Add's effect on the list before eviction: the key ends at the front holding `value`. */
  function Insert(s: seq<Entry>, key: Key, value: Value): seq<Entry> {
    [Entry(key, value)] + Remove(s, key)
  }

  /** The eviction loop of Add: drop the back element while the bound is exceeded. */
  function Trim(s: seq<Entry>, maxBytes: int): (r: seq<Entry>)
    requires maxBytes >= 0
    ensures |r| <= |s| && r == s[..|r|]
    ensures maxBytes == 0 ==> r == s
    ensures maxBytes != 0 ==> TotalBytes(r) <= maxBytes
    decreases |s|
  {
    if maxBytes != 0 && maxBytes < TotalBytes(s) then Trim(s[..|s| - 1], maxBytes) else s
  }

  /** The whole effect of Add on the list. */
  function Put(s: seq<Entry>, key: Key, value: Value, maxBytes: int): seq<Entry>
    requires maxBytes >= 0
  {
    Trim(Insert(s, key, value), maxBytes)
  }

  /** A list back to front: the order in which the eviction loop removes a suffix. */
  function Reversed(s: seq<Entry>): seq<Entry> {
    if s == [] then [] else Reversed(s[1..]) + [s[0]]
  }

  // ---------------------------------------------------------------------
  // Laws of the list operations
  // ---------------------------------------------------------------------

  lemma {:induction false} TotalBytesAppend(a: seq<Entry>, b: seq<Entry>)
    ensures TotalBytes(a + b) == TotalBytes(a) + TotalBytes(b)
  {
    if a == [] {
      assert a + b == b;
    } else {
      assert (a + b)[1..] == a[1..] + b;
      TotalBytesAppend(a[1..], b);
    }
  }

  /** The k-th call of the callback sees the k-th element counted from the back. */
  lemma {:induction false} ReversedAt(s: seq<Entry>)
    ensures |Reversed(s)| == |s|
    ensures forall i | 0 <= i < |s| :: Reversed(s)[i] == s[|s| - 1 - i]
  {
    if s != [] {
      ReversedAt(s[1..]);
    }
  }

  /** Evicting one more element from the back appends it to the callback log. */
  lemma ReversedSuffix(s: seq<Entry>, k: nat)
    requires k < |s|
    ensures Reversed(s[k..]) == Reversed(s[k + 1..]) + [s[k]]
  {
    assert s[k..][1..] == s[k + 1..];
  }

  /** Dropping the back element removes exactly its bytes. */
  lemma DropLastBytes(s: seq<Entry>)
    requires s != []
    ensures TotalBytes(s[..|s| - 1]) == TotalBytes(s) - Size(s[|s| - 1])
  {
    var n := |s| - 1;
    assert s == s[..n] + [s[n]];
    TotalBytesAppend(s[..n], [s[n]]);
  }

  /** Dropping the back element removes exactly its key and keeps the others distinct. */
  lemma DropLastKeys(s: seq<Entry>)
    requires DistinctKeys(s) && s != []
    ensures KeySet(s[..|s| - 1]) == KeySet(s) - {s[|s| - 1].key}
    ensures DistinctKeys(s[..|s| - 1])
  {
    var n := |s| - 1;
    assert s == s[..n] + [s[n]];
    forall e | e in s[..n] ensures e.key != s[n].key {
      var j :| 0 <= j < n && s[..n][j] == e;
      assert KeyAt(s, j) != KeyAt(s, n);
    }
    forall i: nat, j: nat | i < j < n ensures KeyAt(s[..n], i) != KeyAt(s[..n], j) {
      assert KeyAt(s, i) != KeyAt(s, j);
    }
  }

  lemma DistinctCons(e: Entry, t: seq<Entry>)
    ensures DistinctKeys([e] + t) <==> e.key !in KeySet(t) && DistinctKeys(t)
  {
    var s := [e] + t;
    if DistinctKeys(s) {
      forall x | x in t ensures x.key != e.key {
        var j :| 0 <= j < |t| && t[j] == x;
        assert KeyAt(s, 0) != KeyAt(s, j + 1);
      }
      forall i: nat, j: nat | i < j < |t| ensures KeyAt(t, i) != KeyAt(t, j) {
        assert KeyAt(s, i + 1) != KeyAt(s, j + 1);
      }
    }
    if e.key !in KeySet(t) && DistinctKeys(t) {
      forall i: nat, j: nat | i < j < |s| ensures KeyAt(s, i) != KeyAt(s, j) {
        if i == 0 {
          assert s[j] == t[j - 1];
          assert s[j] in t;
        } else {
          assert KeyAt(t, i - 1) != KeyAt(t, j - 1);
        }
      }
    }
  }

  /** With distinct keys, the map has exactly as many keys as the list has elements. */
  lemma {:induction false} DistinctKeysCount(s: seq<Entry>)
    requires DistinctKeys(s)
    ensures |KeySet(s)| == |s|
  {
    if s != [] {
      DistinctCons(s[0], s[1..]);
      assert [s[0]] + s[1..] == s;
      DistinctKeysCount(s[1..]);
      assert forall e | e in s :: e == s[0] || e in s[1..];
      assert KeySet(s) == {s[0].key} + KeySet(s[1..]);
    }
  }

  lemma {:induction false} OthersAbsent(s: seq<Entry>, key: Key)
    requires key !in KeySet(s)
    ensures Others(s, key) == s
  {
    if s != [] {
      assert s[0] in s;
      assert forall e | e in s[1..] :: e in s;
      OthersAbsent(s[1..], key);
      assert [s[0]] + s[1..] == s;
    }
  }

  /** Unlinking the element is the same as filtering the key out: the others keep their order. */
  lemma {:induction false} RemoveIsOthers(s: seq<Entry>, key: Key)
    requires DistinctKeys(s)
    ensures Remove(s, key) == Others(s, key)
  {
    if s != [] {
      DistinctCons(s[0], s[1..]);
      assert [s[0]] + s[1..] == s;
      if s[0].key == key {
        OthersAbsent(s[1..], key);
        assert s[..0] + s[1..] == s[1..];
      } else {
        RemoveIsOthers(s[1..], key);
        match Find(s[1..], key)
        case None =>
        case Some(i) =>
          assert s[..i + 1] + s[i + 2..] == [s[0]] + (s[1..][..i] + s[1..][i + 1..]);
      }
    }
  }

  /** Filtering a key out keeps exactly the entries with another key. */
  lemma {:induction false} OthersMembers(s: seq<Entry>, key: Key)
    ensures forall e :: e in Others(s, key) <==> e in s && e.key != key
  {
    if s != [] {
      assert forall e | e in s :: e == s[0] || e in s[1..];
      assert [s[0]] + s[1..] == s;
      OthersMembers(s[1..], key);
    }
  }

  lemma {:induction false} OthersDistinct(s: seq<Entry>, key: Key)
    requires DistinctKeys(s)
    ensures DistinctKeys(Others(s, key))
  {
    if s != [] {
      DistinctCons(s[0], s[1..]);
      assert [s[0]] + s[1..] == s;
      OthersDistinct(s[1..], key);
      if s[0].key != key {
        OthersMembers(s[1..], key);
        DistinctCons(s[0], Others(s[1..], key));
      } else {
        assert Others(s, key) == Others(s[1..], key);
      }
    }
  }

  /** Filtering a present key out costs its entry's bytes and one element; an absent key costs nothing. */
  lemma {:induction false} OthersBytes(s: seq<Entry>, key: Key)
    requires DistinctKeys(s)
    ensures Lookup(s, key).None? ==> TotalBytes(Others(s, key)) == TotalBytes(s)
    ensures Lookup(s, key).None? ==> |Others(s, key)| == |s|
    ensures Lookup(s, key).Some? ==>
      TotalBytes(Others(s, key)) == TotalBytes(s) - |key| - Lookup(s, key).value.Len()
    ensures Lookup(s, key).Some? ==> |Others(s, key)| == |s| - 1
  {
    if s != [] {
      DistinctCons(s[0], s[1..]);
      assert [s[0]] + s[1..] == s;
      if s[0].key == key {
        OthersAbsent(s[1..], key);
        assert Others(s, key) == s[1..];
        assert Lookup(s, key) == Some(s[0].value);
      } else {
        OthersBytes(s[1..], key);
        assert Lookup(s, key) == Lookup(s[1..], key);
        assert Others(s, key) == [s[0]] + Others(s[1..], key);
      }
    }
  }

  /** What filtering a key out keeps, and what it costs in bytes and elements. */
  lemma OthersLaws(s: seq<Entry>, key: Key)
    requires DistinctKeys(s)
    ensures forall e :: e in Others(s, key) <==> e in s && e.key != key
    ensures DistinctKeys(Others(s, key))
    ensures KeySet(Others(s, key)) == KeySet(s) - {key}
    ensures Lookup(s, key).None? ==> TotalBytes(Others(s, key)) == TotalBytes(s)
    ensures Lookup(s, key).None? ==> |Others(s, key)| == |s|
    ensures Lookup(s, key).Some? ==>
      TotalBytes(Others(s, key)) == TotalBytes(s) - |key| - Lookup(s, key).value.Len()
    ensures Lookup(s, key).Some? ==> |Others(s, key)| == |s| - 1
  {
    OthersMembers(s, key);
    OthersDistinct(s, key);
    OthersBytes(s, key);
  }

  /**
   * Get on the list: a hit moves the key's entry to the front, the others keep
   * their order, and the key set, byte count and length do not change; a miss
   * leaves the list as it is.
   */
  lemma TouchLaws(s: seq<Entry>, key: Key)
    requires DistinctKeys(s)
    ensures Lookup(s, key).None? ==> Touch(s, key) == s
    ensures Lookup(s, key).Some? ==>
      Touch(s, key) == [Entry(key, Lookup(s, key).value)] + Others(s, key)
    ensures forall e :: e in Touch(s, key) <==> e in s
    ensures DistinctKeys(Touch(s, key))
    ensures KeySet(Touch(s, key)) == KeySet(s)
    ensures TotalBytes(Touch(s, key)) == TotalBytes(s)
    ensures |Touch(s, key)| == |s|
  {
    RemoveIsOthers(s, key);
    OthersLaws(s, key);
    match Lookup(s, key)
    case None =>
    case Some(v) =>
      DistinctCons(Entry(key, v), Others(s, key));
  }

  /**
   * Add on the list, before eviction: the key is at the front with the new
   * value and the others keep their order; a present key keeps the count and
   * changes the bytes by the difference of the value lengths, a new key adds
   * one element and its key and value lengths.
   */
  lemma InsertLaws(s: seq<Entry>, key: Key, value: Value)
    requires DistinctKeys(s)
    ensures Insert(s, key, value)[0] == Entry(key, value)
    ensures Insert(s, key, value)[1..] == Others(s, key)
    ensures forall e :: e in Insert(s, key, value) <==> e == Entry(key, value) || (e in s && e.key != key)
    ensures DistinctKeys(Insert(s, key, value))
    ensures KeySet(Insert(s, key, value)) == KeySet(s) + {key}
    ensures Lookup(s, key).None? ==> |Insert(s, key, value)| == |s| + 1
    ensures Lookup(s, key).None? ==>
      TotalBytes(Insert(s, key, value)) == TotalBytes(s) + |key| + value.Len()
    ensures Lookup(s, key).Some? ==> |Insert(s, key, value)| == |s|
    ensures Lookup(s, key).Some? ==>
      TotalBytes(Insert(s, key, value)) == TotalBytes(s) + value.Len() - Lookup(s, key).value.Len()
  {
    RemoveIsOthers(s, key);
    OthersLaws(s, key);
    DistinctCons(Entry(key, value), Others(s, key));
  }

  /** A repeated Get hits the same value and does not reorder again. */
  lemma TouchIdempotent(s: seq<Entry>, key: Key)
    ensures Lookup(Touch(s, key), key) == Lookup(s, key)
    ensures Touch(Touch(s, key), key) == Touch(s, key)
  {
    match Lookup(s, key)
    case None =>
    case Some(v) =>
      var t := Touch(s, key);
      assert Find(t, key) == Some(0);
      assert t[..0] + t[1..] == t[1..];
  }

  /** Adding a key twice leaves one entry for it, holding the second value. */
  lemma InsertReplaces(s: seq<Entry>, key: Key, v1: Value, v2: Value)
    ensures Insert(Insert(s, key, v1), key, v2) == Insert(s, key, v2)
  {
    var t := Insert(s, key, v1);
    assert Find(t, key) == Some(0);
    assert t[..0] + t[1..] == t[1..];
  }

  lemma TotalBytesFront(s: seq<Entry>)
    requires s != []
    ensures TotalBytes(s) >= Size(s[0])
    ensures TotalBytes(s[..1]) == Size(s[0])
  {
    assert s[..1] == [s[0]];
  }

  /**
   * The eviction loop stops as soon as the bound holds: when it evicted
   * anything, keeping one more element would exceed `maxBytes`.
   */
  lemma {:induction false} TrimEvictsOnlyWhatIsNeeded(s: seq<Entry>, maxBytes: int)
    requires maxBytes >= 0
    ensures |Trim(s, maxBytes)| < |s| ==>
      maxBytes != 0 && maxBytes < TotalBytes(s[..|Trim(s, maxBytes)| + 1])
    decreases |s|
  {
    if maxBytes != 0 && maxBytes < TotalBytes(s) {
      var t := s[..|s| - 1];
      TrimEvictsOnlyWhatIsNeeded(t, maxBytes);
      var k := |Trim(s, maxBytes)|;
      if k < |t| {
        assert t[..k + 1] == s[..k + 1];
      } else {
        assert s[..k + 1] == s;
      }
    }
  }

  /** Byte counts grow with the prefix: no entry is charged a negative size. */
  lemma TotalBytesPrefix(s: seq<Entry>, i: nat, j: nat)
    requires i <= j <= |s|
    ensures TotalBytes(s[..i]) <= TotalBytes(s[..j])
  {
    assert s[..j] == s[..i] + s[i..j];
    TotalBytesAppend(s[..i], s[i..j]);
  }

  /**
   * The eviction loop's result is characterised by where it stops: a length
   * at which the bound holds while one more element would exceed it.
   */
  lemma {:induction false} TrimStopsAtFirstFit(s: seq<Entry>, maxBytes: int, n: nat)
    requires maxBytes >= 0 && n <= |s|
    requires maxBytes == 0 || TotalBytes(s[..n]) <= maxBytes
    requires n < |s| ==> maxBytes != 0 && maxBytes < TotalBytes(s[..n + 1])
    ensures Trim(s, maxBytes) == s[..n]
    decreases |s|
  {
    if n < |s| {
      TotalBytesPrefix(s, n + 1, |s|);
      assert s[..|s|] == s;
      var t := s[..|s| - 1];
      assert t[..n] == s[..n];
      if n < |t| {
        assert t[..n + 1] == s[..n + 1];
      }
      TrimStopsAtFirstFit(t, maxBytes, n);
    } else {
      assert s[..n] == s;
    }
  }

  /** One turn of Add's eviction loop keeps the loop's invariants. */
  lemma EvictionStep(full: seq<Entry>, before: seq<Entry>, after: seq<Entry>,
                     log0: seq<Entry>, log: seq<Entry>, log1: seq<Entry>,
                     logging: bool, maxBytes: int)
    requires |before| <= |full| && before == full[..|before|]
    requires 0 < maxBytes < TotalBytes(before)
    requires before != [] ==> after == before[..|before| - 1]
    requires logging ==> log == log0 + Reversed(full[|before|..])
    requires logging && before != [] ==> log1 == log + [before[|before| - 1]]
    ensures |after| < |before|
    ensures |after| <= |full| && after == full[..|after|]
    ensures |after| < |full| ==> maxBytes != 0 && maxBytes < TotalBytes(full[..|after| + 1])
    ensures logging ==> log1 == log0 + Reversed(full[|after|..])
  {
    assert before != [] by { assert TotalBytes([]) == 0; }
    var n := |before| - 1;
    assert |after| == n && after == full[..n] by {
      assert full[..n + 1][..n] == full[..n];
    }
    assert full[..|after| + 1] == before;
    if logging {
      assert before[n] == full[n];
      EvictionLog(full, n, log0, log);
    }
  }

  /** Logging the element at `n` extends the reversed tail from `n + 1` to `n`. */
  lemma EvictionLog(full: seq<Entry>, n: nat, log0: seq<Entry>, log: seq<Entry>)
    requires n < |full|
    requires log == log0 + Reversed(full[n + 1..])
    ensures log + [full[n]] == log0 + Reversed(full[n..])
  {
    ReversedSuffix(full, n);
  }

  /**
   * The front element (the key just added) is evicted only when it alone
   * exceeds a non-zero bound, and then nothing is left.
   */
  lemma {:induction false} TrimKeepsFront(s: seq<Entry>, maxBytes: int)
    requires maxBytes >= 0 && s != []
    ensures Trim(s, maxBytes) == [] <==> maxBytes != 0 && maxBytes < Size(s[0])
    ensures Trim(s, maxBytes) != [] ==> Trim(s, maxBytes)[0] == s[0]
    decreases |s|
  {
    TotalBytesFront(s);
    if maxBytes != 0 && maxBytes < TotalBytes(s) {
      var t := s[..|s| - 1];
      if t == [] {
        assert s == [s[0]];
      } else {
        assert t[0] == s[0];
        TrimKeepsFront(t, maxBytes);
      }
    }
  }

  /**
   * Eviction order: with room for exactly `a` and `b`, adding `a`, `b`, then
   * a `c` no larger than `a` evicts `a` and leaves `c`, `b` in recency order.
   */
  lemma EvictsLeastRecentlyUsed(a: Entry, b: Entry, c: Entry)
    requires a.key != b.key && b.key != c.key && a.key != c.key
    requires 0 < Size(c) <= Size(a)
    ensures Put(Put(Put([], a.key, a.value, Size(a) + Size(b)),
                    b.key, b.value, Size(a) + Size(b)),
                c.key, c.value, Size(a) + Size(b)) == [c, b]
  {
    var m := Size(a) + Size(b);
    assert Insert([], a.key, a.value) == [a];
    assert TotalBytes([a]) == Size(a);
    assert Put([], a.key, a.value, m) == [a];
    assert Find([a], b.key) == None;
    assert Insert([a], b.key, b.value) == [b, a];
    assert [b, a][1..] == [a];
    assert TotalBytes([b, a]) == m;
    assert Put([a], b.key, b.value, m) == [b, a];
    assert Find([b, a], c.key) == None;
    assert Insert([b, a], c.key, c.value) == [c, b, a];
    assert [c, b, a][1..] == [b, a];
    assert TotalBytes([c, b, a]) == Size(c) + m;
    assert [c, b, a][..2] == [c, b];
    assert [c, b][1..] == [b];
    assert TotalBytes([c, b]) == Size(c) + Size(b);
    assert Trim([c, b], m) == [c, b];
  }

  // ---------------------------------------------------------------------
  // The key index
  // ---------------------------------------------------------------------

  /** The index maps `e`'s key to `e`. */
  ghost predicate Maps(index: map<Key, Entry>, e: Entry) {
    e.key in index && index[e.key] == e
  }

  /** `index` maps each key of the list, and nothing else, to the element holding it. */
  ghost predicate Indexes(index: map<Key, Entry>, s: seq<Entry>) {
    && index.Keys == KeySet(s)
    && forall e {:trigger Maps(index, e)} | e in s :: Maps(index, e)
  }

  /**
   * The index a list determines: each key to the element holding it (the
   * front one, should a key repeat).
   */
  ghost function IndexOf(s: seq<Entry>): map<Key, Entry> {
    if s == [] then map[] else IndexOf(s[1..])[s[0].key := s[0]]
  }

  /** For distinct keys, `IndexOf` is an index of the list. */
  lemma {:induction false} IndexOfIndexes(s: seq<Entry>)
    requires DistinctKeys(s)
    ensures Indexes(IndexOf(s), s)
  {
    if s != [] {
      var t := s[1..];
      assert s == [s[0]] + t;
      DistinctCons(s[0], t);
      IndexOfIndexes(t);
      var m := IndexOf(s);
      assert KeySet(s) == KeySet(t) + {s[0].key};
      forall e | e in s ensures Maps(m, e) {
        if e != s[0] {
          assert e in t && Maps(IndexOf(t), e);
        }
      }
    }
  }

  /** For distinct keys, `IndexOf` is the only index of the list. */
  lemma IndexesUnique(m: map<Key, Entry>, s: seq<Entry>)
    requires DistinctKeys(s) && Indexes(m, s)
    ensures m == IndexOf(s)
  {
    IndexOfIndexes(s);
    var n := IndexOf(s);
    forall k | k in m ensures k in n && m[k] == n[k] {
      var e :| e in s && e.key == k;
      assert Maps(m, e) && Maps(n, e);
    }
    assert m.Keys == n.Keys;
  }

  /** A key is indexed exactly when Lookup finds it, and its entry holds that value. */
  lemma IndexedLookup(s: seq<Entry>, key: Key)
    requires DistinctKeys(s)
    ensures key in IndexOf(s) <==> Lookup(s, key).Some?
    ensures key in IndexOf(s) ==>
      Lookup(s, key) == Some(IndexOf(s)[key].value) && IndexOf(s)[key].key == key
  {
    IndexOfIndexes(s);
    match Lookup(s, key)
    case None =>
    case Some(v) => assert Maps(IndexOf(s), Entry(key, v));
  }

  /** Get keeps the index, the distinct keys and the byte count. */
  lemma TouchKeepsIndex(s: seq<Entry>, key: Key)
    requires DistinctKeys(s)
    ensures DistinctKeys(Touch(s, key)) && IndexOf(Touch(s, key)) == IndexOf(s)
    ensures TotalBytes(Touch(s, key)) == TotalBytes(s)
  {
    TouchLaws(s, key);
    IndexOfIndexes(s);
    var index := IndexOf(s);
    forall e | e in Touch(s, key) ensures Maps(index, e) {
      assert e in s;
    }
    IndexesUnique(index, Touch(s, key));
  }

  /** Add, before eviction, keeps the index once the key maps to its new element. */
  lemma InsertKeepsIndex(s: seq<Entry>, key: Key, value: Value)
    requires DistinctKeys(s)
    ensures DistinctKeys(Insert(s, key, value))
    ensures IndexOf(Insert(s, key, value)) == IndexOf(s)[key := Entry(key, value)]
    ensures key in IndexOf(s) ==>
      TotalBytes(Insert(s, key, value)) == TotalBytes(s) + value.Len() - IndexOf(s)[key].value.Len()
    ensures key !in IndexOf(s) ==>
      TotalBytes(Insert(s, key, value)) == TotalBytes(s) + |key| + value.Len()
  {
    InsertLaws(s, key, value);
    IndexedLookup(s, key);
    IndexOfIndexes(s);
    var index := IndexOf(s);
    var index' := index[key := Entry(key, value)];
    forall e | e in Insert(s, key, value) ensures Maps(index', e) {
      if e != Entry(key, value) {
        assert e in s && Maps(index, e);
      }
    }
    IndexesUnique(index', Insert(s, key, value));
  }

  /** Evicting the back element keeps the index once its key is deleted. */
  lemma DropLastKeepsIndex(s: seq<Entry>)
    requires DistinctKeys(s) && s != []
    ensures DistinctKeys(s[..|s| - 1])
    ensures IndexOf(s[..|s| - 1]) == IndexOf(s) - {s[|s| - 1].key}
    ensures TotalBytes(s[..|s| - 1]) == TotalBytes(s) - Size(s[|s| - 1])
  {
    DropLastBytes(s);
    DropLastKeys(s);
    IndexOfIndexes(s);
    var index := IndexOf(s);
    var last := s[|s| - 1];
    forall e | e in s[..|s| - 1] ensures Maps(index - {last.key}, e) {
      assert e in s && Maps(index, e);
    }
    IndexesUnique(index - {last.key}, s[..|s| - 1]);
  }

  // ---------------------------------------------------------------------
  // The store
  // ---------------------------------------------------------------------

  /** `lru.Cache`: a byte-bounded LRU store. */
  class Cache {
    /** The byte bound; 0 means unbounded. */
    var maxBytes: int
    /** The running byte count of the resident entries. */
    var nbytes: int
    /** The recency list `ll`, front (most recently used) first. */
    var order: seq<Entry>
    /** The index `cache` from key to the list element holding it. */
    var index: map<Key, Entry>
    /** Whether an `OnEvicted` callback is installed. */
    var hasOnEvicted: bool
    /** The calls made to `OnEvicted`, in order. */
    ghost var evicted: seq<Entry>

    /** Distinct keys, the map in step with the list, and `nbytes` their total size. */
    ghost predicate Valid()
      reads this
    {
      && maxBytes >= 0
      && DistinctKeys(order)
      && index == IndexOf(order)
      && nbytes == TotalBytes(order)
    }

    /** `New`: an empty store with the given bound and callback. */
    constructor New(maxBytes: int, hasOnEvicted: bool)
      requires maxBytes >= 0
      ensures Valid()
      ensures order == [] && index == map[] && nbytes == 0
      ensures this.maxBytes == maxBytes && this.hasOnEvicted == hasOnEvicted
      ensures evicted == []
    {
      this.maxBytes := maxBytes;
      this.nbytes := 0;
      this.order := [];
      this.index := map[];
      this.hasOnEvicted := hasOnEvicted;
      this.evicted := [];
    }

    /** The number of resident entries; the list and the map agree on it. */
    function Len(): (n: nat)
      reads this
      requires Valid()
      ensures n == |index|
    {
      IndexOfIndexes(order);
      DistinctKeysCount(order);
      |order|
    }

    /** A hit returns the key's value and promotes its entry; a miss changes nothing. */
    method Get(key: Key) returns (value: Value, ok: bool)
      requires Valid()
      modifies this`order
      ensures Valid()
      ensures ok <==> key in old(index)
      ensures ok ==> Lookup(old(order), key) == Some(value)
      ensures !ok ==> Lookup(old(order), key) == None && value == Zero
      ensures order == Touch(old(order), key)
    {
      IndexedLookup(order, key);
      if key in index {
        TouchKeepsIndex(order, key);
        order := Touch(order, key);
        value, ok := index[key].value, true;
      } else {
        value, ok := Zero, false;
      }
    }

    /** Evicts the back (least recently used) entry, if there is one. */
    method RemoveOldest()
      requires Valid()
      modifies this`order, this`index, this`nbytes, this`evicted
      ensures Valid()
      ensures old(order) == [] ==>
        order == [] && index == old(index) && nbytes == old(nbytes) && evicted == old(evicted)
      ensures old(order) != [] ==> order == old(order[..|order| - 1])
      ensures old(order) != [] ==> index == old(index) - {old(order[|order| - 1].key)}
      ensures old(order) != [] ==> nbytes == old(nbytes) - Size(old(order[|order| - 1]))
      ensures old(order) != [] && hasOnEvicted ==> evicted == old(evicted) + [old(order[|order| - 1])]
      ensures !hasOnEvicted ==> evicted == old(evicted)
    {
      if order != [] {
        DropLastKeepsIndex(order);
        var kv := order[|order| - 1];
        order := order[..|order| - 1];
        index := index - {kv.key};
        nbytes := nbytes - (|kv.key| + kv.value.Len());
        if hasOnEvicted {
          evicted := evicted + [kv];
        }
      }
    }

    /**
     * Stores `value` under `key` at the front of the list, replacing an
     * existing entry for `key`, without evicting anything.
     */
    method Store(key: Key, value: Value)
      requires Valid()
      modifies this`order, this`index, this`nbytes
      ensures Valid()
      ensures order == Insert(old(order), key, value)
    {
      ghost var s0 := order;
      if key in index {
        assert Lookup(order, key).Some? by { IndexedLookup(order, key); }
        order := Touch(order, key);
        nbytes := nbytes + value.Len() - index[key].value.Len();
        order := [Entry(key, value)] + order[1..];
        index := index[key := Entry(key, value)];
      } else {
        assert Lookup(order, key).None? by { IndexedLookup(order, key); }
        order := [Entry(key, value)] + order;
        index := index[key := Entry(key, value)];
        nbytes := nbytes + |key| + value.Len();
      }
      InsertKeepsIndex(s0, key, value);
    }

    /**
     * Evicts from the back, one entry at a time, until the byte bound holds
     * (a zero bound never evicts); the callback sees the evicted entries
     * back first.
     */
    method Evict()
      requires Valid()
      modifies this`order, this`index, this`nbytes, this`evicted
      ensures Valid()
      ensures order == Trim(old(order), maxBytes)
      ensures maxBytes != 0 ==> nbytes <= maxBytes
      ensures hasOnEvicted ==> evicted == old(evicted) + Reversed(old(order)[|order|..])
      ensures !hasOnEvicted ==> evicted == old(evicted)
    {
      while maxBytes != 0 && maxBytes < nbytes
        invariant Valid()
        invariant |order| <= |old(order)| && order == old(order)[..|order|]
        invariant |order| < |old(order)| ==>
          maxBytes != 0 && maxBytes < TotalBytes(old(order)[..|order| + 1])
        invariant hasOnEvicted ==> evicted == old(evicted) + Reversed(old(order)[|order|..])
        invariant !hasOnEvicted ==> evicted == old(evicted)
        decreases |order|
      {
        ghost var before, log := order, evicted;
        RemoveOldest();
        EvictionStep(old(order), before, order, old(evicted), log, evicted, hasOnEvicted, maxBytes);
      }
      assert order == Trim(old(order), maxBytes) by {
        TrimStopsAtFirstFit(old(order), maxBytes, |order|);
      }
    }

    /**
     * Stores `value` under `key` at the front, then evicts from the back
     * until the bound holds; the callback sees the evicted entries back first.
     */
    method Add(key: Key, value: Value)
      requires Valid()
      modifies this`order, this`index, this`nbytes, this`evicted
      ensures Valid()
      ensures order == Put(old(order), key, value, maxBytes)
      ensures maxBytes != 0 ==> nbytes <= maxBytes
      ensures hasOnEvicted ==>
        evicted == old(evicted) + Reversed(Insert(old(order), key, value)[|order|..])
      ensures !hasOnEvicted ==> evicted == old(evicted)
    {
      Store(key, value);
      Evict();
    }
  }

  /** The keys "ab" and "cd", as their bytes. */
  const AB: Key := [0x61, 0x62]
  const CD: Key := [0x63, 0x64]

  /**
   * A store bounded at 10 bytes with a callback: "ab" (4 bytes) then "cd"
   * (10 bytes) leaves only "cd", and the callback was called once, with "ab".
   */
  method EvictionScenario() returns (resident: seq<Entry>, bytes: int, count: nat, ghost log: seq<Entry>)
    ensures resident == [Entry(CD, Value([0, 0, 0, 0, 0, 0, 0, 0]))]
    ensures bytes == 10 && count == 1
    ensures log == [Entry(AB, Value([0, 0]))]
  {
    var ab := Entry(AB, Value([0, 0]));
    var cd := Entry(CD, Value([0, 0, 0, 0, 0, 0, 0, 0]));
    assert Size(ab) == 4 && Size(cd) == 10;
    var c := new Cache.New(10, true);
    c.Add(ab.key, ab.value);
    assert c.order == [ab] by {
      assert Insert([], ab.key, ab.value) == [ab];
      assert TotalBytes([ab]) == 4;
    }
    c.Add(cd.key, cd.value);
    assert c.order == [cd] && c.evicted == [ab] by {
      assert Insert([ab], cd.key, cd.value) == [cd, ab];
      assert TotalBytes([cd, ab]) == 14;
      assert TotalBytes([cd]) == 10;
      assert [cd, ab][..1] == [cd];
      assert [cd, ab][1..] == [ab];
      assert Reversed([ab]) == [ab];
    }
    resident, bytes, count, log := c.order, c.nbytes, c.Len(), c.evicted;
  }
}
