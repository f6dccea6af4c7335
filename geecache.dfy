/**
 * The group-level cache wrapper: a byte bound and an LRU store that is only
 * created on the first write.  Reads before the first write miss.
 */
module GeeCache {
  import Lru

  /** `cache`: the lazily created LRU store and the bound it will get. */
  class Cache {
    /** The LRU store, `null` until the first `Add`. */
    var lru: Lru.Cache?
    /** The byte bound handed to the store when it is created. */
    var cacheBytes: int

    /**
     * A store, once there, is a valid LRU store with the wrapper's bound, no
     * eviction callback, and so no callback calls.
     */
    ghost predicate Valid()
      reads this, lru
    {
      && cacheBytes >= 0
      && (lru != null ==>
            lru.Valid() && lru.maxBytes == cacheBytes && !lru.hasOnEvicted && lru.evicted == [])
    }

    /** The resident entries, front (most recently used) first; none before the first write. */
    ghost function Contents(): seq<Lru.Entry>
      reads this, lru
    {
      if lru == null then [] else lru.order
    }

    /** The zero value of the struct with its bound set: no store yet. */
    constructor (cacheBytes: int)
      requires cacheBytes >= 0
      ensures Valid() && lru == null && this.cacheBytes == cacheBytes
      ensures Contents() == []
    {
      this.lru := null;
      this.cacheBytes := cacheBytes;
    }

    /**
     * `add`: creates the store on first use (bound `cacheBytes`, no eviction
     * callback), then adds to it; the result is the LRU `Put` of the old contents.
     */
    method Add(key: Lru.Key, value: Lru.Value)
      requires Valid()
      modifies this`lru, lru
      ensures Valid() && lru != null
      ensures lru.maxBytes == cacheBytes && !lru.hasOnEvicted
      ensures old(lru) != null ==> lru == old(lru)
      ensures old(lru) == null ==> fresh(lru)
      ensures cacheBytes == old(cacheBytes)
      ensures Contents() == Lru.Put(old(Contents()), key, value, cacheBytes)
    {
      if lru == null {
        lru := new Lru.Cache.New(cacheBytes, false);
      }
      lru.Add(key, value);
    }

    /**
     * `get`: a miss before the first write; otherwise the store's lookup,
     * which promotes a hit to the front.
     */
    method Get(key: Lru.Key) returns (value: Lru.Value, ok: bool)
      requires Valid()
      modifies lru
      ensures Valid() && lru == old(lru) && cacheBytes == old(cacheBytes)
      ensures old(lru) == null ==> !ok && value == Lru.Zero
      ensures ok <==> Lru.Lookup(old(Contents()), key).Some?
      ensures ok ==> Lru.Lookup(old(Contents()), key) == Lru.Some(value)
      ensures !ok ==> value == Lru.Zero
      ensures Contents() == Lru.Touch(old(Contents()), key)
    {
      if lru == null {
        return Lru.Zero, false;
      }
      value, ok := lru.Get(key);
    }

  }

  /**
   * Reads before the first write miss and create nothing; after writing an
   * entry that fits the bound (or with no bound), reading it back hits.
   */
  method FirstWriteScenario(cacheBytes: int, key: Lru.Key, value: Lru.Value)
    returns (okBefore: bool, okAgain: bool, okAfter: bool, got: Lru.Value)
    requires cacheBytes >= 0
    ensures !okBefore && !okAgain
    ensures okAfter <==> cacheBytes == 0 || |key| + value.Len() <= cacheBytes
    ensures okAfter ==> got == value
  {
    var c := new Cache(cacheBytes);
    var v;
    v, okBefore := c.Get(key);
    v, okAgain := c.Get(key);
    assert c.lru == null;
    c.Add(key, value);
    var e := Lru.Entry(key, value);
    assert Lru.Insert([], key, value) == [e];
    Lru.TrimKeepsFront([e], cacheBytes);
    assert c.Contents() == [] || c.Contents() == [e] by {
      var r := Lru.Trim([e], cacheBytes);
      assert r == [e][..|r|];
    }
    got, okAfter := c.Get(key);
  }
}
