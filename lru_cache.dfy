/**
 * The state of the `LRU` class as a value: the recency list (most recent key
 * first, the list `head` starts), the `hash` index from key to cached result,
 * and the number of free slots `availableNode`. The operations are those of
 * `moveFront`, `deleteNode` and `addNode`, and the lookup-or-insert step of
 * `factor`.
 */
module LruCache {
  import opened Wrappers

  /** A cached result: each number of a request with its divisor list. */
  type Entry = map<int, seq<int>>

  datatype Cache = Cache(order: seq<string>, entries: map<string, Entry>, available: int)

  predicate Distinct(s: seq<string>)
  {
    forall i, j :: 0 <= i < j < |s| ==> s[i] != s[j]
  }

  /**
   * The consistency the class keeps: the list has no repeated key, its keys are
   * exactly the keys of the index, and cached entries plus free slots make up
   * the capacity the cache was built with.
   */
  ghost predicate Inv(c: Cache, capacity: int)
  {
    && capacity >= 1
    && Distinct(c.order)
    && (forall k :: k in c.entries <==> k in c.order)
    && c.available >= 0
    && |c.order| + c.available == capacity
  }

  /** A freshly constructed cache: nothing cached, every slot free. */
  function Empty(capacity: int): (c: Cache)
    requires capacity >= 1
    ensures Inv(c, capacity)
  {
    Cache([], map[], capacity)
  }

  /** `s` with every occurrence of `k` unlinked, the others in their order. */
  function Without(s: seq<string>, k: string): (r: seq<string>)
    ensures forall x :: x in r <==> x in s && x != k
    ensures |r| <= |s|
  {
    if s == [] then []
    else if s[0] == k then Without(s[1..], k)
    else [s[0]] + Without(s[1..], k)
  }

  /** `moveFront`: nothing happens when `k` is already the head; otherwise `k` is unlinked and relinked in front. */
  function MoveFront(order: seq<string>, k: string): seq<string>
  {
    if order != [] && order[0] == k then order else [k] + Without(order, k)
  }

  function Touch(c: Cache, k: string): Cache
  {
    c.(order := MoveFront(c.order, k))
  }

  /** `deleteNode`: the tail, the least recently used key, leaves the list and the index and frees its slot. */
  function Evict(c: Cache): Cache
    requires c.order != []
  {
    var tail := c.order[|c.order| - 1];
    Cache(c.order[..|c.order| - 1], c.entries - {tail}, c.available + 1)
  }

  /** `addNode`: when no slot is free the tail is evicted first; the new key becomes the head. */
  function Add(c: Cache, k: string, m: Entry): Cache
    requires c.available == 0 ==> c.order != []
  {
    var room := if c.available == 0 then Evict(c) else c;
    Cache([k] + room.order, room.entries[k := m], room.available - 1)
  }

  /**
   * What `factor` does with the cache once the key is known: a hit promotes the
   * key and returns the stored entry, a miss inserts `m`, the freshly computed
   * entry, and returns it.
   */
  function Access(c: Cache, k: string, m: Entry): (Cache, Entry)
    requires c.available == 0 ==> c.order != []
  {
    if k in c.entries then (Touch(c, k), c.entries[k]) else (Add(c, k, m), m)
  }

  // ---------------------------------------------------------------------------
  // Unlinking

  lemma {:induction false} WithoutAbsent(s: seq<string>, k: string)
    requires k !in s
    ensures Without(s, k) == s
  {
    if s != [] {
      WithoutAbsent(s[1..], k);
    }
  }

  lemma {:induction false} WithoutDistinct(s: seq<string>, k: string)
    requires Distinct(s)
    ensures Distinct(Without(s, k))
    ensures k in s ==> |Without(s, k)| == |s| - 1
    ensures k !in s ==> Without(s, k) == s
  {
    if s != [] {
      WithoutDistinct(s[1..], k);
      assert s[0] !in s[1..];
      if s[0] != k {
        assert Without(s, k) == [s[0]] + Without(s[1..], k);
      }
    }
    if k !in s {
      WithoutAbsent(s, k);
    }
  }

  lemma {:induction false} WithoutAppend(a: seq<string>, b: seq<string>, k: string)
    ensures Without(a + b, k) == Without(a, k) + Without(b, k)
  {
    if a == [] {
      assert a + b == b;
    } else {
      assert (a + b)[0] == a[0] && (a + b)[1..] == a[1..] + b;
      WithoutAppend(a[1..], b, k);
    }
  }

  /** A key in the head position of a list without repeats: unlinking it leaves the rest. */
  lemma WithoutHead(s: seq<string>)
    requires Distinct(s) && s != []
    ensures Without(s, s[0]) == s[1..]
  {
    assert s[0] !in s[1..];
    WithoutAbsent(s[1..], s[0]);
  }

  /** A list without repeats has as many distinct keys as positions. */
  lemma {:induction false} DistinctCard(s: seq<string>)
    requires Distinct(s)
    ensures |set x | x in s| == |s|
  {
    if s != [] {
      DistinctCard(s[1..]);
      assert (set x | x in s) == {s[0]} + (set x | x in s[1..]);
      assert s[0] !in s[1..];
    }
  }

  /** The index holds exactly the keys of the list. */
  lemma IndexIsList(c: Cache, capacity: int)
    requires Inv(c, capacity)
    ensures c.entries.Keys == set k | k in c.order
  {
  }

  /** The number of cached entries plus the free slots is the capacity the cache was built with. */
  lemma EntriesPlusFree(c: Cache, capacity: int)
    requires Inv(c, capacity)
    ensures |c.entries| + c.available == capacity
  {
    assert c.entries.Keys == set x | x in c.order;
    DistinctCard(c.order);
  }

  // ---------------------------------------------------------------------------
  // One operation at a time

  /**
   * `moveFront` keeps the cache consistent, puts `k` at the head, changes neither
   * the index nor the free slots, keeps the relative order of every other key,
   * and does nothing when `k` already is the head.
   */
  lemma MoveFrontSpec(c: Cache, capacity: int, k: string)
    requires Inv(c, capacity) && k in c.entries
    ensures Inv(Touch(c, k), capacity)
    ensures Touch(c, k).order[0] == k
    ensures Touch(c, k).entries == c.entries && Touch(c, k).available == c.available
    ensures Without(Touch(c, k).order, k) == Without(c.order, k)
    ensures c.order[0] == k ==> Touch(c, k) == c
  {
    WithoutDistinct(c.order, k);
    var w := Without(c.order, k);
    if c.order[0] != k {
      assert Touch(c, k).order == [k] + w;
      assert Without([k] + w, k) == Without(w, k) by {
        assert ([k] + w)[1..] == w;
      }
      WithoutAbsent(w, k);
      DistinctCons(k, w);
      assert |[k] + w| == |c.order|;
    }
  }

  /**
   * `deleteNode` keeps the cache consistent: exactly the tail leaves the list
   * and the index, one slot is freed, and every other entry is unchanged.
   */
  lemma EvictSpec(c: Cache, capacity: int)
    requires Inv(c, capacity) && c.order != []
    ensures Inv(Evict(c), capacity)
    ensures c.order[|c.order| - 1] !in Evict(c).entries
    ensures Evict(c).entries.Keys == c.entries.Keys - {c.order[|c.order| - 1]}
    ensures Evict(c).available == c.available + 1
    ensures forall j :: j in Evict(c).entries ==> Evict(c).entries[j] == c.entries[j]
  {
    var n := |c.order|;
    assert forall i :: 0 <= i < n - 1 ==> c.order[i] != c.order[n - 1];
  }

  /**
   * `addNode` of a key not yet cached keeps the cache consistent and makes the
   * key the head holding `m`. With a free slot, it uses that slot and keeps
   * every cached key; with none, it evicts exactly the tail, the least recently
   * used key, and nothing else.
   */
  lemma AddSpec(c: Cache, capacity: int, k: string, m: Entry)
    requires Inv(c, capacity) && k !in c.entries
    ensures Inv(Add(c, k, m), capacity)
    ensures Add(c, k, m).order[0] == k && Add(c, k, m).entries[k] == m
    ensures forall j :: j in Add(c, k, m).entries && j != k ==> Add(c, k, m).entries[j] == c.entries[j]
    ensures c.available > 0 ==>
      && Add(c, k, m).order == [k] + c.order
      && Add(c, k, m).entries.Keys == c.entries.Keys + {k}
      && Add(c, k, m).available == c.available - 1
    ensures c.available == 0 ==>
      && Add(c, k, m).order == [k] + c.order[..|c.order| - 1]
      && Add(c, k, m).entries.Keys == c.entries.Keys - {c.order[|c.order| - 1]} + {k}
      && Add(c, k, m).available == 0
  {
    if c.available == 0 {
      EvictSpec(c, capacity);
      LinkFresh(Evict(c), capacity, k, m);
    } else {
      LinkFresh(c, capacity, k, m);
    }
  }

  /** Linking a key that is not cached into a free slot keeps the cache consistent. */
  lemma LinkFresh(c: Cache, capacity: int, k: string, m: Entry)
    requires Inv(c, capacity) && k !in c.entries && c.available >= 1
    ensures Inv(Cache([k] + c.order, c.entries[k := m], c.available - 1), capacity)
  {
    DistinctCons(k, c.order);
  }

  /** Putting a key that is not listed in front of a list without repeats leaves none. */
  lemma DistinctCons(k: string, s: seq<string>)
    requires Distinct(s) && k !in s
    ensures Distinct([k] + s)
  {
    var t := [k] + s;
    forall i, j | 0 <= i < j < |t|
      ensures t[i] != t[j]
    {
      assert t[j] == s[j - 1];
      if i > 0 {
        assert t[i] == s[i - 1];
      }
    }
  }

  /** The lookup-or-insert step keeps the cache consistent and leaves the key at the head. */
  lemma AccessSpec(c: Cache, capacity: int, k: string, m: Entry)
    requires Inv(c, capacity)
    ensures Inv(Access(c, k, m).0, capacity)
    ensures Access(c, k, m).0.order[0] == k
    ensures Access(c, k, m).1 == if k in c.entries then c.entries[k] else m
    ensures Access(c, k, m).0.entries[k] == Access(c, k, m).1
  {
    if k in c.entries {
      MoveFrontSpec(c, capacity, k);
    } else {
      AddSpec(c, capacity, k, m);
    }
  }

  /**
   * Promotion protects: once a hit has moved `k` to the front, inserting a new
   * key never evicts `k`, as long as the cache holds at least two entries.
   */
  lemma PromotedSurvivesInsert(c: Cache, capacity: int, k: string, k2: string, m: Entry)
    requires Inv(c, capacity) && capacity >= 2
    requires k in c.entries && k2 !in c.entries
    ensures k in Add(Touch(c, k), k2, m).entries
  {
    MoveFrontSpec(c, capacity, k);
    var t := Touch(c, k);
    AddSpec(t, capacity, k2, m);
    if t.available == 0 {
      assert t.order[0] == k && |t.order| >= 2;
      assert t.order[|t.order| - 1] != k;
    }
  }

  // ---------------------------------------------------------------------------
  // Any history of requests

  /** One call of `factor`, seen by the cache: its key and the entry a miss would compute. */
  datatype Request = Request(key: string, entry: Entry)

  function KeysOf(h: seq<Request>): (r: seq<string>)
    ensures |r| == |h|
    ensures forall i :: 0 <= i < |h| ==> r[i] == h[i].key
  {
    seq(|h|, i requires 0 <= i < |h| => h[i].key)
  }

  /** The keys of a history, most recently requested first, each once. */
  function Recency(keys: seq<string>): (r: seq<string>)
    ensures Distinct(r)
    ensures forall x :: x in r <==> x in keys
  {
    if keys == [] then []
    else
      var k := keys[|keys| - 1];
      var older := Recency(keys[..|keys| - 1]);
      WithoutDistinct(older, k);
      DistinctCons(k, Without(older, k));
      assert forall x :: x in keys <==> x in keys[..|keys| - 1] || x == k by {
        assert keys == keys[..|keys| - 1] + [k];
      }
      [k] + Without(older, k)
  }

  /** Requesting `k` after `keys` puts `k` in front and unlinks its older place. */
  lemma RecencySnoc(keys: seq<string>, k: string)
    ensures Recency(keys + [k]) == [k] + Without(Recency(keys), k)
  {
    assert (keys + [k])[..|keys|] == keys;
  }

  /** Requesting a key that is not yet listed puts it in front of the list. */
  lemma RecencyFresh(keys: seq<string>, k: string, r: seq<string>)
    requires Recency(keys) == r && k !in r
    ensures Recency(keys + [k]) == [k] + r
  {
    RecencySnoc(keys, k);
    WithoutAbsent(r, k);
  }

  /** The first `n` elements of `s`, or all of them when there are fewer. */
  function Take(s: seq<string>, n: nat): (r: seq<string>)
    ensures |r| == if |s| <= n then |s| else n
  {
    if |s| <= n then s else s[..n]
  }

  /** The cache after serving a history of requests, one `factor` call after the other. */
  function Replay(c: Cache, capacity: int, h: seq<Request>): (r: Cache)
    requires Inv(c, capacity)
    ensures Inv(r, capacity)
    decreases |h|
  {
    if h == [] then c
    else
      var prev := Replay(c, capacity, h[..|h| - 1]);
      var q := h[|h| - 1];
      AccessSpec(prev, capacity, q.key, q.entry);
      Access(prev, q.key, q.entry).0
  }

  lemma TakeCons(k: string, s: seq<string>, n: nat)
    requires n >= 1
    ensures Take([k] + s, n) == [k] + Take(s, n - 1)
  {
    if |s| > n - 1 {
      assert ([k] + s)[..n] == [k] + s[..n - 1];
    }
  }

  /** Unlinking a key among the first `n` of a list without repeats leaves the first `n - 1` of the rest. */
  lemma TakeWithoutPresent(s: seq<string>, k: string, n: nat)
    requires Distinct(s) && n >= 1 && k in Take(s, n)
    ensures Without(Take(s, n), k) == Take(Without(s, k), n - 1)
  {
    var t := Take(s, n);
    var u := s[|t|..];
    assert s == t + u;
    WithoutAppend(t, u, k);
    var i :| 0 <= i < |t| && t[i] == k;
    assert k !in u by {
      forall j | 0 <= j < |u|
        ensures u[j] != k
      {
        assert u[j] == s[|t| + j] && k == s[i];
      }
    }
    WithoutAbsent(u, k);
    assert Distinct(t) by {
      forall a, b | 0 <= a < b < |t|
        ensures t[a] != t[b]
      {
        assert t[a] == s[a] && t[b] == s[b];
      }
    }
    WithoutDistinct(t, k);
    var w := Without(t, k);
    assert Without(s, k) == w + u;
    if |s| > n {
      assert |w| == n - 1;
      assert (w + u)[..n - 1] == w;
    }
  }

  /** Unlinking a key that is not among the first `n` leaves the first `n` as they were. */
  lemma TakeWithoutAbsent(s: seq<string>, k: string, n: nat)
    requires k !in Take(s, n)
    ensures Take(Without(s, k), n) == Take(s, n)
  {
    var t := Take(s, n);
    var u := s[|t|..];
    assert s == t + u;
    WithoutAppend(t, u, k);
    WithoutAbsent(t, k);
    assert Without(s, k) == t + Without(u, k);
    if |s| > n {
      assert (t + Without(u, k))[..n] == t;
    }
  }

  /** A hit on a list holding the first `capacity` keys of `R` leaves the first `capacity` of the new recency order. */
  lemma RecencyHit(c: Cache, capacity: int, R: seq<string>, k: string)
    requires Inv(c, capacity) && Distinct(R) && c.order == Take(R, capacity)
    requires k in c.entries
    ensures Touch(c, k).order == Take([k] + Without(R, k), capacity)
  {
    TakeCons(k, Without(R, k), capacity);
    if c.order[0] == k {
      assert R[0] == k;
      WithoutHead(R);
      assert R == [R[0]] + R[1..];
      TakeCons(k, R[1..], capacity);
    } else {
      TakeWithoutPresent(R, k, capacity);
    }
  }

  /** The same for a miss, with or without a free slot. */
  lemma RecencyMiss(c: Cache, capacity: int, R: seq<string>, k: string, m: Entry)
    requires Inv(c, capacity) && Distinct(R) && c.order == Take(R, capacity)
    requires k !in c.entries
    ensures Add(c, k, m).order == Take([k] + Without(R, k), capacity)
  {
    if c.available > 0 {
      RecencyMissFree(c, capacity, R, k, m);
    } else {
      RecencyMissFull(c, capacity, R, k, m);
    }
  }

  lemma RecencyMissFree(c: Cache, capacity: int, R: seq<string>, k: string, m: Entry)
    requires Inv(c, capacity) && c.order == Take(R, capacity)
    requires k !in c.entries && c.available > 0
    ensures Add(c, k, m).order == Take([k] + Without(R, k), capacity)
  {
    assert |c.order| < capacity && c.order == R;
    WithoutAbsent(R, k);
    TakeCons(k, R, capacity);
  }

  lemma RecencyMissFull(c: Cache, capacity: int, R: seq<string>, k: string, m: Entry)
    requires Inv(c, capacity) && c.order == Take(R, capacity)
    requires k !in c.entries && c.available == 0
    ensures Add(c, k, m).order == Take([k] + Without(R, k), capacity)
  {
    var n := capacity - 1;
    assert |R| >= capacity;
    var kept := c.order[..n];
    assert Add(c, k, m).order == [k] + kept;
    assert kept == Take(R, n);
    assert k !in kept;
    TakeWithoutAbsent(R, k, n);
    TakeCons(k, Without(R, k), capacity);
  }

  /**
   * The LRU property over any history: starting from an empty cache, the
   * recency list is always the `capacity` most recently requested distinct keys,
   * most recent first. So the index holds exactly those keys, and every eviction
   * removed the key whose last request is the oldest.
   */
  lemma {:induction false} RecencyOrder(capacity: int, h: seq<Request>)
    requires capacity >= 1
    ensures Replay(Empty(capacity), capacity, h).order == Take(Recency(KeysOf(h)), capacity)
    decreases |h|
  {
    if h != [] {
      var pre := h[..|h| - 1];
      RecencyOrder(capacity, pre);
      var c := Replay(Empty(capacity), capacity, pre);
      var q := h[|h| - 1];
      var keys := KeysOf(h);
      assert keys[..|keys| - 1] == KeysOf(pre);
      var R := Recency(KeysOf(pre));
      assert Recency(keys) == [q.key] + Without(R, q.key);
      if q.key in c.entries {
        RecencyHit(c, capacity, R, q.key);
      } else {
        RecencyMiss(c, capacity, R, q.key, q.entry);
      }
    }
  }

  // ---------------------------------------------------------------------------
  // Eviction as the source writes it

  /**
   * `deleteNode` as written: it walks to the tail and then stores into the
   * `next` field of the tail's predecessor. On an empty list the walk ends at
   * NULL, which is then dereferenced; on a one-node list the predecessor is NULL.
   * Both are reported as `None`.
   */
  function EvictAsWritten(c: Cache): Option<Cache>
  {
    if |c.order| < 2 then None else Some(Evict(c))
  }

  /**
   * With capacity 1 the second distinct miss finds a full cache of one node:
   * the source dereferences NULL there, while the corrected `Evict` leaves the
   * empty cache the new key can go into.
   */
  lemma EvictAsWrittenSingleNode(c: Cache)
    requires Inv(c, 1) && c.available == 0
    ensures EvictAsWritten(c) == None
    ensures Evict(c) == Empty(1)
  {
    assert |c.order| == 1;
    assert c.entries.Keys == {c.order[0]};
  }
}
