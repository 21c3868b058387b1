/**
 * The `LRU` class of factor.cpp: a recency list, an index from key to cached
 * result and a free-slot counter, all updated in place, and `factor`, which
 * serves a request from the cache or computes and caches it. Each method is
 * proved against the operation of `LruCache` it performs.
 */
module FactorCache {
  import opened Wrappers
  import opened Decimal
  import opened Sorting
  import opened Keys
  import opened Divisors
  import opened LruCache

  /** `factor` on the cache as a value: sort, derive the key, then a hit or a computed and cached miss. */
  function FactorStep(c: Cache, input: seq<int>): (Cache, Entry)
    requires AllPositive(input)
    requires c.available == 0 ==> c.order != []
  {
    Access(c, CacheKey(input), SearchSorted(input))
  }

  /**
   * A hit returns exactly the cached result, adds and removes nothing, leaves
   * the free slots alone and makes the key the most recently used one.
   */
  lemma FactorHit(c: Cache, capacity: int, input: seq<int>)
    requires Inv(c, capacity) && AllPositive(input)
    requires CacheKey(input) in c.entries
    ensures Inv(FactorStep(c, input).0, capacity)
    ensures FactorStep(c, input).1 == c.entries[CacheKey(input)]
    ensures FactorStep(c, input).0.entries == c.entries
    ensures FactorStep(c, input).0.available == c.available
    ensures FactorStep(c, input).0.order[0] == CacheKey(input)
  {
    MoveFrontSpec(c, capacity, CacheKey(input));
  }

  /**
   * A miss returns the result of the divisor search: its keys are the numbers
   * of the request, and the list of `n` holds exactly what some number `d` of
   * the request with `d * d <= n` that divides `n` yields, `d` or `n / d`. The
   * result is cached at the head, and when the cache was full the least
   * recently used key was evicted.
   */
  lemma FactorMiss(c: Cache, capacity: int, input: seq<int>, n: int, x: int)
    requires Inv(c, capacity) && AllPositive(input)
    requires CacheKey(input) !in c.entries
    ensures Inv(FactorStep(c, input).0, capacity)
    ensures FactorStep(c, input).0.order[0] == CacheKey(input)
    ensures FactorStep(c, input).0.entries[CacheKey(input)] == FactorStep(c, input).1
    ensures c.available == 0 ==> c.order[|c.order| - 1] !in FactorStep(c, input).0.entries
    ensures n in FactorStep(c, input).1 <==> n in input
    ensures n in input ==>
      (x in FactorStep(c, input).1[n] <==> exists d :: d in input && d >= 1 && Yields(d, n, x))
  {
    AddSpec(c, capacity, CacheKey(input), SearchSorted(input));
    SearchSortedSpec(input, n, x);
  }

  /**
   * Asking again for the same numbers, in any order, is a hit that returns the
   * same result and leaves the cache exactly as the first call left it.
   */
  lemma RepeatIsHit(c: Cache, capacity: int, a: seq<int>, b: seq<int>)
    requires Inv(c, capacity) && AllPositive(a) && AllPositive(b)
    requires multiset(a) == multiset(b)
    ensures Inv(FactorStep(c, a).0, capacity)
    ensures FactorStep(FactorStep(c, a).0, b) == FactorStep(c, a)
  {
    CacheKeyCanonical(a, b);
    var k := CacheKey(a);
    AccessSpec(c, capacity, k, SearchSorted(a));
    var c1 := FactorStep(c, a).0;
    MoveFrontSpec(c1, capacity, k);
  }

  /** The requests a sequence of `factor` calls presents to the cache. */
  function RequestsOf(inputs: seq<seq<int>>): (h: seq<Request>)
    requires forall i :: 0 <= i < |inputs| ==> AllPositive(inputs[i])
    ensures |h| == |inputs|
    ensures forall i :: 0 <= i < |inputs| ==> h[i].key == CacheKey(inputs[i])
  {
    seq(|inputs|, i requires 0 <= i < |inputs| => Request(CacheKey(inputs[i]), SearchSorted(inputs[i])))
  }

  /** The cache after a sequence of `factor` calls, one `FactorStep` after the other. */
  function FactorRun(c: Cache, capacity: int, inputs: seq<seq<int>>): (r: Cache)
    requires Inv(c, capacity)
    requires forall i :: 0 <= i < |inputs| ==> AllPositive(inputs[i])
    ensures Inv(r, capacity)
    decreases |inputs|
  {
    if inputs == [] then c
    else
      var x := inputs[|inputs| - 1];
      var prev := FactorRun(c, capacity, inputs[..|inputs| - 1]);
      AccessSpec(prev, capacity, CacheKey(x), SearchSorted(x));
      FactorStep(prev, x).0
  }

  /** Running the `factor` calls is replaying the requests they present to the cache. */
  lemma {:induction false} FactorRunIsReplay(c: Cache, capacity: int, inputs: seq<seq<int>>)
    requires Inv(c, capacity)
    requires forall i :: 0 <= i < |inputs| ==> AllPositive(inputs[i])
    ensures FactorRun(c, capacity, inputs) == Replay(c, capacity, RequestsOf(inputs))
    decreases |inputs|
  {
    if inputs != [] {
      var pre := inputs[..|inputs| - 1];
      FactorRunIsReplay(c, capacity, pre);
      RequestsOfSnoc(inputs);
    }
  }

  lemma RequestsOfSnoc(inputs: seq<seq<int>>)
    requires inputs != []
    requires forall i :: 0 <= i < |inputs| ==> AllPositive(inputs[i])
    ensures RequestsOf(inputs)[..|inputs| - 1] == RequestsOf(inputs[..|inputs| - 1])
    ensures RequestsOf(inputs)[|inputs| - 1] ==
      Request(CacheKey(inputs[|inputs| - 1]), SearchSorted(inputs[|inputs| - 1]))
  {
  }

  /**
   * Every sequence of `factor` calls keeps the `capacity` most recently
   * requested distinct keys, most recent first, in the list and the index.
   */
  lemma FactorRunOrder(capacity: int, inputs: seq<seq<int>>)
    requires capacity >= 1
    requires forall i :: 0 <= i < |inputs| ==> AllPositive(inputs[i])
    ensures FactorRun(Empty(capacity), capacity, inputs).order ==
      Take(Recency(KeysOf(RequestsOf(inputs))), capacity)
  {
    FactorRunIsReplay(Empty(capacity), capacity, inputs);
    RecencyOrder(capacity, RequestsOf(inputs));
  }

  // ---------------------------------------------------------------------------
  // The call sequence of `test1`

  const Input1: seq<int> := [2, 4, 5, 10, 20]
  const Input2: seq<int> := [1, 3, 5, 6, 25]
  const Input3: seq<int> := [2, 3, 9, 12, 18]
  const Input4: seq<int> := [2, 4, 3, 15, 21]
  const Input5: seq<int> := [22, 11, 5, 2, 20]
  const Input6: seq<int> := [2, 4, 20, 25, 50]
  const Input7: seq<int> := [1, 4, 30, 24, 50]
  const Input8: seq<int> := [2, 4, 20, 26, 80]
  const Input9: seq<int> := [3, 4, 20, 21, 50]

  /** The nine distinct requests of `test1`. */
  const Test1Inputs: seq<seq<int>> :=
    [Input1, Input2, Input3, Input4, Input5, Input6, Input7, Input8, Input9]

  /** Which of the nine requests `test1` makes at each of its eleven calls; the first and the fifth are asked twice. */
  const Test1Pattern: seq<int> := [0, 0, 1, 2, 3, 4, 5, 4, 6, 7, 8]

  /** The eleven calls of `test1`, made of its nine requests. */
  function Test1Calls(ins: seq<seq<int>>): (calls: seq<seq<int>>)
    requires |ins| == 9
    ensures |calls| == 11
    ensures forall i :: 0 <= i < 11 ==> 0 <= Test1Pattern[i] < 9 && calls[i] == ins[Test1Pattern[i]]
  {
    seq(11, i requires 0 <= i < 11 => ins[Test1Pattern[i]])
  }

  /** The first four calls of `test1`: the first key twice, then two new ones. */
  lemma Test1FirstFour(ks: seq<string>)
    requires |ks| == 9 && Distinct(ks)
    ensures Recency([ks[0], ks[0], ks[1], ks[2]]) == [ks[2], ks[1], ks[0]]
  {
    var k1, k2, k3 := ks[0], ks[1], ks[2];
    var p1 := [k1];
    assert Recency(p1) == [k1] by { RecencyFresh([], k1, []); assert [] + [k1] == p1; }
    var p2 := p1 + [k1];
    assert Recency(p2) == [k1] by { RecencySnoc(p1, k1); }
    var p3 := p2 + [k2];
    assert Recency(p3) == [k2, k1] by { RecencyFresh(p2, k2, [k1]); }
    var p4 := p3 + [k3];
    assert Recency(p4) == [k3, k2, k1] by { RecencyFresh(p3, k3, [k2, k1]); }
    assert p4 == [k1, k1, k2, k3];
  }

  /** The first seven calls of `test1`: six distinct keys, the first one requested twice. */
  lemma Test1Opening(ks: seq<string>)
    requires |ks| == 9 && Distinct(ks)
    ensures Recency([ks[0], ks[0], ks[1], ks[2], ks[3], ks[4], ks[5]]) ==
      [ks[5], ks[4], ks[3], ks[2], ks[1], ks[0]]
  {
    var k1, k2, k3, k4, k5, k6 := ks[0], ks[1], ks[2], ks[3], ks[4], ks[5];
    var p4 := [k1, k1, k2, k3];
    Test1FirstFour(ks);
    var p5 := p4 + [k4];
    assert Recency(p5) == [k4, k3, k2, k1] by { RecencyFresh(p4, k4, [k3, k2, k1]); }
    var p6 := p5 + [k5];
    assert Recency(p6) == [k5, k4, k3, k2, k1] by { RecencyFresh(p5, k5, [k4, k3, k2, k1]); }
    var p7 := p6 + [k6];
    assert Recency(p7) == [k6, k5, k4, k3, k2, k1] by { RecencyFresh(p6, k6, [k5, k4, k3, k2, k1]); }
    assert p7 == [k1, k1, k2, k3, k4, k5, k6];
  }

  /** The eighth call of `test1` asks for the fifth key again and moves it back to the front. */
  lemma Test1Repeat(ks: seq<string>)
    requires |ks| == 9 && Distinct(ks)
    ensures Recency([ks[0], ks[0], ks[1], ks[2], ks[3], ks[4], ks[5], ks[4]]) ==
      [ks[4], ks[5], ks[3], ks[2], ks[1], ks[0]]
  {
    var k1, k2, k3, k4, k5, k6 := ks[0], ks[1], ks[2], ks[3], ks[4], ks[5];
    var p7 := [k1, k1, k2, k3, k4, k5, k6];
    Test1Opening(ks);
    RecencySnoc(p7, k5);
    WithoutAbsent([k4, k3, k2, k1], k5);
    assert [k6, k5, k4, k3, k2, k1][1..] == [k5, k4, k3, k2, k1];
    assert [k5, k4, k3, k2, k1][1..] == [k4, k3, k2, k1];
    assert p7 + [k5] == [k1, k1, k2, k3, k4, k5, k6, k5];
  }

  /** The ninth call of `test1` brings a new key to the front. */
  lemma Test1NineCalls(ks: seq<string>)
    requires |ks| == 9 && Distinct(ks)
    ensures Recency([ks[0], ks[0], ks[1], ks[2], ks[3], ks[4], ks[5], ks[4], ks[6]]) ==
      [ks[6], ks[4], ks[5], ks[3], ks[2], ks[1], ks[0]]
  {
    var k1, k2, k3, k4, k5, k6, k7 := ks[0], ks[1], ks[2], ks[3], ks[4], ks[5], ks[6];
    var p8 := [k1, k1, k2, k3, k4, k5, k6, k5];
    Test1Repeat(ks);
    RecencyFresh(p8, k7, [k5, k6, k4, k3, k2, k1]);
    assert p8 + [k7] == [k1, k1, k2, k3, k4, k5, k6, k5, k7];
  }

  /** The recency order of the `test1` history, for any nine distinct keys `ks[0]` to `ks[8]`. */
  lemma Test1Recency(ks: seq<string>)
    requires |ks| == 9 && Distinct(ks)
    ensures Recency([ks[0], ks[0], ks[1], ks[2], ks[3], ks[4], ks[5], ks[4], ks[6], ks[7], ks[8]]) ==
      [ks[8], ks[7], ks[6], ks[4], ks[5], ks[3], ks[2], ks[1], ks[0]]
  {
    var k1, k2, k3, k4, k5, k6, k7, k8, k9 := ks[0], ks[1], ks[2], ks[3], ks[4], ks[5], ks[6], ks[7], ks[8];
    var p10 := [k1, k1, k2, k3, k4, k5, k6, k5, k7, k8];
    Test1TenCalls(ks);
    assert k9 !in [k8, k7, k5, k6, k4, k3, k2, k1];
    RecencyFresh(p10, k9, [k8, k7, k5, k6, k4, k3, k2, k1]);
    assert p10 + [k9] == [k1, k1, k2, k3, k4, k5, k6, k5, k7, k8, k9];
  }

  /** The tenth call of `test1` brings another new key to the front. */
  lemma Test1TenCalls(ks: seq<string>)
    requires |ks| == 9 && Distinct(ks)
    ensures Recency([ks[0], ks[0], ks[1], ks[2], ks[3], ks[4], ks[5], ks[4], ks[6], ks[7]]) ==
      [ks[7], ks[6], ks[4], ks[5], ks[3], ks[2], ks[1], ks[0]]
  {
    var k1, k2, k3, k4, k5, k6, k7, k8 := ks[0], ks[1], ks[2], ks[3], ks[4], ks[5], ks[6], ks[7];
    var p9 := [k1, k1, k2, k3, k4, k5, k6, k5, k7];
    Test1NineCalls(ks);
    assert k8 !in [k7, k5, k6, k4, k3, k2, k1];
    RecencyFresh(p9, k8, [k7, k5, k6, k4, k3, k2, k1]);
    assert p9 + [k8] == [k1, k1, k2, k3, k4, k5, k6, k5, k7, k8];
  }

  /** The requests of `test1` hold positive numbers only and no two of them are the same multiset. */
  lemma Test1InputsDiffer()
    ensures |Test1Inputs| == 9
    ensures forall i :: 0 <= i < 9 ==> AllPositive(Test1Inputs[i])
    ensures forall i, j :: 0 <= i < j < 9 ==> multiset(Test1Inputs[i]) != multiset(Test1Inputs[j])
  {
    var w := [[2, 4, 5, 4, 5, 2, 5, 2], [1, 1, 1, 1, 3, 1, 1], [9, 3, 3, 2, 3, 2], [4, 3, 2, 3, 2],
      [22, 22, 22, 22], [2, 25, 2], [1, 1], [2]];
    forall i, j | 0 <= i < j < 9
      ensures multiset(Test1Inputs[i]) != multiset(Test1Inputs[j])
    {
      MultisetsDiffer(Test1Inputs[i], Test1Inputs[j], w[i][j - i - 1]);
    }
  }

  lemma MultisetsDiffer(a: seq<int>, b: seq<int>, x: int)
    requires x in a && x !in b
    ensures multiset(a) != multiset(b)
  {
    assert x in multiset(a);
  }

  /**
   * The eleven requests `test1` presents to the cache, whatever their keys:
   * two calls carry the same key exactly when they make the same request.
   */
  predicate Test1Shaped(h: seq<Request>)
  {
    && |h| == 11
    && (forall i, j :: 0 <= i < 11 && 0 <= j < 11 ==>
          (h[i].key == h[j].key <==> Test1Pattern[i] == Test1Pattern[j]))
  }

  /** The nine distinct keys of a `test1` history, in the order they are first requested. */
  function Test1Keys(h: seq<Request>): (ks: seq<string>)
    requires |h| == 11
    ensures |ks| == 9
  {
    [h[0].key, h[2].key, h[3].key, h[4].key, h[5].key, h[6].key, h[8].key, h[9].key, h[10].key]
  }

  /** In a `test1` history the nine first-time keys are pairwise different, and the two repeats reuse earlier keys. */
  lemma Test1ShapedKeys(h: seq<Request>)
    requires Test1Shaped(h)
    ensures Distinct(Test1Keys(h))
    ensures var ks := Test1Keys(h);
      KeysOf(h) == [ks[0], ks[0], ks[1], ks[2], ks[3], ks[4], ks[5], ks[4], ks[6], ks[7], ks[8]]
  {
    var ks := Test1Keys(h);
    var first := [0, 2, 3, 4, 5, 6, 8, 9, 10];
    forall a, b | 0 <= a < b < 9
      ensures ks[a] != ks[b]
    {
      assert ks[a] == h[first[a]].key && ks[b] == h[first[b]].key;
      assert Test1Pattern[first[a]] == a && Test1Pattern[first[b]] == b;
    }
    assert h[1].key == h[0].key && h[7].key == h[5].key;
  }

  /** The history of `test1` leaves, head to tail, the keys of the ninth, eighth and seventh request, then the fifth and the sixth. */
  lemma Test1ReplayOrder(h: seq<Request>, ks: seq<string>)
    requires |ks| == 9 && Distinct(ks)
    requires KeysOf(h) == [ks[0], ks[0], ks[1], ks[2], ks[3], ks[4], ks[5], ks[4], ks[6], ks[7], ks[8]]
    ensures Replay(Empty(5), 5, h).order == [ks[8], ks[7], ks[6], ks[4], ks[5]]
  {
    var recent := [ks[8], ks[7], ks[6], ks[4], ks[5]];
    Test1Recency(ks);
    RecencyOrder(5, h);
    assert Take(recent + [ks[3], ks[2], ks[1], ks[0]], 5) == recent;
  }

  /** The index after the history of `test1` holds exactly these five keys. */
  lemma Test1Replay(h: seq<Request>, ks: seq<string>)
    requires |ks| == 9 && Distinct(ks)
    requires KeysOf(h) == [ks[0], ks[0], ks[1], ks[2], ks[3], ks[4], ks[5], ks[4], ks[6], ks[7], ks[8]]
    ensures Replay(Empty(5), 5, h).order == [ks[8], ks[7], ks[6], ks[4], ks[5]]
    ensures Replay(Empty(5), 5, h).entries.Keys == {ks[8], ks[7], ks[6], ks[4], ks[5]}
  {
    var r := Replay(Empty(5), 5, h);
    Test1ReplayOrder(h, ks);
    IndexIsList(r, 5);
  }

  /**
   * The scenario `test1` runs, for any nine requests of positive numbers that
   * are pairwise different multisets: with five slots, after the eleven calls
   * the list holds, head to tail, the keys of the ninth, eighth, seventh, fifth
   * and sixth request, and the index holds exactly these; the first four
   * requests were evicted.
   */
  lemma Test1Scenario(ins: seq<seq<int>>)
    requires |ins| == 9
    requires forall i :: 0 <= i < 9 ==> AllPositive(ins[i])
    requires forall i, j :: 0 <= i < j < 9 ==> multiset(ins[i]) != multiset(ins[j])
    ensures FactorRun(Empty(5), 5, Test1Calls(ins)).order ==
      [CacheKey(ins[8]), CacheKey(ins[7]), CacheKey(ins[6]), CacheKey(ins[4]), CacheKey(ins[5])]
    ensures FactorRun(Empty(5), 5, Test1Calls(ins)).entries.Keys ==
      {CacheKey(ins[8]), CacheKey(ins[7]), CacheKey(ins[6]), CacheKey(ins[4]), CacheKey(ins[5])}
  {
    var calls := Test1Calls(ins);
    var h := RequestsOf(calls);
    forall i, j | 0 <= i < 11 && 0 <= j < 11
      ensures h[i].key == h[j].key <==> Test1Pattern[i] == Test1Pattern[j]
    {
      CacheKeyCanonical(ins[Test1Pattern[i]], ins[Test1Pattern[j]]);
    }
    Test1ShapedKeys(h);
    var ks := Test1Keys(h);
    Test1Replay(h, ks);
    FactorRunIsReplay(Empty(5), 5, calls);
  }

  /** `test1` itself: its requests meet the premises of `Test1Scenario`, so its eviction order follows. */
  lemma Test1()
    ensures FactorRun(Empty(5), 5, Test1Calls(Test1Inputs)).order ==
      [CacheKey(Input9), CacheKey(Input8), CacheKey(Input7), CacheKey(Input5), CacheKey(Input6)]
  {
    Test1InputsDiffer();
    Test1Scenario(Test1Inputs);
  }

  class Lru {
    /** The keys of the cached results, most recently used first: the list starting at `head`. */
    var order: seq<string>
    /** The index from key to cached result. */
    var hash: map<string, Entry>
    /** The number of results that can still be cached before one is evicted. */
    var availableNode: int
    /** The size the cache was constructed with. */
    ghost const capacity: int

    function State(): Cache
      reads this
    {
      Cache(order, hash, availableNode)
    }

    ghost predicate Valid()
      reads this
    {
      Inv(State(), capacity)
    }

    /** A cache for `size` results, empty. */
    constructor (size: int)
      requires size >= 1
      ensures Valid() && capacity == size
      ensures State() == Empty(size)
    {
      order := [];
      hash := map[];
      availableNode := size;
      capacity := size;
    }

    /** The key of a request: each number in decimal followed by ",". */
    method Vtos(input: seq<int>) returns (s: string)
      ensures s == Key(input)
    {
      s := "";
      for i := 0 to |input|
        invariant s == Key(input[..i])
      {
        KeyPrefix(input, i);
        s := s + (ToDecimal(input[i]) + ",");
      }
      assert input[..|input|] == input;
    }

    /** Caches `result` under the key of `input` at the head, evicting the tail first when no slot is free. */
    method AddNode(input: seq<int>, result: Entry)
      requires Valid() && Key(input) !in hash
      modifies this
      ensures Valid()
      ensures State() == Add(old(State()), Key(input), result)
    {
      AddSpec(State(), capacity, Key(input), result);
      var s := Vtos(input);
      if availableNode == 0 {
        DeleteNode();
      }
      order := [s] + order;
      hash := hash[s := result];
      availableNode := availableNode - 1;
    }

    /** Evicts the tail of the list, the least recently used result, from the list and the index. */
    method DeleteNode()
      requires Valid() && order != []
      modifies this
      ensures Valid()
      ensures State() == Evict(old(State()))
    {
      EvictSpec(State(), capacity);
      var tail := order[|order| - 1];
      hash := hash - {tail};
      order := order[..|order| - 1];
      availableNode := availableNode + 1;
    }

    /** Moves the cached key `s` to the head of the list. */
    method MoveFront(s: string)
      requires Valid() && s in hash
      modifies this
      ensures Valid()
      ensures State() == Touch(old(State()), s)
    {
      MoveFrontSpec(State(), capacity, s);
      if order[0] == s {
        return;
      }
      order := [s] + Without(order, s);
    }

    /** The number of free slots: the capacity less the results cached. */
    method GetAvailability() returns (n: int)
      requires Valid()
      ensures n == availableNode
      ensures n == capacity - |hash|
    {
      n := availableNode;
      EntriesPlusFree(State(), capacity);
    }

    /** The key at the head of the list, the most recently used one, if any result is cached. */
    method GetHead() returns (head: Option<string>)
      requires Valid()
      ensures head == None <==> hash == map[]
      ensures head != None ==> head.value == order[0] && head.value in hash
    {
      if order == [] {
        assert hash.Keys == {};
        head := None;
      } else {
        assert order[0] in hash;
        head := Some(order[0]);
      }
    }

    /**
     * Serves a request: on a hit the cached result is returned and its key
     * promoted; on a miss the divisor search runs and its result is cached.
     */
    method Factor(input: seq<int>) returns (result: Entry)
      requires Valid() && AllPositive(input)
      modifies this
      ensures Valid()
      ensures (State(), result) == FactorStep(old(State()), input)
    {
      var sorted := Sort(input);
      var s := Vtos(sorted);
      if s in hash {
        MoveFront(s);
        result := hash[s];
        return;
      }
      SortKeepsPositive(input);
      result := ComputeDivisors(sorted);
      AddNode(sorted, result);
    }
  }
}
