/**
 * The cache key of `LRU::vtos`: every number's decimal text followed by ",".
 * Because the separator ends every number and never occurs inside one, the
 * key determines the sequence it was built from; since `LRU::factor` sorts
 * before building it, two requests share a key exactly when they hold the same
 * multiset of numbers.
 */
module Keys {
  import opened Decimal
  import opened Sorting
  import opened Seqs

  /** The key of a sequence: `ToDecimal(x) + ","` for each element, in order. */
  function Key(s: seq<int>): string
  {
    if s == [] then "" else ToDecimal(s[0]) + "," + Key(s[1..])
  }

  lemma KeyCons(a: int, t: seq<int>)
    ensures Key([a] + t) == (ToDecimal(a) + ",") + Key(t)
  {
    assert ([a] + t)[1..] == t;
  }

  /** Appending one number appends its decimal text and a separator. */
  lemma {:induction false} KeySnoc(s: seq<int>, x: int)
    ensures Key(s + [x]) == Key(s) + (ToDecimal(x) + ",")
  {
    if s == [] {
      assert s + [x] == [x] + [];
      KeyCons(x, []);
    } else {
      KeySnoc(s[1..], x);
      KeySnocStep(s, x);
    }
  }

  /** The step of `KeySnoc`: the claim for `s` follows from the claim for its tail. */
  lemma KeySnocStep(s: seq<int>, x: int)
    requires s != []
    requires Key(s[1..] + [x]) == Key(s[1..]) + (ToDecimal(x) + ",")
    ensures Key(s + [x]) == Key(s) + (ToDecimal(x) + ",")
  {
    var t := s[1..];
    assert (s + [x])[1..] == t + [x];
    KeyUnfold(s + [x]);
    AppendAssoc(ToDecimal(s[0]) + ",", Key(t), ToDecimal(x) + ",");
  }

  /** A non-empty key starts with its first number's text and a separator. */
  lemma KeyUnfold(s: seq<int>)
    requires s != []
    ensures Key(s) == (ToDecimal(s[0]) + ",") + Key(s[1..])
  {
  }

  /** The key of the first `i + 1` numbers extends that of the first `i`. */
  lemma KeyPrefix(s: seq<int>, i: int)
    requires 0 <= i < |s|
    ensures Key(s[..i + 1]) == Key(s[..i]) + (ToDecimal(s[i]) + ",")
  {
    assert s[..i + 1] == s[..i] + [s[i]];
    KeySnoc(s[..i], s[i]);
  }

  /** The text before the first separator. */
  function Field(s: string): string
  {
    if s == [] || s[0] == ',' then [] else [s[0]] + Field(s[1..])
  }

  /** A separator-free field followed by "," is read back by `Field`. */
  lemma {:induction false} FieldOf(d: string, rest: string)
    requires ',' !in d
    ensures Field(d + "," + rest) == d
  {
    if d != [] {
      assert (d + "," + rest)[1..] == d[1..] + "," + rest;
      assert d == [d[0]] + d[1..];
      FieldOf(d[1..], rest);
    }
  }

  /** The key is injective: different sequences never collide. */
  lemma {:induction false} KeyInjective(a: seq<int>, b: seq<int>)
    requires Key(a) == Key(b)
    ensures a == b
  {
    if a != [] && b != [] {
      var da, db := ToDecimal(a[0]), ToDecimal(b[0]);
      FieldOf(da, Key(a[1..]));
      FieldOf(db, Key(b[1..]));
      assert da == db;
      DecimalInjective(a[0], b[0]);
      assert Key(a[1..]) == Key(a)[|da| + 1..] == Key(b)[|db| + 1..] == Key(b[1..]);
      KeyInjective(a[1..], b[1..]);
    }
  }

  /** The key `LRU::factor` looks up for a request: that of its sorted copy. */
  function CacheKey(input: seq<int>): string
  {
    Key(Sort(input))
  }

  /** Two requests hit the same cache entry exactly when they are permutations of each other. */
  lemma CacheKeyCanonical(a: seq<int>, b: seq<int>)
    ensures CacheKey(a) == CacheKey(b) <==> multiset(a) == multiset(b)
  {
    if CacheKey(a) == CacheKey(b) {
      KeyInjective(Sort(a), Sort(b));
    }
    if multiset(a) == multiset(b) {
      SortedUnique(Sort(a), Sort(b));
    }
  }

  /** Requests that differ in some number have different cache keys. */
  lemma CacheKeysDiffer(a: seq<int>, b: seq<int>, x: int)
    requires x in a && x !in b
    ensures CacheKey(a) != CacheKey(b)
  {
    CacheKeyCanonical(a, b);
    assert x in multiset(a) && x !in multiset(b);
  }

  /** The separator keeps `[1, 23]` and `[12, 3]` apart. */
  lemma SeparatorExample()
    ensures Key([1, 23]) == "1,23," && Key([12, 3]) == "12,3,"
    ensures Key([1, 23]) != Key([12, 3])
  {
    assert Digits(23) == Digits(2) + ['3'];
    assert Digits(12) == Digits(1) + ['2'];
  }
}
