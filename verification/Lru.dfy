/** The hot-value cache as a recency-ordered sequence, most recent first. */
module Lru {
  import opened Prelude

  const ENTRY_OVERHEAD: nat := 130

  datatype Hot = Hot(key: bytes, value: bytes)

  function Size(klen: nat, vlen: nat): (n: nat) { klen + vlen + ENTRY_OVERHEAD }

  function Weight(c: seq<Hot>): (n: nat)
  {
    if c == [] then 0 else Size(|c[0].key|, |c[0].value|) + Weight(c[1..])
  }

  function Keys(c: seq<Hot>): (ks: seq<bytes>)
    ensures |ks| == |c|
    ensures forall i | 0 <= i < |c| :: ks[i] == c[i].key
  {
    if c == [] then [] else [c[0].key] + Keys(c[1..])
  }

  function Find(c: seq<Hot>, k: bytes): (v: Option<bytes>)
    ensures v.Some? <==> k in Keys(c)
    ensures v.Some? ==> Hot(k, v.value) in c
  {
    if c == [] then None else if c[0].key == k then Some(c[0].value) else Find(c[1..], k)
  }

  /** `LruCache::pop` of one key. */
  function Drop(c: seq<Hot>, k: bytes): (d: seq<Hot>)
    ensures forall h | h in d :: h in c && h.key != k
    ensures forall h | h in c && h.key != k :: h in d
  {
    if c == [] then [] else (if c[0].key == k then [] else [c[0]]) + Drop(c[1..], k)
  }

  /** `LruCache::put`, and `get` of a present key: the key becomes the most recent. */
  function Put(c: seq<Hot>, k: bytes, v: bytes): (d: seq<Hot>)
  {
    [Hot(k, v)] + Drop(c, k)
  }

  function Without(s: seq<bytes>, k: bytes): (r: seq<bytes>)
    ensures forall x :: x in r <==> x in s && x != k
  {
    if s == [] then [] else (if s[0] == k then [] else [s[0]]) + Without(s[1..], k)
  }

  function Touch(s: seq<bytes>, k: bytes): (r: seq<bytes>)
  {
    [k] + Without(s, k)
  }

  function Values(c: seq<Hot>): (vs: seq<bytes>)
    ensures |vs| == |c|
    ensures forall i | 0 <= i < |c| :: vs[i] == c[i].value
  {
    seq(|c|, i requires 0 <= i < |c| => c[i].value)
  }

  /** What the cache takes up: all key bytes, all value bytes, and 130 bytes for each entry. */
  function Footprint(c: seq<Hot>): (n: nat)
  {
    |Concat(Keys(c))| + |Concat(Values(c))| + 130 * |c|
  }

  lemma DistinctTail(s: seq<bytes>)
    requires Distinct(s) && s != []
    ensures Distinct(s[1..]) && s[0] !in s[1..]
  {
    assert forall i | 0 <= i < |s[1..]| :: s[1..][i] == s[i + 1];
  }

  lemma DistinctCons(x: bytes, s: seq<bytes>)
    requires Distinct(s) && x !in s
    ensures Distinct([x] + s)
  {
  }

  lemma {:induction false} DistinctWithout(s: seq<bytes>, k: bytes)
    requires Distinct(s)
    ensures Distinct(Without(s, k)) && Distinct(Touch(s, k))
  {
    if s != [] {
      DistinctTail(s);
      DistinctWithout(s[1..], k);
      var rest := Without(s[1..], k);
      assert s[0] !in rest;
      DistinctCons(s[0], rest);
      assert [] + rest == rest;
    }
    DistinctCons(k, Without(s, k));
  }

  lemma {:induction false} WithoutAppend(a: seq<bytes>, b: seq<bytes>, k: bytes)
    ensures Without(a + b, k) == Without(a, k) + Without(b, k)
  {
    if a == [] {
      assert a + b == b;
    } else {
      WithoutAppend(a[1..], b, k);
      assert (a + b)[0] == a[0] && (a + b)[1..] == a[1..] + b;
      Assoc(if a[0] == k then [] else [a[0]], Without(a[1..], k), Without(b, k));
    }
  }

  lemma {:induction false} KeysOfDrop(c: seq<Hot>, k: bytes)
    ensures Keys(Drop(c, k)) == Without(Keys(c), k)
  {
    if c != [] {
      KeysOfDrop(c[1..], k);
      KeysCons(c[0], Drop(c[1..], k));
      assert Keys(c)[1..] == Keys(c[1..]);
    }
  }

  lemma KeysCons(h: Hot, c: seq<Hot>)
    ensures Keys([h] + c) == [h.key] + Keys(c)
  {
    assert ([h] + c)[1..] == c;
  }

  lemma KeysOfPut(c: seq<Hot>, k: bytes, v: bytes)
    ensures Keys(Put(c, k, v)) == Touch(Keys(c), k)
  {
    KeysOfDrop(c, k);
    KeysCons(Hot(k, v), Drop(c, k));
  }

  /** The cache stays a prefix of the recency order through drops and touches of any key. */
  lemma PrefixKept(c: seq<Hot>, recency: seq<bytes>, k: bytes, v: bytes)
    requires Keys(c) <= recency
    ensures Keys(Drop(c, k)) <= Without(recency, k)
    ensures Keys(Put(c, k, v)) <= Touch(recency, k)
  {
    var n := |c|;
    assert recency == Keys(c) + recency[n..];
    WithoutAppend(Keys(c), recency[n..], k);
    KeysOfDrop(c, k);
    KeysCons(Hot(k, v), Drop(c, k));
  }

  lemma CachedDistinct(cache: seq<Hot>, recency: seq<bytes>)
    requires Distinct(recency) && Keys(cache) <= recency
    ensures Distinct(Keys(cache))
  {
  }

  lemma PutOrder(cache: seq<Hot>, recency: seq<bytes>, k: bytes, v: bytes, kept: seq<Hot>)
    requires Distinct(recency) && Keys(cache) <= recency && kept <= Put(cache, k, v)
    ensures Distinct(Touch(recency, k)) && Keys(kept) <= Touch(recency, k)
  {
    PrefixKept(cache, recency, k, v);
    DistinctWithout(recency, k);
    KeysOfPrefix(Put(cache, k, v), kept);
  }

  lemma PutMember(cache: seq<Hot>, k: bytes, v: bytes, kept: seq<Hot>, h: Hot)
    requires kept <= Put(cache, k, v) && h in kept
    ensures h == Hot(k, v) || (h in cache && h.key != k)
  {
    assert h in Put(cache, k, v);
  }

  lemma {:induction false} KeysOfPrefix(c: seq<Hot>, p: seq<Hot>)
    requires p <= c
    ensures Keys(p) <= Keys(c)
  {
    if p != [] {
      assert c[0] == p[0] && p[1..] <= c[1..];
      KeysOfPrefix(c[1..], p[1..]);
      KeysTail(c);
      KeysTail(p);
      assert Keys(c) == [c[0].key] + Keys(c[1..]);
    }
  }

  lemma {:induction false} WeightOfDrop(c: seq<Hot>, k: bytes)
    requires Distinct(Keys(c))
    ensures Weight(Drop(c, k)) + (if Find(c, k).Some? then Size(|k|, |Find(c, k).value|) else 0) == Weight(c)
  {
    if c != [] {
      var rest := c[1..];
      KeysTail(c);
      WeightOfDrop(rest, k);
      if c[0].key == k {
        assert [] + Drop(rest, k) == Drop(rest, k);
        assert Find(rest, k).None?;
        assert Drop(c, k) == Drop(rest, k);
      } else {
        assert Drop(c, k)[1..] == Drop(rest, k);
      }
    }
  }

  lemma KeysTail(c: seq<Hot>)
    requires c != []
    ensures Keys(c)[1..] == Keys(c[1..])
    ensures Distinct(Keys(c)) ==> Distinct(Keys(c[1..])) && c[0].key !in Keys(c[1..])
  {
    if Distinct(Keys(c)) {
      DistinctTail(Keys(c));
    }
  }

  /** The running count is a count of bytes. */
  lemma {:induction false} WeightIsFootprint(c: seq<Hot>)
    ensures Weight(c) == Footprint(c)
  {
    if c != [] {
      WeightIsFootprint(c[1..]);
      assert Values(c)[1..] == Values(c[1..]);
      assert Keys(c)[1..] == Keys(c[1..]);
    }
  }

  lemma FootprintOfOne(h: Hot)
    ensures Footprint([h]) == |h.key| + |h.value| + 130
  {
    assert Keys([h]) == [h.key] && Values([h]) == [h.value];
    ConcatOne(h.key);
    ConcatOne(h.value);
  }

  lemma WeightOfPut(c: seq<Hot>, k: bytes, v: bytes)
    ensures Weight(Put(c, k, v)) == Weight(Drop(c, k)) + Size(|k|, |v|)
  {
    assert Put(c, k, v)[1..] == Drop(c, k);
  }

  /** Promoting a cached entry does not change the weight. */
  lemma WeightOfTouch(cache: seq<Hot>, k: bytes)
    requires Distinct(Keys(cache)) && Find(cache, k).Some?
    ensures var cache' := Put(cache, k, Find(cache, k).value);
            Weight(cache') == Weight(cache) && Footprint(cache') == Footprint(cache)
  {
    WeightIsFootprint(cache);
    WeightIsFootprint(Put(cache, k, Find(cache, k).value));
    WeightOfDrop(cache, k);
    WeightOfPut(cache, k, Find(cache, k).value);
  }

  lemma {:induction false} WeightOfLast(c: seq<Hot>)
    requires c != []
    ensures var last := c[|c| - 1]; Weight(c) == Weight(c[..|c| - 1]) + Size(|last.key|, |last.value|)
  {
    if |c| > 1 {
      WeightOfLast(c[1..]);
      assert c[1..][..|c| - 2] == c[..|c| - 1][1..];
      assert c[1..][|c| - 2] == c[|c| - 1];
    } else {
      assert c[1..] == [] && c[..0] == [];
    }
  }

  lemma {:induction false} FindInDistinct(c: seq<Hot>, h: Hot)
    requires Distinct(Keys(c)) && h in c
    ensures Find(c, h.key) == Some(h.value)
  {
    KeysTail(c);
    if c[0] != h {
      assert c == [c[0]] + c[1..];
      assert h in c[1..];
      FindInDistinct(c[1..], h);
      assert h.key in Keys(c[1..]);
    }
  }

  /** `kept` is what eviction down to `low` leaves of `c`: its longest most-recent prefix that weighs at most `low`. */
  predicate LongestWithin(c: seq<Hot>, low: nat, kept: seq<Hot>) {
    && kept <= c
    && Weight(kept) <= low
    && (|kept| < |c| ==> Weight(c[..|kept| + 1]) > low)
  }

  /** The longest such prefix, as a function: drop the least recent entry until the rest fits. */
  function Longest(c: seq<Hot>, low: nat): (kept: seq<Hot>)
  {
    if Weight(c) <= low then c else Longest(c[..|c| - 1], low)
  }

  /** What eviction makes of the cache: nothing without a budget or below the high-water mark, else the
      longest prefix within the low-water mark. */
  function Trim(budget: nat, c: seq<Hot>): (kept: seq<Hot>)
  {
    if budget == 0 || Weight(c) < budget / 10 * 9 then c else Longest(c, budget / 10 * 8)
  }

  lemma {:induction false} WeightOfPrefix(c: seq<Hot>, n: nat)
    requires n <= |c|
    ensures Weight(c[..n]) <= Weight(c)
  {
    if n < |c| {
      WeightOfLast(c);
      WeightOfPrefix(c[..|c| - 1], n);
      assert c[..|c| - 1][..n] == c[..n];
    } else {
      assert c[..n] == c;
    }
  }

  /** The survivors of eviction are the longest most-recent prefix within the mark, and there is only one such. */
  lemma {:induction false} LongestIsLongest(c: seq<Hot>, low: nat, kept: seq<Hot>)
    ensures LongestWithin(c, low, kept) <==> kept == Longest(c, low)
    decreases |c|
  {
    if Weight(c) <= low {
      if LongestWithin(c, low, kept) && |kept| < |c| {
        WeightOfPrefix(c, |kept| + 1);
      }
      assert kept <= c && |kept| == |c| ==> kept == c;
    } else {
      var d := c[..|c| - 1];
      LongestIsLongest(d, low, kept);
      assert kept <= c && |kept| < |c| ==> kept <= d;
      assert |kept| < |d| ==> d[..|kept| + 1] == c[..|kept| + 1];
      assert c[..|c|] == c;
      assert kept <= c && |kept| == |c| ==> kept == c;
    }
  }

  /** What eviction does, told by the weights: without a budget, or below nine tenths of it, nothing; otherwise
      exactly the longest most-recent prefix of at most eight tenths is left. */
  lemma EvictionKeepsMost(budget: nat, c: seq<Hot>, kept: seq<Hot>)
    ensures kept == Trim(budget, c) <==>
            if budget == 0 || Footprint(c) < budget / 10 * 9 then kept == c
            else kept <= c && Footprint(kept) <= budget / 10 * 8
                 && (|kept| < |c| ==> Footprint(c[..|kept| + 1]) > budget / 10 * 8)
  {
    WeightIsFootprint(c);
    LongestIsLongest(c, budget / 10 * 8, kept);
    WeightIsFootprint(kept);
    if |kept| < |c| {
      WeightIsFootprint(c[..|kept| + 1]);
    }
  }

  /** The most recent entry survives eviction if and only if there is nothing to evict or it fits the low mark by itself. */
  lemma NewestSurvives(budget: nat, c: seq<Hot>)
    requires c != []
    ensures var kept := Trim(budget, c);
            && (kept != [] ==> kept[0] == c[0])
            && (kept != [] <==> budget == 0 || Footprint(c) < budget / 10 * 9 || |c[0].key| + |c[0].value| + 130 <= budget / 10 * 8)
  {
    var kept := Trim(budget, c);
    EvictionKeepsMost(budget, c, kept);
    assert c[..1] == [c[0]];
    WeightIsFootprint([]);
    FootprintOfOne(c[0]);
    WeightIsFootprint([c[0]]);
    if kept != [] {
      WeightOfPrefix(kept, 1);
      WeightIsFootprint(kept);
      assert kept[..1] == [c[0]];
    }
  }

  /** Evicted or not, the cache ends up within the high mark. */
  lemma TrimFits(budget: nat, c: seq<Hot>)
    ensures budget != 0 ==> Footprint(Trim(budget, c)) <= budget / 10 * 9
    ensures Trim(budget, c) <= c
  {
    EvictionKeepsMost(budget, c, Trim(budget, c));
  }

  // --- Keys that are left ---

  function OnlyKeys(s: seq<bytes>, ks: set<bytes>): (r: seq<bytes>)
    ensures forall x :: x in r <==> x in s && x in ks
  {
    if s == [] then [] else (if s[0] in ks then [s[0]] else []) + OnlyKeys(s[1..], ks)
  }

  function OnlyHot(c: seq<Hot>, ks: set<bytes>): (r: seq<Hot>)
    ensures forall h :: h in r <==> h in c && h.key in ks
  {
    if c == [] then [] else (if c[0].key in ks then [c[0]] else []) + OnlyHot(c[1..], ks)
  }

  lemma {:induction false} OnlyKeysAll(s: seq<bytes>, ks: set<bytes>)
    requires forall x | x in s :: x in ks
    ensures OnlyKeys(s, ks) == s
  {
    if s != [] {
      assert s[0] in s && forall x | x in s[1..] :: x in s;
      OnlyKeysAll(s[1..], ks);
      Glue2(s, 1);
      assert s[..1] == [s[0]];
    }
  }

  lemma {:induction false} OnlyHotAll(c: seq<Hot>, ks: set<bytes>)
    requires forall h | h in c :: h.key in ks
    ensures OnlyHot(c, ks) == c
  {
    if c != [] {
      assert c[0] in c && forall h | h in c[1..] :: h in c;
      OnlyHotAll(c[1..], ks);
      Glue2(c, 1);
      assert c[..1] == [c[0]];
    }
  }

  lemma {:induction false} OnlyKeysLess(s: seq<bytes>, ks: set<bytes>, k: bytes)
    ensures OnlyKeys(s, ks - {k}) == Without(OnlyKeys(s, ks), k)
  {
    if s != [] {
      OnlyKeysLess(s[1..], ks, k);
      var r := OnlyKeys(s[1..], ks);
      assert ([s[0]] + r)[1..] == r && [] + r == r && [] + Without(r, k) == Without(r, k);
    }
  }

  lemma {:induction false} OnlyHotLess(c: seq<Hot>, ks: set<bytes>, k: bytes)
    ensures OnlyHot(c, ks - {k}) == Drop(OnlyHot(c, ks), k)
  {
    if c != [] {
      OnlyHotLess(c[1..], ks, k);
      var r := OnlyHot(c[1..], ks);
      assert ([c[0]] + r)[1..] == r && [] + r == r && [] + Drop(r, k) == Drop(r, k);
    }
  }

  lemma {:induction false} OnlyKeysTwice(s: seq<bytes>, ks: set<bytes>, ks': set<bytes>)
    requires ks' <= ks
    ensures OnlyKeys(OnlyKeys(s, ks), ks') == OnlyKeys(s, ks')
  {
    if s != [] {
      OnlyKeysTwice(s[1..], ks, ks');
      var r := OnlyKeys(s[1..], ks);
      assert ([s[0]] + r)[1..] == r && [] + r == r && [] + OnlyKeys(r, ks') == OnlyKeys(r, ks');
    }
  }

  lemma OnlyKeysCons(x: bytes, r: seq<bytes>, ks: set<bytes>)
    ensures OnlyKeys([x] + r, ks) == (if x in ks then [x] else []) + OnlyKeys(r, ks)
  {
    assert ([x] + r)[1..] == r;
  }

  lemma WithoutCons(x: bytes, r: seq<bytes>, k: bytes)
    ensures Without([x] + r, k) == (if x == k then [] else [x]) + Without(r, k)
  {
    assert ([x] + r)[1..] == r;
  }

  /** Filtering early or late is the same for all keys but the one taken out. */
  lemma {:induction false} OnlyKeysWithout(s: seq<bytes>, ks: set<bytes>, ks': set<bytes>, k: bytes)
    requires ks' <= ks + {k}
    ensures OnlyKeys(Without(OnlyKeys(s, ks), k), ks') == OnlyKeys(Without(s, k), ks')
  {
    if s != [] {
      OnlyKeysWithout(s[1..], ks, ks', k);
      var x, r, w := s[0], OnlyKeys(s[1..], ks), Without(s[1..], k);
      WithoutCons(x, r, k);
      OnlyKeysCons(x, Without(r, k), ks');
      OnlyKeysCons(x, w, ks');
      assert [] + r == r && [] + w == w && [] + Without(r, k) == Without(r, k) && [] + OnlyKeys(w, ks') == OnlyKeys(w, ks');
    }
  }

  lemma {:induction false} OnlyKeysAppend(a: seq<bytes>, b: seq<bytes>, ks: set<bytes>)
    ensures OnlyKeys(a + b, ks) == OnlyKeys(a, ks) + OnlyKeys(b, ks)
  {
    if a == [] {
      assert a + b == b;
    } else {
      OnlyKeysAppend(a[1..], b, ks);
      assert (a + b)[0] == a[0] && (a + b)[1..] == a[1..] + b;
      Assoc(if a[0] in ks then [a[0]] else [], OnlyKeys(a[1..], ks), OnlyKeys(b, ks));
    }
  }

  lemma OnlyKeysPrefix(a: seq<bytes>, b: seq<bytes>, ks: set<bytes>)
    requires a <= b
    ensures OnlyKeys(a, ks) <= OnlyKeys(b, ks)
  {
    OnlyKeysAppend(a, b[|a|..], ks);
    assert b == a + b[|a|..];
  }

  lemma {:induction false} KeysOfOnlyHot(c: seq<Hot>, ks: set<bytes>)
    ensures Keys(OnlyHot(c, ks)) == OnlyKeys(Keys(c), ks)
  {
    if c != [] {
      KeysOfOnlyHot(c[1..], ks);
      KeysTail(c);
      var rest := OnlyHot(c[1..], ks);
      KeysCons(c[0], rest);
      assert [] + rest == rest && [] + Keys(rest) == Keys(rest);
    }
  }

  lemma {:induction false} WeightOfOnlyHot(c: seq<Hot>, ks: set<bytes>)
    ensures Weight(OnlyHot(c, ks)) <= Weight(c)
  {
    if c != [] {
      WeightOfOnlyHot(c[1..], ks);
      var rest := OnlyHot(c[1..], ks);
      assert ([c[0]] + rest)[1..] == rest && [] + rest == rest;
    }
  }

  lemma {:induction false} DistinctOnlyKeys(s: seq<bytes>, ks: set<bytes>)
    requires Distinct(s)
    ensures Distinct(OnlyKeys(s, ks))
  {
    if s != [] {
      DistinctTail(s);
      DistinctOnlyKeys(s[1..], ks);
      var rest := OnlyKeys(s[1..], ks);
      DistinctCons(s[0], rest);
      assert [] + rest == rest;
    }
  }

  // --- Order ---

  /** `x` stands somewhere before `y`. */
  predicate Precedes(s: seq<bytes>, x: bytes, y: bytes) {
    s != [] && ((s[0] == x && y in s[1..]) || Precedes(s[1..], x, y))
  }

  lemma PrecedesCons(h: bytes, s: seq<bytes>, x: bytes, y: bytes)
    ensures Precedes([h] + s, x, y) <==> (x == h && y in s) || Precedes(s, x, y)
  {
    assert ([h] + s)[1..] == s;
  }

  /** Taking a key out leaves the others in their order. */
  lemma {:induction false} WithoutPrecedes(s: seq<bytes>, k: bytes, x: bytes, y: bytes)
    ensures Precedes(Without(s, k), x, y) <==> Precedes(s, x, y) && x != k && y != k
  {
    if s != [] {
      var rest := Without(s[1..], k);
      WithoutPrecedes(s[1..], k, x, y);
      PrecedesCons(s[0], rest, x, y);
      PrecedesIn(s[1..], x, y);
      assert [] + rest == rest;
    }
  }

  lemma {:induction false} PrecedesIn(s: seq<bytes>, x: bytes, y: bytes)
    ensures Precedes(s, x, y) ==> x in s && y in s
  {
    if s != [] {
      PrecedesIn(s[1..], x, y);
    }
  }
}
