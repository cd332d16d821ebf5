/** A Python `dict` from text keys to integer counts, with its insertion order
    made explicit: `keys` lists the keys in the order they were first added.
    The histograms of the accumulators (dates, queues, software, time periods)
    are such dicts, and the picks made from them (`max`/`min` with
    `key=d.get`, `heapq.nlargest`) depend on that order. */
module Counters {

  datatype Counter = Counter(keys: seq<string>, counts: map<string, int>)

  ghost predicate Distinct(s: seq<string>) {
    forall i, j :: 0 <= i < j < |s| ==> s[i] != s[j]
  }

  /** The key list and the map describe the same dict. */
  ghost predicate Valid(c: Counter) {
    && Distinct(c.keys)
    && (forall k :: k in c.counts <==> k in c.keys)
  }

  /** `d.get(k, 0)`. */
  function Get(m: map<string, int>, k: string): int {
    if k in m then m[k] else 0
  }

  function CountOf(c: Counter, k: string): int {
    Get(c.counts, k)
  }

  /** The sum of the counts stored under `keys`. */
  function SumOver(keys: seq<string>, m: map<string, int>): int {
    if keys == [] then 0 else SumOver(keys[..|keys| - 1], m) + Get(m, keys[|keys| - 1])
  }

  /** `sum(d.values())`. */
  function Total(c: Counter): int {
    SumOver(c.keys, c.counts)
  }

  /** A dict whose keys are `keys`, in that order, each counting 0. */
  function Zeroes(keys: seq<string>): (c: Counter)
    ensures c.keys == keys
    ensures forall k :: CountOf(c, k) == 0
  {
    Counter(keys, map k | k in keys :: 0)
  }

  // ---------------------------------------------------------------------
  // Sums over key lists

  lemma {:induction false} SumOverAgree(keys: seq<string>, m: map<string, int>, m': map<string, int>)
    requires forall i :: 0 <= i < |keys| ==> Get(m, keys[i]) == Get(m', keys[i])
    ensures SumOver(keys, m) == SumOver(keys, m')
  {
    if keys != [] {
      SumOverAgree(keys[..|keys| - 1], m, m');
    }
  }

  lemma {:induction false} SumOverUpdate(keys: seq<string>, m: map<string, int>, k: string, v: int)
    requires Distinct(keys)
    ensures SumOver(keys, m[k := v]) == SumOver(keys, m) + (if k in keys then v - Get(m, k) else 0)
  {
    if keys != [] {
      var init, last := keys[..|keys| - 1], keys[|keys| - 1];
      assert keys == init + [last];
      SumOverUpdate(init, m, k, v);
      assert k in keys <==> k in init || k == last;
      assert last == k ==> k !in init;
    }
  }

  lemma {:induction false} SumOfZeroes(keys: seq<string>)
    ensures SumOver(keys, Zeroes(keys).counts) == 0
  {
    if keys != [] {
      var init := keys[..|keys| - 1];
      SumOverAgree(init, Zeroes(keys).counts, Zeroes(init).counts);
      SumOfZeroes(init);
    }
  }

  // ---------------------------------------------------------------------
  // `d[k] = 1` if `k` is new, else `d[k] += 1`

  lemma SumOverUpdateWhenDistinct(keys: seq<string>, m: map<string, int>, k: string, v: int)
    ensures Distinct(keys) ==> SumOver(keys, m[k := v]) == SumOver(keys, m) + (if k in keys then v - Get(m, k) else 0)
  {
    if Distinct(keys) {
      SumOverUpdate(keys, m, k, v);
    }
  }

  /** Every count is non-negative. */
  ghost predicate NonNegative(c: Counter) {
    forall k :: CountOf(c, k) >= 0
  }

  /** Count one more `k` (`if k in d: d[k] += 1 else: d[k] = 1`): a new key
      goes to the end of the order with count 1, an existing one is
      incremented in place. The dict gains exactly one count, at `k`, and no
      other key moves. */
  function Bump(c: Counter, k: string): (r: Counter)
    ensures r.keys == if k in c.counts then c.keys else c.keys + [k]
    ensures forall j :: CountOf(r, j) == CountOf(c, j) + (if j == k then 1 else 0)
    ensures Valid(c) ==> Valid(r)
    ensures Valid(c) ==> Total(r) == Total(c) + 1
    ensures NonNegative(c) ==> NonNegative(r)
  {
    if k in c.counts then
      var r := Counter(c.keys, c.counts[k := c.counts[k] + 1]);
      SumOverUpdateWhenDistinct(c.keys, c.counts, k, c.counts[k] + 1);
      r
    else
      var r := Counter(c.keys + [k], c.counts[k := 1]);
      SumOverUpdateWhenDistinct(c.keys, c.counts, k, 1);
      assert r.keys[..|r.keys| - 1] == c.keys;
      r
  }

  // ---------------------------------------------------------------------
  // `max(d, key=d.get)` and `min(d, key=d.get)`

  /** The position Python's `max` over the keys returns: it keeps the first
      key seen and replaces it only by a strictly larger count. */
  function FirstMaxIndex(keys: seq<string>, m: map<string, int>): (i: nat)
    requires keys != []
    ensures i < |keys|
    ensures forall j :: 0 <= j < |keys| ==> Get(m, keys[j]) <= Get(m, keys[i])
    ensures forall j :: 0 <= j < i ==> Get(m, keys[j]) < Get(m, keys[i])
  {
    var n := |keys|;
    if n == 1 then 0
    else
      var b := FirstMaxIndex(keys[..n - 1], m);
      assert keys[..n - 1][b] == keys[b];
      if Get(m, keys[n - 1]) > Get(m, keys[b]) then n - 1 else b
  }

  /** The position Python's `min` over the keys returns. */
  function FirstMinIndex(keys: seq<string>, m: map<string, int>): (i: nat)
    requires keys != []
    ensures i < |keys|
    ensures forall j :: 0 <= j < |keys| ==> Get(m, keys[i]) <= Get(m, keys[j])
    ensures forall j :: 0 <= j < i ==> Get(m, keys[i]) < Get(m, keys[j])
  {
    var n := |keys|;
    if n == 1 then 0
    else
      var b := FirstMinIndex(keys[..n - 1], m);
      assert keys[..n - 1][b] == keys[b];
      if Get(m, keys[n - 1]) < Get(m, keys[b]) then n - 1 else b
  }

  /** `max(d, key=d.get)`: the first key, in insertion order, whose count is
      the largest. */
  function MostFrequent(c: Counter): (k: string)
    requires c.keys != []
    ensures k in c.keys
    ensures forall j :: j in c.keys ==> CountOf(c, j) <= CountOf(c, k)
  {
    c.keys[FirstMaxIndex(c.keys, c.counts)]
  }

  /** `min(d, key=d.get)`: the first key, in insertion order, whose count is
      the smallest. */
  function LeastFrequent(c: Counter): (k: string)
    requires c.keys != []
    ensures k in c.keys
    ensures forall j :: j in c.keys ==> CountOf(c, k) <= CountOf(c, j)
  {
    c.keys[FirstMinIndex(c.keys, c.counts)]
  }

  /** Ties go to the earliest key: every key before the chosen one counts
      strictly less (for `max`) or strictly more (for `min`). */
  lemma FrequentTieBreak(c: Counter, i: nat)
    requires Valid(c) && i < |c.keys|
    ensures c.keys[i] == MostFrequent(c) ==> forall j :: 0 <= j < i ==> CountOf(c, c.keys[j]) < CountOf(c, c.keys[i])
    ensures c.keys[i] == LeastFrequent(c) ==> forall j :: 0 <= j < i ==> CountOf(c, c.keys[i]) < CountOf(c, c.keys[j])
  {
    var p, q := FirstMaxIndex(c.keys, c.counts), FirstMinIndex(c.keys, c.counts);
    assert c.keys[i] == c.keys[p] ==> i == p;
    assert c.keys[i] == c.keys[q] ==> i == q;
  }

  // ---------------------------------------------------------------------
  // `heapq.nlargest(n, d, key=d.get)`

  /** `keys` without position `i`. */
  function Without(keys: seq<string>, i: nat): (r: seq<string>)
    requires i < |keys|
    ensures |r| == |keys| - 1
  {
    keys[..i] + keys[i + 1..]
  }

  /** `a` occurs before `b` in `s`. */
  ghost predicate Before(s: seq<string>, a: string, b: string) {
    exists i, j :: 0 <= i < j < |s| && s[i] == a && s[j] == b
  }

  /** `heapq.nlargest(n, d, key=d.get)`, which Python documents as
      `sorted(d, key=d.get, reverse=True)[:n]`: the `n` keys with the largest
      counts, largest first, ties in insertion order. Written as repeated
      selection of the first maximum of what is left. */
  function Largest(keys: seq<string>, m: map<string, int>, n: nat): (r: seq<string>)
    ensures |r| == if n < |keys| then n else |keys|
    decreases n
  {
    if n == 0 || keys == [] then []
    else
      var i := FirstMaxIndex(keys, m);
      [keys[i]] + Largest(Without(keys, i), m, n - 1)
  }

  /** Every key of `Without(keys, i)` is a key of `keys`. */
  lemma WithoutSub(keys: seq<string>, i: nat, k: string)
    requires i < |keys| && k in Without(keys, i)
    ensures k in keys
  {
    var w := Without(keys, i);
    var p :| 0 <= p < |w| && w[p] == k;
    assert keys[if p < i then p else p + 1] == k;
  }

  /** Removing position `i` of a list of distinct keys removes exactly the
      key there. */
  lemma WithoutHas(keys: seq<string>, i: nat, k: string)
    requires i < |keys| && Distinct(keys)
    ensures k in Without(keys, i) <==> k in keys && k != keys[i]
  {
    var w := Without(keys, i);
    if k in w {
      var p :| 0 <= p < |w| && w[p] == k;
      assert keys[if p < i then p else p + 1] == k;
    }
    if k in keys && k != keys[i] {
      var p :| 0 <= p < |keys| && keys[p] == k;
      assert w[if p < i then p else p - 1] == k;
    }
  }

  lemma WithoutDistinct(keys: seq<string>, i: nat)
    requires i < |keys| && Distinct(keys)
    ensures Distinct(Without(keys, i))
  {
    var w := Without(keys, i);
    assert forall p :: 0 <= p < |w| ==> w[p] == if p < i then keys[p] else keys[p + 1];
  }

  lemma WithoutBefore(keys: seq<string>, i: nat, a: string, b: string)
    requires i < |keys| && Before(Without(keys, i), a, b)
    ensures Before(keys, a, b)
  {
    var w := Without(keys, i);
    var p, q :| 0 <= p < q < |w| && w[p] == a && w[q] == b;
    var p', q' := if p < i then p else p + 1, if q < i then q else q + 1;
    assert keys[p'] == a && keys[q'] == b;
  }

  /** No key counts more than the first maximum. */
  lemma FirstMaxHas(keys: seq<string>, m: map<string, int>, k: string)
    requires k in keys
    ensures Get(m, k) <= Get(m, keys[FirstMaxIndex(keys, m)])
  {
    var j :| 0 <= j < |keys| && keys[j] == k;
  }

  /** Every other key that counts as much as the first maximum comes after it. */
  lemma FirstMaxBefore(keys: seq<string>, m: map<string, int>, k: string)
    requires keys != []
    requires k in Without(keys, FirstMaxIndex(keys, m))
    requires Get(m, k) == Get(m, keys[FirstMaxIndex(keys, m)])
    ensures Before(keys, keys[FirstMaxIndex(keys, m)], k)
  {
    var i := FirstMaxIndex(keys, m);
    var w := Without(keys, i);
    var p :| 0 <= p < |w| && w[p] == k;
    var p' := if p < i then p else p + 1;
    assert keys[p'] == k;
    assert p' >= i;
  }

  /** The first pick and the picks from what is left. */
  lemma LargestUnfold(keys: seq<string>, m: map<string, int>, n: nat, n': nat)
    requires n > 0 && keys != [] && n' == n - 1
    ensures Largest(keys, m, n)
         == [keys[FirstMaxIndex(keys, m)]] + Largest(Without(keys, FirstMaxIndex(keys, m)), m, n')
  {
  }

  /** The first pick is the first maximum. */
  lemma LargestHead(keys: seq<string>, m: map<string, int>, n: nat)
    requires 0 < |Largest(keys, m, n)|
    ensures keys != [] && Largest(keys, m, n)[0] == keys[FirstMaxIndex(keys, m)]
  {
  }

  /** Every later pick is a pick from what is left: pick `j` of `n` is
      pick `j' == j - 1` of `n' == n - 1` from the keys without the first
      maximum. */
  lemma LargestTail(keys: seq<string>, m: map<string, int>, n: nat, j: nat, n': nat, j': nat)
    requires 0 < j < |Largest(keys, m, n)| && n' == n - 1 && j' == j - 1
    ensures keys != [] && n > 0 && j' < |Largest(Without(keys, FirstMaxIndex(keys, m)), m, n')|
    ensures Largest(keys, m, n)[j] == Largest(Without(keys, FirstMaxIndex(keys, m)), m, n')[j']
  {
    var t := Largest(Without(keys, FirstMaxIndex(keys, m)), m, n');
    LargestUnfold(keys, m, n, n');
    assert Largest(keys, m, n)[j] == ([keys[FirstMaxIndex(keys, m)]] + t)[j];
  }

  /** `nlargest` picks keys of the dict. */
  lemma {:induction false} LargestHas(keys: seq<string>, m: map<string, int>, n: nat, k: string)
    requires k in Largest(keys, m, n)
    ensures k in keys
    decreases n
  {
    var i := FirstMaxIndex(keys, m);
    var w := Without(keys, i);
    var n' := n - 1;
    LargestUnfold(keys, m, n, n');
    if k != keys[i] {
      LargestHas(w, m, n', k);
      WithoutSub(keys, i, k);
    }
  }

  /** `nlargest` picks every key at most once. */
  lemma {:induction false} LargestDistinct(keys: seq<string>, m: map<string, int>, n: nat)
    requires Distinct(keys)
    ensures Distinct(Largest(keys, m, n))
    decreases n
  {
    if n > 0 && keys != [] {
      var i := FirstMaxIndex(keys, m);
      var x, w, n' := keys[i], Without(keys, i), n - 1;
      var r, t := Largest(keys, m, n), Largest(w, m, n');
      WithoutDistinct(keys, i);
      LargestDistinct(w, m, n');
      assert x !in t by {
        if x in t {
          LargestHas(w, m, n', x);
          WithoutHas(keys, i, x);
        }
      }
      forall a, b | 0 <= a < b < |r| ensures r[a] != r[b] {
        var b' := b - 1;
        LargestTail(keys, m, n, b, n', b');
        if a > 0 {
          var a' := a - 1;
          LargestTail(keys, m, n, a, n', a');
        } else {
          LargestHead(keys, m, n);
          assert t[b'] in t;
        }
      }
    }
  }

  /** `nlargest` picks distinct keys of the dict. */
  lemma LargestMembers(keys: seq<string>, m: map<string, int>, n: nat)
    requires Distinct(keys)
    ensures Distinct(Largest(keys, m, n))
    ensures forall k :: k in Largest(keys, m, n) ==> k in keys
  {
    LargestDistinct(keys, m, n);
    forall k | k in Largest(keys, m, n) ensures k in keys {
      LargestHas(keys, m, n, k);
    }
  }

  /** `r` lists its keys largest count first. */
  ghost predicate Descending(r: seq<string>, m: map<string, int>) {
    forall i, j :: 0 <= i < j < |r| ==> Get(m, r[j]) <= Get(m, r[i])
  }

  /** No key of `keys` left out of `r` counts more than a key in `r`. */
  ghost predicate Dominates(r: seq<string>, keys: seq<string>, m: map<string, int>) {
    forall i, k :: 0 <= i < |r| && k in keys && k !in r ==> Get(m, k) <= Get(m, r[i])
  }

  /** Of two keys of `r` with equal counts, the one earlier in `keys` comes first. */
  ghost predicate StableWithin(r: seq<string>, keys: seq<string>, m: map<string, int>) {
    forall i, j :: 0 <= i < j < |r| && Get(m, r[i]) == Get(m, r[j]) ==> Before(keys, r[i], r[j])
  }

  /** A key of `keys` left out of `r` although it counts as much as a key of
      `r` comes after that key in `keys`. */
  ghost predicate StableCutoff(r: seq<string>, keys: seq<string>, m: map<string, int>) {
    forall i, k :: 0 <= i < |r| && k in keys && k !in r && Get(m, k) == Get(m, r[i]) ==> Before(keys, r[i], k)
  }

  lemma {:induction false} LargestDescendingAt(keys: seq<string>, m: map<string, int>, n: nat, a: nat, b: nat)
    requires a < b < |Largest(keys, m, n)|
    ensures Get(m, Largest(keys, m, n)[b]) <= Get(m, Largest(keys, m, n)[a])
    decreases n
  {
    var w := Without(keys, FirstMaxIndex(keys, m));
    var n', a', b' := n - 1, a - 1, b - 1;
    LargestTail(keys, m, n, b, n', b');
    if a > 0 {
      LargestTail(keys, m, n, a, n', a');
      LargestDescendingAt(w, m, n', a', b');
    } else {
      LargestHead(keys, m, n);
      LargestBelowHead(keys, m, n, n', Largest(w, m, n')[b']);
    }
  }

  /** A key picked after the first counts no more than the first. */
  lemma LargestBelowHead(keys: seq<string>, m: map<string, int>, n: nat, n': nat, k: string)
    requires keys != [] && n > 0 && n' == n - 1
    requires k in Largest(Without(keys, FirstMaxIndex(keys, m)), m, n')
    ensures Get(m, k) <= Get(m, keys[FirstMaxIndex(keys, m)])
  {
    var i := FirstMaxIndex(keys, m);
    LargestHas(Without(keys, i), m, n', k);
    WithoutSub(keys, i, k);
    FirstMaxHas(keys, m, k);
  }

  /** `nlargest` lists its keys largest count first. */
  lemma LargestDescending(keys: seq<string>, m: map<string, int>, n: nat)
    ensures Descending(Largest(keys, m, n), m)
  {
    forall a, b | 0 <= a < b < |Largest(keys, m, n)|
      ensures Get(m, Largest(keys, m, n)[b]) <= Get(m, Largest(keys, m, n)[a])
    {
      LargestDescendingAt(keys, m, n, a, b);
    }
  }

  lemma {:induction false} LargestDominatesAt(keys: seq<string>, m: map<string, int>, n: nat, a: nat, k: string)
    requires Distinct(keys)
    requires a < |Largest(keys, m, n)| && k in keys && k !in Largest(keys, m, n)
    ensures Get(m, k) <= Get(m, Largest(keys, m, n)[a])
    decreases n
  {
    LargestHead(keys, m, n);
    if a > 0 {
      var i := FirstMaxIndex(keys, m);
      var w := Without(keys, i);
      var n', a' := n - 1, a - 1;
      LargestTail(keys, m, n, a, n', a');
      LeftOutOfRest(keys, m, n, n', k);
      WithoutDistinct(keys, i);
      LargestDominatesAt(w, m, n', a', k);
    } else {
      FirstMaxHas(keys, m, k);
    }
  }

  /** A key `nlargest` leaves out is left in what remains after the first
      pick, and left out of the later picks. */
  lemma LeftOutOfRest(keys: seq<string>, m: map<string, int>, n: nat, n': nat, k: string)
    requires Distinct(keys) && n > 0 && keys != [] && n' == n - 1
    requires k in keys && k !in Largest(keys, m, n)
    ensures k in Without(keys, FirstMaxIndex(keys, m))
    ensures k !in Largest(Without(keys, FirstMaxIndex(keys, m)), m, n')
  {
    var i := FirstMaxIndex(keys, m);
    LargestUnfold(keys, m, n, n');
    WithoutHas(keys, i, k);
  }

  /** No key that `nlargest` leaves out counts more than a key it picks. */
  lemma LargestDominates(keys: seq<string>, m: map<string, int>, n: nat)
    requires Distinct(keys)
    ensures Dominates(Largest(keys, m, n), keys, m)
  {
    forall a, k | 0 <= a < |Largest(keys, m, n)| && k in keys && k !in Largest(keys, m, n)
      ensures Get(m, k) <= Get(m, Largest(keys, m, n)[a])
    {
      LargestDominatesAt(keys, m, n, a, k);
    }
  }

  lemma {:induction false} LargestStableAt(keys: seq<string>, m: map<string, int>, n: nat, a: nat, b: nat)
    requires Distinct(keys)
    requires a < b < |Largest(keys, m, n)|
    requires Get(m, Largest(keys, m, n)[a]) == Get(m, Largest(keys, m, n)[b])
    ensures Before(keys, Largest(keys, m, n)[a], Largest(keys, m, n)[b])
    decreases n
  {
    var i := FirstMaxIndex(keys, m);
    var w := Without(keys, i);
    var n', a', b' := n - 1, a - 1, b - 1;
    if a > 0 {
      LargestTail(keys, m, n, a, n', a');
      LargestTail(keys, m, n, b, n', b');
      WithoutDistinct(keys, i);
      LargestStableAt(w, m, n', a', b');
      WithoutBefore(keys, i, Largest(w, m, n')[a'], Largest(w, m, n')[b']);
    } else {
      LargestHead(keys, m, n);
      LargestTail(keys, m, n, b, n', b');
      var k := Largest(w, m, n')[b'];
      LargestHas(w, m, n', k);
      FirstMaxBefore(keys, m, k);
    }
  }

  /** `nlargest` is stable among the keys it picks: of two picked keys with
      equal counts, the one earlier in insertion order comes first. */
  lemma LargestStable(keys: seq<string>, m: map<string, int>, n: nat)
    requires Distinct(keys)
    ensures StableWithin(Largest(keys, m, n), keys, m)
  {
    forall a, b | 0 <= a < b < |Largest(keys, m, n)| && Get(m, Largest(keys, m, n)[a]) == Get(m, Largest(keys, m, n)[b])
      ensures Before(keys, Largest(keys, m, n)[a], Largest(keys, m, n)[b])
    {
      LargestStableAt(keys, m, n, a, b);
    }
  }

  lemma {:induction false} LargestStableCutoffAt(keys: seq<string>, m: map<string, int>, n: nat, a: nat, k: string)
    requires Distinct(keys)
    requires a < |Largest(keys, m, n)| && k in keys && k !in Largest(keys, m, n)
    requires Get(m, k) == Get(m, Largest(keys, m, n)[a])
    ensures Before(keys, Largest(keys, m, n)[a], k)
    decreases n
  {
    LargestHead(keys, m, n);
    var i := FirstMaxIndex(keys, m);
    var w := Without(keys, i);
    var n', a' := n - 1, a - 1;
    LeftOutOfRest(keys, m, n, n', k);
    if a > 0 {
      LargestTail(keys, m, n, a, n', a');
      WithoutDistinct(keys, i);
      LargestStableCutoffAt(w, m, n', a', k);
      WithoutBefore(keys, i, Largest(w, m, n')[a'], k);
    } else {
      FirstMaxBefore(keys, m, k);
    }
  }

  /** A key that `nlargest` leaves out although it counts as much as a picked
      key comes after that key in insertion order. */
  lemma LargestStableCutoff(keys: seq<string>, m: map<string, int>, n: nat)
    requires Distinct(keys)
    ensures StableCutoff(Largest(keys, m, n), keys, m)
  {
    forall a, k | 0 <= a < |Largest(keys, m, n)| && k in keys && k !in Largest(keys, m, n)
        && Get(m, k) == Get(m, Largest(keys, m, n)[a])
      ensures Before(keys, Largest(keys, m, n)[a], k)
    {
      LargestStableCutoffAt(keys, m, n, a, k);
    }
  }
}
