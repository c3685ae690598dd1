/** python/problem_14.py: the start below a limit with the longest Collatz
    chain, with the chain lengths memoised in a dictionary that is a default
    argument and so lives across calls.

    The model threads the dictionary through each call. Python's recursion
    limit is a `fuel` parameter: the number of nested calls still allowed. */
module Problem14 {
  import opened Wrappers

  /** The dictionary `_collatz_cache` starts as `{0: 0, 1: 1}`. */
  const SEED: map<int, int> := map[0 := 0, 1 := 1]

  /** `(3 * j) + 1 if j & 1 else j // 2`; `j & 1` is the parity bit of the
      two's complement form, which is `j % 2` for every integer. */
  function Step(j: int): int {
    if j % 2 == 1 then 3 * j + 1 else j / 2
  }

  /** `j` after `k` steps. */
  function Iterate(j: int, k: nat): int
    decreases k
  {
    if k == 0 then j else Iterate(Step(j), k - 1)
  }

  /** An entry other than a seed is one more than the entry of its successor. */
  predicate Chained(cache: map<int, int>, j: int) {
    j in cache && j != 0 && j != 1 ==> Step(j) in cache && cache[j] == cache[Step(j)] + 1
  }

  /** The memo invariant: the seeds are in place, values are not negative,
      and every entry is chained to its successor's. */
  ghost predicate Valid(cache: map<int, int>) {
    && 0 in cache && cache[0] == 0
    && 1 in cache && cache[1] == 1
    && (forall j :: j in cache ==> cache[j] >= 0)
    && (forall j :: Chained(cache, j))
  }

  /** Storing the answer for a miss keeps the invariant. */
  lemma StoreKeepsValid(cache: map<int, int>, j: int)
    requires Valid(cache) && j != 0 && j != 1 && Step(j) in cache
    ensures Valid(cache[j := cache[Step(j)] + 1])
  {
    var c := cache[j := cache[Step(j)] + 1];
    forall i
      ensures Chained(c, i)
    {
      assert Chained(cache, i);
      if i != j && i in c && i != 0 && i != 1 && Step(i) == j && j in cache {
        assert Chained(cache, j);
      }
    }
  }

  /** Every entry of `before` is in `after`, unchanged. */
  predicate Extends(after: map<int, int>, before: map<int, int>) {
    forall i :: i in before ==> i in after && after[i] == before[i]
  }

  lemma ExtendsTransitive(a: map<int, int>, b: map<int, int>, c: map<int, int>)
    requires Extends(b, a) && Extends(c, b)
    ensures Extends(c, a)
  {
  }

  lemma SeedIsValid()
    ensures Valid(SEED)
  {
  }

  /** `collatz(j)` against `cache`: the value and the dictionary afterwards.
      A miss recurses on the successor and stores the answer on the way
      back, so a `RecursionError` leaves the dictionary as it was. */
  function Collatz(j: int, cache: map<int, int>, fuel: nat): (r: Result<(int, map<int, int>)>)
    requires Valid(cache)
    ensures r.Ok? ==> Valid(r.value.1)
    ensures r.Ok? ==> j in r.value.1 && r.value.1[j] == r.value.0
    ensures r.Ok? ==> Extends(r.value.1, cache)
    ensures j in cache ==> r == Ok((cache[j], cache))
    ensures r.Err? ==> r.error == RecursionError
    decreases fuel
  {
    if j in cache then Ok((cache[j], cache))
    else if fuel == 0 then Err(RecursionError)
    else
      match Collatz(Step(j), cache, fuel - 1)
      case Err(e) => Err(e)
      case Ok((v, c)) =>
        StoreKeepsValid(c, j);
        Ok((v + 1, c[j := v + 1]))
  }

  /** A cached length is the number of terms of the chain down to 1: the
      chain reaches 1 after `cache[j] - 1` steps and not before. */
  lemma {:induction false} CachedIsChainLength(cache: map<int, int>, j: int)
    requires Valid(cache) && j in cache && j >= 1
    ensures cache[j] >= 1
    ensures Iterate(j, cache[j] - 1) == 1
    ensures forall k :: 0 <= k < cache[j] - 1 ==> Iterate(j, k) != 1
    decreases cache[j]
  {
    if j != 1 {
      assert Chained(cache, j);
      var s := Step(j);
      CachedIsChainLength(cache, s);
      forall k | 1 <= k < cache[j] - 1
        ensures Iterate(j, k) != 1
      {
        assert Iterate(j, k) == Iterate(s, k - 1);
      }
    }
  }

  /** With at least as much fuel as the chain is long, a positive start is
      answered. */
  lemma {:induction false} EnoughFuel(j: int, cache: map<int, int>, fuel: nat, k: nat)
    requires Valid(cache) && j >= 1 && Iterate(j, k) == 1 && k <= fuel
    ensures Collatz(j, cache, fuel).Ok?
    decreases k
  {
    if j !in cache {
      EnoughFuel(Step(j), cache, fuel - 1, k - 1);
    }
  }

  /** Memoisation is invisible: for a positive start, any two valid
      dictionaries that answer give the same chain length. */
  lemma CacheIrrelevant(j: int, c1: map<int, int>, f1: nat, c2: map<int, int>, f2: nat)
    requires Valid(c1) && Valid(c2) && j >= 1
    requires Collatz(j, c1, f1).Ok? && Collatz(j, c2, f2).Ok?
    ensures Collatz(j, c1, f1).value.0 == Collatz(j, c2, f2).value.0
  {
    var (v1, d1) := Collatz(j, c1, f1).value;
    var (v2, d2) := Collatz(j, c2, f2).value;
    CachedIsChainLength(d1, j);
    CachedIsChainLength(d2, j);
  }

  /** `max(range(1, limit), key=collatz)`: the first start with the longest
      chain; an empty range raises `ValueError`. The dictionary after the
      call is returned with the answer; entries added before a
      `RecursionError` stay. */
  method Problem14(limit: int, cache: map<int, int>, fuel: nat)
    returns (r: Result<int>, after: map<int, int>)
    requires Valid(cache)
    ensures Valid(after)
    ensures Extends(after, cache)
    ensures limit <= 1 ==> r.Err? && r.error.ValueError?
    ensures r.Err? ==> r.error.ValueError? || r.error == RecursionError
    ensures r.Ok? ==> 1 <= r.value < limit && r.value in after
    ensures r.Ok? ==> forall m :: 1 <= m < limit ==> m in after && after[m] <= after[r.value]
    ensures r.Ok? ==> forall m :: 1 <= m < r.value ==> after[m] < after[r.value]
  {
    after := cache;
    if limit <= 1 {
      return Err(ValueError("max() arg is an empty sequence")), after;
    }
    var best := 1;
    var bestLength := 0;
    var n := 1;
    while n < limit
      invariant Valid(after)
      invariant Extends(after, cache)
      invariant 1 <= n <= limit && 1 <= best < limit
      invariant forall m :: 1 <= m < n ==> m in after
      invariant n > 1 ==> best < n && best in after && bestLength == after[best]
      invariant n > 1 ==> forall m :: 1 <= m < n ==> after[m] <= after[best]
      invariant n > 1 ==> forall m :: 1 <= m < best ==> after[m] < after[best]
    {
      var c := Collatz(n, after, fuel);
      if c.Err? {
        return Err(c.error), after;
      }
      var (length, next) := c.value;
      ExtendsTransitive(cache, after, next);
      assert forall m :: 1 <= m < n ==> m in next && next[m] == after[m];
      after := next;
      if n == 1 || length > bestLength {
        best, bestLength := n, length;
      }
      n := n + 1;
    }
    r := Ok(best);
  }
}
