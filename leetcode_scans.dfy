/**
 * The single-pass exercises of `leetcode.rs`: the majority vote, the stock
 * profit problems, the two jump games and the h-index. Each loop keeps its
 * accumulators tied to what the prefix read so far determines, and each
 * method's result is stated by an independent definition of the problem.
 */
module LeetcodeScans {

  import opened Common

  /** Rust's `max` on integers. */
  function Max(a: int, b: int): int {
    if a >= b then a else b
  }

  // ---------------------------------------------------------------------------
  // 169. Majority Element
  // ---------------------------------------------------------------------------

  /** `v` fills more than half of the positions of `s`. */
  ghost predicate IsMajority(s: seq<int>, v: int) {
    2 * multiset(s)[v] > |s|
  }

  /** Two different values together occupy at most all the positions. */
  lemma {:induction false} TwoCounts(s: seq<int>, v: int, c: int)
    requires v != c
    ensures multiset(s)[v] + multiset(s)[c] <= |s|
  {
    if s != [] {
      var init := s[..|s| - 1];
      assert s == init + [s[|s| - 1]];
      TwoCounts(init, v, c);
    }
  }

  /**
   * When the vote count drops to zero after `s[lo..k]`, the candidate held
   * exactly half of that stretch, so no value holds more than half of the
   * whole prefix `s[..k]` either.
   */
  lemma NoMajorityAfterTie(s: seq<int>, lo: nat, k: nat, c: int)
    requires lo <= k <= |s|
    requires 2 * multiset(s[lo..k])[c] == k - lo
    requires forall v :: 2 * multiset(s[..lo])[v] <= lo
    ensures forall v :: 2 * multiset(s[..k])[v] <= k
  {
    assert s[..k] == s[..lo] + s[lo..k];
    forall v ensures 2 * multiset(s[..k])[v] <= k {
      assert 2 * multiset(s[..lo])[v] <= lo;
      if v != c {
        TwoCounts(s[lo..k], v, c);
      }
    }
  }

  /** A majority element of the whole input is the surviving candidate. */
  lemma MajorityIsCandidate(s: seq<int>, lo: nat, c: int, count: int, v: int)
    requires lo <= |s| && count >= 0
    requires 2 * multiset(s[lo..])[c] == |s| - lo + count
    requires forall x :: 2 * multiset(s[..lo])[x] <= lo
    requires IsMajority(s, v)
    ensures v == c
  {
    assert s == s[..lo] + s[lo..];
    assert 2 * multiset(s[..lo])[v] <= lo;
    if v != c {
      TwoCounts(s[lo..], v, c);
      assert false;
    }
  }

  /**
   * Boyer-Moore vote: whenever the input has a majority element, it is the
   * result. An empty input gives the initial candidate 0.
   */
  method MajorityElement(nums: seq<int>) returns (r: int)
    ensures forall v :: IsMajority(nums, v) ==> r == v
    ensures nums == [] ==> r == 0
  {
    var candidate := 0;
    var count := 0;
    ghost var lo := 0;
    for k := 0 to |nums|
      invariant lo <= k && count >= 0
      invariant 2 * multiset(nums[lo..k])[candidate] == k - lo + count
      invariant forall v :: 2 * multiset(nums[..lo])[v] <= lo
      invariant k == 0 ==> candidate == 0
    {
      if count == 0 {
        NoMajorityAfterTie(nums, lo, k, candidate);
        lo := k;
        candidate := nums[k];
      }
      assert nums[lo..k + 1] == nums[lo..k] + [nums[k]];
      count := count + if nums[k] == candidate then 1 else -1;
    }
    assert nums[lo..|nums|] == nums[lo..];
    forall v | IsMajority(nums, v) ensures v == candidate {
      MajorityIsCandidate(nums, lo, candidate, count, v);
    }
    r := candidate;
  }

  // ---------------------------------------------------------------------------
  // 121. Best Time to Buy and Sell Stock
  // ---------------------------------------------------------------------------

  /**
   * `r` is the best profit of one buy followed by one later sell, or 0 when
   * no pair of days gains.
   */
  ghost predicate IsBestSingleTrade(s: seq<int>, r: int) {
    && r >= 0
    && (forall i, j :: 0 <= i < j < |s| ==> s[j] - s[i] <= r)
    && (r == 0 || exists i, j :: 0 <= i < j < |s| && s[j] - s[i] == r)
  }

  /** One pass keeping the lowest price so far and the best sale against it. */
  method MaxProfit(prices: seq<i32>) returns (r: int)
    ensures IsBestSingleTrade(prices, r)
  {
    ghost var s: seq<int> := prices;
    var minPrice: int := I32_MAX;
    var best: int := 0;
    ghost var lowDay := 0;
    ghost var buyDay, sellDay := 0, 0;
    for k := 0 to |prices|
      invariant best >= 0
      invariant k == 0 ==> minPrice == I32_MAX && lowDay == 0
      invariant k > 0 ==> lowDay < k && s[lowDay] == minPrice
      invariant forall i :: 0 <= i < k ==> minPrice <= s[i]
      invariant forall i, j :: 0 <= i < j < k ==> s[j] - s[i] <= best
      invariant best == 0 || (buyDay < sellDay < k && s[sellDay] - s[buyDay] == best)
    {
      var price: int := prices[k];
      assert price <= I32_MAX;
      if price < minPrice {
        minPrice := price;
        lowDay := k;
      } else {
        if price - minPrice > best {
          buyDay, sellDay := lowDay, k;
        }
        best := Max(best, price - minPrice);
      }
    }
    r := best;
  }

  /** The best single trade is determined by the prices alone. */
  lemma BestSingleTradeUnique(s: seq<int>, r1: int, r2: int)
    requires IsBestSingleTrade(s, r1) && IsBestSingleTrade(s, r2)
    ensures r1 == r2
  {
    if r1 != 0 {
      var i, j :| 0 <= i < j < |s| && s[j] - s[i] == r1;
      assert r1 <= r2;
    }
    if r2 != 0 {
      var i, j :| 0 <= i < j < |s| && s[j] - s[i] == r2;
      assert r2 <= r1;
    }
  }

  /** One trade never earns more than unlimited trades can. */
  lemma SingleTradeBelowUnlimited(s: seq<int>, r: int)
    requires IsBestSingleTrade(s, r)
    ensures r <= GainSum(s)
  {
    if r != 0 {
      var i, j :| 0 <= i < j < |s| && s[j] - s[i] == r;
      SingleTradeBelowGainSum(s, i, j);
    }
  }

  // ---------------------------------------------------------------------------
  // 122. Best Time to Buy and Sell Stock II
  // ---------------------------------------------------------------------------

  /** The rise from day `t - 1` to day `t`, or 0 if the price does not rise. */
  function Rise(s: seq<int>, t: nat): nat
    requires 0 < t < |s|
  {
    if s[t] > s[t - 1] then s[t] - s[t - 1] else 0
  }

  /** The sum of the rises over days `i..j`. */
  function GainBetween(s: seq<int>, i: nat, j: nat): nat
    requires i <= j < |s|
    decreases j - i
  {
    if i == j then 0 else GainBetween(s, i, j - 1) + Rise(s, j)
  }

  /** The sum of all the rises of `s`. */
  function GainSum(s: seq<int>): nat {
    if |s| == 0 then 0 else GainBetween(s, 0, |s| - 1)
  }

  lemma {:induction false} GainSplit(s: seq<int>, i: nat, j: nat, k: nat)
    requires i <= j <= k < |s|
    ensures GainBetween(s, i, k) == GainBetween(s, i, j) + GainBetween(s, j, k)
    decreases k - j
  {
    if j < k {
      GainSplit(s, i, j, k - 1);
    }
  }

  /** Holding from day `i` to day `j` earns no more than all the rises in between. */
  lemma {:induction false} HoldBelowGain(s: seq<int>, i: nat, j: nat)
    requires i <= j < |s|
    ensures s[j] - s[i] <= GainBetween(s, i, j)
    decreases j - i
  {
    if i < j {
      HoldBelowGain(s, i, j - 1);
    }
  }

  /** A trade buys on day `buy` and sells on the later day `sell`. */
  datatype Trade = Trade(buy: nat, sell: nat)

  /**
   * Trades in order of time, each within the days of `s`, the next bought no
   * earlier than the previous one sold (one share held at a time).
   */
  ghost predicate ValidTrades(s: seq<int>, ts: seq<Trade>) {
    (forall t :: 0 <= t < |ts| ==> ts[t].buy < ts[t].sell < |s|)
    && (forall t :: 0 < t < |ts| ==> ts[t - 1].sell <= ts[t].buy)
  }

  function Profit(s: seq<int>, ts: seq<Trade>): int
    requires ValidTrades(s, ts)
  {
    if ts == [] then 0
    else
      var last := ts[|ts| - 1];
      Profit(s, ts[..|ts| - 1]) + s[last.sell] - s[last.buy]
  }

  /** Any valid trades that end by day `n` earn at most the rises up to day `n`. */
  lemma {:induction false} TradesBelowGain(s: seq<int>, ts: seq<Trade>, n: nat)
    requires ValidTrades(s, ts) && n < |s|
    requires ts != [] ==> ts[|ts| - 1].sell <= n
    ensures Profit(s, ts) <= GainBetween(s, 0, n)
  {
    if ts != [] {
      var last := ts[|ts| - 1];
      var init := ts[..|ts| - 1];
      assert ValidTrades(s, init);
      if init != [] {
        assert init[|init| - 1] == ts[|ts| - 2];
      }
      TradesBelowGain(s, init, last.buy);
      HoldBelowGain(s, last.buy, last.sell);
      GainSplit(s, 0, last.buy, last.sell);
      GainSplit(s, 0, last.sell, n);
    }
  }

  /** A trade after the last one extends valid trades and adds its own profit. */
  lemma TradesSnoc(s: seq<int>, ts: seq<Trade>, tr: Trade)
    requires ValidTrades(s, ts) && tr.buy < tr.sell < |s|
    requires ts != [] ==> ts[|ts| - 1].sell <= tr.buy
    ensures ValidTrades(s, ts + [tr])
    ensures Profit(s, ts + [tr]) == Profit(s, ts) + s[tr.sell] - s[tr.buy]
  {
    var ts' := ts + [tr];
    assert ts'[..|ts'| - 1] == ts;
  }

  /** The greedy trades: buy the day before each rise of days `1..j`, sell on the rise. */
  function RisingTrades(s: seq<int>, j: nat): (ts: seq<Trade>)
    requires j < |s|
    ensures forall t :: 0 <= t < |ts| ==> ts[t].sell <= j
  {
    if j == 0 then []
    else if s[j] > s[j - 1] then RisingTrades(s, j - 1) + [Trade(j - 1, j)]
    else RisingTrades(s, j - 1)
  }

  lemma {:induction false} RisingTradesGain(s: seq<int>, j: nat)
    requires j < |s|
    ensures ValidTrades(s, RisingTrades(s, j))
    ensures Profit(s, RisingTrades(s, j)) == GainBetween(s, 0, j)
  {
    if j > 0 {
      RisingTradesGain(s, j - 1);
      var ts := RisingTrades(s, j - 1);
      if s[j] > s[j - 1] {
        if ts != [] {
          assert ts[|ts| - 1].sell <= j - 1;
        }
        TradesSnoc(s, ts, Trade(j - 1, j));
      }
    }
  }

  /**
   * With any number of trades, the best total profit is the sum of the rises:
   * no valid trades earn more, and the greedy trades earn exactly that.
   */
  lemma UnlimitedTradesOptimum(s: seq<int>, ts: seq<Trade>)
    requires ValidTrades(s, ts)
    ensures Profit(s, ts) <= GainSum(s)
    ensures s != [] ==>
      ValidTrades(s, RisingTrades(s, |s| - 1)) && Profit(s, RisingTrades(s, |s| - 1)) == GainSum(s)
  {
    if s != [] {
      if ts != [] {
        assert ts[|ts| - 1].sell < |s|;
      }
      TradesBelowGain(s, ts, |s| - 1);
      RisingTradesGain(s, |s| - 1);
    }
  }

  /** A single trade never beats the unlimited-trades optimum. */
  lemma SingleTradeBelowGainSum(s: seq<int>, i: nat, j: nat)
    requires i < j < |s|
    ensures s[j] - s[i] <= GainSum(s)
  {
    HoldBelowGain(s, i, j);
    GainSplit(s, 0, i, j);
    GainSplit(s, 0, j, |s| - 1);
  }

  /** Greedy: add up every rise from one day to the next. */
  method MaxProfitII(prices: seq<i32>) returns (r: int)
    ensures r == GainSum(prices)
  {
    var profit: int := 0;
    var i := 1;
    while i < |prices|
      invariant 1 <= i && (i <= |prices| || prices == [])
      invariant prices != [] ==> profit == GainBetween(prices, 0, i - 1)
      invariant prices == [] ==> profit == 0
    {
      if prices[i] > prices[i - 1] {
        profit := profit + (prices[i] as int - prices[i - 1] as int);
      }
      i := i + 1;
    }
    r := profit;
  }

  /**
   * The two-state dynamic program: `f0` is the best profit holding no share
   * after the prices read so far, `f1` the best holding one (a share bought at
   * the last price read, on top of all the earlier rises).
   */
  method MaxProfitIIDp(prices: seq<i32>) returns (r: int)
    ensures r == GainSum(prices)
  {
    var f0: int := 0;
    var f1: int := I32_MIN;
    for k := 0 to |prices|
      invariant k == 0 ==> f0 == 0 && f1 == I32_MIN
      invariant k > 0 ==> f0 == GainBetween(prices, 0, k - 1) && f1 == f0 - prices[k - 1]
    {
      var p: int := prices[k];
      var newF0 := Max(f0, f1 + p);
      f1 := Max(f1, f0 - p);
      f0 := newF0;
    }
    r := f0;
  }

  // ---------------------------------------------------------------------------
  // 55. Jump Game and 45. Jump Game II
  // ---------------------------------------------------------------------------

  /** Every jump length is non-negative, as the exercises assume. */
  ghost predicate NonNegative(s: seq<int>) {
    forall i :: 0 <= i < |s| ==> s[i] >= 0
  }

  /**
   * Index `j` can be reached from index 0 with at most `m` jumps, a jump from
   * index `i` landing on any later index up to `i + s[i]`.
   */
  ghost predicate ReachIn(s: seq<int>, j: int, m: nat)
    decreases m
  {
    j == 0 || (m > 0 && exists i :: 0 <= i < j && i < |s| && ReachIn(s, i, m - 1) && j <= i + s[i])
  }

  /** Index `j` can be reached with some number of jumps. */
  ghost predicate Reachable(s: seq<int>, j: int) {
    exists m: nat :: ReachIn(s, j, m)
  }

  /** One more jump from a reached index `i` reaches up to `i + s[i]`. */
  lemma JumpFrom(s: seq<int>, i: nat, m: nat, j: int)
    requires i < |s| && ReachIn(s, i, m) && i < j <= i + s[i]
    ensures ReachIn(s, j, m + 1)
  {
  }

  /** A bound on jumps can always be raised. */
  lemma {:induction false} ReachInMonotone(s: seq<int>, j: int, m: nat)
    requires ReachIn(s, j, m)
    ensures ReachIn(s, j, m + 1)
  {
    if j != 0 {
      var i :| 0 <= i < j && i < |s| && ReachIn(s, i, m - 1) && j <= i + s[i];
      ReachInMonotone(s, i, m - 1);
      JumpFrom(s, i, m, j);
    }
  }

  /**
   * If no index up to `e` jumps beyond `e`, nothing beyond `e` is reachable,
   * however many jumps are allowed.
   */
  lemma {:induction false} ClosedPrefix(s: seq<int>, e: nat, j: int, m: nat)
    requires e < |s| && forall t :: 0 <= t <= e ==> t + s[t] <= e
    requires ReachIn(s, j, m)
    ensures j <= e
  {
    if j != 0 {
      var i :| 0 <= i < j && i < |s| && ReachIn(s, i, m - 1) && j <= i + s[i];
      ClosedPrefix(s, e, i, m - 1);
    }
  }

  /** With no index up to `e` jumping beyond it, no index `j` past `e` is reachable. */
  lemma Unreachable(s: seq<int>, e: nat, j: int)
    requires e < |s| && forall t :: 0 <= t <= e ==> t + s[t] <= e
    requires j > e
    ensures !Reachable(s, j)
  {
    if Reachable(s, j) {
      var m: nat :| ReachIn(s, j, m);
      ClosedPrefix(s, e, j, m);
    }
  }

  /**
   * Greedy reachability: the result is true exactly when the input is empty
   * or its last index is reachable.
   */
  method CanJump(nums: seq<i32>) returns (r: bool)
    requires NonNegative(nums)
    ensures r <==> |nums| == 0 || Reachable(nums, |nums| - 1)
  {
    ghost var s: seq<int> := nums;
    var farthest: int := 0;
    var last := if |nums| >= 1 then |nums| - 1 else 0;
    assert ReachIn(s, 0, 0);
    for i := 0 to |nums|
      invariant farthest >= 0 && (i > 0 ==> i - 1 <= farthest < last)
      invariant forall t :: 0 <= t < i ==> t + s[t] <= farthest
      invariant forall j :: 0 <= j <= farthest && j < |s| ==> Reachable(s, j)
    {
      if i > farthest {
        Unreachable(s, i - 1, |s| - 1);
        return false;
      }
      assert Reachable(s, i);
      ghost var m: nat :| ReachIn(s, i, m);
      forall j | farthest < j <= i + s[i] && j < |s| ensures Reachable(s, j) {
        JumpFrom(s, i, m, j);
      }
      farthest := Max(farthest, i + nums[i]);
      if farthest >= last {
        assert Reachable(s, last);
        return true;
      }
    }
    return true;
  }

  /** The farthest index reachable in one jump from an index up to `e`. */
  function MaxReach(s: seq<int>, e: nat): int
    requires e < |s|
  {
    if e == 0 then s[0] else Max(MaxReach(s, e - 1), e + s[e])
  }

  lemma {:induction false} MaxReachCovers(s: seq<int>, e: nat, t: nat)
    requires t <= e < |s|
    ensures t + s[t] <= MaxReach(s, e)
  {
    if t < e {
      MaxReachCovers(s, e - 1, t);
    }
  }

  lemma {:induction false} MaxReachAttained(s: seq<int>, e: nat) returns (t: nat)
    requires e < |s|
    ensures t <= e && t + s[t] == MaxReach(s, e)
  {
    if e == 0 {
      t := 0;
    } else if MaxReach(s, e - 1) >= e + s[e] {
      t := MaxReachAttained(s, e - 1);
    } else {
      t := e;
    }
  }

  /** The last index reachable with at most `m` jumps (capped at the last index). */
  function Frontier(s: seq<int>, m: nat): (f: nat)
    requires |s| > 0 && NonNegative(s)
    ensures f < |s|
  {
    if m == 0 then 0
    else
      var reach := MaxReach(s, Frontier(s, m - 1));
      if reach < |s| - 1 then MaxReachNonNegative(s, Frontier(s, m - 1)); reach else |s| - 1
  }

  lemma {:induction false} MaxReachNonNegative(s: seq<int>, e: nat)
    requires e < |s| && NonNegative(s)
    ensures MaxReach(s, e) >= 0
  {
    MaxReachCovers(s, e, 0);
  }

  /** Everything up to the frontier is reachable within `m` jumps. */
  lemma {:induction false} FrontierReached(s: seq<int>, m: nat, j: nat)
    requires |s| > 0 && NonNegative(s) && j <= Frontier(s, m)
    ensures ReachIn(s, j, m)
  {
    if m > 0 && j > 0 {
      var e := Frontier(s, m - 1);
      if j <= e {
        FrontierReached(s, m - 1, j);
        ReachInMonotone(s, j, m - 1);
      } else {
        var t := MaxReachAttained(s, e);
        FrontierReached(s, m - 1, t);
        JumpFrom(s, t, m - 1, j);
      }
    }
  }

  /** Nothing beyond the frontier is reachable within `m` jumps. */
  lemma {:induction false} FrontierBounds(s: seq<int>, m: nat, j: int)
    requires |s| > 0 && NonNegative(s) && j < |s| && ReachIn(s, j, m)
    ensures j <= Frontier(s, m)
  {
    if j != 0 {
      var i :| 0 <= i < j && i < |s| && ReachIn(s, i, m - 1) && j <= i + s[i];
      FrontierBounds(s, m - 1, i);
      MaxReachCovers(s, Frontier(s, m - 1), i);
    }
  }

  /**
   * The state of the greedy scan before index `i`: `farthest` is the reach
   * of the indices already scanned, `currentEnd` the end of the current
   * layer, which is the frontier of `steps` jumps, and the previous layer
   * ends before `i`.
   */
  ghost predicate Layers(s: seq<int>, i: nat, steps: int, currentEnd: int, farthest: int)
    requires |s| > 0 && NonNegative(s)
  {
    && (i == 0 ==> steps == 0 && currentEnd == 0 && farthest == 0)
    && (i > 0 ==> steps > 0 && i - 1 < |s| && farthest == MaxReach(s, i - 1))
    && i <= currentEnd
    && steps >= 0
    && Frontier(s, steps) == (if currentEnd < |s| - 1 then currentEnd else |s| - 1)
    && (steps > 0 ==> Frontier(s, steps - 1) < i)
  }

  /** One iteration of the scan keeps `Layers`; a layer never ends where nothing goes further. */
  lemma LayersStep(s: seq<int>, i: nat, steps: int, currentEnd: int, farthest: int)
    requires |s| > 1 && NonNegative(s) && Reachable(s, |s| - 1)
    requires i < |s| - 1 && Layers(s, i, steps, currentEnd, farthest)
    ensures var f := Max(farthest, i + s[i]);
      if i == currentEnd then Layers(s, i + 1, steps + 1, f, f)
      else Layers(s, i + 1, steps, currentEnd, f)
  {
    var f := Max(farthest, i + s[i]);
    assert f == MaxReach(s, i);
    if i == currentEnd && f <= i {
      forall t | 0 <= t <= i ensures t + s[t] <= i {
        MaxReachCovers(s, i, t);
      }
      Unreachable(s, i, |s| - 1);
      assert false;
    }
  }

  /**
   * Greedy by layers: on input whose last index is reachable, the result is
   * the least number of jumps that reaches it.
   */
  method Jump(nums: seq<i32>) returns (r: int)
    requires NonNegative(nums)
    requires |nums| > 0 ==> Reachable(nums, |nums| - 1)
    ensures |nums| <= 1 ==> r == 0
    ensures |nums| > 0 ==> r >= 0 && ReachIn(nums, |nums| - 1, r)
    ensures |nums| > 0 && r > 0 ==> !ReachIn(nums, |nums| - 1, r - 1)
  {
    if |nums| <= 1 {
      return 0;
    }
    ghost var s: seq<int> := nums;
    var steps := 0;
    var currentEnd: int := 0;
    var farthest: int := 0;
    for i := 0 to |nums| - 1
      invariant Layers(s, i, steps, currentEnd, farthest)
    {
      LayersStep(s, i, steps, currentEnd, farthest);
      farthest := Max(farthest, i + nums[i]);
      if i == currentEnd {
        steps := steps + 1;
        currentEnd := farthest;
      }
    }
    FrontierReached(s, steps, |s| - 1);
    if steps > 0 && ReachIn(s, |s| - 1, steps - 1) {
      FrontierBounds(s, steps - 1, |s| - 1);
      assert false;
    }
    return steps;
  }

  // ---------------------------------------------------------------------------
  // 274. H-Index
  // ---------------------------------------------------------------------------

  /** The number of entries of `s` that are at least `h`. */
  function CountAtLeast(s: seq<int>, h: int): (c: nat)
    ensures c <= |s|
  {
    if s == [] then 0 else (if s[0] >= h then 1 else 0) + CountAtLeast(s[1..], h)
  }

  /** At least `h` papers have at least `h` citations each. */
  ghost predicate HasHIndex(s: seq<int>, h: int) {
    CountAtLeast(s, h) >= h
  }

  /** Inserting `x` before the first larger-or-equal element; stands in for the sort. */
  function Insert(x: int, s: seq<int>): (r: seq<int>)
    ensures |r| == |s| + 1
  {
    if s == [] || x <= s[0] then [x] + s else [s[0]] + Insert(x, s[1..])
  }

  /** Ascending order; the standard library's unstable sort is not part of this model. */
  function SortAscending(s: seq<int>): (r: seq<int>)
    ensures |r| == |s|
  {
    if s == [] then [] else Insert(s[0], SortAscending(s[1..]))
  }

  lemma SortedCons(x: int, s: seq<int>)
    requires Sorted(s) && (s != [] ==> x <= s[0])
    ensures Sorted([x] + s)
  {
    var r := [x] + s;
    forall i, j | 0 <= i < j < |r| ensures InOrder(r, i, j) {
      if i == 0 {
        SortedAt(s, 0, j - 1);
      } else {
        SortedAt(s, i - 1, j - 1);
      }
    }
  }

  lemma SortedTail(s: seq<int>)
    requires Sorted(s) && s != []
    ensures Sorted(s[1..])
  {
    forall i, j | 0 <= i < j < |s| - 1 ensures InOrder(s[1..], i, j) {
      SortedAt(s, i + 1, j + 1);
    }
  }

  lemma {:induction false} InsertSorted(x: int, s: seq<int>)
    requires Sorted(s)
    ensures Sorted(Insert(x, s))
    ensures Insert(x, s)[0] == x || (s != [] && Insert(x, s)[0] == s[0])
    ensures multiset(Insert(x, s)) == multiset(s) + multiset{x}
  {
    if s == [] || x <= s[0] {
      SortedCons(x, s);
    } else {
      SortedTail(s);
      InsertSorted(x, s[1..]);
      if |s| > 1 {
        SortedAt(s, 0, 1);
      }
      SortedCons(s[0], Insert(x, s[1..]));
      assert s == [s[0]] + s[1..];
    }
  }

  /** The sort gives an ascending permutation of its input. */
  lemma {:induction false} SortAscendingSpec(s: seq<int>)
    ensures Sorted(SortAscending(s))
    ensures multiset(SortAscending(s)) == multiset(s)
  {
    if s != [] {
      SortAscendingSpec(s[1..]);
      InsertSorted(s[0], SortAscending(s[1..]));
      assert s == [s[0]] + s[1..];
    }
  }

  lemma {:induction false} CountAtLeastInsert(x: int, s: seq<int>, h: int)
    ensures CountAtLeast(Insert(x, s), h) == CountAtLeast(s, h) + (if x >= h then 1 else 0)
  {
    if s != [] && x > s[0] {
      CountAtLeastInsert(x, s[1..], h);
      assert Insert(x, s)[1..] == Insert(x, s[1..]);
    } else {
      assert ([x] + s)[1..] == s;
    }
  }

  /** Sorting does not change how many entries reach a threshold. */
  lemma {:induction false} CountAtLeastSort(s: seq<int>, h: int)
    ensures CountAtLeast(SortAscending(s), h) == CountAtLeast(s, h)
  {
    if s != [] {
      CountAtLeastSort(s[1..], h);
      CountAtLeastInsert(s[0], SortAscending(s[1..]), h);
    }
  }

  lemma {:induction false} CountAtLeastAppend(a: seq<int>, b: seq<int>, h: int)
    ensures CountAtLeast(a + b, h) == CountAtLeast(a, h) + CountAtLeast(b, h)
  {
    if a != [] {
      CountAtLeastAppend(a[1..], b, h);
      assert (a + b)[1..] == a[1..] + b;
    } else {
      assert a + b == b;
    }
  }

  /** In ascending `t`, if `t[i]` reaches `|t| - i`, so do the `|t| - i` entries from `i` on. */
  lemma {:induction false} CountFromSortedSuffix(t: seq<int>, i: nat, h: int)
    requires Sorted(t) && i <= |t|
    requires i < |t| ==> t[i] >= h
    ensures CountAtLeast(t[i..], h) == |t| - i
    decreases |t| - i
  {
    if i < |t| {
      if i + 1 < |t| {
        SortedAt(t, i, i + 1);
      }
      CountFromSortedSuffix(t, i + 1, h);
      assert t[i..][1..] == t[i + 1..];
    }
  }

  /** In ascending `t`, an entry below `h` at index `i` means no entry up to `i` reaches `h`. */
  lemma {:induction false} CountBelowSortedPrefix(t: seq<int>, i: nat, h: int)
    requires Sorted(t) && i < |t| && t[i] < h
    ensures CountAtLeast(t[..i + 1], h) == 0
  {
    if i > 0 {
      SortedAt(t, i - 1, i);
      CountBelowSortedPrefix(t, i - 1, h);
      assert t[..i + 1] == t[..i] + [t[i]];
      CountAtLeastAppend(t[..i], [t[i]], h);
    }
  }

  /** Sort, then return `n - i` for the first index `i` whose entry reaches it, else 0. */
  method HIndex(citations: seq<i32>) returns (r: int)
    ensures 0 <= r <= |citations|
    ensures HasHIndex(citations, r)
    ensures forall h :: h > r ==> !HasHIndex(citations, h)
  {
    ghost var s: seq<int> := citations;
    var sorted := SortAscending(citations);
    SortAscendingSpec(s);
    var n := |sorted|;
    for i := 0 to n
      invariant forall p :: 0 <= p < i ==> sorted[p] < n - p
    {
      var h := n - i;
      if sorted[i] >= h {
        CountFromSortedSuffix(sorted, i, h);
        CountAtLeastAppend(sorted[..i], sorted[i..], h);
        assert sorted == sorted[..i] + sorted[i..];
        CountAtLeastSort(s, h);
        HIndexMaximal(s, sorted, i);
        return h;
      }
    }
    HIndexMaximal(s, sorted, n);
    return 0;
  }

  /**
   * If every entry of the ascending `t` before index `i` is below its suffix
   * length, no `h` above `|t| - i` is an h-index of `s`.
   */
  lemma HIndexMaximal(s: seq<int>, t: seq<int>, i: nat)
    requires t == SortAscending(s) && Sorted(t) && i <= |t|
    requires forall p :: 0 <= p < i ==> t[p] < |t| - p
    ensures forall h :: h > |t| - i ==> !HasHIndex(s, h)
  {
    forall h | h > |t| - i ensures !HasHIndex(s, h) {
      CountAtLeastSort(s, h);
      if h <= |t| {
        var p := |t| - h;
        assert t[p] < h;
        CountBelowSortedPrefix(t, p, h);
        assert t == t[..p + 1] + t[p + 1..];
        CountAtLeastAppend(t[..p + 1], t[p + 1..], h);
      }
    }
  }
}
