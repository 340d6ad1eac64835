// The back-test loop and the mean-reversion strategy it drives.
module BackTests {
  import opened CTypes

  // Day d meets the buying rule: it and the day before fell, together below the threshold.
  predicate Rule(changes: seq<real>, d: int, buyBelow: real) {
    1 <= d < |changes| && changes[d] < 0.0 && changes[d - 1] < 0.0 && changes[d] + changes[d - 1] < buyBelow
  }

  class TradeStrategy2 {
    var keepStockDay: int        // days the stock has been held; 0 when there is none
    const keepThreshold: int     // s_keep_stock_threshold
    const buyThreshold: real     // s_buy_change_threshold

    constructor (keepThreshold: int, buyThreshold: real)
      ensures keepStockDay == 0 && this.keepThreshold == keepThreshold && this.buyThreshold == buyThreshold
    {
      keepStockDay := 0;
      this.keepThreshold, this.buyThreshold := keepThreshold, buyThreshold;
    }

    method BuyStrategy(ind: nat, changes: seq<real>)
      requires ind < |changes|
      modifies this
      ensures keepStockDay == if old(keepStockDay) > 0 then old(keepStockDay) + 1
                              else if old(keepStockDay) == 0 && Rule(changes, ind, buyThreshold) then 1
                              else old(keepStockDay)
      ensures old(keepStockDay) == 0 ==>
                (keepStockDay == 1 <==> ind > 0 && changes[ind] < 0.0 && changes[ind - 1] < 0.0
                                        && changes[ind - 1] + changes[ind] < buyThreshold)
    {
      if keepStockDay == 0 && ind >= 1 {
        var todayDown := changes[ind] < 0.0;
        var yesterdayDown := changes[ind - 1] < 0.0;
        var downRate := changes[ind] + changes[ind - 1];
        if todayDown && yesterdayDown && downRate < buyThreshold {
          keepStockDay := 1;
        }
      } else if keepStockDay > 0 {
        keepStockDay := keepStockDay + 1;
      }
    }

    method SellStrategy()
      modifies this
      ensures keepStockDay == if old(keepStockDay) >= keepThreshold then 0 else old(keepStockDay)
    {
      if keepStockDay >= keepThreshold {
        keepStockDay := 0;
      }
    }
  }

  class TradeLoopBack {
    const changes: seq<real>  // day.change of every trading day
    const strategy: TradeStrategy2
    var profitArray: seq<real>

    constructor (changes: seq<real>, strategy: TradeStrategy2)
      ensures this.changes == changes && this.strategy == strategy && profitArray == []
    {
      this.changes, this.strategy, profitArray := changes, strategy, [];
    }

    method ExecuteTrade()
      modifies this, strategy
      ensures (profitArray, strategy.keepStockDay)
           == Trade(changes, |changes|, old(profitArray), old(strategy.keepStockDay),
                    strategy.keepThreshold, strategy.buyThreshold)
    {
      for ind := 0 to |changes|
        invariant (profitArray, strategy.keepStockDay)
               == Trade(changes, ind, old(profitArray), old(strategy.keepStockDay),
                        strategy.keepThreshold, strategy.buyThreshold)
      {
        if strategy.keepStockDay > 0 {
          profitArray := profitArray + [changes[ind]];
        }
        strategy.BuyStrategy(ind, changes);
        strategy.SellStrategy();
      }
    }
  }

  // The holding counter after the day d that began with it at `held`.
  function NextHeld(changes: seq<real>, d: nat, held: int, keep: int, buyBelow: real): int {
    var h := if held > 0 then held + 1 else if held == 0 && Rule(changes, d, buyBelow) then 1 else held;
    if h >= keep then 0 else h
  }

  // The profit list and the holding counter after the first `n` days.
  function Trade(changes: seq<real>, n: nat, profits: seq<real>, held: int, keep: int, buyBelow: real)
    : (r: (seq<real>, int))
    requires n <= |changes|
  {
    if n == 0 then (profits, held)
    else
      var (ps, h) := Trade(changes, n - 1, profits, held, keep, buyBelow);
      (if h > 0 then ps + [changes[n - 1]] else ps, NextHeld(changes, n - 1, h, keep, buyBelow))
  }

  // Days from a purchase to the first day on which the next one is possible.
  function Span(keep: int): (n: nat)
    ensures n >= 1
  {
    if keep <= 1 then 1 else keep
  }

  // The last purchase was made before day n.
  predicate Before(buys: seq<nat>, n: nat) { buys == [] || buys[|buys| - 1] < n }

  // The holding windows of the purchases are over on day m.
  predicate Over(buys: seq<nat>, keep: int, m: nat) {
    forall i :: 0 <= i < |buys| ==> buys[i] + Span(keep) <= m
  }

  // Day d lies between a purchase and the first day on which the next one is possible.
  ghost predicate Covered(d: int, keep: int, buys: seq<nat>) {
    exists i :: 0 <= i < |buys| && buys[i] <= d < buys[i] + Span(keep)
  }

  // A purchase is made no earlier than the window of the one before it is over.
  predicate Spaced(buys: seq<nat>, keep: int) {
    forall i, j :: 0 <= i < j < |buys| ==> buys[i] + Span(keep) <= buys[j]
  }

  // Purchases are made on days that meet the rule while nothing is held, and on every such day.
  ghost predicate Greedy(changes: seq<real>, n: nat, keep: int, buyBelow: real, buys: seq<nat>) {
    && n <= |changes| && Before(buys, n) && Spaced(buys, keep)
    && (forall i :: 0 <= i < |buys| ==> Rule(changes, buys[i], buyBelow))
    && (forall d {:trigger Covered(d, keep, buys)} ::
          0 <= d < n && Rule(changes, d, buyBelow) ==> Covered(d, keep, buys))
  }

  // The days of purchase over the changes alone: a day is one exactly when it and the day before
  // fell, together below the threshold, and every earlier purchase lies at least the holding
  // threshold (and a day) back.
  lemma PurchaseDays(changes: seq<real>, n: nat, keep: int, buyBelow: real, buys: seq<nat>, d: nat)
    requires Greedy(changes, n, keep, buyBelow, buys)
    ensures d in buys <==>
              && 0 < d < n && changes[d] < 0.0 && changes[d - 1] < 0.0 && changes[d - 1] + changes[d] < buyBelow
              && forall i :: 0 <= i < |buys| && buys[i] < d ==> d - buys[i] >= Max(1, keep)
  {
    if d in buys {
      var j :| 0 <= j < |buys| && buys[j] == d;
      assert j < |buys| - 1 ==> buys[j] + Span(keep) <= buys[|buys| - 1];
      assert forall i :: 0 <= i < |buys| && buys[i] < d ==> i < j;
    } else if 0 < d < n && Rule(changes, d, buyBelow) {
      assert Covered(d, keep, buys);
    }
  }

  // The daily changes over the holding window of the purchase on day b, as far as the first n days go.
  function Window(changes: seq<real>, n: nat, keep: int, b: nat): (w: seq<real>)
    requires b < n <= |changes|
    ensures |w| <= Span(keep) - 1
    ensures b + Span(keep) <= n ==> |w| == Span(keep) - 1
  {
    if b + Span(keep) <= n then changes[b + 1..b + Span(keep)] else changes[b + 1..n]
  }

  function Windows(changes: seq<real>, n: nat, keep: int, buys: seq<nat>): seq<real>
    requires n <= |changes| && Before(buys, n) && Spaced(buys, keep)
  {
    if buys == [] then []
    else Windows(changes, n, keep, buys[..|buys| - 1]) + Window(changes, n, keep, buys[|buys| - 1])
  }

  // The counter that goes with the purchases of the first n days.
  function HeldAfter(n: nat, keep: int, buys: seq<nat>): int {
    if buys == [] || n >= buys[|buys| - 1] + Span(keep) then 0 else n - buys[|buys| - 1]
  }

  lemma OneWindowMore(changes: seq<real>, n: nat, keep: int, b: seq<nat>)
    requires n <= |changes| && b != [] && Before(b, n) && Spaced(b, keep)
    ensures var c := b[..|b| - 1];
            && Before(c, n) && Spaced(c, keep)
            && Windows(changes, n, keep, b) == Windows(changes, n, keep, c) + Window(changes, n, keep, b[|b| - 1])
  {}

  lemma OverBefore(buys: seq<nat>, keep: int, m: nat)
    requires Over(buys, keep, m)
    ensures Before(buys, m)
    ensures buys != [] ==> Over(buys[..|buys| - 1], keep, m) && buys[|buys| - 1] + Span(keep) <= m
  {}

  lemma WindowOver(changes: seq<real>, m: nat, n: nat, keep: int, b: nat)
    requires b + Span(keep) <= m <= n <= |changes|
    ensures Window(changes, m, keep, b) == Window(changes, n, keep, b)
  {}

  // Windows that are over do not change any more.
  lemma {:induction false} Settled(changes: seq<real>, m: nat, n: nat, keep: int, buys: seq<nat>)
    requires m <= n <= |changes| && Over(buys, keep, m) && Spaced(buys, keep)
    ensures Before(buys, m) && Before(buys, n)
    ensures Windows(changes, m, keep, buys) == Windows(changes, n, keep, buys)
  {
    OverBefore(buys, keep, m);
    if buys != [] {
      OneWindowMore(changes, m, keep, buys);
      OneWindowMore(changes, n, keep, buys);
      WindowOver(changes, m, n, keep, buys[|buys| - 1]);
      hide Over, Spaced, Window, Windows;
      Settled(changes, m, n, keep, buys[..|buys| - 1]);
    }
  }

  // The schedule of the first n - 1 days.
  function Earlier(n: nat, buys: seq<nat>): seq<nat>
    requires n > 0
  {
    if buys != [] && buys[|buys| - 1] == n - 1 then buys[..|buys| - 1] else buys
  }

  lemma EarlierBefore(n: nat, keep: int, buys: seq<nat>)
    requires n > 0 && Before(buys, n) && Spaced(buys, keep)
    ensures Before(Earlier(n, buys), n - 1) && Spaced(Earlier(n, buys), keep)
  {}

  lemma EarlierGreedy(changes: seq<real>, n: nat, keep: int, buyBelow: real, buys: seq<nat>)
    requires n > 0 && Greedy(changes, n, keep, buyBelow, buys)
    ensures Greedy(changes, n - 1, keep, buyBelow, Earlier(n, buys))
  {
    hide Rule, Span, Before, Spaced;
    EarlierBefore(n, keep, buys);
    var b := Earlier(n, buys);
    forall d | 0 <= d < n - 1 && Rule(changes, d, buyBelow) ensures Covered(d, keep, b) {
      assert Covered(d, keep, buys);
      var i :| 0 <= i < |buys| && buys[i] <= d < buys[i] + Span(keep);
      assert b[i] == buys[i];
    }
  }

  // What is held goes back to the last purchase; all earlier windows are over.
  lemma HeldMeans(n: nat, keep: int, buys: seq<nat>)
    requires Before(buys, n) && Spaced(buys, keep)
    ensures HeldAfter(n, keep, buys) == 0 ==> Over(buys, keep, n)
    ensures HeldAfter(n, keep, buys) != 0 ==> buys != [] && Over(buys[..|buys| - 1], keep, n)
  {
    if buys != [] {
      forall i | 0 <= i < |buys| - 1 ensures buys[i] + Span(keep) <= buys[|buys| - 1] {}
    }
  }

  lemma CoveredNotOver(d: nat, keep: int, buys: seq<nat>)
    ensures Covered(d, keep, buys) ==> !Over(buys, keep, d)
  {}

  lemma GreedyFacts(changes: seq<real>, n: nat, keep: int, buyBelow: real, buys: seq<nat>)
    requires n > 0 && Greedy(changes, n, keep, buyBelow, buys)
    ensures n <= |changes| && Before(buys, n) && Spaced(buys, keep)
    ensures Before(Earlier(n, buys), n - 1) && Spaced(Earlier(n, buys), keep)
  {
    EarlierBefore(n, keep, buys);
  }

  // Day n - 1 is a day of purchase exactly when nothing is held and it meets the rule.
  lemma LastDay(changes: seq<real>, n: nat, keep: int, buyBelow: real, buys: seq<nat>)
    requires n > 0 && Greedy(changes, n, keep, buyBelow, buys)
    ensures var b := Earlier(n, buys);
            if HeldAfter(n - 1, keep, b) == 0 && Rule(changes, n - 1, buyBelow) then buys == b + [n - 1]
            else b == buys
  {
    var b := Earlier(n, buys);
    if b != buys {
      BoughtLast(n, keep, buys);
      assert Rule(changes, buys[|buys| - 1], buyBelow);
    } else {
      GreedyFacts(changes, n, keep, buyBelow, buys);
      assert Covered(n - 1, keep, buys) || !Rule(changes, n - 1, buyBelow);
      hide *;
      HeldMeans(n - 1, keep, buys);
      CoveredNotOver(n - 1, keep, buys);
    }
  }

  lemma BoughtLast(n: nat, keep: int, buys: seq<nat>)
    requires n > 0 && Spaced(buys, keep) && Earlier(n, buys) != buys
    ensures var b := Earlier(n, buys);
            buys == b + [n - 1] && HeldAfter(n - 1, keep, b) == 0
  {
    var k := |buys| - 1;
    assert buys == buys[..k] + [n - 1];
    assert k > 0 ==> buys[..k][k - 1] == buys[k - 1] && buys[k - 1] + Span(keep) <= buys[k];
  }

  lemma HeldStep(changes: seq<real>, n: nat, keep: int, buyBelow: real, buys: seq<nat>)
    requires n > 0 && Greedy(changes, n, keep, buyBelow, buys)
    ensures HeldAfter(n, keep, buys)
         == NextHeld(changes, n - 1, HeldAfter(n - 1, keep, Earlier(n, buys)), keep, buyBelow)
  {
    LastDay(changes, n, keep, buyBelow, buys);
    EarlierBefore(n, keep, buys);
    hide Rule, Greedy, Earlier, Spaced;
  }

  lemma WindowLonger(changes: seq<real>, n: nat, keep: int, b: nat)
    requires b < n - 1 < b + Span(keep) && n <= |changes|
    ensures Window(changes, n, keep, b) == Window(changes, n - 1, keep, b) + [changes[n - 1]]
  {
    assert n <= b + Span(keep);
    assert changes[b + 1..n] == changes[b + 1..n - 1] + [changes[n - 1]];
  }

  lemma Holding(n: nat, keep: int, b: seq<nat>)
    requires Before(b, n) && HeldAfter(n, keep, b) != 0
    ensures b != [] && b[|b| - 1] < n < b[|b| - 1] + Span(keep)
  {}

  // A day on which something is held: the last window grows by it.
  lemma HoldingDay(changes: seq<real>, n: nat, keep: int, b: seq<nat>)
    requires 0 < n <= |changes| && Before(b, n - 1) && Spaced(b, keep) && HeldAfter(n - 1, keep, b) != 0
    ensures Before(b, n) && Windows(changes, n, keep, b) == Windows(changes, n - 1, keep, b) + [changes[n - 1]]
  {
    hide *;
    BeforeNext(b, n);
    Holding(n - 1, keep, b);
    HeldMeans(n - 1, keep, b);
    OneWindowMore(changes, n, keep, b);
    OneWindowMore(changes, n - 1, keep, b);
    var c, last := b[..|b| - 1], b[|b| - 1];
    WindowLonger(changes, n, keep, last);
    Settled(changes, n - 1, n, keep, c);
    Regroup(Windows(changes, n - 1, keep, c), Window(changes, n - 1, keep, last), [changes[n - 1]]);
  }

  lemma BeforeNext(b: seq<nat>, n: nat)
    requires n > 0 && Before(b, n - 1)
    ensures Before(b, n)
  {}

  lemma Regroup(a: seq<real>, b: seq<real>, c: seq<real>)
    ensures a + (b + c) == (a + b) + c
  {}

  // An idle day changes no window.
  lemma IdleDay(changes: seq<real>, n: nat, keep: int, b: seq<nat>)
    requires 0 < n <= |changes| && Before(b, n - 1) && Spaced(b, keep) && HeldAfter(n - 1, keep, b) == 0
    ensures Before(b, n) && Windows(changes, n, keep, b) == Windows(changes, n - 1, keep, b)
  {
    HeldMeans(n - 1, keep, b);
    hide Spaced, Over, HeldAfter, Window, Windows;
    Settled(changes, n - 1, n, keep, b);
  }

  // A day of purchase opens an empty window.
  lemma PurchaseDay(changes: seq<real>, n: nat, keep: int, b: seq<nat>)
    requires 0 < n <= |changes| && Before(b, n) && Spaced(b, keep) && Spaced(b + [n - 1], keep)
    ensures Windows(changes, n, keep, b + [n - 1]) == Windows(changes, n, keep, b)
  {
    hide Spaced, Windows;
    var more := b + [n - 1];
    assert more[..|b|] == b && more[|b|] == n - 1;
    OneWindowMore(changes, n, keep, more);
    assert Window(changes, n, keep, n - 1) == [];
  }

  lemma WindowsStep(changes: seq<real>, n: nat, keep: int, buyBelow: real, buys: seq<nat>)
    requires n > 0 && Greedy(changes, n, keep, buyBelow, buys)
    ensures n <= |changes| && Before(buys, n) && Spaced(buys, keep)
    ensures Before(Earlier(n, buys), n - 1) && Spaced(Earlier(n, buys), keep)
    ensures var b := Earlier(n, buys);
            var before := Windows(changes, n - 1, keep, b);
            Windows(changes, n, keep, buys) ==
            if HeldAfter(n - 1, keep, b) != 0 then before + [changes[n - 1]] else before
  {
    hide *;
    var b := Earlier(n, buys);
    GreedyFacts(changes, n, keep, buyBelow, buys);
    LastDay(changes, n, keep, buyBelow, buys);
    if HeldAfter(n - 1, keep, b) != 0 {
      HoldingDay(changes, n, keep, b);
    } else {
      IdleDay(changes, n, keep, b);
      if Rule(changes, n - 1, buyBelow) {
        PurchaseDay(changes, n, keep, b);
      }
    }
  }

  lemma NoDays(changes: seq<real>, keep: int, buyBelow: real, buys: seq<nat>)
    requires Greedy(changes, 0, keep, buyBelow, buys)
    ensures buys == []
  {
    hide Rule, Spaced;
  }

  lemma NothingHeld(keep: int)
    ensures HeldAfter(0, keep, []) == 0
  {}

  lemma HeldNatural(n: nat, keep: int, b: seq<nat>)
    requires Before(b, n)
    ensures HeldAfter(n, keep, b) >= 0
  {}

  // The profits of a back-test are the daily changes over the holding windows of the greedy
  // schedule, one window after another, and the counter is that of the last window.
  lemma {:induction false} ProfitsAreWindows(changes: seq<real>, n: nat, keep: int, buyBelow: real, buys: seq<nat>)
    requires Greedy(changes, n, keep, buyBelow, buys)
    ensures Trade(changes, n, [], 0, keep, buyBelow)
         == (Windows(changes, n, keep, buys), HeldAfter(n, keep, buys))
  {
    hide Rule, Greedy, Covered, Before, Spaced, Over, Earlier, HeldAfter, NextHeld, Window, Span;
    if n == 0 {
      NoDays(changes, keep, buyBelow, buys);
      NothingHeld(keep);
    } else {
      hide Windows;
      EarlierGreedy(changes, n, keep, buyBelow, buys);
      ProfitsAreWindows(changes, n - 1, keep, buyBelow, Earlier(n, buys));
      HeldStep(changes, n, keep, buyBelow, buys);
      WindowsStep(changes, n, keep, buyBelow, buys);
      HeldNatural(n - 1, keep, Earlier(n, buys));
    }
  }

  // Two falls of six percent, a limit of minus ten, held for three days: bought on the second day,
  // the changes of the next two days are the profits.
  lemma TradeExample()
    ensures Trade([-0.06, -0.06, 0.01, 0.02, 0.03], 5, [], 0, 3, -0.10) == ([0.01, 0.02], 0)
  {
    var cs := [-0.06, -0.06, 0.01, 0.02, 0.03];
    assert Trade(cs, 1, [], 0, 3, -0.10) == ([], 0);
    assert Trade(cs, 2, [], 0, 3, -0.10) == ([], 1);
    assert [] + [cs[2]] == [0.01];
    assert Trade(cs, 3, [], 0, 3, -0.10) == ([0.01], 2);
    assert [0.01] + [0.02] == [0.01, 0.02];
    assert Trade(cs, 4, [], 0, 3, -0.10) == ([0.01, 0.02], 0);
  }

  // There is exactly one such schedule.
  lemma {:induction false} ScheduleExists(changes: seq<real>, n: nat, keep: int, buyBelow: real)
    returns (buys: seq<nat>)
    requires n <= |changes|
    ensures Greedy(changes, n, keep, buyBelow, buys)
  {
    hide Rule, Span;
    buys := [];
    if n > 0 {
      var b := ScheduleExists(changes, n - 1, keep, buyBelow);
      buys := b;
      HeldMeans(n - 1, keep, b);
      if Rule(changes, n - 1, buyBelow) && HeldAfter(n - 1, keep, b) == 0 {
        buys := b + [n - 1];
        assert buys[|b|] <= n - 1 < buys[|b|] + Span(keep);
      }
      forall d | 0 <= d < n && Rule(changes, d, buyBelow) ensures Covered(d, keep, buys) {
        if d < n - 1 {
          assert Covered(d, keep, b);
          var i :| 0 <= i < |b| && b[i] <= d < b[i] + Span(keep);
          assert buys[i] == b[i];
        } else if buys == b {
          assert b[|b| - 1] <= d < b[|b| - 1] + Span(keep);
        }
      }
    }
  }

  lemma {:induction false} ScheduleUnique(changes: seq<real>, n: nat, keep: int, buyBelow: real,
                                          a: seq<nat>, b: seq<nat>)
    requires Greedy(changes, n, keep, buyBelow, a) && Greedy(changes, n, keep, buyBelow, b)
    ensures a == b
  {
    hide Rule, Greedy, HeldAfter, Earlier;
    if n == 0 {
      NoDays(changes, keep, buyBelow, a);
      NoDays(changes, keep, buyBelow, b);
    } else {
      EarlierGreedy(changes, n, keep, buyBelow, a);
      EarlierGreedy(changes, n, keep, buyBelow, b);
      ScheduleUnique(changes, n - 1, keep, buyBelow, Earlier(n, a), Earlier(n, b));
      LastDay(changes, n, keep, buyBelow, a);
      LastDay(changes, n, keep, buyBelow, b);
    }
  }

  // Between days the counter stays below the threshold, or at zero when the threshold is below two.
  lemma {:induction false} CounterBelow(changes: seq<real>, n: nat, held: int, keep: int, buyBelow: real)
    requires n <= |changes| && 0 <= held < Span(keep)
    ensures 0 <= Trade(changes, n, [], held, keep, buyBelow).1 < Span(keep)
  {
    if n > 0 {
      CounterBelow(changes, n - 1, held, keep, buyBelow);
    }
  }
}
