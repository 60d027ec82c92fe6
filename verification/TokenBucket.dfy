/** The token bucket of the notification bridge against the window-counting rule it stands for.
    The clock and the rate are real numbers. */
module TokenBucket {

  function Min(a: real, b: real): real {
    if a <= b then a else b
  }

  /** A bucket's parameters and its history: times[0] is its creation and times[n] is the time of request n. */
  datatype History = History(burst: real, rate: real, times: seq<real>) {

    /** The tokens that flow in between two points of the history: elapsed time times the rate. */
    function Earned(from: nat, upTo: nat): real
      requires from < |times| && upTo < |times|
    {
      (times[upTo] - times[from]) * rate
    }

    /** What the bucket holds when request n is decided, before a token is taken. */
    function Tokens(n: nat): real
      requires n < |times|
      decreases n, 0
    {
      if n == 0 then burst else Min(burst, Left(n - 1) + Earned(n - 1, n))
    }

    /** Request n is accepted; the creation is not a request. */
    predicate Accepted(n: nat)
      requires n < |times|
      decreases n, 1
    {
      n > 0 && Tokens(n) >= 1.0
    }

    /** What remains after request n. */
    function Left(n: nat): real
      requires n < |times|
      decreases n, 2
    {
      Tokens(n) - if Accepted(n) then 1.0 else 0.0
    }

    /** How many of the requests from, from + 1, ..., upTo - 1 were accepted. */
    function Count(from: nat, upTo: nat): nat
      requires from <= upTo <= |times|
    {
      if from == upTo then 0 else Count(from, upTo - 1) + if Accepted(upTo - 1) then 1 else 0
    }

    /** What the window from time k still allows when request n is decided. */
    function Allowance(k: nat, n: nat): real
      requires k <= n < |times|
    {
      burst + Earned(k, n) - Count(k, n) as real
    }

    ghost predicate Nondecreasing() {
      forall i, j :: 0 <= i <= j < |times| ==> times[i] <= times[j]
    }
  }

  class Bucket {
    const burst: real
    const rate: real
    var tokens: real
    var last: real
    ghost var times: seq<real>

    constructor (burst: real, rate: real, now: real)
      ensures Valid() && Past() == History(burst, rate, [now])
    {
      this.burst, this.rate, tokens, last, times := burst, rate, burst, now, [now];
    }

    ghost function Past(): History
      reads this
    {
      History(burst, rate, times)
    }

    ghost predicate Valid()
      reads this
    {
      times != [] && last == times[|times| - 1] && tokens == Past().Left(|times| - 1)
    }

    method Consume(now: real) returns (ok: bool)
      requires Valid()
      modifies this
      ensures Valid() && Past() == old(Past()).(times := old(times) + [now])
      ensures ok <==> Past().Accepted(|times| - 1)
    {
      ghost var past, n := Past(), |times|;
      var elapsed := now - last;
      last := now;
      tokens := Min(burst, tokens + elapsed * rate);
      times := times + [now];
      PastIsStable(past, now, n - 1);
      assert tokens == Past().Tokens(n);
      ok := tokens >= 1.0;
      if ok {
        tokens := tokens - 1.0;
      }
    }
  }

  lemma {:induction false} PastIsStable(h: History, now: real, n: nat)
    requires n < |h.times|
    ensures h.(times := h.times + [now]).Tokens(n) == h.Tokens(n)
    ensures h.(times := h.times + [now]).Left(n) == h.Left(n)
  {
    if n > 0 {
      PastIsStable(h, now, n - 1);
    }
  }

  lemma EarnedAdds(h: History, a: nat, b: nat, c: nat)
    requires a < |h.times| && b < |h.times| && c < |h.times|
    ensures h.Earned(a, b) + h.Earned(b, c) == h.Earned(a, c)
  {
    assert (h.times[b] - h.times[a]) * h.rate + (h.times[c] - h.times[b]) * h.rate
        == ((h.times[b] - h.times[a]) + (h.times[c] - h.times[b])) * h.rate;
  }

  lemma EarnedGrows(h: History, a: nat, b: nat)
    requires a <= b < |h.times| && h.rate >= 0.0 && h.Nondecreasing()
    ensures h.Earned(a, b) >= 0.0
  {
    Product(h.times[b] - h.times[a], h.rate);
  }

  lemma Product(x: real, y: real)
    requires x >= 0.0 && y >= 0.0
    ensures x * y >= 0.0
  {
  }

  lemma AllowanceStep(h: History, k: nat, n: nat)
    requires 1 <= n < |h.times| && k < n
    ensures h.Allowance(k, n) == h.Allowance(k, n - 1) + h.Earned(n - 1, n) - if h.Accepted(n - 1) then 1.0 else 0.0
  {
    EarnedAdds(h, k, n - 1, n);
  }

  /** The bucket holds the smallest allowance of all windows: at most each of them, and equal to one. */
  lemma {:induction false} TokensAreTheTightestWindow(h: History, n: nat) returns (k: nat)
    requires n < |h.times|
    ensures k <= n && h.Tokens(n) == h.Allowance(k, n)
    ensures forall j :: 0 <= j <= n ==> h.Tokens(n) <= h.Allowance(j, n)
  {
    k := n;
    if n > 0 {
      var earlier := TokensAreTheTightestWindow(h, n - 1);
      forall j: nat | j < n ensures h.Tokens(n) <= h.Allowance(j, n) {
        AllowanceStep(h, j, n);
      }
      AllowanceStep(h, earlier, n);
      k := if h.Tokens(n) == h.burst then n else earlier;
    }
  }

  /** The bucket is exact: request n is accepted if and only if it still fits into every window that starts at the
      creation, at an earlier request, or at itself. */
  lemma AcceptedIffEveryWindowFits(h: History, n: nat)
    requires 1 <= n < |h.times|
    ensures h.Accepted(n) <==>
            forall k :: 0 <= k <= n ==> h.Count(k, n) as real + 1.0 <= h.burst + h.Earned(k, n)
  {
    var tightest := TokensAreTheTightestWindow(h, n);
    assert h.Allowance(tightest, n) >= 1.0 <==> h.Count(tightest, n) as real + 1.0 <= h.burst + h.Earned(tightest, n);
    assert forall k :: 0 <= k <= n ==> h.Allowance(k, n) == h.burst + h.Earned(k, n) - h.Count(k, n) as real;
  }

  /** The posts accepted in any window are at most the burst plus the rate times its length. */
  lemma {:induction false} WindowBound(h: History, k: nat, n: nat)
    requires k <= n < |h.times| && h.burst >= 0.0 && h.rate >= 0.0 && h.Nondecreasing()
    ensures h.Count(k, n + 1) as real <= h.burst + h.Earned(k, n)
  {
    EarnedGrows(h, k, n);
    if h.Accepted(n) {
      var _ := TokensAreTheTightestWindow(h, n);
      assert h.Allowance(k, n) >= 1.0;
    } else if k < n {
      WindowBound(h, k, n - 1);
      EarnedAdds(h, k, n - 1, n);
      EarnedGrows(h, n - 1, n);
    }
  }

  lemma {:induction false} NeverInDebt(h: History, n: nat)
    requires n < |h.times| && h.burst >= 0.0 && h.rate >= 0.0 && h.Nondecreasing()
    ensures h.Tokens(n) >= 0.0 && h.Left(n) >= 0.0
  {
    if n > 0 {
      NeverInDebt(h, n - 1);
      EarnedGrows(h, n - 1, n);
    }
  }

  /** The first request, and every request at least 1/rate after the one before it, is accepted. */
  lemma SpacedRequestIsAccepted(h: History, n: nat)
    requires 1 <= n < |h.times| && h.burst >= 1.0 && h.rate > 0.0 && h.Nondecreasing()
    requires n == 1 || h.times[n] - h.times[n - 1] >= 1.0 / h.rate
    ensures h.Accepted(n)
  {
    NeverInDebt(h, n - 1);
    EarnedGrows(h, n - 1, n);
    if n > 1 {
      var spare := h.times[n] - h.times[n - 1] - 1.0 / h.rate;
      Product(spare, h.rate);
      assert spare * h.rate == h.Earned(n - 1, n) - 1.0;
    }
  }
}
