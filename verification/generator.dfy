/** URL generators: closures over a counter that yield `endpoint/<id>` with the
    id growing by a fixed step on every call. */
module Generator {
  import Decimal

  /** The state a generator closure captures: its base endpoint, the amount
      added per call, and the counter as it stands after the calls so far. */
  datatype Gen = Gen(endpoint: string, step: nat, counter: nat)

  /** The target URL for one id: the endpoint, a slash, the id in decimal. */
  function Url(endpoint: string, id: nat): string {
    endpoint + "/" + Decimal.Format(id)
  }

  /** A generator whose ids are 2, 4, 6, ... */
  function Even(endpoint: string): Gen {
    Gen(endpoint, 2, 0)
  }

  /** A generator whose ids are 3, 6, 9, ... */
  function Threes(endpoint: string): Gen {
    Gen(endpoint, 3, 0)
  }

  /** One call of the closure: advance the counter by the step, then format it. */
  function Next(g: Gen): (r: (Gen, string))
    ensures r.0 == g.(counter := r.0.counter)
    ensures r.0.counter == g.counter + g.step
    ensures r.1 == Url(g.endpoint, r.0.counter)
  {
    var g' := g.(counter := g.counter + g.step);
    (g', Url(g.endpoint, g'.counter))
  }

  /** The URLs returned by `n` successive calls, in call order, and the state after them. */
  function Calls(g: Gen, n: nat): (r: (Gen, seq<string>))
    ensures |r.1| == n
    decreases n
  {
    if n == 0 then (g, [])
    else
      var (g1, url) := Next(g);
      var (g2, urls) := Calls(g1, n - 1);
      (g2, [url] + urls)
  }

  /** The counter after `k` calls starting from `g`. */
  function CounterAfter(g: Gen, k: nat): nat {
    g.counter + g.step * k
  }

  /** After `n` calls the counter has advanced `n` steps. */
  lemma {:induction false} CallsFinalState(g: Gen, n: nat)
    ensures Calls(g, n).0 == g.(counter := CounterAfter(g, n))
    decreases n
  {
    if n > 0 {
      var g1 := Next(g).0;
      CallsFinalState(g1, n - 1);
      OneMoreStep(g.step, n - 1);
    }
  }

  /** The k-th call (counting from zero) yields the counter advanced k+1 steps. */
  lemma {:induction false} CallsClosedForm(g: Gen, n: nat)
    ensures forall k :: 0 <= k < n ==> Calls(g, n).1[k] == Url(g.endpoint, CounterAfter(g, k + 1))
    decreases n
  {
    if n > 0 {
      var g1 := Next(g).0;
      CallsClosedForm(g1, n - 1);
      forall k | 0 <= k < n
        ensures Calls(g, n).1[k] == Url(g.endpoint, CounterAfter(g, k + 1))
      {
        if k > 0 {
          assert Calls(g, n).1[k] == Calls(g1, n - 1).1[k - 1];
          OneMoreStep(g.step, k);
          assert CounterAfter(g1, k) == CounterAfter(g, k + 1);
        }
      }
    }
  }

  lemma OneMoreStep(step: nat, k: nat)
    ensures step * (k + 1) == step * k + step
  {
  }

  /** The k-th call of `Even(endpoint)` (counting from one) returns `endpoint/2k`. */
  lemma EvenKthCall(endpoint: string, n: nat, k: nat)
    requires 1 <= k <= n
    ensures Calls(Even(endpoint), n).1[k - 1] == Url(endpoint, 2 * k)
  {
    CallsClosedForm(Even(endpoint), n);
  }

  /** The k-th call of `Threes(endpoint)` (counting from one) returns `endpoint/3k`. */
  lemma ThreesKthCall(endpoint: string, n: nat, k: nat)
    requires 1 <= k <= n
    ensures Calls(Threes(endpoint), n).1[k - 1] == Url(endpoint, 3 * k)
  {
    CallsClosedForm(Threes(endpoint), n);
  }

  /** Two URLs over one endpoint coincide exactly when their ids do. */
  lemma UrlInjective(endpoint: string, a: nat, b: nat)
    ensures Url(endpoint, a) == Url(endpoint, b) <==> a == b
  {
    if Url(endpoint, a) == Url(endpoint, b) {
      var p := |endpoint| + 1;
      assert Url(endpoint, a)[p..] == Decimal.Format(a);
      assert Url(endpoint, b)[p..] == Decimal.Format(b);
      Decimal.FormatInjective(a, b);
    }
  }

  lemma StepsIncrease(step: nat, x: nat, y: nat)
    requires step > 0 && x < y
    ensures step * x < step * y
  {
    assert step * y == step * x + step * (y - x);
  }

  /** A generator with a positive step never returns the same URL twice. */
  lemma CallsNeverRepeat(g: Gen, n: nat, i: nat, j: nat)
    requires g.step > 0
    requires i < j < n
    ensures Calls(g, n).1[i] != Calls(g, n).1[j]
  {
    CallsClosedForm(g, n);
    var a := CounterAfter(g, i + 1);
    var b := CounterAfter(g, j + 1);
    StepsIncrease(g.step, i + 1, j + 1);
    UrlInjective(g.endpoint, a, b);
  }
}
