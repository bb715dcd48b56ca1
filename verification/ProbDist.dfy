/** Vose's alias method over exact reals: the tables stand for the weights they were built
    from, and every sample lies in the support. */
module ProbDist {
  import opened Words
  import opened Wrappers
  import R = Gorand

  const MIN_VALUES: nat := 1
  const MAX_VALUES: nat := 100

  /** `fold(0.0, |acc, w| acc + w)` */
  function Sum(s: seq<real>): real {
    if s == [] then 0.0 else Sum(s[..|s| - 1]) + s[|s| - 1]
  }

  lemma SumAppend(s: seq<real>, x: real)
    ensures Sum(s + [x]) == Sum(s) + x
  {
    assert (s + [x])[..|s|] == s;
  }

  // ---- Mass ----

  /** What the finished slots give away to `i` through their aliases. */
  function Given(prob: seq<real>, alias: seq<nat>, done: seq<bool>, i: nat, n: nat): real
    requires n <= |prob| == |alias| == |done|
  {
    if n == 0 then 0.0
    else Given(prob, alias, done, i, n - 1)
         + (if done[n - 1] && alias[n - 1] == i then 1.0 - prob[n - 1] else 0.0)
  }

  /** Finishing slot `l` with probability `p` and alias `g` gives `1 - p` to `g` and nothing
      to anyone else. */
  lemma {:induction false} GivenUpdate(prob: seq<real>, alias: seq<nat>, done: seq<bool>, l: nat, p: real, g: nat,
                                       i: nat, n: nat)
    requires n <= |prob| == |alias| == |done| && l < |prob| && !done[l]
    ensures Given(prob[l := p], alias[l := g], done[l := true], i, n)
         == Given(prob, alias, done, i, n) + (if l < n && i == g then 1.0 - p else 0.0)
  {
    if n > 0 {
      GivenUpdate(prob, alias, done, l, p, g, i, n - 1);
    }
  }

  ghost predicate Within(q: seq<nat>, n: nat) {
    forall k :: 0 <= k < |q| ==> q[k] < n
  }

  ghost predicate AllBelow(q: seq<nat>, scaled: seq<real>)
    requires Within(q, |scaled|)
  {
    forall k :: 0 <= k < |q| ==> 0.0 <= scaled[q[k]] < 1.0
  }

  ghost predicate AllAbove(q: seq<nat>, scaled: seq<real>)
    requires Within(q, |scaled|)
  {
    forall k :: 0 <= k < |q| ==> scaled[q[k]] >= 1.0
  }

  /** Total of what the slots in a queue still hold. */
  ghost function Load(q: seq<nat>, scaled: seq<real>): real
    requires Within(q, |scaled|)
  {
    if q == [] then 0.0 else scaled[q[0]] + Load(q[1..], scaled)
  }

  lemma {:induction false} LoadAppend(q: seq<nat>, g: nat, scaled: seq<real>)
    requires Within(q, |scaled|) && g < |scaled|
    ensures Load(q + [g], scaled) == Load(q, scaled) + scaled[g]
  {
    if q == [] {
      assert q + [g] == [g];
    } else {
      assert (q + [g])[1..] == q[1..] + [g];
      LoadAppend(q[1..], g, scaled);
    }
  }

  lemma {:induction false} LoadElsewhere(q: seq<nat>, g: nat, x: real, scaled: seq<real>)
    requires Within(q, |scaled|) && g < |scaled| && g !in q
    ensures Load(q, scaled[g := x]) == Load(q, scaled)
  {
    if q != [] {
      LoadElsewhere(q[1..], g, x, scaled);
    }
  }

  lemma {:induction false} LoadBelow(q: seq<nat>, scaled: seq<real>)
    requires Within(q, |scaled|) && AllBelow(q, scaled)
    ensures q != [] ==> Load(q, scaled) < |q| as real
    ensures Load(q, scaled) <= |q| as real
  {
    if q != [] {
      LoadBelow(q[1..], scaled);
    }
  }

  /** Slots that hold at least 1 each and 1 on average hold exactly 1. */
  lemma {:induction false} LoadAbove(q: seq<nat>, scaled: seq<real>)
    requires Within(q, |scaled|) && AllAbove(q, scaled)
    ensures Load(q, scaled) >= |q| as real
    ensures Load(q, scaled) == |q| as real ==> forall k :: 0 <= k < |q| ==> scaled[q[k]] == 1.0
  {
    if q != [] {
      LoadAbove(q[1..], scaled);
      if Load(q, scaled) == |q| as real {
        forall k | 0 <= k < |q| ensures scaled[q[k]] == 1.0 {
          if k > 0 {
            assert q[k] == q[1..][k - 1];
          }
        }
      }
    }
  }

  // ---- The state of the loop ----

  /** The two queues hold exactly the unfinished slots, each once. */
  ghost predicate Queued(small: seq<nat>, large: seq<nat>, done: seq<bool>) {
    && Within(small, |done|) && Within(large, |done|)
    && (forall j, k :: 0 <= j < k < |small| ==> small[j] != small[k])
    && (forall j, k :: 0 <= j < k < |large| ==> large[j] != large[k])
    && (forall i: nat :: i < |done| ==> (!done[i] <==> i in small || i in large))
    && (forall i: nat :: i in small ==> i !in large)
  }

  ghost predicate Split(small: seq<nat>, large: seq<nat>, scaled: seq<real>)
    requires Within(small, |scaled|) && Within(large, |scaled|)
  {
    && AllBelow(small, scaled) && AllAbove(large, scaled)
    && Load(small, scaled) + Load(large, scaled) == (|small| + |large|) as real
  }

  /** A slot's original share is what it has or keeps, and what it has been given. */
  ghost predicate Shares(share: seq<real>, scaled: seq<real>, prob: seq<real>, alias: seq<nat>, done: seq<bool>) {
    && |share| == |scaled| == |prob| == |alias| == |done|
    && forall i: nat :: i < |share| ==>
         share[i] == (if done[i] then prob[i] else scaled[i]) + Given(prob, alias, done, i, |share|)
  }

  ghost predicate Probabilities(prob: seq<real>, alias: seq<nat>, done: seq<bool>)
    requires |prob| == |alias| == |done|
  {
    forall i: nat :: i < |prob| && done[i] ==> 0.0 <= prob[i] <= 1.0 && alias[i] < |prob|
  }

  datatype Work = Work(small: seq<nat>, large: seq<nat>, scaled: seq<real>, prob: seq<real>, alias: seq<nat>,
                       done: seq<bool>)

  ghost predicate Inv(share: seq<real>, w: Work) {
    && Shares(share, w.scaled, w.prob, w.alias, w.done)
    && Queued(w.small, w.large, w.done) && Split(w.small, w.large, w.scaled)
    && Probabilities(w.prob, w.alias, w.done)
  }

  function Pushed(q: seq<nat>, i: nat, pushing: bool): (r: seq<nat>)
    ensures |r| == |q| + (if pushing then 1 else 0)
  {
    if pushing then q + [i] else q
  }

  /** One turn: the smallest slot in line is finished with help from a large one. */
  function Turn(w: Work): Work
    requires w.small != [] && w.large != []
    requires |w.scaled| == |w.prob| == |w.alias| == |w.done|
    requires w.small[0] < |w.scaled| && w.large[0] < |w.scaled|
  {
    var l, g := w.small[0], w.large[0];
    var left := w.scaled[g] + w.scaled[l] - 1.0;
    Work(Pushed(w.small[1..], g, left < 1.0), Pushed(w.large[1..], g, !(left < 1.0)),
         w.scaled[g := left], w.prob[l := w.scaled[l]], w.alias[l := g], w.done[l := true])
  }

  lemma TurnShares(share: seq<real>, w: Work)
    requires Inv(share, w) && w.small != [] && w.large != []
    ensures var w' := Turn(w); Shares(share, w'.scaled, w'.prob, w'.alias, w'.done)
    ensures var w' := Turn(w); Probabilities(w'.prob, w'.alias, w'.done)
  {
    var l, g, w' := w.small[0], w.large[0], Turn(w);
    assert l in w.small && g in w.large;
    hide Split;
    forall i: nat | i < |share|
      ensures share[i] == (if w'.done[i] then w'.prob[i] else w'.scaled[i])
                          + Given(w'.prob, w'.alias, w'.done, i, |share|)
    {
      GivenUpdate(w.prob, w.alias, w.done, l, w.scaled[l], g, i, |share|);
    }
  }

  lemma TurnQueues(w: Work)
    requires w.small != [] && w.large != [] && |w.scaled| == |w.prob| == |w.alias| == |w.done|
    requires Queued(w.small, w.large, w.done)
    ensures Queued(Turn(w).small, Turn(w).large, Turn(w).done)
  {
    var l, g, w' := w.small[0], w.large[0], Turn(w);
    assert l in w.small && g in w.large;
    forall i: nat | i < |w.done| ensures !w'.done[i] <==> i in w'.small || i in w'.large {
      assert i in w.small <==> i == l || i in w.small[1..];
      assert i in w.large <==> i == g || i in w.large[1..];
    }
    forall i: nat | i in w'.small ensures i !in w'.large {
      assert i in w.small[1..] || i == g;
    }
  }

  lemma TurnSplits(w: Work)
    requires w.small != [] && w.large != [] && |w.scaled| == |w.prob| == |w.alias| == |w.done|
    requires Queued(w.small, w.large, w.done) && Split(w.small, w.large, w.scaled)
    requires Queued(Turn(w).small, Turn(w).large, Turn(w).done)
    ensures Split(Turn(w).small, Turn(w).large, Turn(w).scaled)
  {
    var l, g, w' := w.small[0], w.large[0], Turn(w);
    var small, large := w.small[1..], w.large[1..];
    assert l in w.small && g in w.large && l != g;
    assert g !in small && g !in large;
    PushLoad(small, w.scaled, g, w'.scaled[g], w'.scaled[g] < 1.0);
    PushLoad(large, w.scaled, g, w'.scaled[g], !(w'.scaled[g] < 1.0));
  }

  lemma TurnKeeps(share: seq<real>, w: Work, l: nat, g: nat, left: real)
    requires Inv(share, w) && w.small != [] && w.large != [] && l == w.small[0] && g == w.large[0]
    requires l < |w.scaled| && g < |w.scaled| && left == w.scaled[g] + w.scaled[l] - 1.0
    ensures |w.prob| == |w.alias| == |w.done| == |w.scaled|
    ensures Inv(share, Work(Pushed(w.small[1..], g, left < 1.0), Pushed(w.large[1..], g, !(left < 1.0)),
                            w.scaled[g := left], w.prob[l := w.scaled[l]], w.alias[l := g], w.done[l := true]))
  {
    TurnShares(share, w);
    TurnQueues(w);
    TurnSplits(w);
  }

  /** When one queue runs dry it is the small one, and what is left holds exactly 1. */
  lemma Leftover(share: seq<real>, w: Work)
    requires Inv(share, w) && (w.small == [] || w.large == [])
    ensures w.small == [] && forall k :: 0 <= k < |w.large| ==> w.scaled[w.large[k]] == 1.0
  {
    LoadBelow(w.small, w.scaled);
    LoadAbove(w.large, w.scaled);
  }

  /** Finishing a leftover slot with probability 1. */
  function Finish(w: Work): Work
    requires w.large != [] && |w.scaled| == |w.prob| == |w.alias| == |w.done| && w.large[0] < |w.scaled|
  {
    var g := w.large[0];
    w.(large := w.large[1..], prob := w.prob[g := 1.0], done := w.done[g := true])
  }

  lemma FinishShares(share: seq<real>, w: Work)
    requires Inv(share, w) && w.large != [] && w.scaled[w.large[0]] == 1.0
    ensures var w' := Finish(w); Shares(share, w'.scaled, w'.prob, w'.alias, w'.done)
  {
    hide Given, Load;
    var g, w' := w.large[0], Finish(w);
    assert g in w.large && w.alias[g := w.alias[g]] == w.alias;
    forall i: nat | i < |share|
      ensures share[i] == (if w'.done[i] then w'.prob[i] else w'.scaled[i])
                          + Given(w'.prob, w'.alias, w'.done, i, |share|)
    {
      GivenUpdate(w.prob, w.alias, w.done, g, 1.0, w.alias[g], i, |share|);
    }
  }

  lemma FinishQueued(w: Work)
    requires |w.scaled| == |w.prob| == |w.alias| == |w.done| && w.small == [] && w.large != [] && Queued([], w.large, w.done)
    ensures var w' := Finish(w); Queued(w'.small, w'.large, w'.done)
  {
    var g, w' := w.large[0], Finish(w);
    forall i: nat | i < |w.done| ensures !w'.done[i] <==> i in w'.small || i in w'.large {
      assert i in w.large <==> i == g || i in w.large[1..];
    }
  }

  lemma FinishKeeps(share: seq<real>, w: Work)
    requires Inv(share, w) && w.small == [] && w.large != []
    requires forall k :: 0 <= k < |w.large| ==> w.scaled[w.large[k]] == 1.0
    requires w.alias[w.large[0]] < |share|
    ensures Inv(share, Finish(w))
  {
    hide Given;
    FinishShares(share, w);
    FinishQueued(w);
    hide Shares, Queued;
  }

  // ---- Before the loop ----

  function Repeated<T>(x: T, n: nat): (r: seq<T>)
    ensures |r| == n && forall i :: 0 <= i < n ==> r[i] == x
  {
    seq(n, _ => x)
  }

  function AllDone(n: nat): (r: seq<bool>)
    ensures |r| == n && forall i :: 0 <= i < n ==> r[i]
  {
    seq(n, _ => true)
  }

  /** Slots from `i` on are not queued yet. */
  function Unqueued(i: nat, n: nat): (r: seq<bool>)
    ensures |r| == n && forall j :: 0 <= j < n ==> r[j] == (j >= i)
  {
    seq(n, j => j >= i)
  }

  lemma {:induction false} GivenNothing(prob: seq<real>, alias: seq<nat>, done: seq<bool>, i: nat, n: nat)
    requires n <= |prob| == |alias| == |done| && forall j :: 0 <= j < n ==> !done[j]
    ensures Given(prob, alias, done, i, n) == 0.0
  {
    if n > 0 {
      GivenNothing(prob, alias, done, i, n - 1);
    }
  }

  lemma {:induction false} SumScaled(weights: seq<real>, scaled: seq<real>, c: real)
    requires |weights| == |scaled| && forall i :: 0 <= i < |weights| ==> scaled[i] == weights[i] * c
    ensures Sum(scaled) == Sum(weights) * c
  {
    if weights != [] {
      SumScaled(weights[..|weights| - 1], scaled[..|scaled| - 1], c);
    }
  }

  /** Queueing slot `i` with share `x`. */
  ghost predicate Filled(small: seq<nat>, large: seq<nat>, scaled: seq<real>, i: nat) {
    && i <= |scaled| && Queued(small, large, Unqueued(i, |scaled|))
    && AllBelow(small, scaled) && AllAbove(large, scaled)
    && Load(small, scaled) + Load(large, scaled) == Sum(scaled[..i])
    && |small| + |large| == i
  }

  lemma FillStep(small: seq<nat>, large: seq<nat>, scaled: seq<real>, i: nat, x: real, below: bool)
    requires Filled(small, large, scaled, i) && i < |scaled| && x >= 0.0 && below == (x < 1.0)
    ensures Filled(Pushed(small, i, below), Pushed(large, i, !below), scaled[i := x], i + 1)
  {
    hide Queued, Load, Sum, AllBelow, AllAbove, Within, Unqueued, Pushed;
    FillQueued(small, large, |scaled|, i, below);
    QueuedWithin(small, large, Unqueued(i, |scaled|));
    PushLoad(small, scaled, i, x, below);
    PushLoad(large, scaled, i, x, !below);
    SumUpdate(scaled, i, x);
  }

  lemma QueuedWithin(small: seq<nat>, large: seq<nat>, done: seq<bool>)
    requires Queued(small, large, done)
    ensures Within(small, |done|) && Within(large, |done|)
  {
  }

  lemma FillQueued(small: seq<nat>, large: seq<nat>, n: nat, i: nat, below: bool)
    requires Queued(small, large, Unqueued(i, n)) && i < n
    ensures i !in small && i !in large
    ensures Queued(Pushed(small, i, below), Pushed(large, i, !below), Unqueued(i + 1, n))
  {
    assert Unqueued(i, n)[i];
    var small', large' := Pushed(small, i, below), Pushed(large, i, !below);
    forall j: nat | j < n ensures !(j >= i + 1) <==> j in small' || j in large' {
      assert Unqueued(i, n)[j] == (j >= i);
      assert j in small' <==> j in small || (below && j == i);
      assert j in large' <==> j in large || (!below && j == i);
    }
  }

  lemma PushLoad(q: seq<nat>, scaled: seq<real>, i: nat, x: real, pushing: bool)
    requires Within(q, |scaled|) && i < |scaled| && i !in q
    ensures Within(Pushed(q, i, pushing), |scaled|)
    ensures Load(Pushed(q, i, pushing), scaled[i := x]) == Load(q, scaled) + (if pushing then x else 0.0)
    ensures AllBelow(q, scaled) && (pushing ==> 0.0 <= x < 1.0) ==> AllBelow(Pushed(q, i, pushing), scaled[i := x])
    ensures AllAbove(q, scaled) && (pushing ==> x >= 1.0) ==> AllAbove(Pushed(q, i, pushing), scaled[i := x])
  {
    LoadElsewhere(q, i, x, scaled);
    LoadAppend(q, i, scaled[i := x]);
  }

  lemma SumUpdate(scaled: seq<real>, i: nat, x: real)
    requires i < |scaled|
    ensures Sum(scaled[i := x][..i + 1]) == Sum(scaled[..i]) + x
  {
    assert scaled[i := x][..i + 1][..i] == scaled[..i];
  }

  /** The share of each weight, in units of one slot. */
  function Share(weights: seq<real>, i: nat): real
    requires i < |weights| && Sum(weights) != 0.0
  {
    Scaled(weights[i], |weights|, Sum(weights))
  }

  function Scaled(weight: real, n: nat, sum: real): real
    requires sum != 0.0
  {
    weight * n as real / sum
  }

  lemma ShareIs(weights: seq<real>, i: nat)
    requires i < |weights| && Sum(weights) != 0.0
    ensures Share(weights, i) == weights[i] * (|weights| as real / Sum(weights))
  {
    hide Sum;
    var n, sum := |weights| as real, Sum(weights);
    assert weights[i] * n / sum == weights[i] * (n / sum);
  }

  lemma Cancel(n: real, sum: real)
    requires sum != 0.0
    ensures sum * (n / sum) == n
  {
  }

  lemma SharesAverageOne(weights: seq<real>, scaled: seq<real>)
    requires Sum(weights) != 0.0 && |scaled| == |weights|
    requires forall i :: 0 <= i < |weights| ==> scaled[i] == Share(weights, i)
    ensures Sum(scaled) == |weights| as real
  {
    hide Sum, Share;
    var c := |weights| as real / Sum(weights);
    forall i | 0 <= i < |weights| ensures scaled[i] == weights[i] * c {
      ShareIs(weights, i);
    }
    SumScaled(weights, scaled, c);
    Cancel(|weights| as real, Sum(weights));
  }

  /** Chance, out of n, that sampling ends on slot `i`. */
  function Chance(prob: seq<real>, alias: seq<nat>, i: nat): real
    requires i < |prob| == |alias|
  {
    prob[i] + Given(prob, alias, AllDone(|prob|), i, |prob|)
  }

  lemma StartKeeps(small: seq<nat>, large: seq<nat>, scaled: seq<real>, prob: seq<real>, alias: seq<nat>)
    requires Filled(small, large, scaled, |scaled|) && |prob| == |alias| == |scaled|
    requires Sum(scaled) == |scaled| as real
    ensures Inv(scaled, Work(small, large, scaled, prob, alias, Unqueued(|scaled|, |scaled|)))
  {
    var done := Unqueued(|scaled|, |scaled|);
    assert scaled[..|scaled|] == scaled;
    forall i: nat | i < |scaled| ensures Given(prob, alias, done, i, |scaled|) == 0.0 {
      GivenNothing(prob, alias, done, i, |scaled|);
    }
  }

  lemma ShareNonNegative(weights: seq<real>, i: nat)
    requires i < |weights| && weights[i] >= 0.0 && Sum(weights) > 0.0
    ensures Share(weights, i) >= 0.0
  {
    hide Sum;
    var x := weights[i] * |weights| as real;
    assert x >= 0.0;
  }

  /** Slots below `i` hold their shares and are queued. */
  ghost predicate Filling(weights: seq<real>, small: seq<nat>, large: seq<nat>, scaled: seq<real>, i: nat) {
    && Sum(weights) > 0.0 && |scaled| == |weights| && Filled(small, large, scaled, i)
    && forall j :: 0 <= j < i ==> scaled[j] == Share(weights, j)
  }

  lemma FillStart(weights: seq<real>, scaled: seq<real>)
    requires Sum(weights) > 0.0 && |scaled| == |weights|
    ensures Filling(weights, [], [], scaled, 0)
  {
    assert scaled[..0] == [];
  }

  lemma FillingDone(weights: seq<real>, small: seq<nat>, large: seq<nat>, scaled: seq<real>)
    requires Filling(weights, small, large, scaled, |weights|)
    ensures |scaled| == |weights| && Filled(small, large, scaled, |scaled|) && Sum(scaled) == |scaled| as real
    ensures forall j :: 0 <= j < |scaled| ==> scaled[j] == Share(weights, j)
  {
    hide Filled;
    SharesAverageOne(weights, scaled);
  }

  lemma FillingStep(weights: seq<real>, small: seq<nat>, large: seq<nat>, scaled: seq<real>, i: nat)
    requires Filling(weights, small, large, scaled, i) && i < |weights| && weights[i] >= 0.0
    ensures var x := Scaled(weights[i], |weights|, Sum(weights));
            Filling(weights, Pushed(small, i, x < 1.0), Pushed(large, i, !(x < 1.0)), scaled[i := x], i + 1)
  {
    ShareNonNegative(weights, i);
    hide Filled, Sum, Scaled;
    FillStep(small, large, scaled, i, Share(weights, i), Share(weights, i) < 1.0);
  }

  /** The tables stand for the weights: sampling ends on each index exactly in proportion to
      its weight, or uniformly when all weights are zero. */
  ghost predicate Tables(weights: seq<real>, prob: seq<real>, alias: seq<nat>) {
    && |prob| == |alias| == |weights|
    && (forall i :: 0 <= i < |weights| ==> 0.0 <= prob[i] <= 1.0 && alias[i] < |weights|)
    && (Sum(weights) != 0.0 ==> forall i :: 0 <= i < |weights| ==> Chance(prob, alias, i) == Share(weights, i))
    && (Sum(weights) == 0.0 ==> forall i :: 0 <= i < |weights| ==> prob[i] == 1.0)
  }

  /** With the slot drawn uniformly, an index comes up with probability weight / total. */
  lemma InProportion(weights: seq<real>, prob: seq<real>, alias: seq<nat>, i: nat)
    requires Tables(weights, prob, alias) && Sum(weights) > 0.0 && i < |weights|
    ensures Chance(prob, alias, i) / |weights| as real == weights[i] / Sum(weights)
  {
    hide *;
    TablesSay(weights, prob, alias, i);
    ShareIs(weights, i);
    Ratio(Chance(prob, alias, i), weights[i], |weights| as real, Sum(weights));
  }

  lemma TablesSay(weights: seq<real>, prob: seq<real>, alias: seq<nat>, i: nat)
    requires Tables(weights, prob, alias) && Sum(weights) > 0.0 && i < |weights|
    ensures |prob| == |alias| == |weights| && Chance(prob, alias, i) == Share(weights, i)
  {
  }

  lemma Ratio(c: real, w: real, n: real, sum: real)
    requires n > 0.0 && sum > 0.0 && c == w * (n / sum)
    ensures c / n == w / sum
  {
    var q, r := n / sum, w / sum;
    assert q * sum == n && r * sum == w;
    assert w * q == r * (sum * q) == r * n;
    assert r * n / n == r;
  }

  /** The offsets `gen_values` chooses. */
  function ChosenValues(raws: seq<R.raw63>, n: nat): R.Drawn<seq<nat>>
    requires 0 < n < R.TWO63
  {
    var m := R.Permuted(raws, n);
    if m.result.None? then m
    else
      var bound := if n > MAX_VALUES then MAX_VALUES else n;
      var pick := R.FirstAccepted(m.rest, bound, R.RangeFor(bound));
      if pick.result.None? then R.Drawn(None, pick.rest)
      else R.Drawn(Some(m.result.value[..pick.result.value + 1]), pick.rest)
  }

  /** They are the front of the permutation, and how many is one more than what the sampler
      answers next for all there are or 100. */
  lemma ChosenAre(raws: seq<R.raw63>, n: nat)
    requires 0 < n < R.TWO63
    ensures var m, d, bound := R.Permuted(raws, n), ChosenValues(raws, n), Min(n, 100);
            d.result.Some? ==>
              && m.result.Some? && 0 < |d.result.value| <= |m.result.value|
              && d.result.value == m.result.value[..|d.result.value|]
              && R.FirstAccepted(m.rest, bound, R.RangeFor(bound)) == R.Drawn(Some(|d.result.value| - 1), d.rest)
    ensures var m, bound := R.Permuted(raws, n), Min(n, 100);
            ChosenValues(raws, n).result.None?
            <==> m.result.None? || R.FirstAccepted(m.rest, bound, R.RangeFor(bound)).result.None?
  {
    hide R.Permuted, R.FirstAccepted;
    PermutedSize(raws, n);
  }

  lemma PermutedSize(raws: seq<R.raw63>, n: nat)
    requires 0 < n < R.TWO63
    ensures R.Permuted(raws, n).result.Some? ==> |R.Permuted(raws, n).result.value| == n
  {
  }

  lemma ChosenAreDistinct(raws: seq<R.raw63>, n: nat)
    requires 0 < n < R.TWO63
    ensures var r := ChosenValues(raws, n).result;
            r.Some? ==> 0 < |r.value| <= MAX_VALUES && |r.value| <= n
                        && (forall i :: 0 <= i < |r.value| ==> r.value[i] < n)
                        && forall i, j :: 0 <= i < j < |r.value| ==> r.value[i] != r.value[j]
  {
    hide R.FirstAccepted, R.Built;
  }

  /** A non-negative list of weights has a non-negative sum, zero only when all are. */
  lemma {:induction false} SumNonNegative(weights: seq<real>)
    requires forall i :: 0 <= i < |weights| ==> weights[i] >= 0.0
    ensures Sum(weights) >= 0.0
  {
    if weights != [] {
      SumNonNegative(weights[..|weights| - 1]);
    }
  }

  /** Each biased weight is a random part of what the weights before it leave of 1. */
  ghost predicate PartsOfOne(weights: seq<real>, raws: seq<R.raw63>) {
    && |weights| <= |raws|
    && forall i :: 0 <= i < |weights| ==> weights[i] == Part(weights[..i], raws[i])
  }

  function Times(x: real, f: real): real {
    x * f
  }

  function Part(before: seq<real>, raw: R.raw63): real {
    Times(1.0 - Sum(before), R.Fraction(raw))
  }

  /** A part is that fraction of what is left of 1. */
  lemma PartIs(before: seq<real>, raw: R.raw63)
    ensures Part(before, raw) * R.TWO63 as real == (1.0 - Sum(before)) * raw as real
  {
    hide Sum, R.Fraction;
    R.FractionIs(raw);
    Regroup(1.0 - Sum(before), R.Fraction(raw), R.TWO63 as real);
  }

  lemma Regroup(x: real, f: real, c: real)
    ensures x * f * c == x * (f * c)
  {
  }

  lemma NoParts(raws: seq<R.raw63>)
    ensures PartsOfOne([], raws) && Sum([]) == 0.0
  {
  }

  lemma PartBounds(before: seq<real>, raw: R.raw63)
    requires Sum(before) <= 1.0
    ensures 0.0 <= Part(before, raw) <= 1.0 - Sum(before)
  {
    hide R.Fraction, Sum, Times;
    PartOf(1.0 - Sum(before), R.Fraction(raw));
  }

  lemma PartStep(weights: seq<real>, raws: seq<R.raw63>, p: real)
    requires PartsOfOne(weights, raws) && |weights| < |raws| && Sum(weights) <= 1.0
    requires p == Part(weights, raws[|weights|])
    ensures PartsOfOne(weights + [p], raws) && p >= 0.0 && Sum(weights + [p]) == Sum(weights) + p <= 1.0
  {
    hide Part, Sum;
    PartBounds(weights, raws[|weights|]);
    SumAppend(weights, p);
    var longer := weights + [p];
    assert longer[..|weights|] == weights;
    forall i | 0 <= i < |longer| ensures longer[i] == Part(longer[..i], raws[i]) {
      if i < |weights| {
        assert longer[..i] == weights[..i];
      }
    }
  }

  lemma PartOf(x: real, f: real)
    requires x >= 0.0 && 0.0 <= f < 1.0
    ensures 0.0 <= Times(x, f) <= x
  {
    if x > 0.0 && f > 0.0 {
      assert x * f < x * 1.0;
    }
  }

  class WeightedDist {
    const minValue: nat
    const maxValue: nat
    const biased: bool
    var values: seq<nat>
    var weights: seq<real>
    var alias: seq<nat>
    var prob: seq<real>

    /** What `reset` leaves: tables over the offsets that can be sampled. */
    ghost predicate Tabled()
      reads this
    {
      && 0 < |values| == |weights| == |prob| == |alias| <= MAX_VALUES
      && minValue < maxValue && |values| <= maxValue + 1 - minValue
      && (forall i :: 0 <= i < |values| ==> values[i] <= maxValue - minValue)
      && (forall i, j :: 0 <= i < j < |values| ==> values[i] != values[j])
      && (forall i :: 0 <= i < |weights| ==> weights[i] >= 0.0)
      && Tables(weights, prob, alias)
    }

    /** An unfilled distribution; `new` goes on to `Reset`. */
    constructor (min: nat, max: nat, biased: bool)
      requires max > min
      ensures minValue == min && maxValue == max && this.biased == biased
    {
      minValue, maxValue, this.biased := min, max, biased;
      values, weights, alias, prob := [], [], [], [];
    }

    /** Fails only when the source runs dry. */
    method Reset(rng: R.Rand) returns (ok: bool)
      requires minValue < maxValue < R.TWO63 - 1
      modifies this, rng
      ensures var d := ChosenValues(old(rng.source), maxValue + 1 - minValue);
              && ok == (d.result.Some? && |d.rest| >= |d.result.value|)
              && (ok ==> Tabled() && values == d.result.value && rng.source == d.rest[|values|..])
              && (ok && biased ==> Sum(weights) <= 1.0 && PartsOfOne(weights, d.rest))
              && (ok && !biased ==> forall i :: 0 <= i < |weights| ==> weights[i] == R.Fraction(d.rest[i]))
    {
      hide R.Permuted, R.FirstAccepted, ChosenValues, PartsOfOne, Sum, R.Fraction, Tables;
      ok := GenValues(rng);
      if !ok {
        return;
      }
      if biased {
        ok := GenBiasedWeights(rng);
      } else {
        ok := GenUniformWeights(rng);
      }
      if !ok {
        return;
      }
      GenTables();
    }

    /** A random number of the first entries of a random permutation of the offsets. */
    method GenValues(rng: R.Rand) returns (ok: bool)
      requires minValue < maxValue < R.TWO63 - 1
      modifies this`values, rng
      ensures ok == ChosenValues(old(rng.source), maxValue + 1 - minValue).result.Some?
      ensures ok ==> ChosenValues(old(rng.source), maxValue + 1 - minValue) == R.Drawn(Some(values), rng.source)
      ensures ok ==> 0 < |values| <= MAX_VALUES && |values| <= maxValue + 1 - minValue
      ensures ok ==> forall i :: 0 <= i < |values| ==> values[i] <= maxValue - minValue
      ensures ok ==> forall i, j :: 0 <= i < j < |values| ==> values[i] != values[j]
    {
      var nValues := maxValue + 1 - minValue;
      ChosenAreDistinct(rng.source, nValues);
      hide R.Permuted, R.FirstAccepted;
      var drawn, m := rng.Perm(nValues);
      if !drawn {
        return false;
      }
      nValues := if nValues < MIN_VALUES then MIN_VALUES else if nValues > MAX_VALUES then MAX_VALUES else nValues;
      var pick := rng.Intn(nValues);
      if pick.None? {
        return false;
      }
      nValues := pick.value + 1;
      values := m[..nValues];
      ok := true;
    }

    method GenBiasedWeights(rng: R.Rand) returns (ok: bool)
      modifies this`weights, rng
      ensures ok == (|old(rng.source)| >= |values|)
      ensures ok ==> |weights| == |values| && PartsOfOne(weights, old(rng.source))
      ensures ok ==> rng.source == old(rng.source)[|values|..]
      ensures ok ==> Sum(weights) <= 1.0 && forall i :: 0 <= i < |weights| ==> weights[i] >= 0.0
    {
      var culmProb := 0.0;
      ghost var raws: seq<R.raw63> := rng.source;
      var ps: seq<real> := [];
      hide PartsOfOne, Sum, R.Fraction;
      NoParts(raws);
      for i := 0 to |values|
        invariant i <= |raws| && rng.source == raws[i..] && |ps| == i
        invariant culmProb == Sum(ps) <= 1.0 && PartsOfOne(ps, raws)
        invariant forall j :: 0 <= j < i ==> ps[j] >= 0.0
      {
        var f := rng.Float64();
        if f.None? {
          return false;
        }
        var p := (1.0 - culmProb) * f.value;
        assert p == Part(ps, raws[i]);
        PartStep(ps, raws, p);
        culmProb := culmProb + p;
        ps := ps + [p];
      }
      weights := ps;
      ok := true;
    }

    method GenUniformWeights(rng: R.Rand) returns (ok: bool)
      modifies this`weights, rng
      ensures ok == (|old(rng.source)| >= |values|)
      ensures ok ==> |weights| == |values| && forall i :: 0 <= i < |weights| ==>
                0.0 <= weights[i] == R.Fraction(old(rng.source)[i])
      ensures ok ==> rng.source == old(rng.source)[|values|..]
    {
      ghost var raws := rng.source;
      var fs: seq<real> := [];
      for i := 0 to |values|
        invariant i <= |raws| && rng.source == raws[i..] && |fs| == i
        invariant forall j :: 0 <= j < i ==> fs[j] == R.Fraction(raws[j])
      {
        var f := rng.Float64();
        if f.None? {
          return false;
        }
        fs := fs + [f.value];
      }
      weights := fs;
      ok := true;
    }

    static method Total(weights: seq<real>) returns (sum: real)
      ensures sum == Sum(weights)
    {
      sum := 0.0;
      for i := 0 to |weights|
        invariant sum == Sum(weights[..i])
      {
        assert weights[..i + 1][..i] == weights[..i];
        sum := sum + weights[i];
      }
      assert weights[..|weights|] == weights;
    }

    /** Vose's tables: each index ends up with exactly its share of the weight. */
    method GenTables()
      requires weights != []
      requires forall i :: 0 <= i < |weights| ==> weights[i] >= 0.0
      modifies this`alias, this`prob
      ensures |prob| == |alias| == |weights| && Tables(weights, prob, alias)
    {
      var n := |weights|;
      var sum := Total(weights);
      SumNonNegative(weights);
      if sum == 0.0 {
        // Every quotient below is 0/0, which is not a number and so not below 1: the
        // large queue takes every slot.
        alias, prob := Repeated(0, n), Repeated(1.0, n);
        return;
      }
      hide Filling;
      var small, large, scaled := FillQueues(weights, sum);
      FillingDone(weights, small, large, scaled);
      hide Filled, Share, Sum;
      alias, prob := RunQueues(small, large, scaled);
    }

    /** The shares, and the indices queued by whether their share is below 1. */
    static method FillQueues(weights: seq<real>, sum: real)
      returns (small: seq<nat>, large: seq<nat>, scaled: seq<real>)
      requires sum == Sum(weights) > 0.0
      requires forall i :: 0 <= i < |weights| ==> weights[i] >= 0.0
      ensures Filling(weights, small, large, scaled, |weights|)
    {
      var n := |weights|;
      small, large, scaled := [], [], Repeated(0.0, n);
      FillStart(weights, scaled);
      hide Filling, Sum, Scaled;
      for i := 0 to n
        invariant |scaled| == n && Filling(weights, small, large, scaled, i)
      {
        var x := Scaled(weights[i], n, sum);
        FillingStep(weights, small, large, scaled, i);
        scaled := scaled[i := x];
        if x < 1.0 {
          small := small + [i];
        } else {
          large := large + [i];
        }
      }
    }

    /** A value in range whose offset is in the tables. */
    predicate Contains(value: nat)
      reads this
    {
      value >= minValue && value - minValue in values
    }

    /** The offsets in the tables, moved to the range. */
    function Support(): (r: seq<nat>)
      reads this
      ensures |r| == |values| && forall i :: 0 <= i < |r| ==> r[i] == minValue + values[i]
    {
      seq(|values|, i requires 0 <= i < |values| reads this => minValue + values[i])
    }

    lemma ContainsIsSupport(value: nat)
      ensures Contains(value) <==> value in Support()
    {
      if Contains(value) {
        var i :| 0 <= i < |values| && values[i] == value - minValue;
        assert Support()[i] == value;
      }
    }

    /** A sample for the slot `i` and the fraction `u` that were drawn. */
    method Sample(i: nat, u: real) returns (value: nat)
      requires Tabled() && i < |values| && 0.0 <= u < 1.0
      ensures value in Support() && Contains(value) && minValue <= value <= maxValue
      ensures value == minValue + values[if u <= prob[i] then i else alias[i]]
    {
      var idx := if u <= prob[i] then i else alias[i];
      value := minValue + values[idx];
      assert Support()[idx] == value;
    }

    /** The two-queue loop, and the loop over what is left in the large queue. */
    static method RunQueues(small0: seq<nat>, large0: seq<nat>, share: seq<real>)
      returns (alias: seq<nat>, prob: seq<real>)
      requires share != [] && Filled(small0, large0, share, |share|) && Sum(share) == |share| as real
      ensures |prob| == |alias| == |share|
      ensures forall i :: 0 <= i < |share| ==> Chance(prob, alias, i) == share[i]
      ensures forall i :: 0 <= i < |share| ==> 0.0 <= prob[i] <= 1.0 && alias[i] < |share|
    {
      ghost var w0 := Work(small0, large0, share, Repeated(0.0, |share|), Repeated(0, |share|),
                           Unqueued(|share|, |share|));
      StartKeeps(small0, large0, share, w0.prob, w0.alias);
      hide Inv, Filled;
      var small, large, scaled;
      ghost var done;
      small, large, scaled, alias, prob, done := PairQueues(small0, large0, share);
      Leftover(share, Work(small, large, scaled, prob, alias, done));
      prob, done := DrainLarge(large, scaled, share, alias, prob, done);
      // The source's loop over a leftover small queue has nothing to do.
      AllFinished(share, Work([], [], scaled, prob, alias, done));
    }

    /** A slot below 1 is finished with the help of a slot above it, while there are both. */
    static method PairQueues(small0: seq<nat>, large0: seq<nat>, share: seq<real>)
      returns (small: seq<nat>, large: seq<nat>, scaled: seq<real>, alias: seq<nat>, prob: seq<real>,
               ghost done: seq<bool>)
      requires Inv(share, Work(small0, large0, share, Repeated(0.0, |share|), Repeated(0, |share|),
                               Unqueued(|share|, |share|)))
      ensures Inv(share, Work(small, large, scaled, prob, alias, done)) && (small == [] || large == [])
      ensures |alias| == |share| && forall i :: 0 <= i < |share| ==> alias[i] < |share|
    {
      var n := |share|;
      small, large, scaled := small0, large0, share;
      alias, prob := Repeated(0, n), Repeated(0.0, n);
      done := Unqueued(n, n);
      hide Repeated, Inv, Unqueued, Queued, Split, Shares, Probabilities;
      while small != [] && large != []
        invariant Inv(share, Work(small, large, scaled, prob, alias, done))
        invariant |alias| == n && forall i :: 0 <= i < n ==> alias[i] < n
        decreases |small| + |large|
      {
        ghost var w := Work(small, large, scaled, prob, alias, done);
        InBounds(share, w);
        var l, g := small[0], large[0];
        var left := (scaled[g] + scaled[l]) - 1.0;
        TurnKeeps(share, w, l, g, left);
        small, large := small[1..], large[1..];
        prob := prob[l := scaled[l]];
        alias := alias[l := g];
        scaled := scaled[g := left];
        if left < 1.0 {
          small := small + [g];
        } else {
          large := large + [g];
        }
        done := done[l := true];
      }
    }

    /** What is left above 1 keeps everything. */
    static method DrainLarge(large0: seq<nat>, ghost scaled: seq<real>, ghost share: seq<real>, ghost alias: seq<nat>,
                             prob0: seq<real>, ghost done0: seq<bool>)
      returns (prob: seq<real>, ghost done: seq<bool>)
      requires Inv(share, Work([], large0, scaled, prob0, alias, done0))
      requires |alias| == |share| && forall i :: 0 <= i < |share| ==> alias[i] < |share|
      ensures Inv(share, Work([], [], scaled, prob, alias, done))
      ensures |prob| == |prob0| && forall i: nat :: i < |prob| ==> prob[i] == if i in large0 then 1.0 else prob0[i]
    {
      var large := large0;
      prob, done := prob0, done0;
      hide Inv;
      while large != []
        invariant Inv(share, Work([], large, scaled, prob, alias, done))
        invariant |prob| == |prob0| && |large| <= |large0| && large == large0[|large0| - |large|..]
        invariant forall i: nat :: i < |prob| ==>
                    prob[i] == if i in large0[..|large0| - |large|] then 1.0 else prob0[i]
        decreases |large|
      {
        ghost var w := Work([], large, scaled, prob, alias, done);
        InBounds(share, w);
        Leftover(share, w);
        FinishKeeps(share, w);
        var g := large[0];
        assert large0[..|large0| - |large| + 1] == large0[..|large0| - |large|] + [g];
        large := large[1..];
        prob := prob[g := 1.0];
        done := done[g := true];
        assert Work([], large, scaled, prob, alias, done) == Finish(w);
      }
    }

    static lemma InBounds(share: seq<real>, w: Work)
      requires Inv(share, w)
      ensures |w.scaled| == |w.prob| == |w.alias| == |w.done| == |share|
      ensures forall k :: 0 <= k < |w.small| ==> w.small[k] < |share|
      ensures forall k :: 0 <= k < |w.large| ==> w.large[k] < |share|
    {
    }

    static lemma AllFinished(share: seq<real>, w: Work)
      requires Inv(share, w) && w.small == [] && w.large == []
      ensures |w.prob| == |w.alias| == |share|
      ensures forall i :: 0 <= i < |share| ==> Chance(w.prob, w.alias, i) == share[i] && 0.0 <= w.prob[i] <= 1.0
    {
      assert w.done == AllDone(|share|);
    }
  }
}
