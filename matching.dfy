/** The limit-matching sweep on numbers alone: given the remaining volumes of
    the candidates in visiting order and the incoming order's remaining volume,
    the volume filled against each candidate. */
module Matching {
  import opened Orders

  function Min(a: int, b: int): int
  {
    if a <= b then a else b
  }

  function Sum(s: seq<int>): int
  {
    if s == [] then 0 else s[0] + Sum(s[1..])
  }

  function Zeros(n: nat): (z: seq<int>)
    ensures |z| == n && forall i :: 0 <= i < n ==> z[i] == 0
  {
    if n == 0 then [] else [0] + Zeros(n - 1)
  }

  /** The positive part of `v`: a fill happens only for a positive volume. */
  function Clip(v: int): int
  {
    if v > 0 then v else 0
  }

  /** The sweep as the loop runs it: against each candidate in turn fill
      min(candidate remaining, incoming remaining) when that is positive, and
      stop visiting as soon as the incoming order has no volume left (the
      candidates not visited get fill 0). */
  function Sweep(rems: seq<int>, r: int): (f: seq<int>)
    ensures |f| == |rems|
  {
    if rems == [] then []
    else
      var fill := Clip(Min(rems[0], r));
      [fill] + (if r - fill > 0 then Sweep(rems[1..], r - fill) else Zeros(|rems| - 1))
  }

  lemma {:induction false} SumConcat(a: seq<int>, b: seq<int>)
    ensures Sum(a + b) == Sum(a) + Sum(b)
  {
    if a == [] {
      assert a + b == b;
    } else {
      assert (a + b)[1..] == a[1..] + b;
      SumConcat(a[1..], b);
    }
  }

  lemma {:induction false} SumZeros(n: nat)
    ensures Sum(Zeros(n)) == 0
  {
    if n > 0 {
      SumZeros(n - 1);
    }
  }

  /** Every fill is non-negative, never exceeds what the candidate had left,
      and together they never exceed what the incoming order had left. */
  lemma {:induction false} SweepBounds(rems: seq<int>, r: int)
    requires r >= 0
    requires forall i :: 0 <= i < |rems| ==> rems[i] >= 0
    ensures forall i :: 0 <= i < |rems| ==> 0 <= Sweep(rems, r)[i] <= rems[i]
    ensures Sum(Sweep(rems, r)) <= r
  {
    if rems != [] {
      var fill := Clip(Min(rems[0], r));
      var f := Sweep(rems, r);
      if r - fill > 0 {
        SweepBounds(rems[1..], r - fill);
        assert forall i :: 1 <= i < |rems| ==> f[i] == Sweep(rems[1..], r - fill)[i - 1];
      } else {
        SumZeros(|rems| - 1);
      }
      assert f[1..] == if r - fill > 0 then Sweep(rems[1..], r - fill) else Zeros(|rems| - 1);
    }
  }

  /** The early stop changes nothing observable: every fill is the greedy
      min(candidate remaining, what the incoming order still has after the
      earlier fills), clipped at zero, exactly as an unbroken sweep would give. */
  lemma {:induction false} SweepGreedy(rems: seq<int>, r: int, i: nat)
    requires i < |rems|
    ensures Sweep(rems, r)[i] == Clip(Min(rems[i], r - Sum(Sweep(rems, r)[..i])))
  {
    var f := Sweep(rems, r);
    var fill := Clip(Min(rems[0], r));
    if i > 0 {
      assert f[..i] == [fill] + f[1..][..i - 1];
      SumConcat([fill], f[1..][..i - 1]);
      assert Sum([fill]) == fill;
      if r - fill > 0 {
        assert f[1..] == Sweep(rems[1..], r - fill);
        SweepGreedy(rems[1..], r - fill, i - 1);
      } else {
        assert f[1..] == Zeros(|rems| - 1);
        assert f[1..][..i - 1] == Zeros(i - 1);
        SumZeros(i - 1);
      }
    }
  }

  /** Fills given one by one by the greedy rule: each is min(candidate
      remaining, what is left of `r` after the earlier fills), clipped at zero. */
  predicate Greedy(rems: seq<int>, r: int, f: seq<int>)
  {
    && |f| == |rems|
    && forall i :: 0 <= i < |f| ==> f[i] == Clip(Min(rems[i], r - Sum(f[..i])))
  }

  lemma SweepIsGreedy(rems: seq<int>, r: int)
    ensures Greedy(rems, r, Sweep(rems, r))
  {
    forall i | 0 <= i < |rems| ensures Sweep(rems, r)[i] == Clip(Min(rems[i], r - Sum(Sweep(rems, r)[..i]))) {
      SweepGreedy(rems, r, i);
    }
  }

  /** The greedy rule fixes the fills: the sweep is the only sequence obeying it. */
  lemma GreedyUnique(rems: seq<int>, r: int, f: seq<int>, g: seq<int>)
    requires Greedy(rems, r, f) && Greedy(rems, r, g)
    ensures f == g
  {
    GreedyPrefix(rems, r, f, g, |f|);
    assert f == f[..|f|] && g == g[..|g|];
  }

  lemma {:induction false} GreedyPrefix(rems: seq<int>, r: int, f: seq<int>, g: seq<int>, n: nat)
    requires Greedy(rems, r, f) && Greedy(rems, r, g) && n <= |f|
    ensures f[..n] == g[..n]
  {
    if n > 0 {
      GreedyPrefix(rems, r, f, g, n - 1);
      assert f[..n] == f[..n - 1] + [f[n - 1]];
      assert g[..n] == g[..n - 1] + [g[n - 1]];
    }
  }

  lemma GreedySweep(rems: seq<int>, r: int, f: seq<int>)
    requires Greedy(rems, r, f)
    ensures f == Sweep(rems, r)
  {
    SweepIsGreedy(rems, r);
    GreedyUnique(rems, r, f, Sweep(rems, r));
  }

  /** Once the greedy fills have used up `r`, every later fill is zero. */
  lemma GreedyStops(rems: seq<int>, r: int, f: seq<int>, k: nat, j: nat)
    requires Greedy(rems, r, f)
    requires k <= j < |f|
    requires r - Sum(f[..k]) <= 0
    ensures f[j] == 0
  {
    assert f[..j] == f[..k] + f[k..j];
    SumConcat(f[..k], f[k..j]);
    SumNonNegative(f[k..j]);
  }

  /** Once the incoming order is exhausted, no later candidate receives a fill. */
  lemma SweepStopsWhenFilled(rems: seq<int>, r: int, k: nat, j: nat)
    requires k <= j < |rems|
    requires r - Sum(Sweep(rems, r)[..k]) <= 0
    ensures Sweep(rems, r)[j] == 0
  {
    SweepIsGreedy(rems, r);
    GreedyStops(rems, r, Sweep(rems, r), k, j);
  }

  lemma {:induction false} SumNonNegative(s: seq<int>)
    requires forall i :: 0 <= i < |s| ==> s[i] >= 0
    ensures Sum(s) >= 0
  {
    if s != [] {
      SumNonNegative(s[1..]);
    }
  }

  /** Price/time priority in the fills: a candidate receives volume only when
      every candidate visited before it was filled completely. */
  lemma SweepFillsInOrder(rems: seq<int>, r: int, i: nat, j: nat)
    requires i < j < |rems|
    requires forall k :: 0 <= k < |rems| ==> rems[k] > 0
    requires Sweep(rems, r)[j] > 0
    ensures Sweep(rems, r)[i] == rems[i]
  {
    var f := Sweep(rems, r);
    SweepGreedy(rems, r, i);
    if f[i] != rems[i] {
      // the incoming order ran out at candidate i
      assert f[..i + 1] == f[..i] + [f[i]];
      SumConcat(f[..i], [f[i]]);
      assert Sum([f[i]]) == f[i];
      SweepStopsWhenFilled(rems, r, i + 1, j);
    }
  }

  /** When each candidate's new remaining volume is its old one minus its
      fill, the total taken from the candidates is the total of the fills. */
  lemma {:induction false} SumDrop(before: seq<int>, after: seq<int>, f: seq<int>)
    requires |before| == |after| == |f|
    requires forall i :: 0 <= i < |f| ==> after[i] == before[i] - f[i]
    ensures Sum(before) - Sum(after) == Sum(f)
  {
    if f != [] {
      SumDrop(before[1..], after[1..], f[1..]);
    }
  }

  lemma SumSnoc(f: seq<int>, i: nat)
    requires i < |f|
    ensures Sum(f[..i + 1]) == Sum(f[..i]) + f[i]
  {
    assert f[..i + 1] == f[..i] + [f[i]];
    SumConcat(f[..i], [f[i]]);
  }

  /** An order's executions after a fill of `v` at price `p`: one more
      execution when `v` is positive, none otherwise. */
  function AfterFill(es: seq<Execution>, v: int, p: int): seq<Execution>
  {
    if v > 0 then es + [Execution(v, p)] else es
  }

  /** The incoming order's executions after the sweep: starting from `es`,
      one execution per positive fill, in visiting order, each at the price of
      the candidate it was filled against. */
  function Recorded(es: seq<Execution>, f: seq<int>, prices: seq<int>): seq<Execution>
    requires |f| == |prices|
  {
    if f == [] then es
    else AfterFill(Recorded(es, f[..|f| - 1], prices[..|f| - 1]), f[|f| - 1], prices[|f| - 1])
  }

  /** The incoming order's executed volume grows by exactly the swept volume. */
  lemma {:induction false} RecordedVolume(es: seq<Execution>, f: seq<int>, prices: seq<int>)
    requires |f| == |prices|
    requires forall i :: 0 <= i < |f| ==> f[i] >= 0
    ensures ExecutedVolume(Recorded(es, f, prices)) == ExecutedVolume(es) + Sum(f)
  {
    if f != [] {
      var n := |f| - 1;
      RecordedVolume(es, f[..n], prices[..n]);
      var t := Recorded(es, f[..n], prices[..n]);
      if f[n] > 0 {
        ExecutedVolumeAppend(t, Execution(f[n], prices[n]));
      }
      assert f == f[..n] + [f[n]];
      SumConcat(f[..n], [f[n]]);
      assert Sum([f[n]]) == f[n];
    }
  }

  /** Every execution recorded by the sweep is at a price of one of the candidates. */
  lemma {:induction false} RecordedPrices(es: seq<Execution>, f: seq<int>, prices: seq<int>, e: Execution)
    requires |f| == |prices|
    requires e in Recorded(es, f, prices)
    ensures e in es || (e.volume > 0 && e.price in prices)
  {
    if f != [] {
      var n := |f| - 1;
      var t := Recorded(es, f[..n], prices[..n]);
      if e in t {
        RecordedPrices(es, f[..n], prices[..n], e);
        assert prices[..n] <= prices;
      }
    }
  }

  lemma RecordedSnoc(es: seq<Execution>, f: seq<int>, prices: seq<int>, i: nat)
    requires |f| == |prices| && i < |f|
    ensures Recorded(es, f[..i + 1], prices[..i + 1]) == AfterFill(Recorded(es, f[..i], prices[..i]), f[i], prices[i])
  {
    assert f[..i + 1][..i] == f[..i] && prices[..i + 1][..i] == prices[..i];
  }

  /** Zero fills at the end record nothing and add nothing to the total. */
  lemma {:induction false} RecordedZeroTail(es: seq<Execution>, f: seq<int>, prices: seq<int>, k: nat)
    requires |f| == |prices| && k <= |f|
    requires forall j :: k <= j < |f| ==> f[j] == 0
    ensures Recorded(es, f, prices) == Recorded(es, f[..k], prices[..k])
    ensures Sum(f) == Sum(f[..k])
  {
    if |f| > k {
      var n := |f| - 1;
      RecordedZeroTail(es, f[..n], prices[..n], k);
      assert f[..n][..k] == f[..k] && prices[..n][..k] == prices[..k];
      assert f == f[..n] + [0];
      SumConcat(f[..n], [0]);
    } else {
      assert f[..k] == f && prices[..k] == prices;
    }
  }
}
