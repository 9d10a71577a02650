/** The single-instrument limit order book: two resting sides, validation,
    the greedy price/time-priority sweep of an incoming limit order, and
    cancellation. */
module Books {
  import opened Orders
  import opened Lists
  import opened Matching
  import opened Priority

  /** How `Add` ends: accepted, or one of the failures the source throws. */
  datatype Outcome = Ok | InvalidInstrument | InsufficientBalance | NotImplemented

  /** What the execution step did: ran the limit sweep (and whether the order
      now has executions), or hit the unimplemented market path. */
  datatype Attempt = Executed(any: bool) | Unsupported

  function Opposite(t: TradeType): TradeType
  {
    if t == Buy then Sell else Buy
  }

  /** The remaining volumes of `s`, position by position. */
  function Remainings(s: seq<Order>): (r: seq<int>)
    reads s
    ensures |r| == |s| && forall i {:trigger r[i]} :: 0 <= i < |s| ==> r[i] == s[i].remainingVolume
  {
    seq(|s|, i requires 0 <= i < |s| reads s => s[i].remainingVolume)
  }

  /** The prices of `s`, position by position. */
  function Prices(s: seq<Order>): (r: seq<int>)
    ensures |r| == |s| && forall i {:trigger r[i]} :: 0 <= i < |s| ==> r[i] == s[i].price
  {
    seq(|s|, i requires 0 <= i < |s| => s[i].price)
  }

  /** The executions of `s`, position by position. */
  function ExecutionLists(s: seq<Order>): (r: seq<seq<Execution>>)
    reads s
    ensures |r| == |s| && forall i {:trigger r[i]} :: 0 <= i < |s| ==> r[i] == s[i].executions
  {
    seq(|s|, i requires 0 <= i < |s| reads s => s[i].executions)
  }

  /** The statuses of `s`, position by position. */
  function Statuses(s: seq<Order>): (r: seq<OrderStatus>)
    reads s
    ensures |r| == |s| && forall i {:trigger r[i]} :: 0 <= i < |s| ==> r[i] == s[i].status
  {
    seq(|s|, i requires 0 <= i < |s| reads s => s[i].status)
  }

  /** `Where(x => x.HasRemainingVolume)`. */
  function Unfilled(s: seq<Order>): seq<Order>
    reads s
  {
    if s == [] then [] else (if s[0].HasRemainingVolume() then [s[0]] else []) + Unfilled(s[1..])
  }

  lemma {:induction false} UnfilledMember(s: seq<Order>, x: Order)
    ensures x in Unfilled(s) <==> x in s && x.HasRemainingVolume()
  {
    if s != [] {
      UnfilledMember(s[1..], x);
      assert s == [s[0]] + s[1..];
    }
  }

  /** `Where(x => !x.HasRemainingVolume)`. */
  function Exhausted(s: seq<Order>): seq<Order>
    reads s
  {
    if s == [] then [] else (if !s[0].HasRemainingVolume() then [s[0]] else []) + Exhausted(s[1..])
  }

  lemma {:induction false} ExhaustedMember(s: seq<Order>, x: Order)
    ensures x in Exhausted(s) <==> x in s && !x.HasRemainingVolume()
  {
    if s != [] {
      ExhaustedMember(s[1..], x);
      assert s == [s[0]] + s[1..];
    }
  }

  /** Removing the exhausted orders of `s` from any part `t` of it leaves the unfilled orders of `t`. */
  lemma {:induction false} WithoutExhausted(t: seq<Order>, s: seq<Order>)
    requires forall i :: 0 <= i < |t| ==> t[i] in s
    ensures Without(t, Exhausted(s)) == Unfilled(t)
  {
    if t != [] {
      WithoutExhausted(t[1..], s);
      ExhaustedMember(s, t[0]);
    }
  }

  /** One `Remove` of the purge loop on a side without duplicates. */
  lemma PurgeStep(side: seq<Order>, done: seq<Order>, i: nat)
    requires Distinct(side) && i < |done|
    ensures RemoveFirst(Without(side, done[..i]), done[i]) == Without(side, done[..i + 1])
  {
    WithoutDistinct(side, done[..i]);
    RemoveFirstDistinct(Without(side, done[..i]), done[i]);
    WithoutWithout(side, done[..i], done[i]);
    assert done[..i + 1] == done[..i] + [done[i]];
  }

  /** Once every exhausted order is removed, the unfilled ones remain. */
  lemma PurgeDone(side: seq<Order>, done: seq<Order>)
    requires done == Exhausted(side)
    ensures Without(side, done[..|done|]) == Unfilled(side)
  {
    assert done[..|done|] == done;
    WithoutExhausted(side, side);
  }

  lemma {:induction false} UnfilledDistinct(s: seq<Order>)
    requires Distinct(s)
    ensures Distinct(Unfilled(s))
  {
    if s != [] {
      DistinctTail(s);
      UnfilledDistinct(s[1..]);
      UnfilledMember(s[1..], s[0]);
      if s[0].HasRemainingVolume() {
        DistinctCons(s[0], Unfilled(s[1..]));
      } else {
        assert Unfilled(s) == Unfilled(s[1..]);
      }
    }
  }

  /** Each candidate's snapshot (remaining volume `rems[j]`, executions
      `exs[j]`) satisfies the order invariant. */
  predicate Consistent(cs: seq<Order>, rems: seq<int>, exs: seq<seq<Execution>>)
  {
    && |rems| == |cs| && |exs| == |cs|
    && forall j :: 0 <= j < |cs| ==> 0 <= rems[j] && ExecutedVolume(exs[j]) + rems[j] == cs[j].volume
  }

  /** Every order of `s` satisfies the order invariant. */
  ghost predicate AllValid(s: seq<Order>)
    reads s
  {
    forall c :: c in s ==> c.Valid()
  }

  /** The candidates are pairwise distinct (each sits at its first
      occurrence) and none of them is the incoming order. */
  predicate Apart(cs: seq<Order>, o: Order)
  {
    forall j :: 0 <= j < |cs| ==> IndexOf(cs, cs[j]) == j && cs[j] != o
  }

  /** Neither candidate `i` nor the incoming order is any other candidate. */
  predicate Aside(cs: seq<Order>, o: Order, i: nat)
  {
    i < |cs| && cs[i] != o && forall j :: 0 <= j < |cs| && j != i ==> cs[j] != cs[i] && cs[j] != o
  }

  lemma ApartAside(cs: seq<Order>, o: Order, i: nat)
    requires Apart(cs, o) && i < |cs|
    ensures Aside(cs, o, i)
  {
    forall j | 0 <= j < |cs| && j != i ensures cs[j] != cs[i] {
      assert IndexOf(cs, cs[j]) == j && IndexOf(cs, cs[i]) == i;
    }
  }

  /** What the sweep needs of its candidates: distinct, not the incoming
      order, and each consistent. */
  ghost predicate Sweepable(cs: seq<Order>, o: Order)
    reads cs
  {
    Apart(cs, o) && forall j :: 0 <= j < |cs| ==> cs[j].Valid()
  }

  /** The fills `f` of the first `k` candidates, zero for the others. */
  function Upto(f: seq<int>, k: nat): (g: seq<int>)
    requires k <= |f|
    ensures |g| == |f| && forall j {:trigger g[j]} :: 0 <= j < |f| ==> g[j] == if j < k then f[j] else 0
  {
    seq(|f|, j requires 0 <= j < |f| => if j < k then f[j] else 0)
  }

  /** The remaining volumes `rems` less the fills `g`, position by position. */
  function Deducted(rems: seq<int>, g: seq<int>): (r: seq<int>)
    requires |g| == |rems|
    ensures |r| == |rems| && forall j {:trigger r[j]} :: 0 <= j < |rems| ==> r[j] == rems[j] - g[j]
  {
    seq(|rems|, j requires 0 <= j < |rems| => rems[j] - g[j])
  }

  /** The execution lists `exs` after the fills `g`, each at the price of
      the order it was recorded on. */
  function Booked(exs: seq<seq<Execution>>, g: seq<int>, prices: seq<int>): (r: seq<seq<Execution>>)
    requires |g| == |exs| && |prices| == |exs|
    ensures |r| == |exs| && forall j {:trigger r[j]} :: 0 <= j < |exs| ==> r[j] == AfterFill(exs[j], g[j], prices[j])
  {
    seq(|exs|, j requires 0 <= j < |exs| => AfterFill(exs[j], g[j], prices[j]))
  }

  /** The state reached from the state before the sweep (the candidates'
      remaining volumes `rems`, executions `exs` and statuses `sts`; the
      incoming order's remaining volume `r0` and executions `e0`) by the
      fills `g`: each candidate lost its fill and recorded it at its own
      price, no status changed, and the incoming order lost the total and
      recorded each positive fill at the price of the candidate it was
      filled against, in visiting order. */
  ghost predicate Filled(cs: seq<Order>, o: Order, rems: seq<int>, exs: seq<seq<Execution>>,
                         sts: seq<OrderStatus>, r0: int, e0: seq<Execution>, g: seq<int>)
    reads cs, o
  {
    && |rems| == |cs| && |exs| == |cs| && |g| == |cs|
    && Remainings(cs) == Deducted(rems, g)
    && ExecutionLists(cs) == Booked(exs, g, Prices(cs))
    && Statuses(cs) == sts
    && o.remainingVolume == r0 - Sum(g)
    && o.executions == Recorded(e0, g, Prices(cs))
  }

  /** The effect of the whole limit sweep of incoming order `o` over the
      candidates `cs`: the fills are those of `Sweep` on the remaining
      volumes before it, and the incoming order's status is unchanged. */
  twostate predicate Swept(cs: seq<Order>, o: Order)
    reads cs, o
  {
    && Filled(cs, o, old(Remainings(cs)), old(ExecutionLists(cs)), old(Statuses(cs)),
              old(o.remainingVolume), old(o.executions),
              Sweep(old(Remainings(cs)), old(o.remainingVolume)))
    && o.status == old(o.status)
  }

  /** The sweep together with its consequences: every order involved still
      satisfies the order invariant, the volume the candidates lost is the
      volume the incoming order lost, and that is the volume it gained in
      executions. */
  twostate predicate Conserved(cs: seq<Order>, o: Order)
    reads cs, o
  {
    && Swept(cs, o)
    && o.Valid() && AllValid(cs)
    && Sum(old(Remainings(cs))) - Sum(Remainings(cs)) == old(o.remainingVolume) - o.remainingVolume
    && ExecutedVolume(o.executions) - old(ExecutedVolume(o.executions))
       == Sum(old(Remainings(cs))) - Sum(Remainings(cs))
  }

  lemma DeductedNothing(rems: seq<int>, g: seq<int>)
    requires |g| == |rems| && forall j :: 0 <= j < |g| ==> g[j] == 0
    ensures Deducted(rems, g) == rems
  {
    var d := Deducted(rems, g);
    forall j | 0 <= j < |rems| ensures d[j] == rems[j] {
    }
  }

  lemma BookedNothing(exs: seq<seq<Execution>>, g: seq<int>, prices: seq<int>)
    requires |g| == |exs| && |prices| == |exs| && forall j :: 0 <= j < |g| ==> g[j] == 0
    ensures Booked(exs, g, prices) == exs
  {
    var b := Booked(exs, g, prices);
    forall j | 0 <= j < |exs| ensures b[j] == exs[j] {
    }
  }

  /** No fill yet: the state before the sweep. */
  lemma FilledNone(cs: seq<Order>, o: Order, f: seq<int>)
    requires |f| == |cs|
    ensures Filled(cs, o, Remainings(cs), ExecutionLists(cs), Statuses(cs),
                   o.remainingVolume, o.executions, Upto(f, 0))
  {
    var g := Upto(f, 0);
    DeductedNothing(Remainings(cs), g);
    BookedNothing(ExecutionLists(cs), g, Prices(cs));
    RecordedZeroTail(o.executions, g, Prices(cs), 0);
  }

  lemma DeductedUpdate(rems: seq<int>, g: seq<int>, i: nat, x: int)
    requires |g| == |rems| && i < |rems|
    ensures Deducted(rems, g[i := x]) == Deducted(rems, g)[i := rems[i] - x]
  {
    var a, b := Deducted(rems, g[i := x]), Deducted(rems, g)[i := rems[i] - x];
    forall j | 0 <= j < |rems| ensures a[j] == b[j] {
    }
  }

  lemma BookedUpdate(exs: seq<seq<Execution>>, g: seq<int>, prices: seq<int>, i: nat, x: int)
    requires |g| == |exs| && |prices| == |exs| && i < |exs|
    ensures Booked(exs, g[i := x], prices) == Booked(exs, g, prices)[i := AfterFill(exs[i], x, prices[i])]
  {
    var a, b := Booked(exs, g[i := x], prices), Booked(exs, g, prices)[i := AfterFill(exs[i], x, prices[i])];
    forall j | 0 <= j < |exs| ensures a[j] == b[j] {
    }
  }

  lemma UptoSnoc(f: seq<int>, i: nat)
    requires i < |f|
    ensures Upto(f, i + 1) == Upto(f, i)[i := f[i]]
  {
    var a, b := Upto(f, i + 1), Upto(f, i)[i := f[i]];
    forall j | 0 <= j < |f| ensures a[j] == b[j] {
    }
  }

  /** The fills so far total and record what the first `i` fills do. */
  lemma UptoTotals(e0: seq<Execution>, f: seq<int>, prices: seq<int>, i: nat)
    requires i <= |f| == |prices|
    ensures Sum(Upto(f, i)) == Sum(f[..i])
    ensures Recorded(e0, Upto(f, i), prices) == Recorded(e0, f[..i], prices[..i])
  {
    RecordedZeroTail(e0, Upto(f, i), prices, i);
    assert Upto(f, i)[..i] == f[..i];
  }

  /** Visiting candidate `i` adds its fill `f[i]` to the fills so far. */
  lemma UptoStep(rems: seq<int>, exs: seq<seq<Execution>>, e0: seq<Execution>,
                 f: seq<int>, prices: seq<int>, i: nat)
    requires i < |f| == |rems| == |exs| == |prices|
    ensures Deducted(rems, Upto(f, i + 1)) == Deducted(rems, Upto(f, i))[i := rems[i] - f[i]]
    ensures Booked(exs, Upto(f, i + 1), prices) == Booked(exs, Upto(f, i), prices)[i := AfterFill(exs[i], f[i], prices[i])]
    ensures Sum(Upto(f, i + 1)) == Sum(Upto(f, i)) + f[i]
    ensures Recorded(e0, Upto(f, i + 1), prices) == AfterFill(Recorded(e0, Upto(f, i), prices), f[i], prices[i])
  {
    UptoSnoc(f, i);
    DeductedUpdate(rems, Upto(f, i), i, f[i]);
    BookedUpdate(exs, Upto(f, i), prices, i, f[i]);
    UptoTotals(e0, f, prices, i);
    UptoTotals(e0, f, prices, i + 1);
    SumSnoc(f, i);
    RecordedSnoc(e0, f, prices, i);
  }

  /** Once the fills still to come are all zero, the fills so far are all of them. */
  lemma UptoRest(f: seq<int>, k: nat)
    requires k <= |f|
    requires forall j :: k <= j < |f| ==> f[j] == 0
    ensures Upto(f, k) == f
  {
  }

  /** After the whole sweep every candidate still satisfies the order
      invariant, since no fill exceeds what the candidate had left, and the
      volume the candidates lost is the volume the incoming order lost. */
  lemma FilledValid(cs: seq<Order>, o: Order, rems: seq<int>, exs: seq<seq<Execution>>,
                    sts: seq<OrderStatus>, r0: int, e0: seq<Execution>)
    requires Consistent(cs, rems, exs) && r0 >= 0
    requires Filled(cs, o, rems, exs, sts, r0, e0, Sweep(rems, r0))
    ensures AllValid(cs)
    ensures Sum(rems) - Sum(Remainings(cs)) == r0 - o.remainingVolume
  {
    var f := Sweep(rems, r0);
    SweepBounds(rems, r0);
    forall j | 0 <= j < |cs| ensures cs[j].Valid() {
      assert cs[j].remainingVolume == Remainings(cs)[j];
      assert cs[j].executions == ExecutionLists(cs)[j];
      if f[j] > 0 {
        ExecutedVolumeAppend(exs[j], Execution(f[j], cs[j].price));
      }
    }
    SumDrop(rems, Remainings(cs), f);
  }

  /** Records a fill of `v` units on both the resting order `maker` and the
      incoming order `taker`, at the resting order's price. */
  method Trade(maker: Order, taker: Order, v: int)
    requires maker != taker && maker.Valid() && taker.Valid()
    requires 0 < v <= maker.remainingVolume && v <= taker.remainingVolume
    modifies maker, taker
    ensures maker.Valid() && taker.Valid()
    ensures maker.remainingVolume == old(maker.remainingVolume) - v
    ensures maker.executions == old(maker.executions) + [Execution(v, maker.price)]
    ensures maker.status == old(maker.status)
    ensures taker.remainingVolume == old(taker.remainingVolume) - v
    ensures taker.executions == old(taker.executions) + [Execution(v, maker.price)]
    ensures taker.status == old(taker.status)
  {
    maker.Execute(v, maker.price);
    taker.Execute(v, maker.price);
  }

  /** Fills `v` units, when that is positive, between candidate `i` and the
      incoming order `o`; no other candidate changes. */
  method Fill(cs: seq<Order>, o: Order, i: nat, v: int)
    requires i < |cs| && Aside(cs, o, i) && cs[i].Valid() && o.Valid()
    requires v <= cs[i].remainingVolume && v <= o.remainingVolume
    modifies cs[i], o
    ensures Remainings(cs) == old(Remainings(cs))[i := old(cs[i].remainingVolume) - Clip(v)]
    ensures ExecutionLists(cs) == old(ExecutionLists(cs))[i := AfterFill(old(cs[i].executions), v, cs[i].price)]
    ensures Statuses(cs) == old(Statuses(cs))
    ensures o.remainingVolume == old(o.remainingVolume) - Clip(v)
    ensures o.executions == AfterFill(old(o.executions), v, cs[i].price)
    ensures o.Valid() && o.status == old(o.status)
  {
    if v > 0 {
      Trade(cs[i], o, v);
    }
  }

  /** The arithmetic of one pass: from the state after `i` fills (`rs`,
      `es`, `ro`, `eo`), filling min(candidate remaining, incoming
      remaining), clipped at zero, is the `i`-th fill of the sweep and gives
      the state after `i + 1` fills. */
  lemma SweepAdvance(rems: seq<int>, exs: seq<seq<Execution>>, r0: int, e0: seq<Execution>,
                     prices: seq<int>, i: nat, rs: seq<int>, es: seq<seq<Execution>>, ro: int, eo: seq<Execution>)
    requires i < |rems| == |exs| == |prices|
    requires rs == Deducted(rems, Upto(Sweep(rems, r0), i))
    requires es == Booked(exs, Upto(Sweep(rems, r0), i), prices)
    requires ro == r0 - Sum(Upto(Sweep(rems, r0), i))
    requires eo == Recorded(e0, Upto(Sweep(rems, r0), i), prices)
    ensures rs[i] == rems[i] && es[i] == exs[i]
    ensures var v := Clip(Min(rs[i], ro));
      && v == Sweep(rems, r0)[i]
      && rs[i := rs[i] - v] == Deducted(rems, Upto(Sweep(rems, r0), i + 1))
      && es[i := AfterFill(es[i], v, prices[i])] == Booked(exs, Upto(Sweep(rems, r0), i + 1), prices)
      && ro - v == r0 - Sum(Upto(Sweep(rems, r0), i + 1))
      && AfterFill(eo, v, prices[i]) == Recorded(e0, Upto(Sweep(rems, r0), i + 1), prices)
  {
    var f := Sweep(rems, r0);
    SweepGreedy(rems, r0, i);
    UptoStep(rems, exs, e0, f, prices, i);
    UptoTotals(e0, f, prices, i);
  }

  /** One pass of the sweep's loop body: against candidate `i`, fill
      min(candidate remaining, incoming remaining) when that is positive. */
  method SweepStep(cs: seq<Order>, o: Order, i: nat, ghost rems: seq<int>, ghost exs: seq<seq<Execution>>,
                   ghost sts: seq<OrderStatus>, ghost r0: int, ghost e0: seq<Execution>)
    requires i < |cs| && Apart(cs, o) && Consistent(cs, rems, exs) && o.Valid()
    requires Filled(cs, o, rems, exs, sts, r0, e0, Upto(Sweep(rems, r0), i))
    modifies cs[i], o
    ensures Filled(cs, o, rems, exs, sts, r0, e0, Upto(Sweep(rems, r0), i + 1))
    ensures o.Valid() && o.status == old(o.status)
  {
    ghost var rs, es, ro, eo := Remainings(cs), ExecutionLists(cs), o.remainingVolume, o.executions;
    ghost var prices := Prices(cs);
    SweepAdvance(rems, exs, r0, e0, prices, i, rs, es, ro, eo);
    ApartAside(cs, o, i);
    var c := cs[i];
    assert c.remainingVolume == rs[i] && c.executions == es[i] && c.price == prices[i];
    var v := Min(c.remainingVolume, o.remainingVolume);
    Fill(cs, o, i, v);
    assert Remainings(cs) == rs[i := rs[i] - Clip(v)];
    assert ExecutionLists(cs) == es[i := AfterFill(es[i], v, prices[i])];
    assert Prices(cs) == prices;
  }

  /** The loop of the limit sweep: visits the candidates `cs` in order,
      filling against each, and stops once the incoming order is filled. */
  method Match(cs: seq<Order>, order: Order) returns (executed: bool)
    requires order.Valid() && Sweepable(cs, order)
    modifies order, cs
    ensures Swept(cs, order)
    ensures order.Valid() && AllValid(cs)
    ensures Sum(old(Remainings(cs))) - Sum(Remainings(cs)) == old(order.remainingVolume) - order.remainingVolume
    ensures executed == order.HasExecutions()
  {
    ghost var rems, exs, sts := Remainings(cs), ExecutionLists(cs), Statuses(cs);
    ghost var r0, e0 := order.remainingVolume, order.executions;
    ghost var f := Sweep(rems, r0);
    assert Consistent(cs, rems, exs);
    FilledNone(cs, order, f);
    var i := 0;
    while i < |cs|
      invariant i <= |cs|
      invariant Filled(cs, order, rems, exs, sts, r0, e0, Upto(f, i))
      invariant order.Valid() && order.status == old(order.status)
    {
      SweepStep(cs, order, i, rems, exs, sts, r0, e0);
      i := i + 1;
      if !order.HasRemainingVolume() {
        UptoTotals(e0, f, Prices(cs), i);
        forall j | i <= j < |cs| ensures f[j] == 0 {
          SweepStopsWhenFilled(rems, r0, i, j);
        }
        break;
      }
    }
    UptoRest(f, i);
    FilledValid(cs, order, rems, exs, sts, r0, e0);
    executed := order.HasExecutions();
  }

  /** One side's purge: collects the orders with no volume left, then
      `Remove`s each of them, one at a time. */
  method Purge(side: seq<Order>) returns (rest: seq<Order>)
    requires Distinct(side)
    ensures rest == Unfilled(side)
  {
    var done := Exhausted(side);
    rest := side;
    WithoutNothing(side, done[..0]);
    var i := 0;
    while i < |done|
      invariant 0 <= i <= |done|
      invariant rest == Without(side, done[..i])
    {
      PurgeStep(side, done, i);
      rest := RemoveFirst(rest, done[i]);
      i := i + 1;
    }
    PurgeDone(side, done);
  }

  class OrderBook {
    const pair: string
    /** The case folding under which instruments are compared. */
    const fold: string -> string

    var buySide: seq<Order>
    var sellSide: seq<Order>
    /** How many `OrderBookChanged` notifications have been raised. */
    var notifications: nat

    /** Every resting order sits on the side of its trade type, has volume
        left, is for this book's instrument and rests there once. */
    ghost predicate Valid()
      reads this, buySide, sellSide
    {
      SideValid(buySide, Buy) && SideValid(sellSide, Sell)
    }

    /** Orders that may rest on side `t`: distinct, of that trade type,
        consistent and for this book's instrument. */
    ghost predicate Resting(s: seq<Order>, t: TradeType)
      reads s
    {
      && Distinct(s)
      && forall i :: 0 <= i < |s| ==> s[i].tradeType == t && s[i].Valid() && SameInstrument(s[i].pair)
    }

    /** A valid side also holds only orders with volume left. */
    ghost predicate SideValid(s: seq<Order>, t: TradeType)
      reads s
    {
      Resting(s, t) && forall i :: 0 <= i < |s| ==> s[i].HasRemainingVolume()
    }

    predicate SameInstrument(p: string)
    {
      fold(p) == fold(pair)
    }

    function Side(t: TradeType): seq<Order>
      reads this
    {
      if t == Buy then buySide else sellSide
    }

    constructor (pair: string, fold: string -> string)
      ensures Valid()
      ensures this.pair == pair && this.fold == fold
      ensures buySide == [] && sellSide == [] && notifications == 0
    {
      this.pair := pair;
      this.fold := fold;
      buySide := [];
      sellSide := [];
      notifications := 0;
    }

    /** The instrument check comes first, then the balance check. */
    function Validate(order: Order, hasEnoughBalance: Order -> bool): (r: Outcome)
      ensures r == Ok <==> SameInstrument(order.pair) && hasEnoughBalance(order)
      ensures r == InvalidInstrument <==> !SameInstrument(order.pair)
      ensures r == InsufficientBalance <==> SameInstrument(order.pair) && !hasEnoughBalance(order)
      ensures r != NotImplemented
    {
      if !SameInstrument(order.pair) then InvalidInstrument
      else if !hasEnoughBalance(order) then InsufficientBalance
      else Ok
    }

    /** The candidates of an incoming order that does not rest on `side` are
        distinct orders of `side`, none of them the incoming order. */
    lemma CandidatesResting(side: seq<Order>, t: TradeType, o: Order)
      requires SideValid(side, t) && o !in side
      ensures Sweepable(Candidates(side, o), o)
      ensures forall c :: c in Candidates(side, o) ==> c in side
    {
      var cs := Candidates(side, o);
      CandidatesDistinct(side, o);
      forall j | 0 <= j < |cs| ensures IndexOf(cs, cs[j]) == j && cs[j] in side && cs[j].Valid() {
        DistinctIndexOf(cs, j);
        CandidatesCross(side, o, cs[j]);
      }
    }

    /** The greedy sweep of an incoming limit order over the crossing orders
        of the opposite side, best price first, stopping once it is filled. */
    method TryExecuteLimit(order: Order) returns (executed: bool)
      requires order.Valid()
      requires Sweepable(Candidates(Side(Opposite(order.tradeType)), order), order)
      modifies order, Candidates(Side(Opposite(order.tradeType)), order)
      ensures Conserved(Candidates(Side(Opposite(order.tradeType)), order), order)
      ensures executed == order.HasExecutions()
    {
      var cs := Candidates(Side(Opposite(order.tradeType)), order);
      executed := Match(cs, order);
    }

    /** Dispatch on the order type; the market path is not implemented and
        changes nothing. The limit path keeps both sides fit to rest. */
    method TryExecute(order: Order) returns (attempt: Attempt)
      requires Valid() && order.Valid()
      requires order !in buySide && order !in sellSide
      modifies order, Candidates(Side(Opposite(order.tradeType)), order)
      ensures order.orderType == Market ==>
        attempt == Unsupported && Valid() && unchanged(order) && unchanged(old(Side(Opposite(order.tradeType))))
      ensures order.orderType == Limit ==>
        var cs := Candidates(Side(Opposite(order.tradeType)), order);
        && attempt == Executed(order.HasExecutions())
        && Conserved(cs, order)
        && Resting(Side(Opposite(order.tradeType)), Opposite(order.tradeType))
        && SideValid(Side(order.tradeType), order.tradeType)
    {
      if order.orderType == Limit {
        ghost var t := Opposite(order.tradeType);
        ghost var opp, own := Side(t), Side(order.tradeType);
        ghost var cs := Candidates(opp, order);
        CandidatesResting(opp, t, order);
        forall k | 0 <= k < |own| ensures own[k] !in cs {
          assert own[k].tradeType != t;
        }
        var any := TryExecuteLimit(order);
        attempt := Executed(any);
        forall k | 0 <= k < |opp| ensures opp[k].Valid() {
          if opp[k] !in cs {
            assert opp[k] != order;
          }
        }
        forall k | 0 <= k < |own| ensures own[k].Valid() && own[k].HasRemainingVolume() {
          assert own[k] != order;
        }
        assert Side(t) == opp && Side(order.tradeType) == own;
      } else {
        attempt := Unsupported;
      }
    }

    method AddToOrderBook(order: Order)
      modifies this`buySide, this`sellSide
      ensures Side(order.tradeType) == old(Side(order.tradeType)) + [order]
      ensures Side(Opposite(order.tradeType)) == old(Side(Opposite(order.tradeType)))
    {
      if order.tradeType == Buy {
        buySide := buySide + [order];
      }
      if order.tradeType == Sell {
        sellSide := sellSide + [order];
      }
    }

    /** Drops, side by side, every order that has no volume left. */
    method RemoveExecutedOrders()
      requires Distinct(buySide) && Distinct(sellSide)
      modifies this`buySide, this`sellSide
      ensures sellSide == Unfilled(old(sellSide))
      ensures buySide == Unfilled(old(buySide))
    {
      sellSide := Purge(sellSide);
      buySide := Purge(buySide);
    }

    /** Validates, sweeps, rests the remainder on the order's own side, purges
        filled orders and raises the change notification. A failure leaves the
        book and every order as they were and raises nothing. */
    method Add(order: Order, hasEnoughBalance: Order -> bool) returns (result: Outcome)
      requires Valid() && order.Valid()
      requires order !in buySide && order !in sellSide
      modifies this`buySide, this`sellSide, this`notifications
      modifies order, Candidates(Side(Opposite(order.tradeType)), order)
      ensures Valid()
      ensures Validate(order, hasEnoughBalance) != Ok ==> result == Validate(order, hasEnoughBalance)
      ensures Validate(order, hasEnoughBalance) == Ok ==>
        result == if order.orderType == Market then NotImplemented else Ok
      ensures result != Ok ==>
        && buySide == old(buySide) && sellSide == old(sellSide)
        && notifications == old(notifications)
        && unchanged(order) && unchanged(old(Side(Opposite(order.tradeType))))
      ensures result == Ok ==>
        var own := order.tradeType;
        var cs := Candidates(old(Side(Opposite(own))), order);
        && Conserved(cs, order)
        && Side(own) == old(Side(own)) + (if order.HasRemainingVolume() then [order] else [])
        && Side(Opposite(own)) == Unfilled(old(Side(Opposite(own))))
        && notifications == old(notifications) + 1
    {
      result := Validate(order, hasEnoughBalance);
      if result != Ok {
        return;
      }
      var attempt := TryExecute(order);
      if attempt.Unsupported? {
        result := NotImplemented;
        return;
      }
      ghost var cs := Candidates(old(Side(Opposite(order.tradeType))), order);
      assert Conserved(cs, order);
      Settle(order);
      assert Conserved(cs, order);
    }

    /** The tail of a successful `Add`: the remainder rests on its own side,
        the filled orders leave both sides and one notification is raised. */
    method Settle(order: Order)
      requires order.Valid() && SameInstrument(order.pair) && order !in Side(order.tradeType)
      requires SideValid(Side(order.tradeType), order.tradeType)
      requires Resting(Side(Opposite(order.tradeType)), Opposite(order.tradeType))
      modifies this`buySide, this`sellSide, this`notifications
      ensures Valid()
      ensures Side(order.tradeType) ==
        old(Side(order.tradeType)) + (if order.HasRemainingVolume() then [order] else [])
      ensures Side(Opposite(order.tradeType)) == Unfilled(old(Side(Opposite(order.tradeType))))
      ensures notifications == old(notifications) + 1
    {
      var t := order.tradeType;
      ghost var opp := Side(Opposite(t));
      assert Resting(opp, Opposite(t));
      RestRemainder(order);
      assert Side(Opposite(t)) == opp && Resting(opp, Opposite(t));
      PurgeExecuted(t);
      notifications := notifications + 1;
    }

    /** `AddToOrderBook` when the order has volume left after the sweep; the
        order's side stays fit to rest. */
    method RestRemainder(order: Order)
      requires order.Valid() && SameInstrument(order.pair) && order !in Side(order.tradeType)
      requires SideValid(Side(order.tradeType), order.tradeType)
      modifies this`buySide, this`sellSide
      ensures Side(order.tradeType) ==
        old(Side(order.tradeType)) + (if order.HasRemainingVolume() then [order] else [])
      ensures Side(Opposite(order.tradeType)) == old(Side(Opposite(order.tradeType)))
      ensures SideValid(Side(order.tradeType), order.tradeType)
    {
      if order.HasRemainingVolume() {
        RestOrder(Side(order.tradeType), order.tradeType, order);
        AddToOrderBook(order);
      }
    }

    /** `RemoveExecutedOrders` on a book whose side `t` holds only orders with
        volume left: side `t` stays as it is, the other side loses its filled
        orders, and the book is valid again. */
    method PurgeExecuted(t: TradeType)
      requires SideValid(Side(t), t) && Resting(Side(Opposite(t)), Opposite(t))
      modifies this`buySide, this`sellSide
      ensures Valid()
      ensures Side(t) == old(Side(t))
      ensures Side(Opposite(t)) == Unfilled(old(Side(Opposite(t))))
    {
      ghost var own, opp := Side(t), Side(Opposite(t));
      UnfilledOwn(own);
      Purged(opp, Opposite(t));
      ghost var purged := Unfilled(opp);
      assert SideValid(purged, Opposite(t)) && SideValid(own, t);
      SidesDistinct(t, own, opp);
      RemoveExecutedOrders();
      assert Side(t) == own && Side(Opposite(t)) == purged;
      SidesValid(t, own, purged);
    }

    /** Both sides hold each order once when `a` and `b` do. */
    lemma SidesDistinct(t: TradeType, a: seq<Order>, b: seq<Order>)
      requires Side(t) == a && Side(Opposite(t)) == b
      requires Distinct(a) && Distinct(b)
      ensures Distinct(buySide) && Distinct(sellSide)
    {
    }

    /** A book whose two sides are each fit for their trade type is valid. */
    lemma SidesValid(t: TradeType, a: seq<Order>, b: seq<Order>)
      requires Side(t) == a && Side(Opposite(t)) == b
      requires SideValid(a, t) && SideValid(b, Opposite(t))
      ensures Valid()
    {
    }

    /** An order with volume left, of the side's trade type and instrument,
        that is not on the side yet, may join it. */
    lemma RestOrder(s: seq<Order>, t: TradeType, o: Order)
      requires SideValid(s, t) && o !in s
      requires o.tradeType == t && o.Valid() && o.HasRemainingVolume() && SameInstrument(o.pair)
      ensures SideValid(s + [o], t)
    {
      DistinctSnoc(s, o);
    }

    /** Dropping the orders with no volume left from a side fit to rest makes it valid. */
    lemma Purged(s: seq<Order>, t: TradeType)
      requires Resting(s, t)
      ensures SideValid(Unfilled(s), t)
    {
      var u := Unfilled(s);
      UnfilledDistinct(s);
      forall i | 0 <= i < |u| ensures u[i] in s && u[i].HasRemainingVolume() {
        UnfilledMember(s, u[i]);
      }
    }

    /** Cancels `order` if it rests on the side of its trade type; otherwise
        does nothing. Raises no notification. */
    method Cancel(order: Order)
      requires Valid()
      modifies this`buySide, this`sellSide, order
      ensures Valid()
      ensures notifications == old(notifications)
      ensures Side(Opposite(order.tradeType)) == old(Side(Opposite(order.tradeType)))
      ensures old(order in Side(order.tradeType)) ==>
        && Side(order.tradeType) == RemoveFirst(old(Side(order.tradeType)), order)
        && order !in Side(order.tradeType)
        && order.status == Cancelled
        && order.remainingVolume == old(order.remainingVolume)
        && order.executions == old(order.executions)
      ensures old(order !in Side(order.tradeType)) ==>
        Side(order.tradeType) == old(Side(order.tradeType)) && unchanged(order)
    {
      if order.tradeType == Sell && order in sellSide {
        Withdrawn(sellSide, Sell, order);
        OffSide(buySide, Buy, order);
        sellSide := RemoveFirst(sellSide, order);
        order.Cancel();
      } else if order.tradeType == Buy && order in buySide {
        Withdrawn(buySide, Buy, order);
        OffSide(sellSide, Sell, order);
        buySide := RemoveFirst(buySide, order);
        order.Cancel();
      }
    }

    /** Withdrawing a resting order leaves a valid side without it. */
    lemma Withdrawn(s: seq<Order>, t: TradeType, o: Order)
      requires SideValid(s, t) && o in s
      ensures SideValid(RemoveFirst(s, o), t) && o !in RemoveFirst(s, o)
    {
      var r := RemoveFirst(s, o);
      RemoveFirstDistinct(s, o);
      WithoutDistinct(s, [o]);
      forall i | 0 <= i < |r| ensures r[i] in s && r[i] != o {
        WithoutMember(s, [o], r[i]);
      }
      WithoutMember(s, [o], o);
    }

    /** An order of the other trade type does not rest on a valid side. */
    lemma OffSide(s: seq<Order>, t: TradeType, o: Order)
      requires SideValid(s, t) && o.tradeType != t
      ensures o !in s
    {
    }

    /** A copy of the ask (sell) side. */
    method Asks() returns (asks: seq<Order>)
      ensures asks == sellSide
      ensures Valid() ==> forall i :: 0 <= i < |asks| ==>
        asks[i].tradeType == Sell && asks[i].HasRemainingVolume()
    {
      asks := sellSide;
    }

    /** A copy of the bid (buy) side. */
    method Bids() returns (bids: seq<Order>)
      ensures bids == buySide
      ensures Valid() ==> forall i :: 0 <= i < |bids| ==>
        bids[i].tradeType == Buy && bids[i].HasRemainingVolume()
    {
      bids := buySide;
    }

    /** The union of both sides; on a valid book, the bids followed by the asks. */
    method AllOrders() returns (all: seq<Order>)
      ensures Distinct(all)
      ensures forall i :: 0 <= i < |all| ==> all[i] in buySide || all[i] in sellSide
      ensures forall i :: 0 <= i < |buySide| ==> buySide[i] in all
      ensures forall i :: 0 <= i < |sellSide| ==> sellSide[i] in all
      ensures Valid() ==> all == buySide + sellSide
    {
      all := Union(buySide, sellSide);
      forall i | 0 <= i < |all| ensures all[i] in buySide || all[i] in sellSide {
        UnionMember(buySide, sellSide, all[i]);
      }
      forall i | 0 <= i < |buySide| ensures buySide[i] in all {
        UnionMember(buySide, sellSide, buySide[i]);
      }
      forall i | 0 <= i < |sellSide| ensures sellSide[i] in all {
        UnionMember(buySide, sellSide, sellSide[i]);
      }
      if Valid() {
        var both := buySide + sellSide;
        forall i, j | 0 <= i < j < |both| ensures Differ(both, i, j) {
          if j < |buySide| {
            DistinctAt(buySide, i, j);
          } else if i >= |buySide| {
            DistinctAt(sellSide, i - |buySide|, j - |buySide|);
          } else {
            assert both[i].tradeType == Buy && both[j] == sellSide[j - |buySide|];
          }
        }
        UnionDisjoint(buySide, sellSide);
      }
    }
  }

  /** Orders that all have volume left survive the purge unchanged. */
  lemma {:induction false} UnfilledOwn(s: seq<Order>)
    requires forall i :: 0 <= i < |s| ==> s[i].HasRemainingVolume()
    ensures Unfilled(s) == s
  {
    if s != [] {
      UnfilledOwn(s[1..]);
      assert s == [s[0]] + s[1..];
    }
  }
}
