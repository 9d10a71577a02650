/** Candidate selection for a limit order: the resting orders of the opposite
    side whose price crosses the incoming limit, visited best price first and,
    within a price, in the order they rest on the side. */
module Priority {
  import opened Orders
  import opened Lists

  /** Whether resting order `c` crosses the limit of incoming order `o`: a buy
      accepts offers at or below its price, a sell accepts bids at or above it. */
  predicate Crosses(o: Order, c: Order)
  {
    CrossesAt(o, c.price)
  }

  predicate CrossesAt(o: Order, p: int)
  {
    if o.tradeType == Buy then p <= o.price else p >= o.price
  }

  /** The `Where` filter: the crossing orders of `side`, in side order. */
  function Crossing(side: seq<Order>, o: Order): seq<Order>
  {
    if side == [] then [] else (if Crosses(o, side[0]) then [side[0]] else []) + Crossing(side[1..], o)
  }

  lemma {:induction false} CrossingMember(side: seq<Order>, o: Order, c: Order)
    ensures c in Crossing(side, o) <==> c in side && Crosses(o, c)
  {
    if side != [] {
      CrossingMember(side[1..], o, c);
      assert side == [side[0]] + side[1..];
    }
  }

  /** For an incoming order of type `t`, resting order `a` has a strictly better
      price than `b`: cheaper for a buyer, dearer for a seller. */
  predicate Better(t: TradeType, a: Order, b: Order)
  {
    if t == Buy then a.price < b.price else a.price > b.price
  }

  /** No order is preceded by one with a worse price. */
  predicate BestFirst(t: TradeType, s: seq<Order>)
  {
    forall i, j :: 0 <= i < j < |s| ==> !Better(t, s[j], s[i])
  }

  lemma BestFirstTail(t: TradeType, s: seq<Order>)
    requires s != [] && BestFirst(t, s)
    ensures BestFirst(t, s[1..])
  {
    forall i, j | 0 <= i < j < |s[1..]| ensures !Better(t, s[1..][j], s[1..][i]) {
      assert s[1..][i] == s[i + 1] && s[1..][j] == s[j + 1];
    }
  }

  /** Insert `x` in front of the first order it is not worse than to.
      `x` precedes all of `s` in the input order, so it goes before every
      order of its own price: that keeps the sort stable. */
  function Insert(t: TradeType, x: Order, s: seq<Order>): seq<Order>
  {
    if s == [] || !Better(t, s[0], x) then [x] + s
    else [s[0]] + Insert(t, x, s[1..])
  }

  /** `OrderBy(price)` for an incoming buy, `OrderByDescending(price)` for an
      incoming sell: a stable insertion sort. */
  function Sort(t: TradeType, s: seq<Order>): seq<Order>
  {
    if s == [] then [] else Insert(t, s[0], Sort(t, s[1..]))
  }

  /** Insertion adds `x` and loses nothing. */
  lemma {:induction false} InsertPermutes(t: TradeType, x: Order, s: seq<Order>)
    ensures multiset(Insert(t, x, s)) == multiset(s) + multiset{x}
  {
    if s != [] && Better(t, s[0], x) {
      InsertPermutes(t, x, s[1..]);
      assert s == [s[0]] + s[1..];
    }
  }

  /** Insertion into a best-first sequence keeps it best-first. */
  lemma {:induction false} InsertSorted(t: TradeType, x: Order, s: seq<Order>)
    requires BestFirst(t, s)
    ensures BestFirst(t, Insert(t, x, s))
  {
    if s != [] && Better(t, s[0], x) {
      BestFirstTail(t, s);
      InsertSorted(t, x, s[1..]);
      InsertPermutes(t, x, s[1..]);
      var rest := Insert(t, x, s[1..]);
      assert s == [s[0]] + s[1..];
      forall k | 0 <= k < |rest| ensures !Better(t, rest[k], s[0]) {
        assert rest[k] in multiset(rest);
        if rest[k] != x {
          assert rest[k] in s[1..];
        }
      }
    }
  }

  /** The sort is a permutation of its input. */
  lemma {:induction false} SortPermutes(t: TradeType, s: seq<Order>)
    ensures multiset(Sort(t, s)) == multiset(s)
  {
    if s != [] {
      SortPermutes(t, s[1..]);
      InsertPermutes(t, s[0], Sort(t, s[1..]));
      assert s == [s[0]] + s[1..];
    }
  }

  /** The sort puts the best price first. */
  lemma {:induction false} SortSorted(t: TradeType, s: seq<Order>)
    ensures BestFirst(t, Sort(t, s))
  {
    if s != [] {
      SortSorted(t, s[1..]);
      InsertSorted(t, s[0], Sort(t, s[1..]));
    }
  }

  /** The candidates in the order the sweep visits them. */
  function Candidates(side: seq<Order>, o: Order): seq<Order>
  {
    Sort(o.tradeType, Crossing(side, o))
  }

  /** The orders of `s` at price `p`, in their order in `s`: one price level's queue. */
  function PriceLevel(s: seq<Order>, p: int): seq<Order>
  {
    if s == [] then [] else (if s[0].price == p then [s[0]] else []) + PriceLevel(s[1..], p)
  }

  lemma {:induction false} InsertLevel(t: TradeType, x: Order, s: seq<Order>, p: int)
    requires BestFirst(t, s)
    ensures PriceLevel(Insert(t, x, s), p) == (if x.price == p then [x] else []) + PriceLevel(s, p)
  {
    if s == [] || !Better(t, s[0], x) {
      assert ([x] + s)[1..] == s;
    } else {
      BestFirstTail(t, s);
      InsertLevel(t, x, s[1..], p);
      LevelCons(s[0], Insert(t, x, s[1..]), p);
      LevelCons(s[0], s[1..], p);
      assert s == [s[0]] + s[1..];
    }
  }

  lemma LevelCons(y: Order, s: seq<Order>, p: int)
    ensures PriceLevel([y] + s, p) == (if y.price == p then [y] else []) + PriceLevel(s, p)
  {
    assert ([y] + s)[1..] == s;
  }

  /** The sort is stable: each price level keeps its queue order. */
  lemma {:induction false} SortLevel(t: TradeType, s: seq<Order>, p: int)
    ensures PriceLevel(Sort(t, s), p) == PriceLevel(s, p)
  {
    if s != [] {
      SortLevel(t, s[1..], p);
      SortSorted(t, s[1..]);
      InsertLevel(t, s[0], Sort(t, s[1..]), p);
    }
  }

  /** Filtering by crossing keeps a whole price level or drops it. */
  lemma {:induction false} CrossingLevel(side: seq<Order>, o: Order, p: int)
    ensures PriceLevel(Crossing(side, o), p) == if CrossesAt(o, p) then PriceLevel(side, p) else []
  {
    if side != [] {
      CrossingLevel(side[1..], o, p);
      var h := if Crosses(o, side[0]) then [side[0]] else [];
      LevelConcat(h, Crossing(side[1..], o), p);
    }
  }

  lemma {:induction false} LevelConcat(a: seq<Order>, b: seq<Order>, p: int)
    ensures PriceLevel(a + b, p) == PriceLevel(a, p) + PriceLevel(b, p)
  {
    if a == [] {
      assert a + b == b;
    } else {
      var head := if a[0].price == p then [a[0]] else [];
      assert (a + b)[0] == a[0] && (a + b)[1..] == a[1..] + b;
      LevelConcat(a[1..], b, p);
      calc {
        PriceLevel(a + b, p);
        head + PriceLevel(a[1..] + b, p);
        head + (PriceLevel(a[1..], p) + PriceLevel(b, p));
        (head + PriceLevel(a[1..], p)) + PriceLevel(b, p);
      }
    }
  }

  /** Exactly the crossing orders of the side are candidates. */
  lemma CandidatesCross(side: seq<Order>, o: Order, c: Order)
    ensures c in Candidates(side, o) <==> c in side && Crosses(o, c)
  {
    var cr := Crossing(side, o);
    SortPermutes(o.tradeType, cr);
    assert c in Candidates(side, o) <==> c in multiset(cr);
    CrossingMember(side, o, c);
  }

  /** Candidates are visited best price first: ascending prices against an
      incoming buy, descending against an incoming sell. */
  lemma CandidatesBestPriceFirst(side: seq<Order>, o: Order)
    ensures forall i, j :: 0 <= i < j < |Candidates(side, o)| ==>
      if o.tradeType == Buy then Candidates(side, o)[i].price <= Candidates(side, o)[j].price
      else Candidates(side, o)[i].price >= Candidates(side, o)[j].price
  {
    var cs := Candidates(side, o);
    SortSorted(o.tradeType, Crossing(side, o));
    forall i, j | 0 <= i < j < |cs|
      ensures if o.tradeType == Buy then cs[i].price <= cs[j].price else cs[i].price >= cs[j].price
    {
      assert !Better(o.tradeType, cs[j], cs[i]);
    }
  }

  /** Time priority: at every price the candidates are the side's queue at that
      price, in the order the orders joined the side, when the price crosses,
      and nothing otherwise. */
  lemma CandidatesTimePriority(side: seq<Order>, o: Order, p: int)
    ensures PriceLevel(Candidates(side, o), p) == if CrossesAt(o, p) then PriceLevel(side, p) else []
  {
    SortLevel(o.tradeType, Crossing(side, o), p);
    CrossingLevel(side, o, p);
  }

  lemma {:induction false} CrossingDistinct(side: seq<Order>, o: Order)
    requires Distinct(side)
    ensures Distinct(Crossing(side, o))
  {
    if side != [] {
      DistinctTail(side);
      CrossingDistinct(side[1..], o);
      var rest := Crossing(side[1..], o);
      CrossingMember(side[1..], o, side[0]);
      if Crosses(o, side[0]) {
        DistinctCons(side[0], rest);
      } else {
        assert Crossing(side, o) == rest;
      }
    }
  }

  lemma {:induction false} InsertDistinct(t: TradeType, x: Order, s: seq<Order>)
    requires BestFirst(t, s) && Distinct(s) && x !in s
    ensures Distinct(Insert(t, x, s))
  {
    if s != [] && Better(t, s[0], x) {
      DistinctTail(s);
      assert x !in s[1..] by { assert s == [s[0]] + s[1..]; }
      InsertDistinct(t, x, s[1..]);
      InsertPermutes(t, x, s[1..]);
      BestFirstTail(t, s);
      var r := Insert(t, x, s[1..]);
      assert s[0] !in multiset(r);
      DistinctCons(s[0], r);
    } else {
      DistinctCons(x, s);
    }
  }

  lemma {:induction false} SortDistinct(t: TradeType, s: seq<Order>)
    requires Distinct(s)
    ensures Distinct(Sort(t, s))
  {
    if s != [] {
      DistinctTail(s);
      SortDistinct(t, s[1..]);
      SortPermutes(t, s[1..]);
      SortSorted(t, s[1..]);
      assert s[0] !in multiset(Sort(t, s[1..]));
      InsertDistinct(t, s[0], Sort(t, s[1..]));
    }
  }

  /** No candidate is visited twice when the side holds each order once. */
  lemma CandidatesDistinct(side: seq<Order>, o: Order)
    requires Distinct(side)
    ensures Distinct(Candidates(side, o))
  {
    CrossingDistinct(side, o);
    SortDistinct(o.tradeType, Crossing(side, o));
  }
}
