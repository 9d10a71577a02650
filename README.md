# FakeExchange order book in Dafny

This project models the single-instrument limit order book of Lykke's FakeExchange service (`OrderBook`). The book keeps two resting lists: the buy side (bids) and the sell side (asks).

- **`Add`** validates an incoming order against the book's instrument and the client's balance. It then sweeps a limit order against the crossing orders of the opposite side, best price first and first-come first within a price. Each fill is min(resting remaining, incoming remaining), recorded on both orders at the resting order's price. The sweep stops once the incoming order is filled. Any remainder is appended to the order's own side, every order left with no volume is purged from both sides, and one change notification is raised.
- **`Cancel`** removes an order, by reference, from the side of its trade type and marks it cancelled.
- **`Asks`, `Bids` and `AllOrders`** return snapshots of the sides.

Files:

- `orders.dfy` (module `Orders`): the `Order` entity the book works on. It is a class with the order's fixed terms and its mutable state: remaining volume, executions and status. It provides `Execute` and `Cancel`. Its invariant is "executed + remaining = volume, remaining ≥ 0".
- `lists.dfy` (module `Lists`): the list operations the book relies on:
  - `List<T>.Remove`, as `RemoveFirst`;
  - `Enumerable.Union`, as `Union`/`Dedup`;
  - "no duplicates", as `Distinct`;
  - removal of several elements, as `Without`.
- `priority.dfy` (module `Priority`): candidate selection as a pure function. It is the `Where` crossing filter followed by a stable insertion sort by price (`OrderBy` / `OrderByDescending` are stable). It carries the lemmas on crossing, price order and time priority.
- `matching.dfy` (module `Matching`): the sweep on numbers alone.
  - `Sweep(rems, r)` is the list of fills the loop makes, including the `v > 0` guard and the `break`.
  - `Recorded` is the incoming order's executions afterwards.
  - The lemmas prove that this equals the greedy rule, that it is the unique sequence obeying it, its bounds, and that it stops early.
- `order_book.dfy` (module `Books`): the imperative book.
  - `Match` is the `foreach`/`break` loop of `TryExecuteLimit`, proved against `Sweep` through the `Swept` predicate.
  - `Purge` is the `Where(...).ToList().ForEach(Remove)` purge loop of one side.
  - The class `OrderBook` holds `buySide`/`sellSide` as `seq<Order>` fields, which its methods reassign. Its invariant `Valid()` states: every resting order is on the side of its trade type, has volume left, is for the book's instrument, satisfies the order invariant, and rests there once.

Modelling choices:

- Prices and volumes are unbounded integers.
- The case-insensitive instrument comparison is `fold(a) == fold(b)`, for a case-folding function `fold` given to the constructor.
- The balance service is the parameter `hasEnoughBalance: Order -> bool` of `Add`.
- The exceptions `Add` throws become the `Outcome` values:
  - `InvalidInstrument` and `InsufficientBalance` come from `Validate`;
  - `NotImplemented` comes from the market path.
- The `OrderBookChanged` event is the counter `notifications`.

## Model

| member | source | states |
|---|---|---|
| Orders.Order.Execute | src/Lykke.Service.FakeExchange.Core/Domain/OrderBook.cs:143-144 | a fill of `v` (0 < v ≤ remaining) lowers the remaining volume by `v`, appends `(v, p)` to the executions and keeps executed + remaining = volume |
| Orders.Order.Cancel | src/Lykke.Service.FakeExchange.Core/Domain/OrderBook.cs:167 | the status becomes Cancelled; the remaining volume and executions stay as they were |
| Books.OrderBook.constructor | src/Lykke.Service.FakeExchange.Core/Domain/OrderBook.cs:56-62 | a new book for an instrument has two empty sides, has raised no notification and is valid |
| Orders.Order.HasRemainingVolume | src/Lykke.Service.FakeExchange.Core/Domain/OrderBook.cs:72 | definition: the order has volume left (remaining volume above zero), the test `Add` uses to rest the remainder |
| Orders.Order.HasExecutions | src/Lykke.Service.FakeExchange.Core/Domain/OrderBook.cs:153 | definition: the order has at least one execution, the result of the limit sweep |
| Books.OrderBook.SameInstrument | src/Lykke.Service.FakeExchange.Core/Domain/OrderBook.cs:104 | definition: an instrument matches the book's when both are equal after case folding |
| Matching.Sweep | src/Lykke.Service.FakeExchange.Core/Domain/OrderBook.cs:137-150 | definition: the fills the loop makes, candidate by candidate: min(candidate remaining, incoming remaining) when positive, and zero for every candidate after the incoming order is filled; one fill per candidate |
| Priority.Crossing | src/Lykke.Service.FakeExchange.Core/Domain/OrderBook.cs:134-135 | definition: the `Where` filter, the orders of the side whose price crosses the incoming limit, in side order |
| Priority.Insert | src/Lykke.Service.FakeExchange.Core/Domain/OrderBook.cs:134-135 | definition: one step of the stable price sort, placing an order before the first order with a price no better than its own |
| Priority.Sort | src/Lykke.Service.FakeExchange.Core/Domain/OrderBook.cs:134-135 | definition: `OrderBy(price)` against a buy and `OrderByDescending(price)` against a sell, as a stable insertion sort |
| Priority.Candidates | src/Lykke.Service.FakeExchange.Core/Domain/OrderBook.cs:132-135 | definition: the query the sweep iterates, the crossing orders of the opposite side in sorted order |
| Books.Unfilled | src/Lykke.Service.FakeExchange.Core/Domain/OrderBook.cs:85-86 | definition: the side's orders that have volume left, in side order (what the purge leaves) |
| Books.Exhausted | src/Lykke.Service.FakeExchange.Core/Domain/OrderBook.cs:85-86 | definition: `Where(x => !x.HasRemainingVolume)`, the side's orders with no volume left, in side order |
| Lists.Union | src/Lykke.Service.FakeExchange.Core/Domain/OrderBook.cs:49 | definition: `Enumerable.Union`, the elements of both lists with later repetitions dropped; the result has no duplicates |
| Books.OrderBook.Validate | src/Lykke.Service.FakeExchange.Core/Domain/OrderBook.cs:102-113 | the outcome is Ok iff the instrument matches case-insensitively and the balance suffices; InvalidInstrument iff the instrument differs (checked first); InsufficientBalance iff the instrument matches but the balance does not suffice |
| Books.OrderBook.Add | src/Lykke.Service.FakeExchange.Core/Domain/OrderBook.cs:64-81 | on a validation failure it returns that failure and changes no side, no order and no notification count. A validated market order gives NotImplemented with everything unchanged. A validated limit order gives Ok and changes the book as follows (`Conserved`): the candidates were swept exactly as `Sweep` prescribes; the incoming order and every candidate still satisfy executed + remaining = volume; the volume the candidates lost equals the drop in the order's remaining volume and the growth of its executed volume; the order's side is the old side plus the order exactly when volume is left; the opposite side is its old contents without the filled orders; one notification is raised. The book invariant holds afterwards in every case |
| Books.OrderBook.Settle | src/Lykke.Service.FakeExchange.Core/Domain/OrderBook.cs:72-80 | after the sweep: the order joins its own side exactly when it has volume left, the opposite side loses its filled orders, the book is valid again and one notification is raised |
| Books.OrderBook.RestRemainder | src/Lykke.Service.FakeExchange.Core/Domain/OrderBook.cs:72-75 | the order is appended to its own side exactly when it has volume left, the other side is untouched, and the own side stays fit to rest on |
| Books.OrderBook.PurgeExecuted | src/Lykke.Service.FakeExchange.Core/Domain/OrderBook.cs:77 | on a book whose side `t` has only orders with volume left, the purge keeps side `t`, removes exactly the filled orders from the other side and restores the book invariant |
| Books.OrderBook.RemoveExecutedOrders | src/Lykke.Service.FakeExchange.Core/Domain/OrderBook.cs:83-87 | each side becomes its old contents with exactly the orders that have no volume left removed, order preserved |
| Books.Purge | src/Lykke.Service.FakeExchange.Core/Domain/OrderBook.cs:85-86 | removing the collected filled orders one `Remove` at a time from a side without duplicates leaves exactly its unfilled orders, in order |
| Books.PurgeStep | src/Lykke.Service.FakeExchange.Core/Domain/OrderBook.cs:85-86 | one `Remove` of the next collected order equals removing one more collected order from the original side |
| Books.WithoutExhausted | src/Lykke.Service.FakeExchange.Core/Domain/OrderBook.cs:85-86 | removing the orders with no volume left from (any part of) a side leaves its unfilled orders |
| Books.UnfilledMember | src/Lykke.Service.FakeExchange.Core/Domain/OrderBook.cs:85-86 | an order survives the purge iff it was on the side and has volume left |
| Books.ExhaustedMember | src/Lykke.Service.FakeExchange.Core/Domain/OrderBook.cs:85-86 | an order is collected for removal iff it is on the side and has no volume left |
| Books.UnfilledDistinct | src/Lykke.Service.FakeExchange.Core/Domain/OrderBook.cs:83-87 | purging a side without duplicates leaves a side without duplicates |
| Books.UnfilledOwn | src/Lykke.Service.FakeExchange.Core/Domain/OrderBook.cs:83-87 | a side whose orders all have volume left is unchanged by the purge |
| Books.OrderBook.Purged | src/Lykke.Service.FakeExchange.Core/Domain/OrderBook.cs:83-87 | purging a side of distinct, consistent orders of its trade type yields a valid side (every order has volume left) |
| Books.OrderBook.AddToOrderBook | src/Lykke.Service.FakeExchange.Core/Domain/OrderBook.cs:89-100 | the order is appended at the tail of the side of its trade type; the other side is unchanged |
| Books.OrderBook.RestOrder | src/Lykke.Service.FakeExchange.Core/Domain/OrderBook.cs:93-98 | appending a consistent order with volume left, of the side's trade type and instrument and not yet on it, keeps the side valid |
| Books.OrderBook.TryExecute | src/Lykke.Service.FakeExchange.Core/Domain/OrderBook.cs:115-128 | a market order gives Unsupported and changes nothing. A limit order is swept against its candidates as `Sweep` prescribes with every order kept consistent and the volume conserved (`Conserved`), and the result is "has executions". The opposite side keeps distinct consistent orders of its type, and the own side stays valid and untouched |
| Books.OrderBook.TryExecuteLimit | src/Lykke.Service.FakeExchange.Core/Domain/OrderBook.cs:130-154 | the candidates of the opposite side are swept as `Sweep` prescribes, every order stays consistent, the volume the candidates lost is the volume the order lost and gained in executions (`Conserved`), and the result is whether the order has executions |
| Books.OrderBook.CandidatesResting | src/Lykke.Service.FakeExchange.Core/Domain/OrderBook.cs:132-135 | the candidates of an order not on a valid side are distinct, consistent orders of that side, none of them the incoming order |
| Books.Match | src/Lykke.Service.FakeExchange.Core/Domain/OrderBook.cs:137-153 | after the loop every candidate's remaining volume is its old one minus its `Sweep` fill and its executions record that fill at its own price. Statuses are unchanged. The incoming order lost the total of the fills and recorded each positive fill, in visiting order, at the candidate's price. Every order stays consistent, the volume is conserved, and the result is "has executions" |
| Books.SweepStep | src/Lykke.Service.FakeExchange.Core/Domain/OrderBook.cs:139-145 | one pass of the loop body moves the book from the state after `i` sweep fills to the state after `i + 1` |
| Books.SweepAdvance | src/Lykke.Service.FakeExchange.Core/Domain/OrderBook.cs:139-145 | min(candidate remaining, incoming remaining) after `i` fills, taken only when positive, is exactly the `i`-th fill of `Sweep` |
| Books.Fill | src/Lykke.Service.FakeExchange.Core/Domain/OrderBook.cs:139-145 | a positive `v` is executed on candidate `i` and on the incoming order at the candidate's price; a non-positive `v` changes nothing; no other candidate changes |
| Books.Trade | src/Lykke.Service.FakeExchange.Core/Domain/OrderBook.cs:143-144 | both orders record the same fill at the resting order's price and stay consistent |
| Books.FilledValid | src/Lykke.Service.FakeExchange.Core/Domain/OrderBook.cs:139-145 | after the sweep no candidate's remaining volume is negative (every order stays consistent) and the total volume taken from the candidates equals the drop in the incoming order's remaining volume |
| Matching.SweepBounds | src/Lykke.Service.FakeExchange.Core/Domain/OrderBook.cs:139-145 | every fill is between 0 and what the candidate had left, and the fills total at most what the incoming order had left |
| Matching.SweepGreedy | src/Lykke.Service.FakeExchange.Core/Domain/OrderBook.cs:137-150 | the `i`-th fill is min(candidate remaining, incoming remaining after the earlier fills), clipped at zero: the `break` does not change any fill |
| Matching.SweepIsGreedy | src/Lykke.Service.FakeExchange.Core/Domain/OrderBook.cs:137-150 | the sweep's fills obey the greedy rule at every position |
| Matching.GreedyUnique | src/Lykke.Service.FakeExchange.Core/Domain/OrderBook.cs:137-150 | at most one sequence of fills obeys the greedy rule |
| Matching.GreedySweep | src/Lykke.Service.FakeExchange.Core/Domain/OrderBook.cs:137-150 | any fills obeying the greedy rule are the sweep's |
| Matching.SweepStopsWhenFilled | src/Lykke.Service.FakeExchange.Core/Domain/OrderBook.cs:147-150 | once the incoming order has no volume left, every later candidate gets fill 0 and so is left unmodified |
| Matching.SweepFillsInOrder | src/Lykke.Service.FakeExchange.Core/Domain/OrderBook.cs:137-150 | a candidate receives volume only if every candidate visited before it was filled completely |
| Matching.SumDrop | src/Lykke.Service.FakeExchange.Core/Domain/OrderBook.cs:139-145 | when each candidate loses its fill, the total they lose is the total of the fills |
| Matching.RecordedVolume | src/Lykke.Service.FakeExchange.Core/Domain/OrderBook.cs:144 | the incoming order's executed volume grows by exactly the total of the fills |
| Matching.RecordedPrices | src/Lykke.Service.FakeExchange.Core/Domain/OrderBook.cs:143-144 | every execution the sweep records on the incoming order has positive volume and a candidate's price |
| Priority.CrossingMember | src/Lykke.Service.FakeExchange.Core/Domain/OrderBook.cs:134-135 | an order passes the `Where` filter iff it is on the side and crosses the limit |
| Priority.SortPermutes | src/Lykke.Service.FakeExchange.Core/Domain/OrderBook.cs:134-135 | the price sort is a permutation |
| Priority.SortSorted | src/Lykke.Service.FakeExchange.Core/Domain/OrderBook.cs:134-135 | the price sort never puts an order behind one with a worse price |
| Priority.SortLevel | src/Lykke.Service.FakeExchange.Core/Domain/OrderBook.cs:134-135 | the price sort is stable: each price level keeps its order |
| Priority.CrossingLevel | src/Lykke.Service.FakeExchange.Core/Domain/OrderBook.cs:134-135 | the crossing filter keeps a whole price level when the price crosses and drops it otherwise |
| Priority.CandidatesCross | src/Lykke.Service.FakeExchange.Core/Domain/OrderBook.cs:132-135 | an order is a candidate iff it rests on the opposite side and crosses: price ≤ limit against a buy, price ≥ limit against a sell |
| Priority.CandidatesBestPriceFirst | src/Lykke.Service.FakeExchange.Core/Domain/OrderBook.cs:132-135 | candidates are visited in ascending price against a buy and descending price against a sell |
| Priority.CandidatesTimePriority | src/Lykke.Service.FakeExchange.Core/Domain/OrderBook.cs:132-135 | at each crossing price the candidates are exactly that price's orders in the order they joined the side, and at a non-crossing price there are none |
| Priority.CandidatesDistinct | src/Lykke.Service.FakeExchange.Core/Domain/OrderBook.cs:132-135 | a side without duplicates yields candidates without duplicates, so no order is visited twice |
| Books.OrderBook.Cancel | src/Lykke.Service.FakeExchange.Core/Domain/OrderBook.cs:161-174 | if the order rests on the side of its trade type, it is removed from there (first occurrence) and marked Cancelled, with its volume and executions kept; otherwise nothing changes. The other side, the notification count and every other order are unchanged, and the book stays valid |
| Books.OrderBook.Withdrawn | src/Lykke.Service.FakeExchange.Core/Domain/OrderBook.cs:165-171 | removing a resting order from a valid side leaves a valid side that no longer holds it |
| Lists.RemoveFirst | src/Lykke.Service.FakeExchange.Core/Domain/OrderBook.cs:165 | `Remove` drops the first occurrence of the order and leaves the list as it is when the order does not occur |
| Books.OrderBook.Asks | src/Lykke.Service.FakeExchange.Core/Domain/OrderBook.cs:21-30 | a copy of the sell side; on a valid book all of its orders are sells with volume left |
| Books.OrderBook.Bids | src/Lykke.Service.FakeExchange.Core/Domain/OrderBook.cs:32-41 | a copy of the buy side; on a valid book all of its orders are buys with volume left |
| Books.OrderBook.AllOrders | src/Lykke.Service.FakeExchange.Core/Domain/OrderBook.cs:43-52 | the orders of both sides, each once, exactly those on either side; on a valid book the bids followed by the asks |
| Lists.UnionMember | src/Lykke.Service.FakeExchange.Core/Domain/OrderBook.cs:49 | an element is in the union iff it is in either list |
| Lists.UnionDisjoint | src/Lykke.Service.FakeExchange.Core/Domain/OrderBook.cs:49 | the union of lists that together hold no duplicate is their concatenation |

## Left out

- Locking (`lock (_sync)`) is not modelled: the model is sequential. The `OrderBookChanged` event and its subscribers are reduced to the `notifications` counter, which `Add` raises only on success; `Cancel` does not raise it.
- The balance service's internals are not modelled. Its answer is the parameter `hasEnoughBalance: Order -> bool`. Being a `->` function, it cannot read the heap, so the modelled answer depends only on the order's identity and fixed terms, not on its remaining volume, executions or status. No proved property depends on the answer beyond the Ok/InsufficientBalance split.
- The culture rules of the case-insensitive comparison are not modelled. They are abstracted as the `fold` function.
- Market-order matching does not exist in the source (it throws `NotImplementedException`). The model returns `Unsupported` from `TryExecute` and `NotImplemented` from `Add`, and changes nothing.
- `TryExecute`'s final `return false` for an order type that is neither limit nor market is left out: the order type has only those two values.
- `Order` equality, which drives `Union`'s deduplication, is reference equality in the model. On a valid book the two sides are disjoint, so `AllOrders` is their concatenation.
- `Order` itself (`Order.cs`, with `Execute`, `Cancel`, `HasRemainingVolume`, `HasExecutions`) lies outside the modelled file `OrderBook.cs`. `Order` is modelled with the behaviour the order book relies on.
- Books.OrderBook.Add: requires that the incoming order is not already resting on the book. The source does not check this. Such an order cannot match against itself, because the sweep visits only the opposite side. But if it still has volume left, `AddToOrderBook` appends it to its side a second time. A later `Cancel` then removes only the first copy and leaves a Cancelled order resting on the book.
- Decimal prices and volumes are unbounded integers; decimal precision and overflow are not modelled.
- The message publisher (`OrderBookPublisher.cs`) is not part of this model.
