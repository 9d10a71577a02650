/** The Order entity the order book operates on: fixed terms of the order plus
    its mutable execution state (remaining volume, executions, status). */
module Orders {

  datatype TradeType = Buy | Sell

  datatype OrderType = Limit | Market

  datatype OrderStatus = Active | Cancelled

  /** One fill recorded on an order: the executed volume and the price it traded at. */
  datatype Execution = Execution(volume: int, price: int)

  /** Total volume of a sequence of executions. */
  function ExecutedVolume(es: seq<Execution>): int
  {
    if es == [] then 0 else ExecutedVolume(es[..|es| - 1]) + es[|es| - 1].volume
  }

  lemma ExecutedVolumeAppend(es: seq<Execution>, e: Execution)
    ensures ExecutedVolume(es + [e]) == ExecutedVolume(es) + e.volume
  {
    assert (es + [e])[..|es|] == es;
  }

  class Order {
    const clientId: string
    const pair: string
    const tradeType: TradeType
    const orderType: OrderType
    const price: int
    const volume: int

    var remainingVolume: int
    var executions: seq<Execution>
    var status: OrderStatus

    /** Remaining volume never goes negative, and what was executed plus what
        remains is the original volume. */
    ghost predicate Valid()
      reads this
    {
      0 <= remainingVolume && ExecutedVolume(executions) + remainingVolume == volume
    }

    predicate HasRemainingVolume()
      reads this
    {
      remainingVolume > 0
    }

    predicate HasExecutions()
      reads this
    {
      executions != []
    }

    constructor (clientId: string, pair: string, tradeType: TradeType, orderType: OrderType,
                 price: int, volume: int)
      requires volume >= 0
      ensures Valid()
      ensures this.clientId == clientId && this.pair == pair && this.tradeType == tradeType
      ensures this.orderType == orderType && this.price == price && this.volume == volume
      ensures remainingVolume == volume && executions == [] && status == Active
    {
      this.clientId := clientId;
      this.pair := pair;
      this.tradeType := tradeType;
      this.orderType := orderType;
      this.price := price;
      this.volume := volume;
      remainingVolume := volume;
      executions := [];
      status := Active;
    }

    /** Records a fill of `v` units at price `p`. */
    method Execute(v: int, p: int)
      requires Valid()
      requires 0 < v <= remainingVolume
      modifies this
      ensures Valid()
      ensures remainingVolume == old(remainingVolume) - v
      ensures executions == old(executions) + [Execution(v, p)]
      ensures status == old(status)
    {
      ExecutedVolumeAppend(executions, Execution(v, p));
      remainingVolume := remainingVolume - v;
      executions := executions + [Execution(v, p)];
    }

    method Cancel()
      modifies this
      ensures status == Cancelled
      ensures remainingVolume == old(remainingVolume) && executions == old(executions)
    {
      status := Cancelled;
    }
  }
}
