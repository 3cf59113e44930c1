/** The record and enum types of the order-book dashboard (types.ts), and the
    two sequence helpers every other module shares: `slice(0, n)` and the
    total quantity of a run of levels. */
module Types {

  datatype Option<T> = None | Some(value: T)

  /** OrderSide: exactly BUY and SELL. */
  datatype OrderSide = Buy | Sell {
    /** The side an aggressor of this side trades against. */
    function Opposite(): (o: OrderSide)
      ensures o != this
    {
      if this == Buy then Sell else Buy
    }
  }

  /** OrderStatus: four values, of which the reducer assigns only Active and Cancelled. */
  datatype OrderStatus = Active | Filled | Partial | Cancelled

  datatype Order = Order(
    id: string,
    side: OrderSide,
    price: int,
    originalQty: int,
    remainingQty: int,
    timestamp: int,
    status: OrderStatus)

  /** One price point of one side of the book. `cumulativeQty` is optional:
      the reducer never sets it, only the book view does. */
  datatype Level = Level(price: int, quantity: int, orderCount: int, cumulativeQty: Option<int>)

  datatype Trade = Trade(id: string, timestamp: int, price: int, quantity: int, aggressorSide: OrderSide)

  /** The materialised snapshot: exactly the eight fields of the source. */
  datatype MarketState = MarketState(
    bids: seq<Level>,
    asks: seq<Level>,
    trades: seq<Trade>,
    activeOrders: seq<Order>,
    completedOrders: seq<Order>,
    cancelledOrders: seq<Order>,
    lastPrice: int,
    timestamp: int)
  {
    /** The book a side rests on: `bids` for BUY, `asks` for SELL. */
    function Book(side: OrderSide): (levels: seq<Level>) {
      if side == Buy then bids else asks
    }

    /** This state with the book of `side` replaced by `levels`. */
    function WithBook(side: OrderSide, levels: seq<Level>): (r: MarketState)
      ensures r.Book(side) == levels && r.Book(side.Opposite()) == Book(side.Opposite())
      ensures r.trades == trades && r.activeOrders == activeOrders
      ensures r.completedOrders == completedOrders && r.cancelledOrders == cancelledOrders
      ensures r.lastPrice == lastPrice && r.timestamp == timestamp
    {
      if side == Buy then this.(bids := levels) else this.(asks := levels)
    }
  }

  datatype AppMode = LiveMode | ReplayMode

  /** EventType: five tags, of which the reducer handles three. */
  datatype EventType = OrderAdded | OrderMatched | OrderCancelled | TradeExecuted | BookSnapshot

  /** The payload that the source carries untyped in `data`, one variant per tag,
      each with exactly the fields the reducer reads for that tag. */
  datatype EventData =
    | OrderAddedData(id: string, side: OrderSide, price: int, quantity: int)
    | OrderMatchedData(price: int, quantity: int, side: OrderSide, tradeId: string)
    | OrderCancelledData(orderId: string)
    | TradeExecutedData
    | BookSnapshotData

  datatype MarketEvent = MarketEvent(timestamp: int, data: EventData) {
    /** The `type` tag of the event. */
    function Type(): (t: EventType) {
      match data
      case OrderAddedData(_, _, _, _) => OrderAdded
      case OrderMatchedData(_, _, _, _) => OrderMatched
      case OrderCancelledData(_) => OrderCancelled
      case TradeExecutedData => TradeExecuted
      case BookSnapshotData => BookSnapshot
    }
  }

  /** `s.slice(0, n)`: the first n elements, or all of s when it is shorter. */
  function Take<T>(s: seq<T>, n: nat): (r: seq<T>)
    ensures |r| == if |s| <= n then |s| else n
    ensures r == s[..|r|]
  {
    if |s| <= n then s else s[..n]
  }

  /** `[x, ...t].slice(0, n)` for n >= 1: x first, then as much of t as fits. */
  lemma {:induction false} TakeCons<T>(x: T, t: seq<T>, n: nat)
    requires n >= 1
    ensures var r := Take([x] + t, n);
      && |r| == (if |t| + 1 <= n then |t| + 1 else n)
      && r[0] == x
      && r[1..] == t[..|r| - 1]
  {
    var r := Take([x] + t, n);
    assert r == ([x] + t)[..|r|];
    assert r[1..] == ([x] + t)[1..|r|];
    assert ([x] + t)[1..] == t;
  }

  /** The sum of the quantities of a run of levels. */
  function TotalQuantity(levels: seq<Level>): int {
    if levels == [] then 0 else levels[0].quantity + TotalQuantity(levels[1..])
  }

  lemma {:induction false} TotalQuantityConcat(a: seq<Level>, b: seq<Level>)
    ensures TotalQuantity(a + b) == TotalQuantity(a) + TotalQuantity(b)
  {
    if a == [] {
      assert a + b == b;
    } else {
      assert (a + b)[1..] == a[1..] + b;
      TotalQuantityConcat(a[1..], b);
    }
  }

  /** Adding one level at the end adds its quantity. */
  lemma {:induction false} TotalQuantitySnoc(a: seq<Level>, x: Level)
    ensures TotalQuantity(a + [x]) == TotalQuantity(a) + x.quantity
  {
    TotalQuantityConcat(a, [x]);
  }
}
