/** The event counts of the analytics page (components/Analytics.tsx:25-35). */
module Analytics {
  import opened Types

  /** `history.filter(p).length` for the filters the page uses. */
  datatype Filter = AddedFilter | CancelledFilter | MatchedFilter | BuyAddedFilter | SellAddedFilter

  /** Whether one event passes a filter (components/Analytics.tsx:27-32). */
  predicate Passes(f: Filter, e: MarketEvent) {
    match f
    case AddedFilter => e.Type() == OrderAdded
    case CancelledFilter => e.Type() == OrderCancelled
    case MatchedFilter => e.Type() == OrderMatched
    case BuyAddedFilter => e.Type() == OrderAdded && e.data.side == Buy
    case SellAddedFilter => e.Type() == OrderAdded && e.data.side == Sell
  }

  /** The length of the filtered history. */
  function Count(history: seq<MarketEvent>, f: Filter): (n: nat)
    ensures n <= |history|
  {
    if history == [] then 0
    else (if Passes(f, history[0]) then 1 else 0) + Count(history[1..], f)
  }

  datatype Stats = Stats(total: nat, added: nat, cancelled: nat, matched: nat, buyOrders: nat, sellOrders: nat)

  /** The `stats` memo (components/Analytics.tsx:25-35). */
  function ComputeStats(history: seq<MarketEvent>): (r: Stats) {
    Stats(|history|, Count(history, AddedFilter), Count(history, CancelledFilter), Count(history, MatchedFilter),
          Count(history, BuyAddedFilter), Count(history, SellAddedFilter))
  }

  /** Counting a concatenation counts each part. */
  lemma {:induction false} CountAppend(a: seq<MarketEvent>, b: seq<MarketEvent>, f: Filter)
    ensures Count(a + b, f) == Count(a, f) + Count(b, f)
    decreases |a|
  {
    if a == [] {
      assert a + b == b;
    } else {
      assert (a + b)[1..] == a[1..] + b;
      CountAppend(a[1..], b, f);
    }
  }

  /** Appending one event raises exactly the counts whose filter it passes,
      by one each, and the total by one. */
  lemma {:induction false} AppendOneEvent(history: seq<MarketEvent>, e: MarketEvent)
    ensures var before := ComputeStats(history);
      var after := ComputeStats(history + [e]);
      && after.total == before.total + 1
      && after.added == before.added + (if Passes(AddedFilter, e) then 1 else 0)
      && after.cancelled == before.cancelled + (if Passes(CancelledFilter, e) then 1 else 0)
      && after.matched == before.matched + (if Passes(MatchedFilter, e) then 1 else 0)
      && after.buyOrders == before.buyOrders + (if Passes(BuyAddedFilter, e) then 1 else 0)
      && after.sellOrders == before.sellOrders + (if Passes(SellAddedFilter, e) then 1 else 0)
  {
    assert [e][1..] == [];
    CountAppend(history, [e], AddedFilter);
    CountAppend(history, [e], CancelledFilter);
    CountAppend(history, [e], MatchedFilter);
    CountAppend(history, [e], BuyAddedFilter);
    CountAppend(history, [e], SellAddedFilter);
  }

  /** Only the three handled tags. */
  predicate HandledTag(e: MarketEvent) {
    e.Type() == OrderAdded || e.Type() == OrderCancelled || e.Type() == OrderMatched
  }

  /** The events whose tag the reducer has no case for. */
  function Unhandled(history: seq<MarketEvent>): (n: nat)
    ensures n <= |history|
  {
    if history == [] then 0
    else (if HandledTag(history[0]) then 0 else 1) + Unhandled(history[1..])
  }

  /** added + cancelled + matched is the total less the TRADE_EXECUTED and
      BOOK_SNAPSHOT events: at most the total, and equal to it exactly when no
      such event occurs. */
  lemma {:induction false} TagCountsPartitionTotal(history: seq<MarketEvent>)
    ensures var s := ComputeStats(history);
      s.added + s.cancelled + s.matched + Unhandled(history) == s.total
    ensures var s := ComputeStats(history);
      s.added + s.cancelled + s.matched <= s.total
    ensures var s := ComputeStats(history);
      s.added + s.cancelled + s.matched == s.total <==> forall e :: e in history ==> HandledTag(e)
    decreases |history|
  {
    if history != [] {
      TagCountsPartitionTotal(history[1..]);
      assert forall e :: e in history <==> e == history[0] || e in history[1..];
    }
  }

  /** Every ORDER_ADDED event is a BUY or a SELL, so the two side counts
      split the added count. */
  lemma {:induction false} SidesSplitAdded(history: seq<MarketEvent>)
    ensures var s := ComputeStats(history);
      s.buyOrders + s.sellOrders == s.added
    decreases |history|
  {
    if history != [] {
      SidesSplitAdded(history[1..]);
    }
  }
}
