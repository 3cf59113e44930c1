/** The derived rows of the order-book panel (components/OrderBook.tsx): the
    first fifteen levels of each side with a running cumulative quantity, the
    scale the depth bars are drawn against, and the spread. */
module OrderBookView {
  import opened Types
  import opened Reducer

  /** How many levels of each side are shown (components/OrderBook.tsx:12). */
  const DisplayCount: nat := 15

  /** `reverse()` on a copy. */
  function Reverse<T>(s: seq<T>): (r: seq<T>)
    ensures |r| == |s|
    ensures forall i :: 0 <= i < |s| ==> r[i] == s[|s| - 1 - i]
  {
    if s == [] then [] else Reverse(s[1..]) + [s[0]]
  }

  /** Reversing a run of levels does not change its total quantity. */
  lemma {:induction false} TotalQuantityReverse(levels: seq<Level>)
    ensures TotalQuantity(Reverse(levels)) == TotalQuantity(levels)
  {
    if levels != [] {
      TotalQuantityReverse(levels[1..]);
      TotalQuantitySnoc(Reverse(levels[1..]), levels[0]);
    }
  }

  /** The meaning of a depth ladder: row i is level i with the total quantity
      of levels 0..i attached. */
  function PrefixTotals(data: seq<Level>): (r: seq<Level>) {
    seq(|data|, i requires 0 <= i < |data| => data[i].(cumulativeQty := Some(TotalQuantity(data[..i + 1]))))
  }

  /** The `map` with a running `cumulative` accumulator
      (components/OrderBook.tsx:17-21, components/OrderBook.tsx:26-30). */
  method Accumulate(data: seq<Level>) returns (rows: seq<Level>)
    ensures rows == PrefixTotals(data)
  {
    var cumulative := 0;
    rows := [];
    var i := 0;
    while i < |data|
      invariant 0 <= i <= |data|
      invariant cumulative == TotalQuantity(data[..i])
      invariant rows == PrefixTotals(data)[..i]
    {
      assert data[..i + 1] == data[..i] + [data[i]];
      TotalQuantitySnoc(data[..i], data[i]);
      cumulative := cumulative + data[i].quantity;
      rows := rows + [data[i].(cumulativeQty := Some(cumulative))];
      i := i + 1;
    }
    assert data[..0] == [];
  }

  /** `processedBids`: the best fifteen bids, best first, accumulated from the
      best (components/OrderBook.tsx:24-31). */
  function ProcessedBids(bids: seq<Level>): (r: seq<Level>) {
    PrefixTotals(Take(bids, DisplayCount))
  }

  /** `processedAsks` as written: the best fifteen asks, reversed so the
      deepest comes first, and only then accumulated
      (components/OrderBook.tsx:15-22). */
  function ProcessedAsks(asks: seq<Level>): (r: seq<Level>) {
    PrefixTotals(Reverse(Take(asks, DisplayCount)))
  }

  /** At most fifteen bid rows; each keeps its level's price, quantity and
      order count; row i carries the total of bids 0..i; the last row carries
      the total of all displayed bids. */
  lemma {:induction false} ProcessedBidsShape(bids: seq<Level>)
    ensures var rows := ProcessedBids(bids);
      && |rows| == (if |bids| <= DisplayCount then |bids| else DisplayCount)
      && (forall i :: 0 <= i < |rows| ==>
            && rows[i].price == bids[i].price && rows[i].quantity == bids[i].quantity
            && rows[i].orderCount == bids[i].orderCount
            && rows[i].cumulativeQty == Some(TotalQuantity(bids[..i + 1])))
      && (rows != [] ==> rows[|rows| - 1].cumulativeQty == Some(TotalQuantity(Take(bids, DisplayCount))))
  {
    var shown := Take(bids, DisplayCount);
    var rows := ProcessedBids(bids);
    forall i | 0 <= i < |rows| ensures rows[i].cumulativeQty == Some(TotalQuantity(bids[..i + 1])) {
      assert shown[..i + 1] == bids[..i + 1];
    }
    assert shown[..|shown|] == shown;
  }

  /** At most fifteen ask rows; row i is the (n-1-i)-th best ask with its
      price, quantity and order count; row 0, the deepest shown ask, carries
      only its own quantity, and the last row, the best ask, carries the total
      of all displayed asks. */
  lemma {:induction false} ProcessedAsksShape(asks: seq<Level>)
    ensures var rows := ProcessedAsks(asks);
      var n := |rows|;
      && n == (if |asks| <= DisplayCount then |asks| else DisplayCount)
      && (forall i :: 0 <= i < n ==>
            && rows[i].price == asks[n - 1 - i].price && rows[i].quantity == asks[n - 1 - i].quantity
            && rows[i].orderCount == asks[n - 1 - i].orderCount)
      && (n > 0 ==> rows[0].cumulativeQty == Some(asks[n - 1].quantity))
      && (n > 0 ==> rows[n - 1].cumulativeQty == Some(TotalQuantity(Take(asks, DisplayCount))))
  {
    var shown := Take(asks, DisplayCount);
    var data := Reverse(shown);
    var n := |data|;
    if n > 0 {
      assert data[0] == shown[n - 1] == asks[n - 1];
      assert data[..1] == [data[0]];
      assert [data[0]][1..] == [];
      assert TotalQuantity(data[..1]) == data[0].quantity;
      assert data[..n] == data;
      TotalQuantityReverse(shown);
    }
  }

  /** With positive levels, every row's cumulative quantity is at most
      the last row's. */
  lemma {:induction false} PrefixTotalsBoundedByLast(data: seq<Level>)
    requires PositiveLevels(data)
    ensures forall i :: 0 <= i < |data| ==>
      PrefixTotals(data)[i].cumulativeQty.value <= TotalQuantity(data)
  {
    forall i | 0 <= i < |data| ensures PrefixTotals(data)[i].cumulativeQty.value <= TotalQuantity(data) {
      PrefixBoundedByWhole(data, i + 1);
    }
  }

  lemma {:induction false} PrefixBoundedByWhole(data: seq<Level>, k: nat)
    requires PositiveLevels(data) && k <= |data|
    ensures TotalQuantity(data[..k]) <= TotalQuantity(data)
  {
    assert data == data[..k] + data[k..];
    TotalQuantityConcat(data[..k], data[k..]);
    forall l | l in data[k..] ensures l.quantity > 0 {
    }
    TotalQuantityNonNegative(data[k..]);
  }

  /** `x?.cumulativeQty || 0`: a missing row or a missing or zero total
      reads as 0. */
  function OrZero(c: Option<int>): (v: int)
    ensures c.None? ==> v == 0
    ensures c.Some? ==> v == c.value
  {
    if c.Some? then c.value else 0
  }

  function FirstTotal(rows: seq<Level>): (r: Option<int>) {
    if rows == [] then None else rows[0].cumulativeQty
  }

  function LastTotal(rows: seq<Level>): (r: Option<int>) {
    if rows == [] then None else rows[|rows| - 1].cumulativeQty
  }

  /** `maxTotal` (components/OrderBook.tsx:33-37): the largest of the first ask
      row's total, the last bid row's total and 1. */
  function MaxTotal(askRows: seq<Level>, bidRows: seq<Level>): (m: int)
    ensures m >= 1
    ensures m >= OrZero(FirstTotal(askRows)) && m >= OrZero(LastTotal(bidRows))
    ensures m == 1 || m == OrZero(FirstTotal(askRows)) || m == OrZero(LastTotal(bidRows))
  {
    var askTotal := OrZero(FirstTotal(askRows));
    var bidTotal := OrZero(LastTotal(bidRows));
    var larger := if askTotal >= bidTotal then askTotal else bidTotal;
    if larger >= 1 then larger else 1
  }

  /** As written, the scale can be smaller than an ask row's cumulative
      quantity: for asks 45001 x 5 and 45002 x 5 and no bids, the scale is 5
      (the deepest ask's own quantity) while the best-ask row carries 10, so
      its bar is drawn at 200% width. */
  lemma {:induction false} AskDepthOverflowsScale()
    ensures var asks := [Level(45001, 5, 1, None), Level(45002, 5, 1, None)];
      var rows := ProcessedAsks(asks);
      && |rows| == 2
      && rows[1].price == 45001
      && rows[1].cumulativeQty == Some(10)
      && MaxTotal(rows, ProcessedBids([])) == 5
  {
    var asks := [Level(45001, 5, 1, None), Level(45002, 5, 1, None)];
    ProcessedAsksShape(asks);
    var rows := ProcessedAsks(asks);
    var data := Reverse(Take(asks, DisplayCount));
    assert data == [asks[1], asks[0]];
    assert data[..2] == data;
    assert data[1..] == [asks[0]];
    assert rows[0].cumulativeQty == Some(5);
  }

  /** The ask ladder as evidently intended: the best fifteen asks accumulated
      from the best, then reversed so the deepest comes first. Row 0 then
      carries the total that `maxTotal` reads from it. */
  function ProcessedAsksFromBest(asks: seq<Level>): (r: seq<Level>) {
    Reverse(PrefixTotals(Take(asks, DisplayCount)))
  }

  /** The corrected ladder keeps the rows' order and levels, gives each row
      the depth from the best ask down to it, and puts the displayed total in
      row 0. */
  lemma {:induction false} ProcessedAsksFromBestShape(asks: seq<Level>)
    ensures var rows := ProcessedAsksFromBest(asks);
      var n := |rows|;
      && n == (if |asks| <= DisplayCount then |asks| else DisplayCount)
      && (forall i :: 0 <= i < n ==>
            && rows[i].price == asks[n - 1 - i].price && rows[i].quantity == asks[n - 1 - i].quantity
            && rows[i].orderCount == asks[n - 1 - i].orderCount
            && rows[i].cumulativeQty == Some(TotalQuantity(asks[..n - i])))
      && (n > 0 ==> rows[0].cumulativeQty == Some(TotalQuantity(Take(asks, DisplayCount))))
  {
    var shown := Take(asks, DisplayCount);
    var n := |shown|;
    var rows := ProcessedAsksFromBest(asks);
    forall i | 0 <= i < n ensures rows[i].cumulativeQty == Some(TotalQuantity(asks[..n - i])) {
      assert shown[..n - i] == asks[..n - i];
    }
    assert shown[..n] == shown;
  }

  /** With the corrected ladder and the positive levels the reducer keeps, no row of either
      side is wider than the scale. */
  lemma {:induction false} CorrectedRowsWithinScale(asks: seq<Level>, bids: seq<Level>)
    requires PositiveLevels(asks) && PositiveLevels(bids)
    ensures var askRows := ProcessedAsksFromBest(asks);
      var bidRows := ProcessedBids(bids);
      var m := MaxTotal(askRows, bidRows);
      && (forall r :: r in askRows ==> OrZero(r.cumulativeQty) <= m)
      && (forall r :: r in bidRows ==> OrZero(r.cumulativeQty) <= m)
  {
    var shownAsks := Take(asks, DisplayCount);
    var shownBids := Take(bids, DisplayCount);
    forall l | l in shownAsks ensures l.quantity > 0 {
    }
    forall l | l in shownBids ensures l.quantity > 0 {
    }
    PrefixTotalsBoundedByLast(shownAsks);
    PrefixTotalsBoundedByLast(shownBids);
    var askRows := ProcessedAsksFromBest(asks);
    var bidRows := ProcessedBids(bids);
    var m := MaxTotal(askRows, bidRows);
    var p := PrefixTotals(shownAsks);
    var n := |p|;
    if n > 0 {
      assert shownAsks[..n] == shownAsks;
      assert askRows[0] == p[n - 1];
    }
    forall r | r in askRows ensures OrZero(r.cumulativeQty) <= m {
      var i :| 0 <= i < |askRows| && askRows[i] == r;
      assert r == p[n - 1 - i];
    }
    var b := |bidRows|;
    if b > 0 {
      assert shownBids[..b] == shownBids;
    }
    forall r | r in bidRows ensures OrZero(r.cumulativeQty) <= m {
      var i :| 0 <= i < |bidRows| && bidRows[i] == r;
    }
  }

  /** The spread label (components/OrderBook.tsx:74): shown only when both
      sides are non-empty, as best ask minus best bid. */
  function Spread(bids: seq<Level>, asks: seq<Level>): (r: Option<int>)
    ensures r.Some? <==> bids != [] && asks != []
  {
    if |asks| > 0 && |bids| > 0 then Some(asks[0].price - bids[0].price) else None
  }

  /** On books the reducer keeps ordered, the spread is the narrowest gap
      between any ask and any bid, and that gap is attained. */
  lemma {:induction false} SpreadIsNarrowestGap(bids: seq<Level>, asks: seq<Level>)
    requires StrictlyOrdered(bids, Buy) && StrictlyOrdered(asks, Sell)
    requires bids != [] && asks != []
    ensures var s := Spread(bids, asks).value;
      && (forall a, b :: a in asks && b in bids ==> a.price - b.price >= s)
      && (exists a, b :: a in asks && b in bids && a.price - b.price == s)
  {
    var s := Spread(bids, asks).value;
    forall a, b | a in asks && b in bids ensures a.price - b.price >= s {
      var i :| 0 <= i < |asks| && asks[i] == a;
      var j :| 0 <= j < |bids| && bids[j] == b;
      if i > 0 {
        assert SortsBefore(asks[0], asks[i], Sell);
      }
      if j > 0 {
        assert SortsBefore(bids[0], bids[j], Buy);
      }
    }
    assert asks[0] in asks && bids[0] in bids;
  }

  /** The reducer never matches an added order against the other side, so the
      book can cross and the spread shown can be negative: a SELL at 100 and
      then a BUY at 200 on empty books show a spread of -100. */
  lemma {:induction false} CrossedBookSpread(state: MarketState)
    requires state.bids == [] && state.asks == []
    ensures var sell := MarketEvent(1, OrderAddedData("s1", Sell, 100, 1));
      var buy := MarketEvent(2, OrderAddedData("b1", Buy, 200, 1));
      var r := ProcessEvent(buy, ProcessEvent(sell, state));
      Spread(r.bids, r.asks) == Some(-100)
  {
    var x := Level(100, 1, 1, None);
    var y := Level(200, 1, 1, None);
    assert RaiseOrAppend([], 100, 1) == [x];
    assert RaiseOrAppend([], 200, 1) == [y];
    AddAtNewPrice([], Sell, 100, 1);
    AddAtNewPrice([], Buy, 200, 1);
  }
}
