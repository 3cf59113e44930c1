/** The event reducer of App.tsx (`processEvent`, App.tsx:46-130): one market
    event folded into one market state, copy-on-write, total over the tags. */
module Reducer {
  import opened Types

  /** Length cap of the trade tape and of the cancelled-order list. */
  const RecentCapacity: nat := 50

  // ---------------------------------------------------------------------------
  // Ordering of one side of the book

  /** The comparator of App.tsx:70 puts `a` strictly before `b`:
      bids by descending price, asks by ascending price. */
  predicate SortsBefore(a: Level, b: Level, side: OrderSide) {
    if side == Buy then a.price > b.price else a.price < b.price
  }

  /** Ordered as a sort with that comparator leaves a side: no level sorts
      strictly before an earlier one. */
  predicate Sorted(levels: seq<Level>, side: OrderSide) {
    forall i, j :: 0 <= i < j < |levels| ==> !SortsBefore(levels[j], levels[i], side)
  }

  /** The book invariant: every level sorts strictly before every later one,
      so a side is sorted and holds at most one level per price. */
  predicate StrictlyOrdered(levels: seq<Level>, side: OrderSide) {
    forall i, j :: 0 <= i < j < |levels| ==> SortsBefore(levels[i], levels[j], side)
  }

  /** Stable insertion: `x` goes in front of the first level of `t` that does
      not sort strictly before it. */
  function InsertLevel(x: Level, t: seq<Level>, side: OrderSide): (r: seq<Level>)
    ensures multiset(r) == multiset(t) + multiset{x}
  {
    if t == [] || !SortsBefore(t[0], x, side) then [x] + t
    else
      assert t == [t[0]] + t[1..];
      [t[0]] + InsertLevel(x, t[1..], side)
  }

  /** Insertion adds `x` and nothing else. */
  lemma {:induction false} InsertLevelMembers(x: Level, t: seq<Level>, side: OrderSide)
    ensures forall y :: y in InsertLevel(x, t, side) ==> y == x || y in t
  {
    var r := InsertLevel(x, t, side);
    forall y | y in r ensures y == x || y in t {
      assert y in multiset(r);
    }
  }

  /** A level that no level of a sorted side sorts strictly before can lead
      it. */
  lemma {:induction false} SortedCons(a: Level, rest: seq<Level>, side: OrderSide)
    requires Sorted(rest, side)
    requires forall k :: 0 <= k < |rest| ==> !SortsBefore(rest[k], a, side)
    ensures Sorted([a] + rest, side)
  {
    var r := [a] + rest;
    forall i, j | 0 <= i < j < |r| ensures !SortsBefore(r[j], r[i], side) {
      assert r[j] == rest[j - 1];
      if i > 0 {
        assert r[i] == rest[i - 1];
      }
    }
  }

  /** Insertion into a sorted side leaves it sorted. */
  lemma {:induction false} InsertLevelSorted(x: Level, t: seq<Level>, side: OrderSide)
    requires Sorted(t, side)
    ensures Sorted(InsertLevel(x, t, side), side)
  {
    if t == [] || !SortsBefore(t[0], x, side) {
      forall k | 0 <= k < |t| ensures !SortsBefore(t[k], x, side) {
        if k > 0 {
          assert !SortsBefore(t[k], t[0], side);
        }
      }
      SortedCons(x, t, side);
    } else {
      var rest := InsertLevel(x, t[1..], side);
      assert Sorted(t[1..], side) by {
        forall i, j | 0 <= i < j < |t[1..]| ensures !SortsBefore(t[1..][j], t[1..][i], side) {
          assert t[1..][j] == t[j + 1] && t[1..][i] == t[i + 1];
        }
      }
      InsertLevelSorted(x, t[1..], side);
      InsertLevelMembers(x, t[1..], side);
      forall k | 0 <= k < |rest| ensures !SortsBefore(rest[k], t[0], side) {
        assert rest[k] in rest;
        if rest[k] != x {
          var m :| 1 <= m < |t| && t[m] == rest[k];
        }
      }
      SortedCons(t[0], rest, side);
    }
  }

  /** `Array.prototype.sort` with the comparator of App.tsx:70, which is
      stable: a stable insertion sort. */
  function SortLevels(levels: seq<Level>, side: OrderSide): (r: seq<Level>)
    ensures multiset(r) == multiset(levels)
  {
    if levels == [] then []
    else
      assert levels == [levels[0]] + levels[1..];
      InsertLevel(levels[0], SortLevels(levels[1..], side), side)
  }

  /** The sort's result is ordered by the comparator. */
  lemma {:induction false} SortLevelsSorted(levels: seq<Level>, side: OrderSide)
    ensures Sorted(SortLevels(levels, side), side)
  {
    if levels != [] {
      SortLevelsSorted(levels[1..], side);
      InsertLevelSorted(levels[0], SortLevels(levels[1..], side), side);
    }
  }

  /** Sorting a side that is already sorted leaves it as it is. */
  lemma {:induction false} SortSortedIsIdentity(levels: seq<Level>, side: OrderSide)
    requires Sorted(levels, side)
    ensures SortLevels(levels, side) == levels
  {
    if levels != [] {
      SortSortedIsIdentity(levels[1..], side);
      assert levels == [levels[0]] + levels[1..];
    }
  }

  /** How many leading levels of `t` sort strictly before `x`. */
  function InsertIndex(x: Level, t: seq<Level>, side: OrderSide): (k: nat)
    ensures k <= |t|
  {
    if t == [] || !SortsBefore(t[0], x, side) then 0 else 1 + InsertIndex(x, t[1..], side)
  }

  /** Insertion splices `x` in at InsertIndex and moves nothing else. */
  lemma {:induction false} InsertLevelSplits(x: Level, t: seq<Level>, side: OrderSide)
    ensures var k := InsertIndex(x, t, side);
      && InsertLevel(x, t, side) == t[..k] + [x] + t[k..]
  {
    if t == [] || !SortsBefore(t[0], x, side) {
      assert InsertIndex(x, t, side) == 0;
      assert t[..0] == [] && t[0..] == t;
    } else {
      var t' := t[1..];
      InsertLevelSplits(x, t', side);
      var k := InsertIndex(x, t', side);
      assert t == [t[0]] + t';
      ConsSplice(t[0], t', k, x);
    }
  }

  /** Splicing into the tail of a sequence is splicing one place further
      into the whole. */
  lemma ConsSplice<T>(a: T, u: seq<T>, k: nat, x: T)
    requires k <= |u|
    ensures [a] + (u[..k] + [x] + u[k..]) == ([a] + u)[..k + 1] + [x] + ([a] + u)[k + 1..]
  {
    assert ([a] + u)[..k + 1] == [a] + u[..k];
    assert ([a] + u)[k + 1..] == u[k..];
  }

  /** Every level before InsertIndex sorts strictly before `x`; the one at it
      does not. */
  lemma {:induction false} InsertIndexSeparates(x: Level, t: seq<Level>, side: OrderSide)
    ensures var k := InsertIndex(x, t, side);
      && (forall i :: 0 <= i < k ==> SortsBefore(t[i], x, side))
      && (k < |t| ==> !SortsBefore(t[k], x, side))
  {
    if t != [] && SortsBefore(t[0], x, side) {
      var t' := t[1..];
      InsertIndexSeparates(x, t', side);
      var k := InsertIndex(x, t', side);
      forall i | 0 <= i < k + 1 ensures SortsBefore(t[i], x, side) {
        if i > 0 {
          assert t[i] == t'[i - 1];
        }
      }
      if k + 1 < |t| {
        assert t[k + 1] == t'[k];
      }
    }
  }

  /** No level of `levels` has this price. */
  predicate PriceAbsent(levels: seq<Level>, price: int) {
    forall i :: 0 <= i < |levels| ==> levels[i].price != price
  }

  /** Inserting a level at a fresh price into a strictly ordered side keeps it
      strictly ordered. */
  lemma {:induction false} InsertFreshKeepsOrder(x: Level, t: seq<Level>, side: OrderSide)
    requires StrictlyOrdered(t, side) && PriceAbsent(t, x.price)
    ensures StrictlyOrdered(InsertLevel(x, t, side), side)
  {
    InsertLevelSplits(x, t, side);
    InsertIndexSeparates(x, t, side);
    var k := InsertIndex(x, t, side);
    var r := InsertLevel(x, t, side);
    if k < |t| {
      assert !SortsBefore(t[k], x, side);
      assert t[k].price != x.price;
      assert SortsBefore(x, t[k], side);
    }
    forall i, j | 0 <= i < j < |r| ensures SortsBefore(r[i], r[j], side) {
      if j < k {
        assert r[i] == t[i] && r[j] == t[j];
      } else if j == k {
        assert r[i] == t[i] && r[j] == x;
      } else if i < k {
        assert r[i] == t[i] && r[j] == t[j - 1];
        assert SortsBefore(t[i], x, side);
      } else if i == k {
        assert r[i] == x && r[j] == t[j - 1];
        assert j - 1 == k || SortsBefore(t[k], t[j - 1], side);
      } else {
        assert r[i] == t[i - 1] && r[j] == t[j - 1];
      }
    }
  }

  /** The first level after an insertion is `x` or the first level of `t`. */
  lemma {:induction false} InsertLevelHead(x: Level, t: seq<Level>, side: OrderSide)
    ensures var r := InsertLevel(x, t, side);
      r != [] && (r[0] == x || (t != [] && r[0] == t[0]))
  {
  }

  /** Sorting a strictly ordered side with one fresh-price level appended is
      inserting that level in its place. */
  lemma {:induction false} SortAppendFresh(s: seq<Level>, x: Level, side: OrderSide)
    requires StrictlyOrdered(s, side) && PriceAbsent(s, x.price)
    ensures SortLevels(s + [x], side) == InsertLevel(x, s, side)
  {
    if s == [] {
      assert [] + [x] == [x];
      assert [x][1..] == [];
    } else {
      var s' := s[1..];
      assert (s + [x])[1..] == s' + [x];
      assert (s + [x])[0] == s[0];
      assert StrictlyOrdered(s', side) by {
        forall i, j | 0 <= i < j < |s'| ensures SortsBefore(s'[i], s'[j], side) {
          assert s'[i] == s[i + 1] && s'[j] == s[j + 1];
        }
      }
      assert PriceAbsent(s', x.price) by {
        forall i | 0 <= i < |s'| ensures s'[i].price != x.price {
          assert s'[i] == s[i + 1];
        }
      }
      SortAppendFresh(s', x, side);
      var u := InsertLevel(x, s', side);
      assert SortLevels(s + [x], side) == InsertLevel(s[0], u, side);
      assert s[0].price != x.price;
      if SortsBefore(s[0], x, side) {
        SortAppendBehind(s, x, side, u);
      } else {
        SortAppendAhead(s, x, side, u);
      }
    }
  }

  lemma {:induction false} SortAppendBehind(s: seq<Level>, x: Level, side: OrderSide, u: seq<Level>)
    requires StrictlyOrdered(s, side) && s != [] && SortsBefore(s[0], x, side)
    requires u == InsertLevel(x, s[1..], side)
    ensures InsertLevel(s[0], u, side) == InsertLevel(x, s, side)
  {
    InsertLevelHead(x, s[1..], side);
    if u[0] != x {
      assert u[0] == s[1];
    }
    assert !SortsBefore(u[0], s[0], side);
  }

  lemma {:induction false} SortAppendAhead(s: seq<Level>, x: Level, side: OrderSide, u: seq<Level>)
    requires StrictlyOrdered(s, side) && s != [] && !SortsBefore(s[0], x, side) && s[0].price != x.price
    requires u == InsertLevel(x, s[1..], side)
    ensures InsertLevel(s[0], u, side) == InsertLevel(x, s, side)
  {
    var s' := s[1..];
    assert SortsBefore(x, s[0], side);
    if s' != [] {
      assert SortsBefore(s[0], s'[0], side);
      assert !SortsBefore(s'[0], x, side);
    }
    assert u == [x] + s';
    assert InsertLevel(s[0], s', side) == [s[0]] + s';
    assert s == [s[0]] + s';
  }

  // ---------------------------------------------------------------------------
  // Finding levels and orders

  /** `levels.findIndex(l => l.price === price)`: the first level at that
      price, or -1. */
  function FindLevelIndex(levels: seq<Level>, price: int): (i: int)
    ensures -1 <= i < |levels|
    ensures i >= 0 ==> levels[i].price == price && PriceAbsent(levels[..i], price)
    ensures i == -1 ==> PriceAbsent(levels, price)
  {
    if levels == [] then -1
    else if levels[0].price == price then 0
    else
      var k := FindLevelIndex(levels[1..], price);
      if k == -1 then -1
      else
        assert levels[..k + 1] == [levels[0]] + levels[1..][..k];
        k + 1
  }

  /** `orders.find(o => o.id === id)`, as the index of the first match, or -1. */
  function FindOrderIndex(orders: seq<Order>, id: string): (i: int)
    ensures -1 <= i < |orders|
    ensures i >= 0 ==> orders[i].id == id && forall k :: 0 <= k < i ==> orders[k].id != id
    ensures i == -1 ==> forall k :: 0 <= k < |orders| ==> orders[k].id != id
  {
    if orders == [] then -1
    else if orders[0].id == id then 0
    else
      var k := FindOrderIndex(orders[1..], id);
      if k == -1 then -1 else k + 1
  }

  /** `orders.filter(o => o.id !== id)`. */
  function WithoutId(orders: seq<Order>, id: string): (r: seq<Order>)
    ensures forall o :: o in r <==> o in orders && o.id != id
    ensures |r| <= |orders|
  {
    if orders == [] then []
    else if orders[0].id == id then WithoutId(orders[1..], id)
    else [orders[0]] + WithoutId(orders[1..], id)
  }

  // ---------------------------------------------------------------------------
  // The three handled events, one side of the book at a time

  /** The level at `price` raised by `quantity` and one order, or a new
      level `{price, quantity, 1}` appended (App.tsx:59-69). */
  function RaiseOrAppend(levels: seq<Level>, price: int, quantity: int): (r: seq<Level>) {
    var i := FindLevelIndex(levels, price);
    if i > -1 then
      levels[i := levels[i].(quantity := levels[i].quantity + quantity, orderCount := levels[i].orderCount + 1)]
    else
      levels + [Level(price, quantity, 1, None)]
  }

  /** ORDER_ADDED on its own side (App.tsx:58-70): raise or append, then sort
      the side. */
  function AddToSide(levels: seq<Level>, side: OrderSide, price: int, quantity: int): (r: seq<Level>) {
    SortLevels(RaiseOrAppend(levels, price, quantity), side)
  }

  /** On a strictly ordered side, an added order raises the level at its price
      by its quantity and one order, or inserts a new level `{price, q, 1}` in
      its place; either way the side stays strictly ordered and its total
      grows by exactly `quantity`. */
  lemma {:induction false} AddToSideKeepsBook(levels: seq<Level>, side: OrderSide, price: int, quantity: int)
    requires StrictlyOrdered(levels, side)
    ensures var r := AddToSide(levels, side, price, quantity);
      && StrictlyOrdered(r, side)
      && TotalQuantity(r) == TotalQuantity(levels) + quantity
      && (FindLevelIndex(levels, price) >= 0 ==>
            var i := FindLevelIndex(levels, price);
            r == levels[i := levels[i].(quantity := levels[i].quantity + quantity, orderCount := levels[i].orderCount + 1)])
      && (FindLevelIndex(levels, price) == -1 ==>
            var k := InsertIndex(Level(price, quantity, 1, None), levels, side);
            r == levels[..k] + [Level(price, quantity, 1, None)] + levels[k..])
  {
    var i := FindLevelIndex(levels, price);
    var r := AddToSide(levels, side, price, quantity);
    if i >= 0 {
      AddAtExistingPrice(levels, side, price, quantity, i);
      var bumped := levels[i].(quantity := levels[i].quantity + quantity, orderCount := levels[i].orderCount + 1);
      assert r == levels[i := bumped];
    } else {
      AddAtNewPrice(levels, side, price, quantity);
      var x := Level(price, quantity, 1, None);
      assert r == levels[..InsertIndex(x, levels, side)] + [x] + levels[InsertIndex(x, levels, side)..];
    }
  }

  lemma {:induction false} AddAtExistingPrice(levels: seq<Level>, side: OrderSide, price: int, quantity: int, i: nat)
    requires StrictlyOrdered(levels, side)
    requires i == FindLevelIndex(levels, price)
    ensures var bumped := levels[i].(quantity := levels[i].quantity + quantity, orderCount := levels[i].orderCount + 1);
      var r := AddToSide(levels, side, price, quantity);
      && r == levels[i := bumped]
      && StrictlyOrdered(r, side)
      && TotalQuantity(r) == TotalQuantity(levels) + quantity
  {
    var bumped := levels[i].(quantity := levels[i].quantity + quantity, orderCount := levels[i].orderCount + 1);
    var updated := levels[i := bumped];
    assert RaiseOrAppend(levels, price, quantity) == updated;
    SamePriceKeepsOrder(levels, i, bumped, side);
    SortStrictlyOrderedIsIdentity(updated, side);
    TotalQuantityUpdate(levels, i, bumped);
  }

  lemma {:induction false} AddAtNewPrice(levels: seq<Level>, side: OrderSide, price: int, quantity: int)
    requires StrictlyOrdered(levels, side)
    requires FindLevelIndex(levels, price) == -1
    ensures var x := Level(price, quantity, 1, None);
      var k := InsertIndex(x, levels, side);
      var r := AddToSide(levels, side, price, quantity);
      && r == levels[..k] + [x] + levels[k..]
      && StrictlyOrdered(r, side)
      && TotalQuantity(r) == TotalQuantity(levels) + quantity
  {
    var x := Level(price, quantity, 1, None);
    assert RaiseOrAppend(levels, price, quantity) == levels + [x];
    SortAppendFresh(levels, x, side);
    InsertFreshKeepsOrder(x, levels, side);
    InsertLevelSplits(x, levels, side);
    TotalQuantityInsert(levels, InsertIndex(x, levels, side), x);
  }

  lemma {:induction false} SortStrictlyOrderedIsIdentity(levels: seq<Level>, side: OrderSide)
    requires StrictlyOrdered(levels, side)
    ensures SortLevels(levels, side) == levels
  {
    StrictlyOrderedIsSorted(levels, side);
    SortSortedIsIdentity(levels, side);
  }

  lemma {:induction false} StrictlyOrderedIsSorted(levels: seq<Level>, side: OrderSide)
    requires StrictlyOrdered(levels, side)
    ensures Sorted(levels, side)
  {
    forall i, j | 0 <= i < j < |levels| ensures !SortsBefore(levels[j], levels[i], side) {
      assert SortsBefore(levels[i], levels[j], side);
    }
  }

  /** Replacing a level by one at the same price keeps a side strictly ordered. */
  lemma {:induction false} SamePriceKeepsOrder(levels: seq<Level>, i: nat, y: Level, side: OrderSide)
    requires i < |levels| && y.price == levels[i].price
    requires StrictlyOrdered(levels, side)
    ensures StrictlyOrdered(levels[i := y], side)
  {
    var u := levels[i := y];
    forall a, b | 0 <= a < b < |u| ensures SortsBefore(u[a], u[b], side) {
      assert SortsBefore(levels[a], levels[b], side);
    }
  }

  lemma {:induction false} TotalQuantityUpdate(levels: seq<Level>, i: nat, y: Level)
    requires i < |levels|
    ensures TotalQuantity(levels[i := y]) == TotalQuantity(levels) - levels[i].quantity + y.quantity
  {
    if i > 0 {
      TotalQuantityUpdate(levels[1..], i - 1, y);
      assert levels[i := y][1..] == levels[1..][i - 1 := y];
    }
  }

  lemma {:induction false} TotalQuantityRemove(levels: seq<Level>, i: nat)
    requires i < |levels|
    ensures TotalQuantity(levels[..i] + levels[i + 1..]) == TotalQuantity(levels) - levels[i].quantity
  {
    assert levels == levels[..i] + ([levels[i]] + levels[i + 1..]);
    TotalQuantityConcat(levels[..i], [levels[i]] + levels[i + 1..]);
    TotalQuantityConcat(levels[..i], levels[i + 1..]);
    TotalQuantityConcat([levels[i]], levels[i + 1..]);
  }

  lemma {:induction false} TotalQuantityInsert(levels: seq<Level>, k: nat, x: Level)
    requires k <= |levels|
    ensures TotalQuantity(levels[..k] + [x] + levels[k..]) == TotalQuantity(levels) + x.quantity
  {
    assert levels == levels[..k] + levels[k..];
    assert levels[..k] + [x] + levels[k..] == levels[..k] + ([x] + levels[k..]);
    TotalQuantityConcat(levels[..k], levels[k..]);
    TotalQuantityConcat(levels[..k], [x] + levels[k..]);
    TotalQuantityConcat([x], levels[k..]);
  }

  /** ORDER_CANCELLED on the cancelled order's side (App.tsx:79-94): the level
      at its price loses `remainingQty`, and is spliced out when nothing
      positive is left, otherwise keeps the rest and one order fewer. */
  function RemoveFromSide(levels: seq<Level>, price: int, remainingQty: int): (r: seq<Level>) {
    var i := FindLevelIndex(levels, price);
    if i > -1 then
      var newQty := levels[i].quantity - remainingQty;
      if newQty <= 0 then levels[..i] + levels[i + 1..]
      else levels[i := levels[i].(quantity := newQty, orderCount := levels[i].orderCount - 1)]
    else levels
  }

  /** Cancelling never reorders a side: with no level at the price the side is
      unchanged, otherwise exactly that level is removed or reduced while every
      other level keeps its value and relative order; a strictly ordered side
      stays strictly ordered. */
  lemma {:induction false} RemoveFromSideKeepsBook(levels: seq<Level>, price: int, remainingQty: int, side: OrderSide)
    ensures var r := RemoveFromSide(levels, price, remainingQty);
      var i := FindLevelIndex(levels, price);
      && (i == -1 ==> r == levels)
      && (i >= 0 && levels[i].quantity - remainingQty <= 0 ==>
            r == levels[..i] + levels[i + 1..] && TotalQuantity(r) == TotalQuantity(levels) - levels[i].quantity)
      && (i >= 0 && levels[i].quantity - remainingQty > 0 ==>
            |r| == |levels| && r[..i] == levels[..i] && r[i + 1..] == levels[i + 1..]
            && r[i].price == price && r[i].quantity == levels[i].quantity - remainingQty
            && r[i].orderCount == levels[i].orderCount - 1
            && TotalQuantity(r) == TotalQuantity(levels) - remainingQty)
      && (StrictlyOrdered(levels, side) ==> StrictlyOrdered(r, side))
  {
    var i := FindLevelIndex(levels, price);
    if i >= 0 {
      var newQty := levels[i].quantity - remainingQty;
      if newQty <= 0 {
        TotalQuantityRemove(levels, i);
        if StrictlyOrdered(levels, side) {
          SpliceKeepsOrder(levels, i, side);
        }
      } else {
        var reduced := levels[i].(quantity := newQty, orderCount := levels[i].orderCount - 1);
        TotalQuantityUpdate(levels, i, reduced);
        if StrictlyOrdered(levels, side) {
          SamePriceKeepsOrder(levels, i, reduced, side);
        }
        var r := levels[i := reduced];
        assert r[..i] == levels[..i];
        assert r[i + 1..] == levels[i + 1..];
      }
    }
  }

  /** Splicing one level out keeps a side strictly ordered. */
  lemma {:induction false} SpliceKeepsOrder(levels: seq<Level>, i: nat, side: OrderSide)
    requires i < |levels| && StrictlyOrdered(levels, side)
    ensures StrictlyOrdered(levels[..i] + levels[i + 1..], side)
  {
    var r := levels[..i] + levels[i + 1..];
    forall a, b | 0 <= a < b < |r| ensures SortsBefore(r[a], r[b], side) {
      var a' := if a < i then a else a + 1;
      var b' := if b < i then b else b + 1;
      assert r[a] == levels[a'] && r[b] == levels[b'];
    }
  }

  /** The greedy fill of App.tsx:113-123 as a function: consume the best level
      while it fits in what is left to fill, then reduce the next one. */
  function Consume(levels: seq<Level>, remainingToFill: int): (r: seq<Level>)
    decreases |levels|
  {
    if remainingToFill <= 0 || levels == [] then levels
    else if levels[0].quantity <= remainingToFill then Consume(levels[1..], remainingToFill - levels[0].quantity)
    else [levels[0].(quantity := levels[0].quantity - remainingToFill)] + levels[1..]
  }

  /** The fill loop of App.tsx:113-123 on the copied side: `shift` the best
      level while it fits, or reduce it in place and stop. */
  method ConsumeFromTop(book: seq<Level>, quantity: int) returns (levels: seq<Level>)
    ensures levels == Consume(book, quantity)
  {
    levels := book;
    if |levels| > 0 {
      var remainingToFill := quantity;
      while remainingToFill > 0 && |levels| > 0
        invariant Consume(levels, remainingToFill) == Consume(book, quantity)
        decreases |levels| + (if remainingToFill > 0 then 1 else 0)
      {
        if levels[0].quantity <= remainingToFill {
          remainingToFill := remainingToFill - levels[0].quantity;
          levels := levels[1..];
        } else {
          var reduced := levels[0].(quantity := levels[0].quantity - remainingToFill);
          assert levels[0 := reduced] == [reduced] + levels[1..];
          levels := levels[0 := reduced];
          remainingToFill := 0;
        }
      }
    }
  }

  /** The fill takes the book from the top: what is left is a suffix of the
      side, except that its first level may be partially consumed, and then to
      a strictly positive quantity below the original; a non-positive fill
      changes nothing. */
  lemma {:induction false} ConsumeTakesFromTop(levels: seq<Level>, remainingToFill: int)
    ensures var r := Consume(levels, remainingToFill);
      var d := |levels| - |r|;
      && |r| <= |levels|
      && (remainingToFill <= 0 ==> r == levels)
      && (r != [] ==>
            && r[1..] == levels[d + 1..]
            && r[0].(quantity := levels[d].quantity) == levels[d]
            && (r[0] == levels[d] || 0 < r[0].quantity < levels[d].quantity))
    decreases |levels|
  {
    if remainingToFill > 0 && levels != [] && levels[0].quantity <= remainingToFill {
      ConsumeTakesFromTop(levels[1..], remainingToFill - levels[0].quantity);
    }
  }

  /** Fill conservation: on a side whose levels all hold positive quantities, a
      fill of q >= 0 takes exactly min(q, side total) off the side. */
  lemma {:induction false} ConsumeRemovesFill(levels: seq<Level>, remainingToFill: int)
    requires remainingToFill >= 0
    requires PositiveLevels(levels)
    ensures var total := TotalQuantity(levels);
      TotalQuantity(Consume(levels, remainingToFill)) == total - (if remainingToFill < total then remainingToFill else total)
    decreases |levels|
  {
    if remainingToFill > 0 && levels != [] {
      if levels[0].quantity <= remainingToFill {
        ConsumeRemovesFill(levels[1..], remainingToFill - levels[0].quantity);
      } else {
        TotalQuantityNonNegative(levels[1..]);
      }
    } else if levels != [] {
      TotalQuantityNonNegative(levels);
    }
  }

  /** Every level holds a strictly positive quantity. */
  predicate PositiveLevels(levels: seq<Level>) {
    forall l :: l in levels ==> l.quantity > 0
  }

  lemma {:induction false} TotalQuantityNonNegative(levels: seq<Level>)
    requires PositiveLevels(levels)
    ensures TotalQuantity(levels) >= 0
  {
    if levels != [] {
      TotalQuantityNonNegative(levels[1..]);
    }
  }

  /** The fill keeps a strictly ordered side strictly ordered, and a side of
      positive levels positive. */
  lemma {:induction false} ConsumeKeepsBook(levels: seq<Level>, remainingToFill: int, side: OrderSide)
    ensures StrictlyOrdered(levels, side) ==> StrictlyOrdered(Consume(levels, remainingToFill), side)
    ensures PositiveLevels(levels) ==> PositiveLevels(Consume(levels, remainingToFill))
  {
    ConsumeTakesFromTop(levels, remainingToFill);
    var r := Consume(levels, remainingToFill);
    var d := |levels| - |r|;
    forall i | 0 <= i < |r| ensures r[i].price == levels[d + i].price && (i > 0 ==> r[i] == levels[d + i]) {
      if i > 0 {
        assert r[i] == r[1..][i - 1];
      } else {
        assert r[0].(quantity := levels[d].quantity).price == r[0].price;
      }
    }
    if StrictlyOrdered(levels, side) {
      forall a, b | 0 <= a < b < |r| ensures SortsBefore(r[a], r[b], side) {
        assert SortsBefore(levels[d + a], levels[d + b], side);
      }
    }
    if PositiveLevels(levels) {
      forall l | l in r ensures l.quantity > 0 {
        var i :| 0 <= i < |r| && r[i] == l;
        assert levels[d + i] in levels;
      }
    }
  }

  // ---------------------------------------------------------------------------
  // The reducer

  /** ORDER_ADDED (App.tsx:50-71), on a state whose timestamp is already the
      event's. */
  function ApplyOrderAdded(s: MarketState, id: string, side: OrderSide, price: int, quantity: int): (r: MarketState)
    ensures r.activeOrders == s.activeOrders + [Order(id, side, price, quantity, quantity, s.timestamp, Active)]
    ensures r.Book(side) == AddToSide(s.Book(side), side, price, quantity)
    ensures r.Book(side.Opposite()) == s.Book(side.Opposite())
    ensures r.trades == s.trades && r.cancelledOrders == s.cancelledOrders && r.completedOrders == s.completedOrders
    ensures r.lastPrice == s.lastPrice && r.timestamp == s.timestamp
  {
    var withOrder := s.(activeOrders := s.activeOrders + [Order(id, side, price, quantity, quantity, s.timestamp, Active)]);
    withOrder.WithBook(side, AddToSide(s.Book(side), side, price, quantity))
  }

  /** ORDER_CANCELLED (App.tsx:73-97), on a state whose timestamp is already
      the event's. */
  function ApplyOrderCancelled(s: MarketState, orderId: string): (r: MarketState)
    ensures FindOrderIndex(s.activeOrders, orderId) == -1 ==> r == s
    ensures FindOrderIndex(s.activeOrders, orderId) >= 0 ==>
      var order := s.activeOrders[FindOrderIndex(s.activeOrders, orderId)];
      && r.activeOrders == WithoutId(s.activeOrders, orderId)
      && r.cancelledOrders == Take([order.(status := Cancelled)] + s.cancelledOrders, RecentCapacity)
      && r.Book(order.side) == RemoveFromSide(s.Book(order.side), order.price, order.remainingQty)
      && r.Book(order.side.Opposite()) == s.Book(order.side.Opposite())
      && r.trades == s.trades && r.completedOrders == s.completedOrders
      && r.lastPrice == s.lastPrice && r.timestamp == s.timestamp
  {
    var i := FindOrderIndex(s.activeOrders, orderId);
    if i == -1 then s
    else
      var order := s.activeOrders[i];
      var s' := s.(
        activeOrders := WithoutId(s.activeOrders, order.id),
        cancelledOrders := Take([order.(status := Cancelled)] + s.cancelledOrders, RecentCapacity));
      s'.WithBook(order.side, RemoveFromSide(s.Book(order.side), order.price, order.remainingQty))
  }

  /** ORDER_MATCHED (App.tsx:98-127), on a state whose timestamp is already the
      event's. */
  function ApplyOrderMatched(s: MarketState, price: int, quantity: int, side: OrderSide, tradeId: string): (r: MarketState)
    ensures r.lastPrice == price
    ensures r.trades == Take([Trade(tradeId, s.timestamp, price, quantity, side)] + s.trades, RecentCapacity)
    ensures r.Book(side.Opposite()) == Consume(s.Book(side.Opposite()), quantity)
    ensures r.Book(side) == s.Book(side)
    ensures r.activeOrders == s.activeOrders && r.cancelledOrders == s.cancelledOrders
    ensures r.completedOrders == s.completedOrders && r.timestamp == s.timestamp
  {
    var s' := s.(
      lastPrice := price,
      trades := Take([Trade(tradeId, s.timestamp, price, quantity, side)] + s.trades, RecentCapacity));
    var opposite := side.Opposite();
    if |s.Book(opposite)| > 0 then s'.WithBook(opposite, Consume(s.Book(opposite), quantity)) else s'
  }

  /** `processEvent` (App.tsx:46-130). */
  function ProcessEvent(event: MarketEvent, state: MarketState): (r: MarketState)
    ensures r.timestamp == event.timestamp
    ensures r.completedOrders == state.completedOrders
    ensures event.Type() == TradeExecuted || event.Type() == BookSnapshot ==>
      r == state.(timestamp := event.timestamp)
  {
    var s := state.(timestamp := event.timestamp);
    match event.data
    case OrderAddedData(id, side, price, quantity) => ApplyOrderAdded(s, id, side, price, quantity)
    case OrderCancelledData(orderId) => ApplyOrderCancelled(s, orderId)
    case OrderMatchedData(price, quantity, side, tradeId) => ApplyOrderMatched(s, price, quantity, side, tradeId)
    case TradeExecutedData => s
    case BookSnapshotData => s
  }

  // ---------------------------------------------------------------------------
  // Properties of one step

  /** ORDER_ADDED appends exactly one ACTIVE order with originalQty =
      remainingQty = quantity, and leaves the other side, the tape, the
      cancelled list and the last price alone. */
  lemma {:induction false} OrderAddedAppendsOneOrder(event: MarketEvent, state: MarketState)
    requires event.data.OrderAddedData?
    ensures var r := ProcessEvent(event, state);
      var d := event.data;
      && |r.activeOrders| == |state.activeOrders| + 1
      && r.activeOrders[..|state.activeOrders|] == state.activeOrders
      && r.activeOrders[|state.activeOrders|] == Order(d.id, d.side, d.price, d.quantity, d.quantity, event.timestamp, Active)
      && r.Book(d.side.Opposite()) == state.Book(d.side.Opposite())
      && r.trades == state.trades && r.cancelledOrders == state.cancelledOrders
      && r.lastPrice == state.lastPrice
  {
    var r := ProcessEvent(event, state);
    assert r.activeOrders[..|state.activeOrders|] == state.activeOrders;
  }

  /** Cancelling an id that no active order has changes nothing but the
      timestamp. */
  lemma {:induction false} CancelUnknownIsNoOp(event: MarketEvent, state: MarketState)
    requires event.data.OrderCancelledData?
    requires forall o :: o in state.activeOrders ==> o.id != event.data.orderId
    ensures ProcessEvent(event, state) == state.(timestamp := event.timestamp)
  {
    forall k | 0 <= k < |state.activeOrders| ensures state.activeOrders[k].id != event.data.orderId {
      assert state.activeOrders[k] in state.activeOrders;
    }
  }

  /** Cancelling a present id removes every active order with that id (the
      source filters), keeps every other one, and puts one CANCELLED copy of
      the first match at the head of the cancelled list, whose length becomes
      min(old + 1, 50). */
  lemma {:induction false} CancelRemovesOrder(event: MarketEvent, state: MarketState)
    requires event.data.OrderCancelledData?
    requires exists o :: o in state.activeOrders && o.id == event.data.orderId
    ensures var r := ProcessEvent(event, state);
      var id := event.data.orderId;
      var first := state.activeOrders[FindOrderIndex(state.activeOrders, id)];
      && first.id == id
      && (forall o :: o in r.activeOrders <==> o in state.activeOrders && o.id != id)
      && |r.activeOrders| < |state.activeOrders|
      && |r.cancelledOrders| == (if |state.cancelledOrders| + 1 <= RecentCapacity then |state.cancelledOrders| + 1 else RecentCapacity)
      && r.cancelledOrders[0] == first.(status := Cancelled)
      && r.cancelledOrders[1..] == state.cancelledOrders[..|r.cancelledOrders| - 1]
  {
    var id := event.data.orderId;
    var s := state.(timestamp := event.timestamp);
    assert ProcessEvent(event, state) == ApplyOrderCancelled(s, id);
    var o :| o in state.activeOrders && o.id == id;
    var i := FindOrderIndex(state.activeOrders, id);
    assert i >= 0;
    WithoutIdShrinks(state.activeOrders, id);
    TakeCons(state.activeOrders[i].(status := Cancelled), state.cancelledOrders, RecentCapacity);
  }

  /** Filtering out an id some order has makes the list strictly shorter. */
  /** On one order, `filter` keeps it exactly when its id differs. */
  lemma {:induction false} WithoutIdSingle(o: Order, id: string)
    ensures WithoutId([o], id) == if o.id == id then [] else [o]
  {
    assert [o][1..] == [];
  }

  /** `filter` works element by element: filtering a concatenation filters
      each part and keeps them in order. With WithoutIdSingle this fixes the
      result exactly: the surviving orders, in their order, duplicates
      included. */
  lemma {:induction false} WithoutIdAppend(a: seq<Order>, b: seq<Order>, id: string)
    ensures WithoutId(a + b, id) == WithoutId(a, id) + WithoutId(b, id)
    decreases |a|
  {
    if a == [] {
      assert a + b == b;
    } else {
      assert (a + b)[0] == a[0];
      assert (a + b)[1..] == a[1..] + b;
      WithoutIdAppend(a[1..], b, id);
    }
  }

  lemma {:induction false} WithoutIdShrinks(orders: seq<Order>, id: string)
    requires exists o :: o in orders && o.id == id
    ensures |WithoutId(orders, id)| < |orders|
  {
    if orders[0].id != id {
      var o :| o in orders && o.id == id;
      assert o in orders[1..];
      WithoutIdShrinks(orders[1..], id);
    } else {
      assert |WithoutId(orders[1..], id)| <= |orders[1..]|;
    }
  }

  /** ORDER_MATCHED records the trade at the head of a tape capped at 50, sets
      the last price, consumes only the side opposite the aggressor and leaves
      the aggressor's side and every order list alone. */
  lemma {:induction false} MatchRecordsTrade(event: MarketEvent, state: MarketState)
    requires event.data.OrderMatchedData?
    ensures var r := ProcessEvent(event, state);
      var d := event.data;
      && r.lastPrice == d.price
      && |r.trades| == (if |state.trades| + 1 <= RecentCapacity then |state.trades| + 1 else RecentCapacity)
      && r.trades[0] == Trade(d.tradeId, event.timestamp, d.price, d.quantity, d.side)
      && r.trades[1..] == state.trades[..|r.trades| - 1]
      && r.Book(d.side.Opposite()) == Consume(state.Book(d.side.Opposite()), d.quantity)
      && r.Book(d.side) == state.Book(d.side)
      && r.activeOrders == state.activeOrders && r.cancelledOrders == state.cancelledOrders
  {
    var d := event.data;
    TakeCons(Trade(d.tradeId, event.timestamp, d.price, d.quantity, d.side), state.trades, RecentCapacity);
  }

  // ---------------------------------------------------------------------------
  // The invariant of every state the reducer builds from the empty one

  /** No level carries a display-only cumulative quantity. */
  predicate DisplayFree(levels: seq<Level>) {
    forall l :: l in levels ==> l.cumulativeQty.None?
  }

  /** What holds of every state reachable from an empty one: both sides
      strictly ordered (one level per price), no cumulative quantities, both
      recency lists within 50, no completed orders, and only ACTIVE orders
      active and CANCELLED orders cancelled. */
  predicate StateInvariant(s: MarketState) {
    && StrictlyOrdered(s.bids, Buy) && StrictlyOrdered(s.asks, Sell)
    && DisplayFree(s.bids) && DisplayFree(s.asks)
    && |s.trades| <= RecentCapacity && |s.cancelledOrders| <= RecentCapacity
    && s.completedOrders == []
    && (forall o :: o in s.activeOrders ==> o.status == Active)
    && (forall o :: o in s.cancelledOrders ==> o.status == Cancelled)
  }

  /** Every level after raise-or-append is an old level, the raised level, or
      the new one. */
  lemma {:induction false} RaiseOrAppendFrom(levels: seq<Level>, price: int, quantity: int)
    ensures var u := RaiseOrAppend(levels, price, quantity);
      forall l :: l in u ==>
        || l in levels
        || l == Level(price, quantity, 1, None)
        || exists k :: 0 <= k < |levels| && l == levels[k].(quantity := levels[k].quantity + quantity, orderCount := levels[k].orderCount + 1)
  {
    var u := RaiseOrAppend(levels, price, quantity);
    var i := FindLevelIndex(levels, price);
    forall l | l in u
      ensures || l in levels
              || l == Level(price, quantity, 1, None)
              || exists k :: 0 <= k < |levels| && l == levels[k].(quantity := levels[k].quantity + quantity, orderCount := levels[k].orderCount + 1)
    {
      var k :| 0 <= k < |u| && u[k] == l;
      if k < |levels| && (i == -1 || k != i) {
        assert l == levels[k];
      }
    }
  }

  lemma {:induction false} SortLevelsSameMembers(levels: seq<Level>, side: OrderSide)
    ensures forall l :: l in SortLevels(levels, side) <==> l in levels
  {
    var r := SortLevels(levels, side);
    forall l ensures l in r <==> l in levels {
      assert l in r <==> l in multiset(r);
      assert l in levels <==> l in multiset(levels);
    }
  }

  lemma {:induction false} AddToSideDisplayFree(levels: seq<Level>, side: OrderSide, price: int, quantity: int)
    requires DisplayFree(levels)
    ensures DisplayFree(AddToSide(levels, side, price, quantity))
  {
    RaiseOrAppendFrom(levels, price, quantity);
    SortLevelsSameMembers(RaiseOrAppend(levels, price, quantity), side);
  }

  lemma {:induction false} AddToSidePositive(levels: seq<Level>, side: OrderSide, price: int, quantity: int)
    requires PositiveLevels(levels) && quantity > 0
    ensures PositiveLevels(AddToSide(levels, side, price, quantity))
  {
    RaiseOrAppendFrom(levels, price, quantity);
    SortLevelsSameMembers(RaiseOrAppend(levels, price, quantity), side);
    forall l | l in AddToSide(levels, side, price, quantity) ensures l.quantity > 0 {
      if exists k :: 0 <= k < |levels| && l == levels[k].(quantity := levels[k].quantity + quantity, orderCount := levels[k].orderCount + 1) {
        var k :| 0 <= k < |levels| && l == levels[k].(quantity := levels[k].quantity + quantity, orderCount := levels[k].orderCount + 1);
        assert levels[k] in levels;
      }
    }
  }

  /** Splicing one element out keeps only elements of the original. */
  lemma {:induction false} SpliceMembers<T>(s: seq<T>, i: nat)
    requires i < |s|
    ensures forall x :: x in s[..i] + s[i + 1..] ==> x in s
  {
    forall x | x in s[..i] + s[i + 1..] ensures x in s {
      if x in s[..i] {
        var k :| 0 <= k < i && s[..i][k] == x;
        assert s[k] == x;
      } else {
        var k :| 0 <= k < |s[i + 1..]| && s[i + 1..][k] == x;
        assert s[i + 1 + k] == x;
      }
    }
  }

  /** Replacing one element keeps only elements of the original and the new one. */
  lemma {:induction false} UpdateMembers<T>(s: seq<T>, i: nat, y: T)
    requires i < |s|
    ensures forall x :: x in s[i := y] ==> x in s || x == y
  {
    forall x | x in s[i := y] ensures x in s || x == y {
      var k :| 0 <= k < |s| && s[i := y][k] == x;
      if k != i {
        assert s[k] == x;
      }
    }
  }

  /** Every level left after a cancellation is an old level or the reduced one,
      whose quantity stays positive. */
  lemma {:induction false} RemoveFromSidePositive(levels: seq<Level>, price: int, remainingQty: int)
    requires PositiveLevels(levels)
    ensures PositiveLevels(RemoveFromSide(levels, price, remainingQty))
  {
    var i := FindLevelIndex(levels, price);
    if i > -1 {
      var newQty := levels[i].quantity - remainingQty;
      if newQty <= 0 {
        SpliceMembers(levels, i);
      } else {
        UpdateMembers(levels, i, levels[i].(quantity := newQty, orderCount := levels[i].orderCount - 1));
      }
    }
  }

  lemma {:induction false} RemoveFromSideDisplayFree(levels: seq<Level>, price: int, remainingQty: int)
    requires DisplayFree(levels)
    ensures DisplayFree(RemoveFromSide(levels, price, remainingQty))
  {
    var i := FindLevelIndex(levels, price);
    if i > -1 {
      var newQty := levels[i].quantity - remainingQty;
      if newQty <= 0 {
        SpliceMembers(levels, i);
      } else {
        UpdateMembers(levels, i, levels[i].(quantity := newQty, orderCount := levels[i].orderCount - 1));
      }
    }
  }

  lemma {:induction false} ConsumeDisplayFree(levels: seq<Level>, remainingToFill: int)
    requires DisplayFree(levels)
    ensures DisplayFree(Consume(levels, remainingToFill))
  {
    ConsumeTakesFromTop(levels, remainingToFill);
    var r := Consume(levels, remainingToFill);
    var d := |levels| - |r|;
    forall l | l in r ensures l.cumulativeQty.None? {
      var k :| 0 <= k < |r| && r[k] == l;
      if k > 0 {
        assert r[k] == r[1..][k - 1] == levels[d + k];
      }
      assert levels[d + k] in levels;
    }
  }

  lemma {:induction false} AddedKeepsInvariant(s: MarketState, id: string, side: OrderSide, price: int, quantity: int)
    requires StateInvariant(s)
    ensures StateInvariant(ApplyOrderAdded(s, id, side, price, quantity))
  {
    var r := ApplyOrderAdded(s, id, side, price, quantity);
    var added := AddToSide(s.Book(side), side, price, quantity);
    assert StrictlyOrdered(added, side) by {
      AddToSideKeepsBook(s.Book(side), side, price, quantity);
    }
    assert DisplayFree(added) by {
      AddToSideDisplayFree(s.Book(side), side, price, quantity);
    }
    var order := Order(id, side, price, quantity, quantity, s.timestamp, Active);
    assert r.activeOrders == s.activeOrders + [order];
    forall o | o in r.activeOrders ensures o.status == Active {
      if o != order {
        assert o in s.activeOrders;
      }
    }
  }

  lemma {:induction false} CancelledKeepsInvariant(s: MarketState, orderId: string)
    requires StateInvariant(s)
    ensures StateInvariant(ApplyOrderCancelled(s, orderId))
  {
    var i := FindOrderIndex(s.activeOrders, orderId);
    if i >= 0 {
      var r := ApplyOrderCancelled(s, orderId);
      var order := s.activeOrders[i];
      var removed := RemoveFromSide(s.Book(order.side), order.price, order.remainingQty);
      assert StrictlyOrdered(removed, order.side) by {
        RemoveFromSideKeepsBook(s.Book(order.side), order.price, order.remainingQty, order.side);
      }
      assert DisplayFree(removed) by {
        RemoveFromSideDisplayFree(s.Book(order.side), order.price, order.remainingQty);
      }
      CancelKeepsStatuses(s.activeOrders, s.cancelledOrders, i);
      if order.side == Buy {
        assert r.bids == removed && r.asks == s.asks;
      } else {
        assert r.asks == removed && r.bids == s.bids;
      }
    }
  }

  /** Cancelling the order at index `i` keeps every resting order active and
      every recently cancelled order cancelled, within the recent capacity. */
  lemma {:induction false} CancelKeepsStatuses(active: seq<Order>, cancelled: seq<Order>, i: nat)
    requires i < |active|
    requires forall o :: o in active ==> o.status == Active
    requires forall o :: o in cancelled ==> o.status == Cancelled
    ensures forall o :: o in WithoutId(active, active[i].id) ==> o.status == Active
    ensures var c := Take([active[i].(status := Cancelled)] + cancelled, RecentCapacity);
      |c| <= RecentCapacity && forall o :: o in c ==> o.status == Cancelled
  {
    var front := [active[i].(status := Cancelled)] + cancelled;
    var c := Take(front, RecentCapacity);
    assert c == front[..|c|];
    forall o | o in c ensures o.status == Cancelled {
      assert o in front;
    }
  }

  lemma {:induction false} MatchedKeepsInvariant(s: MarketState, price: int, quantity: int, side: OrderSide, tradeId: string)
    requires StateInvariant(s)
    ensures StateInvariant(ApplyOrderMatched(s, price, quantity, side, tradeId))
  {
    var r := ApplyOrderMatched(s, price, quantity, side, tradeId);
    ConsumeKeepsBook(s.Book(side.Opposite()), quantity, side.Opposite());
    ConsumeDisplayFree(s.Book(side.Opposite()), quantity);
    assert StrictlyOrdered(r.Book(side.Opposite()), side.Opposite()) && DisplayFree(r.Book(side.Opposite()));
  }

  /** Every event keeps the invariant: adding sorts and merges per price,
      cancelling and matching only splice, shift or update levels in place. */
  lemma {:induction false} ProcessEventKeepsInvariant(event: MarketEvent, state: MarketState)
    requires StateInvariant(state)
    ensures StateInvariant(ProcessEvent(event, state))
  {
    var s := state.(timestamp := event.timestamp);
    match event.data
    case OrderAddedData(id, side, price, quantity) =>
      AddedKeepsInvariant(s, id, side, price, quantity);
    case OrderCancelledData(orderId) =>
      CancelledKeepsInvariant(s, orderId);
    case OrderMatchedData(price, quantity, side, tradeId) =>
      MatchedKeepsInvariant(s, price, quantity, side, tradeId);
    case TradeExecutedData =>
    case BookSnapshotData =>
  }

  /** Every ORDER_ADDED event carries a strictly positive quantity, as the
      generator's do. */
  predicate PositiveAdd(event: MarketEvent) {
    event.data.OrderAddedData? ==> event.data.quantity > 0
  }

  /** With positive added quantities every level of the book stays strictly
      positive: adding raises or creates a positive level, cancelling removes a
      level it would empty, a fill leaves only a positive remainder. */
  lemma {:induction false} ProcessEventKeepsLevelsPositive(event: MarketEvent, state: MarketState)
    requires PositiveAdd(event)
    requires PositiveLevels(state.bids) && PositiveLevels(state.asks)
    ensures var r := ProcessEvent(event, state);
      PositiveLevels(r.bids) && PositiveLevels(r.asks)
  {
    var s := state.(timestamp := event.timestamp);
    var r := ProcessEvent(event, state);
    match event.data
    case OrderAddedData(id, side, price, quantity) =>
      AddToSidePositive(s.Book(side), side, price, quantity);
      assert r.Book(side.Opposite()) == s.Book(side.Opposite());
    case OrderCancelledData(orderId) =>
      var i := FindOrderIndex(s.activeOrders, orderId);
      if i >= 0 {
        var order := s.activeOrders[i];
        RemoveFromSidePositive(s.Book(order.side), order.price, order.remainingQty);
      }
    case OrderMatchedData(price, quantity, side, tradeId) =>
      ConsumeKeepsBook(s.Book(side.Opposite()), quantity, side.Opposite());
    case TradeExecutedData =>
    case BookSnapshotData =>
  }
}
