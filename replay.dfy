/** The two ways the dashboard drives the reducer (App.tsx): replay seek, a
    left fold of `processEvent` over a prefix of the event history from a
    fixed initial state, and the live tick, one reducer step on the current
    state together with one append to the history. */
module Replay {
  import opened Types
  import opened Reducer

  /** The opening price both initial states carry (App.tsx:33, App.tsx:150). */
  const OpeningPrice: int := 45000

  /** The state replay starts from: empty books and lists, opening price,
      timestamp 0 (App.tsx:148-151). */
  function ReplayStart(): (r: MarketState) {
    MarketState([], [], [], [], [], [], OpeningPrice, 0)
  }

  /** The state the live view starts from: the same, but stamped with the
      wall clock at start-up, which is a parameter here (App.tsx:26-35). */
  function LiveStart(now: int): (r: MarketState) {
    MarketState([], [], [], [], [], [], OpeningPrice, now)
  }

  /** Both initial states satisfy the reducer's invariant and differ at most
      in their timestamp. */
  lemma {:induction false} StartStatesKeepInvariant(now: int)
    ensures StateInvariant(ReplayStart()) && StateInvariant(LiveStart(now))
    ensures LiveStart(now) == ReplayStart().(timestamp := now)
    ensures LiveStart(now) == ReplayStart() <==> now == 0
  {
  }

  /** `processEvent` applied to each event in turn, first to last. */
  function Fold(events: seq<MarketEvent>, s: MarketState): (r: MarketState)
    decreases |events|
  {
    if events == [] then s else Fold(events[1..], ProcessEvent(events[0], s))
  }

  /** Folding one more event is one more reducer step on the folded state. */
  lemma {:induction false} FoldSnoc(events: seq<MarketEvent>, e: MarketEvent, s: MarketState)
    ensures Fold(events + [e], s) == ProcessEvent(e, Fold(events, s))
    decreases |events|
  {
    if events == [] {
      assert events + [e] == [e];
      assert [e][1..] == [];
    } else {
      assert (events + [e])[1..] == events[1..] + [e];
      FoldSnoc(events[1..], e, ProcessEvent(events[0], s));
    }
  }

  /** Folding a concatenation folds the second part from where the first ended. */
  lemma {:induction false} FoldAppend(a: seq<MarketEvent>, b: seq<MarketEvent>, s: MarketState)
    ensures Fold(a + b, s) == Fold(b, Fold(a, s))
    decreases |a|
  {
    if a == [] {
      assert a + b == b;
    } else {
      assert (a + b)[1..] == a[1..] + b;
      FoldAppend(a[1..], b, ProcessEvent(a[0], s));
    }
  }

  /** Every fold from a state satisfying the invariant ends in one. */
  lemma {:induction false} FoldKeepsInvariant(events: seq<MarketEvent>, s: MarketState)
    requires StateInvariant(s)
    ensures StateInvariant(Fold(events, s))
    decreases |events|
  {
    if events != [] {
      ProcessEventKeepsInvariant(events[0], s);
      FoldKeepsInvariant(events[1..], ProcessEvent(events[0], s));
    }
  }

  /** A non-empty fold ends stamped with its last event's timestamp. */
  lemma {:induction false} FoldTimestamp(events: seq<MarketEvent>, s: MarketState)
    requires events != []
    ensures Fold(events, s).timestamp == events[|events| - 1].timestamp
  {
    var init := events[..|events| - 1];
    assert events == init + [events[|events| - 1]];
    FoldSnoc(init, events[|events| - 1], s);
  }

  /** One pass of the replay loop's body (App.tsx:153): the state replayed
      up to event i - 1 becomes the state replayed up to event i. */
  method ReplayOne(history: seq<MarketEvent>, i: nat, tempState: MarketState) returns (next: MarketState)
    requires i < |history| && Seek(history, i - 1) == Replayed(tempState)
    ensures Seek(history, i) == Replayed(next)
  {
    SeekStep(history, i - 1);
    next := ProcessEvent(history[i], tempState);
  }

  /** What a seek produces. The source reads `eventHistory[i]` for every i up
      to the index and hands it to `processEvent`; past the end that is
      `undefined`, whose `timestamp` the reducer then reads, which throws. */
  datatype SeekResult = Replayed(state: MarketState) | EventUndefined(at: nat)

  /** `handleReplaySeek`'s computed state (App.tsx:146-156): the fold of
      `history[0..index]` from the replay start, an error when the index is
      past the last event. */
  function Seek(history: seq<MarketEvent>, index: int): (r: SeekResult)
    ensures r.EventUndefined? <==> index >= |history|
    ensures r.EventUndefined? ==> r.at == |history|
    ensures index < 0 ==> r == Replayed(ReplayStart())
  {
    if index < 0 then Replayed(ReplayStart())
    else if index < |history| then Replayed(Fold(history[..index + 1], ReplayStart()))
    else EventUndefined(|history|)
  }

  /** The `for` loop of `handleReplaySeek` (App.tsx:148-154), stopping where
      the source throws. */
  method ReplayTo(history: seq<MarketEvent>, index: int) returns (r: SeekResult)
    ensures r == Seek(history, index)
  {
    var tempState := ReplayStart();
    var i := 0;
    while i <= index
      invariant 0 <= i <= |history|
      invariant i == 0 || i <= index + 1
      invariant Seek(history, i - 1) == Replayed(tempState)
      decreases index - i
    {
      if i == |history| {
        // `eventHistory[i]` is undefined here and `processEvent` throws.
        assert index >= |history|;
        return EventUndefined(i);
      }
      tempState := ReplayOne(history, i, tempState);
      i := i + 1;
    }
    if index >= 0 {
      assert i - 1 == index;
    }
    r := Replayed(tempState);
  }

  /** Seeking one event further is one more reducer step:
      seek(i + 1) = processEvent(history[i + 1], seek(i)), from seek(-1), the
      replay start. */
  lemma {:induction false} SeekStep(history: seq<MarketEvent>, index: int)
    requires -1 <= index && index + 1 < |history|
    ensures Seek(history, index).Replayed?
    ensures Seek(history, index + 1) == Replayed(ProcessEvent(history[index + 1], Seek(history, index).state))
  {
    var prefix := history[..index + 1];
    assert history[..index + 2] == prefix + [history[index + 1]];
    FoldSnoc(prefix, history[index + 1], ReplayStart());
    if index == -1 {
      assert prefix == [];
    }
  }

  /** Seeking to the last event replays the whole history. */
  lemma {:induction false} SeekLastIsFold(history: seq<MarketEvent>)
    requires history != []
    ensures Seek(history, |history| - 1) == Replayed(Fold(history, ReplayStart()))
  {
    assert history[..|history|] == history;
  }

  /** Every state a seek produces satisfies the reducer's invariant, so it has
      sorted sides with one level per price, lists within 50, no completed
      orders and no FILLED or PARTIAL order anywhere. */
  lemma {:induction false} SeekKeepsInvariant(history: seq<MarketEvent>, index: int)
    requires Seek(history, index).Replayed?
    ensures StateInvariant(Seek(history, index).state)
    ensures forall o :: o in Seek(history, index).state.activeOrders + Seek(history, index).state.cancelledOrders ==>
      o.status != Filled && o.status != Partial
  {
    StartStatesKeepInvariant(0);
    if index >= 0 {
      FoldKeepsInvariant(history[..index + 1], ReplayStart());
    }
  }

  /** A seek to event i shows that event's timestamp. */
  lemma {:induction false} SeekTimestamp(history: seq<MarketEvent>, index: int)
    requires 0 <= index < |history|
    ensures Seek(history, index).Replayed?
    ensures Seek(history, index).state.timestamp == history[index].timestamp
  {
    SeekStep(history, index - 1);
  }

  /** Live ticks appended after a seek fold on from the sought state: the
      replayed state of the longer history is the sought state with the new
      events applied in order. */
  lemma {:induction false} SeekThenTicks(history: seq<MarketEvent>, index: int, ticks: seq<MarketEvent>)
    requires 0 <= index && index + 1 == |history|
    ensures Seek(history + ticks, index + |ticks|) == Replayed(Fold(ticks, Seek(history, index).state))
  {
    var h := history + ticks;
    if ticks == [] {
      assert h == history;
    } else {
      assert h[..index + |ticks| + 1] == h;
      assert history[..index + 1] == history;
      FoldAppend(history, ticks, ReplayStart());
    }
  }

  /** The live state is not a fold of the history: with one seeded order and
      no tick yet, the live book is empty while replaying the seed shows the
      order's level. */
  lemma {:induction false} SeededStateIsNotReplay(now: int)
    ensures var e := MarketEvent(1, OrderAddedData("o1", Buy, 45000, 3));
      && Seek([e], 0) == Replayed(ProcessEvent(e, ReplayStart()))
      && Seek([e], 0).state.bids == [Level(45000, 3, 1, None)]
      && LiveStart(now).bids == []
  {
    var e := MarketEvent(1, OrderAddedData("o1", Buy, 45000, 3));
    assert [e][..1] == [e];
    assert [e][1..] == [];
    assert FindLevelIndex([], 45000) == -1;
    assert RaiseOrAppend([], 45000, 3) == [Level(45000, 3, 1, None)];
    assert InsertLevel(Level(45000, 3, 1, None), [], Buy) == [Level(45000, 3, 1, None)];
    assert [Level(45000, 3, 1, None)][1..] == [];
  }

  /** The dashboard's mutable state (App.tsx:24-38): mode, connection flag,
      current market state, event history and replay index. */
  class Session {
    var mode: AppMode
    var isConnected: bool
    var marketState: MarketState
    var eventHistory: seq<MarketEvent>
    var replayIndex: int

    /** The shown state satisfies the reducer's invariant. */
    predicate Valid()
      reads this
    {
      StateInvariant(marketState)
    }

    /** Start-up: live, connected, the live start state, no history yet,
        replay index 0 (App.tsx:24-38). */
    constructor (now: int)
      ensures mode == LiveMode && isConnected
      ensures marketState == LiveStart(now) && eventHistory == [] && replayIndex == 0
      ensures Valid()
    {
      mode := LiveMode;
      isConnected := true;
      marketState := LiveStart(now);
      eventHistory := [];
      replayIndex := 0;
      StartStatesKeepInvariant(now);
    }

    /** The mount effect (App.tsx:41-44): the generated events replace the
        history; the shown state is not touched. */
    method SeedHistory(seed: seq<MarketEvent>)
      modifies this
      ensures eventHistory == seed
      ensures marketState == old(marketState) && mode == old(mode)
      ensures isConnected == old(isConnected) && replayIndex == old(replayIndex)
    {
      eventHistory := seed;
    }

    /** One interval tick of the live loop (App.tsx:133-140): only in live
        mode and while connected, the state takes one reducer step and the
        same event is appended to the history. */
    method LiveTick(event: MarketEvent) returns (ticked: bool)
      requires Valid()
      modifies this
      ensures ticked <==> old(mode) == LiveMode && old(isConnected)
      ensures ticked ==> marketState == ProcessEvent(event, old(marketState))
      ensures ticked ==> eventHistory == old(eventHistory) + [event]
      ensures ticked ==> |eventHistory| == |old(eventHistory)| + 1
      ensures !ticked ==> marketState == old(marketState) && eventHistory == old(eventHistory)
      ensures mode == old(mode) && isConnected == old(isConnected) && replayIndex == old(replayIndex)
      ensures Valid()
    {
      ticked := mode == LiveMode && isConnected;
      if ticked {
        ProcessEventKeepsInvariant(event, marketState);
        marketState := ProcessEvent(event, marketState);
        eventHistory := eventHistory + [event];
      }
    }

    /** The connection button (App.tsx:182). */
    method ToggleConnection()
      modifies this
      ensures isConnected == !old(isConnected)
      ensures mode == old(mode) && marketState == old(marketState)
      ensures eventHistory == old(eventHistory) && replayIndex == old(replayIndex)
    {
      isConnected := !isConnected;
    }

    /** `setMode`, which the dashboard and replay views call on mount. */
    method SetMode(m: AppMode)
      modifies this
      ensures mode == m
      ensures isConnected == old(isConnected) && marketState == old(marketState)
      ensures eventHistory == old(eventHistory) && replayIndex == old(replayIndex)
    {
      mode := m;
    }

    /** `handleReplaySeek` (App.tsx:146-156): the index is stored first; the
        shown state becomes the replayed one, or stays as it was when the
        fold throws past the end of the history. */
    method HandleReplaySeek(index: int) returns (ok: bool)
      requires Valid()
      modifies this
      ensures replayIndex == index
      ensures ok <==> index < |old(eventHistory)|
      ensures ok ==> Seek(old(eventHistory), index) == Replayed(marketState)
      ensures !ok ==> marketState == old(marketState)
      ensures mode == old(mode) && isConnected == old(isConnected) && eventHistory == old(eventHistory)
      ensures Valid()
    {
      replayIndex := index;
      var r := ReplayTo(eventHistory, index);
      ok := r.Replayed?;
      if ok {
        SeekKeepsInvariant(eventHistory, index);
        marketState := r.state;
      }
    }
  }
}
