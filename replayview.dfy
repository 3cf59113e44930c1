/** The replay controls (components/ReplayView.tsx): the step buttons, the
    play toggle, the slider and the autoplay effect, each of which requests a
    seek of the dashboard. */
module ReplayControls {
  import opened Types
  import opened Reducer
  import opened Replay

  /** The step-back button (components/ReplayView.tsx:42):
      `max(0, currentIndex - 1)`. */
  function StepBackTarget(currentIndex: int): (t: int)
    ensures t >= 0 && t >= currentIndex - 1
    ensures t == 0 || t == currentIndex - 1
  {
    if currentIndex - 1 >= 0 then currentIndex - 1 else 0
  }

  /** The step-forward button (components/ReplayView.tsx:54):
      `min(history.length - 1, currentIndex + 1)`. */
  function StepForwardTarget(historyLength: nat, currentIndex: int): (t: int)
    ensures t <= historyLength - 1 && t <= currentIndex + 1
    ensures t == historyLength - 1 || t == currentIndex + 1
  {
    if historyLength - 1 <= currentIndex + 1 then historyLength - 1 else currentIndex + 1
  }

  /** The index the autoplay effect asks for when it runs
      (components/ReplayView.tsx:26-29): the next one, only while playing and
      before the last event. */
  function AutoplayRequest(isPlaying: bool, currentIndex: int, historyLength: nat): (r: Option<int>)
    ensures r.Some? <==> isPlaying && currentIndex < historyLength - 1
    ensures r.Some? ==> r.value == currentIndex + 1
  {
    if isPlaying && currentIndex < historyLength - 1 then Some(currentIndex + 1) else None
  }

  /** Whether play continues after the effect runs
      (components/ReplayView.tsx:30-31). */
  function StillPlaying(isPlaying: bool, currentIndex: int, historyLength: nat): (p: bool)
    ensures p <==> AutoplayRequest(isPlaying, currentIndex, historyLength).Some?
  {
    isPlaying && currentIndex < historyLength - 1
  }

  /** The values the range input can report (components/ReplayView.tsx:67-72):
      integers from 0 to `history.length - 1`. A browser whose maximum lies
      below the minimum reports the minimum, so an empty history leaves only
      0. */
  predicate SliderAllows(value: int, historyLength: nat) {
    0 <= value && (value <= historyLength - 1 || value == 0)
  }

  /** On a non-empty history, from any index in range every control asks
      for an index in range, so the seek it triggers replays a state. */
  lemma {:induction false} ControlsStayInHistory(history: seq<MarketEvent>, currentIndex: int, isPlaying: bool, value: int)
    requires history != [] && 0 <= currentIndex < |history|
    requires SliderAllows(value, |history|)
    ensures 0 <= StepBackTarget(currentIndex) < |history|
    ensures 0 <= StepForwardTarget(|history|, currentIndex) < |history|
    ensures Seek(history, StepBackTarget(currentIndex)).Replayed?
    ensures Seek(history, StepForwardTarget(|history|, currentIndex)).Replayed?
    ensures Seek(history, value).Replayed?
    ensures var r := AutoplayRequest(isPlaying, currentIndex, |history|);
      r.Some? ==> 0 < r.value < |history| && Seek(history, r.value).Replayed?
  {
  }

  /** On an empty history, from the initial index 0 or any index a control
      has asked for, step forward asks for -1, which replays the initial
      state, while step back and the slider ask for 0, whose seek throws, and
      autoplay asks for nothing. */
  lemma {:induction false} EmptyHistoryControls(currentIndex: int, value: int)
    requires currentIndex >= -1
    requires SliderAllows(value, 0)
    ensures StepForwardTarget(0, currentIndex) == -1
    ensures Seek([], StepForwardTarget(0, currentIndex)) == Replayed(ReplayStart())
    ensures Seek([], StepBackTarget(currentIndex)).EventUndefined?
    ensures value == 0 && Seek([], value).EventUndefined?
    ensures AutoplayRequest(true, currentIndex, 0).None?
  {
  }

  /** Autoplay over `ticks` effect runs, each followed by the seek it asked
      for: the final index and play flag. */
  function Autoplay(isPlaying: bool, currentIndex: int, historyLength: nat, ticks: nat): (r: (int, bool))
    decreases ticks
  {
    if ticks == 0 then (currentIndex, isPlaying)
    else
      match AutoplayRequest(isPlaying, currentIndex, historyLength)
      case Some(next) => Autoplay(true, next, historyLength, ticks - 1)
      case None => (currentIndex, false)
  }

  /** Autoplay from an index in range never passes the last event, and after
      enough effect runs it has stopped there. */
  lemma {:induction false} AutoplayStopsAtEnd(currentIndex: int, historyLength: nat, ticks: nat)
    requires 0 <= currentIndex < historyLength
    ensures var (i, playing) := Autoplay(true, currentIndex, historyLength, ticks);
      && currentIndex <= i <= historyLength - 1
      && (ticks > historyLength - 1 - currentIndex ==> i == historyLength - 1 && !playing)
      && (playing ==> i == currentIndex + ticks)
    decreases ticks
  {
    if ticks > 0 && currentIndex < historyLength - 1 {
      AutoplayStopsAtEnd(currentIndex + 1, historyLength, ticks - 1);
    }
  }

  /** A paused autoplay never asks for a seek and stays paused. */
  lemma {:induction false} PausedStaysPut(currentIndex: int, historyLength: nat, ticks: nat)
    ensures Autoplay(false, currentIndex, historyLength, ticks) == (currentIndex, false)
  {
  }

  /** The replay view's own state (components/ReplayView.tsx:18). */
  class ReplayView {
    var isPlaying: bool

    /** The view mounts paused. */
    constructor ()
      ensures !isPlaying
    {
      isPlaying := false;
    }

    /** The play button (components/ReplayView.tsx:48). */
    method TogglePlay()
      modifies this
      ensures isPlaying == !old(isPlaying)
    {
      isPlaying := !isPlaying;
    }

    /** One run of the autoplay effect (components/ReplayView.tsx:24-34)
        against the dashboard, followed by the seek it asks for. */
    method AutoplayTick(session: Session) returns (requested: Option<int>)
      requires session.Valid()
      modifies this, session
      ensures requested == AutoplayRequest(old(isPlaying), old(session.replayIndex), |old(session.eventHistory)|)
      ensures isPlaying == StillPlaying(old(isPlaying), old(session.replayIndex), |old(session.eventHistory)|)
      ensures session.eventHistory == old(session.eventHistory)
      ensures session.mode == old(session.mode) && session.isConnected == old(session.isConnected)
      ensures requested.None? ==> session.replayIndex == old(session.replayIndex) && session.marketState == old(session.marketState)
      ensures requested.Some? ==>
        session.replayIndex == old(session.replayIndex) + 1
        && Seek(session.eventHistory, session.replayIndex) == Replayed(session.marketState)
      ensures session.Valid()
    {
      requested := AutoplayRequest(isPlaying, session.replayIndex, |session.eventHistory|);
      isPlaying := StillPlaying(isPlaying, session.replayIndex, |session.eventHistory|);
      if requested.Some? {
        var ok := session.HandleReplaySeek(requested.value);
      }
    }
  }
}
