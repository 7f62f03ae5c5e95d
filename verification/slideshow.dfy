/**
  The state of the portfolio section: the `currentIndex` cursor, the mode
  signal supplied by the `useIsMobile` hook, and the auto-advance interval
  that the mode-dependent effect registers and clears. Time is abstracted
  into discrete tick events delivered by a registered interval.
 */
module Slideshow {
  import opened Cursor

  /** The periodic timer owned by the effect. Every `setInterval` call gets a
      fresh `handle`; ticks only ever come from the registered interval. */
  datatype Interval = NoInterval | Running(handle: nat)

  /** `created` counts the intervals registered so far, so that a new
      interval is distinguishable from every cleared one. */
  datatype State = State(cursor: nat, mobile: bool, interval: Interval, created: nat)

  /** What can happen to the component while it is mounted. */
  datatype Event =
    | Tick(handle: nat)         // the interval with this handle fires
    | Select(index: nat)        // the dot button with this index is clicked
    | ModeChange(mobile: bool)  // the mode signal reports a (possibly equal) value

  /** The invariant the component keeps: the cursor indexes the catalog, an
      interval exists exactly in mobile mode, and its handle is one that was
      actually handed out. */
  predicate Inv(s: State, n: nat) {
    && s.cursor < n
    && (s.interval.Running? <==> s.mobile)
    && (s.interval.Running? ==> s.interval.handle < s.created)
  }

  /** Whether `e` can happen in state `s`. Dot buttons are rendered only in
      mobile mode, one per catalog index; ticks and mode changes can always
      arrive (a tick of a cleared interval is inert, see `Fire`). */
  predicate Enabled(s: State, e: Event, n: nat) {
    e.Select? ==> s.mobile && e.index < n
  }

  /** The effect body: registers an interval in mobile mode and nothing otherwise. */
  function RunEffect(s: State): (r: State)
    requires s.interval == NoInterval
    ensures r.cursor == s.cursor && r.mobile == s.mobile
    ensures r.interval.Running? <==> s.mobile
    ensures r.interval.Running? ==> s.created <= r.interval.handle < r.created
  {
    if s.mobile then s.(interval := Running(s.created), created := s.created + 1) else s
  }

  /** Mounting: the cursor starts at 0 and the effect runs once. */
  function Mount(mobile: bool): (s: State)
    ensures s.cursor == 0 && s.mobile == mobile
    ensures forall n: nat :: n >= 1 ==> Inv(s, n)
  {
    RunEffect(State(0, mobile, NoInterval, 0))
  }

  /** A new value of the mode signal. The effect depends on the mode only:
      an equal value re-runs nothing; a different one clears the current
      interval and re-runs the effect. The cursor is never touched. */
  function SetMode(s: State, mobile: bool): (r: State)
    ensures r.cursor == s.cursor && r.mobile == mobile
    ensures mobile == s.mobile ==> r == s
    ensures !mobile && s.mobile ==> r.interval == NoInterval
    ensures mobile && !s.mobile ==>
              r.interval.Running? && r.interval.handle >= s.created
  {
    if mobile == s.mobile then s
    else RunEffect(s.(mobile := mobile, interval := NoInterval))
  }

  /** A tick of interval `h`: advances the cursor when `h` is the registered
      interval; a cleared interval never fires, so any other tick is inert. */
  function Fire(s: State, h: nat, n: nat): (r: State)
    requires n >= 1
    ensures r.mobile == s.mobile && r.interval == s.interval && r.created == s.created
    ensures s.interval != Running(h) ==> r == s
    ensures s.interval == Running(h) ==> r.cursor < n
    ensures s.interval == Running(h) && s.cursor + 1 < n ==> r.cursor == s.cursor + 1
    ensures s.interval == Running(h) && s.cursor + 1 == n ==> r.cursor == 0
  {
    if s.interval == Running(h) then s.(cursor := Advance(s.cursor, n)) else s
  }

  /** A dot click: the cursor jumps to the dot's index and nothing else
      changes; in particular the interval keeps running unrestarted. */
  function SelectIndex(s: State, index: nat): (r: State)
    ensures r.cursor == index
    ensures r.mobile == s.mobile && r.interval == s.interval && r.created == s.created
  {
    s.(cursor := index)
  }

  /** Handles one event. Only ticks and dot clicks move the cursor, only
      mode changes change the mode, and the cursor stays in range. */
  function Step(s: State, e: Event, n: nat): (r: State)
    requires n >= 1 && Enabled(s, e, n)
    ensures e.ModeChange? ==> r.cursor == s.cursor && r.mobile == e.mobile
    ensures !e.ModeChange? ==> r.mobile == s.mobile && r.interval == s.interval
    ensures s.cursor < n ==> r.cursor < n
  {
    match e
    case Tick(h) => Fire(s, h, n)
    case Select(i) => SelectIndex(s, i)
    case ModeChange(m) => SetMode(s, m)
  }

  /** Every event of `events` is enabled in the state it arrives in. */
  predicate ValidTrace(s: State, events: seq<Event>, n: nat)
    requires n >= 1
    decreases |events|
  {
    |events| == 0 ||
    (Enabled(s, events[0], n) && ValidTrace(Step(s, events[0], n), events[1..], n))
  }

  /** Processes events strictly in arrival order. */
  function Run(s: State, events: seq<Event>, n: nat): State
    requires n >= 1 && ValidTrace(s, events, n)
    decreases |events|
  {
    if |events| == 0 then s else Run(Step(s, events[0], n), events[1..], n)
  }

  /** `k` ticks of interval `h`. */
  function Ticks(h: nat, k: nat): (events: seq<Event>)
    ensures |events| == k
    ensures forall j :: 0 <= j < k ==> events[j] == Tick(h)
  {
    seq(k, _ => Tick(h))
  }

  lemma StepPreservesInv(s: State, e: Event, n: nat)
    requires n >= 1 && Inv(s, n) && Enabled(s, e, n)
    ensures Inv(Step(s, e, n), n)
  {
  }

  /** Every valid event sequence keeps the invariant; in particular the
      cursor stays within the catalog. */
  lemma {:induction false} RunPreservesInv(s: State, events: seq<Event>, n: nat)
    requires n >= 1 && Inv(s, n) && ValidTrace(s, events, n)
    ensures Inv(Run(s, events, n), n)
    decreases |events|
  {
    if |events| > 0 {
      StepPreservesInv(s, events[0], n);
      RunPreservesInv(Step(s, events[0], n), events[1..], n);
    }
  }

  /** From mount, whatever the user and the timer do, the cursor indexes the catalog. */
  lemma CursorAlwaysInRange(mobile: bool, events: seq<Event>, n: nat)
    requires n >= 1 && ValidTrace(Mount(mobile), events, n)
    ensures Run(Mount(mobile), events, n).cursor < n
  {
    RunPreservesInv(Mount(mobile), events, n);
  }

  /** `k` ticks of the registered interval can always arrive, advance the
      cursor `k` times and change nothing else. */
  lemma {:induction false} TicksAdvance(s: State, h: nat, k: nat, n: nat)
    requires n >= 1 && s.interval == Running(h)
    ensures ValidTrace(s, Ticks(h, k), n)
    ensures Run(s, Ticks(h, k), n) == s.(cursor := AdvanceN(k, s.cursor, n))
    decreases k
  {
    if k > 0 {
      var s1 := Step(s, Tick(h), n);
      assert Ticks(h, k)[1..] == Ticks(h, k - 1);
      TicksAdvance(s1, h, k - 1, n);
      AdvanceNAdditive(1, k - 1, s.cursor, n);
    }
  }

  /** In mobile mode, `n` ticks form a full cycle back to the same state. */
  lemma TicksFullCycle(s: State, n: nat)
    requires n >= 1 && Inv(s, n) && s.mobile
    ensures ValidTrace(s, Ticks(s.interval.handle, n), n)
    ensures Run(s, Ticks(s.interval.handle, n), n) == s
  {
    TicksAdvance(s, s.interval.handle, n, n);
    FullCycle(s.cursor, n);
  }

  /** A dot click does not restart the timer: ticks of the same interval
      continue from the selected index. */
  lemma SelectKeepsTimer(s: State, i: nat, k: nat, n: nat)
    requires n >= 1 && Inv(s, n) && s.mobile && i < n
    ensures ValidTrace(s, [Select(i)] + Ticks(s.interval.handle, k), n)
    ensures Run(s, [Select(i)] + Ticks(s.interval.handle, k), n).cursor == AdvanceN(k, i, n)
  {
    var events := [Select(i)] + Ticks(s.interval.handle, k);
    assert events[1..] == Ticks(s.interval.handle, k);
    TicksAdvance(SelectIndex(s, i), s.interval.handle, k, n);
  }

  /** Leaving mobile mode clears the interval: afterwards no tick, of any
      interval, moves the cursor. */
  lemma LeavingMobileStopsTicks(s: State, h: nat, n: nat)
    requires n >= 1 && Inv(s, n)
    ensures Fire(SetMode(s, false), h, n) == SetMode(s, false)
  {
  }

  /** Toggling the mode off and on replaces the interval: the old handle is
      cleared for good and its late ticks are inert, while the cursor survives. */
  lemma ReenteringMobileReplacesInterval(s: State, n: nat)
    requires n >= 1 && Inv(s, n) && s.mobile
    ensures SetMode(SetMode(s, false), true).cursor == s.cursor
    ensures SetMode(SetMode(s, false), true).interval != s.interval
    ensures Fire(SetMode(SetMode(s, false), true), s.interval.handle, n)
            == SetMode(SetMode(s, false), true)
  {
  }

  /** Outside mobile mode there is neither an interval nor a dot button:
      as long as the mode stays off, nothing that can happen changes the
      state, so the cursor is frozen. */
  lemma {:induction false} DesktopStateFrozen(s: State, events: seq<Event>, n: nat)
    requires n >= 1 && !s.mobile && s.interval == NoInterval
    requires ValidTrace(s, events, n)
    requires forall k :: 0 <= k < |events| ==> events[k] != ModeChange(true)
    ensures Run(s, events, n) == s
    decreases |events|
  {
    if |events| > 0 {
      assert Step(s, events[0], n) == s;
      assert forall k :: 0 <= k < |events[1..]| ==> events[1..][k] == events[k + 1];
      DesktopStateFrozen(s, events[1..], n);
    }
  }
}
