/** The interstitial / rewarded advertisement (src/InterstitialAd.tsx).

    While the ad is visible a one-second interval counts down from 5; closing
    is only offered once the countdown is over. The tick that finishes the
    countdown stops the interval, enables closing and, for a rewarded ad whose
    parent passed a completion callback, grants 5 points and calls that
    callback.

    The session is first given as a value (`Session`) with one function per
    event, each returning the next session and the calls the component makes
    on its collaborators (`addPoints`, `onWatchComplete`, `onClose`); the class
    `InterstitialAd` then keeps the same state in fields, updates it in place
    and records those calls in a ghost log. */
module Interstitial {

  import opened Decimal

  /** The countdown's starting value, in seconds. */
  const CountdownStart: int := 5
  /** The points granted for a completed rewarded ad. */
  const RewardPoints: nat := 5

  /** A call the component makes on code outside it. */
  datatype Effect = AddPoints(amount: nat) | WatchComplete | CloseCallback

  /** The component's state: the `visible` prop, the `countdown` and
      `canSkip` state, whether an interval is registered, and the two props
      that are fixed for a session. */
  datatype Session = Session(
    visible: bool,
    countdown: int,
    canSkip: bool,
    timerRunning: bool,
    isRewarded: bool,
    hasCallback: bool)

  /** The session after an event, and the calls made while handling it. */
  datatype Step = Step(next: Session, effects: seq<Effect>)

  /** The calls made when the countdown completes. */
  function RewardEffects(s: Session): seq<Effect> {
    if s.isRewarded && s.hasCallback then [AddPoints(RewardPoints), WatchComplete] else []
  }

  /** The state on mount: `useState(5)`, `useState(false)`, no interval. */
  function Initial(isRewarded: bool, hasCallback: bool): (s: Session)
    ensures Invariant(s) && !s.visible && !s.canSkip && !s.timerRunning
    ensures s.countdown == CountdownStart
    ensures s.isRewarded == isRewarded && s.hasCallback == hasCallback
  {
    Session(false, CountdownStart, false, false, isRewarded, hasCallback)
  }

  /** What every reachable session satisfies: the countdown stays within
      [0, 5], closing is enabled exactly when it has reached 0, and an
      interval only runs for a visible ad whose countdown is not over. */
  predicate Invariant(s: Session) {
    && 0 <= s.countdown <= CountdownStart
    && (s.canSkip <==> s.countdown == 0)
    && (s.timerRunning ==> s.visible && s.countdown >= 1)
  }

  /** `visible` becomes true: the effect resets the countdown to 5, disables
      closing and starts the interval. Showing an ad that is already visible
      does not re-run the effect. */
  function Shown(s: Session): (r: Step)
    ensures r.effects == []
    ensures !s.visible ==> r.next.visible && r.next.countdown == CountdownStart
                           && !r.next.canSkip && r.next.timerRunning
    ensures s.visible ==> r.next == s
    ensures Invariant(s) ==> Invariant(r.next)
  {
    if s.visible then Step(s, [])
    else Step(s.(visible := true, countdown := CountdownStart, canSkip := false, timerRunning := true), [])
  }

  /** `visible` becomes false: the effect's cleanup clears the interval. */
  function Hidden(s: Session): (r: Step)
    ensures r.effects == []
    ensures !r.next.visible && !r.next.timerRunning
    ensures r.next.countdown == s.countdown && r.next.canSkip == s.canSkip
    ensures Invariant(s) ==> Invariant(r.next)
  {
    Step(s.(visible := false, timerRunning := false), [])
  }

  /** One firing of the interval. Above 1 the countdown drops by one; at 1
      or below it is set to 0, the interval is cleared, closing is enabled
      and the reward is granted. Without an interval nothing fires. */
  function Ticked(s: Session): (r: Step)
    ensures !s.timerRunning ==> r == Step(s, [])
    ensures s.timerRunning && s.countdown > 1 ==>
      && r.next == s.(countdown := s.countdown - 1)
      && r.effects == []
    ensures s.timerRunning && s.countdown <= 1 ==>
      && r.next.countdown == 0 && r.next.canSkip && !r.next.timerRunning
      && r.next.visible == s.visible
      && (r.effects != [] <==> s.isRewarded && s.hasCallback)
      && r.effects == RewardEffects(s)
    ensures r.next.isRewarded == s.isRewarded && r.next.hasCallback == s.hasCallback
    ensures Invariant(s) ==> Invariant(r.next)
  {
    if !s.timerRunning then Step(s, [])
    else if s.countdown <= 1 then
      Step(s.(countdown := 0, canSkip := true, timerRunning := false), RewardEffects(s))
    else Step(s.(countdown := s.countdown - 1), [])
  }

  /** The back button or the close button: `onClose` is only reachable
      while `canSkip` holds (and the modal is on screen); before that the
      request is ignored. The parent decides whether to hide the ad. */
  function CloseRequested(s: Session): (r: Step)
    ensures r.next == s
    ensures r.effects == [CloseCallback] <==> s.visible && s.canSkip
    ensures r.effects == [] <==> !(s.visible && s.canSkip)
  {
    if s.visible && s.canSkip then Step(s, [CloseCallback]) else Step(s, [])
  }

  /** What the header shows: the close button, or the seconds left. */
  datatype Header = CloseButton | CountdownBadge(text: string)

  function HeaderOf(s: Session): (h: Header)
    ensures h.CloseButton? <==> s.canSkip
    ensures !s.canSkip ==> h == CountdownBadge(IntToString(s.countdown) + "s")
  {
    if s.canSkip then CloseButton else CountdownBadge(IntToString(s.countdown) + "s")
  }

  // ---------------------------------------------------------------------------
  // Runs of events
  // ---------------------------------------------------------------------------

  datatype Event = ShowAd | TickSecond | HideAd | PressClose

  function Apply(s: Session, e: Event): Step {
    match e
    case ShowAd => Shown(s)
    case TickSecond => Ticked(s)
    case HideAd => Hidden(s)
    case PressClose => CloseRequested(s)
  }

  /** The session after a sequence of events and every call made on the way. */
  function Run(s: Session, events: seq<Event>): Step
    decreases |events|
  {
    if events == [] then Step(s, [])
    else
      var first := Apply(s, events[0]);
      var rest := Run(first.next, events[1..]);
      Step(rest.next, first.effects + rest.effects)
  }

  function Ticks(n: nat): (ts: seq<Event>)
    ensures |ts| == n && forall i :: 0 <= i < n ==> ts[i] == TickSecond
  {
    seq(n, _ => TickSecond)
  }

  function CountShows(events: seq<Event>): nat {
    if events == [] then 0 else (if events[0] == ShowAd then 1 else 0) + CountShows(events[1..])
  }

  /** The number of `onWatchComplete` calls. */
  function Completions(effects: seq<Effect>): nat {
    if effects == [] then 0 else (if effects[0] == WatchComplete then 1 else 0) + Completions(effects[1..])
  }

  /** The total passed to `addPoints`. */
  function Points(effects: seq<Effect>): nat {
    if effects == [] then 0
    else (if effects[0].AddPoints? then effects[0].amount else 0) + Points(effects[1..])
  }

  lemma CountsDistribute(a: seq<Effect>, b: seq<Effect>)
    ensures Completions(a + b) == Completions(a) + Completions(b)
    ensures Points(a + b) == Points(a) + Points(b)
  {
    if a != [] {
      assert (a + b)[0] == a[0] && (a + b)[1..] == a[1..] + b;
      CountsDistribute(a[1..], b);
    } else {
      assert a + b == b;
    }
  }

  lemma RewardCounts(s: Session)
    ensures Completions(RewardEffects(s)) == if s.isRewarded && s.hasCallback then 1 else 0
    ensures Points(RewardEffects(s)) == if s.isRewarded && s.hasCallback then RewardPoints else 0
  {
    if s.isRewarded && s.hasCallback {
      var e := [AddPoints(RewardPoints), WatchComplete];
      assert e[1..] == [WatchComplete] && e[1..][1..] == [];
      assert Completions(e[1..]) == 1 && Points(e[1..]) == 0;
      assert Completions(e) == 1 && Points(e) == RewardPoints;
    }
  }

  /** Every run keeps the invariant and the two per-session props. */
  lemma {:induction false} RunInvariant(s: Session, events: seq<Event>)
    requires Invariant(s)
    ensures Invariant(Run(s, events).next)
    ensures Run(s, events).next.isRewarded == s.isRewarded
    ensures Run(s, events).next.hasCallback == s.hasCallback
    decreases |events|
  {
    if events != [] {
      RunInvariant(Apply(s, events[0]).next, events[1..]);
    }
  }

  /** Running two sequences of events one after the other. */
  lemma {:induction false} RunAppend(s: Session, a: seq<Event>, b: seq<Event>)
    ensures var ra := Run(s, a);
            var rb := Run(ra.next, b);
            Run(s, a + b) == Step(rb.next, ra.effects + rb.effects)
    decreases |a|
  {
    if a != [] {
      assert (a + b)[0] == a[0] && (a + b)[1..] == a[1..] + b;
      RunAppend(Apply(s, a[0]).next, a[1..], b);
    } else {
      assert a + b == b;
    }
  }

  /** The countdown from a running interval at `c`: after `n < c` ticks it
      reads `c - n`, closing is still disabled and nothing was called; after
      `n >= c` ticks it reads 0, closing is enabled, the interval is stopped
      and the reward calls were made exactly once. */
  lemma {:induction false} TicksFrom(s: Session, n: nat)
    requires Invariant(s) && s.timerRunning
    ensures var r := Run(s, Ticks(n));
            && r.next.isRewarded == s.isRewarded && r.next.hasCallback == s.hasCallback
            && r.next.visible
            && (n < s.countdown ==>
                  r.next.countdown == s.countdown - n && !r.next.canSkip
                  && r.next.timerRunning && r.effects == [])
            && (n >= s.countdown ==>
                  r.next.countdown == 0 && r.next.canSkip
                  && !r.next.timerRunning && r.effects == RewardEffects(s))
    decreases n
  {
    if n > 0 {
      var t := Ticked(s).next;
      assert Ticks(n)[1..] == Ticks(n - 1);
      if s.countdown > 1 {
        TicksFrom(t, n - 1);
      } else {
        StoppedTicks(t, n - 1);
      }
    }
  }

  /** Without an interval, ticks change nothing and call nothing. */
  lemma {:induction false} StoppedTicks(s: Session, n: nat)
    requires !s.timerRunning
    ensures Run(s, Ticks(n)) == Step(s, [])
    decreases n
  {
    if n > 0 {
      assert Ticks(n)[1..] == Ticks(n - 1);
      StoppedTicks(s, n - 1);
    }
  }

  /** From showing the ad: closing stays disabled for 0 to 4 ticks and is
      enabled by the fifth, which alone makes the reward calls. */
  lemma FiveSecondCountdown(s: Session, n: nat)
    requires Invariant(s) && !s.visible
    ensures var r := Run(Shown(s).next, Ticks(n));
            && Invariant(r.next)
            && (n < 5 ==> !r.next.canSkip && r.next.countdown == CountdownStart - n && r.effects == [])
            && (n >= 5 ==> r.next.canSkip && r.next.countdown == 0 && r.effects == RewardEffects(s))
  {
    TicksFrom(Shown(s).next, n);
    RunInvariant(Shown(s).next, Ticks(n));
  }

  /** Once closing is enabled it stays enabled while the ad is visible:
      no event that leaves the ad on screen turns `canSkip` off. */
  lemma CanSkipStable(s: Session, e: Event)
    requires Invariant(s) && s.visible && s.canSkip && Apply(s, e).next.visible
    ensures Apply(s, e).next.canSkip
  {
  }

  /** The same over any run that does not hide the ad. */
  lemma {:induction false} CanSkipStaysWhileVisible(s: Session, events: seq<Event>)
    requires Invariant(s) && s.visible && s.canSkip
    requires forall i :: 0 <= i < |events| ==> events[i] != HideAd
    ensures Run(s, events).next.visible && Run(s, events).next.canSkip
    decreases |events|
  {
    if events != [] {
      var next := Apply(s, events[0]).next;
      assert next.visible && next.canSkip;
      CanSkipStaysWhileVisible(next, events[1..]);
    }
  }

  /** A close request during the countdown is ignored: it calls nothing
      and leaves the session as it was. */
  lemma NoCloseDuringCountdown(s: Session, n: nat)
    requires Invariant(s) && !s.visible && n < 5
    ensures var counting := Run(Shown(s).next, Ticks(n));
            Run(Shown(s).next, Ticks(n) + [PressClose]) == Step(counting.next, [])
  {
    var shown := Shown(s).next;
    TicksFrom(shown, n);
    RunAppend(shown, Ticks(n), [PressClose]);
  }

  /** Hiding the ad cancels the interval: no later tick changes anything or
      grants anything. */
  lemma HideCancelsTimer(s: Session, n: nat)
    ensures Run(Hidden(s).next, Ticks(n)) == Step(Hidden(s).next, [])
  {
    StoppedTicks(Hidden(s).next, n);
  }

  /** Over any sequence of events, every `onWatchComplete` comes with
      `addPoints(5)`; neither happens unless the ad is rewarded and has a
      callback; and there is at most one completion per showing: the
      completions, plus one for an interval still running at the end, are
      at most the showings plus one for an interval running at the start. */
  lemma {:induction false} RewardOncePerShowing(s: Session, events: seq<Event>)
    requires Invariant(s)
    ensures var r := Run(s, events);
            && Points(r.effects) == RewardPoints * Completions(r.effects)
            && (!(s.isRewarded && s.hasCallback) ==> Completions(r.effects) == 0)
            && Completions(r.effects) + (if r.next.timerRunning then 1 else 0)
               <= CountShows(events) + (if s.timerRunning then 1 else 0)
    decreases |events|
  {
    if events != [] {
      var first := Apply(s, events[0]);
      var rest := Run(first.next, events[1..]);
      RewardOncePerShowing(first.next, events[1..]);
      CountsDistribute(first.effects, rest.effects);
      RewardCounts(s);
      assert Completions([CloseCallback]) == 0 && Points([CloseCallback]) == 0;
    }
  }

  /** One full showing: show, five ticks, close, then the parent hides. */
  function Showing(): seq<Event> {
    [ShowAd] + Ticks(5) + [PressClose, HideAd]
  }

  lemma {:induction false} OneShowing(s: Session)
    requires Invariant(s) && !s.visible
    ensures var r := Run(s, Showing());
            && Invariant(r.next) && !r.next.visible
            && r.next.isRewarded == s.isRewarded && r.next.hasCallback == s.hasCallback
            && r.effects == RewardEffects(s) + [CloseCallback]
  {
    var shown := Shown(s).next;
    FiveSecondCountdown(s, 5);
    TicksFrom(shown, 5);
    var ticked := Run(shown, Ticks(5));
    RunAppend(s, [ShowAd], Ticks(5));
    RunAppend(s, [ShowAd] + Ticks(5), [PressClose, HideAd]);
    assert Run(s, [ShowAd]) == Step(shown, []);
    var closing := Run(ticked.next, [PressClose, HideAd]);
    assert closing.effects == [CloseCallback];
  }

  /** Nothing prevents a second reward: showing a rewarded ad to completion
      twice grants 5 points twice. */
  lemma ReshowGrantsAgain(s: Session)
    requires Invariant(s) && !s.visible && s.isRewarded && s.hasCallback
    ensures Run(s, Showing() + Showing()).effects
            == [AddPoints(RewardPoints), WatchComplete, CloseCallback,
                AddPoints(RewardPoints), WatchComplete, CloseCallback]
    ensures Points(Run(s, Showing() + Showing()).effects) == 2 * RewardPoints
  {
    OneShowing(s);
    var after := Run(s, Showing()).next;
    OneShowing(after);
    RunAppend(s, Showing(), Showing());
    var once := RewardEffects(s) + [CloseCallback];
    RewardCounts(s);
    CountsDistribute(RewardEffects(s), [CloseCallback]);
    CountsDistribute(once, once);
  }

  // ---------------------------------------------------------------------------
  // The component
  // ---------------------------------------------------------------------------

  class InterstitialAd {
    const isRewarded: bool
    const hasCallback: bool
    var visible: bool
    var countdown: int
    var canSkip: bool
    var timerRunning: bool
    /** Every call made on `addPoints`, `onWatchComplete` and `onClose`. */
    ghost var effects: seq<Effect>

    ghost function State(): Session
      reads this
    {
      Session(visible, countdown, canSkip, timerRunning, isRewarded, hasCallback)
    }

    ghost predicate Valid()
      reads this
    {
      Invariant(State())
    }

    constructor (isRewarded: bool, hasCallback: bool)
      ensures Valid() && State() == Initial(isRewarded, hasCallback) && effects == []
    {
      this.isRewarded := isRewarded;
      this.hasCallback := hasCallback;
      visible := false;
      countdown := CountdownStart;
      canSkip := false;
      timerRunning := false;
      effects := [];
    }

    /** The effect run when `visible` turns true. */
    method Show()
      requires Valid()
      modifies this
      ensures Valid()
      ensures State() == Shown(old(State())).next && effects == old(effects)
      ensures !old(visible) ==> visible && countdown == CountdownStart && !canSkip && timerRunning
    {
      if !visible {
        visible := true;
        countdown := CountdownStart;
        canSkip := false;
        timerRunning := true;
      }
    }

    /** The cleanup run when `visible` turns false. */
    method Hide()
      requires Valid()
      modifies this
      ensures Valid()
      ensures State() == Hidden(old(State())).next && effects == old(effects)
      ensures !visible && !timerRunning
    {
      visible := false;
      timerRunning := false;
    }

    /** One firing of the interval callback. */
    method Tick()
      requires Valid()
      modifies this
      ensures Valid()
      ensures State() == Ticked(old(State())).next
      ensures effects == old(effects) + Ticked(old(State())).effects
    {
      if timerRunning {
        var prev := countdown;
        if prev <= 1 {
          timerRunning := false;
          canSkip := true;
          if isRewarded && hasCallback {
            effects := effects + [AddPoints(RewardPoints)];
            effects := effects + [WatchComplete];
          }
          countdown := 0;
        } else {
          countdown := prev - 1;
        }
      }
    }

    /** `onRequestClose` or a press of the close button. */
    method RequestClose() returns (closed: bool)
      requires Valid()
      modifies this`effects
      ensures closed <==> visible && canSkip
      ensures effects == old(effects) + CloseRequested(State()).effects
    {
      closed := visible && canSkip;
      if closed {
        effects := effects + [CloseCallback];
      }
    }

    /** The header: the close button once closing is enabled, otherwise
        the seconds left, as `{countdown}s`. */
    method Header() returns (h: Header)
      requires Valid()
      ensures h == HeaderOf(State())
    {
      h := HeaderOf(Session(visible, countdown, canSkip, timerRunning, isRewarded, hasCallback));
    }

    /** The interval firing once a second until it clears itself. */
    method RunTimer()
      requires Valid()
      modifies this
      ensures Valid() && !timerRunning
      ensures old(timerRunning) ==> countdown == 0 && canSkip && visible
      ensures old(timerRunning) ==> effects == old(effects) + RewardEffects(old(State()))
      ensures !old(timerRunning) ==> State() == old(State()) && effects == old(effects)
    {
      ghost var start := State();
      while timerRunning
        invariant Valid()
        invariant isRewarded == start.isRewarded && hasCallback == start.hasCallback
        invariant timerRunning ==> effects == old(effects) && visible
        invariant !timerRunning && start.timerRunning ==>
          countdown == 0 && canSkip && visible && effects == old(effects) + RewardEffects(start)
        invariant !start.timerRunning ==> State() == start && effects == old(effects)
        decreases countdown
      {
        Tick();
      }
    }
  }
}
