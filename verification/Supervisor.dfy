/** Restarting a supervised task: backoff delays and the restart limit. Times are in nanoseconds. */
module Supervisor {
  import opened Naturals

  const MAX_DURATION := (0x1_0000_0000_0000_0000 - 1) * 1_000_000_000 + 999_999_999

  datatype RestartPolicy = Always | OnFailure | Never

  datatype Config = Config(policy: RestartPolicy, initialDelay: nat, maxDelay: nat, resetAfter: nat, maxRestarts: nat,
                           notify: bool)

  function Min(a: nat, b: nat): nat { if a < b then a else b }

  /** `d` doubled `k` times. */
  function Doubled(d: nat, k: nat): nat {
    if k == 0 then d else 2 * Doubled(d, k - 1)
  }

  /** The delay doubles with every attempt, saturating, up to the configured maximum. */
  function NextDelay(cfg: Config, attempt: nat): nat {
    Min(Min(Doubled(cfg.initialDelay, Min(attempt, 31)), MAX_DURATION), cfg.maxDelay)
  }

  // ---- The supervision loop ----

  datatype Outcome = Succeeded | Failed | Panicked

  /** What the supervisor waits for: the end of its task at some time, or a shutdown. */
  datatype Signal = Exit(outcome: Outcome, now: nat) | Shutdown

  /** A granted restart: when, in which window, and the delay before the restarted task runs. */
  datatype Grant = Grant(time: nat, window: nat, delay: nat)

  datatype Status = Running | Stopped | GaveUp

  datatype State = State(attempt: nat, restartCount: nat, windowStart: nat, grants: seq<Grant>,
                         callbacks: nat, status: Status)

  predicate ShouldRestart(policy: RestartPolicy, outcome: Outcome) {
    match outcome
    case Succeeded => policy == Always
    case Failed => policy == Always || policy == OnFailure
    case Panicked => policy == Always || policy == OnFailure
  }

  function Init(start: nat): State {
    State(0, 0, start, [], 0, Running)
  }

  function Handle(cfg: Config, s: State, e: Signal): State {
    if s.status != Running then s
    else
      match e
      case Shutdown => s.(status := Stopped)
      case Exit(outcome, now) =>
        if !ShouldRestart(cfg.policy, outcome) then s.(status := Stopped)
        else
          var reset := now - s.windowStart > cfg.resetAfter;
          var window := if reset then now else s.windowStart;
          var count := (if reset then 0 else s.restartCount) + 1;
          if count > cfg.maxRestarts then
            s.(restartCount := count, windowStart := window, callbacks := s.callbacks + (if cfg.notify then 1 else 0), status := GaveUp)
          else
            s.(attempt := s.attempt + 1, restartCount := count, windowStart := window,
               grants := s.grants + [Grant(now, window, NextDelay(cfg, s.attempt))])
  }

  function Run(cfg: Config, s: State, signals: seq<Signal>): State
    decreases |signals|
  {
    if signals == [] then s else Run(cfg, Handle(cfg, s, signals[0]), signals[1..])
  }

  /** Supervises a task through a sequence of signals; what follows the end of supervision is ignored. */
  method SuperviseTask(cfg: Config, start: nat, signals: seq<Signal>) returns (s: State)
    ensures s == Run(cfg, Init(start), signals)
  {
    var attempt: nat, restartCount: nat, windowStart: nat := 0, 0, start;
    var grants: seq<Grant> := [];
    for i := 0 to |signals|
      invariant Run(cfg, State(attempt, restartCount, windowStart, grants, 0, Running), signals[i..])
                == Run(cfg, Init(start), signals)
    {
      ghost var here := State(attempt, restartCount, windowStart, grants, 0, Running);
      assert signals[i..][1..] == signals[i + 1..];
      if signals[i].Shutdown? {
        StoppedStays(cfg, Handle(cfg, here, signals[i]), signals[i + 1..]);
        return State(attempt, restartCount, windowStart, grants, 0, Stopped);
      }
      if !ShouldRestart(cfg.policy, signals[i].outcome) {
        StoppedStays(cfg, Handle(cfg, here, signals[i]), signals[i + 1..]);
        return State(attempt, restartCount, windowStart, grants, 0, Stopped);
      }
      var now := signals[i].now;
      if now - windowStart > cfg.resetAfter {
        windowStart := now;
        restartCount := 0;
      }
      restartCount := restartCount + 1;
      if restartCount > cfg.maxRestarts {
        StoppedStays(cfg, Handle(cfg, here, signals[i]), signals[i + 1..]);
        return State(attempt, restartCount, windowStart, grants, if cfg.notify then 1 else 0, GaveUp);
      }
      grants := grants + [Grant(now, windowStart, NextDelay(cfg, attempt))];
      attempt := attempt + 1;
    }
    return State(attempt, restartCount, windowStart, grants, 0, Running);
  }

  lemma {:induction false} StoppedStays(cfg: Config, s: State, signals: seq<Signal>)
    requires s.status != Running
    ensures Run(cfg, s, signals) == s
    decreases |signals|
  {
    if signals != [] {
      StoppedStays(cfg, s, signals[1..]);
    }
  }

  /** Signals that end supervision for good: a shutdown, any end of a task that is never restarted,
      and the success of one that is restarted on failure only. */
  ghost predicate Ends(policy: RestartPolicy, e: Signal) {
    e.Shutdown? || policy == Never || (policy == OnFailure && e.outcome == Succeeded)
  }

  /** Signal `k` ends supervision while it is still going. */
  ghost predicate EndsAt(cfg: Config, s: State, signals: seq<Signal>, k: int) {
    0 <= k < |signals| && Ends(cfg.policy, signals[k]) && Run(cfg, s, signals[..k]).status == Running
  }

  lemma {:induction false} EndsAtRest(cfg: Config, s: State, signals: seq<Signal>, k: int)
    requires signals != [] && k > 0
    ensures EndsAt(cfg, s, signals, k) <==> EndsAt(cfg, Handle(cfg, s, signals[0]), signals[1..], k - 1)
  {
    hide Handle, Ends;
    if k < |signals| {
      assert signals[..k][1..] == signals[1..][..k - 1] && signals[..k][0] == signals[0];
    }
  }

  lemma {:induction false} HandleStops(cfg: Config, s: State, e: Signal)
    requires s.status == Running
    ensures Handle(cfg, s, e).status == Stopped <==> Ends(cfg.policy, e)
  {
    hide NextDelay;
  }

  /** Supervision is stopped exactly by the first such signal that comes while it is going: under
      `Always` only by a shutdown, under `OnFailure` also by a success, under `Never` by any end. */
  lemma {:induction false} StoppedIff(cfg: Config, s: State, signals: seq<Signal>)
    requires s.status == Running
    ensures Run(cfg, s, signals).status == Stopped <==> exists k :: EndsAt(cfg, s, signals, k)
    decreases |signals|
  {
    hide Handle, Ends;
    if signals != [] {
      var next, rest := Handle(cfg, s, signals[0]), signals[1..];
      HandleStops(cfg, s, signals[0]);
      assert signals[..0] == [];
      assert EndsAt(cfg, s, signals, 0) <==> next.status == Stopped;
      if next.status == Running {
        StoppedIff(cfg, next, rest);
        if k :| EndsAt(cfg, next, rest, k) {
          EndsAtRest(cfg, s, signals, k + 1);
        }
      } else {
        StoppedStays(cfg, next, rest);
      }
      if k :| EndsAt(cfg, s, signals, k) {
        if k > 0 {
          EndsAtRest(cfg, s, signals, k);
          if next.status != Running {
            StoppedStays(cfg, next, rest[..k - 1]);
          }
        }
      }
    }
  }

  // ---- Backoff ----

  lemma {:induction false} DoubledIsProduct(d: nat, k: nat)
    ensures Doubled(d, k) == d * Pow2(k)
    decreases k
  {
    if k > 0 {
      DoubledIsProduct(d, k - 1);
    }
  }

  /** The delay is the saturated product with a power of two, the exponent being at most 31. */
  lemma {:induction false} DelayIsProduct(cfg: Config, attempt: nat)
    ensures NextDelay(cfg, attempt) ==
            Min(Min(cfg.initialDelay * Pow2(Min(attempt, 31)), MAX_DURATION), cfg.maxDelay)
  {
    hide Doubled, Pow2;
    DoubledIsProduct(cfg.initialDelay, Min(attempt, 31));
  }

  lemma {:induction false} DoubledMono(d: nat, a: nat, b: nat)
    requires a <= b
    ensures Doubled(d, a) <= Doubled(d, b)
    ensures Doubled(d, a) == 0 <==> d == 0
    decreases b
  {
    if a < b {
      DoubledMono(d, a, b - 1);
    } else if a > 0 {
      DoubledMono(d, a - 1, b - 1);
    }
  }

  /** Later attempts never wait less, and none waits longer than the maximum. */
  lemma {:induction false} DelayMonotone(cfg: Config, a: nat, b: nat)
    requires a <= b
    ensures NextDelay(cfg, a) <= NextDelay(cfg, b) <= cfg.maxDelay
  {
    hide Doubled;
    DoubledMono(cfg.initialDelay, Min(a, 31), Min(b, 31));
  }

  /** The first delay is the initial one; each attempt doubles it up to the maximum, and the
      doubling stops after 31 attempts. A duration never exceeds `MAX_DURATION`. */
  lemma {:induction false} DelayDoubles(cfg: Config, attempt: nat)
    requires cfg.initialDelay <= MAX_DURATION && cfg.maxDelay <= MAX_DURATION
    ensures NextDelay(cfg, 0) == Min(cfg.initialDelay, cfg.maxDelay)
    ensures NextDelay(cfg, attempt + 1) ==
            if attempt < 31 then Min(2 * NextDelay(cfg, attempt), cfg.maxDelay) else NextDelay(cfg, attempt)
  {
    assert attempt < 31 ==> Doubled(cfg.initialDelay, attempt + 1) == 2 * Doubled(cfg.initialDelay, attempt);
  }

  // ---- What holds in every run ----

  /** The earliest time at which the current task can end. */
  ghost function EarliestExit(s: State): nat {
    if s.grants == [] then s.windowStart
    else var g := s.grants[|s.grants| - 1]; g.time + g.delay
  }

  /** A task ends no earlier than it was started, after its backoff delay. */
  ghost predicate Timely(cfg: Config, s: State, signals: seq<Signal>)
    decreases |signals|
  {
    signals != [] ==>
      && (s.status == Running && signals[0].Exit? ==> EarliestExit(s) <= signals[0].now)
      && Timely(cfg, Handle(cfg, s, signals[0]), signals[1..])
  }

  /** Grants lie within their windows, later windows start more than `resetAfter` later, and
      no window has more than `maxRestarts` of them. */
  ghost predicate WellWindowed(cfg: Config, gs: seq<Grant>) {
    && (forall i :: 0 <= i < |gs| ==> gs[i].window <= gs[i].time <= gs[i].window + cfg.resetAfter)
    && (forall i, j :: 0 <= i < j < |gs| ==> gs[i].time <= gs[j].time)
    && (forall i, j :: 0 <= i < j < |gs| ==>
          gs[i].window == gs[j].window || gs[i].window + cfg.resetAfter < gs[j].window)
    && (forall i, j :: 0 <= i < |gs| && i + cfg.maxRestarts <= j < |gs| ==> gs[i].window != gs[j].window)
  }

  ghost predicate Inv(cfg: Config, s: State) {
    && WellWindowed(cfg, s.grants)
    && s.attempt == |s.grants|
    && (forall i :: 0 <= i < |s.grants| ==> s.grants[i].delay == NextDelay(cfg, i))
    && (forall i, j :: 0 <= i < j < |s.grants| ==> s.grants[i].time + s.grants[i].delay <= s.grants[j].time)
    && s.callbacks == (if s.status == GaveUp && cfg.notify then 1 else 0)
    && (s.status == Running ==>
          && s.windowStart <= EarliestExit(s)
          && s.restartCount <= cfg.maxRestarts && s.restartCount <= |s.grants|
          && (forall i :: 0 <= i < |s.grants| - s.restartCount ==> s.grants[i].window + cfg.resetAfter < s.windowStart)
          && (forall i :: |s.grants| - s.restartCount <= i < |s.grants| ==> s.grants[i].window == s.windowStart))
  }

  lemma {:induction false} HandleKeepsInv(cfg: Config, s: State, e: Signal)
    requires Inv(cfg, s) && (s.status == Running && e.Exit? ==> EarliestExit(s) <= e.now)
    ensures Inv(cfg, Handle(cfg, s, e))
  {
    hide NextDelay, WellWindowed;
    if s.status == Running && e.Exit? && Handle(cfg, s, e).status == Running {
      GrantKeepsInv(cfg, s, e);
    }
  }

  lemma {:induction false} GrantKeepsInv(cfg: Config, s: State, e: Signal)
    requires Inv(cfg, s) && s.status == Running && e.Exit? && EarliestExit(s) <= e.now
    requires Handle(cfg, s, e).status == Running
    ensures Inv(cfg, Handle(cfg, s, e))
  {
    hide NextDelay, WellWindowed;
    var d := Handle(cfg, s, e);
    GrantFits(cfg, s, e.now, d.windowStart, d.restartCount);
    forall i | 0 <= i < |s.grants|
      ensures s.grants[i].time + s.grants[i].delay <= e.now
    {
      if i < |s.grants| - 1 {
        assert s.grants[i].time + s.grants[i].delay <= s.grants[|s.grants| - 1].time;
      }
    }
    if d.windowStart == e.now && e.now - s.windowStart > cfg.resetAfter {
      OlderWindows(cfg, s, e.now);
    }
  }

  lemma {:induction false} OlderWindows(cfg: Config, s: State, now: nat)
    requires Inv(cfg, s) && s.status == Running && now - s.windowStart > cfg.resetAfter
    ensures forall i :: 0 <= i < |s.grants| ==> s.grants[i].window + cfg.resetAfter < now
  {
  }

  lemma {:induction false} GrantFits(cfg: Config, s: State, now: nat, window: nat, count: nat)
    requires Inv(cfg, s) && s.status == Running && EarliestExit(s) <= now
    requires window == if now - s.windowStart > cfg.resetAfter then now else s.windowStart
    requires count == (if now - s.windowStart > cfg.resetAfter then 0 else s.restartCount) + 1
    requires count <= cfg.maxRestarts
    ensures WellWindowed(cfg, s.grants + [Grant(now, window, NextDelay(cfg, s.attempt))])
  {
    hide NextDelay;
    var n := |s.grants|;
    var gs := s.grants + [Grant(now, window, NextDelay(cfg, s.attempt))];
    forall i | 0 <= i < n
      ensures s.grants[i].time <= now
      ensures s.grants[i].window == window || s.grants[i].window + cfg.resetAfter < window
      ensures i + cfg.maxRestarts <= n ==> s.grants[i].window != window
    {
      OldAgainstNew(cfg, s, now, window, count, i);
    }
    forall i, j | 0 <= i < j < |gs|
      ensures gs[i].time <= gs[j].time
      ensures gs[i].window == gs[j].window || gs[i].window + cfg.resetAfter < gs[j].window
      ensures i + cfg.maxRestarts <= j ==> gs[i].window != gs[j].window
    {
      assert gs[i] == s.grants[i];
      if j < n {
        assert gs[j] == s.grants[j];
      }
    }
  }

  lemma {:induction false} OldAgainstNew(cfg: Config, s: State, now: nat, window: nat, count: nat, i: nat)
    requires Inv(cfg, s) && s.status == Running && EarliestExit(s) <= now && i < |s.grants|
    requires window == if now - s.windowStart > cfg.resetAfter then now else s.windowStart
    requires count == (if now - s.windowStart > cfg.resetAfter then 0 else s.restartCount) + 1
    requires count <= cfg.maxRestarts
    ensures s.grants[i].time <= now
    ensures s.grants[i].window == window || s.grants[i].window + cfg.resetAfter < window
    ensures i + cfg.maxRestarts <= |s.grants| ==> s.grants[i].window != window
  {
    hide NextDelay, WellWindowed;
    if i < |s.grants| - 1 {
      assert s.grants[i].time + s.grants[i].delay <= s.grants[|s.grants| - 1].time;
    }
  }

  lemma {:induction false} RunKeepsInv(cfg: Config, s: State, signals: seq<Signal>)
    requires Inv(cfg, s) && Timely(cfg, s, signals)
    ensures Inv(cfg, Run(cfg, s, signals))
    decreases |signals|
  {
    hide Inv, Handle;
    if signals != [] {
      HandleKeepsInv(cfg, s, signals[0]);
      RunKeepsInv(cfg, Handle(cfg, s, signals[0]), signals[1..]);
    }
  }

  // ---- The restart limit over any span of time ----

  ghost function GrantsWithin(gs: seq<Grant>, t: nat, span: nat): set<nat> {
    set i: nat | i < |gs| && t <= gs[i].time <= t + span
  }

  ghost function Below(a: nat, b: nat): set<nat>
    requires a <= b
    decreases b
  {
    if a == b then {} else Below(a, b - 1) + {b - 1}
  }

  lemma {:induction false} BelowIs(a: nat, b: nat)
    requires a <= b
    ensures |Below(a, b)| == b - a
    ensures forall i: nat :: i in Below(a, b) <==> a <= i < b
    decreases b
  {
    if a < b {
      BelowIs(a, b - 1);
    }
  }

  lemma {:induction false} SubsetSize(a: set<nat>, b: set<nat>)
    requires a <= b
    ensures |a| <= |b| && (|a| == |b| ==> a == b)
  {
    assert |a + (b - a)| == |a| + |b - a|;
    assert b == a + (b - a);
    if |a| == |b| {
      assert b - a == {};
    }
  }

  /** Grants `2 * maxRestarts` places apart are more than `resetAfter` apart. */
  lemma {:induction false} FarApart(cfg: Config, gs: seq<Grant>, i: nat, j: nat)
    requires WellWindowed(cfg, gs) && i + 2 * cfg.maxRestarts <= j < |gs|
    ensures gs[j].time > gs[i].time + cfg.resetAfter
  {
    var m := i + cfg.maxRestarts;
    assert gs[i].window != gs[m].window && gs[m].window != gs[j].window;
  }

  /** Among more than `m` grants within a span, two lie `m` places apart. */
  lemma {:induction false} WideSpread(gs: seq<Grant>, t: nat, span: nat, m: nat) returns (a: nat)
    requires |GrantsWithin(gs, t, span)| > m
    requires forall i, j :: 0 <= i < j < |gs| ==> gs[i].time <= gs[j].time
    ensures a + m < |gs| && gs[a + m].time <= gs[a].time + span
  {
    hide Below;
    var inside := GrantsWithin(gs, t, span);
    a := LeastExists(inside);
    BelowIs(a, a + m);
    if inside <= Below(a, a + m) {
      SubsetSize(inside, Below(a, a + m));
    } else {
      var i :| i in inside && i !in Below(a, a + m);
      assert a + m <= i;
    }
  }

  lemma {:induction false} SpanLimit(cfg: Config, gs: seq<Grant>, t: nat)
    requires WellWindowed(cfg, gs)
    ensures |GrantsWithin(gs, t, cfg.resetAfter)| <= 2 * cfg.maxRestarts
  {
    if |GrantsWithin(gs, t, cfg.resetAfter)| > 2 * cfg.maxRestarts {
      var a := WideSpread(gs, t, cfg.resetAfter, 2 * cfg.maxRestarts);
      FarApart(cfg, gs, a, a + 2 * cfg.maxRestarts);
    }
  }

  lemma {:induction false} InitInv(cfg: Config, start: nat)
    ensures Inv(cfg, Init(start))
  {
  }

  /** Over every run: any span of length `resetAfter` holds at most `2 * maxRestarts` restarts,
      one window at most `maxRestarts`; delays never shrink and never exceed the maximum; and the
      failure callback fires at most once, exactly when the supervisor gives up. */
  lemma {:induction false} RunGuarantees(cfg: Config, start: nat, signals: seq<Signal>)
    requires Timely(cfg, Init(start), signals)
    ensures var s := Run(cfg, Init(start), signals); var gs := s.grants;
            && (forall t :: |GrantsWithin(gs, t, cfg.resetAfter)| <= 2 * cfg.maxRestarts)
            && (forall i, j :: 0 <= i < |gs| && i + cfg.maxRestarts <= j < |gs| ==> gs[i].window != gs[j].window)
            && (forall i, j :: 0 <= i < j < |gs| ==> gs[i].delay <= gs[j].delay <= cfg.maxDelay)
            && (forall i :: 0 <= i < |gs| ==> gs[i].delay == NextDelay(cfg, i))
            && s.callbacks == (if s.status == GaveUp && cfg.notify then 1 else 0)
  {
    hide Run, Timely, GrantsWithin, NextDelay;
    InitInv(cfg, start);
    RunKeepsInv(cfg, Init(start), signals);
    var gs := Run(cfg, Init(start), signals).grants;
    forall t: nat
      ensures |GrantsWithin(gs, t, cfg.resetAfter)| <= 2 * cfg.maxRestarts
    {
      SpanLimit(cfg, gs, t);
    }
    forall i, j | 0 <= i < j < |gs|
      ensures gs[i].delay <= gs[j].delay <= cfg.maxDelay
    {
      DelayMonotone(cfg, i, j);
    }
  }

  /** After any run that is still going, the end of its task makes the supervisor give up if and
      only if it would be restarted and the window of the `maxRestarts`-th latest restart is
      still open. Nothing happens after that. */
  lemma {:induction false} GivesUpIff(cfg: Config, start: nat, signals: seq<Signal>, e: Signal, rest: seq<Signal>)
    requires Timely(cfg, Init(start), signals + [e])
    requires Run(cfg, Init(start), signals).status == Running
    ensures var s := Run(cfg, Init(start), signals); var n := |s.grants|;
            && (Run(cfg, Init(start), signals + [e]).status == GaveUp <==>
                  && e.Exit? && ShouldRestart(cfg.policy, e.outcome)
                  && (cfg.maxRestarts == 0 ||
                      (n >= cfg.maxRestarts && e.now <= s.grants[n - cfg.maxRestarts].window + cfg.resetAfter)))
            && (Run(cfg, Init(start), signals + [e]).status == GaveUp ==>
                  Run(cfg, Init(start), signals + [e] + rest) == Run(cfg, Init(start), signals + [e]))
  {
    hide *;
    InitInv(cfg, start);
    TimelySplit(cfg, Init(start), signals, [e]);
    RunKeepsInv(cfg, Init(start), signals);
    var s := Run(cfg, Init(start), signals);
    RunSplit(cfg, Init(start), signals, [e]);
    OneStep(cfg, s, e);
    RunSplit(cfg, Init(start), signals + [e], rest);
    if Handle(cfg, s, e).status == GaveUp {
      StoppedStays(cfg, Handle(cfg, s, e), rest);
    }
  }

  lemma {:induction false} OneStep(cfg: Config, s: State, e: Signal)
    requires Inv(cfg, s) && s.status == Running && Timely(cfg, s, [e])
    ensures Run(cfg, s, [e]) == Handle(cfg, s, e)
    ensures var n := |s.grants|;
            Handle(cfg, s, e).status == GaveUp <==>
              && e.Exit? && ShouldRestart(cfg.policy, e.outcome)
              && (cfg.maxRestarts == 0 ||
                  (n >= cfg.maxRestarts && e.now <= s.grants[n - cfg.maxRestarts].window + cfg.resetAfter))
  {
  }

  lemma {:induction false} RunSplit(cfg: Config, s: State, a: seq<Signal>, b: seq<Signal>)
    ensures Run(cfg, s, a + b) == Run(cfg, Run(cfg, s, a), b)
    decreases |a|
  {
    hide Handle;
    if a == [] {
      assert a + b == b;
    } else {
      RunSplit(cfg, Handle(cfg, s, a[0]), a[1..], b);
      assert (a + b)[1..] == a[1..] + b;
    }
  }

  lemma {:induction false} TimelySplit(cfg: Config, s: State, a: seq<Signal>, b: seq<Signal>)
    ensures Timely(cfg, s, a + b) <==> Timely(cfg, s, a) && Timely(cfg, Run(cfg, s, a), b)
    decreases |a|
  {
    hide Handle, EarliestExit;
    if a == [] {
      assert a + b == b;
    } else {
      TimelySplit(cfg, Handle(cfg, s, a[0]), a[1..], b);
      assert (a + b)[1..] == a[1..] + b;
    }
  }

  // ---- How many restarts a span can hold ----

  /** The total of `n` successive delays, from the one after restart `k` on. */
  function DelaySum(cfg: Config, k: nat, n: nat): nat
    decreases n
  {
    if n == 0 then 0 else NextDelay(cfg, k) + DelaySum(cfg, k + 1, n - 1)
  }

  function AtLeastOne(n: nat): nat { if n == 0 then 1 else n }

  /** The least time in which `n` restarts, more than one window holds, can happen: the delays
      between the first `n`, and one moment at least for the window to change. */
  function TightSpan(cfg: Config, n: nat): nat
    requires n > 0
  {
    AtLeastOne(DelaySum(cfg, 0, n - 1))
  }

  lemma {:induction false} DelaySumMono(cfg: Config, k: nat, l: nat, n: nat)
    requires k <= l
    ensures DelaySum(cfg, k, n) <= DelaySum(cfg, l, n)
    decreases n
  {
    hide NextDelay;
    if n > 0 {
      DelayMonotone(cfg, k, l);
      DelaySumMono(cfg, k + 1, l + 1, n - 1);
    }
  }

  lemma {:induction false} GrantsSpread(cfg: Config, s: State, k: nat, n: nat)
    requires Inv(cfg, s) && k + n < |s.grants|
    ensures s.grants[k].time + DelaySum(cfg, k, n) <= s.grants[k + n].time
    decreases n
  {
    hide NextDelay, WellWindowed;
    if n > 0 {
      GrantsSpread(cfg, s, k + 1, n - 1);
      assert s.grants[k].time + s.grants[k].delay <= s.grants[k + 1].time;
    }
  }

  /** Restarts that do not fit into one window take at least the tight span. */
  lemma {:induction false} OverfullSpanIsLong(cfg: Config, s: State, a: nat, n: nat)
    requires Inv(cfg, s) && cfg.maxRestarts < n && a + n <= |s.grants|
    requires s.grants[a + n - 1].time <= s.grants[a].time + cfg.resetAfter
    ensures TightSpan(cfg, n) <= cfg.resetAfter
  {
    hide NextDelay, DelaySum;
    GrantsSpread(cfg, s, a, n - 1);
    DelaySumMono(cfg, 0, a, n - 1);
    assert s.grants[a].window != s.grants[a + n - 1].window;
  }

  /** `n` failures, each as soon as the restarted task runs, the first at `t`. */
  function Burst(cfg: Config, k: nat, t: nat, n: nat): seq<Signal>
    decreases n
  {
    if n == 0 then [] else [Exit(Failed, t)] + Burst(cfg, k + 1, t + NextDelay(cfg, k), n - 1)
  }

  /** What a burst that is granted in full leaves behind. */
  ghost predicate Granted(cfg: Config, s: State, r: State, t: nat, n: nat) {
    && r.status == Running && r.attempt == |r.grants| == |s.grants| + n
    && r.grants[..|s.grants|] == s.grants
    && (n > 0 ==> EarliestExit(r) == t + DelaySum(cfg, |s.grants|, n))
    && (n > 0 ==> forall i :: |s.grants| <= i < |r.grants| ==>
          t <= r.grants[i].time <= t + DelaySum(cfg, |s.grants|, n - 1))
  }

  lemma {:induction false} GrantedStep(cfg: Config, s: State, next: State, r: State, t: nat, n: nat)
    requires n > 0 && |next.grants| == |s.grants| + 1 && next.grants[..|s.grants|] == s.grants
    requires next.grants[|s.grants|].time == t && next.grants[|s.grants|].delay == NextDelay(cfg, |s.grants|)
    requires Granted(cfg, next, r, t + NextDelay(cfg, |s.grants|), n - 1)
    requires n == 1 ==> r == next
    ensures Granted(cfg, s, r, t, n)
  {
    hide NextDelay;
    var k := |s.grants|;
    assert r.grants[..k] == r.grants[..k + 1][..k];
    assert r.grants[k] == r.grants[..k + 1][k];
    if n == 1 {
      assert DelaySum(cfg, k + 1, 0) == 0;
    }
  }

  lemma {:induction false} BurstGranted(cfg: Config, s: State, t: nat, n: nat)
    requires cfg.policy != Never && s.status == Running && s.attempt == |s.grants|
    requires EarliestExit(s) <= t && s.windowStart <= t && s.restartCount + n <= cfg.maxRestarts
    requires n > 0 ==> t + DelaySum(cfg, |s.grants|, n - 1) <= s.windowStart + cfg.resetAfter
    ensures var r := Run(cfg, s, Burst(cfg, |s.grants|, t, n));
            && Timely(cfg, s, Burst(cfg, |s.grants|, t, n))
            && Granted(cfg, s, r, t, n) && r.windowStart == s.windowStart
    decreases n
  {
    hide NextDelay, Granted;
    if n == 0 {
      assert Granted(cfg, s, s, t, 0) by { NothingGranted(cfg, s, t); }
    } else {
      var k := |s.grants|;
      var next := Handle(cfg, s, Exit(Failed, t));
      assert next.windowStart == s.windowStart;
      BurstGranted(cfg, next, t + NextDelay(cfg, k), n - 1);
      BurstHead(cfg, s, t, n);
      GrantedStep(cfg, s, next, Run(cfg, next, Burst(cfg, k + 1, t + NextDelay(cfg, k), n - 1)), t, n);
    }
  }

  lemma {:induction false} NothingGranted(cfg: Config, s: State, t: nat)
    requires s.status == Running && s.attempt == |s.grants|
    ensures Granted(cfg, s, s, t, 0)
  {
  }

  lemma {:induction false} BurstHead(cfg: Config, s: State, t: nat, n: nat)
    requires n > 0
    ensures var k := |s.grants|; var b := Burst(cfg, k, t, n);
            && b != [] && b[0] == Exit(Failed, t)
            && b[1..] == Burst(cfg, k + 1, t + NextDelay(cfg, k), n - 1)
  {
  }

  /** A burst that begins after the window has ended opens a new one and is granted in full. */
  lemma {:induction false} NewWindowBurst(cfg: Config, s: State, t: nat, n: nat)
    requires cfg.policy != Never && s.status == Running && s.attempt == |s.grants| && 0 < n <= cfg.maxRestarts
    requires EarliestExit(s) <= t && s.windowStart + cfg.resetAfter < t
    requires DelaySum(cfg, |s.grants|, n - 1) <= cfg.resetAfter
    ensures var r := Run(cfg, s, Burst(cfg, |s.grants|, t, n));
            Timely(cfg, s, Burst(cfg, |s.grants|, t, n)) && Granted(cfg, s, r, t, n)
  {
    hide NextDelay, Granted;
    var k := |s.grants|;
    var next := Handle(cfg, s, Exit(Failed, t));
    BurstGranted(cfg, next, t + NextDelay(cfg, k), n - 1);
    BurstHead(cfg, s, t, n);
    GrantedStep(cfg, s, next, Run(cfg, next, Burst(cfg, k + 1, t + NextDelay(cfg, k), n - 1)), t, n);
  }

  /** Some run has `n` or more restarts within one span of length `resetAfter`. */
  ghost predicate SpanHolds(cfg: Config, n: nat) {
    exists start: nat, signals: seq<Signal>, t: nat ::
      && Timely(cfg, Init(start), signals)
      && |GrantsWithin(Run(cfg, Init(start), signals).grants, t, cfg.resetAfter)| >= n
  }

  lemma {:induction false} DelaySumSplit(cfg: Config, k: nat, m: nat, n: nat)
    ensures DelaySum(cfg, k, m + n) == DelaySum(cfg, k, m) + DelaySum(cfg, k + m, n)
    decreases m
  {
    hide NextDelay;
    if m > 0 {
      DelaySumSplit(cfg, k + 1, m - 1, n);
    }
  }

  lemma {:induction false} ZeroDelay(cfg: Config, k: nat)
    ensures NextDelay(cfg, k) == 0 <==> cfg.initialDelay == 0 || cfg.maxDelay == 0
  {
    hide Doubled;
    DoubledMono(cfg.initialDelay, Min(k, 31), Min(k, 31));
  }

  /** If one delay is zero, all are. */
  lemma {:induction false} ZeroDelays(cfg: Config, k: nat, l: nat, n: nat)
    requires NextDelay(cfg, k) == 0
    ensures DelaySum(cfg, l, n) == 0
    decreases n
  {
    hide NextDelay;
    if n > 0 {
      ZeroDelay(cfg, k);
      ZeroDelay(cfg, l);
      ZeroDelays(cfg, k, l + 1, n - 1);
    }
  }

  /** The parts of a tight span: up to the end of the window, the change, and the new window. */
  lemma {:induction false} TightSpanParts(cfg: Config, m: nat, n: nat)
    requires 0 < m < n
    ensures TightSpan(cfg, n) == DelaySum(cfg, 0, m - 1) + AtLeastOne(NextDelay(cfg, m - 1)) + DelaySum(cfg, m, n - m - 1)
  {
    hide NextDelay;
    DelaySumSplit(cfg, 0, m - 1, n - m);
    assert DelaySum(cfg, m - 1, n - m) == NextDelay(cfg, m - 1) + DelaySum(cfg, m, n - m - 1);
    if NextDelay(cfg, m - 1) == 0 {
      ZeroDelays(cfg, m - 1, 0, m - 1);
      ZeroDelays(cfg, m - 1, m, n - m - 1);
    }
  }

  lemma {:induction false} TightRun(cfg: Config, n: nat)
    requires cfg.policy != Never && 0 < cfg.maxRestarts < n <= 2 * cfg.maxRestarts && TightSpan(cfg, n) <= cfg.resetAfter
    ensures SpanHolds(cfg, n)
  {
    hide NextDelay, DelaySum, Granted, Run, Timely, GrantsWithin, Burst, TightSpan;
    var m, r := cfg.maxRestarts, cfg.resetAfter;
    TightSpanParts(cfg, m, n);
    var t0: nat := r - DelaySum(cfg, 0, m - 1);
    var first := Burst(cfg, 0, t0, m);
    BurstGranted(cfg, Init(0), t0, m);
    var mid := Run(cfg, Init(0), first);
    MidState(cfg, mid, t0, m);
    var t1 := r + AtLeastOne(NextDelay(cfg, m - 1));
    var second := Burst(cfg, m, t1, n - m);
    NewWindowBurst(cfg, mid, t1, n - m);
    TimelySplit(cfg, Init(0), first, second);
    RunSplit(cfg, Init(0), first, second);
    AllWithin(cfg, mid, Run(cfg, mid, second), t0, t1, m, n);
  }

  lemma {:induction false} MidState(cfg: Config, mid: State, t0: nat, m: nat)
    requires m > 0 && Granted(cfg, Init(0), mid, t0, m)
    ensures mid.status == Running && mid.attempt == |mid.grants| == m
    ensures EarliestExit(mid) == t0 + DelaySum(cfg, 0, m - 1) + NextDelay(cfg, m - 1)
  {
    hide NextDelay;
    DelaySumSplit(cfg, 0, m - 1, 1);
    assert DelaySum(cfg, m - 1, 1) == NextDelay(cfg, m - 1) + DelaySum(cfg, m, 0);
  }

  lemma {:induction false} AllWithin(cfg: Config, mid: State, s: State, t0: nat, t1: nat, m: nat, n: nat)
    requires 0 < m < n && Granted(cfg, Init(0), mid, t0, m) && Granted(cfg, mid, s, t1, n - m)
    requires t0 + DelaySum(cfg, 0, m - 1) <= t0 + cfg.resetAfter
    requires t0 <= t1 && t1 + DelaySum(cfg, m, n - m - 1) <= t0 + cfg.resetAfter
    ensures |GrantsWithin(s.grants, t0, cfg.resetAfter)| == n
  {
    hide NextDelay, DelaySum;
    var inside := GrantsWithin(s.grants, t0, cfg.resetAfter);
    forall i: nat | i < n
      ensures i in inside
    {
      if i < m {
        assert s.grants[i] == s.grants[..m][i];
      }
    }
    BelowIs(0, n);
    assert inside == Below(0, n);
  }

  lemma {:induction false} NeverGrants(cfg: Config, s: State, signals: seq<Signal>)
    requires cfg.policy == Never
    ensures Run(cfg, s, signals).grants == s.grants
    decreases |signals|
  {
    hide NextDelay;
    if signals != [] {
      NeverGrants(cfg, Handle(cfg, s, signals[0]), signals[1..]);
    }
  }

  lemma {:induction false} HoldsMeansRoom(cfg: Config, n: nat)
    requires cfg.maxRestarts < n && SpanHolds(cfg, n)
    ensures cfg.policy != Never && n <= 2 * cfg.maxRestarts && TightSpan(cfg, n) <= cfg.resetAfter
  {
    hide TightSpan, Run, Timely, GrantsWithin, NextDelay;
    var start: nat, signals: seq<Signal>, t: nat :|
      && Timely(cfg, Init(start), signals)
      && |GrantsWithin(Run(cfg, Init(start), signals).grants, t, cfg.resetAfter)| >= n;
    var s := Run(cfg, Init(start), signals);
    RunGuarantees(cfg, start, signals);
    InitInv(cfg, start);
    RunKeepsInv(cfg, Init(start), signals);
    var a := WideSpread(s.grants, t, cfg.resetAfter, n - 1);
    OverfullSpanIsLong(cfg, s, a, n);
    if cfg.policy == Never {
      NeverGrants(cfg, Init(start), signals);
    }
  }

  /** Some run fits `n` restarts, more than the configured number, into one span of length
      `resetAfter` exactly when tasks are restarted at all, `n` is at most twice that number, and
      the delays between the first `n` leave room. */
  lemma {:induction false} SpanHoldsIff(cfg: Config, n: nat)
    requires cfg.maxRestarts < n
    ensures SpanHolds(cfg, n) <==>
            cfg.policy != Never && n <= 2 * cfg.maxRestarts && TightSpan(cfg, n) <= cfg.resetAfter
  {
    hide TightSpan, SpanHolds;
    if SpanHolds(cfg, n) {
      HoldsMeansRoom(cfg, n);
    } else if cfg.policy != Never && n <= 2 * cfg.maxRestarts && TightSpan(cfg, n) <= cfg.resetAfter {
      TightRun(cfg, n);
    }
  }

  /** The configured number is exceeded within some span exactly when the delays before the next
      restart, and one moment at least, fit into it. */
  lemma {:induction false} LimitExceededIff(cfg: Config)
    ensures SpanHolds(cfg, cfg.maxRestarts + 1) <==>
            && cfg.policy != Never && cfg.maxRestarts > 0
            && AtLeastOne(DelaySum(cfg, 0, cfg.maxRestarts)) <= cfg.resetAfter
  {
    hide SpanHolds;
    SpanHoldsIff(cfg, cfg.maxRestarts + 1);
  }

  const DEFAULT := Config(OnFailure, 100_000_000, 60_000_000_000, 60_000_000_000, 5, true)

  /** With the default configuration ten restarts, not five, can fall within one minute. */
  lemma {:induction false} DefaultReachesTen()
    ensures SpanHolds(DEFAULT, 10) && DEFAULT.maxRestarts == 5
  {
    assert DelaySum(DEFAULT, 0, 9) == 51_100_000_000;
    SpanHoldsIff(DEFAULT, 10);
  }

  const SHORT := DEFAULT.(resetAfter := 10_000_000_000)

  lemma {:induction false} ShortDelays()
    ensures DelaySum(SHORT, 0, 5) == 3_100_000_000 && NextDelay(SHORT, 7) == 12_800_000_000
  {
  }

  /** With a span of ten seconds instead, six can still fall within it, though ten cannot. */
  lemma {:induction false} ShortWindowExceeded()
    ensures SpanHolds(SHORT, 6) && !SpanHolds(SHORT, 10)
  {
    hide SpanHolds, NextDelay;
    ShortDelays();
    DelaySumSplit(SHORT, 0, 7, 2);
    assert DelaySum(SHORT, 7, 2) >= NextDelay(SHORT, 7);
    hide DelaySum;
    SpanHoldsIff(SHORT, 6);
    SpanHoldsIff(SHORT, 10);
  }
}
