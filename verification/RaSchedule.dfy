/**
  Router Advertisement scheduling (RFC 4861 sections 6.2.4 and 6.2.6): one timer serves
  periodic and solicited advertisements. Times and durations are integers in nanoseconds;
  the random draws are parameters constrained to their ranges.
*/
module RaSchedule {

  const SECOND: int := 1_000_000_000
  const MIN_DELAY_BETWEEN_RAS: int := 3 * SECOND
  const MAX_RA_DELAY: int := SECOND / 2
  const ADV_INTERVAL: int := 30 * SECOND

  function Max(a: int, b: int): int {
    if a < b then b else a
  }

  /** MinRtrAdvInterval: a third of the maximum, floored at 3 s. */
  function MinInterval(interval: int): int {
    Max(interval / 3, MIN_DELAY_BETWEEN_RAS)
  }

  /** The least value nextInterval can return. */
  function LeastDraw(interval: int): int {
    if MinInterval(interval) >= interval then interval else MinInterval(interval)
  }

  predicate IntervalDraw(interval: int, d: int) {
    if MinInterval(interval) >= interval then d == interval else MinInterval(interval) <= d < interval
  }

  predicate DelayDraw(d: int) {
    0 <= d < MAX_RA_DELAY
  }

  /** What the least interval comes to: a third of the maximum from 9 s on, 3 s below, the maximum itself below 3 s. */
  lemma LeastDrawMeaning(interval: int)
    requires 0 < interval
    ensures interval >= 9 * SECOND ==> LeastDraw(interval) == interval / 3
    ensures 3 * SECOND <= interval < 9 * SECOND ==> LeastDraw(interval) == 3 * SECOND
    ensures interval < 3 * SECOND ==> LeastDraw(interval) == interval
  {
  }

  /** The random part is drawn from [0, n), as the library's Int63n does. */
  method NextInterval(interval: int, random: int) returns (d: int)
    requires 0 < interval
    requires MinInterval(interval) < interval ==> 0 <= random < interval - MinInterval(interval)
    ensures IntervalDraw(interval, d)
    ensures LeastDraw(interval) <= d <= interval
  {
    var least := interval / 3;
    if least < MIN_DELAY_BETWEEN_RAS {
      least := MIN_DELAY_BETWEEN_RAS;
    }
    if least >= interval {
      return interval;
    }
    return least + random;
  }

  // ---------------------------------------------------------------------------
  // The schedule and its two event handlers
  // ---------------------------------------------------------------------------

  datatype Schedule = Schedule(next: int, lastSent: int)

  predicate Held(s: Schedule, now: int) {
    now < s.lastSent + MIN_DELAY_BETWEEN_RAS
  }

  function OnTimer(s: Schedule, now: int, interval: int): Schedule {
    if Held(s, now) then s.(next := s.lastSent + MIN_DELAY_BETWEEN_RAS)
    else Schedule(now + interval, now)
  }

  /** When section 6.2.6 wants a solicitation answered. */
  function Deadline(s: Schedule, now: int, delay: int): int {
    if Held(s, now) then s.lastSent + MIN_DELAY_BETWEEN_RAS + delay else now + delay
  }

  function OnSolicitation(s: Schedule, now: int, delay: int): Schedule {
    if Deadline(s, now, delay) < s.next then s.(next := Deadline(s, now, delay)) else s
  }

  class Timer {
    var next: int
    var lastSent: int

    ghost function Value(): Schedule
      reads this
    {
      Schedule(next, lastSent)
    }

    /** The initial advertisement goes out at once. */
    constructor (now: int, interval: int)
      ensures Value() == Schedule(now + interval, now)
    {
      next, lastSent := now + interval, now;
    }

    method At(when: int)
      modifies this`next
      ensures next == when
    {
      next := when;
    }

    method HeldUntil(now: int) returns (earliest: int, held: bool)
      ensures earliest == lastSent + MIN_DELAY_BETWEEN_RAS && held == Held(Value(), now)
    {
      earliest := lastSent + MIN_DELAY_BETWEEN_RAS;
      held := now < earliest;
    }

    method Fired(now: int, interval: int) returns (sent: bool)
      modifies this
      ensures Value() == OnTimer(old(Value()), now, interval)
      ensures sent == !Held(old(Value()), now)
    {
      var earliest, held := HeldUntil(now);
      if held {
        At(earliest);
        return false;
      }
      lastSent := now;
      At(now + interval);
      return true;
    }

    method Solicited(now: int, delay: int)
      modifies this
      ensures Value() == OnSolicitation(old(Value()), now, delay)
    {
      var at := now + delay;
      var earliest, held := HeldUntil(now);
      if held {
        at := earliest + delay;
      }
      if at < next {
        At(at);
      }
    }
  }

  // ---------------------------------------------------------------------------
  // Runs of the loop
  // ---------------------------------------------------------------------------

  datatype Event = TimerFires(now: int, interval: int) | Solicitation(now: int, delay: int)

  /** An advertisement sent, and whether a solicitation had moved it in. */
  datatype Sent = Sent(at: int, movedIn: bool)

  /** The schedule, the time of the last event, and what has happened so far. */
  datatype Loop = Loop(s: Schedule, clock: int, movedIn: bool, sent: seq<Sent>, deferrals: nat)

  function Start(now: int, interval: int): Loop {
    Loop(Schedule(now + interval, now), now, false, [Sent(now, false)], 0)
  }

  function Step(l: Loop, e: Event): Loop {
    match e
    case TimerFires(now, interval) =>
      if Held(l.s, now) then l.(s := OnTimer(l.s, now, interval), clock := now, deferrals := l.deferrals + 1)
      else Loop(OnTimer(l.s, now, interval), now, false, l.sent + [Sent(now, l.movedIn)], l.deferrals)
    case Solicitation(now, delay) =>
      l.(s := OnSolicitation(l.s, now, delay), clock := now,
         movedIn := l.movedIn || OnSolicitation(l.s, now, delay) != l.s)
  }

  function Run(l: Loop, es: seq<Event>): Loop
    decreases |es|
  {
    if es == [] then l else Run(Step(l, es[0]), es[1..])
  }

  /** The select loop over a stream of events, logging what it sends. */
  method RunLoop(now: int, interval: int, es: seq<Event>) returns (sent: seq<Sent>)
    ensures sent == Run(Start(now, interval), es).sent
  {
    var t := new Timer(now, interval);
    var movedIn := false;
    sent := [Sent(now, false)];
    ghost var l := Start(now, interval);
    var i := 0;
    while i < |es|
      invariant 0 <= i <= |es|
      invariant l.s == t.Value() && l.movedIn == movedIn && l.sent == sent
      invariant Run(l, es[i..]) == Run(Start(now, interval), es)
    {
      assert es[i..][1..] == es[i + 1..];
      l := Step(l, es[i]);
      match es[i] {
        case TimerFires(at, d) =>
          var out := t.Fired(at, d);
          if out {
            sent, movedIn := sent + [Sent(at, movedIn)], false;
          }
        case Solicitation(at, d) =>
          var before := t.next;
          t.Solicited(at, d);
          movedIn := movedIn || t.next != before;
      }
      i := i + 1;
    }
  }

  /** Random draws in range, and a clock that does not go back. */
  predicate Plausible(interval: int, l: Loop, e: Event) {
    l.clock <= e.now
    && match e
       case TimerFires(_, d) => IntervalDraw(interval, d)
       case Solicitation(_, d) => DelayDraw(d)
  }

  /** A timer may be late but never early. */
  predicate NotEarly(l: Loop, e: Event) {
    e.TimerFires? ==> l.s.next <= e.now
  }

  /** Timers fire exactly when due, so nothing else happens after that time first. */
  predicate OnTime(l: Loop, e: Event) {
    e.now <= l.s.next && (e.TimerFires? ==> e.now == l.s.next)
  }

  predicate PlausibleRun(interval: int, l: Loop, es: seq<Event>)
    decreases |es|
  {
    es == [] || (Plausible(interval, l, es[0]) && PlausibleRun(interval, Step(l, es[0]), es[1..]))
  }

  predicate NotEarlyRun(l: Loop, es: seq<Event>)
    decreases |es|
  {
    es == [] || (NotEarly(l, es[0]) && NotEarlyRun(Step(l, es[0]), es[1..]))
  }

  predicate OnTimeRun(l: Loop, es: seq<Event>)
    decreases |es|
  {
    es == [] || (OnTime(l, es[0]) && OnTimeRun(Step(l, es[0]), es[1..]))
  }

  // ---------------------------------------------------------------------------
  // Rate limit: no assumption on the timer, the clock or the draws
  // ---------------------------------------------------------------------------

  predicate Spaced(sent: seq<Sent>) {
    forall i :: 0 < i < |sent| ==> sent[i].at - sent[i - 1].at >= MIN_DELAY_BETWEEN_RAS
  }

  predicate Logged(l: Loop) {
    |l.sent| > 0 && l.sent[|l.sent| - 1].at == l.s.lastSent
  }

  /** Consecutive advertisements are never closer than 3 s, whatever triggered them. */
  lemma {:induction false} RateLimitHolds(l: Loop, es: seq<Event>)
    requires Logged(l) && Spaced(l.sent)
    ensures Logged(Run(l, es)) && Spaced(Run(l, es).sent)
    decreases |es|
  {
    if es != [] {
      RateLimitHolds(Step(l, es[0]), es[1..]);
    }
  }

  // ---------------------------------------------------------------------------
  // The deferral branch
  // ---------------------------------------------------------------------------

  /** The timer is never armed inside the rate-limit window. */
  predicate Clear(l: Loop) {
    l.s.next >= l.s.lastSent + MIN_DELAY_BETWEEN_RAS
  }

  lemma {:induction false} NeverDefers(interval: int, l: Loop, es: seq<Event>)
    requires interval >= MIN_DELAY_BETWEEN_RAS && Clear(l)
    requires PlausibleRun(interval, l, es) && NotEarlyRun(l, es)
    ensures Clear(Run(l, es)) && Run(l, es).deferrals == l.deferrals
    decreases |es|
  {
    if es != [] {
      NeverDefers(interval, Step(l, es[0]), es[1..]);
    }
  }

  /** A run of the loop from its first advertisement, with no timer early. */
  predicate Admissible(interval: int, now: int, d: int, es: seq<Event>) {
    IntervalDraw(interval, d) && PlausibleRun(interval, Start(now, d), es) && NotEarlyRun(Start(now, d), es)
  }

  /** Exactly the intervals for which the deferral branch of the timer handler is dead code. */
  lemma DeferralIsDeadIff(interval: int, now: int)
    requires interval > 0
    ensures interval >= MIN_DELAY_BETWEEN_RAS <==>
            forall d, es :: Admissible(interval, now, d, es) ==> Run(Start(now, d), es).deferrals == 0
  {
    if interval >= MIN_DELAY_BETWEEN_RAS {
      forall d, es | Admissible(interval, now, d, es)
        ensures Run(Start(now, d), es).deferrals == 0
      {
        NeverDefers(interval, Start(now, d), es);
      }
    } else {
      var l, e := Start(now, interval), TimerFires(now + interval, interval);
      assert [e][1..] == [];
      assert Plausible(interval, l, e) && NotEarly(l, e);
      assert PlausibleRun(interval, Step(l, e), []) && NotEarlyRun(Step(l, e), []);
      assert Admissible(interval, now, interval, [e]);
      assert Run(l, [e]) == Run(Step(l, e), []) == Step(l, e);
    }
  }

  // ---------------------------------------------------------------------------
  // Spacing of unsolicited advertisements
  // ---------------------------------------------------------------------------

  predicate UnsolicitedSpaced(least: int, sent: seq<Sent>) {
    forall i :: 0 < i < |sent| && !sent[i].movedIn ==> sent[i].at - sent[i - 1].at >= least
  }

  /** Unless a solicitation moved it in, the timer sits at least the minimum interval out. */
  predicate Unhurried(interval: int, l: Loop) {
    Logged(l) && Clear(l) && (!l.movedIn ==> l.s.next >= l.s.lastSent + LeastDraw(interval))
  }

  /** An advertisement no solicitation moved in comes at least MinRtrAdvInterval after the one before. */
  lemma {:induction false} UnsolicitedSpacing(interval: int, l: Loop, es: seq<Event>)
    requires interval >= MIN_DELAY_BETWEEN_RAS
    requires Unhurried(interval, l) && UnsolicitedSpaced(LeastDraw(interval), l.sent)
    requires PlausibleRun(interval, l, es) && NotEarlyRun(l, es)
    ensures UnsolicitedSpaced(LeastDraw(interval), Run(l, es).sent)
    decreases |es|
  {
    if es != [] {
      UnsolicitedSpacing(interval, Step(l, es[0]), es[1..]);
    }
  }

  // ---------------------------------------------------------------------------
  // Deadlines
  // ---------------------------------------------------------------------------

  /** The n-th advertisement is out by `deadline`, or the timer will see to it. */
  predicate DueBy(l: Loop, n: nat, deadline: int) {
    if |l.sent| <= n then |l.sent| == n && l.s.next <= deadline else l.sent[n].at <= deadline
  }

  predicate Punctual(l: Loop) {
    Clear(l) && l.clock <= l.s.next
  }

  lemma PunctualStep(interval: int, l: Loop, e: Event)
    requires interval >= MIN_DELAY_BETWEEN_RAS && Punctual(l) && Plausible(interval, l, e) && OnTime(l, e)
    ensures Punctual(Step(l, e))
  {
  }

  lemma {:induction false} DeadlineKept(interval: int, l: Loop, es: seq<Event>, n: nat, deadline: int)
    requires interval >= MIN_DELAY_BETWEEN_RAS && Punctual(l) && DueBy(l, n, deadline)
    requires PlausibleRun(interval, l, es) && OnTimeRun(l, es)
    ensures Punctual(Run(l, es)) && DueBy(Run(l, es), n, deadline)
    decreases |es|
  {
    if es != [] {
      PunctualStep(interval, l, es[0]);
      DeadlineKept(interval, Step(l, es[0]), es[1..], n, deadline);
    }
  }

  /**
    Section 6.2.6: the random delay counts from the solicitation, or from 3 s after the
    last advertisement if that is later.
  */
  function AnswerTime(lastSent: int, now: int, delay: int): int {
    Max(now, lastSent + 3 * SECOND) + delay
  }

  /**
    Every solicitation is answered by its section 6.2.6 time: in any on-time run that goes
    past it, the first advertisement after the solicitation is out by then.
  */
  lemma SolicitationAnswered(interval: int, l: Loop, now: int, delay: int, es: seq<Event>)
    requires interval >= MIN_DELAY_BETWEEN_RAS && Punctual(l)
    requires PlausibleRun(interval, l, [Solicitation(now, delay)] + es) && OnTimeRun(l, [Solicitation(now, delay)] + es)
    requires Run(l, [Solicitation(now, delay)] + es).clock > Max(now, l.s.lastSent + 3 * SECOND) + delay
    ensures var end := Run(l, [Solicitation(now, delay)] + es);
            |end.sent| > |l.sent| && end.sent[|l.sent|].at <= Max(now, l.s.lastSent + 3 * SECOND) + delay
  {
    var e := Solicitation(now, delay);
    assert ([e] + es)[1..] == es;
    PunctualStep(interval, l, e);
    DeadlineKept(interval, Step(l, e), es, |l.sent|, AnswerTime(l.s.lastSent, now, delay));
  }

  /** When the timer stands after a burst of solicitations: no later and no earlier than it must. */
  predicate LeastOf(t: int, next: int, lastSent: int, sols: seq<Event>)
    requires forall e :: e in sols ==> e.Solicitation?
  {
    && t <= next && (forall e :: e in sols ==> t <= AnswerTime(lastSent, e.now, e.delay))
    && (t == next || exists e :: e in sols && t == AnswerTime(lastSent, e.now, e.delay))
  }

  lemma {:induction false} BurstMovesTimer(l: Loop, sols: seq<Event>)
    requires forall e :: e in sols ==> e.Solicitation?
    ensures var end := Run(l, sols);
            && LeastOf(end.s.next, l.s.next, l.s.lastSent, sols)
            && end.s.lastSent == l.s.lastSent && end.sent == l.sent && end.deferrals == l.deferrals
            && end.movedIn == (l.movedIn || end.s.next < l.s.next)
    decreases |sols|
  {
    if sols != [] {
      var first, rest := sols[0], sols[1..];
      assert first in sols;
      BurstMovesTimer(Step(l, first), rest);
      LeastOfCons(Run(l, sols).s.next, Step(l, first).s.next, l.s.next, l.s.lastSent, sols);
    }
  }

  lemma LeastOfCons(t: int, mid: int, next: int, lastSent: int, sols: seq<Event>)
    requires sols != [] && forall e :: e in sols ==> e.Solicitation?
    requires LeastOf(t, mid, lastSent, sols[1..])
    requires var answer := AnswerTime(lastSent, sols[0].now, sols[0].delay); mid == if answer < next then answer else next
    ensures LeastOf(t, next, lastSent, sols)
  {
    var first, rest := sols[0], sols[1..];
    forall e | e in sols
      ensures t <= AnswerTime(lastSent, e.now, e.delay)
    {
      assert e == first || e in rest;
    }
    if t == mid {
      assert first in sols;
    } else {
      var e :| e in rest && t == AnswerTime(lastSent, e.now, e.delay);
      assert e in sols;
    }
  }

  lemma {:induction false} RunConcat(l: Loop, a: seq<Event>, b: seq<Event>)
    ensures Run(l, a + b) == Run(Run(l, a), b)
    decreases |a|
  {
    if a == [] {
      assert a + b == b;
    } else {
      assert (a + b)[1..] == a[1..] + b;
      RunConcat(Step(l, a[0]), a[1..], b);
    }
  }

  lemma {:induction false} RunPrefix(interval: int, l: Loop, a: seq<Event>, e: Event)
    requires PlausibleRun(interval, l, a + [e]) && OnTimeRun(l, a + [e])
    ensures PlausibleRun(interval, l, a) && OnTimeRun(l, a)
    ensures Plausible(interval, Run(l, a), e) && OnTime(Run(l, a), e)
    decreases |a|
  {
    if a == [] {
      assert (a + [e])[0] == e;
    } else {
      assert (a + [e])[1..] == a[1..] + [e];
      RunPrefix(interval, Step(l, a[0]), a[1..], e);
    }
  }

  /**
    The answer, exactly: after any burst of solicitations the next advertisement goes out
    at the earliest of the time the timer already stood at and the section 6.2.6 times of
    the solicitations, and the timer is armed afresh from there.
  */
  lemma AdvertisesExactlyWhenDue(interval: int, l: Loop, sols: seq<Event>, now: int, d: int)
    requires interval >= MIN_DELAY_BETWEEN_RAS && Punctual(l)
    requires forall e :: e in sols ==> e.Solicitation?
    requires PlausibleRun(interval, l, sols + [TimerFires(now, d)]) && OnTimeRun(l, sols + [TimerFires(now, d)])
    ensures LeastOf(now, l.s.next, l.s.lastSent, sols)
    ensures var end := Run(l, sols + [TimerFires(now, d)]);
            && end.sent == l.sent + [Sent(now, l.movedIn || now < l.s.next)]
            && end.s == Schedule(now + d, now) && end.deferrals == l.deferrals
  {
    var e, mid := TimerFires(now, d), Run(l, sols);
    RunPrefix(interval, l, sols, e);
    RunConcat(l, sols, [e]);
    assert Run(mid, [e]) == Step(mid, e) by {
      assert [e][1..] == [];
    }
    BurstMovesTimer(l, sols);
    DeadlineKept(interval, l, sols, |l.sent|, l.s.next);
  }

  /** Never silent for longer than the maximum interval. */
  predicate NeverSilent(interval: int, l: Loop) {
    && l.s.next <= l.s.lastSent + interval && Logged(l)
    && forall i :: 0 < i < |l.sent| ==> l.sent[i].at - l.sent[i - 1].at <= interval
  }

  lemma NeverSilentStep(interval: int, l: Loop, e: Event)
    requires interval >= MIN_DELAY_BETWEEN_RAS && Punctual(l) && NeverSilent(interval, l)
    requires Plausible(interval, l, e) && OnTime(l, e)
    ensures NeverSilent(interval, Step(l, e))
  {
  }

  /** Consecutive advertisements of an on-time loop are at most the maximum interval apart. */
  lemma {:induction false} SilenceIsBounded(interval: int, l: Loop, es: seq<Event>)
    requires interval >= MIN_DELAY_BETWEEN_RAS && Punctual(l) && NeverSilent(interval, l)
    requires PlausibleRun(interval, l, es) && OnTimeRun(l, es)
    ensures NeverSilent(interval, Run(l, es))
    decreases |es|
  {
    if es != [] {
      PunctualStep(interval, l, es[0]);
      NeverSilentStep(interval, l, es[0]);
      SilenceIsBounded(interval, Step(l, es[0]), es[1..]);
    }
  }

  /** Every reachable state of an on-time loop is one the lemmas above start from. */
  lemma {:induction false} ReachableIsPunctual(interval: int, now: int, d: int, es: seq<Event>)
    requires interval >= MIN_DELAY_BETWEEN_RAS && IntervalDraw(interval, d)
    requires PlausibleRun(interval, Start(now, d), es) && OnTimeRun(Start(now, d), es)
    ensures Punctual(Run(Start(now, d), es))
  {
    DeadlineKept(interval, Start(now, d), es, 1, now + d);
  }

  /** The shipped configuration with timers on time: an advertisement at least every 30 s. */
  lemma ThirtySecondLoopSpeaks(now: int, d: int, es: seq<Event>)
    requires IntervalDraw(ADV_INTERVAL, d)
    requires PlausibleRun(ADV_INTERVAL, Start(now, d), es) && OnTimeRun(Start(now, d), es)
    ensures var end := Run(Start(now, d), es);
            forall i :: 0 < i < |end.sent| ==> end.sent[i].at - end.sent[i - 1].at <= 30 * SECOND
  {
    SilenceIsBounded(ADV_INTERVAL, Start(now, d), es);
  }

  /** The shipped configuration: 30 s, so at least 10 s between unsolicited advertisements. */
  lemma ThirtySecondLoop(now: int, d: int, es: seq<Event>)
    requires Admissible(ADV_INTERVAL, now, d, es)
    ensures var end := Run(Start(now, d), es);
            Spaced(end.sent) && UnsolicitedSpaced(10 * SECOND, end.sent) && end.deferrals == 0
  {
    RateLimitHolds(Start(now, d), es);
    UnsolicitedSpacing(ADV_INTERVAL, Start(now, d), es);
    NeverDefers(ADV_INTERVAL, Start(now, d), es);
  }
}
