/**
 * One bounded capture session: a deadline, a total budget and a fixed-window rate limit, shared
 * by all inspections. Times are in nanoseconds.
 */
module Capture {
  import opened Prelude

  datatype Config = Config(duration: int, maxSamples: int, rate: int) {
    predicate Valid() {
      0 < duration && 0 < maxSamples && 0 < rate
    }

    /** The duration in started seconds. */
    function Seconds(): int {
      (duration + SECOND - 1) / SECOND
    }

    function Budget(): int {
      Min(maxSamples, rate * Seconds())
    }
  }

  datatype Session = Session(cfg: Config, start: int, attempts: nat, windowStart: int, windowCount: nat) {
    function Deadline(): int {
      start + cfg.duration
    }
  }

  function NewSession(cfg: Config, now: int): Session {
    Session(cfg, now, 0, now, 0)
  }

  datatype Refusal = DurationLimit | SampleLimit | RateLimit

  /** Takes one attempt from the budgets, or says which one refuses it. */
  function Reserve(s: Session, now: int): (Session, Option<Refusal>) {
    if now >= s.Deadline() then (s, Some(DurationLimit))
    else if s.attempts >= s.cfg.maxSamples then (s, Some(SampleLimit))
    else
      var w := if now - s.windowStart >= SECOND then s.(windowStart := now, windowCount := 0) else s;
      if w.windowCount >= w.cfg.rate then (w, Some(RateLimit))
      else (w.(windowCount := w.windowCount + 1, attempts := w.attempts + 1), None)
  }

  /** The session after the first n of a sequence of reservations, made in this order. */
  function SessionAt(s: Session, times: seq<int>, n: nat): Session
    requires n <= |times|
  {
    if n == 0 then s else Reserve(SessionAt(s, times, n - 1), times[n - 1]).0
  }

  predicate Granted(s: Session, times: seq<int>, i: nat)
    requires i < |times|
  {
    Reserve(SessionAt(s, times, i), times[i]).1.None?
  }

  /** Of the first n reservations, how many were granted at a reading that counts. */
  function Grants(s: Session, times: seq<int>, n: nat, counts: int -> bool): nat
    requires n <= |times|
  {
    if n == 0 then 0
    else Grants(s, times, n - 1, counts) + if Granted(s, times, n - 1) && counts(times[n - 1]) then 1 else 0
  }

  function Always(): int -> bool {
    t => true
  }

  /** The half-open second from a given moment on. */
  function SecondFrom(from: int): int -> bool {
    t => from <= t < from + SECOND
  }

  // What each reservation is answered, said of the readings and the grants alone

  /** When the window of the n-th reservation began: with the session, or at a grant a second or more later. */
  function Beginning(s: Session, start: int, times: seq<int>, n: nat): int
    requires n <= |times|
  {
    if n == 0 then start
    else
      var before := Beginning(s, start, times, n - 1);
      if Granted(s, times, n - 1) && times[n - 1] - before >= 1_000_000_000 then times[n - 1] else before
  }

  /** How many of the first n reservations were granted since that beginning. */
  function GrantedSince(s: Session, start: int, times: seq<int>, n: nat): nat
    requires n <= |times|
  {
    if n == 0 then 0
    else if !Granted(s, times, n - 1) then GrantedSince(s, start, times, n - 1)
    else if times[n - 1] - Beginning(s, start, times, n - 1) >= 1_000_000_000 then 1
    else GrantedSince(s, start, times, n - 1) + 1
  }

  /** The fields of a session are the beginning of its window, the grants since, and all grants. */
  lemma {:induction false} SessionCounts(cfg: Config, start: int, times: seq<int>, n: nat)
    requires cfg.Valid() && n <= |times|
    ensures var s := NewSession(cfg, start);
            var now := SessionAt(s, times, n);
            && now.cfg == cfg && now.start == start
            && now.windowStart == Beginning(s, start, times, n)
            && now.windowCount == GrantedSince(s, start, times, n) <= cfg.rate
            && now.attempts == Grants(s, times, n, Always())
  {
    if n > 0 {
      SessionCounts(cfg, start, times, n - 1);
      ReserveMoves(SessionAt(NewSession(cfg, start), times, n - 1), times[n - 1]);
    }
  }

  /**
   * A reservation is refused for the deadline if its reading has reached it; otherwise for the
   * sample limit if that many have been granted before; otherwise for the rate if its window is
   * less than a second old and has granted as many. In all other cases it is granted.
   */
  lemma AnswerMeans(cfg: Config, start: int, times: seq<int>, i: nat)
    requires cfg.Valid() && i < |times|
    ensures var s := NewSession(cfg, start);
            Reserve(SessionAt(s, times, i), times[i]).1 ==
              if times[i] >= start + cfg.duration then Some(DurationLimit)
              else if Grants(s, times, i, Always()) >= cfg.maxSamples then Some(SampleLimit)
              else if times[i] - Beginning(s, start, times, i) < 1_000_000_000
                      && GrantedSince(s, start, times, i) >= cfg.rate then Some(RateLimit)
              else None
  {
    SessionCounts(cfg, start, times, i);
    hide SessionAt;
    hide Beginning;
    hide GrantedSince;
    hide Grants;
  }

  // The total budget

  /** Windows start at least a second apart, and before the deadline. */
  ghost predicate WithinBudget(s: Session) {
    && s.cfg.Valid()
    && s.start <= s.windowStart < s.Deadline()
    && s.windowCount <= s.cfg.rate
    && s.attempts <= s.cfg.maxSamples
    && s.attempts <= s.cfg.rate * ((s.windowStart - s.start) / SECOND) + s.windowCount
  }

  lemma ReserveKeepsBudget(s: Session, now: int)
    requires WithinBudget(s)
    ensures WithinBudget(Reserve(s, now).0)
  {
    if now - s.windowStart >= SECOND {
      var before, after := (s.windowStart - s.start) / SECOND, (now - s.start) / SECOND;
      assert before + 1 <= after;
      MulMonotone(s.cfg.rate, before + 1, after);
      MulSuccessor(s.cfg.rate, before);
    }
  }

  lemma MulMonotone(k: nat, a: int, b: int)
    requires a <= b
    ensures k * a <= k * b
  {
  }

  /**
   * Whatever the clock readings and their order, a session never grants more than its budget:
   * the sample limit, or the rate times the started seconds of its duration.
   */
  lemma {:induction false} AttemptsStayWithinBudget(cfg: Config, start: int, times: seq<int>, n: nat)
    requires cfg.Valid() && n <= |times|
    ensures var s := SessionAt(NewSession(cfg, start), times, n);
            && WithinBudget(s) && s.cfg == cfg && s.start == start
            && s.attempts == Grants(NewSession(cfg, start), times, n, Always())
            && s.attempts <= cfg.Budget()
  {
    if n > 0 {
      AttemptsStayWithinBudget(cfg, start, times, n - 1);
      ReserveKeepsBudget(SessionAt(NewSession(cfg, start), times, n - 1), times[n - 1]);
      hide WithinBudget;
    } else {
      assert WithinBudget(NewSession(cfg, start));
    }
    hide WithinBudget;
    WithinBudgetBounds(SessionAt(NewSession(cfg, start), times, n));
  }

  lemma WithinBudgetBounds(s: Session)
    requires WithinBudget(s)
    ensures s.attempts <= s.cfg.Budget()
  {
    var full := (s.windowStart - s.start) / SECOND;
    assert full + 1 <= s.cfg.Seconds();
    MulMonotone(s.cfg.rate, full + 1, s.cfg.Seconds());
    MulSuccessor(s.cfg.rate, full);
  }

  lemma MulSuccessor(k: int, n: int)
    ensures k * (n + 1) == k * n + k
  {
  }

  // The budget is the exact bound

  function Repeat(t: int, k: nat): (r: seq<int>)
    ensures |r| == k
  {
    seq(k, _ => t)
  }

  /** Asking `rate` times at the start of every second of the session. */
  function Greedy(cfg: Config, start: int, seconds: nat): seq<int>
    requires 0 < cfg.rate
  {
    if seconds == 0 then []
    else Greedy(cfg, start, seconds - 1) + Repeat(SecondStart(start, seconds - 1), cfg.rate)
  }

  lemma {:induction false} SessionAtConcat(s: Session, a: seq<int>, b: seq<int>, k: nat)
    requires k <= |b|
    ensures SessionAt(s, a + b, |a| + k) == SessionAt(SessionAt(s, a, |a|), b, k)
  {
    if k == 0 {
      SessionAtPrefix(s, a, b, |a|);
    } else {
      SessionAtConcat(s, a, b, k - 1);
    }
  }

  lemma {:induction false} SessionAtPrefix(s: Session, a: seq<int>, b: seq<int>, n: nat)
    requires n <= |a|
    ensures SessionAt(s, a + b, n) == SessionAt(s, a, n)
  {
    if n > 0 {
      SessionAtPrefix(s, a, b, n - 1);
    }
  }

  /** Within one window, each request is granted until the rate or the sample limit is used up. */
  lemma {:induction false} FillWindow(s: Session, t: int, times: seq<int>, k: nat)
    requires s.cfg.Valid() && k <= |times| && (forall i :: 0 <= i < |times| ==> times[i] == t)
    requires t < s.Deadline() && s.attempts <= s.cfg.maxSamples
    requires t - s.windowStart >= SECOND || (t == s.windowStart && s.windowCount == 0)
    requires k <= s.cfg.rate
    ensures var r := SessionAt(s, times, k);
            && r.cfg == s.cfg && r.start == s.start
            && r.attempts == Min(s.cfg.maxSamples, s.attempts + k)
            && (r == s || (r.windowStart == t && r.windowCount <= k))
            && (k > 0 && s.attempts < s.cfg.maxSamples ==> r.windowStart == t)
  {
    if k > 0 {
      FillWindow(s, t, times, k - 1);
    }
  }

  lemma OneMoreWindow(s0: Session, before: seq<int>, t: int)
    requires var s := SessionAt(s0, before, |before|);
             && s.cfg.Valid() && s.attempts <= s.cfg.maxSamples && t < s.Deadline()
             && (t - s.windowStart >= SECOND || (t == s.windowStart && s.windowCount == 0))
    ensures var s := SessionAt(s0, before, |before|);
            var times := before + Repeat(t, s.cfg.rate);
            var r := SessionAt(s0, times, |times|);
            && r.cfg == s.cfg && r.start == s.start
            && r.attempts == Min(s.cfg.maxSamples, s.attempts + s.cfg.rate)
            && r.windowStart <= t
  {
    hide SessionAt;
    hide Reserve;
    var s := SessionAt(s0, before, |before|);
    FillWindow(s, t, Repeat(t, s.cfg.rate), s.cfg.rate);
    SessionAtConcat(s0, before, Repeat(t, s.cfg.rate), s.cfg.rate);
  }

  function SecondStart(start: int, k: int): int {
    start + k * SECOND
  }

  lemma {:induction false} GreedyFills(cfg: Config, start: int, seconds: nat)
    requires cfg.Valid() && SecondStart(start, seconds - 1) < start + cfg.duration
    ensures var times := Greedy(cfg, start, seconds);
            var s := SessionAt(NewSession(cfg, start), times, |times|);
            && s.cfg == cfg && s.start == start
            && s.attempts == Min(cfg.maxSamples, |times|)
            && (seconds == 0 ==> s == NewSession(cfg, start))
            && (seconds > 0 ==> s.windowStart <= SecondStart(start, seconds - 1))
  {
    hide Repeat;
    if seconds > 0 {
      hide SessionAt;
      GreedyFills(cfg, start, seconds - 1);
      SecondsApart(start, seconds - 2);
      hide SecondStart;
      OneMoreWindow(NewSession(cfg, start), Greedy(cfg, start, seconds - 1), SecondStart(start, seconds - 1));
    }
  }

  lemma SecondsApart(start: int, k: int)
    ensures SecondStart(start, k + 1) == SecondStart(start, k) + SECOND
    ensures SecondStart(start, 0) == start
  {
  }

  lemma {:induction false} GreedyLength(cfg: Config, start: int, seconds: nat)
    requires 0 < cfg.rate
    ensures |Greedy(cfg, start, seconds)| == cfg.rate * seconds
  {
    if seconds > 0 {
      GreedyLength(cfg, start, seconds - 1);
      MulSuccessor(cfg.rate, seconds - 1);
    }
  }

  /** Some run uses the whole budget, so no smaller bound holds. */
  lemma BudgetIsReached(cfg: Config, start: int)
    requires cfg.Valid()
    ensures var times := Greedy(cfg, start, cfg.Seconds());
            SessionAt(NewSession(cfg, start), times, |times|).attempts == cfg.Budget()
  {
    GreedyFills(cfg, start, cfg.Seconds());
    GreedyLength(cfg, start, cfg.Seconds());
  }

  // The rate

  /**
   * The clock is read before the lock is taken, so a reading may be older than one used before it.
   * Here none is older by more than `late`.
   */
  ghost predicate LateBy(start: int, times: seq<int>, late: nat) {
    && (forall i :: 0 <= i < |times| ==> start - late <= times[i])
    && (forall i, j :: 0 <= i < j < |times| ==> times[i] - late <= times[j])
  }

  ghost predicate Nondecreasing(start: int, times: seq<int>) {
    && (forall i :: 0 <= i < |times| ==> start <= times[i])
    && (forall i, j :: 0 <= i < j < |times| ==> times[i] <= times[j])
  }

  /** A delay in started seconds. */
  function StartedSeconds(d: nat): nat {
    (d + SECOND - 1) / SECOND
  }

  /**
   * The most grants one second can have: those of two windows, and for each started second of
   * delay those of a window that began too late to count the reading it began with.
   */
  function MostPerSecond(rate: int, late: nat): int {
    2 * rate + (rate - 1) * StartedSeconds(late)
  }

  /** The current window began at a reading, or with the session. */
  ghost predicate WindowIsReading(s: Session, times: seq<int>, n: nat)
    requires n <= |times|
  {
    var w := SessionAt(s, times, n).windowStart;
    w == s.windowStart || exists i :: 0 <= i < n && times[i] == w
  }

  /**
   * The grants in the second from a moment on, once the session has come to its n-th reservation.
   * Windows too early for that second have none. Of the windows that begin in time for it, k have
   * begun, a second apart, and all but the current one are full. Of those that begin after it but
   * within the delay, k have begun, and their first grants are not in it. Later ones add nothing.
   */
  ghost predicate SpanHolds(s: Session, times: seq<int>, n: nat, from: int, late: nat, k: int)
    requires n <= |times|
  {
    var now, grants, rate := SessionAt(s, times, n), Grants(s, times, n, SecondFrom(from)), s.cfg.rate;
    && now.cfg == s.cfg && now.start == s.start && now.windowCount <= rate
    && (if now.windowStart <= from - SECOND then grants == 0
        else if now.windowStart < from + SECOND then
          && 1 <= k <= 2 && grants <= rate * (k - 1) + now.windowCount
          && (k - 1) * SECOND < now.windowStart - (from - SECOND)
        else if now.windowStart < from + SECOND + late then
          && 1 <= k && grants <= 2 * rate + (rate - 1) * (k - 1) + now.windowCount - 1
          && (k - 1) * SECOND <= now.windowStart - (from + SECOND)
        else grants <= MostPerSecond(rate, late))
  }

  lemma {:induction false} WindowsAreReadings(s: Session, times: seq<int>, n: nat)
    requires n <= |times|
    ensures WindowIsReading(s, times, n)
  {
    if n > 0 {
      WindowsAreReadings(s, times, n - 1);
    }
  }

  lemma ReadingNotTooEarly(s: Session, times: seq<int>, n: nat, late: nat)
    requires 0 < n <= |times| && LateBy(s.windowStart, times, late)
    ensures SessionAt(s, times, n - 1).windowStart - late <= times[n - 1]
  {
    WindowsAreReadings(s, times, n - 1);
    hide SessionAt;
  }

  /** Windows that begin a second apart within the delay are few. */
  lemma FewLateWindows(rate: nat, k: int, late: nat, behind: int)
    requires 0 < rate && 1 <= k && (k - 1) * SECOND <= behind < late
    ensures (rate - 1) * k <= (rate - 1) * StartedSeconds(late)
    ensures (rate - 1) * (k - 1) + rate - 1 == (rate - 1) * k
  {
    MulMonotone(rate - 1, k, StartedSeconds(late));
    MulSuccessor(rate - 1, k - 1);
  }

  lemma MostIsAtLeastTwoWindows(rate: nat, late: nat)
    requires 0 < rate
    ensures 2 * rate <= MostPerSecond(rate, late)
  {
    MulMonotone(rate - 1, 0, StartedSeconds(late));
  }

  lemma ReserveMoves(s: Session, now: int)
    requires s.cfg.Valid() && s.windowCount <= s.cfg.rate
    ensures var (r, refusal) := Reserve(s, now);
            && r.cfg == s.cfg && r.start == s.start && r.windowCount <= s.cfg.rate
            && (refusal.Some? ==> r == s)
            && (refusal.None? ==> r.attempts == s.attempts + 1)
            && (refusal.None? ==>
                  if now - s.windowStart >= SECOND then r.windowStart == now && r.windowCount == 1
                  else r.windowStart == s.windowStart && r.windowCount == s.windowCount + 1)
  {
  }

  lemma SpanMoves(s: Session, times: seq<int>, n: nat, from: int, late: nat, k: int) returns (k': int)
    requires s.cfg.Valid() && 0 < n <= |times| && LateBy(s.windowStart, times, late)
    requires SpanHolds(s, times, n - 1, from, late, k)
    ensures SpanHolds(s, times, n, from, late, k')
  {
    hide LateBy;
    hide Reserve;
    var prev, t, rate := SessionAt(s, times, n - 1), times[n - 1], s.cfg.rate;
    ReserveMoves(prev, t);
    ReadingNotTooEarly(s, times, n, late);
    assert SessionAt(s, times, n) == Reserve(prev, t).0;
    hide SessionAt;
    var opens := Granted(s, times, n - 1) && t - prev.windowStart >= SECOND;
    var first := if prev.windowStart < from + SECOND then from + SECOND <= t else false;
    k' := if !opens then k else if prev.windowStart <= from - SECOND || first then 1 else k + 1;
    MostIsAtLeastTwoWindows(rate, late);
    hide MostPerSecond;
    assert k == 1 ==> rate * (k - 1) == 0;
    assert k == 2 ==> rate * (k - 1) == rate;
    if from + SECOND <= prev.windowStart < from + SECOND + late {
      FewLateWindows(rate, k, late, prev.windowStart - (from + SECOND));
    }
  }

  lemma {:induction false} SpansHold(s: Session, times: seq<int>, n: nat, from: int, late: nat) returns (k: int)
    requires s.cfg.Valid() && s.windowCount == 0 && n <= |times| && LateBy(s.windowStart, times, late)
    ensures SpanHolds(s, times, n, from, late, k)
  {
    if n == 0 {
      k := 1;
      MostIsAtLeastTwoWindows(s.cfg.rate, late);
    } else {
      hide SpanHolds;
      k := SpansHold(s, times, n - 1, from, late);
      k := SpanMoves(s, times, n, from, late, k);
    }
  }

  /**
   * If readings are late by at most some delay, any half-open second has attempts for two windows
   * and, for each started second of the delay, all but one of another window.
   */
  lemma RatePerSecond(cfg: Config, start: int, times: seq<int>, n: nat, from: int, late: nat)
    requires cfg.Valid() && n <= |times| && LateBy(start, times, late)
    ensures Grants(NewSession(cfg, start), times, n, SecondFrom(from)) <=
              2 * cfg.rate + (cfg.rate - 1) * ((late + 1_000_000_000 - 1) / 1_000_000_000)
  {
    var s := NewSession(cfg, start);
    var k := SpansHold(s, times, n, from, late);
    var now := SessionAt(s, times, n);
    MostIsAtLeastTwoWindows(cfg.rate, late);
    if from + SECOND <= now.windowStart < from + SECOND + late {
      FewLateWindows(cfg.rate, k, late, now.windowStart - (from + SECOND));
    }
  }

  /** With an ordered clock, any half-open second contains at most two windows' worth of attempts. */
  lemma TwiceTheRatePerSecond(cfg: Config, start: int, times: seq<int>, n: nat, from: int)
    requires cfg.Valid() && n <= |times| && Nondecreasing(start, times)
    ensures Grants(NewSession(cfg, start), times, n, SecondFrom(from)) <= 2 * cfg.rate
  {
    RatePerSecond(cfg, start, times, n, from, 0);
  }

  const LATE_RUN := [SECOND - 1, SECOND - 1, SECOND, SECOND, 2 * SECOND, 2 * SECOND - 2]

  /**
   * More than twice the rate, and as much as the delay allows: two attempts a second, readings late
   * by at most two nanoseconds, and five attempts within one second.
   */
  lemma LateReadingPassesTwiceTheRate()
    ensures LateBy(0, LATE_RUN, 2) && MostPerSecond(2, 2) == 5
    ensures Grants(NewSession(Config(3 * SECOND, 9, 2), 0), LATE_RUN, 6, SecondFrom(SECOND - 1)) == 5
  {
    hide Grants;
    hide SessionAt;
    var cfg := Config(3 * SECOND, 9, 2);
    var s := NewSession(cfg, 0);
    NothingGranted(s, LATE_RUN, SecondFrom(SECOND - 1));
    Grant(s, LATE_RUN, 0, s, Session(cfg, 0, 1, 0, 1), SecondFrom(SECOND - 1));
    Grant(s, LATE_RUN, 1, Session(cfg, 0, 1, 0, 1), Session(cfg, 0, 2, 0, 2), SecondFrom(SECOND - 1));
    Grant(s, LATE_RUN, 2, Session(cfg, 0, 2, 0, 2), Session(cfg, 0, 3, SECOND, 1), SecondFrom(SECOND - 1));
    Grant(s, LATE_RUN, 3, Session(cfg, 0, 3, SECOND, 1), Session(cfg, 0, 4, SECOND, 2), SecondFrom(SECOND - 1));
    Grant(s, LATE_RUN, 4, Session(cfg, 0, 4, SECOND, 2), Session(cfg, 0, 5, 2 * SECOND, 1), SecondFrom(SECOND - 1));
    Grant(s, LATE_RUN, 5, Session(cfg, 0, 5, 2 * SECOND, 1), Session(cfg, 0, 6, 2 * SECOND, 2), SecondFrom(SECOND - 1));
  }

  lemma NothingGranted(s: Session, times: seq<int>, counts: int -> bool)
    ensures SessionAt(s, times, 0) == s && Grants(s, times, 0, counts) == 0
  {
  }

  lemma Grant(s: Session, times: seq<int>, n: nat, now: Session, next: Session, counts: int -> bool)
    requires n < |times| && SessionAt(s, times, n) == now && Reserve(now, times[n]) == (next, None)
    ensures SessionAt(s, times, n + 1) == next
    ensures Grants(s, times, n + 1, counts) == Grants(s, times, n, counts) + if counts(times[n]) then 1 else 0
  {
    hide Reserve;
  }
}
