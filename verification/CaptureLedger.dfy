/**
 * Any number of inspections sharing one capture session, interleaved at every point where the
 * code can be preempted: reading the clock, taking the reservation lock, asking the log handler
 * and bumping each counter are separate steps. A run is any sequence of actions; an action that
 * does not fit the state of its inspection does nothing.
 */
module CaptureLedger {
  import opened Prelude
  import opened Capture
  import opened CaptureLoop

  /** Where an inspection stands. `left` counts its float samples not yet accounted for. */
  datatype Phase =
    | Idle
    | HistogramsMatched(histograms: int, floats: int)
    | BeforeFloats(floats: int)
    | NextSample(left: int)
    | HasReading(left: int, now: int)
    | RefusedBy(left: int, reason: Refusal)
    | Offering(left: int)
    | NotLogged(left: int, outcome: Outcome)
    | Accepted(left: int, truncated: bool)
    | CountingTruncated(left: int)

  datatype Event =
    | Begin(who: nat, histograms: nat, floats: nat)
    | ReadClock(now: int)
    | Answer(outcome: Outcome)
    | Proceed

  /** One of the concurrent inspections, and the identity it works for. */
  datatype Inspection = Inspection(who: nat, phase: Phase)

  datatype State = State(session: Session, inspections: seq<Inspection>, ledger: seq<Counters>)

  datatype Action = Action(inspection: nat, event: Event)

  function After(left: int): Phase {
    if left <= 0 then Idle else NextSample(left)
  }

  function WithFloats(floats: int): Phase {
    if floats <= 0 then Idle else BeforeFloats(floats)
  }

  /** One step of one inspection, on the session and on the counters of its identity. */
  function Local(s: Session, p: Phase, c: Counters, e: Event): (Session, Phase, Counters) {
    match p
    case Idle =>
      if !e.Begin? then (s, p, c)
      else if e.histograms > 0 then
        (s, HistogramsMatched(e.histograms, e.floats), c.(matchedHistograms := c.matchedHistograms + e.histograms))
      else (s, WithFloats(e.floats), c)
    case NextSample(left) =>
      if e.ReadClock? then (s, HasReading(left, e.now), c) else (s, p, c)
    case Offering(left) =>
      if !e.Answer? then (s, p, c)
      else if e.outcome.Logged? then (s, Accepted(left, e.outcome.truncated), c)
      else (s, NotLogged(left, e.outcome), c)
    case _ =>
      if e.Proceed? then ProceedFrom(s, p, c) else (s, p, c)
  }

  function ProceedFrom(s: Session, p: Phase, c: Counters): (Session, Phase, Counters) {
    match p
    case HistogramsMatched(histograms, floats) =>
      (s, WithFloats(floats), c.(unsupported := c.unsupported + histograms))
    case BeforeFloats(floats) =>
      (s, NextSample(floats), c.(matchedFloats := c.matchedFloats + floats))
    case HasReading(left, now) =>
      var (s', r) := Reserve(s, now);
      (s', if r.Some? then RefusedBy(left, r.value) else Offering(left), c)
    case RefusedBy(left, reason) =>
      if Terminal(Some(reason)) then (s, Idle, c.Add(Refused(reason, left)))
      else (s, After(left - 1), c.Add(Refused(reason, 1)))
    case NotLogged(left, outcome) =>
      (s, After(left - 1), c.Add(Charge(None, outcome)))
    case Accepted(left, truncated) =>
      (s, if truncated then CountingTruncated(left - 1) else After(left - 1), c.Add(NOTHING.(captured := 1)))
    case CountingTruncated(left) =>
      (s, After(left), c.Add(NOTHING.(truncated := 1)))
    case _ => (s, p, c)
  }

  /** The inspection as the action finds it: an idle one takes on the identity it begins with. */
  function Actor(st: State, a: Action): Inspection
    requires a.inspection < |st.inspections|
  {
    var x := st.inspections[a.inspection];
    if x.phase.Idle? && a.event.Begin? then Inspection(a.event.who, Idle) else x
  }

  function Apply(st: State, a: Action): State {
    if a.inspection >= |st.inspections| || Actor(st, a).who >= |st.ledger| then st
    else
      var x := Actor(st, a);
      var (s, p, c) := Local(st.session, x.phase, st.ledger[x.who], a.event);
      State(s, st.inspections[a.inspection := Inspection(x.who, p)], st.ledger[x.who := c])
  }

  function StateAfter(st: State, run: seq<Action>, n: nat): State
    requires n <= |run|
  {
    if n == 0 then st else Apply(StateAfter(st, run, n - 1), run[n - 1])
  }

  // What is in flight

  function PendingFloats(p: Phase): int {
    match p
    case Idle => 0
    case HistogramsMatched(_, _) => 0
    case BeforeFloats(_) => 0
    case _ => p.left
  }

  function PendingHistograms(p: Phase): int {
    if p.HistogramsMatched? then p.histograms else 0
  }

  /** A reservation made whose outcome no counter shows yet. */
  function Reserved(p: Phase): int {
    if p.Offering? || p.NotLogged? || p.Accepted? then 1 else 0
  }

  function PendingTruncated(p: Phase): int {
    if p.CountingTruncated? then 1 else 0
  }

  function For(who: nat, f: Phase -> int): Inspection -> int {
    (x: Inspection) => if x.who == who then f(x.phase) else 0
  }

  function OfAny(f: Phase -> int): Inspection -> int {
    (x: Inspection) => f(x.phase)
  }

  /** The sum of a measure over the inspections working for one identity. */
  function InFlight(st: State, who: nat, f: Phase -> int): int {
    SumBy(st.inspections, For(who, f))
  }

  function AttemptsIn(c: Counters): int {
    c.floats.captured + c.floats.logDisabled + c.floats.logError
  }

  ghost predicate PhaseValid(p: Phase) {
    match p
    case Idle => true
    case HistogramsMatched(histograms, floats) => histograms > 0 && floats >= 0
    case BeforeFloats(floats) => floats > 0
    case CountingTruncated(left) => left >= 0
    case NotLogged(left, outcome) => left > 0 && !outcome.Logged?
    case _ => p.left > 0
  }

  /** The ledger of one identity. */
  ghost predicate Balanced(st: State, who: nat)
    requires who < |st.ledger|
  {
    var c := st.ledger[who];
    && c.matchedFloats == c.floats.captured + c.floats.Skipped() + InFlight(st, who, PendingFloats)
    && c.matchedHistograms == c.unsupported + InFlight(st, who, PendingHistograms)
    && c.floats.truncated + InFlight(st, who, PendingTruncated) <= c.floats.captured
  }

  ghost predicate AttemptsAccounted(st: State) {
    st.session.attempts == SumBy(st.ledger, AttemptsIn) + SumBy(st.inspections, OfAny(Reserved))
  }

  ghost predicate Inv(st: State) {
    && WithinBudget(st.session)
    && (forall i :: 0 <= i < |st.inspections| ==> PhaseValid(st.inspections[i].phase))
    && (forall who :: 0 <= who < |st.ledger| ==> Balanced(st, who))
    && AttemptsAccounted(st)
  }

  // One step keeps the books

  /** A local step moves amounts between the counters and what is in flight, and loses nothing. */
  lemma LocalBalance(s: Session, p: Phase, c: Counters, e: Event)
    requires PhaseValid(p)
    ensures var (s', p', c') := Local(s, p, c, e);
            && PhaseValid(p')
            && c'.matchedFloats - c'.floats.captured - c'.floats.Skipped() - PendingFloats(p') ==
                 c.matchedFloats - c.floats.captured - c.floats.Skipped() - PendingFloats(p)
            && c'.matchedHistograms - c'.unsupported - PendingHistograms(p') ==
                 c.matchedHistograms - c.unsupported - PendingHistograms(p)
            && c'.floats.captured - c'.floats.truncated - PendingTruncated(p') >=
                 c.floats.captured - c.floats.truncated - PendingTruncated(p)
            && s'.attempts - AttemptsIn(c') - Reserved(p') == s.attempts - AttemptsIn(c) - Reserved(p)
  {
    var (s', p', c') := Local(s, p, c, e);
    match p
    case HasReading(_, now) =>
      hide Tally.Plus;
    case RefusedBy(left, reason) =>
      if e.Proceed? {
        RefusedAddsUp(c.floats, reason, if Terminal(Some(reason)) then left else 1);
        hide Tally.Plus;
        hide Refused;
        hide Tally.Skipped;
      }
    case NotLogged(_, outcome) =>
      hide Reserve;
    case _ =>
      hide Reserve;
      hide Refused;
      hide Charge;
  }

  lemma RefusedAddsUp(t: Tally, r: Refusal, n: int)
    ensures var t' := t.Plus(Refused(r, n));
            && t'.captured == t.captured && t'.truncated == t.truncated
            && t'.logDisabled == t.logDisabled && t'.logError == t.logError
            && t'.Skipped() == t.Skipped() + n
  {
  }

  lemma LocalBudget(s: Session, p: Phase, c: Counters, e: Event)
    requires WithinBudget(s)
    ensures WithinBudget(Local(s, p, c, e).0)
  {
    if p.HasReading? {
      ReserveKeepsBudget(s, p.now);
    }
    hide WithinBudget;
    hide Reserve;
  }

  lemma InFlightMoves(st: State, a: Action, who: nat, f: Phase -> int)
    requires a.inspection < |st.inspections| && Actor(st, a).who < |st.ledger| && f(Idle) == 0
    ensures InFlight(Apply(st, a), who, f) == InFlight(st, who, f) +
              if who == Actor(st, a).who
              then f(Apply(st, a).inspections[a.inspection].phase) - f(Actor(st, a).phase) else 0
  {
    hide Local;
    SumUpdate(st.inspections, a.inspection, Apply(st, a).inspections[a.inspection], For(who, f));
  }

  lemma ApplyKeepsBalance(st: State, a: Action, who: nat)
    requires Inv(st) && a.inspection < |st.inspections| && Actor(st, a).who < |st.ledger| && who < |st.ledger|
    ensures Balanced(Apply(st, a), who)
  {
    var x := Actor(st, a);
    assert PhaseValid(x.phase);
    LocalBalance(st.session, x.phase, st.ledger[x.who], a.event);
    InFlightMoves(st, a, who, PendingFloats);
    InFlightMoves(st, a, who, PendingHistograms);
    InFlightMoves(st, a, who, PendingTruncated);
    assert Balanced(st, who);
    hide Local;
    hide Inv;
    hide InFlight;
  }

  lemma ApplyKeepsAttempts(st: State, a: Action)
    requires Inv(st) && a.inspection < |st.inspections| && Actor(st, a).who < |st.ledger|
    ensures AttemptsAccounted(Apply(st, a))
  {
    var x := Actor(st, a);
    assert PhaseValid(x.phase);
    LocalBalance(st.session, x.phase, st.ledger[x.who], a.event);
    hide Local;
    hide Balanced;
    var (s, p, c) := Local(st.session, x.phase, st.ledger[x.who], a.event);
    SumUpdate(st.inspections, a.inspection, Inspection(x.who, p), OfAny(Reserved));
    SumUpdate(st.ledger, x.who, c, AttemptsIn);
  }

  lemma ApplyKeepsInv(st: State, a: Action)
    requires Inv(st)
    ensures Inv(Apply(st, a))
  {
    if a.inspection < |st.inspections| && Actor(st, a).who < |st.ledger| {
      var x := Actor(st, a);
      LocalBalance(st.session, x.phase, st.ledger[x.who], a.event);
      LocalBudget(st.session, x.phase, st.ledger[x.who], a.event);
      ApplyKeepsAttempts(st, a);
      forall who | 0 <= who < |st.ledger|
        ensures Balanced(Apply(st, a), who)
      {
        ApplyKeepsBalance(st, a, who);
      }
      hide Local;
      hide Balanced;
      hide AttemptsAccounted;
      hide WithinBudget;
    }
  }

  /** Before anything happens: a new session, idle inspections, counters at zero. */
  ghost predicate Init(st: State) {
    && st.session == NewSession(st.session.cfg, st.session.start) && st.session.cfg.Valid()
    && (forall i :: 0 <= i < |st.inspections| ==> st.inspections[i].phase == Idle)
    && (forall who :: 0 <= who < |st.ledger| ==> st.ledger[who] == Counters(0, 0, 0, NOTHING))
  }

  lemma NothingInFlight(st: State, who: nat, f: Phase -> int)
    requires (forall i :: 0 <= i < |st.inspections| ==> st.inspections[i].phase == Idle) && f(Idle) == 0
    ensures InFlight(st, who, f) == 0 && SumBy(st.inspections, OfAny(f)) == 0
  {
    SumZero(st.inspections, For(who, f));
    SumZero(st.inspections, OfAny(f));
  }

  lemma NewSessionWithinBudget(cfg: Config, start: int)
    requires cfg.Valid()
    ensures WithinBudget(NewSession(cfg, start))
  {
  }

  lemma InitInv(st: State)
    requires Init(st)
    ensures Inv(st)
  {
    hide SumBy;
    NewSessionWithinBudget(st.session.cfg, st.session.start);
    hide WithinBudget;
    forall who | 0 <= who < |st.ledger|
      ensures Balanced(st, who)
    {
      NothingInFlight(st, who, PendingFloats);
      NothingInFlight(st, who, PendingHistograms);
      NothingInFlight(st, who, PendingTruncated);
    }
    NothingInFlight(st, 0, Reserved);
    SumZero(st.ledger, AttemptsIn);
  }

  /**
   * In every interleaving, at every moment and for every identity: matched samples are captured,
   * skipped or still in flight; truncated samples are among the captured ones; and the attempts
   * taken from the budget are exactly the outcomes counted plus the reservations in progress.
   */
  lemma {:induction false} LedgerAlwaysBalances(st: State, run: seq<Action>, n: nat)
    requires Init(st) && n <= |run|
    ensures Inv(StateAfter(st, run, n))
    ensures |StateAfter(st, run, n).ledger| == |st.ledger|
    ensures StateAfter(st, run, n).session.cfg == st.session.cfg
  {
    hide Inv;
    if n == 0 {
      InitInv(st);
    } else {
      LedgerAlwaysBalances(st, run, n - 1);
      ApplyKeepsInv(StateAfter(st, run, n - 1), run[n - 1]);
    }
  }

  /** Once no inspection is active, the counters add up by themselves. */
  lemma QuietLedger(st: State, run: seq<Action>, n: nat, who: nat)
    requires Init(st) && n <= |run| && who < |st.ledger|
    requires forall i :: 0 <= i < |StateAfter(st, run, n).inspections| ==>
               StateAfter(st, run, n).inspections[i].phase == Idle
    ensures |StateAfter(st, run, n).ledger| == |st.ledger|
    ensures var end := StateAfter(st, run, n);
            var c := end.ledger[who];
            && c.matchedFloats == c.floats.captured + c.floats.Skipped()
            && c.matchedHistograms == c.unsupported
            && c.floats.truncated <= c.floats.captured
            && end.session.attempts == SumBy(end.ledger, AttemptsIn)
  {
    LedgerAlwaysBalances(st, run, n);
    var end := StateAfter(st, run, n);
    assert Balanced(end, who);
    NothingInFlight(end, who, PendingFloats);
    NothingInFlight(end, who, PendingHistograms);
    NothingInFlight(end, who, PendingTruncated);
    NothingInFlight(end, who, Reserved);
  }

  /** The total budget holds under every interleaving, whatever the clock readings. */
  lemma BudgetHoldsUnderInterleaving(st: State, run: seq<Action>, n: nat)
    requires Init(st) && n <= |run|
    ensures StateAfter(st, run, n).session.attempts <= st.session.cfg.Budget()
  {
    LedgerAlwaysBalances(st, run, n);
    WithinBudgetBounds(StateAfter(st, run, n).session);
  }

  // What is matched is what the inspections began with

  function UnmatchedFloats(p: Phase): int {
    match p
    case HistogramsMatched(_, floats) => floats
    case BeforeFloats(floats) => floats
    case _ => 0
  }

  /** The samples with which action a begins an inspection for an identity. */
  function BegunFloats(st: State, a: Action, who: nat): int {
    if Begins(st, a, who) then a.event.floats else 0
  }

  function BegunHistograms(st: State, a: Action, who: nat): int {
    if Begins(st, a, who) then a.event.histograms else 0
  }

  predicate Begins(st: State, a: Action, who: nat) {
    && a.inspection < |st.inspections| && st.inspections[a.inspection].phase.Idle?
    && a.event.Begin? && a.event.who == who < |st.ledger|
  }

  /** All samples with which inspections have begun for an identity. */
  function AllBegun(st: State, run: seq<Action>, n: nat, who: nat, begun: (State, Action, nat) -> int): int
    requires n <= |run|
  {
    if n == 0 then 0
    else AllBegun(st, run, n - 1, who, begun) + begun(StateAfter(st, run, n - 1), run[n - 1], who)
  }

  lemma LocalMatches(s: Session, p: Phase, c: Counters, e: Event)
    requires PhaseValid(p)
    ensures var (_, p', c') := Local(s, p, c, e);
            && c'.matchedFloats + UnmatchedFloats(p') ==
                 c.matchedFloats + UnmatchedFloats(p) + (if p.Idle? && e.Begin? then e.floats else 0)
            && c'.matchedHistograms == c.matchedHistograms + if p.Idle? && e.Begin? then e.histograms else 0
  {
    hide Tally.Plus;
    hide Refused;
    hide Charge;
    hide Reserve;
  }

  lemma ApplyMatches(st: State, a: Action, who: nat)
    requires Inv(st) && who < |st.ledger|
    ensures var next := Apply(st, a);
            && |next.ledger| == |st.ledger|
            && next.ledger[who].matchedFloats + InFlight(next, who, UnmatchedFloats) ==
                 st.ledger[who].matchedFloats + InFlight(st, who, UnmatchedFloats) + BegunFloats(st, a, who)
            && next.ledger[who].matchedHistograms == st.ledger[who].matchedHistograms + BegunHistograms(st, a, who)
  {
    hide Local;
    hide InFlight;
    hide Balanced;
    hide AttemptsAccounted;
    hide WithinBudget;
    if a.inspection < |st.inspections| && Actor(st, a).who < |st.ledger| {
      var x := Actor(st, a);
      assert PhaseValid(x.phase);
      LocalMatches(st.session, x.phase, st.ledger[x.who], a.event);
      InFlightMoves(st, a, who, UnmatchedFloats);
    }
  }

  /**
   * In every run, the samples counted as matched for an identity are those its inspections have
   * begun with, less the ones an inspection has still to count.
   */
  lemma {:induction false} MatchedIsBegun(st: State, run: seq<Action>, n: nat, who: nat)
    requires Init(st) && n <= |run| && who < |st.ledger|
    ensures |StateAfter(st, run, n).ledger| == |st.ledger|
    ensures var now := StateAfter(st, run, n);
            && now.ledger[who].matchedFloats + InFlight(now, who, UnmatchedFloats) ==
                 AllBegun(st, run, n, who, BegunFloats)
            && now.ledger[who].matchedHistograms == AllBegun(st, run, n, who, BegunHistograms)
  {
    hide Apply;
    hide BegunFloats;
    hide BegunHistograms;
    if n == 0 {
      NothingInFlight(st, who, UnmatchedFloats);
    } else {
      MatchedIsBegun(st, run, n - 1, who);
      LedgerAlwaysBalances(st, run, n - 1);
      hide Inv;
      hide InFlight;
      ApplyMatches(StateAfter(st, run, n - 1), run[n - 1], who);
    }
  }

  // An inspection that runs undisturbed is the sequential loop

  function LocalRun(s: Session, p: Phase, c: Counters, events: seq<Event>): (Session, Phase, Counters)
    decreases |events|
  {
    if events == [] then (s, p, c)
    else
      var (s', p', c') := Local(s, p, c, events[0]);
      LocalRun(s', p', c', events[1..])
  }

  lemma {:induction false} LocalRunConcat(s: Session, p: Phase, c: Counters, a: seq<Event>, b: seq<Event>)
    ensures var (s', p', c') := LocalRun(s, p, c, a);
            LocalRun(s, p, c, a + b) == LocalRun(s', p', c', b)
    decreases |a|
  {
    hide Local;
    if a == [] {
      assert a + b == b;
    } else {
      var (s', p', c') := Local(s, p, c, a[0]);
      LocalRunConcat(s', p', c', a[1..], b);
      assert (a + b)[1..] == a[1..] + b;
    }
  }

  /** The steps one sample takes. */
  function SampleSteps(r: Option<Refusal>, turn: Turn): seq<Event> {
    [ReadClock(turn.now), Proceed] +
    if r.Some? then [Proceed]
    else [Answer(turn.outcome), Proceed] + if turn.outcome == Logged(true) then [Proceed] else []
  }

  function Script(s: Session, turns: seq<Turn>): seq<Event>
    decreases |turns|
  {
    if turns == [] then []
    else
      var (after, r) := Reserve(s, turns[0].now);
      SampleSteps(r, turns[0]) + if Terminal(r) then [] else Script(after, turns[1..])
  }

  lemma SampleRun(s: Session, c: Counters, left: int, turn: Turn)
    requires left > 0
    ensures var (after, r) := Reserve(s, turn.now);
            LocalRun(s, NextSample(left), c, SampleSteps(r, turn)) ==
              (after,
               if Terminal(r) then Idle else After(left - 1),
               c.Add(if Terminal(r) then Refused(r.value, left) else Charge(r, turn.outcome)))
  {
    hide Reserve;
    hide Tally.Plus;
    var (after, r) := Reserve(s, turn.now);
    var steps := SampleSteps(r, turn);
    LocalRunTwo(s, NextSample(left), c, steps);
    LocalRunEnds(after, if r.Some? then RefusedBy(left, r.value) else Offering(left), c, steps[2..]);
    if r.None? && turn.outcome == Logged(true) {
      TwoCaptureSteps(c.floats);
    }
  }

  lemma LocalRunTwo(s: Session, p: Phase, c: Counters, e: seq<Event>)
    requires |e| >= 2
    ensures var (s1, p1, c1) := Local(s, p, c, e[0]);
            var (s2, p2, c2) := Local(s1, p1, c1, e[1]);
            LocalRun(s, p, c, e) == LocalRun(s2, p2, c2, e[2..])
  {
    hide Local;
    assert e[1..][0] == e[1] && e[1..][1..] == e[2..];
  }

  /** The runs of one, two and three steps, unfolded. */
  lemma LocalRunEnds(s: Session, p: Phase, c: Counters, e: seq<Event>)
    requires 1 <= |e| <= 3
    ensures var (s1, p1, c1) := Local(s, p, c, e[0]);
            && (|e| == 1 ==> LocalRun(s, p, c, e) == (s1, p1, c1))
            && (|e| >= 2 ==>
                  var (s2, p2, c2) := Local(s1, p1, c1, e[1]);
                  && (|e| == 2 ==> LocalRun(s, p, c, e) == (s2, p2, c2))
                  && (|e| == 3 ==> LocalRun(s, p, c, e) == Local(s2, p2, c2, e[2])))
  {
    hide Local;
    var (s1, p1, c1) := Local(s, p, c, e[0]);
    if |e| >= 2 {
      LocalRunTwo(s, p, c, e);
      if |e| == 3 {
        var (s2, p2, c2) := Local(s1, p1, c1, e[1]);
        assert e[2..] == [e[2]];
        assert LocalRun(s2, p2, c2, [e[2]]) == Local(s2, p2, c2, e[2]);
      }
    }
  }

  lemma TwoCaptureSteps(t: Tally)
    ensures t.Plus(NOTHING.(captured := 1)).Plus(NOTHING.(truncated := 1)) == t.Plus(Charge(None, Logged(true)))
  {
  }

  /** Undisturbed, the steps of an inspection leave session and counters as the sequential loop does. */
  lemma {:induction false} ScriptFollowsLoop(s: Session, c: Counters, turns: seq<Turn>)
    requires turns != [] && forall i :: 0 <= i < |turns| ==> turns[i].others == []
    ensures LocalRun(s, NextSample(|turns|), c, Script(s, turns)) ==
              (ShortcutLoop(s, turns).0, Idle, c.Add(ShortcutLoop(s, turns).1))
    decreases |turns|
  {
    hide Reserve;
    hide Local;
    hide SampleSteps;
    hide Tally.Plus;
    hide Charge;
    hide Refused;
    var (after, r) := Reserve(s, turns[0].now);
    SampleRun(s, c, |turns|, turns[0]);
    LocalRunConcat(s, NextSample(|turns|), c, SampleSteps(r, turns[0]), if Terminal(r) then [] else Script(after, turns[1..]));
    if Terminal(r) {
      NoOthers(after, turns[1..]);
    } else {
      var charge := Charge(r, turns[0].outcome);
      if |turns| > 1 {
        ScriptFollowsLoop(after, c.Add(charge), turns[1..]);
      } else {
        assert turns[1..] == [];
        PlusNothing(charge);
      }
      PlusAssociates(c.floats, charge, ShortcutLoop(after, turns[1..]).1);
    }
  }
}
