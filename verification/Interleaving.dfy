/**
 * One inspection within any run of many. Whatever the others do between its steps, from its first
 * sample to its last it does what the loop with the early return does on turns that record the
 * reservations the others made in between.
 */
module Interleaving {
  import opened Prelude
  import opened Capture
  import opened CaptureLoop
  import opened CaptureLedger

  // What a run shows of one inspection

  /** The float counts that a step of an inspection adds. */
  function StepCharge(p: Phase, e: Event): Tally {
    if !e.Proceed? then NOTHING
    else match p
      case RefusedBy(left, reason) => Refused(reason, if Terminal(Some(reason)) then left else 1)
      case NotLogged(_, outcome) => Charge(None, outcome)
      case Accepted(_, _) => NOTHING.(captured := 1)
      case CountingTruncated(_) => NOTHING.(truncated := 1)
      case _ => NOTHING
  }

  /** These are the counts that reach the ledger. */
  lemma StepChargeIsCounted(s: Session, p: Phase, c: Counters, e: Event)
    ensures Local(s, p, c, e).2.floats == c.floats.Plus(StepCharge(p, e))
  {
    hide Tally.Plus;
    hide Charge;
    hide Refused;
    hide Reserve;
    PlusNothing(c.floats);
  }

  predicate Acts(st: State, a: Action) {
    a.inspection < |st.inspections| && Actor(st, a).who < |st.ledger|
  }

  /** The reading with which an action reserves, if it does. */
  function Reserves(st: State, a: Action): Option<int> {
    if Acts(st, a) && Actor(st, a).phase.HasReading? && a.event.Proceed? then Some(Actor(st, a).phase.now) else None
  }

  function ReadingsOf(r: Option<int>): seq<int> {
    if r.Some? then [r.value] else []
  }

  /** The readings reserved by inspections other than x from action m to before action n. */
  function OthersRead(st: State, run: seq<Action>, m: nat, n: nat, x: nat): seq<int>
    requires m <= n <= |run|
  {
    if n == m then []
    else
      OthersRead(st, run, m, n - 1, x) +
      if run[n - 1].inspection != x then ReadingsOf(Reserves(StateAfter(st, run, n - 1), run[n - 1])) else []
  }

  /** Those reserved by x itself. */
  function OwnRead(st: State, run: seq<Action>, m: nat, n: nat, x: nat): seq<int>
    requires m <= n <= |run|
  {
    if n == m then []
    else
      OwnRead(st, run, m, n - 1, x) +
      if run[n - 1].inspection == x then ReadingsOf(Reserves(StateAfter(st, run, n - 1), run[n - 1])) else []
  }

  /** What x has added to the float counts of its identity meanwhile. */
  function Charged(st: State, run: seq<Action>, m: nat, n: nat, x: nat): Tally
    requires m <= n <= |run|
  {
    if n == m then NOTHING
    else
      var now, a := StateAfter(st, run, n - 1), run[n - 1];
      Charged(st, run, m, n - 1, x).Plus(
        if a.inspection == x && Acts(now, a) then StepCharge(Actor(now, a).phase, a.event) else NOTHING)
  }

  // What the loop makes of it

  /** The reservations of others that a list of turns records, in order. */
  function Flat(turns: seq<Turn>): seq<int> {
    if turns == [] then [] else Flat(turns[..|turns| - 1]) + turns[|turns| - 1].others
  }

  function Nows(turns: seq<Turn>): (nows: seq<int>)
    ensures |nows| == |turns|
  {
    seq(|turns|, i requires 0 <= i < |turns| => turns[i].now)
  }

  /** The turns done lead the loop from s0 to a session and a tally, from which it goes on. */
  ghost predicate Leads(s0: Session, done: seq<Turn>, end: Session, tally: Tally) {
    forall rest ::
      ShortcutLoop(s0, done + rest) == (ShortcutLoop(end, rest).0, tally.Plus(ShortcutLoop(end, rest).1))
  }

  lemma NoTurnsLead(s0: Session)
    ensures Leads(s0, [], s0, NOTHING)
  {
    hide Tally.Plus;
    hide ShortcutLoop;
    forall rest
      ensures ShortcutLoop(s0, [] + rest) == (ShortcutLoop(s0, rest).0, NOTHING.Plus(ShortcutLoop(s0, rest).1))
    {
      assert [] + rest == rest;
      PlusNothing(ShortcutLoop(s0, rest).1);
    }
  }

  lemma FirstTurn(s: Session, turn: Turn, rest: seq<Turn>)
    ensures var (after, r) := Reserve(SessionAt(s, turn.others, |turn.others|), turn.now);
            && (!Terminal(r) ==>
                  ShortcutLoop(s, [turn] + rest) ==
                    (ShortcutLoop(after, rest).0, Charge(r, turn.outcome).Plus(ShortcutLoop(after, rest).1)))
            && (Terminal(r) ==> ShortcutLoop(s, [turn] + rest) == (Others(after, rest), Refused(r.value, 1 + |rest|)))
  {
    hide Reserve;
    hide SessionAt;
    hide Charge;
    hide Refused;
    hide Others;
    hide Tally.Plus;
    assert ([turn] + rest)[1..] == rest;
  }

  /** One more turn that is not refused for good. */
  lemma OneMoreLeads(s0: Session, done: seq<Turn>, end: Session, tally: Tally, turn: Turn)
    requires Leads(s0, done, end, tally)
    ensures var (after, r) := Reserve(SessionAt(end, turn.others, |turn.others|), turn.now);
            !Terminal(r) ==> Leads(s0, done + [turn], after, tally.Plus(Charge(r, turn.outcome)))
  {
    hide Reserve;
    hide SessionAt;
    hide Charge;
    hide Tally.Plus;
    hide ShortcutLoop;
    var (after, r) := Reserve(SessionAt(end, turn.others, |turn.others|), turn.now);
    if !Terminal(r) {
      var charge := Charge(r, turn.outcome);
      forall rest
        ensures ShortcutLoop(s0, done + [turn] + rest) ==
                  (ShortcutLoop(after, rest).0, tally.Plus(charge).Plus(ShortcutLoop(after, rest).1))
      {
        assert done + [turn] + rest == done + ([turn] + rest);
        FirstTurn(end, turn, rest);
        PlusAssociates(tally, charge, ShortcutLoop(after, rest).1);
      }
    }
  }

  /** How far an inspection has come: turns done, and the readings around its current reservation. */
  datatype Trace = Trace(
    done: seq<Turn>, end: Session, tally: Tally, before: seq<int>, now: int, since: seq<int>)
  {
    /** The session that the current reservation meets. */
    function Met(): Session {
      SessionAt(end, before, |before|)
    }

    function After(): Session {
      Reserve(Met(), now).0
    }

    function Answer(): Option<Refusal> {
      Reserve(Met(), now).1
    }
  }

  predicate BeforeReserving(p: Phase) {
    p.NextSample? || p.HasReading?
  }

  /** The inspection began with `samples` samples at s0, stands at p, and has added t to its counts. */
  ghost predicate Follows(s0: Session, samples: int, tr: Trace, s: Session, p: Phase, t: Tally) {
    && Leads(s0, tr.done, tr.end, tr.tally)
    && (if BeforeReserving(p) then s == tr.Met() && tr.since == []
        else s == SessionAt(tr.After(), tr.since, |tr.since|))
    && match p
       case NextSample(left) => 0 < left && |tr.done| + left == samples && t == tr.tally
       case HasReading(left, _) => 0 < left && |tr.done| + left == samples && t == tr.tally
       case RefusedBy(left, reason) =>
         0 < left && |tr.done| + left == samples && t == tr.tally && tr.Answer() == Some(reason)
       case Offering(left) =>
         0 < left && |tr.done| + left == samples && t == tr.tally && tr.Answer() == None
       case NotLogged(left, outcome) =>
         0 < left && |tr.done| + left == samples && t == tr.tally && tr.Answer() == None
       case Accepted(left, _) =>
         0 < left && |tr.done| + left == samples && t == tr.tally && tr.Answer() == None
       case CountingTruncated(left) =>
         && 0 <= left && |tr.done| + 1 + left == samples && tr.Answer() == None
         && t == tr.tally.Plus(NOTHING.(captured := 1))
       case _ => false
  }

  /** The readings of others and of the inspection itself, as the trace records them. */
  ghost predicate Records(tr: Trace, p: Phase, others: seq<int>, own: seq<int>) {
    && others == Flat(tr.done) + tr.before + tr.since
    && own == Nows(tr.done) + if BeforeReserving(p) then [] else [tr.now]
  }

  /** The whole inspection is the loop on some turns, followed by further reservations of others. */
  ghost predicate IsLoop(
    s0: Session, samples: int, s: Session, t: Tally, others: seq<int>, own: seq<int>, turns: seq<Turn>, trailing: seq<int>)
  {
    && |turns| == samples
    && s == SessionAt(ShortcutLoop(s0, turns).0, trailing, |trailing|)
    && t == ShortcutLoop(s0, turns).1
    && others == Flat(turns) + trailing
    && own <= Nows(turns)
  }

  lemma FlatAppend(turns: seq<Turn>, turn: Turn)
    ensures Flat(turns + [turn]) == Flat(turns) + turn.others
    ensures Nows(turns + [turn]) == Nows(turns) + [turn.now]
  {
    assert (turns + [turn])[..|turns|] == turns;
  }

  lemma SessionAtAppend(s: Session, times: seq<int>, t: int)
    ensures SessionAt(s, times + [t], |times + [t]|) == Reserve(SessionAt(s, times, |times|), t).0
  {
    hide Reserve;
    SessionAtPrefix(s, times, [t], |times|);
  }

  // One step of the inspection

  lemma LoopDone(s0: Session, done: seq<Turn>, end: Session, tally: Tally)
    requires Leads(s0, done, end, tally)
    ensures ShortcutLoop(s0, done) == (end, tally)
  {
    hide Tally.Plus;
    assert done + [] == done;
    NoTurns(end);
    PlusNothing(tally);
  }

  /** A sample is accounted for, and the loop goes on or is through. */
  lemma TurnDone(s0: Session, samples: int, tr: Trace, s: Session, t: Tally, left: int, outcome: Outcome,
                 others: seq<int>, own: seq<int>)
    returns (tr': Trace)
    requires Leads(s0, tr.done, tr.end, tr.tally) && s == SessionAt(tr.After(), tr.since, |tr.since|)
    requires !Terminal(tr.Answer()) && t == tr.tally.Plus(Charge(tr.Answer(), outcome))
    requires 0 <= left && |tr.done| + 1 + left == samples
    requires others == Flat(tr.done) + tr.before + tr.since && own == Nows(tr.done) + [tr.now]
    ensures 0 < left ==> Follows(s0, samples, tr', s, NextSample(left), t) && Records(tr', NextSample(left), others, own)
    ensures left == 0 ==> IsLoop(s0, samples, s, t, others, own, tr'.done, tr.since)
  {
    hide Leads;
    hide Tally.Plus;
    hide Charge;
    hide Flat;
    hide Nows;
    hide Reserve;
    hide SessionAt;
    hide ShortcutLoop;
    var turn := Turn(tr.before, tr.now, outcome);
    OneMoreLeads(s0, tr.done, tr.end, tr.tally, turn);
    tr' := Trace(tr.done + [turn], tr.After(), t, tr.since, 0, []);
    FlatAppend(tr.done, turn);
    LoopDone(s0, tr'.done, tr'.end, tr'.tally);
  }

  function Filler(n: nat): (turns: seq<Turn>)
    ensures |turns| == n && forall i :: 0 <= i < n ==> turns[i].others == []
  {
    seq(n, _ => Turn([], 0, LogDisabled))
  }

  lemma {:induction false} FlatFiller(turns: seq<Turn>, n: nat)
    ensures Flat(turns + Filler(n)) == Flat(turns) && Nows(turns) <= Nows(turns + Filler(n))
  {
    if n == 0 {
      assert turns + Filler(0) == turns;
    } else {
      FlatFiller(turns, n - 1);
      assert turns + Filler(n) == (turns + Filler(n - 1)) + [Turn([], 0, LogDisabled)];
      FlatAppend(turns + Filler(n - 1), Turn([], 0, LogDisabled));
    }
  }

  /** A refusal for good ends the loop and accounts for all samples left. */
  lemma RefusedForGood(s0: Session, samples: int, tr: Trace, s: Session, t: Tally, left: int,
                       others: seq<int>, own: seq<int>)
    returns (turns: seq<Turn>)
    requires Leads(s0, tr.done, tr.end, tr.tally) && s == SessionAt(tr.After(), tr.since, |tr.since|)
    requires 0 < left && |tr.done| + left == samples
    requires Terminal(tr.Answer()) && t == tr.tally.Plus(Refused(tr.Answer().value, left))
    requires others == Flat(tr.done) + tr.before + tr.since && own == Nows(tr.done) + [tr.now]
    ensures IsLoop(s0, samples, s, t, others, own, turns, tr.since)
  {
    hide Tally.Plus;
    hide Refused;
    hide Flat;
    hide Nows;
    hide Reserve;
    hide SessionAt;
    hide ShortcutLoop;
    var turn, filler := Turn(tr.before, tr.now, LogDisabled), Filler(left - 1);
    turns := tr.done + [turn] + filler;
    assert turns == tr.done + ([turn] + filler);
    FirstTurn(tr.end, turn, filler);
    NoOthers(tr.After(), filler);
    FlatAppend(tr.done, turn);
    FlatFiller(tr.done + [turn], left - 1);
  }

  /** A step that neither makes a reservation nor ends a sample leaves the trace alone. */
  predicate IsInner(p: Phase, e: Event) {
    || (p.NextSample? && e.ReadClock?)
    || (p.Offering? && e.Answer?)
    || (p.Accepted? && p.truncated && e.Proceed?)
  }

  predicate IsIgnored(p: Phase, e: Event) {
    match p
    case Idle => !e.Begin?
    case NextSample(_) => !e.ReadClock?
    case Offering(_) => !e.Answer?
    case _ => !e.Proceed?
  }

  lemma InnerStep(s0: Session, samples: int, tr: Trace, s: Session, p: Phase, c: Counters, e: Event, t: Tally,
                  others: seq<int>, own: seq<int>)
    requires Follows(s0, samples, tr, s, p, t) && Records(tr, p, others, own)
    requires IsInner(p, e) || IsIgnored(p, e)
    ensures var (s', p', _) := Local(s, p, c, e);
            var t' := t.Plus(StepCharge(p, e));
            && p' != Idle && Follows(s0, samples, tr, s', p', t') && Records(tr, p', others, own)
  {
    hide Leads;
    hide Tally.Plus;
    hide Flat;
    hide Nows;
    hide Reserve;
    hide SessionAt;
    hide Charge;
    hide Refused;
    PlusNothing(t);
  }

  lemma ReserveStep(s0: Session, samples: int, tr: Trace, s: Session, p: Phase, c: Counters, e: Event, t: Tally,
                    others: seq<int>, own: seq<int>)
    returns (tr': Trace)
    requires Follows(s0, samples, tr, s, p, t) && Records(tr, p, others, own) && p.HasReading? && e.Proceed?
    ensures var (s', p', _) := Local(s, p, c, e);
            var t' := t.Plus(StepCharge(p, e));
            && p' != Idle && Follows(s0, samples, tr', s', p', t') && Records(tr', p', others, own + [p.now])
  {
    hide Leads;
    hide Tally.Plus;
    hide Flat;
    hide Nows;
    hide Reserve;
    hide Charge;
    hide Refused;
    PlusNothing(t);
    tr' := tr.(now := p.now, since := []);
    NoOneElse(tr'.After());
  }

  lemma SampleEnds(s0: Session, samples: int, tr: Trace, s: Session, p: Phase, c: Counters, e: Event, t: Tally,
                   others: seq<int>, own: seq<int>)
    returns (tr': Trace, turns: seq<Turn>)
    requires Follows(s0, samples, tr, s, p, t) && Records(tr, p, others, own) && e.Proceed? && PhaseValid(p)
    requires p.RefusedBy? || p.NotLogged? || (p.Accepted? && !p.truncated) || p.CountingTruncated?
    ensures var (s', p', _) := Local(s, p, c, e);
            var t' := t.Plus(StepCharge(p, e));
            && (p' != Idle ==> Follows(s0, samples, tr', s', p', t') && Records(tr', p', others, own))
            && (p' == Idle ==> IsLoop(s0, samples, s', t', others, own, turns, tr.since))
  {
    hide Leads;
    hide Tally.Plus;
    hide Flat;
    hide Nows;
    hide Reserve;
    hide SessionAt;
    hide IsLoop;
    hide Refused;
    tr', turns := tr, [];
    var t' := t.Plus(StepCharge(p, e));
    if p.RefusedBy? && Terminal(Some(p.reason)) {
      turns := RefusedForGood(s0, samples, tr, s, t', p.left, others, own);
    } else {
      var left := if p.CountingTruncated? then p.left else p.left - 1;
      var outcome := match p
        case NotLogged(_, o) => o
        case CountingTruncated(_) => Logged(true)
        case _ => Logged(false);
      ChargeOfSample(tr, p, t, e, outcome);
      hide Charge;
      tr' := TurnDone(s0, samples, tr, s, t', left, outcome, others, own);
      turns := tr'.done;
    }
  }

  lemma ChargeOfSample(tr: Trace, p: Phase, t: Tally, e: Event, outcome: Outcome)
    requires e.Proceed?
    requires p.RefusedBy? ==> tr.Answer() == Some(p.reason) && !Terminal(tr.Answer()) && t == tr.tally
    requires p.NotLogged? ==> tr.Answer() == None && outcome == p.outcome && t == tr.tally
    requires p.Accepted? ==> tr.Answer() == None && outcome == Logged(false) && t == tr.tally
    requires p.CountingTruncated? ==>
               tr.Answer() == None && outcome == Logged(true) && t == tr.tally.Plus(NOTHING.(captured := 1))
    requires p.RefusedBy? || p.NotLogged? || p.Accepted? || p.CountingTruncated?
    ensures t.Plus(StepCharge(p, e)) == tr.tally.Plus(Charge(tr.Answer(), outcome))
  {
    hide Reserve;
    hide SessionAt;
    if p.CountingTruncated? {
      TwoCaptureSteps(tr.tally);
    }
    hide Tally.Plus;
  }

  /** A reservation by another inspection. */
  lemma OtherStep(s0: Session, samples: int, tr: Trace, s: Session, p: Phase, t: Tally,
                  others: seq<int>, own: seq<int>, reading: int)
    returns (tr': Trace)
    requires Follows(s0, samples, tr, s, p, t) && Records(tr, p, others, own)
    ensures Follows(s0, samples, tr', Reserve(s, reading).0, p, t) && Records(tr', p, others + [reading], own)
  {
    hide Leads;
    hide Tally.Plus;
    hide Flat;
    hide Nows;
    hide Reserve;
    hide SessionAt;
    if BeforeReserving(p) {
      SessionAtAppend(tr.end, tr.before, reading);
      tr' := tr.(before := tr.before + [reading]);
    } else {
      SessionAtAppend(tr.After(), tr.since, reading);
      tr' := tr.(since := tr.since + [reading]);
    }
  }

  // Any run

  lemma {:induction false} SameSizes(st: State, run: seq<Action>, n: nat)
    requires n <= |run|
    ensures |StateAfter(st, run, n).inspections| == |st.inspections|
    ensures |StateAfter(st, run, n).ledger| == |st.ledger|
  {
    hide Local;
    if n > 0 {
      SameSizes(st, run, n - 1);
    }
  }

  /** A step by x moves x; a step by another inspection moves at most the session. */
  lemma ApplySeenBy(st: State, a: Action, x: nat)
    requires x < |st.inspections| && st.inspections[x].phase != Idle && st.inspections[x].who < |st.ledger|
    ensures var me, next := st.inspections[x], Apply(st, a);
            && x < |next.inspections|
            && (a.inspection == x ==>
                  var (s, p, c) := Local(st.session, me.phase, st.ledger[me.who], a.event);
                  && Acts(st, a) && Actor(st, a) == me
                  && next.session == s && next.inspections[x] == Inspection(me.who, p))
            && (a.inspection != x ==>
                  && next.inspections[x] == me
                  && next.session == if Reserves(st, a).Some? then Reserve(st.session, Reserves(st, a).value).0
                                     else st.session)
  {
    hide Reserve;
    hide Tally.Plus;
    hide Charge;
    hide Refused;
  }

  lemma OwnReserves(st: State, a: Action)
    requires Acts(st, a)
    ensures ReadingsOf(Reserves(st, a)) ==
              if Actor(st, a).phase.HasReading? && a.event.Proceed? then [Actor(st, a).phase.now] else []
  {
  }

  /** From action m to action n inspection x is at work, on samples it has counted as matched. */
  ghost predicate AtWork(st: State, run: seq<Action>, m: nat, n: nat, x: nat, who: nat, samples: int)
    requires m <= n <= |run|
  {
    && x < |st.inspections| && who < |st.ledger| && 0 < samples
    && (forall k :: m <= k <= n ==> x < |StateAfter(st, run, k).inspections|)
    && StateAfter(st, run, m).inspections[x] == Inspection(who, NextSample(samples))
    && forall k :: m <= k < n ==> StateAfter(st, run, k).inspections[x].phase != Idle
  }

  /** What is known of an inspection that has come to its n-th action and is not through. */
  ghost predicate OnTheWay(st: State, run: seq<Action>, m: nat, n: nat, x: nat, who: nat, samples: int, tr: Trace)
    requires m <= n <= |run|
  {
    var now := StateAfter(st, run, n);
    && x < |now.inspections| && now.inspections[x].who == who && PhaseValid(now.inspections[x].phase)
    && Follows(StateAfter(st, run, m).session, samples, tr, now.session, now.inspections[x].phase,
               Charged(st, run, m, n, x))
    && Records(tr, now.inspections[x].phase, OthersRead(st, run, m, n, x), OwnRead(st, run, m, n, x))
  }

  ghost predicate Through(
    st: State, run: seq<Action>, m: nat, n: nat, x: nat, samples: int, turns: seq<Turn>, trailing: seq<int>)
    requires m <= n <= |run|
  {
    IsLoop(StateAfter(st, run, m).session, samples, StateAfter(st, run, n).session, Charged(st, run, m, n, x),
           OthersRead(st, run, m, n, x), OwnRead(st, run, m, n, x), turns, trailing)
  }

  lemma OwnStep(s0: Session, samples: int, tr: Trace, s: Session, p: Phase, c: Counters, e: Event, t: Tally,
                others: seq<int>, own: seq<int>)
    returns (tr': Trace, turns: seq<Turn>)
    requires Follows(s0, samples, tr, s, p, t) && Records(tr, p, others, own) && PhaseValid(p)
    ensures var (s', p', _) := Local(s, p, c, e);
            var t' := t.Plus(StepCharge(p, e));
            var own' := own + if p.HasReading? && e.Proceed? then [p.now] else [];
            && PhaseValid(p')
            && (p' != Idle ==> Follows(s0, samples, tr', s', p', t') && Records(tr', p', others, own'))
            && (p' == Idle ==> IsLoop(s0, samples, s', t', others, own', turns, tr.since))
  {
    LocalBalance(s, p, c, e);
    assert own + [] == own;
    tr', turns := tr, [];
    if IsInner(p, e) || IsIgnored(p, e) {
      InnerStep(s0, samples, tr, s, p, c, e, t, others, own);
    } else if p.HasReading? {
      tr' := ReserveStep(s0, samples, tr, s, p, c, e, t, others, own);
    } else {
      tr', turns := SampleEnds(s0, samples, tr, s, p, c, e, t, others, own);
    }
    hide Follows;
    hide Records;
    hide IsLoop;
    hide Local;
    hide StepCharge;
    hide Tally.Plus;
  }

  lemma StartOnTheWay(st: State, run: seq<Action>, m: nat, x: nat, who: nat, samples: int)
    requires m <= |run| && AtWork(st, run, m, m, x, who, samples)
    ensures OnTheWay(st, run, m, m, x, who, samples, Trace([], StateAfter(st, run, m).session, NOTHING, [], 0, []))
  {
    hide StateAfter;
    hide Leads;
    var s := StateAfter(st, run, m).session;
    NoTurnsLead(s);
    NoOneElse(s);
  }

  /** One more action of the run, by whomever. */
  lemma RunStep(st: State, run: seq<Action>, m: nat, n: nat, x: nat, who: nat, samples: int, tr: Trace)
    returns (tr': Trace, turns: seq<Turn>)
    requires m < n <= |run| && who < |st.ledger| && OnTheWay(st, run, m, n - 1, x, who, samples, tr)
    ensures x < |StateAfter(st, run, n).inspections|
    ensures StateAfter(st, run, n).inspections[x].phase != Idle ==> OnTheWay(st, run, m, n, x, who, samples, tr')
    ensures StateAfter(st, run, n).inspections[x].phase == Idle ==> Through(st, run, m, n, x, samples, turns, tr.since)
  {
    hide Local;
    hide Follows;
    hide Records;
    hide IsLoop;
    hide StepCharge;
    hide Tally.Plus;
    SameSizes(st, run, n - 1);
    var now, a := StateAfter(st, run, n - 1), run[n - 1];
    var p, s0, t := now.inspections[x].phase, StateAfter(st, run, m).session, Charged(st, run, m, n - 1, x);
    var others, own := OthersRead(st, run, m, n - 1, x), OwnRead(st, run, m, n - 1, x);
    FollowsIsBusy(s0, samples, tr, now.session, p, t);
    ApplySeenBy(now, a, x);
    assert StateAfter(st, run, n) == Apply(now, a);
    hide Apply;
    tr', turns := tr, [];
    if a.inspection == x {
      OwnReserves(now, a);
      tr', turns := OwnStep(s0, samples, tr, now.session, p, now.ledger[who], a.event, t, others, own);
      assert others + [] == others;
    } else {
      PlusNothing(t);
      assert own + [] == own && others + [] == others;
      if Reserves(now, a).Some? {
        tr' := OtherStep(s0, samples, tr, now.session, p, t, others, own, Reserves(now, a).value);
      }
    }
  }

  lemma FollowsIsBusy(s0: Session, samples: int, tr: Trace, s: Session, p: Phase, t: Tally)
    requires Follows(s0, samples, tr, s, p, t)
    ensures p != Idle
  {
    hide Leads;
    hide Tally.Plus;
  }

  lemma {:induction false} TraceOfRun(st: State, run: seq<Action>, m: nat, n: nat, x: nat, who: nat, samples: int)
    returns (tr: Trace)
    requires m <= n < |run| && AtWork(st, run, m, n + 1, x, who, samples)
    ensures OnTheWay(st, run, m, n, x, who, samples, tr)
  {
    hide StateAfter;
    hide OnTheWay;
    hide Through;
    if n == m {
      StartOnTheWay(st, run, m, x, who, samples);
      tr := Trace([], StateAfter(st, run, m).session, NOTHING, [], 0, []);
    } else {
      tr := TraceOfRun(st, run, m, n - 1, x, who, samples);
      var turns;
      tr, turns := RunStep(st, run, m, n, x, who, samples, tr);
    }
  }

  /**
   * In every run, between the moment an inspection has counted its samples as matched and the
   * moment it is through, the session moves, and the inspection's counts grow, as the loop with the
   * early return makes them. Its turns record, in order, the reservations the other inspections made
   * in between and its own readings; reservations after its last one follow behind.
   */
  lemma InspectionIsLoop(st: State, run: seq<Action>, m: nat, n: nat, x: nat, who: nat, samples: int)
    returns (turns: seq<Turn>, trailing: seq<int>)
    requires m < n <= |run| && AtWork(st, run, m, n, x, who, samples)
    requires StateAfter(st, run, n).inspections[x].phase == Idle
    ensures Through(st, run, m, n, x, samples, turns, trailing)
  {
    hide StateAfter;
    hide OnTheWay;
    hide Through;
    var tr := TraceOfRun(st, run, m, n - 1, x, who, samples);
    var next;
    next, turns := RunStep(st, run, m, n, x, who, samples, tr);
    trailing := tr.since;
  }
}
