/**
 * The per-sample loop of one inspection. Other inspections may reserve between its samples, so
 * a turn of the loop first lists the readings of their reservations. The shortcut that accounts
 * for all remaining samples at once is compared with the loop that asks for each of them.
 */
module CaptureLoop {
  import opened Prelude
  import opened Validation
  import opened Capture

  /** What the log handler does with a record it is offered. */
  datatype Outcome = LogDisabled | LogError | Logged(truncated: bool)

  datatype Turn = Turn(others: seq<int>, now: int, outcome: Outcome)

  datatype Tally = Tally(
    captured: int, truncated: int,
    durationLimit: int, sampleLimit: int, rateLimit: int, logDisabled: int, logError: int)
  {
    function Skipped(): int {
      durationLimit + sampleLimit + rateLimit + logDisabled + logError
    }

    /** The samples not charged to a terminal refusal. */
    function Unrefused(): int {
      captured + rateLimit + logDisabled + logError
    }

    function Plus(t: Tally): Tally {
      Tally(captured + t.captured, truncated + t.truncated,
            durationLimit + t.durationLimit, sampleLimit + t.sampleLimit, rateLimit + t.rateLimit,
            logDisabled + t.logDisabled, logError + t.logError)
    }
  }

  const NOTHING := Tally(0, 0, 0, 0, 0, 0, 0)

  lemma PlusNothing(t: Tally)
    ensures t.Plus(NOTHING) == t && NOTHING.Plus(t) == t
  {
  }

  lemma PlusAssociates(a: Tally, b: Tally, c: Tally)
    ensures a.Plus(b).Plus(c) == a.Plus(b.Plus(c))
  {
  }

  function Refused(r: Refusal, n: int): Tally {
    match r
    case DurationLimit => NOTHING.(durationLimit := n)
    case SampleLimit => NOTHING.(sampleLimit := n)
    case RateLimit => NOTHING.(rateLimit := n)
  }

  /** How one sample is accounted for. */
  function Charge(r: Option<Refusal>, outcome: Outcome): Tally {
    match r
    case Some(refusal) => Refused(refusal, 1)
    case None =>
      match outcome
      case LogDisabled => NOTHING.(logDisabled := 1)
      case LogError => NOTHING.(logError := 1)
      case Logged(truncated) => NOTHING.(captured := 1, truncated := if truncated then 1 else 0)
  }

  predicate Terminal(r: Option<Refusal>) {
    r == Some(DurationLimit) || r == Some(SampleLimit)
  }

  function Others(s: Session, turns: seq<Turn>): Session
    decreases |turns|
  {
    if turns == [] then s else Others(SessionAt(s, turns[0].others, |turns[0].others|), turns[1..])
  }

  /** Every sample asks. */
  function FullLoop(s: Session, turns: seq<Turn>): (Session, Tally)
    decreases |turns|
  {
    if turns == [] then (s, NOTHING)
    else
      var met := SessionAt(s, turns[0].others, |turns[0].others|);
      var (after, r) := Reserve(met, turns[0].now);
      var (end, rest) := FullLoop(after, turns[1..]);
      (end, Charge(r, turns[0].outcome).Plus(rest))
  }

  /** The loop as written: the first terminal refusal is charged to all remaining samples. */
  function ShortcutLoop(s: Session, turns: seq<Turn>): (Session, Tally)
    decreases |turns|
  {
    if turns == [] then (s, NOTHING)
    else
      var met := SessionAt(s, turns[0].others, |turns[0].others|);
      var (after, r) := Reserve(met, turns[0].now);
      if Terminal(r) then (Others(after, turns[1..]), Refused(r.value, |turns|))
      else
        var (end, rest) := ShortcutLoop(after, turns[1..]);
        (end, Charge(r, turns[0].outcome).Plus(rest))
  }

  lemma ChargeCountsOnce(r: Option<Refusal>, outcome: Outcome)
    ensures var t := Charge(r, outcome); t.captured + t.Skipped() == 1 && t.truncated <= t.captured
  {
  }

  /** Each kind of count adds up. */
  lemma PlusAddsUp(a: Tally, b: Tally)
    ensures a.Plus(b).captured == a.captured + b.captured
    ensures a.Plus(b).Skipped() == a.Skipped() + b.Skipped()
    ensures a.Plus(b).truncated == a.truncated + b.truncated
    ensures a.Plus(b).Unrefused() == a.Unrefused() + b.Unrefused()
  {
  }

  lemma {:induction false} FullLoopAccounts(s: Session, turns: seq<Turn>)
    ensures var t := FullLoop(s, turns).1; t.captured + t.Skipped() == |turns| && t.truncated <= t.captured
    decreases |turns|
  {
    hide Reserve;
    hide SessionAt;
    hide Charge;
    hide Tally.Plus;
    if turns != [] {
      var met := SessionAt(s, turns[0].others, |turns[0].others|);
      var (after, r) := Reserve(met, turns[0].now);
      FullLoopAccounts(after, turns[1..]);
      ChargeCountsOnce(r, turns[0].outcome);
      PlusAddsUp(Charge(r, turns[0].outcome), FullLoop(after, turns[1..]).1);
    }
  }

  lemma {:induction false} ShortcutLoopAccounts(s: Session, turns: seq<Turn>)
    ensures var t := ShortcutLoop(s, turns).1; t.captured + t.Skipped() == |turns| && t.truncated <= t.captured
    decreases |turns|
  {
    hide Reserve;
    hide SessionAt;
    hide Charge;
    hide Tally.Plus;
    if turns != [] {
      var met := SessionAt(s, turns[0].others, |turns[0].others|);
      var (after, r) := Reserve(met, turns[0].now);
      if !Terminal(r) {
        ShortcutLoopAccounts(after, turns[1..]);
        ChargeCountsOnce(r, turns[0].outcome);
        PlusAddsUp(Charge(r, turns[0].outcome), ShortcutLoop(after, turns[1..]).1);
      }
    }
  }

  /** Both loops account for every sample exactly once. */
  lemma EverySampleIsAccounted(s: Session, turns: seq<Turn>)
    ensures var t := FullLoop(s, turns).1; t.captured + t.Skipped() == |turns| && t.truncated <= t.captured
    ensures var t := ShortcutLoop(s, turns).1; t.captured + t.Skipped() == |turns| && t.truncated <= t.captured
  {
    hide FullLoop;
    hide ShortcutLoop;
    FullLoopAccounts(s, turns);
    ShortcutLoopAccounts(s, turns);
  }

  // What is counted as what

  /** The answer each sample gets: its own, until the first terminal refusal, and then that one. */
  function Answers(s: Session, turns: seq<Turn>): (answers: seq<Option<Refusal>>)
    ensures |answers| == |turns|
    decreases |turns|
  {
    if turns == [] then []
    else
      var met := SessionAt(s, turns[0].others, |turns[0].others|);
      var (after, r) := Reserve(met, turns[0].now);
      if Terminal(r) then seq(|turns|, _ => r) else [r] + Answers(after, turns[1..])
  }

  datatype Kind = Captured | Truncated | ForDeadline | ForSamples | ForRate | Disabled | Failed

  /** Which samples are of a kind: refused ones by the answer, granted ones by what the log handler did. */
  predicate IsOf(kind: Kind, answer: Option<Refusal>, outcome: Outcome) {
    match kind
    case Captured => answer == None && outcome.Logged?
    case Truncated => answer == None && outcome == Logged(true)
    case ForDeadline => answer == Some(DurationLimit)
    case ForSamples => answer == Some(SampleLimit)
    case ForRate => answer == Some(RateLimit)
    case Disabled => answer == None && outcome == LogDisabled
    case Failed => answer == None && outcome == LogError
  }

  function CountOf(t: Tally, kind: Kind): int {
    match kind
    case Captured => t.captured
    case Truncated => t.truncated
    case ForDeadline => t.durationLimit
    case ForSamples => t.sampleLimit
    case ForRate => t.rateLimit
    case Disabled => t.logDisabled
    case Failed => t.logError
  }

  function TurnsOf(kind: Kind, answers: seq<Option<Refusal>>, turns: seq<Turn>): nat
    requires |answers| == |turns|
  {
    if turns == [] then 0
    else (if IsOf(kind, answers[0], turns[0].outcome) then 1 else 0) + TurnsOf(kind, answers[1..], turns[1..])
  }

  lemma ChargeOfKind(kind: Kind, r: Option<Refusal>, outcome: Outcome)
    ensures CountOf(Charge(r, outcome), kind) == if IsOf(kind, r, outcome) then 1 else 0
  {
  }

  lemma PlusOfKind(kind: Kind, a: Tally, b: Tally)
    ensures CountOf(a.Plus(b), kind) == CountOf(a, kind) + CountOf(b, kind)
    ensures CountOf(NOTHING, kind) == 0
  {
  }

  lemma {:induction false} SameAnswers(kind: Kind, r: Refusal, turns: seq<Turn>)
    ensures TurnsOf(kind, seq(|turns|, _ => Some(r)), turns) == CountOf(Refused(r, |turns|), kind)
  {
    if turns != [] {
      SameAnswers(kind, r, turns[1..]);
      assert seq(|turns|, _ => Some(r))[1..] == seq(|turns| - 1, _ => Some(r));
    }
  }

  /** Each count of the loop is the number of samples of its kind. */
  lemma {:induction false} CountsAreByKind(s: Session, turns: seq<Turn>, kind: Kind)
    ensures CountOf(ShortcutLoop(s, turns).1, kind) == TurnsOf(kind, Answers(s, turns), turns)
    decreases |turns|
  {
    hide Reserve;
    hide SessionAt;
    hide Charge;
    hide Refused;
    hide CountOf;
    hide IsOf;
    hide Tally.Plus;
    PlusOfKind(kind, NOTHING, NOTHING);
    if turns != [] {
      var met := SessionAt(s, turns[0].others, |turns[0].others|);
      var (after, r) := Reserve(met, turns[0].now);
      if Terminal(r) {
        SameAnswers(kind, r.value, turns);
        assert Answers(s, turns) == seq(|turns|, _ => Some(r.value));
      } else {
        CountsAreByKind(after, turns[1..], kind);
        ChargeOfKind(kind, r, turns[0].outcome);
        PlusOfKind(kind, Charge(r, turns[0].outcome), ShortcutLoop(after, turns[1..]).1);
        assert Answers(s, turns)[1..] == Answers(after, turns[1..]);
      }
    }
  }

  /** All reservations of a list of turns, in order. */
  function Woven(turns: seq<Turn>): seq<int> {
    if turns == [] then [] else turns[0].others + [turns[0].now] + Woven(turns[1..])
  }

  lemma TurnIsReservations(s: Session, turn: Turn, rest: seq<int>)
    ensures var after := Reserve(SessionAt(s, turn.others, |turn.others|), turn.now).0;
            var all := turn.others + [turn.now] + rest;
            SessionAt(s, all, |all|) == SessionAt(after, rest, |rest|)
  {
    hide Reserve;
    var first := turn.others + [turn.now];
    SessionAtPrefix(s, turn.others, [turn.now], |turn.others|);
    assert SessionAt(s, first, |first|) == Reserve(SessionAt(s, turn.others, |turn.others|), turn.now).0;
    SessionAtConcat(s, first, rest, |rest|);
    assert first + rest == turn.others + [turn.now] + rest;
  }

  /** The full loop makes the reservations of all its turns, one after the other. */
  lemma {:induction false} FullLoopReserves(s: Session, turns: seq<Turn>)
    ensures FullLoop(s, turns).0 == SessionAt(s, Woven(turns), |Woven(turns)|)
    decreases |turns|
  {
    hide Reserve;
    hide SessionAt;
    hide Charge;
    hide Tally.Plus;
    if turns == [] {
      NoOneElse(s);
    } else {
      var after := Reserve(SessionAt(s, turns[0].others, |turns[0].others|), turns[0].now).0;
      FullLoopReserves(after, turns[1..]);
      TurnIsReservations(s, turns[0], Woven(turns[1..]));
    }
  }

  /** Up to the first terminal refusal, an answer is that of the reservation in its place among all of them. */
  lemma {:induction false} AnswerIsReservation(s: Session, turns: seq<Turn>, i: nat)
    requires i < |turns| && forall k :: 0 <= k < i ==> !Terminal(Answers(s, turns)[k])
    ensures var before := Woven(turns[..i]) + turns[i].others;
            Answers(s, turns)[i] == Reserve(SessionAt(s, before, |before|), turns[i].now).1
    decreases i
  {
    hide Reserve;
    hide SessionAt;
    var after := Reserve(SessionAt(s, turns[0].others, |turns[0].others|), turns[0].now).0;
    if i == 0 {
      assert Woven(turns[..0]) + turns[0].others == turns[0].others;
    } else {
      assert !Terminal(Answers(s, turns)[0]);
      assert Answers(s, turns)[1..] == Answers(after, turns[1..]);
      assert forall k :: 0 <= k < i - 1 ==> Answers(after, turns[1..])[k] == Answers(s, turns)[k + 1];
      AnswerIsReservation(after, turns[1..], i - 1);
      var rest := Woven(turns[1..][..i - 1]) + turns[i].others;
      assert turns[..i][1..] == turns[1..][..i - 1];
      TurnIsReservations(s, turns[0], rest);
      assert Woven(turns[..i]) + turns[i].others == turns[0].others + [turns[0].now] + rest;
    }
  }

  // Terminal refusals are permanent

  /** From time t on, this session grants nothing more. */
  predicate Exhausted(s: Session, t: int) {
    t >= s.Deadline() || s.attempts >= s.cfg.maxSamples
  }

  lemma TerminalMeansExhausted(s: Session, now: int)
    ensures Terminal(Reserve(s, now).1) <==> Exhausted(s, now)
    ensures Terminal(Reserve(s, now).1) ==> Reserve(s, now).0 == s
  {
  }

  lemma {:induction false} SessionOnlyGrows(s: Session, times: seq<int>, n: nat)
    requires n <= |times|
    ensures var r := SessionAt(s, times, n); r.cfg == s.cfg && r.start == s.start && s.attempts <= r.attempts
  {
    if n > 0 {
      SessionOnlyGrows(s, times, n - 1);
    }
  }

  /** Whatever others reserve meanwhile, a later request is refused too and changes nothing. */
  lemma RefusalIsPermanent(s: Session, now: int, others: seq<int>, later: int)
    requires Terminal(Reserve(s, now).1) && now <= later
    ensures var met := SessionAt(s, others, |others|);
            Terminal(Reserve(met, later).1) && Reserve(met, later).0 == met
  {
    TerminalMeansExhausted(s, now);
    SessionOnlyGrows(s, others, |others|);
    TerminalMeansExhausted(SessionAt(s, others, |others|), later);
  }

  ghost predicate Ordered(turns: seq<Turn>) {
    forall i, j :: 0 <= i < j < |turns| ==> turns[i].now <= turns[j].now
  }

  function PastDeadline(s: Session, turns: seq<Turn>): nat {
    if turns == [] then 0
    else (if turns[0].now >= s.Deadline() then 1 else 0) + PastDeadline(s, turns[1..])
  }

  lemma {:induction false} SameDeadline(s: Session, r: Session, turns: seq<Turn>)
    requires s.Deadline() == r.Deadline()
    ensures PastDeadline(s, turns) == PastDeadline(r, turns)
  {
    if turns != [] {
      SameDeadline(s, r, turns[1..]);
    }
  }

  lemma {:induction false} CountPastDeadline(s: Session, turns: seq<Turn>)
    ensures PastDeadline(s, turns) <= |turns|
    ensures PastDeadline(s, turns) == 0 <==> forall i :: 0 <= i < |turns| ==> turns[i].now < s.Deadline()
    ensures PastDeadline(s, turns) == |turns| <==> forall i :: 0 <= i < |turns| ==> turns[i].now >= s.Deadline()
  {
    if turns != [] {
      CountPastDeadline(s, turns[1..]);
      assert forall i :: 1 <= i < |turns| ==> turns[i] == turns[1..][i - 1];
      assert forall i :: 0 <= i < |turns| - 1 ==> turns[1..][i] == turns[i + 1];
    }
  }

  // The shortcut against the full loop

  /** With the session moved by others only, some turn would not meet a terminal refusal. */
  ghost predicate OpensAgain(s: Session, turns: seq<Turn>)
    decreases |turns|
  {
    turns != [] &&
    var met := SessionAt(s, turns[0].others, |turns[0].others|);
    !Exhausted(met, turns[0].now) || OpensAgain(met, turns[1..])
  }

  /** After the first terminal refusal the session opens again for one of the remaining turns. */
  ghost predicate ExitsTooSoon(s: Session, turns: seq<Turn>)
    decreases |turns|
  {
    turns != [] &&
    var met := SessionAt(s, turns[0].others, |turns[0].others|);
    var (after, r) := Reserve(met, turns[0].now);
    if Terminal(r) then OpensAgain(met, turns[1..]) else ExitsTooSoon(after, turns[1..])
  }

  /** A turn after the first terminal refusal lies on the other side of the deadline. */
  ghost predicate ReasonChanges(s: Session, turns: seq<Turn>)
    decreases |turns|
  {
    turns != [] &&
    var met := SessionAt(s, turns[0].others, |turns[0].others|);
    var (after, r) := Reserve(met, turns[0].now);
    if Terminal(r)
    then exists i :: 0 <= i < |turns| && (turns[i].now >= s.Deadline() <==> r != Some(DurationLimit))
    else ReasonChanges(after, turns[1..])
  }

  /** The loops agree in the session they leave and in all counts but the two terminal ones. */
  ghost predicate SameOutcome(s: Session, turns: seq<Turn>) {
    var (fullEnd, full) := FullLoop(s, turns);
    var (end, short) := ShortcutLoop(s, turns);
    && end == fullEnd
    && short == full.(durationLimit := short.durationLimit, sampleLimit := short.sampleLimit)
  }

  /** Only a session with attempts left opens again, and only for a reading before its deadline. */
  lemma {:induction false} OpensBeforeDeadline(s: Session, turns: seq<Turn>)
    requires OpensAgain(s, turns)
    ensures s.attempts < s.cfg.maxSamples
    ensures exists i :: 0 <= i < |turns| && turns[i].now < s.Deadline()
    decreases |turns|
  {
    var met := SessionAt(s, turns[0].others, |turns[0].others|);
    SessionOnlyGrows(s, turns[0].others, |turns[0].others|);
    if Exhausted(met, turns[0].now) {
      OpensBeforeDeadline(met, turns[1..]);
      var i :| 0 <= i < |turns[1..]| && turns[1..][i].now < met.Deadline();
      assert turns[i + 1].now < s.Deadline();
    }
  }

  /** `late` samples refused for the deadline, the others of n for the sample limit. */
  function Split(late: int, n: int): Tally {
    NOTHING.(durationLimit := late, sampleLimit := n - late)
  }

  lemma SplitOneMore(r: Refusal, late: int, n: int)
    requires r != RateLimit
    ensures Refused(r, 1).Plus(Split(late, n)) == Split(late + if r == DurationLimit then 1 else 0, n + 1)
  {
  }

  lemma SplitOfOne(r: Refusal, late: int, n: int)
    requires r != RateLimit
    ensures Refused(r, n) == Split(late, n) <==> late == if r == DurationLimit then n else 0
    ensures Refused(r, n).Unrefused() == 0
  {
  }

  lemma RefusedTurn(s: Session, turns: seq<Turn>)
    requires turns != []
    requires Exhausted(SessionAt(s, turns[0].others, |turns[0].others|), turns[0].now)
    ensures var met := SessionAt(s, turns[0].others, |turns[0].others|);
            var (after, r) := Reserve(met, turns[0].now);
            && met.Deadline() == s.Deadline()
            && Terminal(r) && after == met
            && (r == Some(DurationLimit) <==> turns[0].now >= s.Deadline())
            && FullLoop(s, turns) == (FullLoop(met, turns[1..]).0, Refused(r.value, 1).Plus(FullLoop(met, turns[1..]).1))
  {
    hide SessionAt;
    hide Charge;
    hide Refused;
    hide Tally.Plus;
    SessionOnlyGrows(s, turns[0].others, |turns[0].others|);
    var met := SessionAt(s, turns[0].others, |turns[0].others|);
    TerminalMeansExhausted(met, turns[0].now);
    RefusalSide(met, turns[0].now);
    hide Reserve;
    ChargeOfRefusal(Reserve(met, turns[0].now).1.value, turns[0].outcome);
  }

  /** A session that stays shut only refuses, each sample for the reason of its own time. */
  lemma {:induction false} ShutLoop(s: Session, turns: seq<Turn>)
    requires !OpensAgain(s, turns)
    ensures FullLoop(s, turns) == (Others(s, turns), Split(PastDeadline(s, turns), |turns|))
    decreases |turns|
  {
    hide Reserve;
    hide SessionAt;
    hide Exhausted;
    hide Refused;
    hide Tally.Plus;
    hide Split;
    if turns == [] {
      NothingSplit();
    } else {
      var met := SessionAt(s, turns[0].others, |turns[0].others|);
      RefusedTurn(s, turns);
      ShutLoop(met, turns[1..]);
      SameDeadline(s, met, turns[1..]);
      SplitOneMore(Reserve(met, turns[0].now).1.value, PastDeadline(met, turns[1..]), |turns| - 1);
      hide OpensAgain;
      hide FullLoop;
    }
  }

  lemma NothingSplit()
    ensures Split(0, 0) == NOTHING
  {
  }

  lemma ChargeUnrefused(r: Option<Refusal>, outcome: Outcome)
    ensures Charge(r, outcome).Unrefused() == if Terminal(r) then 0 else 1
  {
  }

  /** A session that opens again charges some sample to something else than a terminal refusal. */
  lemma {:induction false} OpenLoop(s: Session, turns: seq<Turn>)
    ensures FullLoop(s, turns).1.Unrefused() >= if OpensAgain(s, turns) then 1 else 0
    decreases |turns|
  {
    hide Reserve;
    hide SessionAt;
    hide Charge;
    hide Tally.Plus;
    hide Exhausted;
    if turns != [] {
      var met := SessionAt(s, turns[0].others, |turns[0].others|);
      var (after, r) := Reserve(met, turns[0].now);
      TerminalMeansExhausted(met, turns[0].now);
      ChargeUnrefused(r, turns[0].outcome);
      PlusAddsUp(Charge(r, turns[0].outcome), FullLoop(after, turns[1..]).1);
      OpenLoop(after, turns[1..]);
    }
  }

  lemma ExitOfShortcut(s: Session, turns: seq<Turn>)
    requires turns != []
    requires Terminal(Reserve(SessionAt(s, turns[0].others, |turns[0].others|), turns[0].now).1)
    ensures var met := SessionAt(s, turns[0].others, |turns[0].others|);
            ShortcutLoop(s, turns) == (Others(met, turns[1..]), Refused(Reserve(met, turns[0].now).1.value, |turns|))
  {
    hide Reserve;
    hide SessionAt;
    hide Others;
    hide Refused;
    TerminalMeansExhausted(SessionAt(s, turns[0].others, |turns[0].others|), turns[0].now);
  }

  /** At the exit the loops agree in all but the terminal counts, or the full loop charges something else. */
  lemma AtExit(s: Session, turns: seq<Turn>)
    requires turns != []
    requires Terminal(Reserve(SessionAt(s, turns[0].others, |turns[0].others|), turns[0].now).1)
    ensures var met := SessionAt(s, turns[0].others, |turns[0].others|);
            var r := Reserve(met, turns[0].now).1.value;
            && met.Deadline() == s.Deadline()
            && (r == DurationLimit <==> turns[0].now >= s.Deadline())
            && ShortcutLoop(s, turns).1 == Refused(r, |turns|)
            && if OpensAgain(met, turns[1..])
               then FullLoop(s, turns).1.Unrefused() > 0
               else && ShortcutLoop(s, turns).0 == FullLoop(s, turns).0
                    && FullLoop(s, turns).1 == Split(PastDeadline(s, turns), |turns|)
  {
    hide Reserve;
    hide SessionAt;
    hide Others;
    hide FullLoop;
    hide ShortcutLoop;
    hide Refused;
    hide Split;
    hide Tally.Plus;
    hide Tally.Unrefused;
    hide OpensAgain;
    var met := SessionAt(s, turns[0].others, |turns[0].others|);
    TerminalMeansExhausted(met, turns[0].now);
    hide Exhausted;
    RefusedTurn(s, turns);
    ExitOfShortcut(s, turns);
    var r := Reserve(met, turns[0].now).1.value;
    if OpensAgain(met, turns[1..]) {
      OpenLoop(met, turns[1..]);
      PlusAddsUp(Refused(r, 1), FullLoop(met, turns[1..]).1);
      SplitOfOne(r, 0, 1);
    } else {
      ShutLoop(met, turns[1..]);
      SameDeadline(s, met, turns[1..]);
      SplitOneMore(r, PastDeadline(met, turns[1..]), |turns| - 1);
    }
  }

  lemma OutcomeAtExit(s: Session, turns: seq<Turn>)
    requires turns != []
    requires Terminal(Reserve(SessionAt(s, turns[0].others, |turns[0].others|), turns[0].now).1)
    ensures SameOutcome(s, turns) <==> !OpensAgain(SessionAt(s, turns[0].others, |turns[0].others|), turns[1..])
  {
    hide Reserve;
    hide SessionAt;
    hide FullLoop;
    hide ShortcutLoop;
    hide OpensAgain;
    hide PastDeadline;
    AtExit(s, turns);
    SplitOfOne(Reserve(SessionAt(s, turns[0].others, |turns[0].others|), turns[0].now).1.value, 0, |turns|);
  }

  /**
   * The shortcut leaves the session, the captures, the truncations and all counts but the two
   * terminal ones as the full loop would, exactly unless the session opens again after the first
   * terminal refusal. The order of the readings does not matter otherwise.
   */
  lemma {:induction false} ShortcutAgreesUnlessReopened(s: Session, turns: seq<Turn>)
    ensures SameOutcome(s, turns) <==> !ExitsTooSoon(s, turns)
    decreases |turns|
  {
    hide Reserve;
    hide SessionAt;
    hide Charge;
    if turns != [] {
      var met := SessionAt(s, turns[0].others, |turns[0].others|);
      var (after, r) := Reserve(met, turns[0].now);
      if Terminal(r) {
        hide SameOutcome;
        OutcomeAtExit(s, turns);
      } else {
        ShortcutAgreesUnlessReopened(after, turns[1..]);
      }
    }
  }

  lemma ReasonAtExit(s: Session, turns: seq<Turn>)
    requires turns != []
    requires Terminal(Reserve(SessionAt(s, turns[0].others, |turns[0].others|), turns[0].now).1)
    ensures ShortcutLoop(s, turns) == FullLoop(s, turns) <==> !ReasonChanges(s, turns)
  {
    hide Reserve;
    hide SessionAt;
    hide FullLoop;
    hide ShortcutLoop;
    hide OpensAgain;
    hide PastDeadline;
    hide Refused;
    hide Split;
    hide Tally.Unrefused;
    var met := SessionAt(s, turns[0].others, |turns[0].others|);
    var r := Reserve(met, turns[0].now).1.value;
    AtExit(s, turns);
    SplitOfOne(r, PastDeadline(s, turns), |turns|);
    CountPastDeadline(s, turns);
    RefusalSide(met, turns[0].now);
    if OpensAgain(met, turns[1..]) {
      OpensBeforeDeadline(met, turns[1..]);
      assert forall i :: 0 <= i < |turns| - 1 ==> turns[1..][i] == turns[i + 1];
    }
  }

  /** A terminal refusal names the deadline exactly when the reading has reached it. */
  lemma RefusalSide(s: Session, now: int)
    requires Terminal(Reserve(s, now).1)
    ensures Reserve(s, now).1 == Some(DurationLimit) <==> now >= s.Deadline()
    ensures Reserve(s, now).1 == Some(SampleLimit) ==> s.attempts >= s.cfg.maxSamples
  {
  }

  /** The two loops agree in everything exactly when the reason of the first refusal remains that of all others. */
  lemma {:induction false} ShortcutIsFullLoopUnlessReasonChanges(s: Session, turns: seq<Turn>)
    ensures ShortcutLoop(s, turns) == FullLoop(s, turns) <==> !ReasonChanges(s, turns)
    decreases |turns|
  {
    hide Reserve;
    hide SessionAt;
    hide Charge;
    if turns != [] {
      var met := SessionAt(s, turns[0].others, |turns[0].others|);
      var (after, r) := Reserve(met, turns[0].now);
      if Terminal(r) {
        ReasonAtExit(s, turns);
      } else {
        ShortcutIsFullLoopUnlessReasonChanges(after, turns[1..]);
      }
    }
  }

  /** The shortcut stops for the sample limit although a later sample would have been past the deadline. */
  ghost predicate StopsEarly(s: Session, turns: seq<Turn>)
    decreases |turns|
  {
    turns != [] &&
    var met := SessionAt(s, turns[0].others, |turns[0].others|);
    var (after, r) := Reserve(met, turns[0].now);
    if Terminal(r) then r == Some(SampleLimit) && exists i :: 0 <= i < |turns| && turns[i].now >= s.Deadline()
    else StopsEarly(after, turns[1..])
  }

  /** With ordered readings nothing opens again, and reasons change from the sample limit to the deadline only. */
  lemma {:induction false} OrderedReadings(s: Session, turns: seq<Turn>)
    requires Ordered(turns)
    ensures !ExitsTooSoon(s, turns)
    ensures ReasonChanges(s, turns) <==> StopsEarly(s, turns)
    decreases |turns|
  {
    hide Reserve;
    hide SessionAt;
    if turns != [] {
      var met := SessionAt(s, turns[0].others, |turns[0].others|);
      var (after, r) := Reserve(met, turns[0].now);
      if Terminal(r) {
        SessionOnlyGrows(s, turns[0].others, |turns[0].others|);
        RefusalSide(met, turns[0].now);
        assert forall i :: 0 <= i < |turns[1..]| ==> turns[1..][i].now >= turns[0].now;
        if OpensAgain(met, turns[1..]) {
          OpensBeforeDeadline(met, turns[1..]);
        }
      } else {
        OrderedReadings(after, turns[1..]);
      }
    }
  }

  /**
   * With ordered readings the shortcut leaves the session, the captures, the truncations and all
   * other counts as the full loop would. Only the split between the two terminal reasons can
   * differ, and it does so exactly when the shortcut stops early.
   */
  lemma ShortcutMatchesFullLoop(s: Session, turns: seq<Turn>)
    requires Ordered(turns)
    ensures SameOutcome(s, turns)
    ensures ShortcutLoop(s, turns) == FullLoop(s, turns) <==> !StopsEarly(s, turns)
  {
    hide SameOutcome;
    hide FullLoop;
    hide ShortcutLoop;
    OrderedReadings(s, turns);
    ShortcutAgreesUnlessReopened(s, turns);
    ShortcutIsFullLoopUnlessReasonChanges(s, turns);
  }

  /**
   * An ordered run in which the reasons differ. The one attempt of the session is taken at time 0;
   * the next samples come at 1 and, past the deadline, at 10. The shortcut charges both to the
   * sample limit, the full loop the last one to the deadline.
   */
  lemma ReasonsCanDiffer()
    ensures var s := NewSession(Config(10, 1, 5), 0);
            var turns := [Turn([], 0, Logged(false)), Turn([], 1, Logged(false)), Turn([], 10, Logged(false))];
            && Ordered(turns) && StopsEarly(s, turns)
            && ShortcutLoop(s, turns).1 == NOTHING.(captured := 1, sampleLimit := 2)
            && FullLoop(s, turns).1 == NOTHING.(captured := 1, sampleLimit := 1, durationLimit := 1)
  {
    hide FullLoop;
    hide ShortcutLoop;
    hide StopsEarly;
    hide Reserve;
    hide NewSession;
    hide Split;
    OneAttemptSession();
    SplitOfTwo();
    var s := NewSession(Config(10, 1, 5), 0);
    OneAttempt(s, s.(attempts := 1, windowCount := 1), Turn([], 0, Logged(false)), Turn([], 1, Logged(false)), Turn([], 10, Logged(false)));
  }

  lemma OneAttemptSession()
    ensures var s := NewSession(Config(10, 1, 5), 0);
            var used := s.(attempts := 1, windowCount := 1);
            && Reserve(s, 0) == (used, None)
            && Reserve(used, 1) == (used, Some(SampleLimit))
            && Reserve(used, 10) == (used, Some(DurationLimit)) && used.Deadline() == 10
  {
  }

  lemma SplitOfTwo()
    ensures Split(0, 2).(captured := 1) == NOTHING.(captured := 1, sampleLimit := 2)
    ensures Split(1, 2).(captured := 1) == NOTHING.(captured := 1, sampleLimit := 1, durationLimit := 1)
  {
  }

  lemma OneAttempt(s: Session, used: Session, first: Turn, second: Turn, third: Turn)
    requires first.others == second.others == third.others == [] && first.outcome == Logged(false)
    requires Reserve(s, first.now) == (used, None)
    requires Reserve(used, second.now) == (used, Some(SampleLimit))
    requires Reserve(used, third.now) == (used, Some(DurationLimit)) && third.now >= used.Deadline()
    ensures var turns := [first, second, third];
            && StopsEarly(s, turns)
            && ShortcutLoop(s, turns).1 == Split(0, 2).(captured := 1)
            && FullLoop(s, turns).1 == Split(1, 2).(captured := 1)
  {
    hide Tally.Plus;
    hide Refused;
    hide Split;
    hide FullLoop;
    hide ShortcutLoop;
    hide StopsEarly;
    hide Reserve;
    hide Charge;
    assert [first, second, third][1..] == [second, third] && [second, third][1..] == [third] && [third][1..] == [];
    UndisturbedTurn(s, [first, second, third]);
    UndisturbedTurn(used, [second, third]);
    UndisturbedTurn(used, [third]);
    NoTurns(used);
    assert [second, third][1].now >= used.Deadline();
    ChargeOfRefusal(SampleLimit, second.outcome);
    ChargeOfRefusal(DurationLimit, third.outcome);
    NothingSplit();
    SplitOneMore(DurationLimit, 0, 0);
    SplitOneMore(SampleLimit, 1, 1);
    SplitOfOne(SampleLimit, 0, 2);
    CapturePlusSplit(0, 2);
    CapturePlusSplit(1, 2);
  }

  lemma CapturePlusSplit(late: int, n: int)
    ensures Charge(None, Logged(false)).Plus(Split(late, n)) == Split(late, n).(captured := 1)
  {
  }

  lemma NoTurns(s: Session)
    ensures FullLoop(s, []) == ShortcutLoop(s, []) == (s, NOTHING)
  {
  }

  /** The first turn of the two loops when nobody else reserves before it. */
  lemma UndisturbedTurn(s: Session, turns: seq<Turn>)
    requires turns != [] && turns[0].others == []
    ensures var (after, r) := Reserve(s, turns[0].now);
            var charge := Charge(r, turns[0].outcome);
            && FullLoop(s, turns).1 == charge.Plus(FullLoop(after, turns[1..]).1)
            && ShortcutLoop(s, turns).1 ==
                 (if Terminal(r) then Refused(r.value, |turns|) else charge.Plus(ShortcutLoop(after, turns[1..]).1))
            && (StopsEarly(s, turns) <==>
                  if Terminal(r) then r == Some(SampleLimit) && exists i :: 0 <= i < |turns| && turns[i].now >= s.Deadline()
                  else StopsEarly(after, turns[1..]))
  {
    hide Reserve;
    hide Charge;
    hide Refused;
    hide Tally.Plus;
    hide Others;
    NoOneElse(s);
  }

  /**
   * Sessions that open again exist: after a reading at the deadline an earlier one is still
   * granted, and the shortcut skips a sample the full loop captures.
   */
  lemma ShortcutNeedsOrder()
    ensures var s := NewSession(Config(10, 5, 5), 0);
            var turns := [Turn([], 10, Logged(false)), Turn([], 9, Logged(false))];
            && ExitsTooSoon(s, turns)
            && ShortcutLoop(s, turns).1.captured == 0
            && FullLoop(s, turns).1.captured == 1
  {
    var s := NewSession(Config(10, 5, 5), 0);
    var first, second := Turn([], 10, Logged(false)), Turn([], 9, Logged(false));
    var turns := [first, second];
    assert turns[1..] == [second];
    NoOneElse(s);
    assert Reserve(s, 10) == (s, Some(DurationLimit)) && Reserve(s, 9).1 == None && !Exhausted(s, 9);
    hide NewSession;
    hide SessionAt;
    hide Reserve;
    hide Exhausted;
    OneTurn(s, second);
    RefusedTurnOf(s, turns);
  }

  lemma NoOneElse(s: Session)
    ensures SessionAt(s, [], 0) == s
  {
  }

  lemma OneTurn(s: Session, turn: Turn)
    requires turn.others == [] && Reserve(s, turn.now).1 == None && !Exhausted(s, turn.now)
    ensures OpensAgain(s, [turn])
    ensures FullLoop(s, [turn]).1 == Charge(None, turn.outcome)
  {
    hide Reserve;
    hide Charge;
    hide Exhausted;
    hide Tally.Plus;
    NoOneElse(s);
    assert [turn][1..] == [];
    PlusNothing(Charge(None, turn.outcome));
  }

  lemma RefusedTurnOf(s: Session, turns: seq<Turn>)
    requires turns != [] && turns[0].others == [] && Reserve(s, turns[0].now) == (s, Some(DurationLimit))
    ensures ExitsTooSoon(s, turns) <==> OpensAgain(s, turns[1..])
    ensures ShortcutLoop(s, turns).1.captured == 0
    ensures FullLoop(s, turns).1.captured == FullLoop(s, turns[1..]).1.captured
  {
    hide Reserve;
    hide OpensAgain;
    hide Others;
    NoOneElse(s);
  }

  // The code

  datatype Matcher = Matcher(name: string, accepts: string -> bool)

  /** Every occurrence of the label must satisfy the matcher; an absent label counts as empty. */
  ghost predicate Satisfies(labels: seq<Label>, m: Matcher) {
    if exists l :: l in labels && l.name == m.name
    then forall l :: l in labels && l.name == m.name ==> m.accepts(l.value)
    else m.accepts("")
  }

  /** Said of values: all that the label has, or the empty string if it has none, are accepted. */
  lemma SatisfiesMeans(labels: seq<Label>, m: Matcher)
    ensures var values := set l | l in labels && l.name == m.name :: l.value;
            Satisfies(labels, m) <==> forall v :: v in (if values == {} then {""} else values) ==> m.accepts(v)
  {
    var values := set l | l in labels && l.name == m.name :: l.value;
    if l :| l in labels && l.name == m.name {
      assert l.value in values;
    }
  }

  method Matches(matchers: seq<Matcher>, labels: seq<Label>) returns (matched: bool)
    ensures matched <==> forall m :: m in matchers ==> Satisfies(labels, m)
  {
    for i := 0 to |matchers|
      invariant forall k :: 0 <= k < i ==> Satisfies(labels, matchers[k])
    {
      var m := matchers[i];
      var found := false;
      for j := 0 to |labels|
        invariant found <==> exists k :: 0 <= k < j && labels[k].name == m.name
        invariant forall k :: 0 <= k < j && labels[k].name == m.name ==> m.accepts(labels[k].value)
      {
        if labels[j].name == m.name {
          found := true;
          if !m.accepts(labels[j].value) {
            assert !Satisfies(labels, m);
            return false;
          }
        }
      }
      if !found && !m.accepts("") {
        assert !Satisfies(labels, m);
        return false;
      }
    }
    return true;
  }

  /** After idx samples: what is left of the loop completes what has been counted. */
  ghost predicate OnTrack(s0: Session, turns: seq<Turn>, idx: nat, now: Session, done: Tally)
    requires idx <= |turns|
  {
    var (end, rest) := ShortcutLoop(now, turns[idx..]);
    ShortcutLoop(s0, turns) == (end, done.Plus(rest))
  }

  lemma LoopStarts(s0: Session, turns: seq<Turn>)
    ensures OnTrack(s0, turns, 0, s0, NOTHING)
  {
    hide Tally.Plus;
    assert turns[0..] == turns;
    PlusNothing(ShortcutLoop(s0, turns).1);
  }

  lemma LoopGoesOn(s0: Session, turns: seq<Turn>, idx: nat, now: Session, done: Tally)
    requires idx < |turns| && turns[idx].others == [] && OnTrack(s0, turns, idx, now, done)
    ensures var (after, r) := Reserve(now, turns[idx].now);
            !Terminal(r) ==> OnTrack(s0, turns, idx + 1, after, done.Plus(Charge(r, turns[idx].outcome)))
  {
    hide Reserve;
    hide Charge;
    hide Tally.Plus;
    assert turns[idx..][1..] == turns[idx + 1..];
    var (after, r) := Reserve(now, turns[idx].now);
    PlusAssociates(done, Charge(r, turns[idx].outcome), ShortcutLoop(after, turns[idx + 1..]).1);
  }

  lemma LoopStops(s0: Session, turns: seq<Turn>, idx: nat, now: Session, done: Tally)
    requires idx < |turns| && (forall i :: 0 <= i < |turns| ==> turns[i].others == [])
    requires OnTrack(s0, turns, idx, now, done)
    ensures var (after, r) := Reserve(now, turns[idx].now);
            Terminal(r) ==> ShortcutLoop(s0, turns) == (after, done.Plus(Refused(r.value, |turns| - idx)))
  {
    hide Reserve;
    hide Charge;
    hide Tally.Plus;
    assert turns[idx..][1..] == turns[idx + 1..];
    NoOthers(Reserve(now, turns[idx].now).0, turns[idx + 1..]);
  }

  lemma LoopEnds(s0: Session, turns: seq<Turn>, now: Session, done: Tally)
    requires OnTrack(s0, turns, |turns|, now, done)
    ensures ShortcutLoop(s0, turns) == (now, done)
  {
    hide Tally.Plus;
    PlusNothing(done);
  }

  lemma {:induction false} NoOthers(s: Session, turns: seq<Turn>)
    requires forall i :: 0 <= i < |turns| ==> turns[i].others == []
    ensures Others(s, turns) == s
    decreases |turns|
  {
    if turns != [] {
      NoOthers(s, turns[1..]);
    }
  }

  datatype Counters = Counters(matchedFloats: int, matchedHistograms: int, unsupported: int, floats: Tally)
  {
    function Add(t: Tally): Counters {
      this.(floats := floats.Plus(t))
    }
  }

  /** The capture object, its counters kept per identity. */
  class SampleCapture<Identity(==,!new)> {
    const cfg: Config
    const start: int
    const matchers: seq<Matcher>
    var attempts: nat
    var windowStart: int
    var windowCount: nat
    var counters: map<Identity, Counters>

    ghost function Model(): Session
      reads this
    {
      Session(cfg, start, attempts, windowStart, windowCount)
    }

    function CountersOf(identity: Identity): Counters
      reads this
    {
      if identity in counters then counters[identity] else Counters(0, 0, 0, NOTHING)
    }

    constructor (cfg: Config, matchers: seq<Matcher>, now: int)
      requires cfg.Valid()
      ensures Model() == NewSession(cfg, now) && counters == map[] && this.matchers == matchers
    {
      this.cfg, this.matchers, start := cfg, matchers, now;
      attempts, windowStart, windowCount := 0, now, 0;
      counters := map[];
    }

    method TryReserve(now: int) returns (reason: Option<Refusal>)
      modifies this`attempts, this`windowStart, this`windowCount
      ensures (Model(), reason) == Reserve(old(Model()), now)
    {
      if now >= start + cfg.duration {
        return Some(DurationLimit);
      }
      if attempts >= cfg.maxSamples {
        return Some(SampleLimit);
      }
      if now - windowStart >= SECOND {
        windowStart := now;
        windowCount := 0;
      }
      if windowCount >= cfg.rate {
        return Some(RateLimit);
      }
      windowCount := windowCount + 1;
      attempts := attempts + 1;
      return None;
    }

    method Count(identity: Identity, t: Tally)
      modifies this`counters
      ensures counters == old(counters)[identity := old(CountersOf(identity)).Add(t)]
    {
      counters := counters[identity := CountersOf(identity).Add(t)];
    }

    /** A reserved sample is offered to the log handler. */
    method CountAttempt(identity: Identity, outcome: Outcome)
      modifies this`counters
      ensures counters == old(counters)[identity := old(CountersOf(identity)).Add(Charge(None, outcome))]
    {
      match outcome
      case LogDisabled =>
        Count(identity, NOTHING.(logDisabled := 1));
      case LogError =>
        Count(identity, NOTHING.(logError := 1));
      case Logged(truncated) =>
        Count(identity, NOTHING.(captured := 1));
        if truncated {
          Count(identity, NOTHING.(truncated := 1));
        }
    }

    method CountMatched(identity: Identity, floats: nat, histograms: nat)
      modifies this`counters
      ensures var before := old(CountersOf(identity));
              counters == old(counters)[identity :=
                Counters(before.matchedFloats + floats, before.matchedHistograms + histograms,
                         before.unsupported + histograms, before.floats)]
    {
      var c := CountersOf(identity);
      if histograms > 0 {
        c := c.(matchedHistograms := c.matchedHistograms + histograms);
        c := c.(unsupported := c.unsupported + histograms);
      }
      counters := counters[identity := c.(matchedFloats := c.matchedFloats + floats)];
    }

    /**
     * Inspects one series, alone: turns[i] gives the clock reading and the log outcome that
     * sample i meets. A series that does not match leaves no trace; otherwise session and
     * counters move as the shortcut loop says, and only for this identity.
     */
    method Inspect(identity: Identity, labels: seq<Label>, histograms: nat, turns: seq<Turn>) returns (matched: bool)
      requires forall i :: 0 <= i < |turns| ==> turns[i].others == []
      modifies this
      ensures matched <==> forall m :: m in matchers ==> Satisfies(labels, m)
      ensures !matched ==> Model() == old(Model()) && counters == old(counters)
      ensures matched ==>
                var (end, t) := ShortcutLoop(old(Model()), turns);
                var before := old(CountersOf(identity));
                && Model() == end
                && counters == old(counters)[identity :=
                     Counters(before.matchedFloats + |turns|, before.matchedHistograms + histograms,
                              before.unsupported + histograms, before.floats.Plus(t))]
    {
      hide Reserve;
      hide ShortcutLoop;
      hide OnTrack;
      hide Charge;
      hide Refused;
      hide Satisfies;
      hide Tally.Plus;
      matched := Matches(matchers, labels);
      if !matched {
        return;
      }
      CountMatched(identity, |turns|, histograms);
      ghost var s0, base := Model(), CountersOf(identity);
      ghost var done := NOTHING;
      PlusNothing(base.floats);
      LoopStarts(s0, turns);
      for idx := 0 to |turns|
        invariant counters == old(counters)[identity := base.Add(done)]
        invariant OnTrack(s0, turns, idx, Model(), done)
      {
        LoopGoesOn(s0, turns, idx, Model(), done);
        LoopStops(s0, turns, idx, Model(), done);
        var reason := TryReserve(turns[idx].now);
        if reason.Some? {
          if reason.value == DurationLimit || reason.value == SampleLimit {
            PlusAssociates(base.floats, done, Refused(reason.value, |turns| - idx));
            Count(identity, Refused(reason.value, |turns| - idx));
            return;
          }
          Count(identity, Refused(reason.value, 1));
          ChargeOfRefusal(reason.value, turns[idx].outcome);
        } else {
          CountAttempt(identity, turns[idx].outcome);
        }
        PlusAssociates(base.floats, done, Charge(reason, turns[idx].outcome));
        done := done.Plus(Charge(reason, turns[idx].outcome));
      }
      LoopEnds(s0, turns, Model(), done);
    }
  }

  datatype CaptureError = BadLimits | BadSelector | Unconstrained

  /** What is wrong with the settings of a session; `selector` is what parsing yielded. */
  ghost function SettingsError(cfg: Config, labelBytes: int, selector: Option<seq<Matcher>>): Option<CaptureError> {
    if !cfg.Valid() || labelBytes < 2 then Some(BadLimits)
    else if selector.None? then Some(BadSelector)
    else if forall m :: m in selector.value ==> m.accepts("") then Some(Unconstrained)
    else None
  }

  method NewSampleCapture<Identity(==,!new)>(cfg: Config, labelBytes: int, selector: Option<seq<Matcher>>, now: int)
    returns (error: Option<CaptureError>, capture: SampleCapture?<Identity>)
    ensures error == SettingsError(cfg, labelBytes, selector)
    ensures capture == null <==> error.Some?
    ensures capture != null ==>
              && fresh(capture) && capture.Model() == NewSession(cfg, now)
              && capture.counters == map[] && capture.matchers == selector.value
  {
    if cfg.duration <= 0 || cfg.maxSamples <= 0 || cfg.rate <= 0 || labelBytes < 2 {
      return Some(BadLimits), null;
    }
    if selector.None? {
      return Some(BadSelector), null;
    }
    var matchers := selector.value;
    var constrained := false;
    for i := 0 to |matchers|
      invariant constrained <==> exists k :: 0 <= k < i && !matchers[k].accepts("")
    {
      constrained := constrained || !matchers[i].accepts("");
    }
    if !constrained {
      return Some(Unconstrained), null;
    }
    capture := new SampleCapture(cfg, matchers, now);
    return None, capture;
  }

  /** A session that starts never captures a series without labels. */
  lemma NoLabelsNoMatch(cfg: Config, labelBytes: int, selector: Option<seq<Matcher>>)
    requires SettingsError(cfg, labelBytes, selector).None?
    ensures exists m :: m in selector.value && !Satisfies([], m)
  {
    var m :| m in selector.value && !m.accepts("");
    assert !Satisfies([], m);
  }

  lemma ChargeOfRefusal(r: Refusal, outcome: Outcome)
    ensures Charge(Some(r), outcome) == Refused(r, 1)
  {
  }
}
