/**
 * Admitting requests: a channel with as many places as requests may be in flight, a gauge that
 * follows it, and one counted result per request. Each channel operation and each counter update
 * is a step of its own; a run is any sequence of steps of any number of requests.
 */
module Admission {
  import opened Prelude

  datatype Result = Overloaded | TooLarge | DecodeError | Ok | BadData | Empty

  /** What the environment makes of an admitted request. */
  datatype Body =
    | ReadFails
    | LengthUnreadable
    | DecodesTooLong
    | SnappyFails
    | ProtobufFails
    | Decoded(badData: bool, totalSamples: nat, series: nat)

  /** What a handler counts and what it answers. */
  datatype Reply = Reply(result: Result, status: int)

  /** Where the handler of a request stands. */
  datatype Phase =
    | Arrived
    | TurnedAway
    | InChannel
    | Working
    | DecodeFailed(reply: Reply)
    | Counted(reply: Reply)
    | Leaving(reply: Reply)
    | LeftChannel(reply: Reply)
    | Done(status: int, counted: Option<Result>)

  datatype Event = Start(post: bool) | Finish(body: Body) | Proceed

  datatype State = State(
    places: int,
    occupancy: int,
    gauge: int,
    results: map<Result, int>,
    decodeErrors: int,
    requests: seq<Phase>)

  datatype Action = Action(request: nat, event: Event)

  /** One step of one request on the shared counters; the phase it moves to comes with them. */
  function Local(st: State, p: Phase, e: Event): (State, Phase) {
    match p
    case Arrived =>
      if !e.Start? then (st, p)
      else if !e.post then (st, Done(405, None))
      else if st.occupancy < st.places then (st.(occupancy := st.occupancy + 1), InChannel)
      else (st, TurnedAway)
    case Working =>
      if e.Finish? then Return(st, e.body) else (st, p)
    case _ =>
      if e.Proceed? then ProceedFrom(st, p) else (st, p)
  }

  /** The ways the handler of an admitted request returns, each with what it counts and answers. */
  function Return(st: State, body: Body): (State, Phase) {
    match body
    case ReadFails =>
      (Count(st, TooLarge), Counted(Reply(TooLarge, 413)))
    case LengthUnreadable =>
      (st.(decodeErrors := st.decodeErrors + 1), DecodeFailed(Reply(DecodeError, 400)))
    case DecodesTooLong =>
      (Count(st, TooLarge), Counted(Reply(TooLarge, 413)))
    case SnappyFails =>
      (st.(decodeErrors := st.decodeErrors + 1), DecodeFailed(Reply(DecodeError, 400)))
    case ProtobufFails =>
      (st.(decodeErrors := st.decodeErrors + 1), DecodeFailed(Reply(DecodeError, 400)))
    case Decoded(badData, totalSamples, series) =>
      var r := if badData then BadData else if totalSamples == 0 && series == 0 then Empty else Ok;
      (Count(st, r), Counted(Reply(r, 204)))
  }

  function ProceedFrom(st: State, p: Phase): (State, Phase) {
    match p
    case TurnedAway => (Count(st, Overloaded), Done(204, Some(Overloaded)))
    case InChannel => (st.(gauge := st.gauge + 1), Working)
    case DecodeFailed(reply) => (Count(st, reply.result), Counted(reply))
    case Counted(reply) => (st, Leaving(reply))
    case Leaving(reply) => (st.(occupancy := st.occupancy - 1), LeftChannel(reply))
    case LeftChannel(reply) => (st.(gauge := st.gauge - 1), Done(reply.status, Some(reply.result)))
    case _ => (st, p)
  }

  function CountOf(st: State, r: Result): int {
    if r in st.results then st.results[r] else 0
  }

  function Count(st: State, r: Result): State {
    st.(results := st.results[r := CountOf(st, r) + 1])
  }

  function Apply(st: State, a: Action): State {
    if a.request >= |st.requests| then st
    else
      var (st', p) := Local(st, st.requests[a.request], a.event);
      st'.(requests := st.requests[a.request := p])
  }

  function StateAfter(st: State, run: seq<Action>, n: nat): State
    requires n <= |run|
  {
    if n == 0 then st else Apply(StateAfter(st, run, n - 1), run[n - 1])
  }

  // What the phases stand for

  /** Sent to the channel and not yet received from it. */
  function Inside(p: Phase): int {
    if p.InChannel? || p.Working? || p.DecodeFailed? || p.Counted? || p.Leaving? then 1 else 0
  }

  /** In the channel, but the gauge does not show it yet. */
  function NotYetShown(p: Phase): int {
    if p.InChannel? then 1 else 0
  }

  /** Out of the channel, but the gauge still shows it. */
  function StillShown(p: Phase): int {
    if p.LeftChannel? then 1 else 0
  }

  /** The result under which a request has been counted so far. */
  function CountedAs(p: Phase): Option<Result> {
    match p
    case Counted(reply) => Some(reply.result)
    case Leaving(reply) => Some(reply.result)
    case LeftChannel(reply) => Some(reply.result)
    case Done(_, counted) => counted
    case _ => None
  }

  function Is(r: Result): Phase -> int {
    p => if CountedAs(p) == Some(r) then 1 else 0
  }

  /** A decode failure has been noted; its result may still be missing. */
  function DecodeFailure(p: Phase): int {
    if p.DecodeFailed? || CountedAs(p) == Some(DecodeError) then 1 else 0
  }

  /** Which status goes with which result. */
  ghost predicate Fits(reply: Reply) {
    && (reply.status == 204 <==> reply.result in {Overloaded, Ok, BadData, Empty})
    && (reply.status == 413 <==> reply.result == TooLarge)
    && (reply.status == 400 <==> reply.result == DecodeError)
    && reply.status in {204, 400, 413}
  }

  ghost predicate PhaseValid(p: Phase) {
    match p
    case DecodeFailed(reply) => reply.result == DecodeError && Fits(reply)
    case Counted(reply) => reply.result != Overloaded && Fits(reply)
    case Leaving(reply) => reply.result != Overloaded && Fits(reply)
    case LeftChannel(reply) => reply.result != Overloaded && Fits(reply)
    case Done(status, counted) => if counted.Some? then Fits(Reply(counted.value, status)) else status == 405
    case _ => true
  }

  ghost predicate Inv(st: State) {
    && st.occupancy == SumBy(st.requests, Inside)
    && st.occupancy <= st.places
    && st.gauge == st.occupancy + SumBy(st.requests, StillShown) - SumBy(st.requests, NotYetShown)
    && (forall r :: CountOf(st, r) == SumBy(st.requests, Is(r)))
    && st.decodeErrors == SumBy(st.requests, DecodeFailure)
    && (forall i :: 0 <= i < |st.requests| ==> PhaseValid(st.requests[i]))
  }

  /** A step changes each counter by as much as it changes what its phase stands for. */
  lemma LocalBalance(st: State, p: Phase, e: Event)
    requires PhaseValid(p) && st.occupancy <= st.places
    ensures var (st', p') := Local(st, p, e);
            && PhaseValid(p') && st'.places == st.places && st'.requests == st.requests
            && st'.occupancy <= st'.places
            && st'.occupancy - Inside(p') == st.occupancy - Inside(p)
            && st'.gauge - st'.occupancy - StillShown(p') + NotYetShown(p') ==
                 st.gauge - st.occupancy - StillShown(p) + NotYetShown(p)
            && st'.decodeErrors - DecodeFailure(p') == st.decodeErrors - DecodeFailure(p)
  {
  }

  lemma LocalCount(st: State, p: Phase, e: Event, r: Result)
    requires PhaseValid(p)
    ensures var (st', p') := Local(st, p, e);
            CountOf(st', r) - Is(r)(p') == CountOf(st, r) - Is(r)(p)
  {
  }

  lemma ApplyKeepsInv(st: State, a: Action)
    requires Inv(st)
    ensures Inv(Apply(st, a)) && Apply(st, a).places == st.places
  {
    hide Local;
    if a.request < |st.requests| {
      var p := st.requests[a.request];
      var p' := Local(st, p, a.event).1;
      LocalBalance(st, p, a.event);
      forall r
        ensures CountOf(Apply(st, a), r) == SumBy(Apply(st, a).requests, Is(r))
      {
        LocalCount(st, p, a.event, r);
        SumUpdate(st.requests, a.request, p', Is(r));
      }
      SumUpdate(st.requests, a.request, p', Inside);
      SumUpdate(st.requests, a.request, p', NotYetShown);
      SumUpdate(st.requests, a.request, p', StillShown);
      SumUpdate(st.requests, a.request, p', DecodeFailure);
    }
  }

  ghost predicate Init(st: State) {
    && 0 < st.places && st.occupancy == 0 && st.gauge == 0 && st.decodeErrors == 0 && st.results == map[]
    && forall i :: 0 <= i < |st.requests| ==> st.requests[i] == Arrived
  }

  lemma InitInv(st: State)
    requires Init(st)
    ensures Inv(st)
  {
    SumZero(st.requests, Inside);
    SumZero(st.requests, NotYetShown);
    SumZero(st.requests, StillShown);
    SumZero(st.requests, DecodeFailure);
    forall r
      ensures CountOf(st, r) == SumBy(st.requests, Is(r))
    {
      SumZero(st.requests, Is(r));
    }
  }

  /**
   * In every interleaving: the channel holds exactly the requests admitted and not yet released
   * and never more than allowed; the gauge is off by exactly the updates still to come; and the
   * counters agree with what each request has been counted as.
   */
  lemma {:induction false} AdmissionHolds(st: State, run: seq<Action>, n: nat)
    requires Init(st) && n <= |run|
    ensures Inv(StateAfter(st, run, n)) && StateAfter(st, run, n).places == st.places
  {
    hide Inv;
    if n == 0 {
      InitInv(st);
    } else {
      AdmissionHolds(st, run, n - 1);
      ApplyKeepsInv(StateAfter(st, run, n - 1), run[n - 1]);
    }
  }

  /**
   * The gauge is within the limit exactly if the requests that have left the channel but not the
   * gauge outnumber those still to enter the gauge by no more than the free places.
   */
  lemma GaugeWithinLimitIff(st: State, run: seq<Action>, n: nat)
    requires Init(st) && n <= |run|
    ensures var end := StateAfter(st, run, n);
            end.gauge <= st.places <==>
              SumBy(end.requests, StillShown) - SumBy(end.requests, NotYetShown) <= st.places - end.occupancy
    ensures 0 <= StateAfter(st, run, n).gauge
  {
    AdmissionHolds(st, run, n);
    var end := StateAfter(st, run, n);
    SumNotNegative(end.requests, StillShown);
    SumBounds(end.requests, NotYetShown, Inside);
    hide StateAfter;
  }

  /** Releasing always finds an occupied place, so that it never waits. */
  lemma ReleaseFindsPlace(st: State, run: seq<Action>, n: nat, i: nat)
    requires Init(st) && n <= |run|
    requires i < |StateAfter(st, run, n).requests| && StateAfter(st, run, n).requests[i].Leaving?
    ensures 1 <= StateAfter(st, run, n).occupancy <= st.places
  {
    AdmissionHolds(st, run, n);
    SumAtLeast(StateAfter(st, run, n).requests, i, Inside);
    hide StateAfter;
  }

  // Who is admitted

  /** How many requests stand between sending to the channel and receiving from it. */
  function InChannelNow(requests: seq<Phase>): int {
    SumBy(requests, (p: Phase) =>
      if p.InChannel? || p.Working? || p.DecodeFailed? || p.Counted? || p.Leaving? then 1 else 0)
  }

  lemma OccupancyIsInChannel(st: State, run: seq<Action>, n: nat)
    requires Init(st) && n <= |run|
    ensures var end := StateAfter(st, run, n);
            && end.occupancy == InChannelNow(end.requests) <= st.places == end.places
            && |end.requests| == |st.requests|
  {
    AdmissionHolds(st, run, n);
    SameRequests(st, run, n);
    var end := StateAfter(st, run, n);
    hide StateAfter;
    var f := (p: Phase) => if p.InChannel? || p.Working? || p.DecodeFailed? || p.Counted? || p.Leaving? then 1 else 0;
    SameSum(end.requests, Inside, f);
  }

  lemma {:induction false} SameRequests(st: State, run: seq<Action>, n: nat)
    requires n <= |run|
    ensures |StateAfter(st, run, n).requests| == |st.requests|
  {
    hide Local;
    if n > 0 {
      SameRequests(st, run, n - 1);
    }
  }

  /**
   * At any moment of any run a request that starts is admitted exactly if it is a POST and fewer
   * requests than there are places stand in the channel. It is turned away exactly if it is a POST
   * and the channel is full. Anything else is answered 405 and never enters.
   */
  lemma AdmittedIffRoom(st: State, run: seq<Action>, n: nat, i: nat, post: bool)
    requires Init(st) && n <= |run| && i < |st.requests|
    requires i < |StateAfter(st, run, n).requests| && StateAfter(st, run, n).requests[i] == Arrived
    ensures var now := StateAfter(st, run, n);
            var next := Apply(now, Action(i, Start(post)));
            && |next.requests| == |now.requests|
            && (next.requests[i] == InChannel <==> post && InChannelNow(now.requests) < st.places)
            && (next.requests[i] == TurnedAway <==> post && InChannelNow(now.requests) == st.places)
            && (next.requests[i] == Done(405, None) <==> !post)
  {
    OccupancyIsInChannel(st, run, n);
    hide StateAfter;
    hide InChannelNow;
  }

  /** Call k is the start of request i as a POST while the channel is full. */
  ghost predicate MetFullChannel(st: State, run: seq<Action>, k: nat, i: nat)
    requires k < |run|
  {
    var now := StateAfter(st, run, k);
    && run[k] == Action(i, Start(true)) && i < |now.requests| && now.requests[i] == Arrived
    && InChannelNow(now.requests) == st.places
  }

  predicate Rejected(p: Phase) {
    p.TurnedAway? || CountedAs(p) == Some(Overloaded)
  }

  lemma LocalRejects(st: State, p: Phase, e: Event)
    requires PhaseValid(p)
    ensures Rejected(Local(st, p, e).1) <==> Rejected(p) || (p == Arrived && e == Start(true) && st.occupancy >= st.places)
  {
  }

  lemma RejectedNext(st: State, run: seq<Action>, n: nat, i: nat)
    requires Init(st) && 0 < n <= |run| && i < |st.requests|
    requires i < |StateAfter(st, run, n - 1).requests| && i < |StateAfter(st, run, n).requests|
    ensures Rejected(StateAfter(st, run, n).requests[i]) <==>
              Rejected(StateAfter(st, run, n - 1).requests[i]) || MetFullChannel(st, run, n - 1, i)
  {
    AdmissionHolds(st, run, n - 1);
    OccupancyIsInChannel(st, run, n - 1);
    var now, a := StateAfter(st, run, n - 1), run[n - 1];
    assert StateAfter(st, run, n) == Apply(now, a);
    hide StateAfter;
    hide InChannelNow;
    hide Rejected;
    LocalRejects(now, now.requests[i], a.event);
    hide Local;
  }

  /** A request is turned away, and then counted as overloaded, exactly if it met a full channel. */
  lemma {:induction false} OverloadedIffFull(st: State, run: seq<Action>, n: nat, i: nat)
    requires Init(st) && n <= |run| && i < |st.requests|
    ensures i < |StateAfter(st, run, n).requests|
    ensures Rejected(StateAfter(st, run, n).requests[i]) <==> exists k :: 0 <= k < n && MetFullChannel(st, run, k, i)
  {
    hide MetFullChannel;
    SameRequests(st, run, n);
    if n > 0 {
      OverloadedIffFull(st, run, n - 1, i);
      RejectedNext(st, run, n, i);
      hide StateAfter;
      hide Rejected;
    }
  }

  // What is counted as what

  /** The result that a body leads to. */
  ghost predicate CountsAs(body: Body, r: Result) {
    match r
    case Overloaded => false
    case TooLarge => body.ReadFails? || body.DecodesTooLong?
    case DecodeError => body.LengthUnreadable? || body.SnappyFails? || body.ProtobufFails?
    case BadData => body.Decoded? && body.badData
    case Empty => body.Decoded? && !body.badData && body.totalSamples == 0 && body.series == 0
    case Ok => body.Decoded? && !body.badData && (body.totalSamples > 0 || body.series > 0)
  }

  /** The result a request has come to, counted or about to be. */
  function OutcomeOf(p: Phase): Option<Result> {
    if p.DecodeFailed? then Some(p.reply.result) else CountedAs(p)
  }

  ghost predicate FinishesAs(st: State, run: seq<Action>, k: nat, i: nat, r: Result)
    requires k < |run|
  {
    var now := StateAfter(st, run, k);
    && run[k].request == i && run[k].event.Finish? && i < |now.requests| && now.requests[i] == Working
    && CountsAs(run[k].event.body, r)
  }

  lemma LocalOutcome(st: State, p: Phase, e: Event, r: Result)
    requires PhaseValid(p) && r != Overloaded
    ensures OutcomeOf(Local(st, p, e).1) == Some(r) <==>
              OutcomeOf(p) == Some(r) || (p == Working && e.Finish? && CountsAs(e.body, r))
  {
  }

  /** A request comes to a result other than overloaded exactly if its handling finished that way. */
  lemma {:induction false} ResultIff(st: State, run: seq<Action>, n: nat, i: nat, r: Result)
    requires Init(st) && n <= |run| && i < |st.requests| && r != Overloaded
    ensures i < |StateAfter(st, run, n).requests|
    ensures OutcomeOf(StateAfter(st, run, n).requests[i]) == Some(r) <==>
              exists k :: 0 <= k < n && FinishesAs(st, run, k, i, r)
  {
    hide FinishesAs;
    SameRequests(st, run, n);
    if n > 0 {
      ResultIff(st, run, n - 1, i, r);
      OutcomeNext(st, run, n, i, r);
      hide StateAfter;
      hide OutcomeOf;
    }
  }

  lemma OutcomeNext(st: State, run: seq<Action>, n: nat, i: nat, r: Result)
    requires Init(st) && 0 < n <= |run| && r != Overloaded
    requires i < |StateAfter(st, run, n - 1).requests| && i < |StateAfter(st, run, n).requests|
    ensures OutcomeOf(StateAfter(st, run, n).requests[i]) == Some(r) <==>
              OutcomeOf(StateAfter(st, run, n - 1).requests[i]) == Some(r) || FinishesAs(st, run, n - 1, i, r)
  {
    AdmissionHolds(st, run, n - 1);
    var now, a := StateAfter(st, run, n - 1), run[n - 1];
    assert StateAfter(st, run, n) == Apply(now, a);
    hide StateAfter;
    hide OutcomeOf;
    hide CountsAs;
    LocalOutcome(now, now.requests[i], a.event, r);
    hide Local;
  }

  /** A finished request was a counted POST with the status of its result, or was not a POST. */
  lemma FinishedRequest(st: State, run: seq<Action>, n: nat, i: nat)
    requires Init(st) && n <= |run|
    requires i < |StateAfter(st, run, n).requests| && StateAfter(st, run, n).requests[i].Done?
    ensures var p := StateAfter(st, run, n).requests[i];
            && (p.status == 405 <==> p.counted.None?)
            && (p.status == 204 <==> p.counted.Some? && p.counted.value in {Overloaded, Ok, BadData, Empty})
            && (p.status == 413 <==> p.counted == Some(TooLarge))
            && (p.status == 400 <==> p.counted == Some(DecodeError))
  {
    AdmissionHolds(st, run, n);
    assert PhaseValid(StateAfter(st, run, n).requests[i]);
  }

  function IsCounted(p: Phase): int {
    if CountedAs(p).Some? then 1 else 0
  }

  lemma {:induction false} EachUnderOneResult(s: seq<Phase>)
    ensures SumBy(s, IsCounted) ==
              SumBy(s, Is(Overloaded)) + SumBy(s, Is(TooLarge)) + SumBy(s, Is(DecodeError)) +
              SumBy(s, Is(Ok)) + SumBy(s, Is(BadData)) + SumBy(s, Is(Empty))
  {
    if s != [] {
      EachUnderOneResult(s[..|s| - 1]);
      var last := s[|s| - 1];
      if CountedAs(last).Some? {
        match CountedAs(last).value
        case Overloaded =>
        case TooLarge =>
        case DecodeError =>
        case Ok =>
        case BadData =>
        case Empty =>
      }
    }
  }

  /** All results together count each counted request once. */
  lemma ResultsCountRequestsOnce(st: State, run: seq<Action>, n: nat)
    requires Init(st) && n <= |run|
    ensures var end := StateAfter(st, run, n);
            CountOf(end, Overloaded) + CountOf(end, TooLarge) + CountOf(end, DecodeError) +
            CountOf(end, Ok) + CountOf(end, BadData) + CountOf(end, Empty) == SumBy(end.requests, IsCounted)
  {
    AdmissionHolds(st, run, n);
    EachUnderOneResult(StateAfter(st, run, n).requests);
    hide SumBy;
    hide StateAfter;
    hide CountOf;
  }

  /** When every request is finished or has not begun, channel and gauge are empty. */
  lemma QuietAdmission(st: State, run: seq<Action>, n: nat)
    requires Init(st) && n <= |run|
    requires forall i :: 0 <= i < |StateAfter(st, run, n).requests| ==>
               var p := StateAfter(st, run, n).requests[i]; p.Done? || p.Arrived?
    ensures StateAfter(st, run, n).occupancy == 0 && StateAfter(st, run, n).gauge == 0
    ensures CountOf(StateAfter(st, run, n), DecodeError) == StateAfter(st, run, n).decodeErrors
  {
    AdmissionHolds(st, run, n);
    var end := StateAfter(st, run, n);
    SumZero(end.requests, Inside);
    SumZero(end.requests, NotYetShown);
    SumZero(end.requests, StillShown);
    SameSum(end.requests, Is(DecodeError), DecodeFailure);
  }

  lemma SameSum<T>(s: seq<T>, f: T -> int, g: T -> int)
    requires forall i :: 0 <= i < |s| ==> f(s[i]) == g(s[i])
    ensures SumBy(s, f) == SumBy(s, g)
  {
    SumBounds(s, f, g);
    SumBounds(s, g, f);
  }

  const ONE_PLACE := State(1, 0, 0, map[], 0, [Arrived, Arrived])

  const OK := Reply(Ok, 204)

  const HANDOVER := [
    Action(0, Start(true)), Action(0, Proceed), Action(0, Finish(Decoded(false, 1, 1))), Action(0, Proceed),
    Action(0, Proceed), Action(1, Start(true)), Action(1, Proceed)]

  /**
   * The gauge may pass the limit for a moment: with one place, a request that has left the
   * channel but not the gauge lets another one in.
   */
  lemma GaugeCanPassLimit()
    ensures Init(ONE_PLACE) && StateAfter(ONE_PLACE, HANDOVER, 7).gauge == ONE_PLACE.places + 1
  {
    hide StateAfter;
    FirstIsWorking();
    FirstHasLeft();
    var left := State(1, 0, 1, map[Ok := 1], 0, [LeftChannel(OK), Arrived]);
    var both := State(1, 1, 1, map[Ok := 1], 0, [LeftChannel(OK), InChannel]);
    RunSteps(ONE_PLACE, HANDOVER, 5, left, both);
    RunSteps(ONE_PLACE, HANDOVER, 6, both, State(1, 1, 2, map[Ok := 1], 0, [LeftChannel(OK), Working]));
  }

  lemma FirstIsWorking()
    ensures StateAfter(ONE_PLACE, HANDOVER, 2) == State(1, 1, 1, map[], 0, [Working, Arrived])
  {
    assert StateAfter(ONE_PLACE, HANDOVER, 0) == ONE_PLACE;
    hide StateAfter;
    RunSteps(ONE_PLACE, HANDOVER, 0, ONE_PLACE, State(1, 1, 0, map[], 0, [InChannel, Arrived]));
    RunSteps(ONE_PLACE, HANDOVER, 1, State(1, 1, 0, map[], 0, [InChannel, Arrived]), State(1, 1, 1, map[], 0, [Working, Arrived]));
  }

  lemma FirstHasLeft()
    requires StateAfter(ONE_PLACE, HANDOVER, 2) == State(1, 1, 1, map[], 0, [Working, Arrived])
    ensures StateAfter(ONE_PLACE, HANDOVER, 5) == State(1, 0, 1, map[Ok := 1], 0, [LeftChannel(OK), Arrived])
  {
    hide StateAfter;
    var working := State(1, 1, 1, map[], 0, [Working, Arrived]);
    var counted := State(1, 1, 1, map[Ok := 1], 0, [Counted(OK), Arrived]);
    var leaving := State(1, 1, 1, map[Ok := 1], 0, [Leaving(OK), Arrived]);
    RunSteps(ONE_PLACE, HANDOVER, 2, working, counted);
    RunSteps(ONE_PLACE, HANDOVER, 3, counted, leaving);
    RunSteps(ONE_PLACE, HANDOVER, 4, leaving, State(1, 0, 1, map[Ok := 1], 0, [LeftChannel(OK), Arrived]));
  }

  lemma RunSteps(st: State, run: seq<Action>, n: nat, now: State, next: State)
    requires n < |run| && StateAfter(st, run, n) == now && Apply(now, run[n]) == next
    ensures StateAfter(st, run, n + 1) == next
  {
  }
}
