/** Request, Dispatch and the gate of the event bus (engine/kernel/bus.go) as interleaved atomic steps:
    each section under a mutex, each channel operation and each goroutine launch is one step, and any
    thread may move next. */
module BusProtocol {
  import opened Wrappers
  import opened BusRegistry

  /** The fields the bus reads or writes; payload stands for everything else an event carries. */
  datatype Event = Event(id: string, eventType: string, replyTo: string, ttl: int, payload: nat)

  const DEFAULT_TTL := 8

  /** go: EventType.Channel, the part before the first '.'. */
  function Channel(t: string): (c: string)
    ensures '.' !in c
    ensures c == t || (|c| < |t| && t[..|c|] == c && t[|c|] == '.')
  {
    if t == [] || t[0] == '.' then [] else [t[0]] + Channel(t[1..])
  }

  // ---------------------------------------------------------------- state

  type RequestId = nat
  type DispatchId = nat

  /** Where a Dispatch call stands. Launching(hs, n): the snapshot is hs, the first n handlers are launched. */
  datatype Point =
    | LookingUp | Sending(slot: RequestId) | AtGate | AtSnapshot
    | Launching(snapshot: seq<Handler>, launched: nat) | Dropped

  datatype Dispatch = Dispatch(event: Event, point: Point)

  /** Where a Request call stands; Ended still holds its entry in pending, Returned has deleted it. */
  datatype Phase = Registered | Awaiting(call: DispatchId) | Ended(reply: Option<Event>) | Returned(result: Option<Event>)

  datatype Request = Request(event: Event, phase: Phase)

  datatype State = State(
    pending: map<string, RequestId>,
    slots: map<RequestId, Option<Event>>,
    requests: map<RequestId, Request>,
    dispatches: map<DispatchId, Dispatch>,
    gateOpen: bool,
    channelHandlers: Table,
    typeHandlers: Table)

  datatype Step =
    | BeginRequest(r: RequestId, e: Event)      // make the reply channel, put it in pending
    | CallDispatch(r: RequestId, d: DispatchId) // the request dispatches its own event
    | BeginDispatch(d: DispatchId, e: Event)    // any other caller, a handler replying for one
    | LookUp(d: DispatchId)
    | Send(d: DispatchId)
    | CheckGate(d: DispatchId)
    | TakeSnapshot(d: DispatchId)
    | Launch(d: DispatchId)
    | Receive(r: RequestId)
    | GiveUp(r: RequestId)                      // the caller's context or the bus is done
    | CleanUp(r: RequestId)                     // the deferred delete, and the return
    | OpenGate
    | CloseGate
    | Reroute(channels: Table, types: Table)    // Register, Unregister, Subscribe, unsubscribe

  const INIT := State(map[], map[], map[], map[], false, map[], map[])

  function SnapshotOf(s: State, e: Event): seq<Handler> {
    Handlers(Lookup(s.channelHandlers, Channel(e.eventType)) + Lookup(s.typeHandlers, e.eventType))
  }

  /** The hop count: a negative one drops the event, zero is refreshed, and the rest goes down by one. */
  function Entered(e: Event): (x: Dispatch)
    ensures x.event.ttl < 0 <==> e.ttl < 0
    ensures x.point.Dropped? <==> x.event.ttl < 0
  {
    if e.ttl < 0 then Dispatch(e, Dropped)
    else
      var hopped := e.(ttl := (if e.ttl == 0 then DEFAULT_TTL else e.ttl) - 1);
      Dispatch(hopped, if e.replyTo != "" then LookingUp else AtGate)
  }

  predicate Finished(p: Point) {
    p.Dropped? || (p.Launching? && p.launched >= |p.snapshot|)
  }

  predicate InFlight(s: State, r: RequestId) {
    r in s.requests && !s.requests[r].phase.Returned?
  }

  predicate At(s: State, d: DispatchId, p: Point) {
    d in s.dispatches && s.dispatches[d].point == p
  }

  function Move(s: State, d: DispatchId, p: Point): State
    requires d in s.dispatches
  {
    s.(dispatches := s.dispatches[d := s.dispatches[d].(point := p)])
  }

  function Turn(s: State, r: RequestId, p: Phase): State
    requires r in s.requests
  {
    s.(requests := s.requests[r := s.requests[r].(phase := p)])
  }

  /** The request's own Dispatch call has come back. */
  predicate CanEnd(s: State, r: RequestId) {
    && r in s.requests && s.requests[r].phase.Awaiting?
    && var d := s.requests[r].phase.call;
    d in s.dispatches && Finished(s.dispatches[d].point)
  }

  /** One step of one thread; None when that thread cannot take it now. The ids of requests in flight are distinct. */
  function Next(gated: set<string>, s: State, step: Step): Option<State> {
    match step
    case BeginRequest(r, e) =>
      if r in s.requests || e.id in s.pending then None
      else Some(s.(pending := s.pending[e.id := r], slots := s.slots[r := None],
                   requests := s.requests[r := Request(e, Registered)]))
    case CallDispatch(r, d) =>
      if r !in s.requests || !s.requests[r].phase.Registered? || d in s.dispatches then None
      else Some(Turn(s, r, Awaiting(d)).(dispatches := s.dispatches[d := Entered(s.requests[r].event)]))
    case BeginDispatch(d, e) =>
      if d in s.dispatches then None else Some(s.(dispatches := s.dispatches[d := Entered(e)]))
    case LookUp(d) =>
      if !At(s, d, LookingUp) then None
      else
        var to := s.dispatches[d].event.replyTo;
        Some(Move(s, d, if to in s.pending then Sending(s.pending[to]) else AtGate))
    case Send(d) =>
      if d !in s.dispatches || !s.dispatches[d].point.Sending? then None
      else
        var r := s.dispatches[d].point.slot;
        var moved := Move(s, d, AtGate);
        Some(if r in s.slots && s.slots[r].None? then moved.(slots := s.slots[r := Some(s.dispatches[d].event)]) else moved)
    case CheckGate(d) =>
      if !At(s, d, AtGate) then None
      else
        var isGated := Channel(s.dispatches[d].event.eventType) in gated;
        Some(Move(s, d, if isGated && !s.gateOpen then Dropped else AtSnapshot))
    case TakeSnapshot(d) =>
      if !At(s, d, AtSnapshot) then None
      else Some(Move(s, d, Launching(SnapshotOf(s, s.dispatches[d].event), 0)))
    case Launch(d) =>
      if d !in s.dispatches || !s.dispatches[d].point.Launching? || Finished(s.dispatches[d].point) then None
      else
        var p := s.dispatches[d].point;
        Some(Move(s, d, p.(launched := p.launched + 1)))
    case Receive(r) =>
      if !CanEnd(s, r) || r !in s.slots || s.slots[r].None? then None
      else Some(Turn(s, r, Ended(s.slots[r])).(slots := s.slots[r := None]))
    case GiveUp(r) =>
      if !CanEnd(s, r) then None else Some(Turn(s, r, Ended(None)))
    case CleanUp(r) =>
      if r !in s.requests || !s.requests[r].phase.Ended? then None
      else Some(Turn(s, r, Returned(s.requests[r].phase.reply)).(pending := s.pending - {s.requests[r].event.id}))
    case OpenGate => Some(s.(gateOpen := true))
    case CloseGate => Some(s.(gateOpen := false))
    case Reroute(channels, types) => Some(s.(channelHandlers := channels, typeHandlers := types))
  }

  function Exec(gated: set<string>, steps: seq<Step>): Option<State> {
    if steps == [] then Some(INIT)
    else match Exec(gated, steps[..|steps| - 1])
      case None => None
      case Some(s) => Next(gated, s, steps[|steps| - 1])
  }

  /** A run: every step could be taken when it was. */
  predicate IsRun(gated: set<string>, steps: seq<Step>) {
    Exec(gated, steps).Some?
  }

  function After(gated: set<string>, steps: seq<Step>): State
    requires IsRun(gated, steps)
  {
    Exec(gated, steps).value
  }

  /** The steps of dispatcher d alone. */
  predicate IsOwn(step: Step, d: DispatchId) {
    step == LookUp(d) || step == Send(d) || step == CheckGate(d) || step == TakeSnapshot(d) || step == Launch(d)
  }

  /** Nothing other threads do moves a dispatcher. */
  lemma OthersLeaveAlone(gated: set<string>, s: State, step: Step, d: DispatchId)
    requires Next(gated, s, step).Some? && !IsOwn(step, d) && d in s.dispatches
    ensures d in Next(gated, s, step).value.dispatches
    ensures Next(gated, s, step).value.dispatches[d] == s.dispatches[d]
  {
  }

  lemma DispatchesBegin(gated: set<string>, s: State, step: Step, d: DispatchId)
    requires Next(gated, s, step).Some? && d !in s.dispatches && d in Next(gated, s, step).value.dispatches
    ensures !IsOwn(step, d)
    ensures var x := Next(gated, s, step).value.dispatches[d];
            x.point == if x.event.ttl < 0 then Dropped else if x.event.replyTo != "" then LookingUp else AtGate
  {
  }

  /** How a dispatcher's own step moves it. */
  lemma OwnStep(gated: set<string>, s: State, step: Step, d: DispatchId)
    requires Next(gated, s, step).Some? && IsOwn(step, d)
    ensures d in s.dispatches && d in Next(gated, s, step).value.dispatches
    ensures var x, y := s.dispatches[d], Next(gated, s, step).value.dispatches[d];
            && y.event == x.event
            && match x.point
               case LookingUp =>
                 && step == LookUp(d)
                 && y.point == if x.event.replyTo in s.pending then Sending(s.pending[x.event.replyTo]) else AtGate
               case Sending(_) => step == Send(d) && y.point.AtGate?
               case AtGate =>
                 && step == CheckGate(d)
                 && y.point == if Channel(x.event.eventType) in gated && !s.gateOpen then Dropped else AtSnapshot
               case AtSnapshot => step == TakeSnapshot(d) && y.point == Launching(SnapshotOf(s, x.event), 0)
               case Launching(hs, n) => step == Launch(d) && n < |hs| && y.point == Launching(hs, n + 1)
               case Dropped => false
  {
  }

  lemma GateStep(gated: set<string>, s: State, step: Step)
    requires Next(gated, s, step).Some?
    ensures Next(gated, s, step).value.gateOpen
            == if step.OpenGate? then true else if step.CloseGate? then false else s.gateOpen
  {
  }

  lemma AfterSnoc(gated: set<string>, steps: seq<Step>)
    requires steps != [] && IsRun(gated, steps)
    ensures var front := steps[..|steps| - 1];
            && IsRun(gated, front) && steps == front + [steps[|steps| - 1]]
            && Next(gated, After(gated, front), steps[|steps| - 1]) == Some(After(gated, steps))
  {
  }

  // ---------------------------------------------------------------- replies

  /** The event a step offers to r's reply channel, if any. */
  function Offer(s: State, step: Step, r: RequestId): seq<Event> {
    if step.Send? && At(s, step.d, Sending(r)) then [s.dispatches[step.d].event] else []
  }

  /** Every event offered to r's reply channel during a run, in order, whether or not there was room. */
  function Offers(gated: set<string>, steps: seq<Step>, r: RequestId): seq<Event>
    requires IsRun(gated, steps)
  {
    if steps == [] then []
    else
      var front := steps[..|steps| - 1];
      Offers(gated, front, r) + Offer(After(gated, front), steps[|steps| - 1], r)
  }

  /** The events offered to r's reply channel since r took its reply out; all of them until then. */
  function SinceTaken(gated: set<string>, steps: seq<Step>, r: RequestId): seq<Event>
    requires IsRun(gated, steps)
  {
    if steps == [] then []
    else
      var front := steps[..|steps| - 1];
      if steps[|steps| - 1] == Receive(r) then []
      else SinceTaken(gated, front, r) + Offer(After(gated, front), steps[|steps| - 1], r)
  }

  /** pending holds exactly the requests in flight, each under its own id. */
  ghost predicate PendingIsInFlight(s: State) {
    && (forall id | id in s.pending :: InFlight(s, s.pending[id]) && s.requests[s.pending[id]].event.id == id)
    && (forall r | InFlight(s, r) :: s.requests[r].event.id in s.pending && s.pending[s.requests[r].event.id] == r)
  }

  /** A dispatcher about to send holds the channel of a request whose id its event answers. */
  ghost predicate SendersAnswer(s: State) {
    forall d | d in s.dispatches && s.dispatches[d].point.Sending? ::
      && s.dispatches[d].point.slot in s.requests
      && s.dispatches[d].event.replyTo == s.requests[s.dispatches[d].point.slot].event.id
  }

  /** The reply a request has taken from its channel. */
  function Reply(p: Phase): Option<Event> {
    match p case Ended(reply) => reply case Returned(result) => result case _ => None
  }

  function First(offers: seq<Event>): Option<Event> { if offers == [] then None else Some(offers[0]) }

  /** What r's channel and result are, given everything offered to it and what was since the reply was taken: the
      reply is the first event ever offered, and the channel holds the first one offered since. */
  ghost predicate SlotHolds(s: State, r: RequestId, offers: seq<Event>, since: seq<Event>)
    requires r in s.requests
  {
    && r in s.slots && s.slots[r] == First(since)
    && (forall e | e in offers :: e.replyTo == s.requests[r].event.id)
    && (if Reply(s.requests[r].phase).Some? then First(offers) == Reply(s.requests[r].phase) else since == offers)
  }

  /** What a step does to the requests: one may be added, one may change phase, their events stay. */
  lemma RequestStep(gated: set<string>, s: State, step: Step, r: RequestId)
    requires Next(gated, s, step).Some? && r in s.requests
    ensures r in Next(gated, s, step).value.requests
    ensures Next(gated, s, step).value.requests[r].event == s.requests[r].event
    ensures s.requests[r].phase.Returned? ==> Next(gated, s, step).value.requests[r] == s.requests[r]
    ensures InFlight(s, r) && !InFlight(Next(gated, s, step).value, r) ==> step == CleanUp(r)
  {
  }

  /** What a step does to pending, and which requests it starts or ends. */
  lemma PendingMoves(gated: set<string>, s: State, step: Step)
    requires Next(gated, s, step).Some?
    ensures var s' := Next(gated, s, step).value;
            match step
            case BeginRequest(r, e) =>
              && r !in s.requests && e.id !in s.pending
              && s'.pending == s.pending[e.id := r] && s'.requests == s.requests[r := Request(e, Registered)]
            case CleanUp(r) =>
              && InFlight(s, r) && s'.pending == s.pending - {s.requests[r].event.id} && !InFlight(s', r)
              && forall other | other != r :: InFlight(s', other) <==> InFlight(s, other)
            case _ =>
              s'.pending == s.pending && forall r :: InFlight(s', r) <==> InFlight(s, r)
  {
  }

  lemma PendingStep(gated: set<string>, s: State, step: Step)
    requires PendingIsInFlight(s) && Next(gated, s, step).Some?
    ensures PendingIsInFlight(Next(gated, s, step).value)
  {
    hide Next;
    var s' := Next(gated, s, step).value;
    PendingMoves(gated, s, step);
    forall r | r in s.requests ensures r in s'.requests && s'.requests[r].event == s.requests[r].event {
      RequestStep(gated, s, step, r);
    }
    forall id | id in s'.pending
      ensures InFlight(s', s'.pending[id]) && s'.requests[s'.pending[id]].event.id == id
    {
      assert id in s.pending ==> InFlight(s, s.pending[id]);
    }
    forall r | InFlight(s', r)
      ensures s'.requests[r].event.id in s'.pending && s'.pending[s'.requests[r].event.id] == r
    {
      assert !step.BeginRequest? ==> InFlight(s, r);
    }
  }

  lemma SendersStep(gated: set<string>, s: State, step: Step)
    requires PendingIsInFlight(s) && SendersAnswer(s) && Next(gated, s, step).Some?
    ensures SendersAnswer(Next(gated, s, step).value)
  {
    var s' := Next(gated, s, step).value;
    forall d | d in s'.dispatches && s'.dispatches[d].point.Sending?
      ensures s'.dispatches[d].point.slot in s'.requests
      ensures s'.dispatches[d].event.replyTo == s'.requests[s'.dispatches[d].point.slot].event.id
    {
      var r := s'.dispatches[d].point.slot;
      if d !in s.dispatches {
        DispatchesBegin(gated, s, step, d);
      } else if IsOwn(step, d) {
        OwnStep(gated, s, step, d);
        assert s.pending[s.dispatches[d].event.replyTo] == r;
        RequestStep(gated, s, step, r);
      } else {
        OthersLeaveAlone(gated, s, step, d);
        RequestStep(gated, s, step, r);
      }
    }
  }

  /** What a step does to r's channel and reply: an offer lands if there is room, and only Receive takes one out. */
  lemma SlotMoves(gated: set<string>, s: State, step: Step, r: RequestId)
    requires Next(gated, s, step).Some? && r in s.requests && r in s.slots
    ensures var s', o := Next(gated, s, step).value, Offer(s, step, r);
            && r in s'.requests && r in s'.slots
            && (step == Receive(r) ==> Reply(s.requests[r].phase).None? && s.slots[r].Some? && o == [])
            && Reply(s'.requests[r].phase) == (if step == Receive(r) then s.slots[r] else Reply(s.requests[r].phase))
            && s'.slots[r] == if step == Receive(r) then None else if s.slots[r].None? then First(o) else s.slots[r]
  {
  }

  lemma SlotBegins(gated: set<string>, s: State, step: Step, r: RequestId)
    requires SendersAnswer(s) && Next(gated, s, step).Some? && r !in s.requests
    ensures Offer(s, step, r) == []
    ensures var s' := Next(gated, s, step).value;
            r in s'.requests ==> r in s'.slots && s'.slots[r] == None && Reply(s'.requests[r].phase) == None
  {
  }

  lemma SlotStep(gated: set<string>, s: State, step: Step, r: RequestId, offers: seq<Event>, since: seq<Event>)
    requires SendersAnswer(s) && Next(gated, s, step).Some?
    requires if r in s.requests then SlotHolds(s, r, offers, since) else offers == since == []
    ensures var s', o := Next(gated, s, step).value, Offer(s, step, r);
            var more, later := offers + o, if step == Receive(r) then [] else since + o;
            if r in s'.requests then SlotHolds(s', r, more, later) else more == later == []
  {
    if r in s.requests {
      OfferAnswers(s, step, r);
      hide Next, Offer;
      SlotMoves(gated, s, step, r);
      RequestStep(gated, s, step, r);
      var o := Offer(s, step, r);
      assert offers != [] ==> (offers + o)[0] == offers[0];
      assert since != [] ==> (since + o)[0] == since[0];
    } else {
      SlotBegins(gated, s, step, r);
    }
  }

  lemma OfferAnswers(s: State, step: Step, r: RequestId)
    requires SendersAnswer(s) && r in s.requests
    ensures forall e | e in Offer(s, step, r) :: e.replyTo == s.requests[r].event.id
  {
  }

  lemma {:induction false} ReachablePending(gated: set<string>, steps: seq<Step>)
    requires IsRun(gated, steps)
    ensures PendingIsInFlight(After(gated, steps)) && SendersAnswer(After(gated, steps))
  {
    if steps != [] {
      var front, step := steps[..|steps| - 1], steps[|steps| - 1];
      AfterSnoc(gated, steps);
      ReachablePending(gated, front);
      PendingStep(gated, After(gated, front), step);
      SendersStep(gated, After(gated, front), step);
    }
  }

  lemma {:induction false} ReachableSlots(gated: set<string>, steps: seq<Step>, r: RequestId)
    requires IsRun(gated, steps)
    ensures if r in After(gated, steps).requests
            then SlotHolds(After(gated, steps), r, Offers(gated, steps, r), SinceTaken(gated, steps, r))
            else Offers(gated, steps, r) == SinceTaken(gated, steps, r) == []
  {
    if steps != [] {
      var front, step := steps[..|steps| - 1], steps[|steps| - 1];
      AfterSnoc(gated, steps);
      ReachablePending(gated, front);
      ReachableSlots(gated, front, r);
      SlotStep(gated, After(gated, front), step, r, Offers(gated, front, r), SinceTaken(gated, front, r));
    }
  }

  /** In every interleaving: a request that returns a reply returns one to its own id, and the first one
      offered to its channel; and pending is exactly the requests in flight. */
  lemma RepliesAreCorrelated(gated: set<string>, steps: seq<Step>, r: RequestId)
    requires IsRun(gated, steps) && r in After(gated, steps).requests
    ensures var q := After(gated, steps).requests[r];
            q.phase.Returned? && q.phase.result.Some? ==>
              && q.phase.result.value.replyTo == q.event.id
              && Offers(gated, steps, r) != [] && q.phase.result.value == Offers(gated, steps, r)[0]
    ensures PendingIsInFlight(After(gated, steps))
  {
    ReachablePending(gated, steps);
    ReachableSlots(gated, steps, r);
  }

  /** No dispatcher ever waits: until it is finished it has a step of its own to take, in any state. */
  lemma DispatchersNeverBlock(gated: set<string>, s: State, d: DispatchId) returns (step: Step)
    requires d in s.dispatches && !Finished(s.dispatches[d].point)
    ensures IsOwn(step, d) && Next(gated, s, step).Some?
  {
    match s.dispatches[d].point
    case LookingUp => step := LookUp(d);
    case Sending(_) => step := Send(d);
    case AtGate => step := CheckGate(d);
    case AtSnapshot => step := TakeSnapshot(d);
    case Launching(_, _) => step := Launch(d);
  }

  /** The steps of its own that dispatcher d has taken. */
  function OwnSteps(steps: seq<Step>, d: DispatchId): nat {
    if steps == [] then 0 else OwnSteps(steps[..|steps| - 1], d) + if IsOwn(steps[|steps| - 1], d) then 1 else 0
  }

  /** How many of its own steps a dispatcher can have behind it. */
  function Reached(p: Point): nat {
    match p
    case LookingUp => 0
    case Sending(_) => 1
    case AtGate => 2
    case Dropped => 3
    case AtSnapshot => 3
    case Launching(_, n) => 4 + n
  }

  lemma {:induction false} StepsBehind(gated: set<string>, steps: seq<Step>, d: DispatchId)
    requires IsRun(gated, steps)
    ensures d !in After(gated, steps).dispatches ==> OwnSteps(steps, d) == 0
    ensures d in After(gated, steps).dispatches ==>
              && OwnSteps(steps, d) <= Reached(After(gated, steps).dispatches[d].point)
              && (After(gated, steps).dispatches[d].point.Launching? ==>
                    After(gated, steps).dispatches[d].point.launched <= |After(gated, steps).dispatches[d].point.snapshot|)
  {
    if steps != [] {
      var front, step := steps[..|steps| - 1], steps[|steps| - 1];
      AfterSnoc(gated, steps);
      StepsBehind(gated, front, d);
      var s := After(gated, front);
      if IsOwn(step, d) {
        OwnStep(gated, s, step, d);
      } else if d in s.dispatches {
        OthersLeaveAlone(gated, s, step, d);
      } else if d in After(gated, steps).dispatches {
        DispatchesBegin(gated, s, step, d);
      }
    }
  }

  /** In every run a dispatcher takes at most three steps of its own and is dropped, or at most four and one for each
      handler of its snapshot; it has a next one exactly while it is not finished. */
  lemma DispatchersFinish(gated: set<string>, steps: seq<Step>, d: DispatchId)
    requires IsRun(gated, steps) && d in After(gated, steps).dispatches
    ensures var p := After(gated, steps).dispatches[d].point;
            && OwnSteps(steps, d) <= (if p.Launching? then 4 + |p.snapshot| else 3)
            && (Finished(p) <==> forall step | IsOwn(step, d) :: Next(gated, After(gated, steps), step).None?)
  {
    StepsBehind(gated, steps, d);
    var s := After(gated, steps);
    if Finished(s.dispatches[d].point) {
      forall step | IsOwn(step, d) ensures Next(gated, s, step).None? {
        if Next(gated, s, step).Some? {
          OwnStep(gated, s, step, d);
        }
      }
    } else {
      var step := DispatchersNeverBlock(gated, s, d);
      assert IsOwn(step, d);
    }
  }

  // ---------------------------------------------------------------- the gate

  ghost predicate OpenedAt(steps: seq<Step>, g: nat, o: nat)
    requires g <= |steps|
  {
    o < g && steps[o].OpenGate? && forall j | o < j < g :: !steps[j].CloseGate?
  }

  /** At position g the gate stands open: some OpenGate before, no CloseGate since. */
  ghost predicate OpenAt(steps: seq<Step>, g: nat)
    requires g <= |steps|
  {
    exists o :: OpenedAt(steps, g, o)
  }

  /** d passed its gate check, with the gate open if its channel is gated. */
  ghost predicate PassedGate(gated: set<string>, steps: seq<Step>, d: DispatchId, e: Event) {
    exists g | 0 <= g < |steps| :: steps[g] == CheckGate(d) && (Channel(e.eventType) in gated ==> OpenAt(steps, g))
  }

  lemma OpenAtPrefix(steps: seq<Step>, step: Step, g: nat)
    requires g <= |steps|
    ensures OpenAt(steps + [step], g) <==> OpenAt(steps, g)
  {
    assert forall j | 0 <= j < g :: (steps + [step])[j] == steps[j];
    if o: nat :| OpenedAt(steps, g, o) {
      assert OpenedAt(steps + [step], g, o);
    }
    var more := steps + [step];
    if o: nat :| OpenedAt(more, g, o) {
      assert forall j | o < j < g :: more[j] == steps[j];
      assert OpenedAt(steps, g, o);
    }
  }

  lemma OpenAtNext(steps: seq<Step>, step: Step)
    ensures OpenAt(steps + [step], |steps| + 1)
            == if step.OpenGate? then true else if step.CloseGate? then false else OpenAt(steps, |steps|)
  {
    var n, more := |steps|, steps + [step];
    assert forall j | 0 <= j < n :: more[j] == steps[j];
    var m := n + 1;
    if step.OpenGate? {
      assert OpenedAt(more, m, n);
    } else {
      if o: nat :| OpenedAt(steps, n, o) && !step.CloseGate? {
        assert OpenedAt(more, m, o);
      }
      if o: nat :| OpenedAt(more, m, o) {
        assert o < n && !more[n].CloseGate?;
        assert forall j | o < j < n :: more[j] == steps[j];
        assert OpenedAt(steps, n, o);
      }
    }
  }

  lemma {:induction false} GateState(gated: set<string>, steps: seq<Step>)
    requires IsRun(gated, steps)
    ensures After(gated, steps).gateOpen <==> OpenAt(steps, |steps|)
  {
    if steps != [] {
      var front, step := steps[..|steps| - 1], steps[|steps| - 1];
      AfterSnoc(gated, steps);
      GateState(gated, front);
      GateStep(gated, After(gated, front), step);
      OpenAtNext(front, step);
    }
  }

  lemma PassedGateStays(gated: set<string>, steps: seq<Step>, step: Step, d: DispatchId, e: Event)
    requires PassedGate(gated, steps, d, e)
    ensures PassedGate(gated, steps + [step], d, e)
  {
    var g :| 0 <= g < |steps| && steps[g] == CheckGate(d) && (Channel(e.eventType) in gated ==> OpenAt(steps, g));
    OpenAtPrefix(steps, step, g);
    assert (steps + [step])[g] == CheckGate(d);
  }

  lemma PassesGateNow(gated: set<string>, steps: seq<Step>, d: DispatchId, e: Event)
    requires Channel(e.eventType) in gated ==> OpenAt(steps, |steps|)
    ensures PassedGate(gated, steps + [CheckGate(d)], d, e)
  {
    OpenAtPrefix(steps, CheckGate(d), |steps|);
    assert (steps + [CheckGate(d)])[|steps|] == CheckGate(d);
  }

  predicate Beyond(s: State, d: DispatchId) {
    d in s.dispatches && (s.dispatches[d].point.AtSnapshot? || s.dispatches[d].point.Launching?)
  }

  /** A dispatcher gets beyond its gate check only by passing it. */
  lemma GetsBeyond(gated: set<string>, s: State, step: Step, d: DispatchId)
    requires Next(gated, s, step).Some? && Beyond(Next(gated, s, step).value, d)
    ensures d in s.dispatches && Next(gated, s, step).value.dispatches[d].event == s.dispatches[d].event
    ensures Beyond(s, d) || (step == CheckGate(d) && (Channel(s.dispatches[d].event.eventType) in gated ==> s.gateOpen))
  {
    if IsOwn(step, d) {
      OwnStep(gated, s, step, d);
    } else if d in s.dispatches {
      OthersLeaveAlone(gated, s, step, d);
    } else {
      DispatchesBegin(gated, s, step, d);
    }
  }

  lemma {:induction false} BeyondTheGate(gated: set<string>, steps: seq<Step>, d: DispatchId)
    requires IsRun(gated, steps) && Beyond(After(gated, steps), d)
    ensures PassedGate(gated, steps, d, After(gated, steps).dispatches[d].event)
  {
    if steps != [] {
      var front, step := steps[..|steps| - 1], steps[|steps| - 1];
      AfterSnoc(gated, steps);
      GetsBeyond(gated, After(gated, front), step, d);
      var e := After(gated, front).dispatches[d].event;
      if Beyond(After(gated, front), d) {
        BeyondTheGate(gated, front, d);
        PassedGateStays(gated, front, step, d, e);
      } else {
        GateState(gated, front);
        PassesGateNow(gated, front, d, e);
      }
    }
  }

  /** Every handler launch for a gated channel comes from a dispatch that checked the gate after an
      OpenGate with no CloseGate in between. */
  lemma GateSafety(gated: set<string>, steps: seq<Step>, i: nat)
    requires IsRun(gated, steps) && i < |steps| && steps[i].Launch?
    ensures IsRun(gated, steps[..i]) && steps[i].d in After(gated, steps[..i]).dispatches
    ensures PassedGate(gated, steps[..i], steps[i].d, After(gated, steps[..i]).dispatches[steps[i].d].event)
  {
    PrefixIsRun(gated, steps, i + 1);
    assert steps[..i + 1][..i] == steps[..i];
    BeyondTheGate(gated, steps[..i], steps[i].d);
  }

  lemma {:induction false} PrefixIsRun(gated: set<string>, steps: seq<Step>, n: nat)
    requires IsRun(gated, steps) && n <= |steps|
    ensures IsRun(gated, steps[..n])
    decreases |steps|
  {
    if n == |steps| {
      assert steps[..n] == steps;
    } else {
      PrefixIsRun(gated, steps[..|steps| - 1], n);
      assert steps[..|steps| - 1][..n] == steps[..n];
    }
  }

  /** d came to its gate check with a gated channel while the gate was shut. */
  ghost predicate HeldAtGate(gated: set<string>, steps: seq<Step>, d: DispatchId, e: Event) {
    exists g | 0 <= g < |steps| :: steps[g] == CheckGate(d) && Channel(e.eventType) in gated && !OpenAt(steps, g)
  }

  lemma HeldNext(gated: set<string>, steps: seq<Step>, step: Step, d: DispatchId, e: Event)
    ensures HeldAtGate(gated, steps + [step], d, e)
            <==> HeldAtGate(gated, steps, d, e)
                 || (step == CheckGate(d) && Channel(e.eventType) in gated && !OpenAt(steps, |steps|))
  {
    var more := steps + [step];
    forall g | 0 <= g <= |steps| ensures OpenAt(more, g) <==> OpenAt(steps, g) {
      OpenAtPrefix(steps, step, g);
    }
    assert more[|steps|] == step && forall g | 0 <= g < |steps| :: more[g] == steps[g];
  }

  lemma {:induction false} NotHeldBefore(gated: set<string>, steps: seq<Step>, d: DispatchId, e: Event)
    requires OwnSteps(steps, d) == 0
    ensures !HeldAtGate(gated, steps, d, e)
  {
    if steps != [] {
      var front, step := steps[..|steps| - 1], steps[|steps| - 1];
      NotHeldBefore(gated, front, d, e);
      HeldNext(gated, front, step, d, e);
      assert steps == front + [step];
    }
  }

  /** A dispatch is dropped exactly when its TTL was negative or the shut gate held it. */
  lemma {:induction false} DroppedExactly(gated: set<string>, steps: seq<Step>, d: DispatchId)
    requires IsRun(gated, steps) && d in After(gated, steps).dispatches
    ensures var x := After(gated, steps).dispatches[d];
            x.point.Dropped? <==> x.event.ttl < 0 || HeldAtGate(gated, steps, d, x.event)
  {
    if steps != [] {
      var front, step := steps[..|steps| - 1], steps[|steps| - 1];
      AfterSnoc(gated, steps);
      var s, e := After(gated, front), After(gated, steps).dispatches[d].event;
      HeldNext(gated, front, step, d, e);
      if d !in s.dispatches {
        StepsBehind(gated, front, d);
        NotHeldBefore(gated, front, d, e);
        DispatchesBegin(gated, s, step, d);
      } else {
        DroppedExactly(gated, front, d);
        if IsOwn(step, d) {
          OwnStep(gated, s, step, d);
          GateState(gated, front);
        } else {
          OthersLeaveAlone(gated, s, step, d);
        }
      }
    }
  }

  /** Which names hold an event: those that, upper-cased, are the event's channel as written. */
  lemma HeldByName(names: seq<string>, upper: string -> string, steps: seq<Step>, d: DispatchId)
    requires IsRun(GatedBy(names, upper), steps) && d in After(GatedBy(names, upper), steps).dispatches
    ensures var x := After(GatedBy(names, upper), steps).dispatches[d];
            x.point.Dropped? <==>
              || x.event.ttl < 0
              || (Covers(names, upper, Channel(x.event.eventType))
                  && exists g | 0 <= g < |steps| :: steps[g] == CheckGate(d) && !OpenAt(steps, g))
  {
    DroppedExactly(GatedBy(names, upper), steps, d);
  }

  /** Which modules an event reaches: those that declare such a name. */
  lemma SnapshotReaches(b: Bus, s: State, e: Event, h: NamedHandler)
    requires b.Valid() && s.channelHandlers == b.channelHandlers
    ensures h in Lookup(s.channelHandlers, Channel(e.eventType)) <==>
              && h.id in b.modules && h.handler == b.modules[h.id].handle
              && Covers(b.modules[h.id].channels, b.upper, Channel(e.eventType))
    ensures h in Lookup(s.channelHandlers, Channel(e.eventType)) ==> h.handler in SnapshotOf(s, e)
  {
    b.ReachedExactly(Channel(e.eventType), h);
    var list := Lookup(s.channelHandlers, Channel(e.eventType));
    if h in list {
      var i :| 0 <= i < |list| && list[i] == h;
      assert SnapshotOf(s, e)[i] == h.handler;
    }
  }

  lemma RunOn(gated: set<string>, front: seq<Step>, s: State, step: Step, s': State)
    requires IsRun(gated, front) && After(gated, front) == s && Next(gated, s, step) == Some(s')
    ensures IsRun(gated, front + [step]) && After(gated, front + [step]) == s'
  {
    assert (front + [step])[..|front|] == front;
  }

  /** A dispatch that begins with the gate shut and is not gated comes to its launches. */
  lemma UngatedRuns(gated: set<string>, front: seq<Step>, d: DispatchId, e: Event, hs: seq<Handler>)
    requires IsRun(gated, front) && d !in After(gated, front).dispatches
    requires e.ttl >= 0 && e.replyTo == "" && Channel(e.eventType) !in gated
    requires hs != [] && SnapshotOf(After(gated, front), e) == hs
    ensures var all := front + [BeginDispatch(d, e)] + [CheckGate(d)] + [TakeSnapshot(d)] + [Launch(d)];
            && IsRun(gated, all) && d in After(gated, all).dispatches
            && After(gated, all).dispatches[d].point == Launching(hs, 1)
  {
    hide Exec, SnapshotOf, Channel;
    var s := After(gated, front);
    var x := Entered(e).(point := AtGate);
    var s1 := s.(dispatches := s.dispatches[d := x]);
    RunOn(gated, front, s, BeginDispatch(d, e), s1);
    var run := front + [BeginDispatch(d, e)];
    var s2 := Move(s1, d, AtSnapshot);
    RunOn(gated, run, s1, CheckGate(d), s2);
    run := run + [CheckGate(d)];
    SameSnapshot(s, s2, e, x.event);
    var s3 := Move(s2, d, Launching(hs, 0));
    RunOn(gated, run, s2, TakeSnapshot(d), s3);
    run := run + [TakeSnapshot(d)];
    RunOn(gated, run, s3, Launch(d), Move(s3, d, Launching(hs, 1)));
  }

  lemma SameSnapshot(s: State, t: State, e: Event, f: Event)
    requires s.channelHandlers == t.channelHandlers && s.typeHandlers == t.typeHandlers && e.eventType == f.eventType
    ensures SnapshotOf(s, e) == SnapshotOf(t, f)
  {
  }

  /** A subscription on "st.rd", and one event of that type. */
  function LowerCaseRun(h: Handler): seq<Step> {
    [Reroute(map[], map["st.rd" := [NamedHandler("s", h)]])] + [BeginDispatch(0, Event("id", "st.rd", "", 0, 0))]
    + [CheckGate(0)] + [TakeSnapshot(0)] + [Launch(0)]
  }

  lemma LowerCaseFacts(upper: string -> string)
    requires upper("st") == "ST"
    ensures Channel("st.rd") == "st" && "st" !in GatedBy(["st"], upper)
  {
    assert "st.rd"[1..] == "t.rd" && "t.rd"[1..] == ".rd";
    assert "ST"[0] == 'S' && "st"[0] == 's';
  }

  lemma Subscribed(gated: set<string>, h: Handler)
    ensures var run := [Reroute(map[], map["st.rd" := [NamedHandler("s", h)]])];
            && IsRun(gated, run) && After(gated, run).dispatches == map[]
            && forall e: Event | e.eventType == "st.rd" :: SnapshotOf(After(gated, run), e) == [h]
  {
    var types := map["st.rd" := [NamedHandler("s", h)]];
    RunOn(gated, [], INIT, Reroute(map[], types), INIT.(typeHandlers := types));
    assert [] + [Reroute(map[], types)] == [Reroute(map[], types)];
  }

  /** A channel gated by its own lower-case name is not held: the handler starts though the gate never opened. */
  lemma LowerCasePasses(upper: string -> string, h: Handler)
    requires upper("st") == "ST"
    ensures IsRun(GatedBy(["st"], upper), LowerCaseRun(h))
    ensures Launches(GatedBy(["st"], upper), LowerCaseRun(h), 0) == [h]
    ensures forall i | 0 <= i < |LowerCaseRun(h)| :: !LowerCaseRun(h)[i].OpenGate?
  {
    hide Exec, SnapshotOf, Channel, Launches, GatedBy, TakenFrom;
    var gated := GatedBy(["st"], upper);
    LowerCaseFacts(upper);
    Subscribed(gated, h);
    UngatedRuns(gated, [Reroute(map[], map["st.rd" := [NamedHandler("s", h)]])], 0, Event("id", "st.rd", "", 0, 0), [h]);
    LaunchesFollowSnapshot(gated, LowerCaseRun(h), 0);
  }

  // ---------------------------------------------------------------- launches

  /** The handler a step starts on behalf of d, if any. */
  function Started(s: State, step: Step, d: DispatchId): seq<Handler> {
    if step == Launch(d) && d in s.dispatches && s.dispatches[d].point.Launching?
       && s.dispatches[d].point.launched < |s.dispatches[d].point.snapshot|
    then [s.dispatches[d].point.snapshot[s.dispatches[d].point.launched]] else []
  }

  /** Every handler started on behalf of d during a run, in order. */
  function Launches(gated: set<string>, steps: seq<Step>, d: DispatchId): seq<Handler>
    requires IsRun(gated, steps)
  {
    if steps == [] then []
    else
      var front := steps[..|steps| - 1];
      Launches(gated, front, d) + Started(After(gated, front), steps[|steps| - 1], d)
  }

  /** hs is what d's snapshot step found on the lists at that moment. */
  ghost predicate TakenFrom(gated: set<string>, steps: seq<Step>, d: DispatchId, e: Event, hs: seq<Handler>) {
    exists k | 0 <= k < |steps| :: steps[k] == TakeSnapshot(d) && IsRun(gated, steps[..k])
                                   && hs == SnapshotOf(After(gated, steps[..k]), e)
  }

  lemma TakenFromStays(gated: set<string>, steps: seq<Step>, step: Step, d: DispatchId, e: Event, hs: seq<Handler>)
    requires TakenFrom(gated, steps, d, e, hs)
    ensures TakenFrom(gated, steps + [step], d, e, hs)
  {
    var k :| 0 <= k < |steps| && steps[k] == TakeSnapshot(d) && IsRun(gated, steps[..k])
             && hs == SnapshotOf(After(gated, steps[..k]), e);
    assert (steps + [step])[..k] == steps[..k] && (steps + [step])[k] == steps[k];
  }

  lemma TakenNow(gated: set<string>, steps: seq<Step>, d: DispatchId, e: Event)
    requires IsRun(gated, steps)
    ensures TakenFrom(gated, steps + [TakeSnapshot(d)], d, e, SnapshotOf(After(gated, steps), e))
  {
    var more := steps + [TakeSnapshot(d)];
    assert more[..|steps|] == steps && more[|steps|] == TakeSnapshot(d);
  }

  /** What d has started so far, given where it stands. */
  ghost predicate HasStarted(gated: set<string>, steps: seq<Step>, d: DispatchId, x: Dispatch, started: seq<Handler>) {
    match x.point
    case Launching(hs, n) => n <= |hs| && started == hs[..n] && TakenFrom(gated, steps, d, x.event, hs)
    case _ => started == []
  }

  lemma StartedStep(gated: set<string>, steps: seq<Step>, s: State, step: Step, d: DispatchId, started: seq<Handler>)
    requires IsRun(gated, steps) && s == After(gated, steps) && Next(gated, s, step).Some?
    requires d in s.dispatches && HasStarted(gated, steps, d, s.dispatches[d], started)
    ensures d in Next(gated, s, step).value.dispatches
    ensures HasStarted(gated, steps + [step], d, Next(gated, s, step).value.dispatches[d], started + Started(s, step, d))
  {
    hide Next, Exec, SnapshotOf;
    var x := s.dispatches[d];
    if x.point.Launching? {
      TakenFromStays(gated, steps, step, d, x.event, x.point.snapshot);
    }
    if IsOwn(step, d) {
      OwnStep(gated, s, step, d);
      if x.point.AtSnapshot? {
        TakenNow(gated, steps, d, x.event);
      }
    } else {
      OthersLeaveAlone(gated, s, step, d);
    }
  }

  /** Each dispatch starts the handlers of its snapshot, channel handlers before type handlers, once each and
      in order, however the lists change afterwards; before its snapshot, or if dropped, it starts none. */
  lemma {:induction false} LaunchesFollowSnapshot(gated: set<string>, steps: seq<Step>, d: DispatchId)
    requires IsRun(gated, steps)
    ensures d !in After(gated, steps).dispatches ==> Launches(gated, steps, d) == []
    ensures d in After(gated, steps).dispatches ==>
              HasStarted(gated, steps, d, After(gated, steps).dispatches[d], Launches(gated, steps, d))
  {
    if steps != [] {
      var front, step := steps[..|steps| - 1], steps[|steps| - 1];
      AfterSnoc(gated, steps);
      LaunchesFollowSnapshot(gated, front, d);
      var s := After(gated, front);
      if d in s.dispatches {
        StartedStep(gated, front, s, step, d, Launches(gated, front, d));
      } else if d in After(gated, steps).dispatches {
        DispatchesBegin(gated, s, step, d);
      }
    }
  }

  /** A dispatch that has finished normally has started exactly its snapshot. */
  lemma FinishedDispatchLaunchedAll(gated: set<string>, steps: seq<Step>, d: DispatchId)
    requires IsRun(gated, steps) && d in After(gated, steps).dispatches
    requires Finished(After(gated, steps).dispatches[d].point)
    ensures var x := After(gated, steps).dispatches[d];
            if x.point.Dropped? then Launches(gated, steps, d) == []
            else TakenFrom(gated, steps, d, x.event, Launches(gated, steps, d))
  {
    LaunchesFollowSnapshot(gated, steps, d);
    var x := After(gated, steps).dispatches[d];
    assert x.point.Launching? ==> x.point.snapshot[..|x.point.snapshot|] == x.point.snapshot;
  }
}
