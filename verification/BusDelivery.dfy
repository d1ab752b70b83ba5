/** What the bus delivers (engine/kernel/bus.go): every event a dispatch carries, every reply a request can get and every
    handler an event reaches, over any run of BusProtocol. */
module BusDelivery {
  import opened Wrappers
  import opened BusRegistry
  import opened BusProtocol

  // ---------------------------------------------------------------- what a dispatch carries

  /** The event with one hop gone: a fresh one has eight, a negative count is left. */
  function Hopped(e: Event): (x: Event)
    ensures x.id == e.id && x.eventType == e.eventType && x.replyTo == e.replyTo && x.payload == e.payload
    ensures e.ttl < 0 ==> x.ttl == e.ttl
    ensures e.ttl == 0 ==> x.ttl == 7
    ensures e.ttl > 0 ==> x.ttl == e.ttl - 1
  {
    e.(ttl := if e.ttl < 0 then e.ttl else if e.ttl == 0 then 7 else e.ttl - 1)
  }

  /** Step b of the run hands e to dispatch d: some caller's event, or a request's own. */
  ghost predicate Handed(gated: set<string>, steps: seq<Step>, d: DispatchId, e: Event, b: nat) {
    && b < |steps|
    && (steps[b] == BeginDispatch(d, e)
        || (steps[b].CallDispatch? && steps[b].d == d && IsRun(gated, steps[..b])
            && steps[b].r in After(gated, steps[..b]).requests
            && After(gated, steps[..b]).requests[steps[b].r].event == e))
  }

  lemma HandedStep(gated: set<string>, s: State, step: Step, d: DispatchId)
    requires Next(gated, s, step).Some? && d !in s.dispatches && d in Next(gated, s, step).value.dispatches
    ensures || (step.BeginDispatch? && step.d == d && Next(gated, s, step).value.dispatches[d].event == Hopped(step.e))
            || (step.CallDispatch? && step.d == d && step.r in s.requests
                && Next(gated, s, step).value.dispatches[d].event == Hopped(s.requests[step.r].event))
  {
  }

  /** A dispatch carries the event it was handed, unchanged but for the hop. */
  lemma {:induction false} CarriesEvent(gated: set<string>, steps: seq<Step>, d: DispatchId) returns (b: nat, e: Event)
    requires IsRun(gated, steps) && d in After(gated, steps).dispatches
    ensures Handed(gated, steps, d, e, b) && After(gated, steps).dispatches[d].event == Hopped(e)
  {
    hide Next, Exec, Hopped;
    b := 0;
    if steps == [] {
      NothingYet(gated);
      assert false;
    } else {
      var front, step := steps[..|steps| - 1], steps[|steps| - 1];
      AfterSnoc(gated, steps);
      var s := After(gated, front);
      if d in s.dispatches {
        b, e := CarriesEvent(gated, front, d);
        assert front[..b] == steps[..b];
        DispatchStays(gated, s, step, d);
      } else {
        HandedStep(gated, s, step, d);
        b := |front|;
        e := if step.BeginDispatch? then step.e else s.requests[step.r].event;
      }
    }
  }

  lemma NothingYet(gated: set<string>)
    ensures IsRun(gated, []) && After(gated, []) == INIT
  {
  }

  /** A dispatch never changes its event and is never forgotten. */
  lemma DispatchStays(gated: set<string>, s: State, step: Step, d: DispatchId)
    requires Next(gated, s, step).Some? && d in s.dispatches
    ensures d in Next(gated, s, step).value.dispatches
    ensures Next(gated, s, step).value.dispatches[d].event == s.dispatches[d].event
  {
    if IsOwn(step, d) {
      OwnStep(gated, s, step, d);
    } else {
      OthersLeaveAlone(gated, s, step, d);
    }
  }

  lemma RequestBegins(gated: set<string>, s: State, step: Step, r: RequestId)
    requires Next(gated, s, step).Some? && r !in s.requests && r in Next(gated, s, step).value.requests
    ensures step == BeginRequest(r, Next(gated, s, step).value.requests[r].event)
  {
  }

  /** A request keeps the event it was made with. */
  lemma {:induction false} RequestKeepsEvent(gated: set<string>, steps: seq<Step>, r: RequestId) returns (b: nat)
    requires IsRun(gated, steps) && r in After(gated, steps).requests
    ensures b < |steps| && steps[b] == BeginRequest(r, After(gated, steps).requests[r].event)
  {
    hide Exec, Next;
    b := 0;
    if steps == [] {
      NothingYet(gated);
      assert false;
    } else {
      var front, step := steps[..|steps| - 1], steps[|steps| - 1];
      AfterSnoc(gated, steps);
      if r in After(gated, front).requests {
        b := RequestKeepsEvent(gated, front, r);
        RequestStep(gated, After(gated, front), step, r);
      } else {
        RequestBegins(gated, After(gated, front), step, r);
        b := |front|;
      }
    }
  }

  // ---------------------------------------------------------------- replies arrive

  ghost predicate Took(steps: seq<Step>, step: Step) { exists k | 0 <= k < |steps| :: steps[k] == step }

  /** d looked its event's replyTo up at position l and found r in flight under that id. */
  ghost predicate FoundAt(gated: set<string>, steps: seq<Step>, d: DispatchId, r: RequestId, l: nat) {
    && l < |steps| && steps[l] == LookUp(d) && IsRun(gated, steps[..l])
    && var s := After(gated, steps[..l]);
    d in s.dispatches && InFlight(s, r) && s.dispatches[d].event.replyTo == s.requests[r].event.id
  }

  ghost predicate Found(gated: set<string>, steps: seq<Step>, d: DispatchId, r: RequestId) {
    exists l :: FoundAt(gated, steps, d, r, l)
  }

  lemma TookNext(steps: seq<Step>, step: Step, x: Step)
    ensures Took(steps + [step], x) <==> Took(steps, x) || step == x
  {
    var more := steps + [step];
    assert more[|steps|] == step && forall k | 0 <= k < |steps| :: more[k] == steps[k];
  }

  lemma FoundNext(gated: set<string>, steps: seq<Step>, step: Step, d: DispatchId, r: RequestId)
    requires IsRun(gated, steps)
    ensures var s := After(gated, steps);
            Found(gated, steps + [step], d, r) <==>
              || Found(gated, steps, d, r)
              || (step == LookUp(d) && d in s.dispatches && InFlight(s, r)
                  && s.dispatches[d].event.replyTo == s.requests[r].event.id)
  {
    hide Exec;
    var more, n := steps + [step], |steps|;
    assert more[..n] == steps;
    forall l: nat | l < n ensures FoundAt(gated, more, d, r, l) <==> FoundAt(gated, steps, d, r, l) {
      assert more[..l] == steps[..l];
    }
    if l: nat :| FoundAt(gated, steps, d, r, l) {
      assert FoundAt(gated, more, d, r, l);
    }
    if l: nat :| FoundAt(gated, more, d, r, l) {
      assert l < n ==> FoundAt(gated, steps, d, r, l);
    }
    if step == LookUp(d) {
      assert FoundAt(gated, more, d, r, n) <==>
             var s := After(gated, steps);
             d in s.dispatches && InFlight(s, r) && s.dispatches[d].event.replyTo == s.requests[r].event.id;
    }
  }

  /** Where a dispatch stands says what it has looked up and sent. */
  ghost predicate StandsBy(gated: set<string>, steps: seq<Step>, d: DispatchId, r: RequestId, x: Dispatch) {
    && (x.point.LookingUp? ==> !Took(steps, LookUp(d)) && !Took(steps, Send(d)))
    && (x.point == Sending(r) <==> Found(gated, steps, d, r) && !Took(steps, Send(d)))
    && (x.point.Sending? ==> !Took(steps, Send(d)))
    && (!x.point.LookingUp? && x.event.ttl >= 0 && x.event.replyTo != "" ==> Took(steps, LookUp(d)))
  }

  lemma {:induction false} NoneTaken(gated: set<string>, steps: seq<Step>, d: DispatchId, r: RequestId)
    requires OwnSteps(steps, d) == 0
    ensures !Took(steps, LookUp(d)) && !Took(steps, Send(d)) && !Found(gated, steps, d, r)
  {
    if steps != [] {
      var front, step := steps[..|steps| - 1], steps[|steps| - 1];
      NoneTaken(gated, front, d, r);
      TookNext(front, step, LookUp(d));
      TookNext(front, step, Send(d));
      assert steps == front + [step];
    }
  }

  lemma PendingFinds(s: State, id: string, r: RequestId)
    requires PendingIsInFlight(s)
    ensures id in s.pending && s.pending[id] == r <==> InFlight(s, r) && s.requests[r].event.id == id
  {
  }

  lemma StandsByStep(gated: set<string>, front: seq<Step>, step: Step, d: DispatchId, r: RequestId)
    requires IsRun(gated, front) && Next(gated, After(gated, front), step).Some?
    requires d in After(gated, front).dispatches
    requires StandsBy(gated, front, d, r, After(gated, front).dispatches[d])
    ensures d in Next(gated, After(gated, front), step).value.dispatches
    ensures StandsBy(gated, front + [step], d, r, Next(gated, After(gated, front), step).value.dispatches[d])
  {
    var s := After(gated, front);
    ReachablePending(gated, front);
    PendingFinds(s, s.dispatches[d].event.replyTo, r);
    hide Next, Exec, Took, Found, InFlight, PendingIsInFlight, SendersAnswer, SnapshotOf, Channel;
    TookNext(front, step, LookUp(d));
    TookNext(front, step, Send(d));
    FoundNext(gated, front, step, d, r);
    if IsOwn(step, d) {
      OwnStep(gated, s, step, d);
    } else {
      OthersLeaveAlone(gated, s, step, d);
    }
  }

  lemma {:induction false} Stands(gated: set<string>, steps: seq<Step>, d: DispatchId, r: RequestId)
    requires IsRun(gated, steps) && d in After(gated, steps).dispatches
    ensures StandsBy(gated, steps, d, r, After(gated, steps).dispatches[d])
  {
    hide Next, Exec, StandsBy;
    if steps == [] {
      NothingYet(gated);
      assert false;
    } else {
      var front, step := steps[..|steps| - 1], steps[|steps| - 1];
      AfterSnoc(gated, steps);
      if d in After(gated, front).dispatches {
        Stands(gated, front, d, r);
        StandsByStep(gated, front, step, d, r);
      } else {
        DispatchesBegin(gated, After(gated, front), step, d);
        StepsBehind(gated, front, d);
        StandsAtFirst(gated, front, step, d, r);
      }
    }
  }

  lemma StandsAtFirst(gated: set<string>, front: seq<Step>, step: Step, d: DispatchId, r: RequestId)
    requires OwnSteps(front, d) == 0 && !IsOwn(step, d)
    ensures forall x: Dispatch ::
              x.point == (if x.event.ttl < 0 then Dropped else if x.event.replyTo != "" then LookingUp else AtGate)
              ==> StandsBy(gated, front + [step], d, r, x)
  {
    assert (front + [step])[..|front|] == front;
    NoneTaken(gated, front + [step], d, r);
  }

  /** d carried e, found r in flight under the id e answers, and has sent. */
  ghost predicate Delivered(gated: set<string>, steps: seq<Step>, d: DispatchId, r: RequestId, e: Event)
    requires IsRun(gated, steps)
  {
    && d in After(gated, steps).dispatches && After(gated, steps).dispatches[d].event == e
    && Found(gated, steps, d, r) && Took(steps, Send(d))
  }

  lemma DeliveredNext(gated: set<string>, front: seq<Step>, step: Step, d: DispatchId, r: RequestId, e: Event)
    requires IsRun(gated, front) && IsRun(gated, front + [step])
    ensures Delivered(gated, front + [step], d, r, e)
            <==> Delivered(gated, front, d, r, e) || (step == Send(d) && Offer(After(gated, front), step, r) == [e])
  {
    var steps, s := front + [step], After(gated, front);
    assert steps[..|front|] == front;
    AfterSnoc(gated, steps);
    StepsBehind(gated, front, d);
    hide Next, Exec, Took, Found, FoundAt;
    TookNext(front, step, Send(d));
    FoundNext(gated, front, step, d, r);
    if d in s.dispatches {
      Stands(gated, front, d, r);
      DispatchStays(gated, s, step, d);
      if IsOwn(step, d) {
        OwnStep(gated, s, step, d);
      }
    } else {
      NoneTaken(gated, front, d, r);
      if IsOwn(step, d) {
        OwnStep(gated, s, step, d);
      }
    }
  }

  /** The events offered to a request are exactly those of dispatches that looked it up while it was in flight, under the
      id they answer, and have sent since. */
  lemma {:induction false} OfferedExactly(gated: set<string>, steps: seq<Step>, r: RequestId, e: Event)
    requires IsRun(gated, steps)
    ensures e in Offers(gated, steps, r) <==> exists d :: Delivered(gated, steps, d, r, e)
  {
    if steps == [] {
      assert forall d :: !Delivered(gated, [], d, r, e);
    } else {
      var front, step := steps[..|steps| - 1], steps[|steps| - 1];
      AfterSnoc(gated, steps);
      OfferedExactly(gated, front, r, e);
      forall d
        ensures Delivered(gated, steps, d, r, e)
                <==> Delivered(gated, front, d, r, e) || (step == Send(d) && Offer(After(gated, front), step, r) == [e])
      {
        DeliveredNext(gated, front, step, d, r, e);
      }
      hide Exec, Next, Delivered;
      var o := Offer(After(gated, front), step, r);
      assert e in Offers(gated, steps, r) <==> e in Offers(gated, front, r) || e in o;
      if e in o {
        assert Delivered(gated, steps, step.d, r, e);
      }
    }
  }

  /** A reply that is dispatched with its TTL not negative looks its request up before it comes to the gate, and if it
      finds it in flight has been offered to it by then. */
  lemma RepliesArrive(gated: set<string>, steps: seq<Step>, d: DispatchId, r: RequestId)
    requires IsRun(gated, steps) && d in After(gated, steps).dispatches
    requires var x := After(gated, steps).dispatches[d];
             x.event.ttl >= 0 && x.event.replyTo != "" && !x.point.LookingUp? && !x.point.Sending?
    ensures Took(steps, LookUp(d))
    ensures Found(gated, steps, d, r) ==> After(gated, steps).dispatches[d].event in Offers(gated, steps, r)
  {
    var e := After(gated, steps).dispatches[d].event;
    Stands(gated, steps, d, r);
    OfferedExactly(gated, steps, r, e);
    if Found(gated, steps, d, r) {
      assert Delivered(gated, steps, d, r, e);
    }
  }

  /** Once an event was offered, the channel is not empty until the request has its reply; and as soon as the request's
      own dispatch is over it can take the first event offered. */
  lemma OfferedCanBeTaken(gated: set<string>, steps: seq<Step>, r: RequestId)
    requires IsRun(gated, steps) && r in After(gated, steps).requests && Offers(gated, steps, r) != []
    ensures var s, first := After(gated, steps), Some(Offers(gated, steps, r)[0]);
            && r in s.slots
            && (Reply(s.requests[r].phase) == first || (Reply(s.requests[r].phase) == None && s.slots[r] == first))
            && (s.requests[r].phase.Awaiting? && s.requests[r].phase.call in s.dispatches
                && Finished(s.dispatches[s.requests[r].phase.call].point) ==>
                  var s' := Next(gated, s, Receive(r));
                  s'.Some? && r in s'.value.requests && s'.value.requests[r].phase == Ended(first))
  {
    ReachableSlots(gated, steps, r);
  }

  predicate Free(gated: set<string>, s: State, step: Step) { Next(gated, s, step).Some? }

  /** The request's own dispatch has come back: dropped, or with every handler of its snapshot launched. */
  predicate CallIsOver(s: State, r: RequestId) {
    && r in s.requests && s.requests[r].phase.Awaiting? && s.requests[r].phase.call in s.dispatches
    && match s.dispatches[s.requests[r].phase.call].point
       case Dropped => true
       case Launching(hs, n) => n >= |hs|
       case _ => false
  }

  /** Exactly when each step of a request can be taken. In flight it is never stuck but on its own dispatch or, with no
      reply there, on its caller's patience. */
  lemma RequestsCanMove(gated: set<string>, s: State, r: RequestId, d: DispatchId)
    ensures Free(gated, s, CallDispatch(r, d)) <==>
              r in s.requests && s.requests[r].phase == Registered && d !in s.dispatches
    ensures Free(gated, s, GiveUp(r)) <==> CallIsOver(s, r)
    ensures Free(gated, s, Receive(r)) <==> CallIsOver(s, r) && r in s.slots && s.slots[r].Some?
    ensures Free(gated, s, CleanUp(r)) <==> r in s.requests && s.requests[r].phase.Ended?
  {
  }

  /** And what it does to the request. */
  lemma RequestsMove(gated: set<string>, s: State, step: Step, r: RequestId)
    requires Free(gated, s, step) && r in s.requests
    ensures var s' := Next(gated, s, step).value;
            && r in s'.requests
            && s'.requests[r].phase ==
               match step
               case CallDispatch(x, d) => (if x == r then Awaiting(d) else s.requests[r].phase)
               case GiveUp(x) => (if x == r then Ended(None) else s.requests[r].phase)
               case Receive(x) => (if x == r && r in s.slots then Ended(s.slots[r]) else s.requests[r].phase)
               case CleanUp(x) => (if x == r then Returned(Reply(s.requests[r].phase)) else s.requests[r].phase)
               case _ => s.requests[r].phase
  {
  }

  /** Callers, the gate and the lists never wait. */
  lemma OthersAreFree(gated: set<string>, s: State, d: DispatchId, e: Event, channels: Table, types: Table)
    ensures Free(gated, s, OpenGate) && Free(gated, s, CloseGate) && Free(gated, s, Reroute(channels, types))
    ensures Free(gated, s, BeginDispatch(d, e)) <==> d !in s.dispatches
  {
  }

  /** A request can begin whenever its id is not that of one in flight. */
  lemma RequestsCanBegin(gated: set<string>, s: State, r: RequestId, e: Event)
    requires PendingIsInFlight(s) && r !in s.requests
    ensures Next(gated, s, BeginRequest(r, e)).Some?
            <==> forall other | InFlight(s, other) :: s.requests[other].event.id != e.id
  {
    if e.id in s.pending {
      assert InFlight(s, s.pending[e.id]);
    }
  }

  // ---------------------------------------------------------------- handlers reached

  /** The handler lists in force after a run: those of its last rerouting. */
  function Routes(steps: seq<Step>): (Table, Table) {
    if steps == [] then (map[], map[])
    else match steps[|steps| - 1]
      case Reroute(channels, types) => (channels, types)
      case _ => Routes(steps[..|steps| - 1])
  }

  lemma RouteStep(gated: set<string>, s: State, step: Step)
    requires Next(gated, s, step).Some?
    ensures var s' := Next(gated, s, step).value;
            (s'.channelHandlers, s'.typeHandlers)
            == if step.Reroute? then (step.channels, step.types) else (s.channelHandlers, s.typeHandlers)
  {
  }

  lemma {:induction false} RoutesInForce(gated: set<string>, steps: seq<Step>)
    requires IsRun(gated, steps)
    ensures (After(gated, steps).channelHandlers, After(gated, steps).typeHandlers) == Routes(steps)
  {
    if steps != [] {
      var front, step := steps[..|steps| - 1], steps[|steps| - 1];
      AfterSnoc(gated, steps);
      RoutesInForce(gated, front);
      RouteStep(gated, After(gated, front), step);
    }
  }

  /** With the lists of a bus, the handlers a dispatch takes are, one by one, those of the modules on the channel and then
      those of the subscriptions on the exact type, each in registration order: what the bus's snapshot returns. */
  lemma SnapshotIsTheBus(b: Bus, s: State, e: Event)
    requires b.Valid() && s.channelHandlers == b.channelHandlers && s.typeHandlers == b.typeHandlers
    ensures var ms, subs := Entries(b.owners, Channel(e.eventType)), Entries(b.subscriptions, e.eventType);
            && |SnapshotOf(s, e)| == |ms| + |subs|
            && (forall i | 0 <= i < |ms| :: SnapshotOf(s, e)[i] == ms[i].handler)
            && (forall i | 0 <= i < |subs| :: SnapshotOf(s, e)[|ms| + i] == subs[i].handler)
            && SnapshotOf(s, e) == Handlers(ms + subs)
  {
    assert Lookup(s.channelHandlers, Channel(e.eventType)) == Entries(b.owners, Channel(e.eventType));
    assert Lookup(s.typeHandlers, e.eventType) == Entries(b.subscriptions, e.eventType);
  }

  /** A subscription is on the list of its own type, once, and on no other. */
  lemma SubscribersExactly(b: Bus, eventType: string, h: NamedHandler)
    requires b.Valid()
    ensures h in Lookup(b.typeHandlers, eventType) <==> Owner(h.id, [eventType], h.handler) in b.subscriptions
    ensures forall o | o in b.subscriptions ::
              CountId(Lookup(b.typeHandlers, eventType), o.id) == if o.keys == [eventType] then 1 else 0
  {
    var list := Entries(b.subscriptions, eventType);
    assert Lookup(b.typeHandlers, eventType) == list;
    EntriesMember(b.subscriptions, eventType, h);
    forall o | o in b.subscriptions ensures eventType in o.keys <==> o.keys == [eventType] {
      assert |o.keys| == 1 && o.keys == [o.keys[0]];
    }
    forall o | o in b.subscriptions ensures CountId(list, o.id) == if o.keys == [eventType] then 1 else 0 {
      EntriesPerOwner(b.subscriptions, eventType, o.id);
      assert o.keys[..0] == [];
      assert Declared(o.keys, eventType) == if o.keys == [eventType] then 1 else 0;
    }
    if h in list {
      var o :| o in b.subscriptions && h == NamedHandler(o.id, o.handler) && eventType in o.keys;
      assert o == Owner(h.id, [eventType], h.handler);
    }
  }
}
