/** Handler registration on the event bus (engine/kernel/bus.go): ordered handler lists per upper-cased
    channel and per event type, grown by Register and Subscribe, filtered in place on the way out. */
module BusRegistry {
  /** A handler function, by identity. */
  type Handler = nat

  datatype NamedHandler = NamedHandler(id: string, handler: Handler)

  /** What is put on the lists together: a module on its channels, or a subscription on its one event type. */
  datatype Owner = Owner(id: string, keys: seq<string>, handler: Handler)

  type Table = map<string, seq<NamedHandler>>

  function Lookup(t: Table, key: string): seq<NamedHandler> {
    if key in t then t[key] else []
  }

  // ---------------------------------------------------------------- specification

  /** How often key occurs among keys. */
  function Declared(keys: seq<string>, key: string): nat {
    if keys == [] then 0
    else Declared(keys[..|keys| - 1], key) + if keys[|keys| - 1] == key then 1 else 0
  }

  function Times(n: nat, h: NamedHandler): seq<NamedHandler> {
    if n == 0 then [] else Times(n - 1, h) + [h]
  }

  /** The list for key when exactly these owners are registered, in this order. */
  function Entries(order: seq<Owner>, key: string): seq<NamedHandler> {
    if order == [] then []
    else
      var o := order[|order| - 1];
      Entries(order[..|order| - 1], key) + Times(Declared(o.keys, key), NamedHandler(o.id, o.handler))
  }

  function Without(hs: seq<NamedHandler>, id: string): seq<NamedHandler> {
    if hs == [] then []
    else
      var h := hs[|hs| - 1];
      var front := Without(hs[..|hs| - 1], id);
      if h.id != id then front + [h] else front
  }

  function Remove(order: seq<Owner>, id: string): seq<Owner> {
    if order == [] then []
    else
      var o := order[|order| - 1];
      var front := Remove(order[..|order| - 1], id);
      if o.id != id then front + [o] else front
  }

  predicate Registered(order: seq<Owner>, id: string) {
    exists i | 0 <= i < |order| :: order[i].id == id
  }

  predicate DistinctIds(order: seq<Owner>) {
    forall i, j | 0 <= i < j < |order| :: order[i].id != order[j].id
  }

  /** The table says exactly what the owners' order says. */
  ghost predicate Represents(t: Table, order: seq<Owner>) {
    forall key :: Lookup(t, key) == Entries(order, key)
  }

  function CountId(hs: seq<NamedHandler>, id: string): nat {
    if hs == [] then 0 else CountId(hs[..|hs| - 1], id) + if hs[|hs| - 1].id == id then 1 else 0
  }

  // ---------------------------------------------------------------- lemmas

  lemma {:induction false} WithoutConcat(a: seq<NamedHandler>, b: seq<NamedHandler>, id: string)
    ensures Without(a + b, id) == Without(a, id) + Without(b, id)
  {
    if b == [] {
      assert a + b == a;
    } else {
      WithoutConcat(a, b[..|b| - 1], id);
      assert (a + b)[..|a + b| - 1] == a + b[..|b| - 1];
    }
  }

  /** The filter drops id's entries and nothing else, and keeps the order: survivor i moves up by the ones dropped
      before it. */
  lemma {:induction false} WithoutAt(hs: seq<NamedHandler>, id: string, i: nat)
    requires i < |hs| && hs[i].id != id
    ensures |Without(hs, id)| + CountId(hs, id) == |hs|
    ensures CountId(hs[..i], id) <= i && i - CountId(hs[..i], id) < |Without(hs, id)|
    ensures Without(hs, id)[i - CountId(hs[..i], id)] == hs[i]
  {
    WithoutLength(hs, id);
    WithoutLength(hs[..i], id);
    var n := |hs| - 1;
    if i < n {
      WithoutAt(hs[..n], id, i);
      assert hs[..n][..i] == hs[..i];
    }
  }

  lemma {:induction false} WithoutLength(hs: seq<NamedHandler>, id: string)
    ensures |Without(hs, id)| + CountId(hs, id) == |hs|
  {
    if hs != [] {
      WithoutLength(hs[..|hs| - 1], id);
    }
  }

  lemma {:induction false} WithoutTimes(n: nat, h: NamedHandler, id: string)
    ensures Without(Times(n, h), id) == if h.id == id then [] else Times(n, h)
  {
    if n > 0 {
      WithoutTimes(n - 1, h, id);
    }
  }

  lemma {:induction false} WithoutEntries(order: seq<Owner>, id: string, key: string)
    ensures Without(Entries(order, key), id) == Entries(Remove(order, id), key)
  {
    if order != [] {
      var front, o := order[..|order| - 1], order[|order| - 1];
      WithoutEntries(front, id, key);
      WithoutConcat(Entries(front, key), Times(Declared(o.keys, key), NamedHandler(o.id, o.handler)), id);
      WithoutTimes(Declared(o.keys, key), NamedHandler(o.id, o.handler), id);
      EntriesSnoc(Remove(front, id), o, key);
    }
  }

  lemma EntriesSnoc(order: seq<Owner>, o: Owner, key: string)
    ensures Entries(order + [o], key)
            == Entries(order, key) + Times(Declared(o.keys, key), NamedHandler(o.id, o.handler))
  {
    assert (order + [o])[..|order|] == order;
  }

  lemma {:induction false} RemoveMembers(order: seq<Owner>, id: string)
    ensures forall o :: o in Remove(order, id) <==> o in order && o.id != id
  {
    if order != [] {
      var front, o := order[..|order| - 1], order[|order| - 1];
      RemoveMembers(front, id);
      assert order == front + [o];
    }
  }

  lemma {:induction false} RemoveKeepsDistinct(order: seq<Owner>, id: string)
    requires DistinctIds(order)
    ensures DistinctIds(Remove(order, id))
  {
    if order != [] {
      var front, o := order[..|order| - 1], order[|order| - 1];
      RemoveKeepsDistinct(front, id);
      RemoveMembers(front, id);
      assert forall x | x in Remove(front, id) :: x.id != o.id;
    }
  }

  lemma {:induction false} RemoveAbsent(order: seq<Owner>, id: string)
    requires !Registered(order, id)
    ensures Remove(order, id) == order
  {
    if order != [] {
      RemoveAbsent(order[..|order| - 1], id);
    }
  }

  lemma RemovedIsGone(order: seq<Owner>, id: string)
    ensures !Registered(Remove(order, id), id)
  {
    RemoveMembers(order, id);
    assert forall i | 0 <= i < |Remove(order, id)| :: Remove(order, id)[i] in Remove(order, id);
  }

  /** Keys the owner of id does not declare hold no entry of it. */
  lemma {:induction false} UndeclaredUntouched(order: seq<Owner>, id: string, key: string)
    requires forall o | o in order && o.id == id :: Declared(o.keys, key) == 0
    ensures Entries(Remove(order, id), key) == Entries(order, key)
  {
    if order != [] {
      var front, o := order[..|order| - 1], order[|order| - 1];
      UndeclaredUntouched(front, id, key);
      assert o in order;
      EntriesSnoc(Remove(front, id), o, key);
    }
  }

  /** An owner's entries on a list number exactly how often it declares the key; others have none. */
  lemma {:induction false} EntriesPerOwner(order: seq<Owner>, key: string, id: string)
    requires DistinctIds(order)
    ensures !Registered(order, id) ==> CountId(Entries(order, key), id) == 0
    ensures forall o | o in order && o.id == id :: CountId(Entries(order, key), id) == Declared(o.keys, key)
  {
    if order != [] {
      var front, o := order[..|order| - 1], order[|order| - 1];
      EntriesPerOwner(front, key, id);
      CountConcat(Entries(front, key), Times(Declared(o.keys, key), NamedHandler(o.id, o.handler)), id);
      CountTimes(Declared(o.keys, key), NamedHandler(o.id, o.handler), id);
      assert order == front + [o];
    }
  }

  lemma {:induction false} CountConcat(a: seq<NamedHandler>, b: seq<NamedHandler>, id: string)
    ensures CountId(a + b, id) == CountId(a, id) + CountId(b, id)
  {
    if b == [] {
      assert a + b == a;
    } else {
      CountConcat(a, b[..|b| - 1], id);
      assert (a + b)[..|a + b| - 1] == a + b[..|b| - 1];
    }
  }

  lemma {:induction false} CountTimes(n: nat, h: NamedHandler, id: string)
    ensures CountId(Times(n, h), id) == if h.id == id then n else 0
  {
    if n > 0 {
      CountTimes(n - 1, h, id);
      assert Times(n, h)[..n - 1] == Times(n - 1, h) by { TimesLength(n - 1, h); }
    }
  }

  lemma TimesLength(n: nat, h: NamedHandler)
    ensures |Times(n, h)| == n
  {
  }

  // ---------------------------------------------------------------- runs

  datatype Op = Reg(owner: Owner) | Unreg(id: string)

  function OpId(op: Op): string {
    match op case Reg(o) => o.id case Unreg(id) => id
  }

  /** A second registration under a taken id is refused. */
  function Apply(order: seq<Owner>, op: Op): seq<Owner> {
    match op
    case Reg(o) => if Registered(order, o.id) then order else order + [o]
    case Unreg(id) => Remove(order, id)
  }

  function Run(order: seq<Owner>, ops: seq<Op>): seq<Owner> {
    if ops == [] then order else Apply(Run(order, ops[..|ops| - 1]), ops[|ops| - 1])
  }

  lemma {:induction false} RemoveSnoc(order: seq<Owner>, o: Owner, id: string)
    ensures Remove(order + [o], id) == if o.id != id then Remove(order, id) + [o] else Remove(order, id)
  {
    assert (order + [o])[..|order|] == order;
  }

  lemma {:induction false} RemoveCommutes(order: seq<Owner>, a: string, b: string)
    ensures Remove(Remove(order, a), b) == Remove(Remove(order, b), a)
  {
    if order != [] {
      var front, o := order[..|order| - 1], order[|order| - 1];
      RemoveCommutes(front, a, b);
      RemoveSnoc(Remove(front, a), o, b);
      RemoveSnoc(Remove(front, b), o, a);
    }
  }

  lemma RemoveKeepsOthers(order: seq<Owner>, id: string, other: string)
    requires id != other
    ensures Registered(Remove(order, id), other) <==> Registered(order, other)
  {
    RemoveMembers(order, id);
    if Registered(order, other) {
      var i :| 0 <= i < |order| && order[i].id == other;
      assert order[i] in Remove(order, id);
    }
    if Registered(Remove(order, id), other) {
      var i :| 0 <= i < |Remove(order, id)| && Remove(order, id)[i].id == other;
      assert Remove(order, id)[i] in order;
    }
  }

  lemma {:induction false} RemoveAfterRun(order: seq<Owner>, ops: seq<Op>, id: string)
    requires forall op | op in ops :: OpId(op) != id
    ensures Remove(Run(order, ops), id) == Run(Remove(order, id), ops)
  {
    if ops != [] {
      var front, op := ops[..|ops| - 1], ops[|ops| - 1];
      RemoveAfterRun(order, front, id);
      var mid := Run(order, front);
      assert op in ops;
      match op
      case Reg(o) =>
        RemoveKeepsOthers(mid, id, o.id);
        RemoveSnoc(mid, o, id);
      case Unreg(other) =>
        RemoveCommutes(mid, other, id);
    }
  }

  /** Unregistering undoes registering, whatever other owners do in between. */
  lemma UnregisterUndoesRegister(order: seq<Owner>, o: Owner, ops: seq<Op>)
    requires !Registered(order, o.id)
    requires forall op | op in ops :: OpId(op) != o.id
    ensures Apply(Run(Apply(order, Reg(o)), ops), Unreg(o.id)) == Run(order, ops)
  {
    RemoveSnoc(order, o, o.id);
    RemoveAbsent(order, o.id);
    assert Remove(order + [o], o.id) == order;
    RemoveAfterRun(order + [o], ops, o.id);
  }

  // ---------------------------------------------------------------- the lists, step by step

  /** filtered := handlers[:0]: survivors are moved to the front of the same backing array. */
  method FilterInPlace(handlers: array<NamedHandler>, id: string) returns (n: nat)
    modifies handlers
    ensures n <= handlers.Length
    ensures handlers[..n] == Without(old(handlers[..]), id)
  {
    n := 0;
    var i := 0;
    while i < handlers.Length
      invariant 0 <= n <= i <= handlers.Length
      invariant handlers[..n] == Without(old(handlers[..i]), id)
      invariant forall j | i <= j < handlers.Length :: handlers[j] == old(handlers[j])
    {
      var h := handlers[i];
      assert h == old(handlers[..])[i];
      assert old(handlers[..i + 1])[..i] == old(handlers[..i]);
      if h.id != id {
        handlers[n] := h;
        n := n + 1;
      }
      i := i + 1;
    }
    assert old(handlers[..i]) == old(handlers[..]);
  }

  ghost predicate AppendedOn(t: Table, keys: seq<string>, h: NamedHandler, r: Table) {
    forall key :: Lookup(r, key) == Lookup(t, key) + Times(Declared(keys, key), h)
  }

  lemma AppendedMeans(t: Table, keys: seq<string>, h: NamedHandler, r: Table)
    requires AppendedOn(t, keys, h, r)
    ensures forall key :: Lookup(r, key) == Lookup(t, key) + Times(Declared(keys, key), h)
  {
  }

  lemma AppendedOnce(t: Table, key: string, h: NamedHandler, r: Table)
    requires AppendedOn(t, [key], h, r)
    ensures forall other :: Lookup(r, other) == Lookup(t, other) + if other == key then [h] else []
  {
    forall other ensures Lookup(r, other) == Lookup(t, other) + if other == key then [h] else [] {
      assert Lookup(r, other) == Lookup(t, other) + Times(Declared([key], other), h);
      assert [key][..0] == [];
      assert Declared([key], other) == if other == key then 1 else 0;
      assert Times(1, h) == Times(0, h) + [h];
    }
  }

  lemma AppendNext(t: Table, keys: seq<string>, h: NamedHandler, r: Table, next: string)
    requires AppendedOn(t, keys, h, r)
    ensures AppendedOn(t, keys + [next], h, r[next := Lookup(r, next) + [h]])
  {
    hide Declared, Times;
    var r' := r[next := Lookup(r, next) + [h]];
    forall key ensures Lookup(r', key) == Lookup(t, key) + Times(Declared(keys + [next], key), h) {
      assert Lookup(r, key) == Lookup(t, key) + Times(Declared(keys, key), h);
      DeclaredNext(keys, next, key, h);
    }
  }

  lemma DeclaredNext(keys: seq<string>, next: string, key: string, h: NamedHandler)
    ensures var n, n' := Declared(keys, key), Declared(keys + [next], key);
            if next == key then n' == n + 1 && Times(n', h) == Times(n, h) + [h] else n' == n
  {
    assert (keys + [next])[..|keys|] == keys;
  }

  method AppendAll(t: Table, keys: seq<string>, h: NamedHandler) returns (r: Table)
    ensures AppendedOn(t, keys, h, r)
  {
    r := t;
    for i := 0 to |keys|
      invariant AppendedOn(t, keys[..i], h, r)
    {
      assert keys[..i + 1] == keys[..i] + [keys[i]];
      AppendNext(t, keys[..i], h, r, keys[i]);
      r := r[keys[i] := Lookup(r, keys[i]) + [h]];
    }
    assert keys[..|keys|] == keys;
  }

  method Filtered(list: seq<NamedHandler>, id: string) returns (r: seq<NamedHandler>)
    ensures r == Without(list, id)
  {
    var handlers := new NamedHandler[|list|](j requires 0 <= j < |list| => list[j]);
    assert handlers[..] == list;
    var n := FilterInPlace(handlers, id);
    r := handlers[..n];
  }

  function FilteredList(t: Table, keys: seq<string>, id: string, key: string): seq<NamedHandler> {
    if Declared(keys, key) > 0 then Without(Lookup(t, key), id) else Lookup(t, key)
  }

  ghost predicate FilteredOn(t: Table, keys: seq<string>, id: string, r: Table) {
    forall key :: Lookup(r, key) == FilteredList(t, keys, id, key)
  }

  lemma FilterNext(t: Table, keys: seq<string>, id: string, r: Table, next: string, list: seq<NamedHandler>)
    requires FilteredOn(t, keys, id, r)
    requires list == Without(Lookup(r, next), id)
    ensures FilteredOn(t, keys + [next], id, r[next := list])
  {
    WithoutTwice(Lookup(t, next), id);
    assert (keys + [next])[..|keys|] == keys;
    assert Lookup(r, next) == FilteredList(t, keys, id, next);
    forall key | key != next ensures Lookup(r[next := list], key) == FilteredList(t, keys + [next], id, key) {
      assert Lookup(r, key) == FilteredList(t, keys, id, key);
    }
  }

  method FilterAll(t: Table, keys: seq<string>, id: string) returns (r: Table)
    ensures FilteredOn(t, keys, id, r)
  {
    r := t;
    for i := 0 to |keys|
      invariant FilteredOn(t, keys[..i], id, r)
    {
      assert keys[..i + 1] == keys[..i] + [keys[i]];
      var list := Filtered(Lookup(r, keys[i]), id);
      FilterNext(t, keys[..i], id, r, keys[i], list);
      r := r[keys[i] := list];
    }
    assert keys[..|keys|] == keys;
  }

  lemma {:induction false} WithoutTwice(hs: seq<NamedHandler>, id: string)
    ensures Without(Without(hs, id), id) == Without(hs, id)
  {
    if hs != [] {
      var h := hs[|hs| - 1];
      var front := Without(hs[..|hs| - 1], id);
      WithoutTwice(hs[..|hs| - 1], id);
      assert (front + [h])[..|front|] == front;
    }
  }

  lemma RemovedLists(t: Table, order: seq<Owner>, id: string, r: Table)
    requires Represents(t, order) && Represents(r, Remove(order, id))
    ensures forall key :: Lookup(r, key) == Without(Lookup(t, key), id)
  {
    forall key ensures Lookup(r, key) == Without(Lookup(t, key), id) {
      WithoutEntries(order, id, key);
      assert Lookup(t, key) == Entries(order, key) && Lookup(r, key) == Entries(Remove(order, id), key);
    }
  }

  lemma AppendRepresents(t: Table, order: seq<Owner>, o: Owner, r: Table)
    requires Represents(t, order)
    requires AppendedOn(t, o.keys, NamedHandler(o.id, o.handler), r)
    ensures Represents(r, order + [o])
  {
    assert (order + [o])[..|order|] == order;
  }

  lemma FilterRepresents(t: Table, order: seq<Owner>, o: Owner, r: Table)
    requires Represents(t, order) && DistinctIds(order) && o in order
    requires FilteredOn(t, o.keys, o.id, r)
    ensures Represents(r, Remove(order, o.id))
  {
    forall key ensures Lookup(r, key) == Entries(Remove(order, o.id), key) {
      WithoutEntries(order, o.id, key);
      if Declared(o.keys, key) == 0 {
        UndeclaredUntouched(order, o.id, key);
      }
    }
  }

  lemma FilterRepresentsKey(t: Table, order: seq<Owner>, eventType: string, id: string, r: Table)
    requires Represents(t, order) && FilteredOn(t, [eventType], id, r)
    requires forall s | s in order && s.id == id :: s.keys == [eventType]
    ensures Represents(r, Remove(order, id))
  {
    forall key ensures Lookup(r, key) == Entries(Remove(order, id), key) {
      assert Lookup(r, key) == FilteredList(t, [eventType], id, key);
      WithoutEntries(order, id, key);
      assert [eventType][..0] == [];
      if key != eventType {
        UndeclaredUntouched(order, id, key);
      }
    }
  }

  // ---------------------------------------------------------------- the bus

  datatype BusModule = BusModule(id: string, channels: seq<string>, handle: Handler)

  function Upper(channels: seq<string>, upper: string -> string): (r: seq<string>)
    ensures |r| == |channels|
  {
    seq(|channels|, i requires 0 <= i < |channels| => upper(channels[i]))
  }

  /** One of the names, upper-cased, is the channel. */
  predicate Covers(names: seq<string>, upper: string -> string, channel: string) {
    exists i | 0 <= i < |names| :: upper(names[i]) == channel
  }

  lemma UpperMember(names: seq<string>, upper: string -> string, channel: string)
    ensures channel in Upper(names, upper) <==> Covers(names, upper, channel)
  {
    var r := Upper(names, upper);
    assert forall i | 0 <= i < |names| :: r[i] == upper(names[i]);
  }

  function GatedBy(names: seq<string>, upper: string -> string): (gated: set<string>)
    ensures forall c :: c in gated <==> Covers(names, upper, c)
  {
    set i | 0 <= i < |names| :: upper(names[i])
  }

  /** go: WithGatedChannels */
  method WithGatedChannels(channels: seq<string>, upper: string -> string) returns (gated: set<string>)
    ensures gated == GatedBy(channels, upper)
  {
    gated := {};
    for i := 0 to |channels|
      invariant gated == GatedBy(channels[..i], upper)
    {
      assert channels[..i + 1] == channels[..i] + [channels[i]];
      CoversNext(channels[..i], channels[i], upper);
      gated := gated + {upper(channels[i])};
    }
    assert channels[..|channels|] == channels;
  }

  lemma CoversNext(names: seq<string>, name: string, upper: string -> string)
    ensures GatedBy(names + [name], upper) == GatedBy(names, upper) + {upper(name)}
  {
    var more := names + [name];
    assert more[|names|] == name && forall i | 0 <= i < |names| :: more[i] == names[i];
    forall c ensures Covers(more, upper, c) <==> Covers(names, upper, c) || c == upper(name) {
      if i :| 0 <= i < |names| && upper(names[i]) == c {
        assert upper(more[i]) == c;
      }
      if c == upper(name) {
        assert upper(more[|names|]) == c;
      }
    }
  }

  /** With an upper-casing that is stable, a channel can be named at all exactly when it is upper-case already. */
  lemma CoverableExactly(upper: string -> string, channel: string)
    requires forall name :: upper(upper(name)) == upper(name)
    ensures (exists names :: Covers(names, upper, channel)) <==> upper(channel) == channel
  {
    if upper(channel) == channel {
      assert upper([channel][0]) == channel;
      assert Covers([channel], upper, channel);
    }
    if names :| Covers(names, upper, channel) {
      var i :| 0 <= i < |names| && upper(names[i]) == channel;
      assert upper(upper(names[i])) == upper(names[i]);
    }
  }

  lemma {:induction false} DeclaredMember(keys: seq<string>, key: string)
    ensures Declared(keys, key) > 0 <==> key in keys
  {
    if keys != [] {
      DeclaredMember(keys[..|keys| - 1], key);
      assert keys == keys[..|keys| - 1] + [keys[|keys| - 1]];
    }
  }

  lemma {:induction false} DeclaredCounts(keys: seq<string>, key: string)
    ensures Declared(keys, key) == multiset(keys)[key]
  {
    if keys != [] {
      var front, last := keys[..|keys| - 1], keys[|keys| - 1];
      DeclaredCounts(front, key);
      assert keys == front + [last];
    }
  }

  lemma {:induction false} TimesMember(n: nat, h: NamedHandler, x: NamedHandler)
    ensures x in Times(n, h) <==> n > 0 && x == h
  {
    if n > 0 {
      TimesMember(n - 1, h, x);
    }
  }

  /** The entries of a list are those of the owners that declare its key. */
  lemma {:induction false} EntriesMember(order: seq<Owner>, key: string, h: NamedHandler)
    ensures h in Entries(order, key) <==> exists o :: o in order && h == NamedHandler(o.id, o.handler) && key in o.keys
  {
    if order != [] {
      var front, o := order[..|order| - 1], order[|order| - 1];
      EntriesMember(front, key, h);
      TimesMember(Declared(o.keys, key), NamedHandler(o.id, o.handler), h);
      DeclaredMember(o.keys, key);
      assert order == front + [o];
    }
  }

  class Bus {
    const gatedChannels: set<string>
    var modules: map<string, BusModule>
    var channelHandlers: Table
    var typeHandlers: Table
    const upper: string -> string

    /** The registered modules and the live subscriptions, oldest first. */
    ghost var owners: seq<Owner>
    ghost var subscriptions: seq<Owner>

    function OwnerOf(m: BusModule): Owner {
      Owner(m.id, Upper(m.channels, upper), m.handle)
    }

    ghost predicate ModulesAre(ms: map<string, BusModule>, order: seq<Owner>) {
      && (forall id :: id in ms <==> Registered(order, id))
      && (forall id | id in ms :: ms[id].id == id && OwnerOf(ms[id]) in order)
    }

    /** A handler stands on a channel's list exactly when it is a registered module's and one of the names that module
        declares, upper-cased, is that channel as written. */
    lemma ReachedExactly(channel: string, h: NamedHandler)
      requires Valid()
      ensures h in Lookup(channelHandlers, channel)
              <==> h.id in modules && h.handler == modules[h.id].handle && Covers(modules[h.id].channels, upper, channel)
    {
      EntriesMember(owners, channel, h);
      assert Lookup(channelHandlers, channel) == Entries(owners, channel);
      if h.id in modules {
        var m := modules[h.id];
        UpperMember(m.channels, upper, channel);
        assert forall o | o in owners && o.id == h.id :: o == OwnerOf(m);
      }
    }

    lemma AddKeepsModules(ms: map<string, BusModule>, order: seq<Owner>, m: BusModule)
      requires ModulesAre(ms, order) && DistinctIds(order) && m.id !in ms
      ensures ModulesAre(ms[m.id := m], order + [OwnerOf(m)]) && DistinctIds(order + [OwnerOf(m)])
    {
      var all := order + [OwnerOf(m)];
      assert all[|order|].id == m.id;
      assert forall i | 0 <= i < |order| :: all[i] == order[i];
    }

    lemma RemoveKeepsModules(ms: map<string, BusModule>, order: seq<Owner>, id: string)
      requires ModulesAre(ms, order)
      ensures ModulesAre(ms - {id}, Remove(order, id))
    {
      RemoveMembers(order, id);
      RemovedIsGone(order, id);
      forall other | other != id ensures Registered(Remove(order, id), other) <==> Registered(order, other) {
        RemoveKeepsOthers(order, id, other);
      }
    }

    ghost predicate Valid()
      reads this
    {
      && DistinctIds(owners) && DistinctIds(subscriptions)
      && Represents(channelHandlers, owners) && Represents(typeHandlers, subscriptions)
      && ModulesAre(modules, owners)
      && (forall s | s in subscriptions :: |s.keys| == 1)
    }

    /** go: NewBus, with the names given to WithGatedChannels, if any. */
    constructor (upper: string -> string, gated: seq<string>)
      ensures Valid() && this.upper == upper && gatedChannels == GatedBy(gated, upper)
      ensures modules == map[] && owners == [] && subscriptions == []
    {
      var marked := WithGatedChannels(gated, upper);
      gatedChannels := marked;
      modules, channelHandlers, typeHandlers := map[], map[], map[];
      this.upper := upper;
      owners, subscriptions := [], [];
    }

    /** go: Register. false is the "already registered" error. */
    method Register(m: BusModule) returns (ok: bool)
      requires Valid()
      modifies this
      ensures Valid()
      ensures ok <==> m.id !in old(modules)
      ensures modules == if ok then old(modules)[m.id := m] else old(modules)
      ensures owners == Apply(old(owners), Reg(OwnerOf(m)))
      ensures forall key :: Lookup(channelHandlers, key) == old(Lookup(channelHandlers, key))
                + if ok then Times(Declared(Upper(m.channels, upper), key), NamedHandler(m.id, m.handle)) else []
      ensures typeHandlers == old(typeHandlers) && subscriptions == old(subscriptions)
    {
      hide Represents, AppendedOn;
      if m.id in modules { return false; }
      ghost var before := channelHandlers;
      modules := modules[m.id := m];
      var table := AppendAll(channelHandlers, Upper(m.channels, upper), NamedHandler(m.id, m.handle));
      AppendRepresents(channelHandlers, owners, OwnerOf(m), table);
      channelHandlers := table;
      AddKeepsModules(old(modules), owners, m);
      AppendedMeans(before, Upper(m.channels, upper), NamedHandler(m.id, m.handle), table);
      owners := owners + [OwnerOf(m)];
      return true;
    }

    /** go: Unregister */
    method Unregister(moduleID: string)
      requires Valid()
      modifies this
      ensures Valid()
      ensures modules == old(modules) - {moduleID}
      ensures owners == Apply(old(owners), Unreg(moduleID))
      ensures forall key :: Lookup(channelHandlers, key) == Without(old(Lookup(channelHandlers, key)), moduleID)
      ensures typeHandlers == old(typeHandlers) && subscriptions == old(subscriptions)
    {
      hide Represents, FilteredOn;
      if moduleID !in modules {
        RemoveAbsent(owners, moduleID);
        RemovedLists(channelHandlers, owners, moduleID, channelHandlers);
        return;
      }
      var m := modules[moduleID];
      var table := FilterAll(channelHandlers, Upper(m.channels, upper), moduleID);
      FilterRepresents(channelHandlers, owners, OwnerOf(m), table);
      RemovedLists(channelHandlers, owners, moduleID, table);
      channelHandlers := table;
      modules := modules - {moduleID};
      RemoveKeepsModules(old(modules), owners, moduleID);
      RemoveKeepsDistinct(owners, moduleID);
      owners := Remove(owners, moduleID);
    }

    /** go: Subscribe, given the id newID drew; the unsubscribe closure remembers the event type and the id. */
    method Subscribe(eventType: string, handler: Handler, id: string)
      requires Valid() && !Registered(subscriptions, id)
      modifies this
      ensures Valid()
      ensures subscriptions == Apply(old(subscriptions), Reg(Owner(id, [eventType], handler)))
      ensures forall key :: Lookup(typeHandlers, key) == old(Lookup(typeHandlers, key))
                + if key == eventType then [NamedHandler(id, handler)] else []
      ensures channelHandlers == old(channelHandlers) && modules == old(modules) && owners == old(owners)
    {
      var o := Owner(id, [eventType], handler);
      var table := AppendAll(typeHandlers, [eventType], NamedHandler(id, handler));
      AppendRepresents(typeHandlers, subscriptions, o, table);
      AppendedOnce(typeHandlers, eventType, NamedHandler(id, handler), table);
      typeHandlers := table;
      subscriptions := subscriptions + [o];
    }

    /** The closure returned by Subscribe; calling it again changes nothing. */
    method Unsubscribe(eventType: string, id: string)
      requires Valid()
      requires forall s | s in subscriptions && s.id == id :: s.keys == [eventType]
      modifies this
      ensures Valid()
      ensures subscriptions == Apply(old(subscriptions), Unreg(id))
      ensures forall key :: Lookup(typeHandlers, key) == Without(old(Lookup(typeHandlers, key)), id)
      ensures channelHandlers == old(channelHandlers) && modules == old(modules) && owners == old(owners)
    {
      var table := FilterAll(typeHandlers, [eventType], id);
      RemoveMembers(subscriptions, id);
      RemoveKeepsDistinct(subscriptions, id);
      FilterRepresentsKey(typeHandlers, subscriptions, eventType, id, table);
      RemovedLists(typeHandlers, subscriptions, id, table);
      typeHandlers := table;
      subscriptions := Remove(subscriptions, id);
    }

    /** The part of Dispatch under the read lock: channel handlers, then handlers of the exact type, copied out. */
    method Snapshot(channel: string, eventType: string) returns (hs: seq<Handler>)
      requires Valid()
      ensures hs == Handlers(Entries(owners, channel) + Entries(subscriptions, eventType))
    {
      hs := [];
      var fromChannel := Lookup(channelHandlers, channel);
      for i := 0 to |fromChannel|
        invariant hs == Handlers(fromChannel[..i])
      {
        hs := hs + [fromChannel[i].handler];
      }
      var fromType := Lookup(typeHandlers, eventType);
      for i := 0 to |fromType|
        invariant hs == Handlers(fromChannel + fromType[..i])
      {
        hs := hs + [fromType[i].handler];
      }
      assert fromType[..|fromType|] == fromType;
    }
  }

  function Handlers(hs: seq<NamedHandler>): (r: seq<Handler>)
    ensures |r| == |hs|
  {
    seq(|hs|, i requires 0 <= i < |hs| => hs[i].handler)
  }
}
