/** From a query to the wire and back through the validator. */
module GqlEndToEnd {
  import opened Wrappers
  import opened Bytes
  import opened Sums
  import opened GqlOpcodes
  import opened GqlTypes
  import opened GqlDecoder
  import opened GqlFrame
  import opened GqlValidator

  /** The queries a client may send: what stage 1 accepts, under the opcode its own operation selects. */
  ghost predicate Sendable(q: Query) {
    && Clean(q, if IsWriteOperation(q.operation) then OPCODE_MUTATE else OPCODE_QUERY)
    && Short(q.credentials)
  }

  lemma SendableIsEncodable(q: Query)
    requires Sendable(q)
    ensures Encodable(q)
  {
    if IsWriteOperation(q.operation) {
      WriteOperationNames(q.operation);
    } else {
      ReadOperationNames(q.operation);
    }
  }

  lemma {:induction false} SumAtMost(s: set<bytes>, f: bytes -> nat, bound: nat)
    requires forall k | k in s :: f(k) <= bound
    ensures SumOver(s, f) <= |s| * bound
    decreases |s|
  {
    hide SumOver;
    if s == {} {
      SumNone(f);
    } else {
      var k :| k in s;
      SumExtract(s, f, k);
      SumAtMost(s - {k}, f, bound);
      OneMore(|s - {k}|, bound);
    }
  }

  lemma OneMore(n: nat, bound: nat)
    ensures (n + 1) * bound == n * bound + bound
  {
  }

  lemma {:induction false} SizeOfPairs(order: seq<bytes>, m: map<bytes, bytes>, s: set<bytes>)
    requires s <= m.Keys && |order| == |s| && forall k :: k in order <==> k in s
    ensures |Concat(Pairs(order, m))| == SumOver(s, EntrySize(m))
  {
    if order != [] {
      var k, front := order[|order| - 1], order[..|order| - 1];
      assert order == front + [k];
      LastIsNew(order, s);
      SumExtract(s, EntrySize(m), k);
      SizeOfPairs(front, m, s - {k});
      PairsSnoc(front, m, k);
    }
  }

  /** An order as long as its set of keys repeats none. */
  lemma LastIsNew(order: seq<bytes>, s: set<bytes>)
    requires order != [] && |order| == |s| && forall k :: k in order <==> k in s
    ensures order[|order| - 1] !in order[..|order| - 1]
  {
    var front := order[..|order| - 1];
    if order[|order| - 1] in front {
      assert s == (set k | k in front);
      SetNoLarger(front);
    }
  }

  lemma {:induction false} SetNoLarger(order: seq<bytes>)
    ensures |set k | k in order| <= |order|
  {
    if order != [] {
      var front := order[..|order| - 1];
      SetNoLarger(front);
      assert (set k | k in order) == (set k | k in front) + {order[|order| - 1]};
    }
  }

  /** Exact fill: the bytes written in any order number what the first loop, in any other order, counted. */
  lemma FillsExactly(q: Query, order: seq<bytes>)
    requires IsOrder(order, q.fields)
    ensures |Payload(q, order)| == WireSize(q)
  {
    SizeOfPairs(order, q.fields, q.fields.Keys);
    ConcatAppend(Header(q), Pairs(order, q.fields));
    ConcatFive([], q.operation, q.namespace, q.entryID, q.category, q.title);
  }

  lemma FitsInAFrame(q: Query)
    requires Sendable(q)
    ensures WireSize(q) <= 16 * 1024 * 1024 == MAX_PAYLOAD_SIZE
  {
    SendableIsEncodable(q);
    if IsWriteOperation(q.operation) {
      WriteOperationNames(q.operation);
    } else {
      ReadOperationNames(q.operation);
    }
    SumAtMost(q.fields.Keys, EntrySize(q.fields), 4 + MAX_FIELD_KEY_LEN + MAX_FIELD_VALUE_LEN);
    assert |q.fields.Keys| == |q.fields|;
  }

  /** A query sent in any map order arrives as itself, exactly when it is sendable and the session allows it. */
  lemma EndToEnd(q: Query, order: seq<bytes>, session: Option<Session>)
    requires IsOrder(order, q.fields)
    ensures (exists f :: ParseFrame(FrameBytes(QueryFrame(q, order))) == Ok(f) && Admits(f, session, q))
            <==> Sendable(q) && Authorised(q, session)
  {
    var sent := QueryFrame(q, order);
    EncodeThenDecode(sent);
    FillsExactly(q, order);
    RoundTripExactly(q, order);
    if Sendable(q) && Authorised(q, session) {
      SendableIsEncodable(q);
      FitsInAFrame(q);
      assert Admits(sent.(payloadSize := |sent.payload|), session, q);
    }
    if f :| ParseFrame(FrameBytes(sent)) == Ok(f) && Admits(f, session, q) {
      assert ParseQuery(sent.payload, []) == Ok(q);
    }
  }
}
