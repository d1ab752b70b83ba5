/** DecodeQuery (engine/gql/types.go), exact against the wire grammar, and the round trip with Encode. */
module GqlDecoder {
  import opened Wrappers
  import opened Bytes
  import opened GqlOpcodes
  import opened GqlTypes

  /** go: deserializeField. The text and the number of bytes it took. */
  function DeserializeField(data: bytes): Option<(bytes, nat)> {
    if |data| < 2 then None
    else
      var l := Value(data[..2]);
      if |data| < 2 + l then None else Some((data[2..2 + l], 2 + l))
  }

  // ---------------------------------------------------------------- parsing as a function

  datatype Parsed = Parsed(strings: seq<bytes>, rest: bytes)

  /** The next n strings, or the index of the first one that is cut short. */
  function ParseStrings(data: bytes, n: nat): (r: Result<Parsed, nat>)
    ensures r.Ok? ==> |r.value.strings| == n
    decreases n
  {
    if n == 0 then Ok(Parsed([], data))
    else match DeserializeField(data)
      case None => Err(0)
      case Some((s, used)) =>
        match ParseStrings(data[used..], n - 1)
        case Err(i) => Err(i + 1)
        case Ok(p) => Ok(Parsed([s] + p.strings, p.rest))
  }

  /** What comes after the strings: limit, offset, and credentials unless the payload ends first. */
  function ParseTail(rest: bytes): Result<(uint32, uint32, bytes), DecodeError> {
    if |rest| < 4 then Err(BadLimit)
    else if |rest| < 8 then Err(BadOffset)
    else
      BEOfValue(rest[..4]); BEOfValue(rest[4..8]); PowersOf256();
      var limit: uint32, offset: uint32 := Value(rest[..4]), Value(rest[4..8]);
      if |rest| == 8 then Ok((limit, offset, []))
      else match DeserializeField(rest[8..])
        case None => Err(BadCredentials)
        case Some((s, _)) => Ok((limit, offset, s))
  }

  function QueryOf(ss: seq<bytes>, op: bytes, tail: (uint32, uint32, bytes)): Query
    requires |ss| >= 5
  {
    Query(ss[1], if ss[0] != [] then ss[0] else op, ss[2], ss[3], ss[4], MapOf(ss[5..]), tail.2, tail.0, tail.1)
  }

  /** The payload after its count byte. */
  function ParseBody(body: bytes, count: nat, op: bytes): Result<Query, DecodeError> {
    match ParseStrings(body, 5 + 2 * count)
    case Err(i) => Err(BadString(i))
    case Ok(p) =>
      match ParseTail(p.rest)
      case Err(e) => Err(e)
      case Ok(tail) => Ok(QueryOf(p.strings, op, tail))
  }

  function ParseQuery(payload: bytes, op: bytes): Result<Query, DecodeError> {
    if payload == [] then Err(EmptyPayload)
    else if payload[0] > MAX_FIELDS_COUNT then Err(TooManyFields)
    else ParseBody(payload[1..], payload[0], op)
  }

  // ---------------------------------------------------------------- the method

  function Resume(ss: seq<bytes>, r: Result<Parsed, nat>): Result<Parsed, nat> {
    match r
    case Err(i) => Err(|ss| + i)
    case Ok(p) => Ok(Parsed(ss + p.strings, p.rest))
  }

  /** Having read the strings ss up to offset off, the rest of the work is to read n - |ss| more from there. */
  ghost predicate ReadSoFar(payload: bytes, n: nat, ss: seq<bytes>, off: nat) {
    && 1 <= off <= |payload| && |ss| <= n
    && ParseStrings(payload[1..], n) == Resume(ss, ParseStrings(payload[off..], n - |ss|))
  }

  lemma ReadNext(payload: bytes, n: nat, ss: seq<bytes>, off: nat)
    requires ReadSoFar(payload, n, ss, off) && |ss| < n
    ensures match DeserializeField(payload[off..])
            case None => ParseStrings(payload[1..], n) == Err(|ss|)
            case Some((s, used)) => ReadSoFar(payload, n, ss + [s], off + used)
  {
    match DeserializeField(payload[off..])
    case None =>
    case Some((s, used)) =>
      assert payload[off..][used..] == payload[off + used..];
      var r := ParseStrings(payload[off + used..], n - |ss| - 1);
      if r.Ok? {
        assert ss + ([s] + r.value.strings) == ss + [s] + r.value.strings;
      }
  }

  /** One header string: the value, the new offset. */
  method ReadString(payload: bytes, off: nat, ghost n: nat, ghost ss: seq<bytes>)
    returns (r: Option<bytes>, next: nat)
    requires ReadSoFar(payload, n, ss, off) && |ss| < n
    ensures r.None? ==> ParseStrings(payload[1..], n) == Err(|ss|)
    ensures r.Some? ==> ReadSoFar(payload, n, ss + [r.value], next)
  {
    ReadNext(payload, n, ss, off);
    match DeserializeField(payload[off..])
    case None => r, next := None, off;
    case Some((s, used)) => r, next := Some(s), off + used;
  }

  lemma MapOfNext(ss: seq<bytes>, k: bytes, v: bytes)
    requires |ss| >= 5
    ensures MapOf((ss + [k] + [v])[5..]) == MapOf(ss[5..])[k := v]
    ensures (ss + [k] + [v])[..5] == ss[..5]
  {
    var ps := (ss + [k] + [v])[5..];
    assert ps[..|ps| - 2] == ss[5..];
  }

  /** The loop over the field entries. */
  method DecodeFields(payload: bytes, start: nat, ghost header: seq<bytes>, fieldCount: nat)
    returns (r: Result<map<bytes, bytes>, DecodeError>, off: nat, ghost ss: seq<bytes>)
    requires |header| == 5 && ReadSoFar(payload, 5 + 2 * fieldCount, header, start)
    ensures r.Err? ==> r.error.BadString? && ParseStrings(payload[1..], 5 + 2 * fieldCount) == Err(r.error.index)
    ensures r.Ok? ==> && |ss| == 5 + 2 * fieldCount && ss[..5] == header
                      && ReadSoFar(payload, |ss|, ss, off) && r.value == MapOf(ss[5..])
  {
    ghost var n := 5 + 2 * fieldCount;
    var fields: map<bytes, bytes> := map[];
    off, ss := start, header;
    for i := 0 to fieldCount
      invariant |ss| == 5 + 2 * i && ss[..5] == header
      invariant ReadSoFar(payload, n, ss, off)
      invariant fields == MapOf(ss[5..])
    {
      if off >= |payload| {
        ReadNext(payload, n, ss, off);
        return Err(BadString(5 + 2 * i)), off, ss;
      }
      var k, kn := ReadString(payload, off, n, ss);
      if k.None? { return Err(BadString(5 + 2 * i)), off, ss; }
      off := kn;
      if off >= |payload| {
        ReadNext(payload, n, ss + [k.value], off);
        return Err(BadString(6 + 2 * i)), off, ss;
      }
      var v, vn := ReadString(payload, off, n, ss + [k.value]);
      if v.None? { return Err(BadString(6 + 2 * i)), off, ss; }
      off := vn;
      fields := fields[k.value := v.value];
      MapOfNext(ss, k.value, v.value);
      ss := ss + [k.value] + [v.value];
    }
    r := Ok(fields);
  }

  /** Limit, offset, and credentials if anything is left. */
  method DecodeTail(payload: bytes, start: nat) returns (r: Result<(uint32, uint32, bytes), DecodeError>)
    requires start <= |payload|
    ensures r == ParseTail(payload[start..])
  {
    var off := start;
    ghost var rest := payload[start..];
    if off + 4 > |payload| { return Err(BadLimit); }
    BEOfValue(payload[off..off + 4]);
    PowersOf256();
    var limit: uint32 := Value(payload[off..off + 4]);
    assert rest[..4] == payload[off..off + 4];
    off := off + 4;
    if off + 4 > |payload| { return Err(BadOffset); }
    BEOfValue(payload[off..off + 4]);
    var offset: uint32 := Value(payload[off..off + 4]);
    assert rest[4..8] == payload[off..off + 4];
    off := off + 4;
    assert rest[8..] == payload[off..];
    var credentials := [];
    if off < |payload| {
      match DeserializeField(payload[off..]) {
        case None => return Err(BadCredentials);
        case Some((s, used)) =>
          credentials := s;
          off := off + used;
      }
    }
    r := Ok((limit, offset, credentials));
  }

  /** The five strings every payload has: operation, namespace, entry id, category, title. */
  method DecodeHeader(payload: bytes, ghost n: nat) returns (r: Result<seq<bytes>, DecodeError>, off: nat)
    requires payload != [] && n >= 5
    ensures r.Err? ==> r.error.BadString? && ParseStrings(payload[1..], n) == Err(r.error.index)
    ensures r.Ok? ==> |r.value| == 5 && ReadSoFar(payload, n, r.value, off)
  {
    off := 1;
    var header := [];
    assert ReadSoFar(payload, n, header, off) by {
      var whole := ParseStrings(payload[1..], n);
      assert whole.Ok? ==> [] + whole.value.strings == whole.value.strings;
    }
    while |header| < 5
      invariant |header| <= 5
      invariant ReadSoFar(payload, n, header, off)
    {
      var s, next := ReadString(payload, off, n, header);
      if s.None? { return Err(BadString(|header|)), off; }
      header, off := header + [s.value], next;
    }
    r := Ok(header);
  }

  /** All strings read: the parse is the list of them and what is left. */
  lemma ReadAll(payload: bytes, ss: seq<bytes>, off: nat)
    requires ReadSoFar(payload, |ss|, ss, off)
    ensures ParseStrings(payload[1..], |ss|) == Ok(Parsed(ss, payload[off..]))
  {
    assert ss + [] == ss;
  }

  /** go: DecodeQuery. Total on every byte string. */
  method DecodeQuery(payload: bytes, op: bytes) returns (r: Result<Query, DecodeError>)
    ensures r == ParseQuery(payload, op)
  {
    if |payload| < 1 { return Err(EmptyPayload); }
    var fieldCount := payload[0];
    if fieldCount > MAX_FIELDS_COUNT { return Err(TooManyFields); }
    var header, off := DecodeHeader(payload, 5 + 2 * fieldCount);
    if header.Err? { return Err(header.error); }
    var operation := if header.value[0] != [] then header.value[0] else op;
    var fields, next, ss := DecodeFields(payload, off, header.value, fieldCount);
    if fields.Err? { return Err(fields.error); }
    ReadAll(payload, ss, next);
    var tail := DecodeTail(payload, next);
    if tail.Err? { return Err(tail.error); }
    var (limit, offset, credentials) := tail.value;
    assert forall i | 0 <= i < 5 :: ss[i] == header.value[i];
    r := Ok(Query(header.value[1], operation, header.value[2], header.value[3], header.value[4],
                  fields.value, credentials, limit, offset));
  }

  // ---------------------------------------------------------------- exactness

  ghost predicate Short(s: bytes) { |s| < 0x1_0000 }

  lemma DeserializeOfField(s: bytes, rest: bytes)
    requires Short(s)
    ensures DeserializeField(Field(s) + rest) == Some((s, FieldSize(s)))
  {
    var data := Field(s) + rest;
    PowersOf256();
    ValueOfBE(|s|, 2);
    hide BE, Value, Pow256;
    assert data[..2] == BE(|s|, 2);
    assert data[2..2 + |s|] == s;
  }

  lemma FieldOfDeserialized(data: bytes)
    requires DeserializeField(data).Some?
    ensures var (s, used) := DeserializeField(data).value;
            Short(s) && data == Field(s) + data[used..]
  {
    PowersOf256();
    BEOfValue(data[..2]);
    hide BE, Value, Pow256;
    var l := Value(data[..2]);
    assert data == data[..2] + data[2..2 + l] + data[2 + l..];
  }

  lemma {:induction false} ParseOfConcat(ss: seq<bytes>, rest: bytes)
    requires forall s | s in ss :: Short(s)
    ensures ParseStrings(Concat(ss) + rest, |ss|) == Ok(Parsed(ss, rest))
  {
    if ss == [] {
      assert [] + rest == rest;
    } else {
      var data := Concat(ss) + rest;
      Assoc(Field(ss[0]), Concat(ss[1..]), rest);
      DeserializeOfField(ss[0], Concat(ss[1..]) + rest);
      assert data[FieldSize(ss[0])..] == Concat(ss[1..]) + rest;
      ParseOfConcat(ss[1..], rest);
      assert [ss[0]] + ss[1..] == ss;
    }
  }

  lemma {:induction false} ParsedIsConcat(data: bytes, n: nat)
    ensures match ParseStrings(data, n)
            case Err(i) => i < n
            case Ok(p) => |p.strings| == n && (forall s | s in p.strings :: Short(s)) && data == Concat(p.strings) + p.rest
    decreases n
  {
    if n == 0 {
      assert Concat([]) + data == data;
    } else if DeserializeField(data).Some? {
      var (s, used) := DeserializeField(data).value;
      FieldOfDeserialized(data);
      ParsedIsConcat(data[used..], n - 1);
      match ParseStrings(data[used..], n - 1)
      case Err(_) =>
      case Ok(p) =>
        Assoc(Field(s), Concat(p.strings), p.rest);
        assert ([s] + p.strings)[1..] == p.strings;
    }
  }

  /** A payload as the grammar writes it. The decoder ignores whatever follows the credentials. */
  datatype Wire = Wire(count: nat, strings: seq<bytes>, limit: uint32, offset: uint32, trailer: Option<(bytes, bytes)>)

  ghost predicate WellFormed(w: Wire) {
    && w.count <= MAX_FIELDS_COUNT && |w.strings| == 5 + 2 * w.count
    && (forall s | s in w.strings :: Short(s))
    && (w.trailer.Some? ==> Short(w.trailer.value.0))
  }

  function TrailerBytes(t: Option<(bytes, bytes)>): bytes {
    match t
    case None => []
    case Some((creds, junk)) => Field(creds) + junk
  }

  ghost function WireBytes(w: Wire): bytes
    requires WellFormed(w)
  {
    [w.count] + (Concat(w.strings) + TailBytes(w))
  }

  function WireCredentials(w: Wire): bytes {
    if w.trailer.Some? then w.trailer.value.0 else []
  }

  function TailBytes(w: Wire): bytes {
    BE(w.limit, 4) + BE(w.offset, 4) + TrailerBytes(w.trailer)
  }

  lemma TailOfBytes(w: Wire)
    requires WellFormed(w)
    ensures ParseTail(TailBytes(w)) == Ok((w.limit, w.offset, WireCredentials(w)))
  {
    var rest := TailBytes(w);
    PowersOf256();
    ValueOfBE(w.limit, 4);
    ValueOfBE(w.offset, 4);
    assert rest[..4] == BE(w.limit, 4) && rest[4..8] == BE(w.offset, 4) && rest[8..] == TrailerBytes(w.trailer);
    if w.trailer.Some? {
      DeserializeOfField(w.trailer.value.0, w.trailer.value.1);
    }
  }

  lemma BytesOfTail(count: nat, ss: seq<bytes>, rest: bytes) returns (w: Wire)
    requires ParseTail(rest).Ok?
    ensures w.count == count && w.strings == ss && rest == TailBytes(w)
    ensures w.trailer.Some? ==> Short(w.trailer.value.0)
    ensures ParseTail(rest) == Ok((w.limit, w.offset, WireCredentials(w)))
  {
    PowersOf256();
    BEOfValue(rest[..4]);
    BEOfValue(rest[4..8]);
    assert rest == rest[..4] + rest[4..8] + rest[8..];
    var trailer := None;
    if |rest| > 8 {
      FieldOfDeserialized(rest[8..]);
      var (s, used) := DeserializeField(rest[8..]).value;
      trailer := Some((s, rest[8..][used..]));
    }
    w := Wire(count, ss, Value(rest[..4]), Value(rest[4..8]), trailer);
  }

  /** The query a wire form stands for. */
  function WireQuery(w: Wire, op: bytes): Query
    requires |w.strings| >= 5
  {
    QueryOf(w.strings, op, (w.limit, w.offset, WireCredentials(w)))
  }

  lemma ParseOfWire(w: Wire, op: bytes)
    requires WellFormed(w)
    ensures ParseQuery(WireBytes(w), op) == Ok(WireQuery(w, op))
  {
    var payload, body := WireBytes(w), Concat(w.strings) + TailBytes(w);
    ParseOfConcat(w.strings, TailBytes(w));
    TailOfBytes(w);
    assert ParseBody(body, w.count, op) == Ok(WireQuery(w, op));
    assert payload[0] == w.count && payload[1..] == body;
  }

  lemma WireOfBody(body: bytes, count: nat, op: bytes) returns (w: Wire)
    requires ParseBody(body, count, op).Ok?
    ensures w.count == count && |w.strings| == 5 + 2 * count && (forall s | s in w.strings :: Short(s))
    ensures w.trailer.Some? ==> Short(w.trailer.value.0)
    ensures body == Concat(w.strings) + TailBytes(w)
    ensures ParseBody(body, count, op) == Ok(WireQuery(w, op))
  {
    ParsedIsConcat(body, 5 + 2 * count);
    var p := ParseStrings(body, 5 + 2 * count).value;
    w := BytesOfTail(count, p.strings, p.rest);
  }

  lemma WireOfParse(payload: bytes, op: bytes) returns (w: Wire)
    requires ParseQuery(payload, op).Ok?
    ensures WellFormed(w) && payload == WireBytes(w)
    ensures ParseQuery(payload, op) == Ok(WireQuery(w, op))
  {
    w := WireOfBody(payload[1..], payload[0], op);
    assert payload == [payload[0]] + payload[1..];
  }

  /** The decoder accepts a byte string as q exactly when the grammar derives it from q's parts. */
  lemma DecodesExactlyTheGrammar(payload: bytes, op: bytes, q: Query)
    ensures ParseQuery(payload, op) == Ok(q) <==>
            exists w: Wire :: WellFormed(w) && payload == WireBytes(w)
                              && q == WireQuery(w, op)
  {
    if ParseQuery(payload, op) == Ok(q) {
      var w := WireOfParse(payload, op);
    }
    forall w: Wire | WellFormed(w) && payload == WireBytes(w)
      ensures ParseQuery(payload, op) == Ok(WireQuery(w, op))
    {
      ParseOfWire(w, op);
    }
  }

  // ---------------------------------------------------------------- maps on the wire

  function EntryKey(ps: seq<bytes>, i: nat): bytes
    requires 2 * i < |ps|
  {
    ps[2 * i]
  }

  /** Entry i of n has key k and value v, and no later entry has key k. */
  ghost predicate IsLastEntry(ps: seq<bytes>, n: nat, i: nat, k: bytes, v: bytes)
    requires |ps| == 2 * n
  {
    && i < n && EntryKey(ps, i) == k && ps[2 * i + 1] == v
    && (forall j: nat | i < j < n :: EntryKey(ps, j) != k)
  }

  /** A key takes the value of its last entry. */
  lemma {:induction false} LastEntryWins(ps: seq<bytes>, n: nat, k: bytes, v: bytes)
    requires |ps| == 2 * n
    ensures (k in MapOf(ps) && MapOf(ps)[k] == v) <==> exists i: nat :: IsLastEntry(ps, n, i, k, v)
  {
    if n > 0 {
      var m, front := n - 1, ps[..2 * n - 2];
      LastEntryWins(front, m, k, v);
      assert forall i: nat | i < m :: EntryKey(front, i) == EntryKey(ps, i);
      assert EntryKey(ps, n - 1) == ps[2 * n - 2];
      if ps[2 * n - 2] == k {
        assert ps[2 * n - 1] == v ==> IsLastEntry(ps, n, n - 1, k, v);
      } else {
        if i: nat :| IsLastEntry(ps, n, i, k, v) {
          assert EntryKey(front, i) == EntryKey(ps, i);
          assert IsLastEntry(front, m, i, k, v);
        }
        if i: nat :| IsLastEntry(front, m, i, k, v) {
          assert EntryKey(front, i) == EntryKey(ps, i);
          assert IsLastEntry(ps, n, i, k, v);
        }
      }
    }
  }

  lemma {:induction false} KeysAtMost(ps: seq<bytes>, n: nat)
    requires |ps| == 2 * n
    ensures |MapOf(ps)| <= n
  {
    if n > 0 {
      var front := MapOf(ps[..|ps| - 2]);
      KeysAtMost(ps[..|ps| - 2], n - 1);
      var k := ps[|ps| - 2];
      assert MapOf(ps).Keys == front.Keys + {k};
    }
  }

  /** Whatever order the map was walked in, the entries read back to it. */
  lemma {:induction false} MapOfPairs(order: seq<bytes>, m: map<bytes, bytes>)
    requires forall k | k in order :: k in m
    ensures forall k :: k in MapOf(Pairs(order, m)) <==> k in order
    ensures forall k | k in order :: MapOf(Pairs(order, m))[k] == m[k]
  {
    if order == [] {
    } else {
      var front := order[..|order| - 1];
      MapOfPairs(front, m);
      var ps := Pairs(order, m);
      assert ps[..|ps| - 2] == Pairs(front, m);
      assert order == front + [order[|order| - 1]];
    }
  }

  lemma {:induction false} PairsAreShort(order: seq<bytes>, m: map<bytes, bytes>)
    requires forall k | k in order :: k in m
    requires forall k | k in m :: Short(k) && Short(m[k])
    ensures forall s | s in Pairs(order, m) :: Short(s)
  {
    if order != [] {
      PairsAreShort(order[..|order| - 1], m);
    }
  }

  // ---------------------------------------------------------------- round trip

  /** The queries the wire format can carry. */
  ghost predicate Encodable(q: Query) {
    && (forall s | s in Header(q) :: Short(s))
    && Short(q.credentials)
    && |q.fields| <= MAX_FIELDS_COUNT
    && (forall k | k in q.fields :: Short(k) && Short(q.fields[k]))
  }

  /** The encoder's output is the grammar's, for the queries it can carry. */
  lemma PayloadIsWire(q: Query, order: seq<bytes>) returns (w: Wire)
    requires Encodable(q) && IsOrder(order, q.fields)
    ensures WellFormed(w) && Payload(q, order) == WireBytes(w)
    ensures w == Wire(|q.fields|, Header(q) + Pairs(order, q.fields), q.limit, q.offset, Some((q.credentials, [])))
  {
    PairsAreShort(order, q.fields);
    w := Wire(|q.fields|, Header(q) + Pairs(order, q.fields), q.limit, q.offset, Some((q.credentials, [])));
    var body := Concat(w.strings);
    assert Payload(q, order) == [CountByte(|q.fields|)] + (body + (BE(q.limit, 4) + BE(q.offset, 4) + Field(q.credentials)));
    assert Field(q.credentials) + [] == Field(q.credentials);
  }

  lemma QueryOfHeader(q: Query, ps: seq<bytes>, op: bytes, tail: (uint32, uint32, bytes))
    ensures QueryOf(Header(q) + ps, op, tail)
            == Query(q.namespace, if q.operation != [] then q.operation else op, q.entryID, q.category, q.title,
                     MapOf(ps), tail.2, tail.0, tail.1)
  {
    assert (Header(q) + ps)[5..] == ps;
  }

  /** Decoding an encoded query gives it back, with any default operation that does not replace its own. */
  lemma RoundTrip(q: Query, order: seq<bytes>, op: bytes)
    requires Encodable(q) && IsOrder(order, q.fields)
    requires q.operation != [] || op == []
    ensures ParseQuery(Payload(q, order), op) == Ok(q)
  {
    hide Payload, ParseQuery, MapOf, Pairs, QueryOf, Header, WireBytes;
    var w := PayloadIsWire(q, order);
    MapOfPairs(order, q.fields);
    assert MapOf(Pairs(order, q.fields)) == q.fields;
    QueryOfHeader(q, Pairs(order, q.fields), op, (q.limit, q.offset, q.credentials));
    assert WireQuery(w, op) == q;
    ParseOfWire(w, op);
  }

  lemma DecodedIsEncodable(payload: bytes)
    requires ParseQuery(payload, []).Ok?
    ensures Encodable(ParseQuery(payload, []).value)
  {
    var w := WireOfParse(payload, []);
    var q := ParseQuery(payload, []).value;
    KeysAtMost(w.strings[5..], w.count);
    forall k | k in q.fields ensures Short(k) && Short(q.fields[k]) {
      LastEntryWins(w.strings[5..], w.count, k, q.fields[k]);
    }
  }

  /** The round trip holds for exactly the queries the format can carry: longer strings have their
      length cut to 16 bits, and past 100 fields the count byte lies. */
  lemma RoundTripExactly(q: Query, order: seq<bytes>)
    requires IsOrder(order, q.fields)
    ensures ParseQuery(Payload(q, order), []) == Ok(q) <==> Encodable(q)
  {
    if Encodable(q) {
      RoundTrip(q, order, []);
    } else if ParseQuery(Payload(q, order), []) == Ok(q) {
      DecodedIsEncodable(Payload(q, order));
    }
  }

  /** Every accepted payload, however written, re-encodes in any map order to one that decodes to the same query. */
  lemma Normalises(payload: bytes, order: seq<bytes>)
    requires ParseQuery(payload, []).Ok?
    requires IsOrder(order, ParseQuery(payload, []).value.fields)
    ensures ParseQuery(Payload(ParseQuery(payload, []).value, order), []) == ParseQuery(payload, [])
  {
    DecodedIsEncodable(payload);
    RoundTripExactly(ParseQuery(payload, []).value, order);
  }
}
