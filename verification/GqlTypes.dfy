/** The GQL query codec (engine/gql/types.go): a length-prefixed encoder that walks a map
    twice in whatever order Go picks each time, and a decoder for arbitrary bytes. */
module GqlTypes {
  import opened Bytes
  import opened GqlOpcodes
  import opened Sums

  datatype Query = Query(
    namespace: bytes, operation: bytes, entryID: bytes, category: bytes, title: bytes,
    fields: map<bytes, bytes>, credentials: bytes, limit: uint32, offset: uint32)

  /** Why a payload was refused; BadString counts from 0 = operation over the header and the field entries. */
  datatype DecodeError =
    | EmptyPayload | TooManyFields | BadString(index: nat) | BadLimit | BadOffset | BadCredentials

  // ---------------------------------------------------------------- wire format

  /** A string as serializeField writes it: the length is cut to 16 bits, the text is not. */
  function Field(s: bytes): (r: bytes)
    ensures |r| == FieldSize(s)
  {
    BE(|s| % 0x1_0000, 2) + s
  }

  function FieldSize(s: bytes): nat { 2 + |s| }

  function Concat(ss: seq<bytes>): bytes {
    if ss == [] then [] else Field(ss[0]) + Concat(ss[1..])
  }

  /** The field entries as one list k0, v0, k1, v1, ... in the order visited. */
  function Pairs(order: seq<bytes>, m: map<bytes, bytes>): (r: seq<bytes>)
    requires forall k | k in order :: k in m
    ensures |r| == 2 * |order|
  {
    if order == [] then []
    else Pairs(order[..|order| - 1], m) + [order[|order| - 1], m[order[|order| - 1]]]
  }

  /** A list of entries read back into a map, one assignment after another. */
  function MapOf(ps: seq<bytes>): map<bytes, bytes> {
    if |ps| < 2 then map[] else MapOf(ps[..|ps| - 2])[ps[|ps| - 2] := ps[|ps| - 1]]
  }

  /** One way Go may walk the map: every key, once. */
  ghost predicate IsOrder(order: seq<bytes>, m: map<bytes, bytes>) {
    |order| == |m| && (forall k :: k in order <==> k in m)
  }

  function CountByte(n: nat): byte {
    if n % 256 > MAX_FIELDS_COUNT then MAX_FIELDS_COUNT else n % 256
  }

  function Header(q: Query): seq<bytes> {
    [q.operation, q.namespace, q.entryID, q.category, q.title]
  }

  function Payload(q: Query, order: seq<bytes>): bytes
    requires forall k | k in order :: k in q.fields
  {
    [CountByte(|q.fields|)] + Concat(Header(q) + Pairs(order, q.fields))
    + BE(q.limit, 4) + BE(q.offset, 4) + Field(q.credentials)
  }

  /** The first byte is the number of fields, as far as it goes: cut to eight bits, then to 100. */
  lemma CountWritten(q: Query, order: seq<bytes>)
    requires forall k | k in order :: k in q.fields
    ensures Payload(q, order) != []
    ensures |q.fields| <= 100 ==> Payload(q, order)[0] == |q.fields|
    ensures |q.fields| > 100 ==>
              Payload(q, order)[0] == if |q.fields| % 256 <= 100 then |q.fields| % 256 else 100
  {
  }

  lemma {:induction false} ConcatAppend(ss: seq<bytes>, ts: seq<bytes>)
    ensures Concat(ss + ts) == Concat(ss) + Concat(ts)
  {
    hide Field;
    if ss == [] {
      assert ss + ts == ts;
    } else {
      ConcatAppend(ss[1..], ts);
      assert (ss + ts)[1..] == ss[1..] + ts;
    }
  }

  // ---------------------------------------------------------------- exact fill

  ghost function EntrySize(m: map<bytes, bytes>): bytes -> nat {
    k => if k in m then FieldSize(k) + FieldSize(m[k]) else 0
  }

  /** The size the first map loop computes, as a number that mentions no order. */
  ghost function WireSize(q: Query): nat {
    1 + FieldSize(q.operation) + FieldSize(q.namespace) + FieldSize(q.entryID) + FieldSize(q.category)
    + FieldSize(q.title) + SumOver(q.fields.Keys, EntrySize(q.fields)) + 4 + 4 + FieldSize(q.credentials)
  }

  /** go: serializeField */
  method SerializeField(buf: array<byte>, offset: nat, s: bytes) returns (next: nat)
    requires offset + FieldSize(s) <= buf.Length
    modifies buf
    ensures next == offset + FieldSize(s)
    ensures buf[..next] == old(buf[..offset]) + Field(s)
    ensures buf[next..] == old(buf[next..])
  {
    Copy(buf, offset, BE(|s| % 0x1_0000, 2));
    assert buf[..offset + 2] == old(buf[..offset]) + BE(|s| % 0x1_0000, 2);
    assert buf[offset + 2 + |s|..] == old(buf[offset + 2 + |s|..]);
    Copy(buf, offset + 2, s);
    next := offset + 2 + |s|;
  }

  /** Visit the map once more, adding up sizes. */
  method FieldsSize(m: map<bytes, bytes>) returns (size: nat)
    ensures size == SumOver(m.Keys, EntrySize(m))
  {
    size := 0;
    var remaining := m.Keys;
    while remaining != {}
      invariant remaining <= m.Keys
      invariant size + SumOver(remaining, EntrySize(m)) == SumOver(m.Keys, EntrySize(m))
      decreases |remaining|
    {
      var k :| k in remaining;
      SumExtract(remaining, EntrySize(m), k);
      size := size + FieldSize(k) + FieldSize(m[k]);
      remaining := remaining - {k};
    }
  }

  method SerializeEntry(buf: array<byte>, offset: nat, k: bytes, v: bytes) returns (next: nat)
    requires offset + FieldSize(k) + FieldSize(v) <= buf.Length
    modifies buf
    ensures next == offset + FieldSize(k) + FieldSize(v)
    ensures buf[..next] == old(buf[..offset]) + (Field(k) + Field(v))
  {
    next := SerializeField(buf, offset, k);
    next := SerializeField(buf, next, v);
  }

  /** The second loop over the map: each entry goes to the running offset. */
  method SerializeFields(buf: array<byte>, offset: nat, m: map<bytes, bytes>) returns (next: nat, ghost order: seq<bytes>)
    requires offset + SumOver(m.Keys, EntrySize(m)) <= buf.Length
    modifies buf
    ensures IsOrder(order, m)
    ensures next == offset + SumOver(m.Keys, EntrySize(m))
    ensures buf[..next] == old(buf[..offset]) + Concat(Pairs(order, m))
  {
    next, order := offset, [];
    var remaining := m.Keys;
    ghost var start := buf[..offset];
    while remaining != {}
      invariant remaining <= m.Keys
      invariant |order| + |remaining| == |m|
      invariant forall k :: k in order <==> k in m && k !in remaining
      invariant next + SumOver(remaining, EntrySize(m)) == offset + SumOver(m.Keys, EntrySize(m))
      invariant next <= buf.Length
      invariant buf[..next] == start + Concat(Pairs(order, m))
      decreases |remaining|
    {
      var k :| k in remaining;
      SumExtract(remaining, EntrySize(m), k);
      PairsSnoc(order, m, k);
      Assoc(start, Concat(Pairs(order, m)), Field(k) + Field(m[k]));
      next := SerializeEntry(buf, next, k, m[k]);
      order := order + [k];
      remaining := remaining - {k};
    }
  }

  lemma PairsSnoc(order: seq<bytes>, m: map<bytes, bytes>, k: bytes)
    requires k in m && forall j | j in order :: j in m
    ensures Concat(Pairs(order + [k], m)) == Concat(Pairs(order, m)) + (Field(k) + Field(m[k]))
  {
    assert (order + [k])[..|order|] == order;
    ConcatAppend(Pairs(order, m), [k, m[k]]);
    ConcatAppend([k], [m[k]]);
    assert [k] + [m[k]] == [k, m[k]];
    assert Concat([k]) == Field(k) + Concat([]);
    assert Concat([m[k]]) == Field(m[k]) + Concat([]);
  }

  method PutUint32(buf: array<byte>, offset: nat, v: uint32) returns (next: nat)
    requires offset + 4 <= buf.Length
    modifies buf
    ensures next == offset + 4
    ensures buf[..next] == old(buf[..offset]) + BE(v, 4)
  {
    Copy(buf, offset, BE(v, 4));
    next := offset + 4;
  }

  method SerializeHeader(buf: array<byte>, offset: nat, q: Query) returns (next: nat)
    requires offset + FieldSize(q.operation) + FieldSize(q.namespace) + FieldSize(q.entryID)
             + FieldSize(q.category) + FieldSize(q.title) <= buf.Length
    modifies buf
    ensures next == offset + FieldSize(q.operation) + FieldSize(q.namespace) + FieldSize(q.entryID)
                    + FieldSize(q.category) + FieldSize(q.title)
    ensures buf[..next] == old(buf[..offset]) + Concat(Header(q))
  {
    next := SerializeField(buf, offset, q.operation);
    next := SerializeField(buf, next, q.namespace);
    next := SerializeField(buf, next, q.entryID);
    next := SerializeField(buf, next, q.category);
    next := SerializeField(buf, next, q.title);
    ConcatFive(old(buf[..offset]), q.operation, q.namespace, q.entryID, q.category, q.title);
  }

  lemma ConcatFive(p: bytes, a: bytes, b: bytes, c: bytes, d: bytes, e: bytes)
    ensures p + Concat([a, b, c, d, e]) == p + Field(a) + Field(b) + Field(c) + Field(d) + Field(e)
  {
    assert Concat([e]) == Field(e) + Concat([]);
    assert [d, e][1..] == [e];
    assert Concat([d, e]) == Field(d) + Field(e);
    assert [c, d, e][1..] == [d, e];
    assert Concat([c, d, e]) == Field(c) + (Field(d) + Field(e));
    assert [b, c, d, e][1..] == [c, d, e];
    assert Concat([b, c, d, e]) == Field(b) + (Field(c) + (Field(d) + Field(e)));
    assert [a, b, c, d, e][1..] == [b, c, d, e];
  }

  /** go: GQLQuery.Encode. Every write lands in the buffer sized beforehand, and the last one ends it. */
  method Encode(q: Query) returns (buf: array<byte>, ghost order: seq<bytes>)
    ensures fresh(buf) && buf.Length == WireSize(q)
    ensures IsOrder(order, q.fields)
    ensures buf[..] == Payload(q, order)
  {
    hide Concat, Field, BE, SumOver;
    var size := 1;
    size := size + FieldSize(q.operation);
    size := size + FieldSize(q.namespace);
    size := size + FieldSize(q.entryID);
    size := size + FieldSize(q.category);
    size := size + FieldSize(q.title);
    var fieldsSize := FieldsSize(q.fields);
    size := size + fieldsSize;
    size := size + 4;
    size := size + 4;
    size := size + FieldSize(q.credentials);

    buf := new byte[size](_ => 0);
    var off := 0;
    buf[off] := CountByte(|q.fields|);
    off := off + 1;
    ghost var count := [CountByte(|q.fields|)];
    assert buf[..off] == count;
    off := SerializeHeader(buf, off, q);
    off, order := SerializeFields(buf, off, q.fields);
    Assoc(count, Concat(Header(q)), Concat(Pairs(order, q.fields)));
    ConcatAppend(Header(q), Pairs(order, q.fields));
    ghost var body := count + Concat(Header(q) + Pairs(order, q.fields));
    assert buf[..off] == body;
    off := PutUint32(buf, off, q.limit);
    off := PutUint32(buf, off, q.offset);
    off := SerializeField(buf, off, q.credentials);
    assert buf[..] == buf[..off];
  }

}
