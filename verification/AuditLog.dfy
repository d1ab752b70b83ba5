/** The hash-chained audit ring (engine/security/audit.go). SHA-256 is an arbitrary function to 32 bytes;
    nothing is assumed about collisions, they are exhibited. */
module AuditLog {
  import opened Bytes

  type int64 = x: int | -0x8000_0000_0000_0000 <= x < 0x8000_0000_0000_0000
  type Digest = d: bytes | |d| == 32 witness seq(32, _ => 0)

  function Zero(): Digest { seq(32, _ => 0) }

  /** What a caller hands to Append; origin is the Go field Module. */
  datatype Record = Record(timestamp: int64, level: bytes, origin: bytes, message: bytes, subjectID: bytes)

  /** A stored record. prevHash is the slice a.lastHash[:], a reference to the log's own array. */
  datatype SecurityEvent = SecurityEvent(record: Record, prevHash: array<byte>, hash: Digest)

  // ---------------------------------------------------------------- the chain

  function Text(r: Record): bytes { r.level + r.origin + r.message + r.subjectID }

  /** The bytes hashed after the previous hash: the timestamp in two's complement, then the texts run together. */
  function Content(r: Record): bytes {
    BE(r.timestamp % 0x1_0000_0000_0000_0000, 8) + Text(r)
  }

  function Chain(H: bytes -> Digest, start: Digest, rs: seq<Record>): Digest
    decreases |rs|, 0
  {
    if rs == [] then start else H(Preimage(H, start, rs, |rs| - 1))
  }

  /** What is hashed to make entry i. */
  function Preimage(H: bytes -> Digest, start: Digest, rs: seq<Record>, i: nat): bytes
    requires i < |rs|
    decreases i, 1
  {
    Chain(H, start, rs[..i]) + Content(rs[i])
  }

  /** Eight bytes of time, then all four texts, in this order. */
  lemma ContentLayout(r: Record)
    ensures |Content(r)| == 8 + |r.level| + |r.origin| + |r.message| + |r.subjectID|
    ensures Value(Content(r)[..8]) == r.timestamp % 0x1_0000_0000_0000_0000
    ensures Content(r)[8..] == r.level + r.origin + r.message + r.subjectID
  {
    PowersOf256();
    ValueOfBE(r.timestamp % 0x1_0000_0000_0000_0000, 8);
    assert Content(r)[..8] == BE(r.timestamp % 0x1_0000_0000_0000_0000, 8);
  }

  /** Records that differ in one field only are told apart, whichever it is. */
  lemma OneFieldCounts(a: Record, b: Record)
    requires a != b
    requires || b == a.(timestamp := b.timestamp) || b == a.(level := b.level) || b == a.(origin := b.origin)
             || b == a.(message := b.message) || b == a.(subjectID := b.subjectID)
    ensures Content(a) != Content(b)
  {
    ContentMeans(a, b);
    Cancel(a.level + a.origin + a.message, b.level + b.origin + b.message, a.subjectID, b.subjectID);
    Cancel(a.level + a.origin, b.level + b.origin, a.message, b.message);
    Cancel(a.level, b.level, a.origin, b.origin);
  }

  /** Equal concatenations with equally long ends have equal parts. */
  lemma Cancel(x: bytes, y: bytes, v: bytes, w: bytes)
    ensures x + v == y + w && (|x| == |y| || |v| == |w|) ==> x == y && v == w
  {
    if x + v == y + w && (|x| == |y| || |v| == |w|) {
      assert (x + v)[..|x|] == x && (y + w)[..|y|] == y;
      assert (x + v)[|x|..] == v && (y + w)[|y|..] == w;
    }
  }

  lemma ContentMeans(a: Record, b: Record)
    ensures Content(a) == Content(b)
            <==> && a.timestamp == b.timestamp
                 && a.level + a.origin + a.message + a.subjectID == b.level + b.origin + b.message + b.subjectID
  {
    var m := 0x1_0000_0000_0000_0000;
    PowersOf256();
    ValueOfBE(a.timestamp % m, 8);
    ValueOfBE(b.timestamp % m, 8);
    if Content(a) == Content(b) {
      assert Content(a)[..8] == BE(a.timestamp % m, 8) && Content(a)[8..] == Text(a);
      assert Content(b)[..8] == BE(b.timestamp % m, 8) && Content(b)[8..] == Text(b);
    }
  }

  ghost predicate SameContents(xs: seq<Record>, ys: seq<Record>) {
    && |xs| == |ys|
    && forall i | 0 <= i < |xs| :: SameContent(xs[i], ys[i])
  }

  predicate SameContent(a: Record, b: Record) {
    && a.timestamp == b.timestamp
    && a.level + a.origin + a.message + a.subjectID == b.level + b.origin + b.message + b.subjectID
  }

  /** Two chains of the same length that end in the same hash started from the same hash and agree entry by
      entry on timestamp and text; otherwise position i holds two different inputs with one hash. */
  lemma {:induction false} TamperEvidence(H: bytes -> Digest, g: Digest, xs: seq<Record>, h: Digest, ys: seq<Record>)
    returns (i: nat)
    requires |xs| == |ys| && Chain(H, g, xs) == Chain(H, h, ys)
    ensures (g == h && SameContents(xs, ys)) ||
            (i < |xs| && Preimage(H, g, xs, i) != Preimage(H, h, ys, i)
             && H(Preimage(H, g, xs, i)) == H(Preimage(H, h, ys, i)))
  {
    i := 0;
    if xs != [] {
      var n := |xs| - 1;
      if Preimage(H, g, xs, n) != Preimage(H, h, ys, n) {
        i := n;
      } else {
        var a, b := Chain(H, g, xs[..n]), Chain(H, h, ys[..n]);
        assert (a + Content(xs[n]))[..32] == a && (a + Content(xs[n]))[32..] == Content(xs[n]);
        assert (b + Content(ys[n]))[..32] == b && (b + Content(ys[n]))[32..] == Content(ys[n]);
        ContentMeans(xs[n], ys[n]);
        i := TamperEvidence(H, g, xs[..n], h, ys[..n]);
        if i < n {
          assert xs[..n][..i] == xs[..i] && ys[..n][..i] == ys[..i];
        }
      }
    }
  }

  /** The other way round: what the chain does not see. */
  lemma {:induction false} SameContentsSameChain(H: bytes -> Digest, start: Digest, xs: seq<Record>, ys: seq<Record>)
    requires SameContents(xs, ys)
    ensures Chain(H, start, xs) == Chain(H, start, ys)
  {
    if xs != [] {
      var n := |xs| - 1;
      SameContentsSameChain(H, start, xs[..n], ys[..n]);
      ContentMeans(xs[n], ys[n]);
    }
  }

  /** Inputs i and j of the chain are different and have one hash, or input j hashes to where the chain starts. */
  ghost predicate HashFails(H: bytes -> Digest, start: Digest, rs: seq<Record>, i: nat, j: nat) {
    && i <= j < |rs|
    && ((i < j && Preimage(H, start, rs, i) != Preimage(H, start, rs, j)
         && H(Preimage(H, start, rs, i)) == H(Preimage(H, start, rs, j)))
        || H(Preimage(H, start, rs, j)) == start)
  }

  /** A chain that comes back to a hash it had before exhibits a failure of the hash function. */
  lemma {:induction false} RepeatFails(H: bytes -> Digest, start: Digest, rs: seq<Record>, m: nat) returns (i: nat, j: nat)
    requires m < |rs| && Chain(H, start, rs[..m]) == Chain(H, start, rs)
    ensures HashFails(H, start, rs, i, j)
    decreases m
  {
    i, j := 0, |rs| - 1;
    if m > 0 {
      i := m - 1;
      assert rs[..m][..i] == rs[..i];
      var a, b := Chain(H, start, rs[..i]), Chain(H, start, rs[..j]);
      if Preimage(H, start, rs, i) == Preimage(H, start, rs, j) {
        assert (a + Content(rs[i]))[..32] == a && (b + Content(rs[j]))[..32] == b;
        assert rs[..j][..i] == rs[..i];
        var n := j;
        i, j := RepeatFails(H, start, rs[..n], i);
        assert rs[..n][..i] == rs[..i] && rs[..n][..j] == rs[..j];
      }
    }
  }

  /** Field boundaries are not hashed: two different records that no hash function tells apart. */
  lemma BoundariesUnprotected(H: bytes -> Digest, start: Digest, t: int64)
    ensures var x, y := Record(t, Ascii("WARN"), Ascii("auth"), [], []), Record(t, Ascii("WARNauth"), [], [], []);
            x != y && Chain(H, start, [x]) == Chain(H, start, [y])
  {
    var x, y := Record(t, Ascii("WARN"), Ascii("auth"), [], []), Record(t, Ascii("WARNauth"), [], [], []);
    assert |x.level| == 4 && |y.level| == 8;
    assert Text(x) == Text(y);
    SameContentsSameChain(H, start, [x], [y]);
  }

  // ---------------------------------------------------------------- the ring

  function Min(a: nat, b: nat): nat { if a < b then a else b }

  lemma ModBelow(x: nat, c: nat)
    requires 0 < c && x < c
    ensures x % c == x
  {
  }

  lemma ModShift(x: nat, c: nat)
    requires 0 < c <= x
    ensures x % c == (x - c) % c
  {
    var q, r := (x - c) / c, (x - c) % c;
    assert x == c * (q + 1) + r;
    QuotientUnique(x, c, q + 1, r);
  }

  lemma TimesMonotone(c: nat, a: nat, b: nat)
    ensures a <= b ==> c * a <= c * b
  {
  }

  lemma QuotientUnique(x: nat, c: nat, q: nat, r: nat)
    requires 0 < c && r < c && x == c * q + r
    ensures x % c == r
  {
    var q', r' := x / c, x % c;
    assert c * q' + r' == c * q + r;
    TimesMonotone(c, q' + 1, q);
    TimesMonotone(c, q + 1, q');
  }

  /** Index arithmetic of the ring, without division. */
  function Wrap(x: nat, c: nat): nat {
    if x < c then x else x - c
  }

  lemma WrapIsMod(x: nat, c: nat)
    requires 0 < c && x < 2 * c
    ensures x % c == Wrap(x, c) < c
  {
    if x < c {
      ModBelow(x, c);
    } else {
      ModShift(x, c);
      ModBelow(x - c, c);
    }
  }

  lemma WrapTwice(head: nat, a: nat, b: nat, c: nat)
    requires head < c && a + b < c
    ensures Wrap(Wrap(head + a, c) + b, c) == Wrap(head + (a + b), c)
  {
  }

  method CellIndex(x: nat, c: nat) returns (idx: nat)
    requires 0 < c && x < 2 * c
    ensures idx == Wrap(x, c) < c
  {
    WrapIsMod(x, c);
    idx := x % c;
  }

  /** Where Recent starts: n events back from the end of the ring. */
  method StartCell(head: nat, size: nat, n: nat, c: nat) returns (start: nat)
    requires head < c && n <= size <= c
    ensures start == Wrap(head + size - n, c)
  {
    ModShift(head + size - n + c, c);
    WrapIsMod(head + size - n, c);
    start := (head + size - n + c) % c;
  }

  /** Cell number i, counted from head, is event number i of the last size ones. */
  predicate CellHolds<T(==)>(cells: seq<T>, head: nat, size: nat, since: seq<T>, i: nat)
    requires head < |cells| && i < size <= |cells| && size <= |since|
  {
    cells[Wrap(head + i, |cells|)] == since[|since| - size + i]
  }

  /** The ring holds the last min(count, capacity) events, oldest at head. */
  ghost predicate RingHolds<T>(cells: seq<T>, head: nat, size: nat, since: seq<T>) {
    && head < |cells| && size == Min(|since|, |cells|)
    && forall i: nat | i < size :: CellHolds(cells, head, size, since, i)
  }

  lemma RingBounds<T>(cells: seq<T>, head: nat, size: nat, since: seq<T>)
    requires RingHolds(cells, head, size, since)
    ensures head < |cells| && size == Min(|since|, |cells|)
  {
  }

  lemma NothingHeld<T>(cells: seq<T>)
    requires cells != []
    ensures RingHolds(cells, 0, 0, [])
  {
  }

  /** Writing at head + size, and moving head on when that was full, adds one event to the list held. */
  lemma PushHolds<T>(cells: seq<T>, head: nat, size: nat, since: seq<T>, e: T)
    requires RingHolds(cells, head, size, since)
    ensures var cells' := cells[Wrap(head + size, |cells|) := e];
            if size < |cells| then RingHolds(cells', head, size + 1, since + [e])
            else RingHolds(cells', Wrap(head + 1, |cells|), size, since + [e])
  {
    var n, all := |cells|, since + [e];
    var cells' := cells[Wrap(head + size, n) := e];
    if size < n {
      var more := size + 1;
      forall i: nat | i < more ensures CellHolds(cells', head, more, all, i) {
        if i < size {
          assert CellHolds(cells, head, size, since, i);
        }
      }
    } else {
      var head' := Wrap(head + 1, n);
      forall i: nat | i < size ensures CellHolds(cells', head', size, all, i) {
        if i + 1 < size {
          assert CellHolds(cells, head, size, since, i + 1);
        }
      }
    }
  }

  /** Event k of those stored since the last Drain carries its record, and the hash of everything up to it. */
  ghost predicate EventAt(H: bytes -> Digest, prev: array<byte>, history: seq<Record>, since: seq<SecurityEvent>, k: nat)
    requires k < |since| <= |history|
  {
    && since[k].record == history[|history| - |since| + k]
    && since[k].hash == Chain(H, Zero(), history[..|history| - |since| + k + 1])
    && since[k].prevHash == prev
  }

  ghost predicate EventsChained(H: bytes -> Digest, prev: array<byte>, history: seq<Record>, since: seq<SecurityEvent>) {
    |since| <= |history| && forall k: nat | k < |since| :: EventAt(H, prev, history, since, k)
  }

  lemma AppendChained(H: bytes -> Digest, prev: array<byte>, history: seq<Record>, since: seq<SecurityEvent>,
                      r: Record)
    requires EventsChained(H, prev, history, since)
    ensures Chain(H, Zero(), history + [r]) == H(Chain(H, Zero(), history) + Content(r))
    ensures EventsChained(H, prev, history + [r],
                          since + [SecurityEvent(r, prev, H(Chain(H, Zero(), history) + Content(r)))])
  {
    var e := SecurityEvent(r, prev, H(Chain(H, Zero(), history) + Content(r)));
    var all, events := history + [r], since + [e];
    assert all[..|history|] == history && all[..|all|] == all;
    forall k: nat | k < |events| ensures EventAt(H, prev, all, events, k) {
      if k < |since| {
        assert EventAt(H, prev, history, since, k);
        var n := |history| - |since| + k;
        assert all[..n + 1] == history[..n + 1];
      }
    }
  }

  class RingAuditLog {
    const ring: array<SecurityEvent>
    var head: nat
    var size: nat
    const lastHash: array<byte>
    const hash: bytes -> Digest

    /** Every record ever appended, and the events stored since the last Drain. */
    ghost var history: seq<Record>
    ghost var since: seq<SecurityEvent>

    ghost predicate Valid()
      reads this, ring, lastHash
    {
      && ring.Length > 0 && RingHolds(ring[..], head, size, since)
      && lastHash[..] == Chain(hash, Zero(), history)
      && EventsChained(hash, lastHash, history, since)
    }

    /** go: NewAuditLog */
    constructor (capacity: int, hash: bytes -> Digest)
      ensures Valid() && fresh(ring) && fresh(lastHash)
      ensures this.hash == hash && history == [] && since == []
      ensures ring.Length == if capacity <= 0 then 1024 else capacity
    {
      var last := new byte[32](_ => 0);
      var blank := SecurityEvent(Record(0, [], [], [], []), last, Zero());
      ring := new SecurityEvent[if capacity <= 0 then 1024 else capacity](_ => blank);
      lastHash, head, size := last, 0, 0;
      this.hash := hash;
      history, since := [], [];
      new;
      assert lastHash[..] == Zero();
    }

    /** go: Append. A zero timestamp is replaced by the clock. */
    method Append(r: Record, now: int64)
      requires Valid()
      modifies this, ring, lastHash
      ensures Valid()
      ensures var stamped := if r.timestamp == 0 then r.(timestamp := now) else r;
              && history == old(history) + [stamped]
              && since == old(since) + [SecurityEvent(stamped, lastHash, old(hash(lastHash[..] + Content(stamped))))]
    {
      var stamped := if r.timestamp == 0 then r.(timestamp := now) else r;
      var digest: Digest := hash(lastHash[..] + Content(stamped));
      var e := SecurityEvent(stamped, lastHash, digest);
      AppendChained(hash, lastHash, history, since, stamped);
      assert lastHash.Length == |lastHash[..]| == 32;
      Copy(lastHash, 0, digest);
      assert lastHash[..] == digest;
      Store(e);
      history := history + [stamped];
      since := since + [e];
    }

    /** The last lines of Append: the cell after the newest, which is the oldest when the ring is full. */
    method Store(e: SecurityEvent)
      requires ring.Length > 0 && RingHolds(ring[..], head, size, since)
      modifies ring, this`head, this`size
      ensures RingHolds(ring[..], head, size, since + [e])
    {
      PushHolds(ring[..], head, size, since, e);
      ghost var cells := ring[..];
      var idx := CellIndex(head + size, ring.Length);
      ring[idx] := e;
      assert ring[..] == cells[idx := e];
      if size < ring.Length {
        size := size + 1;
      } else {
        head := CellIndex(head + 1, ring.Length);
      }
    }

    lemma PrevHashIsShared()
      requires Valid()
      ensures forall k | 0 <= k < |since| :: since[k].prevHash == lastHash
    {
      forall k | 0 <= k < |since| ensures since[k].prevHash == lastHash {
        assert EventAt(hash, lastHash, history, since, k);
      }
    }

    /** The cell at x, counted from the start of the array and taken modulo its length, if that is event i from head. */
    method Cell(x: nat, ghost i: nat) returns (e: SecurityEvent)
      requires RingHolds(ring[..], head, size, since) && i < size
      requires x < 2 * ring.Length && Wrap(x, ring.Length) == Wrap(head + i, ring.Length)
      ensures e == since[|since| - size + i]
    {
      var idx := CellIndex(x, ring.Length);
      assert CellHolds(ring[..], head, size, since, i);
      e := ring[idx];
    }

    /** go: Recent. The last min(n, size) events in the order appended. Each one's PrevHash is the log's current
        lastHash array, not the hash of the event before it. */
    method Recent(n: nat) returns (result: seq<SecurityEvent>)
      requires Valid()
      ensures result == since[|since| - Min(n, Min(|since|, ring.Length))..]
      ensures forall i | 0 <= i < |result| :: result[i].prevHash == lastHash
    {
      RingBounds(ring[..], head, size, since);
      PrevHashIsShared();
      hide Chain, EventsChained, RingHolds, Wrap;
      var m := if n > size then size else n;
      result := [];
      var start := StartCell(head, size, m, ring.Length);
      ghost var first := |since| - m;
      for i := 0 to m
        invariant result == since[first..first + i]
      {
        WrapTwice(head, size - m, i, ring.Length);
        var e := Cell(start + i, size - m + i);
        result := result + [e];
      }
      assert result == since[first..];
    }

    /** The loop of Drain. */
    method Held() returns (result: seq<SecurityEvent>)
      requires RingHolds(ring[..], head, size, since)
      ensures result == since[|since| - size..]
    {
      RingBounds(ring[..], head, size, since);
      hide RingHolds, Wrap;
      result := [];
      ghost var first := |since| - size;
      for i := 0 to size
        invariant result == since[first..first + i]
      {
        var e := Cell(head + i, i);
        result := result + [e];
      }
      assert first + size == |since|;
    }

    /** go: Drain. Empties the ring; the chain goes on from the same hash. */
    method Drain() returns (result: seq<SecurityEvent>)
      requires Valid()
      modifies this
      ensures Valid()
      ensures result == old(since[|since| - size..])
      ensures since == [] && size == 0 && history == old(history)
    {
      RingBounds(ring[..], head, size, since);
      result := Held();
      size := 0;
      head := 0;
      since := [];
      NothingHeld(ring[..]);
    }

    /** Read back, the PrevHash of every event still held is the hash of the newest one. */
    lemma PrevHashReadsNewest(k: nat)
      requires Valid() && k < |since|
      ensures since[k].prevHash[..] == since[|since| - 1].hash
    {
      assert EventAt(hash, lastHash, history, since, k);
      assert EventAt(hash, lastHash, history, since, |since| - 1);
      assert history[..|history|] == history;
    }

    /** So it reads as its predecessor's only at a price: two different inputs i and j with one hash, or an input j
        that hashes to zeros. */
    lemma PrevHashReadsPredecessor(k: nat) returns (i: nat, j: nat)
      requires Valid() && 0 < k < |since| && since[k].prevHash[..] == since[k - 1].hash
      ensures HashFails(hash, Zero(), history, i, j)
    {
      assert EventAt(hash, lastHash, history, since, k);
      assert EventAt(hash, lastHash, history, since, k - 1);
      i, j := RepeatFails(hash, Zero(), history, |history| - |since| + k);
    }
  }

  /** Hashes 41 bytes or more to one value, less to another. */
  function SizeHash(b: bytes): Digest { if |b| > 40 then seq(32, _ => 1) else Zero() }

  /** Two records after which the second event's PrevHash is not the first one's hash, but its own. */
  method PrevHashReadsWrong() returns (events: seq<SecurityEvent>)
    ensures |events| == 2
    ensures events[0].hash == SizeHash(Zero() + Content(events[0].record))
    ensures events[1].hash == SizeHash(events[0].hash + Content(events[1].record))
    ensures events[1].prevHash[..] == events[1].hash != events[0].hash
  {
    var log := new RingAuditLog(2, SizeHash);
    var x, y := Record(1, [], [], [], []), Record(2, [], [], [7], []);
    assert |Content(x)| == 8 && |Content(y)| == 9;
    log.Append(x, 5);
    log.Append(y, 5);
    ghost var first := log.since[0];
    assert first.hash[0] == 0;
    events := log.Recent(2);
    log.PrevHashReadsNewest(1);
  }
}
