/** Single-use challenges (engine/security/zkp.go). Random bytes and clock readings are arguments; BLAKE2b-256 is
    an arbitrary function to 32 bytes. Time is an integer count of seconds. */
module Zkp {
  import opened Wrappers
  import opened Bytes
  import EightBits

  const NONCE_SIZE := 32
  const PROOF_SIZE := 32
  const NONCE_TTL := 5 * 60

  type Block = b: bytes | |b| == 32 witness seq(32, _ => 0)

  // ---------------------------------------------------------------- hexadecimal

  function Digit(n: nat): char
    requires n < 16
  {
    if n < 10 then '0' + n as char else 'a' + (n - 10) as char
  }

  function DigitValue(c: char): Option<nat> {
    if '0' <= c <= '9' then Some(c as int - '0' as int)
    else if 'a' <= c <= 'f' then Some(c as int - 'a' as int + 10)
    else if 'A' <= c <= 'F' then Some(c as int - 'A' as int + 10)
    else None
  }

  /** go: hex.EncodeToString */
  function HexEncode(b: bytes): (s: string)
    ensures |s| == 2 * |b|
  {
    if b == [] then "" else [Digit(b[0] / 16), Digit(b[0] % 16)] + HexEncode(b[1..])
  }

  /** go: hex.DecodeString */
  function HexDecode(s: string): Option<bytes> {
    if s == "" then Some([])
    else if |s| == 1 then None
    else match (DigitValue(s[0]), DigitValue(s[1]), HexDecode(s[2..]))
      case (Some(h), Some(l), Some(rest)) => if 16 * h + l < 256 then Some([16 * h + l] + rest) else None
      case _ => None
  }

  lemma {:induction false} HexRoundTrip(b: bytes)
    ensures HexDecode(HexEncode(b)) == Some(b)
  {
    if b != [] {
      HexRoundTrip(b[1..]);
      var s := HexEncode(b);
      assert s[2..] == HexEncode(b[1..]);
      assert b == [b[0]] + b[1..];
    }
  }

  // ---------------------------------------------------------------- proofs

  function ToBits(x: byte): bv8 { x as bv8 }

  function FromBits(v: bv8): byte { v as int }

  function Xor(a: byte, b: byte): byte { FromBits(ToBits(a) ^ ToBits(b)) }

  function XorBlocks(a: bytes, b: bytes): (r: bytes)
    requires |a| == |b|
    ensures |r| == |a|
  {
    seq(|a|, i requires 0 <= i < |a| => Xor(a[i], b[i]))
  }

  /** The proof a client owes for a challenge; None is ComputeProof's error. */
  function ProofFor(blake: bytes -> Block, derivedKey: bytes, nonceHex: string): Option<bytes> {
    match HexDecode(nonceHex)
    case None => None
    case Some(nonce) =>
      if |nonce| != NONCE_SIZE || |derivedKey| != PROOF_SIZE then None
      else Some(XorBlocks(derivedKey, blake(nonce)))
  }

  method XorLoop(a: bytes, b: bytes) returns (r: bytes)
    requires |a| == |b| == PROOF_SIZE
    ensures r == XorBlocks(a, b)
  {
    var out := new byte[PROOF_SIZE](_ => 0);
    for i := 0 to PROOF_SIZE
      invariant out[..i] == XorBlocks(a, b)[..i]
    {
      out[i] := Xor(a[i], b[i]);
    }
    r := out[..];
  }

  /** go: ComputeProof */
  method ComputeProof(blake: bytes -> Block, derivedKey: bytes, nonceHex: string) returns (proof: Option<bytes>)
    ensures proof == ProofFor(blake, derivedKey, nonceHex)
  {
    var nonce := HexDecode(nonceHex);
    if nonce.None? || |nonce.value| != NONCE_SIZE { return None; }
    if |derivedKey| != PROOF_SIZE { return None; }
    var r := XorLoop(derivedKey, blake(nonce.value));
    return Some(r);
  }

  lemma BitsBack(v: bv8)
    ensures ToBits(FromBits(v)) == v
  {
  }

  lemma ByteBack(x: byte)
    ensures FromBits(ToBits(x)) == x
  {
    EightBits.IntBack(x);
  }

  lemma BitsCancel(a: bv8, b: bv8, p: bv8)
    ensures a ^ b == p <==> p ^ b == a
  {
  }

  lemma BitsCancelLeft(a: bv8, b: bv8, c: bv8)
    ensures a ^ b == a ^ c <==> b == c
  {
  }

  lemma XorAsBits(a: byte, b: byte, p: byte)
    ensures Xor(a, b) == p <==> ToBits(p) ^ ToBits(b) == ToBits(a)
  {
    hide ToBits, FromBits;
    ByteBack(p);
    BitsBack(ToBits(a) ^ ToBits(b));
    BitsCancel(ToBits(a), ToBits(b), ToBits(p));
  }

  lemma XorOnce(a: byte, b: byte, p: byte)
    ensures Xor(a, b) == p <==> (p as bv8) ^ (b as bv8) == a as bv8
  {
    XorAsBits(a, b, p);
    hide Xor, FromBits;
  }

  lemma XorCancels(a: byte, b: byte, c: byte)
    ensures Xor(a, b) == Xor(a, c) <==> b == c
  {
    hide Xor, ToBits, FromBits;
    var p := Xor(a, c);
    XorAsBits(a, b, p);
    XorAsBits(a, c, p);
    BitsCancelLeft(ToBits(p), ToBits(b), ToBits(c));
    ByteBack(b);
    ByteBack(c);
  }

  /** There is a proof for 32 bytes of hex and a key of 32 bytes, and each byte of it, xored with the nonce's hash, gives
      the key back. */
  lemma ProofBytes(blake: bytes -> Block, key: bytes, nonceHex: string)
    ensures var (nonce, proof) := (HexDecode(nonceHex), ProofFor(blake, key, nonceHex));
            && (proof.Some? <==> nonce.Some? && |nonce.value| == 32 && |key| == 32)
            && (proof.Some? ==>
                  && |proof.value| == 32
                  && forall i | 0 <= i < 32 :: (proof.value[i] as bv8) ^ (blake(nonce.value)[i] as bv8) == key[i] as bv8)
  {
    hide Xor;
    var nonce := HexDecode(nonceHex);
    if nonce.Some? && |nonce.value| == 32 && |key| == 32 {
      forall i | 0 <= i < 32
        ensures (ProofFor(blake, key, nonceHex).value[i] as bv8) ^ (blake(nonce.value)[i] as bv8) == key[i] as bv8
      {
        XorOnce(key[i], blake(nonce.value)[i], ProofFor(blake, key, nonceHex).value[i]);
      }
    }
  }

  /** A proof answers another challenge under the same key exactly when the nonces' hashes agree. */
  lemma SameProofExactly(blake: bytes -> Block, key: bytes, m: Block, n: Block)
    requires |key| == 32
    ensures ProofFor(blake, key, HexEncode(m)) == ProofFor(blake, key, HexEncode(n)) <==> blake(m) == blake(n)
  {
    hide Xor;
    HexRoundTrip(m);
    HexRoundTrip(n);
    var p, q := XorBlocks(key, blake(m)), XorBlocks(key, blake(n));
    forall i | 0 <= i < 32 ensures p[i] == q[i] <==> blake(m)[i] == blake(n)[i] {
      XorCancels(key[i], blake(m)[i], blake(n)[i]);
    }
  }

  const HEX_DIGITS := "0123456789abcdef"
  const HEX_CAPITALS := "0123456789ABCDEF"

  lemma HexDigits(n: nat, c: char)
    requires n < 16
    ensures Digit(n) == HEX_DIGITS[n]
    ensures DigitValue(c) == Some(n) <==> c == HEX_DIGITS[n] || c == HEX_CAPITALS[n]
  {
  }

  /** Hex is decoded exactly when its length is even and every character is a digit of either case. */
  lemma {:induction false} HexAccepts(s: string)
    ensures HexDecode(s).Some? <==> |s| % 2 == 0 && forall i | 0 <= i < |s| :: DigitValue(s[i]).Some?
  {
    if |s| >= 2 {
      HexAccepts(s[2..]);
      assert s == [s[0], s[1]] + s[2..];
    }
  }

  // ---------------------------------------------------------------- the store

  datatype Store = Store(pending: map<string, Block>, expiries: map<string, int>)

  predicate Paired(s: Store) { s.pending.Keys == s.expiries.Keys }

  /** What a client is sent. */
  datatype Challenge = Challenge(id: string, nonceHex: string, expiresAt: int)

  datatype Verdict = Accepted | NotFound | Expired | BadLength | Mismatch

  function AfterIssue(s: Store, id: string, nonce: Block, now: int): Store {
    Store(s.pending[id := nonce], s.expiries[id := now + NONCE_TTL])
  }

  function AfterVerify(s: Store, id: string): Store {
    Store(s.pending - {id}, s.expiries - {id})
  }

  /** Drop the challenges past their expiry; PendingCount also drops the ones expiring this instant. */
  function AfterSweep(s: Store, now: int): Store {
    var gone := set id | id in s.expiries && now > s.expiries[id];
    Store(s.pending - gone, s.expiries - gone)
  }

  function AfterCount(s: Store, now: int): Store {
    var gone := set id | id in s.expiries && !(now < s.expiries[id]);
    Store(s.pending - gone, s.expiries - gone)
  }

  function Judge(blake: bytes -> Block, s: Store, id: string, key: bytes, proof: bytes, now: int): Verdict
    requires Paired(s)
  {
    if id !in s.pending then NotFound
    else if now > s.expiries[id] then Expired
    else if |key| != PROOF_SIZE || |proof| != PROOF_SIZE then BadLength
    else if proof == XorBlocks(key, blake(s.pending[id])) then Accepted else Mismatch
  }

  /** An unexpired challenge accepts exactly the proof made from its hex nonce and the same key. */
  lemma AcceptsExactlyTheProof(blake: bytes -> Block, s: Store, id: string, key: bytes, proof: bytes, now: int)
    requires Paired(s)
    ensures Judge(blake, s, id, key, proof, now) == Accepted <==>
            id in s.pending && now <= s.expiries[id] && ProofFor(blake, key, HexEncode(s.pending[id])) == Some(proof)
  {
    if id in s.pending {
      HexRoundTrip(s.pending[id]);
    }
  }

  /** The same without naming ComputeProof: the proof is the key, byte by byte, xored with the hash of the nonce. */
  lemma AcceptsExactlyTheBytes(blake: bytes -> Block, s: Store, id: string, key: bytes, proof: bytes, now: int)
    requires Paired(s)
    ensures Judge(blake, s, id, key, proof, now) == Accepted <==>
            && id in s.pending && now <= s.expiries[id] && |key| == |proof| == 32
            && forall i | 0 <= i < 32 :: (proof[i] as bv8) ^ (blake(s.pending[id])[i] as bv8) == key[i] as bv8
  {
    hide Xor;
    if id in s.pending && |key| == |proof| == 32 {
      var hash := blake(s.pending[id]);
      var owed := XorBlocks(key, hash);
      forall i | 0 <= i < 32 ensures owed[i] == proof[i] <==> (proof[i] as bv8) ^ (hash[i] as bv8) == key[i] as bv8 {
        XorOnce(key[i], hash[i], proof[i]);
      }
      assert proof == owed <==> forall i | 0 <= i < 32 :: owed[i] == proof[i];
    }
  }

  /** Which challenges are left: after a sweep those not past their expiry, after a count those before it. */
  lemma WhatIsLeft(s: Store, id: string, now: int)
    requires Paired(s)
    ensures id in AfterSweep(s, now).pending <==> id in s.pending && now <= s.expiries[id]
    ensures id in AfterCount(s, now).pending <==> id in s.pending && now < s.expiries[id]
    ensures id in AfterSweep(s, now).pending ==>
              AfterSweep(s, now).pending[id] == s.pending[id] && AfterSweep(s, now).expiries[id] == s.expiries[id]
    ensures id in AfterCount(s, now).pending ==>
              AfterCount(s, now).pending[id] == s.pending[id] && AfterCount(s, now).expiries[id] == s.expiries[id]
  {
  }

  // ---------------------------------------------------------------- runs

  datatype Op =
    | Issue(id: string, nonce: Block, now: int)
    | Verify(id: string, key: bytes, proof: bytes, now: int)
    | Sweep(now: int)
    | Count(now: int)

  function Apply(s: Store, op: Op): (r: Store)
    ensures Paired(s) ==> Paired(r)
  {
    match op
    case Issue(id, nonce, now) => AfterIssue(s, id, nonce, now)
    case Verify(id, _, _, _) => AfterVerify(s, id)
    case Sweep(now) => AfterSweep(s, now)
    case Count(now) => AfterCount(s, now)
  }

  function Run(ops: seq<Op>): (s: Store)
    ensures Paired(s)
  {
    if ops == [] then Store(map[], map[]) else Apply(Run(ops[..|ops| - 1]), ops[|ops| - 1])
  }

  /** Ids are fresh: none is issued twice. */
  predicate FreshIds(ops: seq<Op>) {
    forall i, j | 0 <= i < j < |ops| :: ops[i].Issue? && ops[j].Issue? ==> ops[i].id != ops[j].id
  }

  predicate Issued(ops: seq<Op>, id: string) {
    exists k | 0 <= k < |ops| :: ops[k].Issue? && ops[k].id == id
  }

  lemma {:induction false} PendingWasIssued(ops: seq<Op>, id: string)
    requires id in Run(ops).pending
    ensures Issued(ops, id)
  {
    if ops != [] {
      var n := |ops| - 1;
      if ops[n].Issue? && ops[n].id == id {
      } else {
        PendingWasIssued(ops[..n], id);
        var k :| 0 <= k < n && ops[..n][k].Issue? && ops[..n][k].id == id;
        assert ops[k].Issue?;
      }
    }
  }

  lemma {:induction false} ConsumedStaysOut(ops: seq<Op>, i: nat, j: nat, id: string)
    requires FreshIds(ops) && i < j <= |ops|
    requires ops[i].Verify? && ops[i].id == id && Issued(ops[..i], id)
    ensures id !in Run(ops[..j]).pending
    decreases j
  {
    assert ops[..j][..j - 1] == ops[..j - 1];
    if j > i + 1 {
      ConsumedStaysOut(ops, i, j - 1, id);
      var k :| 0 <= k < i && ops[..i][k].Issue? && ops[..i][k].id == id;
      assert ops[k].Issue? && ops[k].id == id;
    }
  }

  /** The first VerifyProof on an issued id consumes it, whatever its verdict: every later one finds nothing. */
  lemma SingleUse(blake: bytes -> Block, ops: seq<Op>, i: nat, j: nat)
    requires FreshIds(ops) && i < j < |ops| && ops[i].Verify? && ops[j].Verify? && ops[i].id == ops[j].id
    requires Issued(ops[..i], ops[i].id)
    ensures Judge(blake, Run(ops[..j]), ops[j].id, ops[j].key, ops[j].proof, ops[j].now) == NotFound
  {
    ConsumedStaysOut(ops, i, j, ops[i].id);
  }

  /** So no id is ever accepted twice. */
  lemma AcceptedOnce(blake: bytes -> Block, ops: seq<Op>, i: nat, j: nat)
    requires FreshIds(ops) && i < j < |ops| && ops[i].Verify? && ops[j].Verify? && ops[i].id == ops[j].id
    requires Judge(blake, Run(ops[..i]), ops[i].id, ops[i].key, ops[i].proof, ops[i].now) == Accepted
    ensures Judge(blake, Run(ops[..j]), ops[j].id, ops[j].key, ops[j].proof, ops[j].now) != Accepted
  {
    PendingWasIssued(ops[..i], ops[i].id);
    SingleUse(blake, ops, i, j);
  }

  // ---------------------------------------------------------------- sweeping

  /** Clock readings never go back. */
  predicate Forward(ops: seq<Op>, t0: int) {
    ops == [] || (Forward(ops[..|ops| - 1], t0) && ops[|ops| - 1].now >= Clock(ops[..|ops| - 1], t0))
  }

  function Clock(ops: seq<Op>, t0: int): int {
    if ops == [] then t0 else ops[|ops| - 1].now
  }

  function Unswept(ops: seq<Op>): seq<Op> {
    if ops == [] then []
    else
      var op, front := ops[|ops| - 1], Unswept(ops[..|ops| - 1]);
      if op.Sweep? || op.Count? then front else front + [op]
  }

  /** No PendingCount comes at the very instant a pending challenge expires. */
  predicate CountsOffBoundary(ops: seq<Op>) {
    ops == [] ||
    var op, front := ops[|ops| - 1], ops[..|ops| - 1];
    CountsOffBoundary(front) && (op.Count? ==> forall id | id in Run(front).expiries :: Run(front).expiries[id] != op.now)
  }

  /** The accept or reject answers of a run, in order. */
  function Answers(blake: bytes -> Block, ops: seq<Op>): seq<bool> {
    if ops == [] then []
    else
      var op, front := ops[|ops| - 1], ops[..|ops| - 1];
      Answers(blake, front)
      + if op.Verify? then [Judge(blake, Run(front), op.id, op.key, op.proof, op.now) == Accepted] else []
  }

  /** The answers are those of the VerifyProof calls, each in its place. */
  lemma {:induction false} AnswersAt(blake: bytes -> Block, ops: seq<Op>, i: nat)
    requires i < |ops| && ops[i].Verify?
    ensures var k := |Answers(blake, ops[..i])|;
            && k < |Answers(blake, ops)|
            && (Answers(blake, ops)[k]
                <==> Judge(blake, Run(ops[..i]), ops[i].id, ops[i].key, ops[i].proof, ops[i].now) == Accepted)
  {
    var n := |ops| - 1;
    if i < n {
      AnswersAt(blake, ops[..n], i);
      assert ops[..n][..i] == ops[..i];
    }
  }

  /** s is u less some challenges that expired before clock. */
  ghost predicate SweptFrom(s: Store, u: Store, clock: int)
    requires Paired(s) && Paired(u)
  {
    && s.pending.Keys <= u.pending.Keys
    && (forall id | id in s.pending :: s.pending[id] == u.pending[id] && s.expiries[id] == u.expiries[id])
    && (forall id | id in u.pending && id !in s.pending :: u.expiries[id] < clock)
  }

  lemma SweptStep(s: Store, u: Store, clock: int, op: Op)
    requires Paired(s) && Paired(u) && SweptFrom(s, u, clock) && op.now >= clock
    requires op.Count? ==> forall id | id in s.expiries :: s.expiries[id] != op.now
    ensures SweptFrom(Apply(s, op), if op.Sweep? || op.Count? then u else Apply(u, op), op.now)
  {
  }

  lemma SweptJudge(blake: bytes -> Block, s: Store, u: Store, clock: int, id: string, key: bytes, proof: bytes, now: int)
    requires Paired(s) && Paired(u) && SweptFrom(s, u, clock) && now >= clock
    ensures Judge(blake, s, id, key, proof, now) == Accepted <==> Judge(blake, u, id, key, proof, now) == Accepted
  {
  }

  lemma UnsweptSnoc(ops: seq<Op>, op: Op)
    ensures Run(ops + [op]) == Apply(Run(ops), op)
  {
    assert (ops + [op])[..|ops|] == ops;
  }

  lemma {:induction false} SweptRun(ops: seq<Op>, t0: int)
    requires Forward(ops, t0) && CountsOffBoundary(ops)
    ensures SweptFrom(Run(ops), Run(Unswept(ops)), Clock(ops, t0))
  {
    if ops != [] {
      var op, front := ops[|ops| - 1], ops[..|ops| - 1];
      SweptRun(front, t0);
      SweptStep(Run(front), Run(Unswept(front)), Clock(front, t0), op);
      UnsweptSnoc(Unswept(front), op);
    }
  }

  /** Sweeps change no answer: a run with cleanupLoop and PendingCount calls in it, none of the latter on an expiry
      instant, answers every VerifyProof as the same run without them. */
  lemma {:induction false} SweepsAreInvisible(blake: bytes -> Block, ops: seq<Op>, t0: int)
    requires Forward(ops, t0) && CountsOffBoundary(ops)
    ensures Answers(blake, ops) == Answers(blake, Unswept(ops))
  {
    if ops != [] {
      var op, front := ops[|ops| - 1], ops[..|ops| - 1];
      SweepsAreInvisible(blake, front, t0);
      SweptRun(front, t0);
      if op.Verify? {
        SweptJudge(blake, Run(front), Run(Unswept(front)), Clock(front, t0), op.id, op.key, op.proof, op.now);
      }
      hide Judge, SweptFrom, Run;
      if !op.Sweep? && !op.Count? {
        assert (Unswept(front) + [op])[..|Unswept(front)|] == Unswept(front);
      }
    }
  }

  /** The boundary is real: PendingCount spoils an acceptance due at the same instant exactly when some pending
      challenge expires at that instant. */
  lemma CountBoundary(blake: bytes -> Block, s: Store, now: int)
    requires Paired(s)
    ensures (exists id, key, proof :: Judge(blake, s, id, key, proof, now) == Accepted
                                      && Judge(blake, AfterCount(s, now), id, key, proof, now) != Accepted)
            <==> exists id | id in s.expiries :: s.expiries[id] == now
  {
    if id :| id in s.expiries && s.expiries[id] == now {
      var key: Block := seq(32, _ => 0);
      var proof := XorBlocks(key, blake(s.pending[id]));
      assert Judge(blake, s, id, key, proof, now) == Accepted;
      assert Judge(blake, AfterCount(s, now), id, key, proof, now) != Accepted;
    }
  }

  // ---------------------------------------------------------------- walking the expiries

  /** Part way through a loop over s.expiries that drops the expired ids: cur is s without the ones gone so far. */
  ghost predicate Visited(s: Store, cur: Store, expired: set<string>, remaining: set<string>, kept: set<string>,
                          gone: set<string>)
  {
    && cur == Store(s.pending - gone, s.expiries - gone)
    && remaining + kept + gone == s.expiries.Keys
    && remaining !! kept && remaining !! gone && kept !! gone
    && kept !! expired && gone <= expired
  }

  lemma VisitNone(s: Store, expired: set<string>)
    ensures Visited(s, s, expired, s.expiries.Keys, {}, {})
  {
    assert s.pending - {} == s.pending && s.expiries - {} == s.expiries;
  }

  lemma VisitOne(s: Store, cur: Store, expired: set<string>, remaining: set<string>, kept: set<string>,
                 gone: set<string>, id: string)
    requires Visited(s, cur, expired, remaining, kept, gone) && id in remaining
    ensures id in s.expiries && id in cur.expiries && cur.expiries[id] == s.expiries[id]
    ensures id !in expired ==>
              Visited(s, cur, expired, remaining - {id}, kept + {id}, gone) && |kept + {id}| == |kept| + 1
    ensures id in expired ==>
              && Visited(s, Store(cur.pending - {id}, cur.expiries - {id}), expired, remaining - {id}, kept, gone + {id})
              && |gone + {id}| == |gone| + 1
  {
    assert s.pending - gone - {id} == s.pending - (gone + {id});
    assert s.expiries - gone - {id} == s.expiries - (gone + {id});
    assert remaining - {id} + (kept + {id}) + gone == remaining + kept + gone;
    assert remaining - {id} + kept + (gone + {id}) == remaining + kept + gone;
  }

  lemma VisitedAll(s: Store, cur: Store, expired: set<string>, kept: set<string>, gone: set<string>)
    requires Paired(s) && Visited(s, cur, expired, {}, kept, gone) && expired <= s.expiries.Keys
    ensures cur == Store(s.pending - expired, s.expiries - expired) && Paired(cur)
    ensures |cur.expiries| == |kept| && |s.expiries| == |kept| + |gone|
  {
    assert gone == expired;
    assert cur.expiries.Keys == kept;
    assert s.expiries.Keys == kept + gone;
  }

  /** The loop of PendingCount. */
  method DropAndCount(pending: map<string, Block>, expiries: map<string, int>, now: int)
    returns (p: map<string, Block>, e: map<string, int>, count: nat)
    requires Paired(Store(pending, expiries))
    ensures Store(p, e) == AfterCount(Store(pending, expiries), now) && count == |e|
  {
    hide Visited;
    ghost var s, kept, gone: set<string> := Store(pending, expiries), {}, {};
    ghost var expired := set id | id in s.expiries && !(now < s.expiries[id]);
    p, e, count := pending, expiries, 0;
    var remaining := expiries.Keys;
    VisitNone(s, expired);
    while remaining != {}
      invariant Visited(s, Store(p, e), expired, remaining, kept, gone) && |kept| == count
      decreases |remaining|
    {
      var id :| id in remaining;
      VisitOne(s, Store(p, e), expired, remaining, kept, gone, id);
      if now < e[id] {
        count := count + 1;
        kept := kept + {id};
      } else {
        p := p - {id};
        e := e - {id};
        gone := gone + {id};
      }
      remaining := remaining - {id};
    }
    VisitedAll(s, Store(p, e), expired, kept, gone);
  }

  /** The loop of cleanupLoop. */
  method DropExpired(pending: map<string, Block>, expiries: map<string, int>, now: int)
    returns (p: map<string, Block>, e: map<string, int>, cleaned: nat)
    requires Paired(Store(pending, expiries))
    ensures Store(p, e) == AfterSweep(Store(pending, expiries), now) && cleaned + |e| == |expiries|
  {
    hide Visited;
    ghost var s, kept, gone: set<string> := Store(pending, expiries), {}, {};
    ghost var expired := set id | id in s.expiries && now > s.expiries[id];
    p, e, cleaned := pending, expiries, 0;
    var remaining := expiries.Keys;
    VisitNone(s, expired);
    while remaining != {}
      invariant Visited(s, Store(p, e), expired, remaining, kept, gone) && |gone| == cleaned
      decreases |remaining|
    {
      var id :| id in remaining;
      VisitOne(s, Store(p, e), expired, remaining, kept, gone, id);
      if now > e[id] {
        p := p - {id};
        e := e - {id};
        gone := gone + {id};
        cleaned := cleaned + 1;
      } else {
        kept := kept + {id};
      }
      remaining := remaining - {id};
    }
    VisitedAll(s, Store(p, e), expired, kept, gone);
  }

  // ---------------------------------------------------------------- the verifier

  class Verifier {
    var pending: map<string, Block>
    var expiries: map<string, int>
    const blake: bytes -> Block

    function Now(): Store
      reads this
    {
      Store(pending, expiries)
    }

    ghost predicate Valid()
      reads this
    {
      Paired(Now())
    }

    constructor (blake: bytes -> Block)
      ensures Valid() && Now() == Run([]) && this.blake == blake
    {
      pending, expiries := map[], map[];
      this.blake := blake;
    }

    /** go: IssueChallenge, given what the random source yields for the id and the nonce; None is its failure. */
    method IssueChallenge(rawID: Option<bytes>, nonce: Option<Block>, now: int) returns (r: Option<Challenge>)
      requires Valid()
      modifies this
      ensures r.Some? <==> rawID.Some? && nonce.Some?
      ensures Valid() && Now() == if r.Some? then Apply(old(Now()), Issue(r.value.id, nonce.value, now)) else old(Now())
      ensures r.Some? ==> && r.value.id == HexEncode(rawID.value) && HexDecode(r.value.nonceHex) == Some(nonce.value)
                          && r.value.expiresAt == now + 300
    {
      if rawID.None? { return None; }
      var id := HexEncode(rawID.value);
      if nonce.None? { return None; }
      var expiresAt := now + NONCE_TTL;
      pending := pending[id := nonce.value];
      expiries := expiries[id := expiresAt];
      HexRoundTrip(nonce.value);
      return Some(Challenge(id, HexEncode(nonce.value), expiresAt));
    }

    /** go: VerifyProof */
    method VerifyProof(id: string, derivedKey: bytes, proof: bytes, now: int) returns (v: Verdict)
      requires Valid()
      modifies this
      ensures Valid() && Now() == Apply(old(Now()), Verify(id, derivedKey, proof, now))
      ensures v == Judge(blake, old(Now()), id, derivedKey, proof, now)
    {
      var ok := id in pending;
      if !ok {
        pending, expiries := pending - {id}, expiries - {id};
        return NotFound;
      }
      var nonce, expiry := pending[id], expiries[id];
      pending := pending - {id};
      expiries := expiries - {id};
      if now > expiry { return Expired; }
      if |derivedKey| != PROOF_SIZE || |proof| != PROOF_SIZE { return BadLength; }
      var expected := XorLoop(derivedKey, blake(nonce));
      if expected != proof { return Mismatch; }
      return Accepted;
    }

    /** go: PendingCount */
    method PendingCount(now: int) returns (count: nat)
      requires Valid()
      modifies this
      ensures Valid() && Now() == Apply(old(Now()), Count(now))
      ensures count == |expiries|
    {
      pending, expiries, count := DropAndCount(pending, expiries, now);
    }

    /** One round of go: cleanupLoop. */
    method CleanUp(now: int) returns (cleaned: nat)
      requires Valid()
      modifies this
      ensures Valid() && Now() == Apply(old(Now()), Sweep(now))
      ensures cleaned + |expiries| == |old(expiries)|
    {
      pending, expiries, cleaned := DropExpired(pending, expiries, now);
    }
  }
}
