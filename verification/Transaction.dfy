/** The buffered write transaction (engine/storage/blockstore_v2.go) over a store that behaves like a map and may
    refuse any operation. */
module Transaction {
  import opened Wrappers

  /** data stands for everything a block carries besides its id. */
  datatype Block = Block(id: string, data: nat)

  type Blocks = map<string, Block>

  datatype StoreOp = Write(block: Block) | Delete(id: string)

  function Target(op: StoreOp): string {
    match op case Write(b) => b.id case Delete(id) => id
  }

  function ApplyOp(m: Blocks, op: StoreOp): Blocks {
    match op case Write(b) => m[b.id := b] case Delete(id) => m - {id}
  }

  function ApplyAll(m: Blocks, ops: seq<StoreOp>): Blocks {
    if ops == [] then m else ApplyOp(ApplyAll(m, ops[..|ops| - 1]), ops[|ops| - 1])
  }

  function Writes(ops: seq<StoreOp>): seq<Block> {
    if ops == [] then []
    else
      var op := ops[|ops| - 1];
      if op.Write? then Writes(ops[..|ops| - 1]) + [op.block] else Writes(ops[..|ops| - 1])
  }

  function Deletes(ops: seq<StoreOp>): seq<string> {
    if ops == [] then []
    else
      var op := ops[|ops| - 1];
      if op.Delete? then Deletes(ops[..|ops| - 1]) + [op.id] else Deletes(ops[..|ops| - 1])
  }

  function AsWrites(bs: seq<Block>): (r: seq<StoreOp>)
    ensures |r| == |bs|
  {
    seq(|bs|, i requires 0 <= i < |bs| => Write(bs[i]))
  }

  function AsDeletes(ids: seq<string>): (r: seq<StoreOp>)
    ensures |r| == |ids|
  {
    seq(|ids|, i requires 0 <= i < |ids| => Delete(ids[i]))
  }

  /** The order in which Commit runs what was staged: all writes, then all deletes. */
  function CommitOrder(staged: seq<StoreOp>): seq<StoreOp> {
    AsWrites(Writes(staged)) + AsDeletes(Deletes(staged))
  }

  // ---------------------------------------------------------------- meaning

  /** The last operation on an id, if any. */
  function LastOp(ops: seq<StoreOp>, id: string): Option<StoreOp> {
    if ops == [] then None
    else if Target(ops[|ops| - 1]) == id then Some(ops[|ops| - 1])
    else LastOp(ops[..|ops| - 1], id)
  }

  function Lookup(m: Blocks, id: string): Option<Block> {
    if id in m then Some(m[id]) else None
  }

  function Outcome(m: Blocks, last: Option<StoreOp>, id: string): Option<Block> {
    match last
    case None => Lookup(m, id)
    case Some(Write(b)) => Some(b)
    case Some(Delete(_)) => None
  }

  /** Only the last operation on an id counts. */
  lemma {:induction false} AppliedAt(m: Blocks, ops: seq<StoreOp>, id: string)
    ensures Lookup(ApplyAll(m, ops), id) == Outcome(m, LastOp(ops, id), id)
  {
    if ops != [] {
      AppliedAt(m, ops[..|ops| - 1], id);
    }
  }

  lemma {:induction false} LastOpConcat(a: seq<StoreOp>, b: seq<StoreOp>, id: string)
    ensures LastOp(a + b, id) == if LastOp(b, id).Some? then LastOp(b, id) else LastOp(a, id)
  {
    if b == [] {
      assert a + b == a;
    } else {
      LastOpConcat(a, b[..|b| - 1], id);
      assert (a + b)[..|a + b| - 1] == a + b[..|b| - 1];
    }
  }

  lemma {:induction false} LastOpOnId(ops: seq<StoreOp>, id: string)
    ensures LastOp(ops, id).Some? ==> LastOp(ops, id).value in ops && Target(LastOp(ops, id).value) == id
    ensures LastOp(ops, id).None? ==> forall op | op in ops :: Target(op) != id
  {
    if ops != [] {
      LastOpOnId(ops[..|ops| - 1], id);
      assert ops == ops[..|ops| - 1] + [ops[|ops| - 1]];
    }
  }

  lemma {:induction false} LastDelete(ops: seq<StoreOp>, id: string)
    ensures LastOp(AsDeletes(Deletes(ops)), id) == if Delete(id) in ops then Some(Delete(id)) else None
  {
    if ops != [] {
      var front, op := ops[..|ops| - 1], ops[|ops| - 1];
      LastDelete(front, id);
      assert ops == front + [op];
      if op.Delete? {
        assert AsDeletes(Deletes(ops))[..|Deletes(front)|] == AsDeletes(Deletes(front));
      }
    }
  }

  lemma {:induction false} LastWrite(ops: seq<StoreOp>, id: string)
    requires Delete(id) !in ops
    ensures LastOp(AsWrites(Writes(ops)), id) == LastOp(ops, id)
  {
    if ops != [] {
      var front, op := ops[..|ops| - 1], ops[|ops| - 1];
      LastWrite(front, id);
      if op.Write? {
        assert AsWrites(Writes(ops))[..|Writes(front)|] == AsWrites(Writes(front));
      } else {
        assert op in ops;
      }
    }
  }

  /** What a commit leaves under an id: nothing if any delete of it was staged, else the last block written, else
      what was there. */
  lemma CommitMeans(m: Blocks, staged: seq<StoreOp>, id: string)
    ensures Lookup(ApplyAll(m, CommitOrder(staged)), id)
            == if Delete(id) in staged then None else Outcome(m, LastOp(staged, id), id)
  {
    AppliedAt(m, CommitOrder(staged), id);
    LastOpConcat(AsWrites(Writes(staged)), AsDeletes(Deletes(staged)), id);
    LastDelete(staged, id);
    if Delete(id) !in staged {
      LastWrite(staged, id);
    }
  }

  /** Commit agrees with running the staged operations in program order exactly when every id with a staged delete
      has a delete as its last staged operation. */
  lemma AgreesWithProgramOrder(m: Blocks, staged: seq<StoreOp>)
    ensures ApplyAll(m, CommitOrder(staged)) == ApplyAll(m, staged)
            <==> forall id | Delete(id) in staged :: LastOp(staged, id) == Some(Delete(id))
  {
    var committed, inOrder := ApplyAll(m, CommitOrder(staged)), ApplyAll(m, staged);
    forall id ensures Lookup(committed, id) == Lookup(inOrder, id)
                      <==> (Delete(id) in staged ==> LastOp(staged, id) == Some(Delete(id)))
    {
      CommitMeans(m, staged, id);
      AppliedAt(m, staged, id);
      LastOpOnId(staged, id);
    }
    SameLookups(committed, inOrder);
  }

  lemma SameLookups(a: Blocks, b: Blocks)
    ensures a == b <==> forall id :: Lookup(a, id) == Lookup(b, id)
  {
    if forall id :: Lookup(a, id) == Lookup(b, id) {
      assert forall id :: id in a <==> Lookup(a, id).Some?;
      assert forall id :: id in b <==> Lookup(b, id).Some?;
      assert forall id | id in a :: a[id] == Lookup(b, id).value;
    }
  }

  /** A failing commit can stop after any number of operations. It leaves the store as it was, wherever it stops,
      exactly when each operation alone would change nothing. */
  lemma UnchangedWhereverItStops(m: Blocks, ops: seq<StoreOp>)
    ensures (forall k | 0 <= k <= |ops| :: ApplyAll(m, ops[..k]) == m)
            <==> forall i | 0 <= i < |ops| :: ApplyOp(m, ops[i]) == m
  {
    if forall i | 0 <= i < |ops| :: ApplyOp(m, ops[i]) == m {
      forall k | 0 <= k <= |ops| ensures ApplyAll(m, ops[..k]) == m {
        NoEffect(m, ops[..k]);
      }
    }
    if forall k | 0 <= k <= |ops| :: ApplyAll(m, ops[..k]) == m {
      forall i | 0 <= i < |ops| ensures ApplyOp(m, ops[i]) == m {
        ApplyNext(m, ops, i);
      }
    }
  }

  lemma {:induction false} NoEffect(m: Blocks, ops: seq<StoreOp>)
    requires forall i | 0 <= i < |ops| :: ApplyOp(m, ops[i]) == m
    ensures ApplyAll(m, ops) == m
  {
    if ops != [] {
      NoEffect(m, ops[..|ops| - 1]);
    }
  }

  lemma ApplyNext(m: Blocks, ops: seq<StoreOp>, k: nat)
    requires k < |ops|
    ensures ApplyAll(m, ops[..k + 1]) == ApplyOp(ApplyAll(m, ops[..k]), ops[k])
  {
    assert ops[..k + 1][..k] == ops[..k];
  }

  // ---------------------------------------------------------------- store and transaction

  /** A call on the store, and its answer. */
  datatype StoreCall = Do(op: StoreOp) | Sync

  datatype Answer = Answer(call: StoreCall, ok: bool)

  /** A block store as the transaction sees it: a map, any call to which may be refused and then does nothing. */
  class MapStore {
    var blocks: Blocks

    /** Every call made, in order. */
    ghost var answers: seq<Answer>

    constructor (blocks: Blocks)
      ensures this.blocks == blocks && answers == []
    {
      this.blocks := blocks;
      answers := [];
    }

    method WriteBlock(b: Block) returns (ok: bool)
      modifies this
      ensures blocks == if ok then ApplyOp(old(blocks), Write(b)) else old(blocks)
      ensures answers == old(answers) + [Answer(Do(Write(b)), ok)]
    {
      ok := *;
      if ok {
        blocks := blocks[b.id := b];
      }
      answers := answers + [Answer(Do(Write(b)), ok)];
    }

    method DeleteBlock(id: string) returns (ok: bool)
      modifies this
      ensures blocks == if ok then ApplyOp(old(blocks), Delete(id)) else old(blocks)
      ensures answers == old(answers) + [Answer(Do(Delete(id)), ok)]
    {
      ok := *;
      if ok {
        blocks := blocks - {id};
      }
      answers := answers + [Answer(Do(Delete(id)), ok)];
    }

    method Flush() returns (ok: bool)
      modifies this
      ensures blocks == old(blocks) && answers == old(answers) + [Answer(Sync, ok)]
    {
      ok := *;
      answers := answers + [Answer(Sync, ok)];
    }
  }

  /** Call k of a commit: the writes in order, the deletes in order, and a flush. */
  function CommitCall(writes: seq<Block>, deletes: seq<string>, k: nat): StoreCall
    requires k <= |writes| + |deletes|
  {
    if k < |writes| then Do(Write(writes[k]))
    else if k < |writes| + |deletes| then Do(Delete(deletes[k - |writes|]))
    else Sync
  }

  /** The first k calls of a commit, all granted. */
  ghost function Granted(writes: seq<Block>, deletes: seq<string>, k: nat): (r: seq<Answer>)
    requires k <= |writes| + |deletes| + 1
    ensures |r| == k && forall i | 0 <= i < k :: r[i] == Answer(CommitCall(writes, deletes, i), true)
  {
    seq(k, i requires 0 <= i < k => Answer(CommitCall(writes, deletes, i), true))
  }

  /** A store that was (m, before) when the commit began has granted k operations. */
  ghost predicate After(m: Blocks, before: seq<Answer>, writes: seq<Block>, deletes: seq<string>, k: nat,
                        blocks: Blocks, answers: seq<Answer>)
  {
    && k <= |writes| + |deletes| && answers == before + Granted(writes, deletes, k)
    && blocks == ApplyAll(m, (AsWrites(writes) + AsDeletes(deletes))[..k])
  }

  lemma AfterNone(m: Blocks, before: seq<Answer>, writes: seq<Block>, deletes: seq<string>)
    ensures After(m, before, writes, deletes, 0, m, before)
  {
  }

  /** It has granted k operations and refused the next one. */
  ghost predicate Refused(m: Blocks, before: seq<Answer>, writes: seq<Block>, deletes: seq<string>, k: nat,
                          blocks: Blocks, answers: seq<Answer>)
  {
    && k <= |writes| + |deletes|
    && answers == before + Granted(writes, deletes, k) + [Answer(CommitCall(writes, deletes, k), false)]
    && blocks == ApplyAll(m, (AsWrites(writes) + AsDeletes(deletes))[..k])
  }

  lemma FlushGranted(writes: seq<Block>, deletes: seq<string>)
    ensures var n := |writes| + |deletes|;
            Granted(writes, deletes, n + 1) == Granted(writes, deletes, n) + [Answer(Sync, true)]
  {
  }

  lemma AfterOneMore(m: Blocks, before: seq<Answer>, writes: seq<Block>, deletes: seq<string>, k: nat,
                     blocks: Blocks, answers: seq<Answer>, op: StoreOp)
    requires After(m, before, writes, deletes, k, blocks, answers)
    requires k < |writes| + |deletes| && CommitCall(writes, deletes, k) == Do(op)
    ensures After(m, before, writes, deletes, k + 1, ApplyOp(blocks, op), answers + [Answer(Do(op), true)])
    ensures Refused(m, before, writes, deletes, k, blocks, answers + [Answer(Do(op), false)])
  {
    ApplyNext(m, AsWrites(writes) + AsDeletes(deletes), k);
    assert Granted(writes, deletes, k + 1) == Granted(writes, deletes, k) + [Answer(Do(op), true)];
  }

  datatype CommitResult = Committed | Closed | StoreError

  class WriteTransaction {
    const store: MapStore
    var writes: seq<Block>
    var deletes: seq<string>
    var done: bool

    /** The calls accepted so far, in program order. */
    ghost var staged: seq<StoreOp>

    ghost predicate Valid()
      reads this
    {
      writes == Writes(staged) && deletes == Deletes(staged)
    }

    constructor (store: MapStore)
      ensures Valid() && this.store == store && !done && staged == []
    {
      this.store := store;
      writes, deletes, done, staged := [], [], false, [];
    }

    /** go: WriteBlock. false is ErrTransactionClosed. */
    method WriteBlock(b: Block) returns (ok: bool)
      requires Valid()
      modifies this
      ensures Valid() && done == old(done) && ok == !done
      ensures staged == if ok then old(staged) + [Write(b)] else old(staged)
    {
      if done { return false; }
      writes := writes + [b];
      staged := staged + [Write(b)];
      assert staged[..|staged| - 1] == old(staged);
      return true;
    }

    /** go: DeleteBlock */
    method DeleteBlock(id: string) returns (ok: bool)
      requires Valid()
      modifies this
      ensures Valid() && done == old(done) && ok == !done
      ensures staged == if ok then old(staged) + [Delete(id)] else old(staged)
    {
      if done { return false; }
      deletes := deletes + [id];
      staged := staged + [Delete(id)];
      assert staged[..|staged| - 1] == old(staged);
      return true;
    }

    /** go: Commit. It makes the commit order's calls, then flushes, up to the first call refused: k calls are granted
        first, and there is no refused one exactly when it returns Committed. */
    method Commit() returns (r: CommitResult, ghost k: nat)
      requires Valid()
      modifies this, store
      ensures Valid() && done && staged == old(staged) && writes == old(writes) && deletes == old(deletes)
      ensures r == Closed <==> old(done)
      ensures r == Closed ==> k == 0 && store.answers == old(store.answers)
      ensures r == Committed ==>
                k == |writes| + |deletes| + 1 && store.answers == old(store.answers) + Granted(writes, deletes, k)
      ensures r == StoreError ==>
                && k <= |writes| + |deletes|
                && store.answers == old(store.answers) + Granted(writes, deletes, k)
                                    + [Answer(CommitCall(writes, deletes, k), false)]
      ensures var order := CommitOrder(staged);
              store.blocks == ApplyAll(old(store.blocks), order[..if k < |order| then k else |order|])
    {
      ghost var m, before := store.blocks, store.answers;
      AfterNone(m, before, writes, deletes);
      if done { return Closed, 0; }
      done := true;
      hide ApplyAll, Granted, AsWrites, AsDeletes, Writes, Deletes;
      var ok;
      ok, k := WriteStaged(m, before);
      if !ok { return StoreError, k; }
      ok, k := DeleteStaged(m, before);
      if !ok { return StoreError, k; }
      FlushGranted(writes, deletes);
      var flushed := store.Flush();
      if !flushed { return StoreError, k; }
      return Committed, k + 1;
    }

    /** The first loop of Commit. */
    method WriteStaged(ghost m: Blocks, ghost before: seq<Answer>) returns (ok: bool, ghost k: nat)
      requires After(m, before, writes, deletes, 0, store.blocks, store.answers)
      modifies store
      ensures ok ==> k == |writes| && After(m, before, writes, deletes, k, store.blocks, store.answers)
      ensures !ok ==> Refused(m, before, writes, deletes, k, store.blocks, store.answers)
    {
      hide After;
      k := 0;
      for i := 0 to |writes|
        invariant k == i && After(m, before, writes, deletes, k, store.blocks, store.answers)
      {
        AfterOneMore(m, before, writes, deletes, k, store.blocks, store.answers, Write(writes[i]));
        ok := store.WriteBlock(writes[i]);
        if !ok { return false, k; }
        k := k + 1;
      }
      return true, k;
    }

    /** The second loop of Commit. */
    method DeleteStaged(ghost m: Blocks, ghost before: seq<Answer>) returns (ok: bool, ghost k: nat)
      requires After(m, before, writes, deletes, |writes|, store.blocks, store.answers)
      modifies store
      ensures ok ==> k == |writes| + |deletes| && After(m, before, writes, deletes, k, store.blocks, store.answers)
      ensures !ok ==> Refused(m, before, writes, deletes, k, store.blocks, store.answers)
    {
      hide After;
      k := |writes|;
      for i := 0 to |deletes|
        invariant k == |writes| + i && After(m, before, writes, deletes, k, store.blocks, store.answers)
      {
        AfterOneMore(m, before, writes, deletes, k, store.blocks, store.answers, Delete(deletes[i]));
        ok := store.DeleteBlock(deletes[i]);
        if !ok { return false, k; }
        k := k + 1;
      }
      return true, k;
    }

    /** go: Rollback. Nothing staged survives, and the transaction is closed, so no later Commit reaches the store. */
    method Rollback()
      requires Valid()
      modifies this
      ensures Valid() && done && staged == [] && writes == [] && deletes == []
    {
      done := true;
      writes := [];
      deletes := [];
      staged := [];
    }
  }
}
