/** Sequences of calls against the store, and what holds across all of them:
    the cache is invisible to callers, a row once written is never changed, and of
    many writes of one identifier exactly the first succeeds. */
module Traces {
  import opened Types
  import opened DurableTable
  import opened CachingStore

  /** One call against the table: by a caller of this store, or a conditional put
      by another writer sharing the table (another process or replica, whose writes
      this store's cache never sees). */
  datatype Op =
    | GetOp(id: Id, now: int, fillTime: int, fault: Option<string>)
    | SetOp(id: Id, keys: Keys, now: int, fault: Option<string>)
    | ForeignPut(id: Id, record: Record, fault: Option<string>)

  datatype Reply =
    | GetReply(got: Result<Option<Keys>>)
    | SetReply(put: Result<()>)
    | ForeignReply(foreign: PutResult)

  datatype Stepped = Stepped(reply: Reply, next: State)

  datatype Trace = Trace(replies: seq<Reply>, final: State)

  /** One call against the caching store. */
  function Step(s: State, op: Op): (r: Stepped)
    ensures CacheConsistent(s) ==> CacheConsistent(r.next)
    ensures forall k | k in s.table :: k in r.next.table && r.next.table[k] == s.table[k]
  {
    match op
    case GetOp(id, now, fillTime, fault) =>
      var o := Get(s, id, now, fillTime, fault);
      Stepped(GetReply(o.result), o.next)
    case SetOp(id, keys, now, fault) =>
      var o := SetConditionally(s, id, keys, now, fault);
      Stepped(SetReply(o.result), o.next)
    case ForeignPut(id, record, fault) =>
      var p := PutItemIfAbsent(s.table, id, record, fault);
      Stepped(ForeignReply(p.result), s.(table := p.table))
  }

  /** The replies to `ops`, made one after another from `s`, and the final state. */
  function Run(s: State, ops: seq<Op>): (t: Trace)
    ensures |t.replies| == |ops|
    ensures CacheConsistent(s) ==> CacheConsistent(t.final)
    decreases |ops|
  {
    if ops == [] then Trace([], s)
    else
      var first := Step(s, ops[0]);
      var rest := Run(first.next, ops[1..]);
      Trace([first.reply] + rest.replies, rest.final)
  }

  datatype DirectStepped = DirectStepped(reply: Reply, table: Table)

  datatype DirectTrace = DirectTrace(replies: seq<Reply>, table: Table)

  /** The same call made against the table with no cache at all. */
  function DirectStep(t: Table, op: Op): DirectStepped {
    match op
    case GetOp(id, _, _, fault) =>
      DirectStepped(GetReply(ReadTable(t, id, fault)), t)
    case SetOp(id, keys, _, fault) =>
      var p := PutItemIfAbsent(t, id, Marshal(Item(id, keys)), fault);
      DirectStepped(SetReply(WriteResult(id, p.result)), p.table)
    case ForeignPut(id, record, fault) =>
      var p := PutItemIfAbsent(t, id, record, fault);
      DirectStepped(ForeignReply(p.result), p.table)
  }

  /** The replies to `ops` made one after another against the bare table `t`, with
      no cache at all, and the rows left at the end: the reference the caching
      store is compared with. */
  function RunDirect(t: Table, ops: seq<Op>): (d: DirectTrace)
    ensures |d.replies| == |ops|
    decreases |ops|
  {
    if ops == [] then DirectTrace([], t)
    else
      var first := DirectStep(t, ops[0]);
      var rest := RunDirect(first.table, ops[1..]);
      DirectTrace([first.reply] + rest.replies, rest.table)
  }

  /** `cached` is the caching store's reply to `op`, `direct` the cacheless one,
      both made when the table is `t`: they are equal, unless `op` is a read that
      found a live cache entry while its backend read would have failed; the cached
      reply then carries exactly the keys `t` holds for the identifier. */
  predicate Agrees(t: Table, op: Op, cached: Reply, direct: Reply) {
    || cached == direct
    || (&& op.GetOp? && op.fault.Some?
        && direct == GetReply(Err(BackendFailure(op.fault.value)))
        && StoredKeys(t, op.id).Some?
        && cached == GetReply(Ok(StoredKeys(t, op.id))))
  }

  /** The reads in `ops` all reach a healthy backend. */
  predicate ReadsHealthy(ops: seq<Op>) {
    forall i | 0 <= i < |ops| :: ops[i].GetOp? ==> ops[i].fault.None?
  }

  /** From a consistent state, one call to the caching store agrees with the same
      call against the bare table, and leaves the same rows. */
  lemma StepAgrees(s: State, op: Op)
    requires CacheConsistent(s)
    ensures Agrees(s.table, op, Step(s, op).reply, DirectStep(s.table, op).reply)
    ensures Step(s, op).next.table == DirectStep(s.table, op).table
  {
  }

  /** Cache transparency: from a consistent state, the caching store and the bare
      table end with the same rows and agree on every reply, each judged against
      the rows the table holds when that call is made. */
  lemma {:induction false} CacheIsTransparent(s: State, ops: seq<Op>)
    requires CacheConsistent(s)
    ensures Run(s, ops).final.table == RunDirect(s.table, ops).table
    ensures forall i | 0 <= i < |ops| ::
      Agrees(RunDirect(s.table, ops[..i]).table, ops[i], Run(s, ops).replies[i], RunDirect(s.table, ops).replies[i])
    decreases |ops|
  {
    if ops != [] {
      var first := Step(s, ops[0]);
      StepAgrees(s, ops[0]);
      CacheIsTransparent(first.next, ops[1..]);
      var run, direct := Run(s, ops), RunDirect(s.table, ops);
      forall i | 0 <= i < |ops|
        ensures Agrees(RunDirect(s.table, ops[..i]).table, ops[i], run.replies[i], direct.replies[i])
      {
        if i == 0 {
          assert ops[..0] == [];
        } else {
          assert ops[i] == ops[1..][i - 1];
          assert ops[..i][0] == ops[0];
          assert ops[..i][1..] == ops[1..][..i - 1];
        }
      }
    }
  }

  /** With a healthy backend for reads, switching the cache off changes no reply. */
  lemma CacheIsInvisibleWhenHealthy(s: State, ops: seq<Op>)
    requires CacheConsistent(s) && ReadsHealthy(ops)
    ensures Run(s, ops).replies == RunDirect(s.table, ops).replies
    ensures Run(s, ops).final.table == RunDirect(s.table, ops).table
  {
    CacheIsTransparent(s, ops);
    var run, direct := Run(s, ops), RunDirect(s.table, ops);
    forall i | 0 <= i < |ops|
      ensures run.replies[i] == direct.replies[i]
    {
      assert Agrees(RunDirect(s.table, ops[..i]).table, ops[i], run.replies[i], direct.replies[i]);
    }
  }

  /** Create-once: no sequence of calls, by this store or another writer, removes or
      changes a row the table holds. */
  lemma {:induction false} RowsAreNeverOverwritten(s: State, ops: seq<Op>)
    ensures forall id | id in s.table :: id in Run(s, ops).final.table && Run(s, ops).final.table[id] == s.table[id]
    decreases |ops|
  {
    if ops != [] {
      RowsAreNeverOverwritten(Step(s, ops[0]).next, ops[1..]);
    }
  }

  /** Every op in `ops` is a fault-free SetConditionally of `id`. */
  predicate AllWritesOf(id: Id, ops: seq<Op>) {
    forall i | 0 <= i < |ops| :: ops[i].SetOp? && ops[i].id == id && ops[i].fault.None?
  }

  /** Once `id` has a row, every further write of it fails with IDAlreadyExists and
      changes nothing. */
  lemma {:induction false} LaterWritesLose(s: State, id: Id, ops: seq<Op>)
    requires id in s.table && AllWritesOf(id, ops)
    ensures Run(s, ops).final == s
    ensures forall i | 0 <= i < |ops| :: Run(s, ops).replies[i] == SetReply(Err(IDAlreadyExists(id)))
    decreases |ops|
  {
    if ops != [] {
      assert Step(s, ops[0]).next == s;
      assert AllWritesOf(id, ops[1..]) by {
        forall i | 0 <= i < |ops[1..]| ensures ops[1..][i].SetOp? && ops[1..][i].id == id && ops[1..][i].fault.None? {
          assert ops[1..][i] == ops[i + 1];
        }
      }
      LaterWritesLose(s, id, ops[1..]);
      var run := Run(s, ops);
      forall i | 0 <= i < |ops|
        ensures run.replies[i] == SetReply(Err(IDAlreadyExists(id)))
      {
        if i > 0 {
          assert run.replies[i] == Run(s, ops[1..]).replies[i - 1];
        }
      }
    }
  }

  /** Once `id` has a row, whatever else happens in between (reads, writes of other
      identifiers, puts by other writers, failed calls), every later fault-free
      write of `id` fails with IDAlreadyExists(id). */
  lemma {:induction false} LaterWritesLoseAnyRun(s: State, id: Id, ops: seq<Op>)
    requires id in s.table
    ensures forall i | 0 <= i < |ops| && ops[i].SetOp? && ops[i].id == id && ops[i].fault.None? ::
      Run(s, ops).replies[i] == SetReply(Err(IDAlreadyExists(id)))
    decreases |ops|
  {
    if ops != [] {
      var first := Step(s, ops[0]);
      LaterWritesLoseAnyRun(first.next, id, ops[1..]);
      var run := Run(s, ops);
      forall i | 0 <= i < |ops| && ops[i].SetOp? && ops[i].id == id && ops[i].fault.None?
        ensures run.replies[i] == SetReply(Err(IDAlreadyExists(id)))
      {
        if i > 0 {
          assert ops[i] == ops[1..][i - 1];
          assert run.replies[i] == Run(first.next, ops[1..]).replies[i - 1];
        }
      }
    }
  }

  /** Of a run of writes of one new identifier, exactly the first succeeds, every
      other one fails with IDAlreadyExists, and a later read returns the first keys. */
  lemma ExactlyOneWriteWins(s: State, id: Id, ops: seq<Op>, later: int, fillTime: int)
    requires id !in s.table && |ops| > 0 && AllWritesOf(id, ops)
    ensures Run(s, ops).replies[0] == SetReply(Ok(()))
    ensures forall i | 1 <= i < |ops| :: Run(s, ops).replies[i] == SetReply(Err(IDAlreadyExists(id)))
    ensures id in Run(s, ops).final.table && Run(s, ops).final.table[id] == Marshal(Item(id, ops[0].keys))
    ensures Get(Run(s, ops).final, id, later, fillTime, None).result == Ok(Some(ops[0].keys))
  {
    var op := ops[0];
    var first := Step(s, op);
    assert first.next == SetConditionally(s, id, op.keys, op.now, None).next;
    assert AllWritesOf(id, ops[1..]) by {
      forall i | 0 <= i < |ops[1..]| ensures ops[1..][i].SetOp? && ops[1..][i].id == id && ops[1..][i].fault.None? {
        assert ops[1..][i] == ops[i + 1];
      }
    }
    LaterWritesLose(first.next, id, ops[1..]);
    var run := Run(s, ops);
    forall i | 1 <= i < |ops|
      ensures run.replies[i] == SetReply(Err(IDAlreadyExists(id)))
    {
      assert run.replies[i] == Run(first.next, ops[1..]).replies[i - 1];
    }
    ReadYourWrite(s, id, op.keys, op.now, None, later, fillTime, None);
  }
}
