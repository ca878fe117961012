/** The Cypher request path (service.cpp): lookup or parse, execute, commit, and retry with growing
    pauses. What the transaction layer answers is given as a script. */
module Service {
  import opened Bytes
  import opened Ast
  import opened Store
  import opened Storage
  import opened Execution
  import CreateClause
  import Executor
  import Lru
  import Matching
  import Parsing
  import QueryCache
  import SortableDouble

  const MAX_RETRIES: nat := 5
  const INITIAL_BACKOFF_MS: nat := 10

  datatype Commit = Committed | Retryable | Fatal

  /** What the transaction layer does in one attempt. */
  datatype Attempt = NotBegun | Begun(commit: Commit)

  datatype Reply =
    | Success(json: string)
    | ExecutionFailed
    | FatalCommit
    | QueryError
    | RetriesExhausted

  function Backoff(i: nat): nat {
    if i == 0 then INITIAL_BACKOFF_MS else 2 * Backoff(i - 1)
  }

  predicate TriesAgain(a: Attempt) {
    a == NotBegun || a == Begun(Retryable)
  }

  /** One execution of a statement by a new executor takes the database from d to d1. */
  ghost predicate Ran(stod: Stod, d: Db, stmt: Statement<Lit>, json: string, d1: Db) {
    exists env :: StatementRuns(stod, Execution.Machine(d, CreateClause.FRESH, "", Running), stmt,
                                Execution.Machine(d1, env, json, Running))
  }

  /** The same for a query text, from the tables of d whatever the id counters are by then. */
  ghost predicate Answered(stod: Stod, d: Db, query: string, json: string, d1: Db) {
    Parsing.Parse(query).Some? && exists ids :: Ran(stod, d.(ids := ids), Parsing.Parse(query).value, json, d1)
  }

  /** The query parses, and its statement runs through on these tables, whatever the id counters are. */
  ghost predicate WillRun(stod: Stod, d: Db, query: string) {
    Parsing.Parse(query).Some? && forall ids :: AlwaysRuns(stod, d.(ids := ids), Parsing.Parse(query).value)
  }

  ghost predicate AlwaysRuns(stod: Stod, d: Db, stmt: Statement<Lit>) {
    forall n :: StatementRuns(stod, Execution.Machine(d, CreateClause.FRESH, "", Running), stmt, n) ==> n.status.Running?
  }

  /** The first attempt that is not repeated. */
  ghost predicate DecidedAt(script: seq<Attempt>, k: nat) {
    k < |script| && !TriesAgain(script[k]) && forall i :: 0 <= i < k ==> TriesAgain(script[i])
  }

  /** What the transaction layer decides for a statement that runs through. */
  predicate Outcome(a: Attempt, reply: Reply) {
    if a == Begun(Committed) then reply.Success? else reply.FatalCommit?
  }

  /** The pauses double, one after every attempt that is repeated. */
  predicate Paused(slept: seq<nat>, script: seq<Attempt>) {
    |slept| <= |script| && forall i :: 0 <= i < |slept| ==> PausedAt(slept, script, i)
  }

  predicate PausedAt(slept: seq<nat>, script: seq<Attempt>, i: nat)
    requires i < |slept| <= |script|
  {
    slept[i] == Backoff(i) && TriesAgain(script[i])
  }

  /** The six tables are the same; the id counters may have moved on. */
  predicate SameTables(a: Db, b: Db) {
    a.(ids := b.ids) == b
  }

  class Service {
    const storage: Storage
    const cache: QueryCache.QueryCache<Statement<Lit>>
    const cores: nat

    /** Whatever is cached is what parsing would give. */
    ghost predicate Valid()
      reads cache
    {
      cache.Valid() && forall q :: q in cache.cache ==> Parsing.Parse(q) == Some(cache.cache[q])
    }

    constructor (storage: Storage, cores: nat, capacity: nat)
      requires capacity > 0
      ensures Valid() && this.storage == storage && fresh(cache)
    {
      this.storage, this.cores := storage, cores;
      cache := new QueryCache.QueryCache(capacity);
    }

    method Lookup(query: string) returns (stmt: Option<Statement<Lit>>)
      requires Valid()
      modifies cache
      ensures Valid() && stmt == Parsing.Parse(query)
    {
      hide Parsing.Parse, QueryCache.Coupled;
      ghost var before := cache.State();
      stmt := cache.Lookup(Parsing.Parse, query);
      ServeKeepsParsed(before, cache.maxSize, query);
    }

    /** Executes and commits or aborts; None asks for another attempt. */
    method RunOnce(stmt: Statement<Lit>, commit: Commit) returns (reply: Option<Reply>)
      modifies storage
      ensures reply.None? ==> commit == Retryable
      ensures reply.Some? && reply.value.Success? ==>
        commit == Committed && Ran(storage.stod, old(storage.State()), stmt, reply.value.json, storage.State())
      ensures !(reply.Some? && reply.value.Success?) ==> SameTables(old(storage.State()), storage.State())
      ensures reply.Some? ==> !reply.value.RetriesExhausted? && (reply.value.FatalCommit? ==> commit == Fatal)
      ensures AlwaysRuns(storage.stod, old(storage.State()), stmt) ==>
        if commit == Retryable then reply.None? else reply.Some? && Outcome(Begun(commit), reply.value)
    {
      hide StatementRuns;
      var nodes, edges, labelIndex := storage.nodes, storage.edges, storage.labelIndex;
      var outIndex, inIndex, propIndex := storage.outIndex, storage.inIndex, storage.propIndex;
      var exec := new Executor.Executor(storage, cores);
      ghost var start := exec.Machine("", Running);
      var json, status := exec.Execute(stmt);
      ghost var end := exec.Machine(json, status);
      assert StatementRuns(storage.stod, start, stmt, end);
      if status.Running? && commit == Committed {
        reply := Some(Success(json));
      } else {
        storage.nodes, storage.edges, storage.labelIndex := nodes, edges, labelIndex;
        storage.outIndex, storage.inIndex, storage.propIndex := outIndex, inIndex, propIndex;
        reply := match status
          case Failed => Some(ExecutionFailed)
          case Thrown => Some(QueryError)
          case Running => if commit == Retryable then None else Some(FatalCommit);
      }
    }

    /** One attempt; None asks for another. */
    method Try(query: string, attempt: Attempt) returns (answer: Option<Reply>)
      requires Valid()
      modifies storage, cache
      ensures Valid()
      ensures answer.None? ==> TriesAgain(attempt)
      ensures answer.Some? ==> attempt.Begun? && !answer.value.RetriesExhausted?
      ensures answer.Some? && answer.value.Success? ==>
        attempt == Begun(Committed) && Answered(storage.stod, old(storage.State()), query, answer.value.json, storage.State())
      ensures !(answer.Some? && answer.value.Success?) ==> SameTables(old(storage.State()), storage.State())
      ensures answer.Some? && Parsing.Parse(query).None? ==> answer.value == QueryError
      ensures WillRun(storage.stod, old(storage.State()), query) ==>
        if TriesAgain(attempt) then answer.None? else answer.Some? && Outcome(attempt, answer.value)
    {
      hide Ran, Answered, Parsing.Parse, QueryCache.Coupled, AlwaysRuns, StatementRuns;
      if attempt == NotBegun { return None; }
      var stmt := Lookup(query);
      if stmt.None? { return Some(QueryError); }
      ghost var before := storage.State();
      WillRunNow(storage.stod, before, query);
      answer := RunOnce(stmt.value, attempt.commit);
      if answer.Some? && answer.value.Success? {
        RanIsAnswer(storage.stod, before, query, answer.value.json, storage.State());
      }
    }

    /** A request takes effect at most once: success is one execution of what the query text parses to,
        from the tables as they were; any other reply leaves the tables alone. For a query that runs through
        the first attempt that is not repeated decides: it succeeds if that attempt commits. */
    method Cypher(query: string, script: seq<Attempt>) returns (reply: Reply, slept: seq<nat>)
      requires Valid() && |script| >= MAX_RETRIES
      modifies storage, cache
      ensures Valid()
      ensures reply.Success? ==> Answered(storage.stod, old(storage.State()), query, reply.json, storage.State())
      ensures !reply.Success? ==> SameTables(old(storage.State()), storage.State())
      ensures |slept| <= MAX_RETRIES && Paused(slept, script)
      ensures reply.RetriesExhausted? <==> |slept| == MAX_RETRIES
      ensures !reply.RetriesExhausted? ==> script[|slept|].Begun?
      ensures reply.Success? ==> script[|slept|] == Begun(Committed)
      ensures !reply.RetriesExhausted? && Parsing.Parse(query).None? ==> reply == QueryError
      ensures WillRun(storage.stod, old(storage.State()), query) ==>
        && (forall k: nat :: k < MAX_RETRIES && DecidedAt(script, k) ==> |slept| == k && Outcome(script[k], reply))
        && ((forall i :: 0 <= i < MAX_RETRIES ==> TriesAgain(script[i])) ==> reply.RetriesExhausted?)
    {
      hide Answered, Paused, Backoff, Parsing.Parse, QueryCache.Coupled, WillRun;
      NoPause(script);
      var backoff := INITIAL_BACKOFF_MS;
      slept := [];
      while |slept| < MAX_RETRIES
        invariant Valid() && |slept| <= MAX_RETRIES && backoff == Backoff(|slept|)
        invariant Paused(slept, script) && forall i :: 0 <= i < |slept| ==> TriesAgain(script[i])
        invariant SameTables(old(storage.State()), storage.State())
      {
        ghost var before := storage.State();
        var answer := Try(query, script[|slept|]);
        SameFromHere(storage.stod, old(storage.State()), before, query, storage.State());
        if answer.Some? { return answer.value, slept; }
        NextPause(slept, script);
        BackoffDoubles(|slept|);
        slept := slept + [backoff];
        backoff := backoff * 2;
      }
      return RetriesExhausted, slept;
    }
  }

  /** With the same tables, only the id counters can differ. */
  lemma SameFromHere(stod: Stod, d: Db, now: Db, query: string, after: Db)
    requires SameTables(d, now)
    ensures WillRun(stod, d, query) ==> WillRun(stod, now, query)
    ensures forall json :: Answered(stod, now, query, json, after) ==> Answered(stod, d, query, json, after)
    ensures SameTables(now, after) ==> SameTables(d, after)
  {
    hide AlwaysRuns, Parsing.Parse, Ran;
    assert forall ids :: now.(ids := ids) == d.(ids := ids);
  }

  lemma WillRunNow(stod: Stod, d: Db, query: string)
    ensures WillRun(stod, d, query) ==> AlwaysRuns(stod, d, Parsing.Parse(query).value)
  {
    hide AlwaysRuns, Parsing.Parse;
    assert d == d.(ids := d.ids);
  }

  /** Queries that only read always run. */
  lemma ReadsWillRun(stod: Stod, d: Db, query: string)
    requires Parsing.Parse(query).Some?
    requires var stmt := Parsing.Parse(query).value; forall i :: 0 <= i < |stmt| ==> ReadOnly(stmt[i])
    ensures WillRun(stod, d, query)
  {
    hide StatementRuns, Parsing.Parse, ReadOnly;
    var stmt := Parsing.Parse(query).value;
    forall ids, n | StatementRuns(stod, Execution.Machine(d.(ids := ids), CreateClause.FRESH, "", Running), stmt, n)
      ensures n.status.Running?
    {
      QueriesKeepDb(stod, Execution.Machine(d.(ids := ids), CreateClause.FRESH, "", Running), stmt, n);
    }
  }

  lemma NoPause(script: seq<Attempt>)
    ensures Paused([], script) && Backoff(0) == INITIAL_BACKOFF_MS
  {
  }

  lemma NextPause(slept: seq<nat>, script: seq<Attempt>)
    requires Paused(slept, script) && |slept| < |script|
    ensures TriesAgain(script[|slept|]) ==> Paused(slept + [Backoff(|slept|)], script)
  {
    hide Backoff, TriesAgain;
    var more := slept + [Backoff(|slept|)];
    forall i | 0 <= i < |more| && TriesAgain(script[|slept|]) ensures PausedAt(more, script, i) {
      if i < |slept| { assert PausedAt(slept, script, i); }
    }
  }

  /** 10, 20, 40, ... milliseconds. */
  lemma {:induction false} BackoffIs(i: nat)
    ensures Backoff(i) == 10 * SortableDouble.Pow2(i)
  {
    if i > 0 { BackoffIs(i - 1); }
  }

  lemma BackoffDoubles(i: nat)
    ensures Backoff(i + 1) == Backoff(i) * 2
  {
  }

  lemma RanIsAnswer(stod: Stod, d: Db, query: string, json: string, d1: Db)
    requires Parsing.Parse(query).Some? && Ran(stod, d, Parsing.Parse(query).value, json, d1)
    ensures Answered(stod, d, query, json, d1)
  {
    hide Ran, Parsing.Parse;
    assert d == d.(ids := d.ids);
  }

  lemma ServeKeepsParsed(r: Lru.Recency<Statement<Lit>>, capacity: nat, query: string)
    requires forall q :: q in r.held ==> Parsing.Parse(q) == Some(r.held[q])
    ensures var r1 := Lru.Serve(r, capacity, Parsing.Parse, query);
      forall q :: q in r1.held ==> Parsing.Parse(q) == Some(r1.held[q])
  {
    hide Parsing.Parse;
  }
}
