/** Id allocation across restarts: the in-memory counters are lost, the durable sequence is not. */
module IdRuns {
  import opened Bytes
  import opened Store
  import opened Runs

  datatype Event = Issue | Restart

  function After(s: Ids, es: seq<Event>): Ids
    decreases |es|
  {
    if es == [] then s
    else After(if es[0].Issue? then Allocate(s) else Recover(s), es[1..])
  }

  /** The ids handed out, in order. */
  function Issued(s: Ids, es: seq<Event>): seq<u64>
    decreases |es|
  {
    if es == [] then []
    else if es[0].Issue? then [s.next] + Issued(Allocate(s), es[1..])
    else Issued(Recover(s), es[1..])
  }

  /** How often the durable sequence is written. */
  function Puts(s: Ids, es: seq<Event>): nat
    decreases |es|
  {
    if es == [] then 0
    else if es[0].Issue? then (if s.remaining == 0 then 1 else 0) + Puts(Allocate(s), es[1..])
    else Puts(Recover(s), es[1..])
  }

  /** Below the 63-bit bound all the way. */
  predicate Fits(s: Ids, es: seq<Event>)
    decreases |es|
  {
    es == [] ||
    if es[0].Issue? then IdsLeft(s) && Fits(Allocate(s), es[1..]) else Fits(Recover(s), es[1..])
  }

  /** No id is issued twice, however often the process restarts in between. */
  lemma {:induction false} IdsNeverRepeat(s: Ids, es: seq<Event>)
    requires IdsInv(s) && Fits(s, es)
    ensures IdsInv(After(s, es))
    ensures forall i, j :: 0 <= i < j < |Issued(s, es)| ==> Issued(s, es)[i] < Issued(s, es)[j]
    ensures forall i :: 0 <= i < |Issued(s, es)| ==> s.next <= Issued(s, es)[i] < After(s, es).next
    ensures s.next <= After(s, es).next
    decreases |es|
  {
    if es != [] {
      if es[0].Issue? {
        AllocateKeepsIds(s);
        IdsNeverRepeat(Allocate(s), es[1..]);
      } else {
        RecoverKeepsIds(s);
        IdsNeverRepeat(Recover(s), es[1..]);
      }
    }
  }

  /** A restart resumes above everything issued before and skips at most 63 ids. */
  lemma RestartSkipsLittle(s: Ids, es: seq<Event>)
    requires IdsInv(s) && Fits(s, es)
    ensures var (before, after) := (After(s, es), Recover(After(s, es)));
      && before.next <= after.next <= before.next + 63
      && forall i :: 0 <= i < |Issued(s, es)| ==> Issued(s, es)[i] < after.next
  {
    IdsNeverRepeat(s, es);
    RecoverKeepsIds(After(s, es));
  }

  predicate OnlyIssues(es: seq<Event>) {
    forall i :: 0 <= i < |es| ==> es[i] == Issue
  }

  /** With r ids left in the batch, n allocations write the sequence ceil((n - r) / 64) times. */
  lemma {:induction false} PutsFrom(s: Ids, es: seq<Event>)
    requires OnlyIssues(es) && s.remaining < SEQUENCE_BATCH_SIZE
    ensures Puts(s, es) == if |es| <= s.remaining then 0 else (|es| - s.remaining + 63) / 64
    decreases |es|
  {
    if es != [] {
      PutsFrom(Allocate(s), es[1..]);
    }
  }

  /** From a fresh or recovered state, n allocations write the sequence ceil(n / 64) times. */
  lemma PutsAreBatched(s: Ids, es: seq<Event>)
    requires OnlyIssues(es) && (s == FRESH_IDS || exists t :: s == Recover(t))
    ensures Puts(s, es) == (|es| + 63) / 64
  {
    PutsFrom(s, es);
  }

  lemma FreshIds()
    ensures IdsInv(FRESH_IDS)
  {
  }
}
