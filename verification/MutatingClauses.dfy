/** The loops of DELETE and SET over the storage (executor.cpp). */
module MutatingClauses {
  import opened Bytes
  import opened Ast
  import opened Json
  import opened Store
  import opened PropertyIndex
  import opened Storage
  import opened Matching
  import opened SetClause
  import opened DeleteClause

  method DeleteIds(store: Storage, ids: seq<u64>, detach: bool)
    modifies store
    ensures store.State() == DeleteAll(old(store.State()), ids, detach)
  {
    hide DeleteOne;
    for i := 0 to |ids|
      invariant store.State() == DeleteAll(old(store.State()), ids[..i], detach)
    {
      assert ids[..i + 1][..i] == ids[..i];
      DeleteId(store, ids[i], detach);
    }
    assert ids[..|ids|] == ids;
  }

  method DeleteId(store: Storage, id: u64, detach: bool)
    modifies store
    ensures store.State() == DeleteOne(old(store.State()), id, detach)
  {
    hide DeleteEdge, DeleteEdges, OutgoingEdges, IncomingEdges, ToKey;
    var found, text := store.GetNode(id);
    if found && text != "" {
      if detach {
        var outs := store.GetOutgoingEdges(id);
        var ins := store.GetIncomingEdges(id);
        DeleteEdgeList(store, outs);
        DeleteEdgeList(store, ins);
      }
      store.DeleteNode(id, "");
    } else {
      var ok := store.DeleteEdge(id);
    }
  }

  method DeleteEdgeList(store: Storage, es: seq<u64>)
    modifies store
    ensures store.State() == DeleteEdges(old(store.State()), es)
  {
    hide DeleteEdge;
    for i := 0 to |es|
      invariant store.State() == DeleteEdges(old(store.State()), es[..i])
    {
      assert es[..i + 1][..i] == es[..i];
      var ok := store.DeleteEdge(es[i]);
    }
    assert es[..|es|] == es;
  }

  /** Phase 1 of SET; None when an update throws. */
  method CollectPending(store: Storage, env: Env, assignments: seq<Assignment<Lit>>)
    returns (pending: Option<map<u64, Pending>>)
    ensures pending == Collect(store.State(), AllSteps(env, assignments))
  {
    hide Collect, StepsOf;
    pending := Some(map[]);
    ghost var d := store.State();
    assert Collect(d, []) == Some(map[]) by { NothingCollected(d); }
    for a := 0 to |assignments|
      invariant pending.Some? && Collect(d, AllSteps(env, assignments[..a])) == pending
    {
      assert assignments[..a + 1][..a] == assignments[..a];
      var ids := Bound(env, assignments[a].variable);
      pending := CollectFor(store, pending.value, AllSteps(env, assignments[..a]), env, assignments[a], ids);
      if pending.None? {
        AllStepsPrefix(env, assignments, a + 1);
        var n := |AllSteps(env, assignments[..a + 1])|;
        CollectFails(d, AllSteps(env, assignments), n, AllSteps(env, assignments[..a + 1]));
        return;
      }
    }
    assert assignments[..|assignments|] == assignments;
  }

  lemma NothingCollected(d: Db)
    ensures Collect(d, []) == Some(map[])
  {
  }

  /** One assignment for every id of its variable. */
  method CollectFor(store: Storage, p0: map<u64, Pending>, ghost before: seq<SetStep>, env: Env,
                    a: Assignment<Lit>, ids: seq<u64>)
    returns (pending: Option<map<u64, Pending>>)
    requires Collect(store.State(), before) == Some(p0)
    ensures pending == Collect(store.State(), before + StepsOf(env, a, ids))
  {
    hide Update, Current, StepOf;
    var p := p0;
    ghost var d := store.State();
    ghost var steps := StepsOf(env, a, ids);
    assert before + steps[..0] == before;
    for i := 0 to |ids|
      invariant Collect(d, before + steps[..i]) == Some(p)
    {
      var s := StepOf(env, a, ids[i]);
      ghost var done := before + steps[..i];
      assert before + steps[..i + 1] == done + [s];
      assert (done + [s])[..|done|] == done;
      assert s.id == ids[i] by { StepHasId(env, a, ids[i]); }
      var entry := CurrentEntry(store, p, s);
      var text := UpdateJsonProperty(entry.text, s.key, s.text, s.isString);
      if text.None? {
        assert before + steps[..i + 1] == (before + steps)[..|done| + 1];
        CollectFails(d, before + steps, |done| + 1, before + steps[..i + 1]);
        return None;
      }
      p := p[s.id := Pending(entry.lbl, text.value)];
    }
    assert steps[..|ids|] == steps;
    return Some(p);
  }

  lemma StepHasId(env: Env, a: Assignment<Lit>, id: u64)
    ensures StepOf(env, a, id).id == id
  {
  }

  method CurrentEntry(store: Storage, p: map<u64, Pending>, s: SetStep) returns (entry: Pending)
    ensures entry == Current(store.State(), p, s)
  {
    hide TextOf;
    if s.id in p && p[s.id].text != "" { return p[s.id]; }
    var found, text := store.GetNode(s.id);
    return Pending(s.lbl, text);
  }

  lemma {:induction false} CollectFails(d: Db, steps: seq<SetStep>, n: nat, prefix: seq<SetStep>)
    requires n <= |steps| && prefix == steps[..n] && Collect(d, prefix).None?
    ensures Collect(d, steps).None?
    decreases |steps| - n
  {
    hide Update, Current;
    if n < |steps| {
      assert steps[..n + 1][..n] == steps[..n];
      CollectFails(d, steps, n + 1, steps[..n + 1]);
    } else {
      assert steps[..n] == steps;
    }
  }

  lemma {:induction false} AllStepsPrefix(env: Env, assignments: seq<Assignment<Lit>>, n: nat)
    requires n <= |assignments|
    ensures AllSteps(env, assignments[..n]) <= AllSteps(env, assignments)
    decreases |assignments| - n
  {
    hide StepsOf;
    if n < |assignments| {
      assert assignments[..n + 1][..n] == assignments[..n];
      AllStepsPrefix(env, assignments, n + 1);
    } else {
      assert assignments[..n] == assignments;
    }
  }

  /** Phase 2 of SET: the hash map of pending texts is written in an order nobody chose. */
  method WritePending(store: Storage, pending: map<u64, Pending>) returns (ghost ws: seq<Write>)
    modifies store
    ensures WritesOnce(pending, ws) && OrdersFit(store.stod, old(store.State()), ws)
    ensures store.State() == AfterWrites(store.stod, old(store.State()), ws)
  {
    hide DeltaOrders, DoWrite, TextOf;
    ws := [];
    var todo := pending.Keys;
    ghost var done: map<u64, Pending> := map[];
    while todo != {}
      invariant todo <= pending.Keys && done == map id | id in pending && id !in todo :: pending[id]
      invariant WritesOnce(done, ws) && OrdersFit(store.stod, old(store.State()), ws)
      invariant store.State() == AfterWrites(store.stod, old(store.State()), ws)
    {
      var id :| id in todo;
      todo := todo - {id};
      ghost var v := WriteOne(store, id, pending[id]);
      assert (ws + [v])[..|ws|] == ws;
      WritesOnceMore(done, ws, v);
      done := done[id := pending[id]];
      ws := ws + [v];
    }
    assert done == pending;
  }

  method WriteOne(store: Storage, id: u64, update: Pending) returns (ghost v: Write)
    modifies store
    ensures v.id == id && v.lbl == update.lbl && v.text == update.text
    ensures DeltaOrders(NodeText(old(store.State()), id), v.text, v.removals, v.additions)
    ensures store.State() == DoWrite(store.stod, old(store.State()), v)
  {
    hide DeltaOrders, Store.UpdateNodeWithLabel, TextOf;
    if update.lbl != "" {
      ghost var removals, additions := store.UpdateNodeWithLabel(id, update.lbl, update.text);
      v := Write(id, update.lbl, update.text, removals, additions);
    } else {
      ghost var removals, additions := SomeOrders(NodeText(store.State(), id), update.text);
      v := Write(id, update.lbl, update.text, removals, additions);
      store.UpdateNode(id, update.text);
    }
  }

  lemma WritesOnceMore(p: map<u64, Pending>, ws: seq<Write>, v: Write)
    requires WritesOnce(p, ws) && v.id !in p
    ensures WritesOnce(p[v.id := Pending(v.lbl, v.text)], ws + [v])
  {
    var more := ws + [v];
    assert more[|ws|].id == v.id;
    forall id | id in p ensures exists i :: 0 <= i < |more| && more[i].id == id {
      var i :| 0 <= i < |ws| && ws[i].id == id;
      assert more[i].id == id;
    }
  }
}
