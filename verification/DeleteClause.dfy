/** DELETE and DETACH DELETE (executor.cpp). */
module DeleteClause {
  import opened Bytes
  import opened Store
  import opened Runs
  import opened RunResults
  import opened Matching

  function DeleteEdges(d: Db, es: seq<u64>): Db {
    if es == [] then d else DeleteEdge(DeleteEdges(d, es[..|es| - 1]), es[|es| - 1])
  }

  /** One id of the variable's list: a live node, with its edges if asked, or else an edge. Both edge
      lists are read before anything is deleted. */
  function DeleteOne(d: Db, id: u64, detach: bool): Db {
    if NodeText(d, id) != "" then
      var d1 := if detach then DeleteEdges(DeleteEdges(d, OutgoingEdges(d, id)), IncomingEdges(d, id)) else d;
      DeleteNode(d1, id, "")
    else DeleteEdge(d, id)
  }

  function DeleteAll(d: Db, ids: seq<u64>, detach: bool): Db {
    if ids == [] then d else DeleteOne(DeleteAll(d, ids[..|ids| - 1], detach), ids[|ids| - 1], detach)
  }

  /** The ids DELETE works through. A variable is forgotten once its list is done, so a repeated one
      adds nothing. */
  function DeletedIds(env: Env, vars: seq<string>): seq<u64> {
    if vars == [] then [] else
    var n := |vars| - 1;
    DeletedIds(env, vars[..n]) + if vars[n] in vars[..n] then [] else Bound(env, vars[n])
  }

  function Forget(env: Env, vars: seq<string>): Env {
    env.(context := env.context - set x | x in vars)
  }

  lemma {:induction false} DeleteAllAppend(d: Db, a: seq<u64>, b: seq<u64>, detach: bool)
    ensures DeleteAll(d, a + b, detach) == DeleteAll(DeleteAll(d, a, detach), b, detach)
  {
    hide DeleteOne;
    if b == [] {
      assert a + b == a;
    } else {
      var n := |b| - 1;
      assert (a + b)[..|a| + n] == a + b[..n];
      DeleteAllAppend(d, a, b[..n], detach);
    }
  }

  lemma NothingDeleted(d: Db, env: Env, detach: bool)
    ensures DeleteAll(d, DeletedIds(env, []), detach) == d && Forget(env, []) == env
  {
    assert env.context - {} == env.context;
  }

  /** One more variable: its list if it is still there, or nothing. */
  lemma NextVariable(d: Db, env: Env, vars: seq<string>, v: nat, detach: bool)
    requires v < |vars|
    ensures var now := Forget(env, vars[..v]);
      && DeleteAll(d, DeletedIds(env, vars[..v + 1]), detach)
         == DeleteAll(DeleteAll(d, DeletedIds(env, vars[..v]), detach), Bound(now, vars[v]), detach)
      && Forget(env, vars[..v + 1]) == now.(context := now.context - {vars[v]})
      && (vars[v] !in now.context ==> now.context - {vars[v]} == now.context)
      && DeleteAll(DeleteAll(d, DeletedIds(env, vars[..v]), detach), [], detach)
         == DeleteAll(d, DeletedIds(env, vars[..v]), detach)
  {
    hide DeleteOne;
    var x := vars[v];
    assert vars[..v + 1][..v] == vars[..v] && vars[..v + 1][v] == x;
    assert forall y :: y in vars[..v + 1] <==> y in vars[..v] || y == x;
    var now := Forget(env, vars[..v]);
    assert Bound(now, x) == if x in vars[..v] then [] else Bound(env, x);
    DeleteAllAppend(d, DeletedIds(env, vars[..v]), Bound(now, x), detach);
    assert DeletedIds(env, vars[..v]) + [] == DeletedIds(env, vars[..v]);
    assert Forget(env, vars[..v + 1]).context == now.context - {x};
  }

  // ---- what is left ----

  function Known(w: World, es: seq<u64>): set<u64> {
    set e | e in es && e in w.edges
  }

  /** The edges that start or end at the node. */
  function Incident(w: World, id: u64): set<u64> {
    set e | e in w.edges && (w.edges[e].source == id || w.edges[e].target == id)
  }

  lemma {:induction false} DeleteEdgesEffect(stod: Stod, w: World, es: seq<u64>)
    requires Inv(stod, w)
    ensures DeleteEdges(w.db, es).nodes == w.db.nodes
    ensures Inv(stod, w.(db := DeleteEdges(w.db, es), deletedEdges := w.deletedEdges + Known(w, es)))
  {
    hide Inv, DeleteEdge;
    if es == [] {
      assert w.deletedEdges + Known(w, es) == w.deletedEdges;
    } else {
      var n := |es| - 1;
      DeleteEdgesEffect(stod, w, es[..n]);
      var w1 := w.(db := DeleteEdges(w.db, es[..n]), deletedEdges := w.deletedEdges + Known(w, es[..n]));
      StepKeepsInv(stod, w1, DeleteEdgeOp(es[n]));
      assert forall e :: e in es <==> e in es[..n] || e == es[n];
      assert w.deletedEdges + Known(w, es)
          == if es[n] in w.edges then w1.deletedEdges + {es[n]} else w1.deletedEdges;
      DeleteEdgeKeepsNodes(w1.db, es[n]);
    }
  }

  lemma DeleteEdgeKeepsNodes(d: Db, e: u64)
    ensures DeleteEdge(d, e).nodes == d.nodes
  {
    hide GetEdge;
  }

  /** The edges one step of DETACH DELETE removes. */
  function Removed(w: World, id: u64): set<u64> {
    if NodeText(w.db, id) != "" then Incident(w, id) else Known(w, [id])
  }

  function AfterOne(w: World, id: u64): World {
    w.(db := DeleteOne(w.db, id, true), deletedEdges := w.deletedEdges + Removed(w, id),
       deletedNodes := if NodeText(w.db, id) != "" then Buried(w, id) else w.deletedNodes)
  }

  lemma DeleteOneEffect(stod: Stod, w: World, id: u64)
    requires Inv(stod, w)
    ensures Inv(stod, AfterOne(w, id))
    ensures forall x :: NodeText(AfterOne(w, id).db, x) == if x == id then "" else NodeText(w.db, x)
  {
    hide Inv, DeleteEdge, OutgoingEdges, IncomingEdges, ToKey, FromKey, DeleteEdges, GetEdge;
    if NodeText(w.db, id) != "" {
      LiveIsLabelled(stod, w, id);
      var outs, ins := OutgoingEdges(w.db, id), IncomingEdges(w.db, id);
      AdjacencyOf(stod, w, id);
      DeleteEdgesEffect(stod, w, outs);
      var w1 := w.(db := DeleteEdges(w.db, outs), deletedEdges := w.deletedEdges + Known(w, outs));
      DeleteEdgesEffect(stod, w1, ins);
      var w2 := w1.(db := DeleteEdges(w1.db, ins), deletedEdges := w1.deletedEdges + Known(w1, ins));
      assert Known(w, outs) + Known(w1, ins) == Incident(w, id);
      assert w2.deletedEdges == w.deletedEdges + Incident(w, id);
      StepKeepsInv(stod, w2, DeleteNodeOp(id, false));
      assert Step(stod, w2, DeleteNodeOp(id, false)) == AfterOne(w, id);
    } else {
      StepKeepsInv(stod, w, DeleteEdgeOp(id));
      assert w.deletedEdges + Known(w, [id]) == if id in w.edges then w.deletedEdges + {id} else w.deletedEdges;
      DeleteEdgeKeepsNodes(w.db, id);
    }
  }

  lemma LiveIsLabelled(stod: Stod, w: World, id: u64)
    requires Inv(stod, w) && NodeText(w.db, id) != ""
    ensures id in w.labels && id !in w.edges && id !in w.deletedNodes
  {
    hide IndexInv, RecordsInv, IndexedBy, PropertyIndex.ValidText, PropertyIndex.NulFree;
    assert FromKey(ToKey(id)) in w.labels;
  }

  /** e has an end at a live node of the list, or is itself in the list. */
  predicate Hit(w: World, ids: seq<u64>, e: u64) {
    e in w.edges &&
    (e in ids
     || (w.edges[e].source in ids && NodeText(w.db, w.edges[e].source) != "")
     || (w.edges[e].target in ids && NodeText(w.db, w.edges[e].target) != ""))
  }

  /** The live nodes of the list with the texts they had. */
  function BuriedAll(w: World, ids: seq<u64>): map<u64, string> {
    w.deletedNodes + LastTexts(w.db, ids)
  }

  function LastTexts(d: Db, ids: seq<u64>): map<u64, string> {
    map id | id in ids && NodeText(d, id) != "" :: NodeText(d, id)
  }

  function AfterAll(w: World, ids: seq<u64>): World {
    w.(db := DeleteAll(w.db, ids, true),
       deletedEdges := w.deletedEdges + (set e | e in w.edges && Hit(w, ids, e)),
       deletedNodes := BuriedAll(w, ids))
  }

  lemma {:induction false} DeleteAllEffect(stod: Stod, w: World, ids: seq<u64>)
    requires Inv(stod, w)
    ensures Inv(stod, AfterAll(w, ids))
    ensures forall x :: NodeText(AfterAll(w, ids).db, x) == if x in ids then "" else NodeText(w.db, x)
  {
    hide Inv, DeleteOne, TextOf;
    if ids == [] {
      assert AfterAll(w, ids) == w;
    } else {
      var n := |ids| - 1;
      var id := ids[n];
      DeleteAllEffect(stod, w, ids[..n]);
      var w1 := AfterAll(w, ids[..n]);
      DeleteOneEffect(stod, w1, id);
      assert forall x :: x in ids <==> x in ids[..n] || x == id;
      if NodeText(w.db, id) != "" { LiveIsLabelled(stod, w, id); }
      OneMoreDeleted(w, ids);
    }
  }

  lemma OneMoreDeleted(w: World, ids: seq<u64>)
    requires ids != []
    requires var (n, w1) := (|ids| - 1, AfterAll(w, ids[..|ids| - 1]));
      && (forall x :: NodeText(w1.db, x) == if x in ids[..n] then "" else NodeText(w.db, x))
      && (NodeText(w.db, ids[n]) != "" ==> ids[n] !in w.deletedNodes && ids[n] !in w.edges)
    ensures AfterOne(AfterAll(w, ids[..|ids| - 1]), ids[|ids| - 1]) == AfterAll(w, ids)
  {
    hide DeleteOne, NodeText, Hit, BuriedAll, Buried, Removed;
    EdgesOneMore(w, ids);
    NodesOneMore(w, ids, AfterAll(w, ids[..|ids| - 1]));
  }

  lemma NodesOneMore(w: World, ids: seq<u64>, w1: World)
    requires ids != [] && w1.deletedNodes == BuriedAll(w, ids[..|ids| - 1])
    requires forall x :: NodeText(w1.db, x) == if x in ids[..|ids| - 1] then "" else NodeText(w.db, x)
    requires NodeText(w.db, ids[|ids| - 1]) != "" ==> ids[|ids| - 1] !in w.deletedNodes
    ensures BuriedAll(w, ids)
         == if NodeText(w1.db, ids[|ids| - 1]) != "" then Buried(w1, ids[|ids| - 1]) else w1.deletedNodes
  {
    hide NodeText, LastTexts;
    LastTextsOneMore(w.db, ids);
  }

  lemma LastTextsOneMore(d: Db, ids: seq<u64>)
    requires ids != []
    ensures var (n, id) := (|ids| - 1, ids[|ids| - 1]);
      && (id in LastTexts(d, ids[..n]) ==> id in ids[..n])
      && LastTexts(d, ids)
         == if NodeText(d, id) == "" || id in ids[..n] then LastTexts(d, ids[..n])
            else LastTexts(d, ids[..n])[id := NodeText(d, id)]
  {
    hide NodeText;
    assert forall x :: x in ids <==> x in ids[..|ids| - 1] || x == ids[|ids| - 1];
  }

  lemma EdgesOneMore(w: World, ids: seq<u64>)
    requires ids != []
    requires var (n, w1) := (|ids| - 1, AfterAll(w, ids[..|ids| - 1]));
      && (forall x :: NodeText(w1.db, x) == if x in ids[..n] then "" else NodeText(w.db, x))
      && (NodeText(w.db, ids[n]) != "" ==> ids[n] !in w.edges)
    ensures AfterOne(AfterAll(w, ids[..|ids| - 1]), ids[|ids| - 1]).deletedEdges == AfterAll(w, ids).deletedEdges
  {
    hide DeleteOne, NodeText, DeleteAll, BuriedAll, Buried;
    assert forall x :: x in ids <==> x in ids[..|ids| - 1] || x == ids[|ids| - 1];
  }

  /** DETACH DELETE leaves no dangling edge: afterwards exactly those edges are gone that were in the
      list or had an end at a live node of the list (a self-loop is met twice and deleted once), all
      other edges are what they were, and the listed nodes have lost their text. */
  lemma DetachLeavesNoDanglingEdge(stod: Stod, w: World, ids: seq<u64>)
    requires Inv(stod, w)
    ensures var d := DeleteAll(w.db, ids, true);
      && (forall e :: GetEdge(d, e) == if Hit(w, ids, e) then None else GetEdge(w.db, e))
      && (forall x :: NodeText(d, x) == if x in ids then "" else NodeText(w.db, x))
      && (forall e :: GetEdge(d, e).Some? ==>
            !(w.edges[e].source in ids && NodeText(w.db, w.edges[e].source) != "")
            && !(w.edges[e].target in ids && NodeText(w.db, w.edges[e].target) != ""))
  {
    hide Inv, DeleteAll, GetEdge, TextOf;
    DeleteAllEffect(stod, w, ids);
    var w1 := AfterAll(w, ids);
    forall e ensures GetEdge(w1.db, e) == (if Hit(w, ids, e) then None else GetEdge(w.db, e))
             ensures GetEdge(w1.db, e).Some? ==> e in w.edges && !Hit(w, ids, e)
    {
      EdgeIs(stod, w, e);
      EdgeIs(stod, w1, e);
    }
  }

  // ---- without DETACH ----

  lemma PlainStep(stod: Stod, w: World, id: u64) returns (w': World)
    requires Inv(stod, w)
    ensures Inv(stod, w') && w'.db == DeleteOne(w.db, id, false) && w'.labels == w.labels && w'.edges == w.edges
    ensures w'.deletedEdges == w.deletedEdges + Known(w, [id])
    ensures forall x :: NodeText(w'.db, x) == if x == id then "" else NodeText(w.db, x)
  {
    hide Inv, DeleteEdge, ToKey, FromKey, TextOf, Buried;
    assert Known(w, [id]) == if id in w.edges then {id} else {};
    if NodeText(w.db, id) != "" {
      LiveIsLabelled(stod, w, id);
      StepKeepsInv(stod, w, DeleteNodeOp(id, false));
      w' := Step(stod, w, DeleteNodeOp(id, false));
      OthersKeepText(w.db.nodes, id, "");
      TextWritten(w.db.nodes, id, "");
    } else {
      StepKeepsInv(stod, w, DeleteEdgeOp(id));
      w' := Step(stod, w, DeleteEdgeOp(id));
      DeleteEdgeKeepsNodes(w.db, id);
    }
  }

  lemma {:induction false} PlainRun(stod: Stod, w: World, ids: seq<u64>) returns (w': World)
    requires Inv(stod, w)
    ensures Inv(stod, w') && w'.db == DeleteAll(w.db, ids, false) && w'.labels == w.labels && w'.edges == w.edges
    ensures w'.deletedEdges == w.deletedEdges + Known(w, ids)
    ensures forall x :: NodeText(w'.db, x) == if x in ids then "" else NodeText(w.db, x)
  {
    hide Inv, DeleteOne, NodeText;
    if ids == [] {
      w' := w;
      assert Known(w, ids) == {};
    } else {
      var n := |ids| - 1;
      var w1 := PlainRun(stod, w, ids[..n]);
      w' := PlainStep(stod, w1, ids[n]);
      assert forall x :: x in ids <==> x in ids[..n] || x == ids[n];
      assert Known(w, ids) == Known(w, ids[..n]) + Known(w, [ids[n]]);
    }
  }

  /** DELETE without DETACH: exactly the listed nodes lose their text and exactly the listed edges are gone.
      Every other edge stays what it was, also where one of its ends is gone. */
  lemma PlainDeleteIs(stod: Stod, w: World, ids: seq<u64>)
    requires Inv(stod, w)
    ensures var d := DeleteAll(w.db, ids, false);
      && (forall x :: NodeText(d, x) == if x in ids then "" else NodeText(w.db, x))
      && (forall e :: GetEdge(d, e) == if e in ids then None else GetEdge(w.db, e))
  {
    hide Inv, DeleteAll, GetEdge, NodeText;
    var w1 := PlainRun(stod, w, ids);
    forall e ensures GetEdge(w1.db, e) == if e in ids then None else GetEdge(w.db, e) {
      EdgeIs(stod, w, e);
      EdgeIs(stod, w1, e);
    }
  }

  // ---- what is deleted, and what is forgotten ----

  /** The ids that are deleted are those some listed variable is bound to. */
  lemma {:induction false} DeletedIdsAre(env: Env, vars: seq<string>)
    ensures forall id :: id in DeletedIds(env, vars) <==> exists v :: v in vars && id in Bound(env, v)
  {
    hide Bound;
    if vars != [] {
      var n := |vars| - 1;
      DeletedIdsAre(env, vars[..n]);
      assert forall v :: v in vars <==> v in vars[..n] || v == vars[n];
    }
  }

  /** The listed variables are forgotten and no others; labels stay. */
  lemma ForgottenAre(env: Env, vars: seq<string>)
    ensures forall x :: x in Forget(env, vars).context <==> x in env.context && x !in vars
    ensures forall x :: Bound(Forget(env, vars), x) == if x in vars then [] else Bound(env, x)
    ensures Forget(env, vars).labels == env.labels && Forget(env, vars).unwind == env.unwind
  {
  }
}
