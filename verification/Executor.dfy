/** The query executor (executor.cpp): one method per clause, each tied to the function that says what
    the clause means. */
module Executor {
  import opened Bytes
  import opened Ast
  import opened Json
  import opened Store
  import opened Storage
  import opened Matching
  import opened Where
  import opened CreateClause
  import opened ReturnClause
  import opened Execution
  import Batching
  import DeleteClause
  import MutatingClauses
  import ReturnBatches
  import SetClause

  class Executor {
    const store: Storage
    const cores: nat
    var context: map<string, seq<u64>>
    var contextLabels: map<string, string>
    var unwindContext: map<string, Binding>

    constructor (store: Storage, cores: nat)
      ensures this.store == store && this.cores == cores && Env() == FRESH
    {
      this.store, this.cores := store, cores;
      context, contextLabels, unwindContext := map[], map[], map[];
    }

    ghost function Env(): Env
      reads this
    {
      Matching.Env(context, contextLabels, unwindContext)
    }

    ghost function Db(): Db
      reads store
    {
      store.State()
    }

    // ---- CREATE ----

    method EvaluateProperties(props: seq<Prop<Lit>>) returns (text: string)
      ensures text == EvalProps(props, unwindContext)
    {
      var list := "";
      for i := 0 to |props|
        invariant list == EvalList(props[..i], unwindContext)
      {
        assert props[..i + 1][..i] == props[..i];
        if i > 0 { list := list + ", "; }
        var line := "\"" + (props[i].key + ("\": " + PropText(props[i].value, unwindContext)));
        list := list + line;
      }
      assert props[..|props|] == props;
      return "{" + list + "}";
    }

    method NodeFor(node: Node<Lit>) returns (ok: bool, id: u64)
      modifies this, store
      ensures NodeOutcome(Outcome(Db(), Env(), ok), id) == EnsureNode(store.stod, old(Db()), old(Env()), node)
    {
      if node.variable != "" && node.variable in context && context[node.variable] != [] {
        return true, context[node.variable][0];
      }
      var props := EvaluateProperties(node.properties);
      ok, id := store.CreateNode(node.lbl, props);
      if ok && node.variable != "" {
        context := context[node.variable := [id]];
      }
    }

    method CreateElement(path: Path<Lit>, i: nat) returns (ok: bool)
      requires i < |path|
      modifies this, store
      ensures Outcome(Db(), Env(), ok) == CreateClause.CreateElement(store.stod, old(Db()), old(Env()), path, i)
    {
      var id;
      ok, id := NodeFor(path[i].node);
      if !ok || path[i].rel.None? || i + 1 >= |path| { return; }
      var rel := path[i].rel.value;
      var next;
      ok, next := NodeFor(path[i + 1].node);
      if !ok { return; }
      var relProps := EvaluateProperties(rel.properties);
      var source, target := id, next;
      if rel.direction == "<-" { source, target := next, id; }
      var edgeId;
      ok, edgeId := store.CreateEdge(source, target, rel.kind, relProps);
      if ok && rel.variable != "" {
        context := context[rel.variable := [edgeId]];
      }
    }

    method ExecuteCreate(paths: seq<Path<Lit>>) returns (ok: bool)
      modifies this, store
      ensures Outcome(Db(), Env(), ok) == CreatePaths(store.stod, old(Db()), old(Env()), paths)
    {
      hide CreateClause.CreateElement;
      ok := true;
      for p := 0 to |paths|
        invariant ok
        invariant Outcome(Db(), Env(), true) == CreatePaths(store.stod, old(Db()), old(Env()), paths[..p])
      {
        assert paths[..p + 1][..p] == paths[..p];
        ghost var before := CreatePaths(store.stod, old(Db()), old(Env()), paths[..p]);
        for i := 0 to |paths[p]|
          invariant ok
          invariant Outcome(Db(), Env(), true)
                 == CreateElements(store.stod, before.db, before.env, paths[p], i)
        {
          ok := CreateElement(paths[p], i);
          if !ok {
            CreateElementsFail(store.stod, before.db, before.env, paths[p], i + 1);
            CreatePathsFail(store.stod, old(Db()), old(Env()), paths, p + 1);
            return;
          }
        }
      }
      assert paths[..|paths|] == paths;
    }

    // ---- MATCH ----

    /** The inline properties through the index: sorted lists, intersected one after the other. `ok` is
        false as soon as a property is not a literal. */
    method IntersectIndexed(lbl: string, props: seq<Prop<Lit>>) returns (ok: bool, ids: seq<u64>)
      requires props != []
      ensures ok == AllLiterals(props)
      ensures ok ==> ids == IndexedIds(store.stod, Db(), lbl, props)
    {
      hide NodesByProperty, Sort, Intersect;
      ids := [];
      for i := 0 to |props|
        invariant AllLiterals(props[..i])
        invariant i > 0 ==> ids == IndexedIds(store.stod, Db(), lbl, props[..i])
      {
        if !props[i].value.Literal? { return false, []; }
        var found := store.FindNodesByProperty(lbl, props[i].key, props[i].value.lit.text);
        assert props[..i + 1][..i] == props[..i];
        ids := if i == 0 then Sort(found) else Intersect(ids, Sort(found));
      }
      assert props[..|props|] == props;
      ok := true;
    }

    method InlineMatches(text: string, props: seq<Prop<Lit>>) returns (all: bool)
      ensures all == InlineMatch(text, props)
    {
      hide GetValue;
      for i := 0 to |props|
        invariant forall j :: 0 <= j < i && props[j].value.Literal? ==>
          GetValue(text, props[j].key) == props[j].value.lit.text
      {
        if props[i].value.Literal? {
          var value := GetJsonValue(text, props[i].key);
          if value != props[i].value.lit.text { return false; }
        }
      }
      return true;
    }

    /** The streaming label scan with its inline filter. */
    method ScanLabel(node: Node<Lit>) returns (ids: seq<u64>)
      ensures ids == ScannedIds(Db(), node)
    {
      hide InlineMatch, IteratedByLabel, KeepInline, KeepsInline, LabelIterator.Rest;
      ids := [];
      var iter := store.FindNodesByLabelIter(node.lbl);
      ghost var d, all := Db(), iter.Rest();
      ghost var n := 0;
      NothingScanned(d, node.properties);
      assert all[0..] == all;
      var more := iter.Next();
      if more { TailParts(all, 0, iter.currentId, iter.Rest()); }
      while more
        invariant fresh(iter) && Db() == d && all == IteratedByLabel(d, node.lbl) && n <= |all|
        invariant more ==> n < |all| && all[n] == iter.currentId && all[n + 1..] == iter.Rest()
        invariant !more ==> n == |all|
        invariant ids == if node.properties == [] then all[..n] else KeepInline(d, all[..n], node.properties)
        decreases |all| - n
      {
        var keep := KeepNode(node, iter.currentId);
        ScanNext(d, all[..n], all[n], node.properties);
        assert all[..n + 1] == all[..n] + [all[n]];
        if keep { ids := ids + [iter.currentId]; }
        n := n + 1;
        more := iter.Next();
        if more { TailParts(all, n, iter.currentId, iter.Rest()); }
      }
      assert all[..|all|] == all;
    }

    /** The inline filter of the scan; without inline properties nothing is loaded. */
    method KeepNode(node: Node<Lit>, id: u64) returns (keep: bool)
      ensures keep == (node.properties == [] || KeepsInline(Db(), id, node.properties))
    {
      hide InlineMatch, TextOf;
      if node.properties == [] { return true; }
      var found, text := store.GetNode(id);
      if !found { return false; }
      keep := InlineMatches(text, node.properties);
    }

    method MatchFirstNode(node: Node<Lit>)
      modifies this
      ensures Env() == MatchFirst(store.stod, Db(), old(Env()), node)
    {
      hide IndexedIds, ScannedIds;
      if node.lbl == "" { return; }
      var usedIndex := false;
      if node.properties != [] {
        var allIndexed, intersection := IntersectIndexed(node.lbl, node.properties);
        if allIndexed {
          if node.variable != "" {
            context := context[node.variable := intersection];
            contextLabels := contextLabels[node.variable := node.lbl];
          }
          usedIndex := true;
        }
      }
      if !usedIndex {
        var ids := ScanLabel(node);
        if node.variable != "" && ids != [] {
          context := context[node.variable := ids];
          contextLabels := contextLabels[node.variable := node.lbl];
        }
      }
    }

    /** The edges of one source node; every edge that fits is remembered under the relationship's
        variable at once. */
    method FollowEdges(edgeIds: seq<u64>, rel: Rel<Lit>, h: HopSpec, labelSet: set<u64>)
      returns (ids: seq<u64>, ghost arcs: seq<Arc>)
      requires h.lbl != "" ==> forall x :: x in labelSet <==> x in NodesByLabel(Db(), h.lbl)
      modifies this`context
      ensures arcs == ArcsAlong(Db(), edgeIds, h) && ids == Ends(arcs)
      ensures context == Grown(old(context), rel.variable, Edges(arcs))
    {
      hide NodesByLabel, GetEdge, OutgoingEdges;
      ids, arcs := [], [];
      for i := 0 to |edgeIds|
        invariant arcs == ArcsAlong(Db(), edgeIds[..i], h) && ids == Ends(arcs)
        invariant context == Grown(old(context), rel.variable, Edges(arcs))
      {
        assert edgeIds[..i + 1][..i] == edgeIds[..i];
        var found := store.FindEdge(edgeIds[i]);
        if found.None? { continue; }
        var edge := found.value;
        if h.kind != "" && edge.lbl != h.kind { continue; }
        var end := if h.outgoing then edge.target else edge.source;
        if h.lbl != "" && end !in labelSet { continue; }
        ids := ids + [end];
        if rel.variable != "" {
          var sofar := if rel.variable in context then context[rel.variable] else [];
          context := context[rel.variable := sofar + [edgeIds[i]]];
        }
        GrownStep(old(context), rel.variable, arcs, Arc(edgeIds[i], end));
        arcs := arcs + [Arc(edgeIds[i], end)];
      }
      assert edgeIds[..|edgeIds|] == edgeIds;
    }

    /** One relationship of a path. The list of sources is the one bound before the hop. */
    method MatchRelationship(path: Path<Lit>, i: nat, labelSet: set<u64>)
      requires i + 1 < |path|
      requires path[i + 1].node.lbl != "" ==>
        forall x :: x in labelSet <==> x in NodesByLabel(Db(), path[i + 1].node.lbl)
      modifies this
      ensures Env() == MatchHop(Db(), old(Env()), path, i)
    {
      hide HopArcs, NodesByLabel, Ends, Edges;
      var elem, next := path[i], path[i + 1].node;
      if elem.rel.None? { return; }
      var rel := elem.rel.value;
      var prev := elem.node.variable;
      if prev == "" || prev !in context { return; }
      ghost var before := Env();
      var nextIds, arcs := FollowFromAll(context[prev], rel, HopOf(rel, next), labelSet);
      if next.variable != "" {
        context := context[next.variable := nextIds];
        if next.lbl != "" {
          contextLabels := contextLabels[next.variable := next.lbl];
        }
      }
      GrownIsBindHop(before, rel, next, arcs);
    }

    method FollowFromAll(sources: seq<u64>, rel: Rel<Lit>, h: HopSpec, labelSet: set<u64>)
      returns (nextIds: seq<u64>, ghost arcs: seq<Arc>)
      requires h.lbl != "" ==> forall x :: x in labelSet <==> x in NodesByLabel(Db(), h.lbl)
      modifies this`context
      ensures arcs == HopArcs(Db(), sources, h) && nextIds == Ends(arcs)
      ensures context == Grown(old(context), rel.variable, Edges(arcs))
    {
      hide ArcsAlong, NodesByLabel, OutgoingEdges, IncomingEdges;
      nextIds, arcs := [], [];
      for s := 0 to |sources|
        invariant arcs == HopArcs(Db(), sources[..s], h) && nextIds == Ends(arcs)
        invariant context == Grown(old(context), rel.variable, Edges(arcs))
      {
        assert sources[..s + 1][..s] == sources[..s];
        var edgeIds;
        if h.outgoing {
          edgeIds := store.GetOutgoingEdges(sources[s]);
        } else {
          edgeIds := store.GetIncomingEdges(sources[s]);
        }
        var ids, more := FollowEdges(edgeIds, rel, h, labelSet);
        GrownTwice(old(context), rel.variable, arcs, more);
        nextIds, arcs := nextIds + ids, arcs + more;
      }
      assert sources[..|sources|] == sources;
    }

    /** All relationships of a path, with the label lookups cached. */
    method MatchRelationships(path: Path<Lit>)
      requires path != []
      modifies this
      ensures Env() == MatchHops(Db(), old(Env()), path, |path| - 1)
    {
      hide MatchHop, NodesByLabel;
      var labelCache: map<string, set<u64>> := map[];
      for i := 0 to |path| - 1
        invariant Env() == MatchHops(Db(), old(Env()), path, i)
        invariant forall l :: l in labelCache ==> forall x :: x in labelCache[l] <==> x in NodesByLabel(Db(), l)
      {
        var lbl := path[i + 1].node.lbl;
        if lbl != "" && lbl !in labelCache {
          var ok, ids := store.FindNodesByLabel(lbl);
          labelCache := labelCache[lbl := set x | x in ids];
        }
        MatchRelationship(path, i, if lbl in labelCache then labelCache[lbl] else {});
      }
    }

    method ExecuteMatch(paths: seq<Path<Lit>>)
      modifies this
      ensures Env() == MatchPaths(store.stod, Db(), old(Env()), paths)
    {
      hide MatchFirst, MatchHops;
      for p := 0 to |paths|
        invariant Env() == MatchPaths(store.stod, Db(), old(Env()), paths[..p])
      {
        assert paths[..p + 1][..p] == paths[..p];
        if paths[p] == [] { continue; }
        MatchFirstNode(paths[p][0].node);
        MatchRelationships(paths[p]);
      }
      assert paths[..|paths|] == paths;
    }

    // ---- WHERE, RETURN, DELETE, SET ----

    method ExecuteWhere(f: Filter)
      modifies this`context
      ensures Env() == ExecWhere(store.stod, Db(), old(Env()), f)
    {
      hide FilteredIds;
      if f.variable == "" || f.property == "" || f.variable !in context { return; }
      var lbl := if f.variable in contextLabels then contextLabels[f.variable] else "";
      var kept := Batching.FilterIds(store, f, lbl, context[f.variable], cores);
      context := context[f.variable := kept];
    }

    method TryIndexedMatchWhere(paths: seq<Path<Lit>>, f: Filter) returns (handled: bool)
      modifies this
      ensures (if handled then Some(Env()) else None) == TryFused(store.stod, Db(), old(Env()), paths, f)
      ensures !handled ==> Env() == old(Env())
    {
      hide NodesByProperty;
      if |paths| != 1 || |paths[0]| != 1 { return false; }
      var node := paths[0][0].node;
      if node.lbl == "" || node.variable == "" { return false; }
      if f.variable != node.variable || f.op != "=" { return false; }
      if f.property == "" { return false; }
      if f.value.None? || !f.value.value.Literal? { return false; }
      var results := store.FindNodesByProperty(node.lbl, f.property, f.value.value.lit.text);
      context := context[node.variable := results];
      contextLabels := contextLabels[node.variable := node.lbl];
      return true;
    }

    method ExecuteReturn(items: seq<Item<Lit>>) returns (json: string)
      ensures json == ReturnText(Db(), Env(), items)
    {
      json := ReturnBatches.ReturnBatched(store, Matching.Env(context, contextLabels, unwindContext), items,
                                          Batching.BATCH_SIZE);
    }

    method ExecuteDelete(variables: seq<string>, detach: bool)
      modifies this`context, store
      ensures Db() == DeleteClause.DeleteAll(old(Db()), DeleteClause.DeletedIds(old(Env()), variables), detach)
      ensures Env() == DeleteClause.Forget(old(Env()), variables)
    {
      hide DeleteClause.DeleteAll, DeleteClause.DeletedIds, DeleteClause.Forget;
      ghost var d, env := Db(), Env();
      DeleteClause.NothingDeleted(d, env, detach);
      for v := 0 to |variables|
        invariant Db() == DeleteClause.DeleteAll(d, DeleteClause.DeletedIds(env, variables[..v]), detach)
        invariant Env() == DeleteClause.Forget(env, variables[..v])
      {
        DeleteClause.NextVariable(d, env, variables, v, detach);
        if variables[v] in context {
          MutatingClauses.DeleteIds(store, context[variables[v]], detach);
          context := context - {variables[v]};
        }
      }
      assert variables[..|variables|] == variables;
    }

    method ExecuteSet(assignments: seq<Assignment<Lit>>) returns (thrown: bool, ghost ws: seq<SetClause.Write>)
      modifies store
      ensures var steps := SetClause.AllSteps(Env(), assignments);
        if thrown then Db() == old(Db()) && SetClause.Collect(old(Db()), steps).None?
        else SetClause.Deferred(old(Db()), steps, ws) && SetClause.OrdersFit(store.stod, old(Db()), ws)
             && Db() == SetClause.AfterWrites(store.stod, old(Db()), ws)
    {
      hide SetClause.Collect, SetClause.OrdersFit, SetClause.WritesOnce, SetClause.AllSteps;
      ws := [];
      var env := Matching.Env(context, contextLabels, unwindContext);
      var pending := MutatingClauses.CollectPending(store, env, assignments);
      if pending.None? { return true, []; }
      ws := MutatingClauses.WritePending(store, pending.value);
      thrown := false;
    }

    // ---- statements ----

    ghost function Machine(result: string, status: Status): Execution.Machine
      reads this, store
    {
      Execution.Machine(Db(), Env(), result, status)
    }

    method ExecuteClause(c: Clause<Lit>, result0: string) returns (result: string, status: Status)
      modifies this, store
      ensures ClauseStep(store.stod, old(Machine(result0, Running)), c, Machine(result, status))
    {
      hide CreatePaths, MatchPaths, ExecWhere, ReturnText, DeleteClause.DeleteAll, DeleteClause.DeletedIds,
        SetClause.AllSteps, SetClause.Deferred, SetClause.OrdersFit, SetClause.AfterWrites, SetClause.Collect;
      result, status := result0, Running;
      match c
      case Create(paths) =>
        var ok := ExecuteCreate(paths);
        status := if ok then Running else Failed;
      case Match(paths) => ExecuteMatch(paths);
      case Return(items) => result := ExecuteReturn(items);
      case Where(_, _, _, _, _) => ExecuteWhere(FilterOf(c));
      case Delete(variables, detach) => ExecuteDelete(variables, detach);
      case Set(assignments) =>
        ghost var m := Machine(result0, Running);
        var thrown, ws := ExecuteSet(assignments);
        status := if thrown then Thrown else Running;
        SetStepIs(store.stod, m, assignments, thrown, ws, Machine(result, status));
      case Unwind(_, _) =>
    }

    /** The clauses after an UNWIND, once. */
    method ExecuteClauses(cs: seq<Clause<Lit>>, result0: string) returns (result: string, status: Status)
      modifies this, store
      ensures ClausesRun(store.stod, old(Machine(result0, Running)), cs, Machine(result, status))
    {
      hide ClauseStep;
      result, status := result0, Running;
      var i := 0;
      assert cs[0..] == cs;
      ghost var start := Machine(result0, Running);
      while i < |cs|
        invariant 0 <= i <= |cs| && status.Running?
        invariant forall n :: ClausesRun(store.stod, Machine(result, status), cs[i..], n) ==>
          ClausesRun(store.stod, start, cs, n)
      {
        ghost var m := Machine(result, status);
        result, status := ExecuteClause(cs[i], result);
        ghost var mid := Machine(result, status);
        assert cs[i..][0] == cs[i] && cs[i..][1..] == cs[i + 1..];
        forall n | ClausesGoOn(store.stod, mid, cs[i + 1..], n) ensures ClausesRun(store.stod, start, cs, n) {
          assert ClausesRun(store.stod, m, cs[i..], n);
        }
        i := i + 1;
        if !status.Running? {
          assert ClausesGoOn(store.stod, mid, cs[i..], mid);
          return;
        }
      }
      assert ClausesRun(store.stod, Machine(result, status), cs[|cs|..], Machine(result, status));
    }

    method ExecuteUnwind(elements: seq<Expr<Lit>>, alias: string, rest: seq<Clause<Lit>>, result0: string)
      returns (result: string, status: Status)
      modifies this, store
      ensures UnwindRuns(store.stod, old(Machine(result0, Running)), elements, alias, rest, Machine(result, status))
    {
      hide ClausesRun, BindingOf;
      result, status := result0, Running;
      var i := 0;
      assert elements[0..] == elements;
      ghost var start := Machine(result0, Running);
      while i < |elements|
        invariant 0 <= i <= |elements| && status.Running?
        invariant forall n :: UnwindRuns(store.stod, Machine(result, status), elements[i..], alias, rest, n) ==>
          UnwindRuns(store.stod, start, elements, alias, rest, n)
      {
        ghost var m := Machine(result, status);
        unwindContext := unwindContext[alias := BindingOf(elements[i])];
        assert Machine(result, status) == BindAlias(m, alias, elements[i]);
        result, status := ExecuteClauses(rest, result);
        ghost var mid := Machine(result, status);
        assert elements[i..][0] == elements[i] && elements[i..][1..] == elements[i + 1..];
        forall n | UnwindGoesOn(store.stod, mid, elements[i + 1..], alias, rest, n)
          ensures UnwindRuns(store.stod, start, elements, alias, rest, n)
        {
          assert UnwindRuns(store.stod, m, elements[i..], alias, rest, n);
        }
        i := i + 1;
        if !status.Running? {
          assert UnwindGoesOn(store.stod, mid, elements[i..], alias, rest, mid);
          return;
        }
        context, contextLabels := map[], map[];
        assert Machine(result, status) == Cleared(mid);
      }
      ghost var m := Machine(result, status);
      unwindContext := unwindContext - {alias};
      assert UnwindRuns(store.stod, m, elements[|elements|..], alias, rest, Machine(result, status));
    }

    method Execute(stmt: Statement<Lit>) returns (result: string, status: Status)
      modifies this, store
      ensures StatementRuns(store.stod, old(Machine("", Running)), stmt, Machine(result, status))
    {
      hide ClauseStep, UnwindRuns, TryFused;
      result, status := "", Running;
      var ci := 0;
      assert stmt[0..] == stmt;
      ghost var start := Machine("", Running);
      while ci < |stmt|
        invariant 0 <= ci <= |stmt| && status.Running?
        invariant forall n :: StatementRuns(store.stod, Machine(result, status), stmt[ci..], n) ==>
          StatementRuns(store.stod, start, stmt, n)
      {
        ghost var m := Machine(result, status);
        var c := stmt[ci];
        assert stmt[ci..][0] == c && stmt[ci..][1..] == stmt[ci + 1..];
        if Loops(c) {
          result, status := ExecuteUnwind(c.list.elements, c.alias, stmt[ci + 1..], result);
          assert StatementRuns(store.stod, m, stmt[ci..], Machine(result, status));
          return;
        }
        var fused := false;
        if c.Match? && ci + 1 < |stmt| && stmt[ci + 1].Where? {
          assert stmt[ci..][1] == stmt[ci + 1] && stmt[ci..][2..] == stmt[ci + 2..];
          fused := TryIndexedMatchWhere(c.paths, FilterOf(stmt[ci + 1]));
        }
        if fused {
          FusedStep(store.stod, m, stmt[ci..], Machine(result, status));
          ci := ci + 2;
        } else {
          result, status := ExecuteClause(c, result);
          PlainStep(store.stod, m, stmt[ci..], Machine(result, status));
          ci := ci + 1;
          if !status.Running? { return; }
        }
      }
    }
  }

  lemma FusedStep(stod: Stod, m: Execution.Machine, stmt: Statement<Lit>, mid: Execution.Machine)
    requires stmt != [] && !Loops(stmt[0]) && Fused(stod, m, stmt).Some?
    requires mid == m.(env := Fused(stod, m, stmt).value)
    ensures forall n :: StatementRuns(stod, mid, stmt[2..], n) ==> StatementRuns(stod, m, stmt, n)
  {
    hide TryFused, UnwindRuns, ClauseStep;
  }

  lemma PlainStep(stod: Stod, m: Execution.Machine, stmt: Statement<Lit>, mid: Execution.Machine)
    requires stmt != [] && !Loops(stmt[0]) && Fused(stod, m, stmt).None? && ClauseStep(stod, m, stmt[0], mid)
    ensures mid.status.Running? ==>
      forall n :: StatementRuns(stod, mid, stmt[1..], n) ==> StatementRuns(stod, m, stmt, n)
    ensures !mid.status.Running? ==> StatementRuns(stod, m, stmt, mid)
  {
    hide TryFused, UnwindRuns, ClauseStep;
    forall n | StatementGoesOn(stod, mid, stmt[1..], n) ensures StatementRuns(stod, m, stmt, n) {
    }
  }

  lemma SetStepIs(stod: Stod, m: Execution.Machine, assignments: seq<Assignment<Lit>>, thrown: bool,
                  ws: seq<SetClause.Write>, n: Execution.Machine)
    requires var steps := SetClause.AllSteps(m.env, assignments);
      if thrown then n == m.(status := Thrown) && SetClause.Collect(m.db, steps).None?
      else SetWrites(stod, m, steps, ws, n)
    ensures ClauseStep(stod, m, Set(assignments), n)
  {
    hide SetClause.AllSteps, SetClause.Collect, SetClause.OrdersFit, SetClause.AfterWrites, SetClause.WritesOnce;
  }

  lemma TailParts(all: seq<u64>, n: nat, first: u64, rest: seq<u64>)
    requires n <= |all| && all[n..] == [first] + rest
    ensures n < |all| && all[n] == first && all[n + 1..] == rest
  {
    assert |all[n..]| == 1 + |rest|;
    assert all[n..][0] == first && all[n..][1..] == all[n + 1..];
  }

  predicate KeepsInline(d: Db, id: u64, props: seq<Prop<Lit>>) {
    ToKey(id) in d.nodes && InlineMatch(NodeText(d, id), props)
  }

  lemma NothingScanned(d: Db, props: seq<Prop<Lit>>)
    ensures KeepInline(d, [], props) == []
  {
  }

  lemma ScanNext(d: Db, ids: seq<u64>, id: u64, props: seq<Prop<Lit>>)
    ensures KeepInline(d, ids + [id], props)
         == if KeepsInline(d, id, props) then KeepInline(d, ids, props) + [id] else KeepInline(d, ids, props)
  {
    hide InlineMatch, ToKey, TextOf;
    assert (ids + [id])[..|ids|] == ids;
  }

  /** A relationship variable's list with more edges; an empty list leaves it as it was. */
  function Grown(context: map<string, seq<u64>>, x: string, es: seq<u64>): map<string, seq<u64>> {
    if x == "" || es == [] then context
    else context[x := (if x in context then context[x] else []) + es]
  }

  lemma GrownIsBindHop(env: Env, rel: Rel<Lit>, next: Node<Lit>, arcs: seq<Arc>)
    ensures var context := Grown(env.context, rel.variable, Edges(arcs));
      BindHop(env, rel, next, arcs) == Matching.Env(
        if next.variable == "" then context else context[next.variable := Ends(arcs)],
        if next.variable == "" || next.lbl == "" then env.labels else env.labels[next.variable := next.lbl],
        env.unwind)
  {
    assert arcs == [] <==> Edges(arcs) == [];
  }

  lemma GrownStep(context: map<string, seq<u64>>, x: string, arcs: seq<Arc>, arc: Arc)
    ensures Grown(Grown(context, x, Edges(arcs)), x, [arc.edge]) == Grown(context, x, Edges(arcs + [arc]))
    ensures Ends(arcs + [arc]) == Ends(arcs) + [arc.end]
  {
    GrownTwice(context, x, arcs, [arc]);
    assert Edges([arc]) == [arc.edge];
  }

  lemma GrownTwice(context: map<string, seq<u64>>, x: string, a: seq<Arc>, b: seq<Arc>)
    ensures Grown(Grown(context, x, Edges(a)), x, Edges(b)) == Grown(context, x, Edges(a + b))
    ensures Ends(a + b) == Ends(a) + Ends(b)
  {
    assert Edges(a + b) == Edges(a) + Edges(b);
    hide Edges;
    var start := if x in context then context[x] else [];
    assert start + Edges(a) + Edges(b) == start + (Edges(a) + Edges(b));
    assert Edges(a) + [] == Edges(a) && [] + Edges(b) == Edges(b);
  }

  /** A failure ends the path, and the clause. */
  lemma {:induction false} CreateElementsFail(stod: Stod, d: Db, env: Env, path: Path<Lit>, n: nat)
    requires n <= |path| && !CreateElements(stod, d, env, path, n).ok
    ensures CreateElements(stod, d, env, path, |path|) == CreateElements(stod, d, env, path, n)
    decreases |path| - n
  {
    hide CreateClause.CreateElement;
    if n < |path| { CreateElementsFail(stod, d, env, path, n + 1); }
  }

  lemma {:induction false} CreatePathsFail(stod: Stod, d: Db, env: Env, paths: seq<Path<Lit>>, n: nat)
    requires n <= |paths| && !CreatePaths(stod, d, env, paths[..n]).ok
    ensures CreatePaths(stod, d, env, paths) == CreatePaths(stod, d, env, paths[..n])
    decreases |paths| - n
  {
    hide CreateElements;
    if n < |paths| {
      assert paths[..n + 1][..n] == paths[..n];
      CreatePathsFail(stod, d, env, paths, n + 1);
    } else {
      assert paths[..n] == paths;
    }
  }
}
