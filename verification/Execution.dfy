/** What running a statement does (executor.cpp, `execute`): clause after clause, with the lookahead that
    fuses MATCH and WHERE and with UNWIND consuming the rest of the statement. It is a relation because
    SET writes in an order nobody chose. */
module Execution {
  import opened Bytes
  import opened Ast
  import opened Store
  import opened Matching
  import opened Where
  import opened CreateClause
  import opened ReturnClause
  import SetClause
  import DeleteClause

  datatype Status = Running | Failed | Thrown

  datatype Machine = Machine(db: Db, env: Env, result: string, status: Status)

  function FilterOf(c: Clause<Lit>): Filter
    requires c.Where?
  {
    Filter(c.variable, c.property, c.op, c.value)
  }

  ghost predicate SetWrites(stod: Stod, m: Machine, steps: seq<SetClause.SetStep>, ws: seq<SetClause.Write>, n: Machine) {
    && SetClause.Deferred(m.db, steps, ws) && SetClause.OrdersFit(stod, m.db, ws)
    && n == m.(db := SetClause.AfterWrites(stod, m.db, ws))
  }

  /** One clause; a nested UNWIND does nothing. */
  ghost predicate ClauseStep(stod: Stod, m: Machine, c: Clause<Lit>, n: Machine) {
    match c
    case Create(paths) =>
      var o := CreatePaths(stod, m.db, m.env, paths);
      n == m.(db := o.db, env := o.env, status := if o.ok then Running else Failed)
    case Match(paths) => n == m.(env := MatchPaths(stod, m.db, m.env, paths))
    case Return(items) => n == m.(result := ReturnText(m.db, m.env, items))
    case Where(_, _, _, _, _) => n == m.(env := ExecWhere(stod, m.db, m.env, FilterOf(c)))
    case Delete(vars, detach) =>
      n == m.(db := DeleteClause.DeleteAll(m.db, DeleteClause.DeletedIds(m.env, vars), detach),
              env := DeleteClause.Forget(m.env, vars))
    case Set(assignments) =>
      var steps := SetClause.AllSteps(m.env, assignments);
      if SetClause.Collect(m.db, steps).None? then n == m.(status := Thrown)
      else exists ws :: SetWrites(stod, m, steps, ws, n)
    case Unwind(_, _) => n == m
  }

  ghost predicate ClausesRun(stod: Stod, m: Machine, cs: seq<Clause<Lit>>, n: Machine)
    decreases |cs|, 0
  {
    if cs == [] then n == m else
    exists mid :: ClauseStep(stod, m, cs[0], mid) && ClausesGoOn(stod, mid, cs[1..], n)
  }

  ghost predicate ClausesGoOn(stod: Stod, mid: Machine, rest: seq<Clause<Lit>>, n: Machine)
    decreases |rest|, 1
  {
    if mid.status.Running? then ClausesRun(stod, mid, rest, n) else n == mid
  }

  function BindAlias(m: Machine, alias: string, element: Expr<Lit>): Machine {
    m.(env := m.env.(unwind := m.env.unwind[alias := BindingOf(element)]))
  }

  function Cleared(m: Machine): Machine {
    m.(env := m.env.(context := map[], labels := map[]))
  }

  function Unbound(m: Machine, alias: string): Machine {
    m.(env := m.env.(unwind := m.env.unwind - {alias}))
  }

  /** The rest of the statement once per element. */
  ghost predicate UnwindRuns(stod: Stod, m: Machine, elements: seq<Expr<Lit>>, alias: string,
                             rest: seq<Clause<Lit>>, n: Machine)
    decreases |elements|, 0
  {
    if elements == [] then n == Unbound(m, alias) else
    exists mid :: ClausesRun(stod, BindAlias(m, alias, elements[0]), rest, mid)
               && UnwindGoesOn(stod, mid, elements[1..], alias, rest, n)
  }

  ghost predicate UnwindGoesOn(stod: Stod, mid: Machine, elements: seq<Expr<Lit>>, alias: string,
                               rest: seq<Clause<Lit>>, n: Machine)
    decreases |elements|, 1
  {
    if mid.status.Running? then UnwindRuns(stod, Cleared(mid), elements, alias, rest, n) else n == mid
  }

  /** UNWIND loops over list literals that have elements; otherwise it is skipped, and the clauses after
      it run once. */
  predicate Loops(c: Clause<Lit>) {
    c.Unwind? && c.list.ListLiteral? && c.list.elements != []
  }

  function Fused(stod: Stod, m: Machine, stmt: Statement<Lit>): Option<Env> {
    if |stmt| >= 2 && stmt[0].Match? && stmt[1].Where?
    then TryFused(stod, m.db, m.env, stmt[0].paths, FilterOf(stmt[1])) else None
  }

  ghost predicate StatementRuns(stod: Stod, m: Machine, stmt: Statement<Lit>, n: Machine)
    decreases |stmt|, 0
  {
    if stmt == [] then n == m
    else if Loops(stmt[0]) then UnwindRuns(stod, m, stmt[0].list.elements, stmt[0].alias, stmt[1..], n)
    else if Fused(stod, m, stmt).Some? then StatementRuns(stod, m.(env := Fused(stod, m, stmt).value), stmt[2..], n)
    else exists mid :: ClauseStep(stod, m, stmt[0], mid) && StatementGoesOn(stod, mid, stmt[1..], n)
  }

  ghost predicate StatementGoesOn(stod: Stod, mid: Machine, rest: Statement<Lit>, n: Machine)
    decreases |rest|, 1
  {
    if mid.status.Running? then StatementRuns(stod, mid, rest, n) else n == mid
  }

  // ---- queries ----

  predicate ReadOnly(c: Clause<Lit>) {
    c.Match? || c.Where? || c.Return? || c.Unwind?
  }

  lemma {:induction false} ClausesKeepDb(stod: Stod, m: Machine, cs: seq<Clause<Lit>>, n: Machine)
    requires ClausesRun(stod, m, cs, n) && m.status.Running? && forall i :: 0 <= i < |cs| ==> ReadOnly(cs[i])
    ensures n.db == m.db && n.status.Running?
    decreases |cs|
  {
    hide MatchPaths, ReturnText, ExecWhere;
    if cs != [] {
      var mid :| ClauseStep(stod, m, cs[0], mid) && ClausesGoOn(stod, mid, cs[1..], n);
      ClausesKeepDb(stod, mid, cs[1..], n);
    }
  }

  lemma {:induction false} UnwindKeepsDb(stod: Stod, m: Machine, elements: seq<Expr<Lit>>, alias: string,
                                        rest: seq<Clause<Lit>>, n: Machine)
    requires UnwindRuns(stod, m, elements, alias, rest, n) && m.status.Running?
    requires forall i :: 0 <= i < |rest| ==> ReadOnly(rest[i])
    ensures n.db == m.db && n.status.Running?
    decreases |elements|
  {
    hide ClausesRun, BindingOf;
    if elements != [] {
      var mid :| ClausesRun(stod, BindAlias(m, alias, elements[0]), rest, mid)
              && UnwindGoesOn(stod, mid, elements[1..], alias, rest, n);
      ClausesKeepDb(stod, BindAlias(m, alias, elements[0]), rest, mid);
      UnwindKeepsDb(stod, Cleared(mid), elements[1..], alias, rest, n);
    }
  }

  /** A statement without CREATE, SET and DELETE always succeeds and leaves the database as it was, ids
      and all. */
  lemma {:induction false} QueriesKeepDb(stod: Stod, m: Machine, stmt: Statement<Lit>, n: Machine)
    requires StatementRuns(stod, m, stmt, n) && m.status.Running? && forall i :: 0 <= i < |stmt| ==> ReadOnly(stmt[i])
    ensures n.db == m.db && n.status.Running?
    decreases |stmt|
  {
    hide MatchPaths, ReturnText, ExecWhere, UnwindRuns, TryFused;
    if stmt == [] {
    } else if Loops(stmt[0]) {
      UnwindKeepsDb(stod, m, stmt[0].list.elements, stmt[0].alias, stmt[1..], n);
    } else if Fused(stod, m, stmt).Some? {
      QueriesKeepDb(stod, m.(env := Fused(stod, m, stmt).value), stmt[2..], n);
    } else {
      var mid :| ClauseStep(stod, m, stmt[0], mid) && StatementGoesOn(stod, mid, stmt[1..], n);
      QueriesKeepDb(stod, mid, stmt[1..], n);
    }
  }

  // ---- UNWIND with CREATEs ----

  function CreatesOf(clauses: seq<seq<Path<Lit>>>): (cs: seq<Clause<Lit>>)
    ensures |cs| == |clauses|
  {
    seq(|clauses|, i requires 0 <= i < |clauses| => Create(clauses[i]))
  }

  function AsMachine(o: Outcome, result: string): Machine {
    Machine(o.db, o.env, result, if o.ok then Running else Failed)
  }

  /** CREATE clauses do what `CreateClauses` says. The first `k` have been done. */
  lemma {:induction false} CreatesRun(stod: Stod, o: Outcome, r: string, clauses: seq<seq<Path<Lit>>>, k: nat,
                                      m: Machine, n: Machine)
    requires k <= |clauses| && m.status.Running?
    requires AsMachine(CreateClauses(stod, o.db, o.env, clauses[..k]), r) == m
    requires ClausesRun(stod, m, CreatesOf(clauses)[k..], n)
    ensures n == AsMachine(CreateClauses(stod, o.db, o.env, clauses), r)
    decreases |clauses| - k
  {
    hide CreatePaths;
    var cs := CreatesOf(clauses);
    if k < |clauses| {
      var mid :| ClauseStep(stod, m, cs[k..][0], mid) && ClausesGoOn(stod, mid, cs[k..][1..], n);
      assert cs[k..][1..] == cs[k + 1..] && clauses[..k + 1][..k] == clauses[..k];
      assert mid == AsMachine(CreateClauses(stod, o.db, o.env, clauses[..k + 1]), r);
      if mid.status.Running? {
        CreatesRun(stod, o, r, clauses, k + 1, mid, n);
      } else {
        CreateClausesFail(stod, o.db, o.env, clauses, k + 1);
      }
    } else {
      assert clauses[..k] == clauses;
    }
  }

  lemma {:induction false} CreateClausesFail(stod: Stod, d: Db, env: Env, clauses: seq<seq<Path<Lit>>>, n: nat)
    requires n <= |clauses| && !CreateClauses(stod, d, env, clauses[..n]).ok
    ensures CreateClauses(stod, d, env, clauses) == CreateClauses(stod, d, env, clauses[..n])
    decreases |clauses| - n
  {
    hide CreatePaths;
    if n < |clauses| {
      assert clauses[..n + 1][..n] == clauses[..n];
      CreateClausesFail(stod, d, env, clauses, n + 1);
    } else {
      assert clauses[..n] == clauses;
    }
  }

  lemma {:induction false} UnwindCreatesFail(stod: Stod, d: Db, env: Env, elements: seq<Expr<Lit>>, alias: string,
                                             clauses: seq<seq<Path<Lit>>>, n: nat)
    requires n <= |elements| && !UnwindCreates(stod, d, env, elements[..n], alias, clauses).ok
    ensures UnwindCreates(stod, d, env, elements, alias, clauses)
         == UnwindCreates(stod, d, env, elements[..n], alias, clauses)
    decreases |elements| - n
  {
    hide CreateClauses, BindingOf;
    if n < |elements| {
      assert elements[..n + 1][..n] == elements[..n];
      UnwindCreatesFail(stod, d, env, elements, alias, clauses, n + 1);
    } else {
      assert elements[..n] == elements;
    }
  }

  /** The loop does what `UnwindCreates` says. The first `k` elements have been done. */
  lemma {:induction false} UnwoundCreatesRun(stod: Stod, d: Db, r: string, elements: seq<Expr<Lit>>, alias: string,
                                             clauses: seq<seq<Path<Lit>>>, k: nat, m: Machine, n: Machine)
    requires k <= |elements| && m.status.Running?
    requires AsMachine(UnwindCreates(stod, d, FRESH, elements[..k], alias, clauses), r) == m
    requires UnwindRuns(stod, m, elements[k..], alias, CreatesOf(clauses), n)
    ensures var u := UnwindCreates(stod, d, FRESH, elements, alias, clauses);
      n.db == u.db && n.status == (if u.ok then Running else Failed)
    decreases |elements| - k
  {
    hide CreateClauses, BindingOf, ClausesRun;
    var cs := CreatesOf(clauses);
    if k < |elements| {
      var bound := BindAlias(m, alias, elements[k]);
      var mid :| ClausesRun(stod, bound, cs, mid) && UnwindGoesOn(stod, mid, elements[k..][1..], alias, cs, n);
      assert elements[k..][1..] == elements[k + 1..] && elements[..k + 1][..k] == elements[..k];
      var o := Outcome(bound.db, bound.env, true);
      assert CreateClauses(stod, o.db, o.env, clauses[..0]) == o by { NoClauses(stod, o); }
      assert cs[0..] == cs;
      CreatesRun(stod, o, r, clauses, 0, bound, mid);
      if mid.status.Running? {
        UnwoundCreatesRun(stod, d, r, elements, alias, clauses, k + 1, Cleared(mid), n);
      } else {
        UnwindCreatesFail(stod, d, FRESH, elements, alias, clauses, k + 1);
      }
    } else {
      assert elements[..k] == elements;
    }
  }

  lemma NoClauses(stod: Stod, o: Outcome)
    requires o.ok
    ensures CreateClauses(stod, o.db, o.env, []) == o
  {
  }

  predicate CreatesNothing(clauses: seq<seq<Path<Lit>>>) {
    forall c :: 0 <= c < |clauses| ==> PathsEmpty(clauses[c])
  }

  predicate PathsEmpty(paths: seq<Path<Lit>>) {
    forall p :: 0 <= p < |paths| ==> paths[p] == []
  }

  /** The statement UNWIND [...] AS alias CREATE ... run by a new executor. */
  function UnwindStatement(elements: seq<Expr<Lit>>, alias: string, clauses: seq<seq<Path<Lit>>>): Statement<Lit> {
    [Unwind(ListLiteral(elements), alias)] + CreatesOf(clauses)
  }

  /** UNWIND is a loop of substituted CREATEs exactly when the list has elements: with an empty list the
      executor skips the UNWIND alone, and the CREATEs after it run once. */
  lemma UnwindIsLoopIff(stod: Stod, d: Db, elements: seq<Expr<Lit>>, alias: string, clauses: seq<seq<Path<Lit>>>,
                        n: Machine)
    requires StatementRuns(stod, Machine(d, FRESH, "", Running), UnwindStatement(elements, alias, clauses), n)
    ensures var s := SubstitutedCreates(stod, d, elements, alias, clauses);
      n.db == s.db && n.status == (if s.ok then Running else Failed)
      <==> elements != [] || CreatesNothing(clauses)
  {
    hide UnwindRuns, SubstitutedCreates, ClauseStep;
    var m := Machine(d, FRESH, "", Running);
    var stmt := UnwindStatement(elements, alias, clauses);
    assert stmt[1..] == CreatesOf(clauses);
    assert UnwindCreates(stod, d, FRESH, [], alias, clauses) == Outcome(d, FRESH, true);
    if elements != [] {
      assert elements[..0] == [] && elements[0..] == elements;
      UnwoundCreatesRun(stod, d, "", elements, alias, clauses, 0, m, n);
      UnwindIsSubstitution(stod, d, elements, alias, clauses);
    } else {
      EmptyUnwind(stod, m, alias, clauses, n);
      CreatesIff(stod, d, FRESH, clauses);
      assert SubstitutedCreates(stod, d, [], alias, clauses) == Outcome(d, FRESH, true) by {
        NoElements(stod, d, alias, clauses);
      }
    }
  }

  lemma NoElements(stod: Stod, d: Db, alias: string, clauses: seq<seq<Path<Lit>>>)
    ensures SubstitutedCreates(stod, d, [], alias, clauses) == Outcome(d, FRESH, true)
  {
  }

  lemma EmptyUnwind(stod: Stod, m: Machine, alias: string, clauses: seq<seq<Path<Lit>>>, n: Machine)
    requires m == Machine(m.db, FRESH, "", Running)
    requires StatementRuns(stod, m, UnwindStatement([], alias, clauses), n)
    ensures n == AsMachine(CreateClauses(stod, m.db, FRESH, clauses), "")
  {
    hide CreateClauses;
    var stmt := UnwindStatement([], alias, clauses);
    var mid :| ClauseStep(stod, m, stmt[0], mid) && StatementGoesOn(stod, mid, stmt[1..], n);
    assert stmt[1..] == CreatesOf(clauses);
    CreateStatement(stod, m, clauses, 0, n);
    NoClauses(stod, Outcome(m.db, FRESH, true));
    assert CreatesOf(clauses)[0..] == CreatesOf(clauses) && clauses[..0] == [];
    CreatesRun(stod, Outcome(m.db, FRESH, true), "", clauses, 0, m, n);
  }

  /** A statement of CREATEs runs them one after the other. */
  lemma {:induction false} CreateStatement(stod: Stod, m: Machine, clauses: seq<seq<Path<Lit>>>, k: nat, n: Machine)
    requires k <= |clauses| && StatementRuns(stod, m, CreatesOf(clauses)[k..], n)
    ensures ClausesRun(stod, m, CreatesOf(clauses)[k..], n)
    decreases |clauses| - k
  {
    hide ClauseStep;
    var cs := CreatesOf(clauses)[k..];
    if cs != [] {
      var mid :| ClauseStep(stod, m, cs[0], mid) && StatementGoesOn(stod, mid, cs[1..], n);
      assert cs[1..] == CreatesOf(clauses)[k + 1..];
      if mid.status.Running? { CreateStatement(stod, mid, clauses, k + 1, n); }
    }
  }

  // ---- CREATEs leave a trace ----

  lemma EnsureGrows(stod: Stod, d: Db, env: Env, node: Node<Lit>)
    ensures var o := EnsureNode(stod, d, env, node).after;
      && d.nodes.Keys <= o.db.nodes.Keys
      && (o.ok && Bound(env, node.variable) == [] ==> d.nodes.Keys != o.db.nodes.Keys)
  {
    hide EvalProps, IndexNode, ToKey, Allocate;
  }

  lemma ElementGrows(stod: Stod, d: Db, env: Env, path: Path<Lit>, i: nat)
    requires i < |path|
    ensures var o := CreateElement(stod, d, env, path, i);
      && d.nodes.Keys <= o.db.nodes.Keys
      && (o.ok && Bound(env, path[i].node.variable) == [] ==> d.nodes.Keys != o.db.nodes.Keys)
  {
    hide EnsureNode, EvalProps, ToKey, EncodeEdge;
    EnsureGrows(stod, d, env, path[i].node);
    var a := EnsureNode(stod, d, env, path[i].node);
    if i + 1 < |path| { EnsureGrows(stod, a.after.db, a.after.env, path[i + 1].node); }
  }

  lemma {:induction false} ElementsGrow(stod: Stod, d: Db, env: Env, path: Path<Lit>, n: nat)
    requires n <= |path|
    ensures var o := CreateElements(stod, d, env, path, n);
      && d.nodes.Keys <= o.db.nodes.Keys
      && (o.ok && env.context == map[] && n > 0 ==> d.nodes.Keys != o.db.nodes.Keys)
  {
    hide CreateElement;
    if n > 0 {
      ElementsGrow(stod, d, env, path, n - 1);
      var o := CreateElements(stod, d, env, path, n - 1);
      ElementGrows(stod, o.db, o.env, path, n - 1);
    }
  }

  lemma {:induction false} PathsGrow(stod: Stod, d: Db, env: Env, paths: seq<Path<Lit>>)
    ensures var o := CreatePaths(stod, d, env, paths);
      && d.nodes.Keys <= o.db.nodes.Keys
      && (PathsEmpty(paths) ==> o == Outcome(d, env, true))
      && (o.ok && env.context == map[] && !PathsEmpty(paths) ==> d.nodes.Keys != o.db.nodes.Keys)
  {
    hide CreateElements;
    if paths != [] {
      var n := |paths| - 1;
      PathsGrow(stod, d, env, paths[..n]);
      var o := CreatePaths(stod, d, env, paths[..n]);
      ElementsGrow(stod, o.db, o.env, paths[n], |paths[n]|);
      assert PathsEmpty(paths) <==> PathsEmpty(paths[..n]) && paths[n] == [];
      if paths[n] == [] { NoElementsToCreate(stod, o.db, o.env, paths[n]); }
    }
  }

  lemma NoElementsToCreate(stod: Stod, d: Db, env: Env, path: Path<Lit>)
    requires path == []
    ensures CreateElements(stod, d, env, path, 0) == Outcome(d, env, true)
  {
  }

  lemma {:induction false} CreatesIff(stod: Stod, d: Db, env: Env, clauses: seq<seq<Path<Lit>>>)
    requires env.context == map[]
    ensures var o := CreateClauses(stod, d, env, clauses);
      && d.nodes.Keys <= o.db.nodes.Keys
      && (CreatesNothing(clauses) ==> o == Outcome(d, env, true))
      && (o.ok && !CreatesNothing(clauses) ==> d.nodes.Keys != o.db.nodes.Keys)
  {
    hide CreatePaths, PathsEmpty;
    if clauses != [] {
      var n := |clauses| - 1;
      CreatesIff(stod, d, env, clauses[..n]);
      var o := CreateClauses(stod, d, env, clauses[..n]);
      PathsGrow(stod, o.db, o.env, clauses[n]);
      assert CreatesNothing(clauses) <==> CreatesNothing(clauses[..n]) && PathsEmpty(clauses[n]);
    }
  }
}
