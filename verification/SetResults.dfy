/** What SET leaves, said of the assignments and the values the nodes hold. */
module SetResults {
  import opened Bytes
  import opened Ast
  import opened Json
  import opened JsonLaws
  import opened Store
  import opened PropertyIndex
  import opened Runs
  import opened RunResults
  import opened Matching
  import opened SetClause
  import Where

  function ValueOf(a: Assignment<Lit>): Value
    requires a.value.Literal?
  {
    if a.value.lit.isString then Str(a.value.lit.text) else Num(a.value.lit.text)
  }

  /** Literals, as the parser makes them. */
  predicate LiteralAssignments(xs: seq<Assignment<Lit>>) {
    forall i :: 0 <= i < |xs| ==> LiteralAssignment(xs[i])
  }

  predicate LiteralAssignment(a: Assignment<Lit>) {
    a.value.Literal? && IsIdentifier(a.property) && WellFormedValue(ValueOf(a))
  }

  /** The entries of a node after the assignments to it, in order. */
  function Applied(env: Env, xs: seq<Assignment<Lit>>, id: u64, es: seq<Entry>): seq<Entry>
    requires LiteralAssignments(xs)
  {
    if xs == [] then es else
    var a := xs[|xs| - 1];
    var before := Applied(env, xs[..|xs| - 1], id, es);
    if id in Bound(env, a.variable) then Assigned(before, a.property, ValueOf(a)) else before
  }

  /** The text helpers find each assigned key when its turn comes. */
  predicate KeysFound(env: Env, xs: seq<Assignment<Lit>>, id: u64, es: seq<Entry>)
    requires LiteralAssignments(xs)
  {
    xs == [] ||
    var a := xs[|xs| - 1];
    && KeysFound(env, xs[..|xs| - 1], id, es)
    && (id in Bound(env, a.variable) ==> KeyFound(Applied(env, xs[..|xs| - 1], id, es), a.property))
  }

  /** Some assigned variable is bound to the id. */
  predicate Touched(env: Env, xs: seq<Assignment<Lit>>, id: u64) {
    exists i :: 0 <= i < |xs| && id in Bound(env, xs[i].variable)
  }

  // ---- assigning twice ----

  lemma {:induction false} AssignedTwice(es: seq<Entry>, k: string, v: Value)
    ensures Assigned(Assigned(es, k, v), k, v) == Assigned(es, k, v)
  {
    if es != [] && es[0].key != k {
      var r := Assigned(es[1..], k, v);
      AssignedTwice(es[1..], k, v);
      assert ([es[0]] + r)[1..] == r;
    } else if es != [] {
      assert ([Entry(k, v)] + es[1..])[1..] == es[1..];
    } else {
      assert [Entry(k, v)] + [] == [Entry(k, v)];
      assert [Entry(k, v)][1..] == [];
    }
  }

  lemma {:induction false} AssignedFound(es: seq<Entry>, k: string, v: Value)
    requires KeyFound(es, k)
    ensures KeyFound(Assigned(es, k, v), k)
  {
    if es == [] || es[0].key == k {
      assert FirstShowing(Assigned(es, k, v), k) == 0;
    } else if es[0].value == Str(k) {
      assert es[1].key == k;
      var r := Assigned(es, k, v);
      assert Assigned(es[1..], k, v)[0] == Entry(k, v);
      assert r[0] == es[0] && r[1] == Entry(k, v);
    } else {
      FoundInTail(es, k);
      AssignedFound(es[1..], k, v);
      var r := Assigned(es[1..], k, v);
      assert Assigned(es, k, v)[1..] == r;
      FoundFromTail([es[0]] + r, k);
    }
  }

  lemma FoundFromTail(es: seq<Entry>, k: string)
    requires es != [] && es[0].key != k && es[0].value != Str(k) && KeyFound(es[1..], k)
    ensures KeyFound(es, k)
  {
    assert FirstShowing(es, k) == 1 + FirstShowing(es[1..], k);
  }

  /** A key that is not assigned and was not there is not there afterwards. */
  lemma {:induction false} AssignedKeys(es: seq<Entry>, k: string, v: Value, key: string)
    requires key != k && forall i :: 0 <= i < |es| ==> es[i].key != key
    ensures forall i :: 0 <= i < |Assigned(es, k, v)| ==> Assigned(es, k, v)[i].key != key
  {
    if es != [] && es[0].key != k { AssignedKeys(es[1..], k, v, key); }
  }

  lemma {:induction false} AssignedDistinct(es: seq<Entry>, k: string, v: Value)
    requires DistinctKeys(es)
    ensures DistinctKeys(Assigned(es, k, v))
  {
    if es != [] && es[0].key != k {
      AssignedDistinct(es[1..], k, v);
      AssignedKeys(es[1..], k, v, es[0].key);
    }
  }

  /** What is stored under a key after an assignment. */
  lemma {:induction false} AssignedLookup(es: seq<Entry>, k: string, v: Value, key: string)
    ensures Lookup(Assigned(es, k, v), key) == if key == k then Some(v) else Lookup(es, key)
  {
    if es == [] {
      assert [Entry(k, v)][1..] == [];
    } else if es[0].key == k {
      assert ([Entry(k, v)] + es[1..])[1..] == es[1..];
    } else {
      AssignedLookup(es[1..], k, v, key);
      assert ([es[0]] + Assigned(es[1..], k, v))[1..] == Assigned(es[1..], k, v);
    }
  }

  // ---- phase 1 ----

  function CurrentText(d: Db, p: map<u64, Pending>, id: u64): string {
    if id in p then p[id].text else NodeText(d, id)
  }

  /** The touched nodes that have a text, with the entries their current text is printed from; any other
      collected node has none. */
  ghost predicate Holding(d: Db, cur: map<u64, seq<Entry>>, p: map<u64, Pending>) {
    && (forall id :: id in cur ==>
          NodeText(d, id) != "" && WellFormed(cur[id]) && CurrentText(d, p, id) == Print(cur[id]))
    && (forall id :: id in p && id !in cur ==> NodeText(d, id) == "" && p[id].text == "")
  }

  function UpdatedFor(cur: map<u64, seq<Entry>>, ids: seq<u64>, k: string, v: Value): map<u64, seq<Entry>> {
    map id | id in cur :: if id in ids then Assigned(cur[id], k, v) else cur[id]
  }

  /** One step: the update never throws and assigns. */
  lemma StepHolds(d: Db, cur: map<u64, seq<Entry>>, p: map<u64, Pending>, s: SetStep, es: seq<Entry>)
    requires Holding(d, cur, p) && s.id in cur && IsIdentifier(s.key) && WellFormedValue(StepValue(s))
    requires KeyFound(cur[s.id], s.key) && es == Assigned(cur[s.id], s.key, StepValue(s))
    ensures Update(Current(d, p, s).text, s.key, s.text, s.isString) == Some(Print(es)) && WellFormed(es)
  {
    hide Print, Update, KeyFound, Assigned, IsIdentifier, WellFormed, WellFormedValue, NodeText;
    PrintIsText(cur[s.id]);
    UpdatePrint(cur[s.id], s.key, StepValue(s));
    FoundPick(cur[s.id], s.key, StepValue(s));
    AssignedWellFormed(cur[s.id], s.key, StepValue(s));
  }

  lemma HoldingNext(d: Db, cur: map<u64, seq<Entry>>, p: map<u64, Pending>, id: u64, lbl: string, es: seq<Entry>)
    requires Holding(d, cur, p) && id in cur && WellFormed(es)
    ensures Holding(d, cur[id := es], p[id := Pending(lbl, Print(es))])
  {
    hide Print, WellFormed, NodeText;
  }

  lemma EmptyStays(d: Db, cur: map<u64, seq<Entry>>, p: map<u64, Pending>, s: SetStep)
    requires Holding(d, cur, p) && s.id !in cur && NodeText(d, s.id) == ""
    ensures Update(Current(d, p, s).text, s.key, s.text, s.isString) == Some("")
    ensures forall lbl :: Holding(d, cur, p[s.id := Pending(lbl, "")])
  {
    hide Print, WellFormed, NodeText, Update;
    NothingToUpdate(s.key, s.text, s.isString);
  }

  lemma CollectNext(d: Db, steps: seq<SetStep>, s: SetStep)
    requires Collect(d, steps).Some?
    ensures var p := Collect(d, steps).value;
      Collect(d, steps + [s]) ==
      match Update(Current(d, p, s).text, s.key, s.text, s.isString)
      case None => None
      case Some(text) => Some(p[s.id := Pending(Current(d, p, s).lbl, text)])
  {
    hide Update, Current;
    assert (steps + [s])[..|steps|] == steps;
  }

  /** All ids of one assignment; a repeated id is assigned the same value again. */
  lemma {:induction false} IdsHold(d: Db, steps: seq<SetStep>, env: Env, a: Assignment<Lit>, ids: seq<u64>,
                                   cur: map<u64, seq<Entry>>)
    requires Collect(d, steps).Some? && Holding(d, cur, Collect(d, steps).value) && LiteralAssignment(a)
    requires forall id :: id in ids ==> if id in cur then KeyFound(cur[id], a.property) else NodeText(d, id) == ""
    ensures var more := steps + StepsOf(env, a, ids);
      && Collect(d, more).Some? && Holding(d, UpdatedFor(cur, ids, a.property, ValueOf(a)), Collect(d, more).value)
      && forall id :: id in Collect(d, more).value <==> id in Collect(d, steps).value || id in ids
  {
    hide Collect, Holding, KeyFound, Assigned, NodeText, IsIdentifier, WellFormedValue, Update, Current, UpdatedFor;
    var k, v := a.property, ValueOf(a);
    if ids == [] {
      assert steps + StepsOf(env, a, ids) == steps;
      UpdatedForNone(cur, k, v);
    } else {
      var n := |ids| - 1;
      var s := StepOf(env, a, ids[n]);
      var before := steps + StepsOf(env, a, ids[..n]);
      assert forall id :: id in ids <==> id in ids[..n] || id == ids[n];
      IdsHold(d, steps, env, a, ids[..n], cur);
      assert steps + StepsOf(env, a, ids) == before + [s];
      CollectNext(d, before, s);
      OneMoreHolds(d, before, s, a, ids, cur);
    }
  }

  lemma UpdatedForNone(cur: map<u64, seq<Entry>>, k: string, v: Value)
    ensures UpdatedFor(cur, [], k, v) == cur
  {
    hide Assigned;
  }

  lemma UpdatedForLast(cur: map<u64, seq<Entry>>, ids: seq<u64>, k: string, v: Value)
    requires ids != []
    ensures var (n, id) := (|ids| - 1, ids[|ids| - 1]);
            var before := UpdatedFor(cur, ids[..n], k, v);
      && (id !in cur ==> id !in before && UpdatedFor(cur, ids, k, v) == before)
      && (id in cur ==> id in before && UpdatedFor(cur, ids, k, v) == before[id := Assigned(before[id], k, v)])
  {
    hide Assigned, UpdatedFor;
    var n, id := |ids| - 1, ids[|ids| - 1];
    var before, after := UpdatedFor(cur, ids[..n], k, v), UpdatedFor(cur, ids, k, v);
    assert before.Keys == cur.Keys == after.Keys by { UpdatedKeys(cur, ids, k, v); UpdatedKeys(cur, ids[..n], k, v); }
    forall x | x in cur && x != id ensures after[x] == before[x] {
      assert x in ids <==> x in ids[..n];
      UpdatedAt(cur, ids, k, v, x);
      UpdatedAt(cur, ids[..n], k, v, x);
    }
    if id in cur {
      AssignedTwice(cur[id], k, v);
      UpdatedAt(cur, ids, k, v, id);
      UpdatedAt(cur, ids[..n], k, v, id);
      assert after == before[id := Assigned(before[id], k, v)];
    } else {
      assert after == before;
    }
  }

  lemma UpdatedKeys(cur: map<u64, seq<Entry>>, ids: seq<u64>, k: string, v: Value)
    ensures UpdatedFor(cur, ids, k, v).Keys == cur.Keys
  {
    hide Assigned;
  }

  lemma UpdatedAt(cur: map<u64, seq<Entry>>, ids: seq<u64>, k: string, v: Value, x: u64)
    requires x in cur
    ensures x in UpdatedFor(cur, ids, k, v)
    ensures UpdatedFor(cur, ids, k, v)[x] == if x in ids then Assigned(cur[x], k, v) else cur[x]
  {
    hide Assigned;
  }

  lemma StillFound(cur: map<u64, seq<Entry>>, ids: seq<u64>, k: string, v: Value, id: u64)
    requires id in cur && KeyFound(cur[id], k)
    ensures KeyFound(UpdatedFor(cur, ids, k, v)[id], k)
  {
    hide Assigned, KeyFound;
    AssignedFound(cur[id], k, v);
  }

  lemma OneMoreHolds(d: Db, before: seq<SetStep>, s: SetStep, a: Assignment<Lit>, ids: seq<u64>, cur: map<u64, seq<Entry>>)
    requires ids != [] && LiteralAssignment(a) && s.id == ids[|ids| - 1] && s.key == a.property
    requires s.text == a.value.lit.text && s.isString == a.value.lit.isString
    requires Collect(d, before).Some?
    requires Holding(d, UpdatedFor(cur, ids[..|ids| - 1], a.property, ValueOf(a)), Collect(d, before).value)
    requires if s.id in cur then KeyFound(cur[s.id], a.property) else NodeText(d, s.id) == ""
    ensures Collect(d, before + [s]).Some?
    ensures Holding(d, UpdatedFor(cur, ids, a.property, ValueOf(a)), Collect(d, before + [s]).value)
    ensures Collect(d, before + [s]).value.Keys == Collect(d, before).value.Keys + {s.id}
  {
    hide Collect, Holding, KeyFound, Assigned, NodeText, Update, Current, UpdatedFor, IsIdentifier, WellFormedValue, Print;
    CollectNext(d, before, s);
    var p := Collect(d, before).value;
    var now := UpdatedFor(cur, ids[..|ids| - 1], a.property, ValueOf(a));
    UpdatedForLast(cur, ids, a.property, ValueOf(a));
    if s.id in cur {
      StillFound(cur, ids[..|ids| - 1], a.property, ValueOf(a), s.id);
      var es := Assigned(now[s.id], a.property, ValueOf(a));
      StepHolds(d, now, p, s, es);
      HoldingNext(d, now, p, s.id, Current(d, p, s).lbl, es);
    } else {
      EmptyStays(d, now, p, s);
    }
  }

  function AppliedAll(env: Env, xs: seq<Assignment<Lit>>, start: map<u64, seq<Entry>>): map<u64, seq<Entry>>
    requires LiteralAssignments(xs)
  {
    map id | id in start :: Applied(env, xs, id, start[id])
  }

  /** The nodes an assigned variable is bound to: their texts are printed from the entries in `start` and
      the keys are found, or they have none. */
  ghost predicate Assignable(d: Db, env: Env, xs: seq<Assignment<Lit>>, start: map<u64, seq<Entry>>) {
    && LiteralAssignments(xs)
    && (forall id :: id in start ==>
          NodeText(d, id) == Print(start[id]) && WellFormed(start[id]) && KeysFound(env, xs, id, start[id]))
    && (forall id :: Touched(env, xs, id) && id !in start ==> NodeText(d, id) == "")
  }

  lemma AssignablePrefix(d: Db, env: Env, xs: seq<Assignment<Lit>>, start: map<u64, seq<Entry>>)
    requires Assignable(d, env, xs, start) && xs != []
    ensures Assignable(d, env, xs[..|xs| - 1], start)
    ensures LiteralAssignment(xs[|xs| - 1])
    ensures forall id :: Touched(env, xs, id) <==> Touched(env, xs[..|xs| - 1], id) || id in Bound(env, xs[|xs| - 1].variable)
  {
    hide LiteralAssignment, Print, WellFormed, NodeText, KeyFound, Applied;
    var n := |xs| - 1;
    forall id ensures Touched(env, xs, id) <==> Touched(env, xs[..n], id) || id in Bound(env, xs[n].variable) {
      if i :| 0 <= i < |xs| && id in Bound(env, xs[i].variable) {
        if i < n { assert xs[..n][i] == xs[i]; }
      }
      if i :| 0 <= i < n && id in Bound(env, xs[..n][i].variable) { assert xs[..n][i] == xs[i]; }
    }
  }

  lemma {:induction false} CollectedAssignments(d: Db, env: Env, xs: seq<Assignment<Lit>>, start: map<u64, seq<Entry>>)
    requires Assignable(d, env, xs, start)
    ensures Collect(d, AllSteps(env, xs)).Some?
    ensures Holding(d, AppliedAll(env, xs, start), Collect(d, AllSteps(env, xs)).value)
    ensures forall id :: id in Collect(d, AllSteps(env, xs)).value <==> Touched(env, xs, id)
    decreases |xs|
  {
    hide Assignable, Holding, KeyFound, Applied, NodeText, LiteralAssignment, StepsOf, UpdatedFor, AppliedAll, Collect, Touched, Bound;
    if xs == [] {
      NothingAssigned(d, env, start);
    } else {
      var n := |xs| - 1;
      var a := xs[n];
      AssignablePrefix(d, env, xs, start);
      CollectedAssignments(d, env, xs[..n], start);
      KeysFoundNow(d, env, xs, start);
      IdsHold(d, AllSteps(env, xs[..n]), env, a, Bound(env, a.variable), AppliedAll(env, xs[..n], start));
      AppliedAllStep(env, xs, start);
    }
  }

  lemma NothingAssigned(d: Db, env: Env, start: map<u64, seq<Entry>>)
    requires Assignable(d, env, [], start)
    ensures Collect(d, AllSteps(env, [])) == Some(map[]) && Holding(d, AppliedAll(env, [], start), map[])
    ensures forall id :: !Touched(env, [], id)
  {
    hide Print, NodeText, WellFormed;
    assert AppliedAll(env, [], start) == start;
    forall id | id in start ensures NodeText(d, id) != "" { PrintIsText(start[id]); }
  }

  lemma KeysFoundNow(d: Db, env: Env, xs: seq<Assignment<Lit>>, start: map<u64, seq<Entry>>)
    requires Assignable(d, env, xs, start) && xs != []
    ensures var (n, now) := (|xs| - 1, AppliedAll(env, xs[..|xs| - 1], start));
      && LiteralAssignments(xs[..n])
      && forall id :: id in Bound(env, xs[n].variable) ==>
           if id in now then KeyFound(now[id], xs[n].property) else NodeText(d, id) == ""
  {
    hide Print, NodeText, WellFormed, KeyFound, Applied, LiteralAssignment;
    forall id | id in Bound(env, xs[|xs| - 1].variable) ensures Touched(env, xs, id) { }
    forall id | id in start && id in Bound(env, xs[|xs| - 1].variable)
      ensures KeyFound(Applied(env, xs[..|xs| - 1], id, start[id]), xs[|xs| - 1].property)
    {
      assert KeysFound(env, xs, id, start[id]);
    }
  }

  lemma AppliedAllStep(env: Env, xs: seq<Assignment<Lit>>, start: map<u64, seq<Entry>>)
    requires LiteralAssignments(xs) && xs != []
    ensures var a := xs[|xs| - 1];
      AppliedAll(env, xs, start)
      == UpdatedFor(AppliedAll(env, xs[..|xs| - 1], start), Bound(env, a.variable), a.property, ValueOf(a))
  {
    hide Assigned, LiteralAssignment;
  }

  // ---- what is there afterwards ----

  lemma {:induction false} WritesGiveTexts(stod: Stod, d: Db, ws: seq<Write>)
    requires OrdersFit(stod, d, ws)
    ensures forall id :: NodeText(AfterWrites(stod, d, ws), id) == TextAfter(d, ws, id)
  {
    hide DeltaOrders, DoWrite, NodeText;
    if ws != [] {
      var n := |ws| - 1;
      WritesGiveTexts(stod, d, ws[..n]);
      WrittenText(stod, AfterWrites(stod, d, ws[..n]), ws[n]);
    }
  }

  lemma PendingTexts(stod: Stod, d: Db, p: map<u64, Pending>, ws: seq<Write>)
    requires WritesOnce(p, ws) && OrdersFit(stod, d, ws)
    ensures forall id :: NodeText(AfterWrites(stod, d, ws), id) == CurrentText(d, p, id)
  {
    hide AfterWrites, OrdersFit, NodeText, TextAfter;
    WritesGiveTexts(stod, d, ws);
    forall id ensures TextAfter(d, ws, id) == CurrentText(d, p, id) {
      DeferredTexts(d, p, ws, id);
    }
  }

  /** SET on literals: the text of every node an assigned variable is bound to is that of its entries with
      the assignments to it applied in order, however many variables are bound to it and however often;
      a deleted node stays empty, and every other node keeps its text. */
  lemma SetTexts(stod: Stod, d: Db, env: Env, xs: seq<Assignment<Lit>>, start: map<u64, seq<Entry>>, ws: seq<Write>)
    requires Assignable(d, env, xs, start)
    requires Deferred(d, AllSteps(env, xs), ws) && OrdersFit(stod, d, ws)
    ensures forall id :: id in start && Touched(env, xs, id) ==>
      NodeText(AfterWrites(stod, d, ws), id) == Print(Applied(env, xs, id, start[id]))
    ensures forall id :: !(id in start && Touched(env, xs, id)) ==>
      NodeText(AfterWrites(stod, d, ws), id) == NodeText(d, id)
  {
    hide Assignable, AfterWrites, OrdersFit, NodeText, AllSteps, Collect, Applied, Print, Touched, WellFormed;
    CollectedAssignments(d, env, xs, start);
    PendingTexts(stod, d, Collect(d, AllSteps(env, xs)).value, ws);
  }

  /** SET on literals never throws. */
  lemma SetDoesNotThrow(d: Db, env: Env, xs: seq<Assignment<Lit>>, start: map<u64, seq<Entry>>)
    requires Assignable(d, env, xs, start)
    ensures Collect(d, AllSteps(env, xs)).Some?
  {
    CollectedAssignments(d, env, xs, start);
  }

  // ---- what is found afterwards ----

  /** The last value assigned to the node under the key, None if there is none. */
  function LastAssigned(env: Env, xs: seq<Assignment<Lit>>, id: u64, key: string): (r: Option<Value>)
    requires LiteralAssignments(xs)
  {
    if xs == [] then None else
    var a := xs[|xs| - 1];
    if a.property == key && id in Bound(env, a.variable) then Some(ValueOf(a))
    else LastAssigned(env, xs[..|xs| - 1], id, key)
  }

  /** Under an assigned key a node holds the last value assigned to it, under any other what it held. */
  lemma {:induction false} AppliedLookup(env: Env, xs: seq<Assignment<Lit>>, id: u64, es: seq<Entry>, key: string)
    requires LiteralAssignments(xs)
    ensures Lookup(Applied(env, xs, id, es), key)
         == match LastAssigned(env, xs, id, key) case Some(v) => Some(v) case None => Lookup(es, key)
  {
    hide Lookup, Assigned, IsIdentifier, WellFormedValue;
    if xs != [] {
      var a := xs[|xs| - 1];
      assert LiteralAssignment(a);
      var before := Applied(env, xs[..|xs| - 1], id, es);
      AppliedLookup(env, xs[..|xs| - 1], id, es, key);
      if id in Bound(env, a.variable) { AssignedLookup(before, a.property, ValueOf(a), key); }
    }
  }

  lemma {:induction false} AppliedShape(env: Env, xs: seq<Assignment<Lit>>, id: u64, es: seq<Entry>)
    requires LiteralAssignments(xs) && WellFormed(es) && DistinctKeys(es)
    ensures WellFormed(Applied(env, xs, id, es)) && DistinctKeys(Applied(env, xs, id, es))
  {
    hide Assigned, WellFormed, DistinctKeys, IsIdentifier, WellFormedValue;
    if xs != [] {
      var a := xs[|xs| - 1];
      assert LiteralAssignment(a);
      var before := Applied(env, xs[..|xs| - 1], id, es);
      AppliedShape(env, xs[..|xs| - 1], id, es);
      AssignedWellFormed(before, a.property, ValueOf(a));
      AssignedDistinct(before, a.property, ValueOf(a));
    }
  }

  /** The assigned variables carry the labels of the nodes they are bound to. */
  ghost predicate OwnLabels(w: World, env: Env, xs: seq<Assignment<Lit>>) {
    forall i, id :: 0 <= i < |xs| && id in Bound(env, xs[i].variable) ==>
      && id in w.labels && xs[i].variable in env.labels && env.labels[xs[i].variable] == w.labels[id]
  }

  /** Distinct keys, so that a text has one value per key. */
  predicate KeysDistinct(start: map<u64, seq<Entry>>) {
    forall id :: id in start ==> DistinctKeys(start[id])
  }

  /** The same update seen as a run keeps the invariants. */
  lemma SetKeepsInv(stod: Stod, w: World, env: Env, xs: seq<Assignment<Lit>>, start: map<u64, seq<Entry>>, ws: seq<Write>)
    requires Inv(stod, w) && Assignable(w.db, env, xs, start) && KeysDistinct(start) && OwnLabels(w, env, xs)
    requires Deferred(w.db, AllSteps(env, xs), ws) && OrdersFit(stod, w.db, ws)
    ensures Inv(stod, w.(db := AfterWrites(stod, w.db, ws)))
  {
    hide Inv, AfterWrites, OrdersFit, NodeText, Collect, Assignable, AllSteps;
    CollectedAssignments(w.db, env, xs, start);
    var p := Collect(w.db, AllSteps(env, xs)).value;
    CollectedLabels(w, env, xs, start);
    forall i | 0 <= i < |ws| ensures GoodWrite(w, ws[i]) {
      assert ws[i].id in p && Touched(env, xs, ws[i].id);
      GoodResult(w, env, xs, start, p, ws[i]);
    }
    WritesEffect(stod, w, ws);
  }

  lemma GoodResult(w: World, env: Env, xs: seq<Assignment<Lit>>, start: map<u64, seq<Entry>>, p: map<u64, Pending>, v: Write)
    requires Assignable(w.db, env, xs, start) && KeysDistinct(start) && v.id in p && Pending(v.lbl, v.text) == p[v.id]
    requires Holding(w.db, AppliedAll(env, xs, start), p) && v.id in w.labels && v.lbl == w.labels[v.id]
    ensures GoodWrite(w, v)
  {
    hide NodeText, Applied, Print, WellFormed, DistinctKeys, KeysFound, Touched, LiteralAssignment;
    if v.id in start {
      PrintIsText(start[v.id]);
      AppliedShape(env, xs, v.id, start[v.id]);
      assert PrintedText(v.text);
    }
  }

  /** Every collected entry has the label of its node. */
  lemma {:induction false} CollectedLabels(w: World, env: Env, xs: seq<Assignment<Lit>>, start: map<u64, seq<Entry>>)
    requires Assignable(w.db, env, xs, start) && OwnLabels(w, env, xs) && Collect(w.db, AllSteps(env, xs)).Some?
    ensures var p := Collect(w.db, AllSteps(env, xs)).value;
      forall id :: id in p ==> id in w.labels && p[id].lbl == w.labels[id]
  {
    hide Assignable, NodeText, Update, Collect;
    var steps := AllSteps(env, xs);
    StepLabels(w, env, xs);
    LabelsCollected(w, steps);
  }

  lemma {:induction false} StepLabels(w: World, env: Env, xs: seq<Assignment<Lit>>)
    requires OwnLabels(w, env, xs)
    ensures forall i :: 0 <= i < |AllSteps(env, xs)| ==>
      AllSteps(env, xs)[i].id in w.labels && AllSteps(env, xs)[i].lbl == w.labels[AllSteps(env, xs)[i].id]
  {
    if xs != [] {
      var n := |xs| - 1;
      assert OwnLabels(w, env, xs[..n]) by { assert forall i :: 0 <= i < n ==> xs[..n][i] == xs[i]; }
      StepLabels(w, env, xs[..n]);
      var ids := Bound(env, xs[n].variable);
      forall i | 0 <= i < |ids| ensures ids[i] in w.labels && StepOf(env, xs[n], ids[i]).lbl == w.labels[ids[i]] {
        assert ids[i] in ids;
      }
    }
  }

  lemma {:induction false} LabelsCollected(w: World, steps: seq<SetStep>)
    requires Collect(w.db, steps).Some?
    requires forall i :: 0 <= i < |steps| ==> steps[i].id in w.labels && steps[i].lbl == w.labels[steps[i].id]
    ensures forall id :: id in Collect(w.db, steps).value ==>
      id in w.labels && Collect(w.db, steps).value[id].lbl == w.labels[id]
  {
    hide NodeText, Update;
    if steps != [] { LabelsCollected(w, steps[..|steps| - 1]); }
  }

  /** Which property lookup finds an assigned node afterwards: the last value assigned under the key, or
      else the value the node had, has to have the canonical form asked for. */
  lemma SetThenFind(stod: Stod, w: World, env: Env, xs: seq<Assignment<Lit>>, start: map<u64, seq<Entry>>, ws: seq<Write>,
                    id: u64, key: string, value: string)
    requires Inv(stod, w) && Assignable(w.db, env, xs, start) && KeysDistinct(start) && OwnLabels(w, env, xs)
    requires Deferred(w.db, AllSteps(env, xs), ws) && OrdersFit(stod, w.db, ws)
    requires id in start && Touched(env, xs, id) && id in w.labels && w.labels[id] != "" && NulFree(key)
    ensures id in NodesByProperty(stod, AfterWrites(stod, w.db, ws), w.labels[id], key, value)
       <==> match LastAssigned(env, xs, id, key)
            case Some(v) => Canon(stod, Erased(v)) == Canon(stod, value)
            case None => Lookup(start[id], key).Some? && Canon(stod, Erased(Lookup(start[id], key).value)) == Canon(stod, value)
  {
    hide Inv, AfterWrites, OrdersFit, Deferred, Collect, AllSteps, Applied, Print, Canon, HasCanon, NodesByProperty, NulFree,
      DistinctKeys, WellFormed, KeysFound, LiteralAssignment, NodeText, OwnLabels, Touched;
    SetKeepsInv(stod, w, env, xs, start, ws);
    var w1 := w.(db := AfterWrites(stod, w.db, ws));
    SetTexts(stod, w.db, env, xs, start, ws);
    PrintIsText(Applied(env, xs, id, start[id]));
    LastTextNow(stod, w1, id);
    LookupAnswers(stod, w1, w.labels[id], key, value);
    AppliedShape(env, xs, id, start[id]);
    AppliedLookup(env, xs, id, start[id], key);
    PrintedCanon(stod, Applied(env, xs, id, start[id]), key, value);
  }

  lemma LastTextNow(stod: Stod, w: World, id: u64)
    requires Inv(stod, w) && id in w.labels
    ensures NulFree(w.labels[id]) && (NodeText(w.db, id) != "" ==> LastText(w, id) == NodeText(w.db, id))
  {
    hide Inv, LastText, NulFree, ValidText;
    LastIsValid(stod, w, id);
  }

  lemma PrintedCanon(stod: Stod, es: seq<Entry>, key: string, value: string)
    requires WellFormed(es) && DistinctKeys(es)
    ensures HasCanon(stod, Print(es), key, value)
       <==> Lookup(es, key).Some? && Canon(stod, Erased(Lookup(es, key).value)) == Canon(stod, value)
  {
    hide Canon, Print, Parse, Lookup, WellFormed, DistinctKeys;
    ParsePrint(es);
    Where.LookupIsField(es, key);
  }
}
