/**
 * The operators that read action metadata: `addRelationsAndStepsFromMetadata`
 * (and the older store variant, which feeds it the stored declarations),
 * `addRelationsAndStepsFromModule`, `addActionToContext` and
 * `addRelationAndStepToProcess`.
 */
module ActionOperators {
  import opened Wrappers
  import opened Common
  import opened Seqs
  import opened Graph
  import opened Container
  import opened Pipeline
  import opened Behaviours
  import opened Process
  import opened ProcessBuilder
  import opened Metadata

  // ---- the union of declared relations ----

  /** The statuses one action's pairs mention, `from` before `to`, pair by pair. */
  function PairStatuses(pairs: seq<(string, string)>): (ss: seq<string>)
    ensures |ss| == 2 * |pairs|
    ensures forall k :: 0 <= k < |pairs| ==> ss[2 * k] == pairs[k].0 && ss[2 * k + 1] == pairs[k].1
  {
    if |pairs| == 0 then [] else
      var rest := PairStatuses(pairs[1..]);
      assert forall k :: 0 < k < |pairs| ==> pairs[1..][k - 1] == pairs[k];
      [pairs[0].0, pairs[0].1] + rest
  }

  /** One action's pairs as triples labelled with its command. */
  function PairRelations(command: string, pairs: seq<(string, string)>): (rs: seq<RelationSpec>)
    ensures |rs| == |pairs|
    ensures forall k :: 0 <= k < |pairs| ==> rs[k] == RelationSpec(pairs[k].0, pairs[k].1, command)
  {
    if |pairs| == 0 then [] else [RelationSpec(pairs[0].0, pairs[0].1, command)] + PairRelations(command, pairs[1..])
  }

  /** Every status the declarations mention, in mention order, repeats included. */
  function StatusesOf(ds: seq<Declaration>): seq<string> {
    if |ds| == 0 then [] else PairStatuses(ds[0].relations) + StatusesOf(ds[1..])
  }

  /** Every declared relation, in declaration order, each with its declaring command. */
  function RelationsOf(ds: seq<Declaration>): seq<RelationSpec> {
    if |ds| == 0 then [] else PairRelations(ds[0].command, ds[0].relations) + RelationsOf(ds[1..])
  }

  /** Both endpoints of every declared relation are among the mentioned statuses. */
  lemma {:induction false} EndpointsMentioned(ds: seq<Declaration>)
    ensures forall r :: r in RelationsOf(ds) ==> r.from in StatusesOf(ds) && r.to in StatusesOf(ds)
  {
    if |ds| > 0 {
      EndpointsMentioned(ds[1..]);
      PairEndpointsMentioned(ds[0].command, ds[0].relations);
    }
  }

  lemma {:induction false} PairEndpointsMentioned(command: string, pairs: seq<(string, string)>)
    ensures forall r :: r in PairRelations(command, pairs) ==> r.from in PairStatuses(pairs) && r.to in PairStatuses(pairs)
  {
    if |pairs| > 0 {
      PairEndpointsMentioned(command, pairs[1..]);
    }
  }

  /**
   * `addRelationsAndStepsFromMetadata(actionsMeta)` on a process: one step
   * per distinct mentioned status in first-mention order (the order of a
   * `Set` filled pair by pair), then every declared relation in order.
   */
  function StepsAndRelations(p: Process, ds: seq<Declaration>): (r: Result<Process, Error>)
    ensures Inv(p) && r.Success? ==> Inv(r.value) && r.value.name == p.name && r.value.edition == p.edition
  {
    var p1 :- AddStepsTo(p, Dedup(StatusesOf(ds)));
    AddRelationsTo(p1, RelationsOf(ds))
  }

  function FromMetadata(ds: seq<Declaration>): Operator<Process> {
    p => StepsAndRelations(p, ds)
  }

  /** `addRelationsAndStepsFromModule(module)`: the declarations of the tree, then the same. */
  function FromModuleTo(p: Process, m: ModuleClass): (r: Result<Process, Error>)
    ensures !FullyDecorated(m) ==> r.Failure? && r.error.DecoratorIsRequired?
    ensures FullyDecorated(m) ==> r == StepsAndRelations(p, DeclarationsOf(Collect(m, ActionsOf)))
  {
    ModuleDeclarationsWalk(m);
    var ds :- ModuleDeclarations(m);
    StepsAndRelations(p, ds)
  }

  function FromModule(m: ModuleClass): Operator<Process> {
    p => FromModuleTo(p, m)
  }

  /**
   * The steps come first: every distinct mentioned status once, in
   * first-mention order, with ids continuing from the existing steps.
   */
  lemma StepsFirst(p: Process, ds: seq<Declaration>)
    requires Inv(p)
    ensures var statuses := Dedup(StatusesOf(ds));
      var p1 := AddStepsTo(p, statuses).value;
      && NoDups(statuses)
      && (forall s :: s in StatusesOf(ds) <==> s in statuses)
      && (forall i, j :: 0 <= i < j < |statuses| ==> IndexOf(StatusesOf(ds), statuses[i]) < IndexOf(StatusesOf(ds), statuses[j]))
      && p1.graph.edges == p.graph.edges
      && |p1.graph.nodes| == |p.graph.nodes| + |statuses|
      && p1.graph.nodes[..|p.graph.nodes|] == p.graph.nodes
      && (forall k :: 0 <= k < |statuses| ==> p1.graph.nodes[|p.graph.nodes| + k].value.status == statuses[k])
  {
    var statuses := Dedup(StatusesOf(ds));
    StatusesOnce(ds);
    var p1 := AddStepsTo(p, statuses).value;
    assert
      && p1.graph.edges == p.graph.edges
      && |p1.graph.nodes| == |p.graph.nodes| + |statuses|
      && p1.graph.nodes[..|p.graph.nodes|] == p.graph.nodes
      && (forall k :: 0 <= k < |statuses| ==> p1.graph.nodes[|p.graph.nodes| + k].value.status == statuses[k])
    by {
      AddStepsAppends(p, statuses);
    }
  }

  /** The statuses the steps phase adds: each mentioned one once, in first-mention order. */
  lemma StatusesOnce(ds: seq<Declaration>)
    ensures var statuses := Dedup(StatusesOf(ds));
      && NoDups(statuses)
      && (forall s :: s in StatusesOf(ds) <==> s in statuses)
      && (forall i, j :: 0 <= i < j < |statuses| ==> IndexOf(StatusesOf(ds), statuses[i]) < IndexOf(StatusesOf(ds), statuses[j]))
  {
    var statuses := Dedup(StatusesOf(ds));
    DedupFirstMentionOrder(StatusesOf(ds));
    assert forall s :: s in StatusesOf(ds) ==> s in statuses;
  }

  /**
   * Then the relations: a successful run keeps the steps it added and
   * appends one relation per declared pair, in declaration order, labelled
   * with the declaring command.
   */
  lemma RelationsNext(p: Process, ds: seq<Declaration>)
    requires Inv(p) && StepsAndRelations(p, ds).Success?
    ensures var p1 := AddStepsTo(p, Dedup(StatusesOf(ds))).value;
      var q := StepsAndRelations(p, ds).value;
      && q.graph.nodes == p1.graph.nodes
      && |p.graph.edges| <= |q.graph.edges|
      && q.graph.edges[..|p.graph.edges|] == p.graph.edges
      && WeightsOf(q.graph.edges[|p.graph.edges|..]) == Labels(RelationsOf(ds))
  {
    var p1 := AddStepsTo(p, Dedup(StatusesOf(ds))).value;
    AddStepsAppends(p, Dedup(StatusesOf(ds)));
    AddRelationsAppends(p1, RelationsOf(ds));
  }

  /**
   * On a process with no relations yet, the declarations are accepted
   * exactly when no two of them declare the same `(from, to)` pair; a
   * repeated pair, even under another command, stops the build with
   * EDGE_HAS_BEEN_ADDED. No endpoint can be missing.
   */
  lemma StepsAndRelationsSucceeds(p: Process, ds: seq<Declaration>)
    requires Inv(p) && |p.graph.edges| == 0
    ensures var rs := RelationsOf(ds);
      StepsAndRelations(p, ds).Success? <==> PairsDistinct(rs)
    ensures StepsAndRelations(p, ds).Failure? ==> StepsAndRelations(p, ds).error == EdgeHasBeenAdded
  {
    var rs := RelationsOf(ds);
    var statuses := Dedup(StatusesOf(ds));
    var p1 := AddStepsTo(p, statuses).value;
    assert Inv(p1) && |p1.graph.edges| == 0 by {
      AddStepsAppends(p, statuses);
    }
    assert StepsAndRelations(p, ds) == AddRelationsTo(p1, rs);
    StepsJoinable(p, ds);
    NoRelationsFresh(p1, rs);
  }

  /** After the steps phase, every declared relation has both its endpoints. */
  lemma StepsJoinable(p: Process, ds: seq<Declaration>)
    requires Inv(p)
    ensures Joinable(AddStepsTo(p, Dedup(StatusesOf(ds))).value, RelationsOf(ds))
  {
    var statuses := Dedup(StatusesOf(ds));
    var rs := RelationsOf(ds);
    EndpointsMentioned(ds);
    forall k | 0 <= k < |rs|
      ensures HasStatus(AddStepsTo(p, statuses).value, rs[k].from) && HasStatus(AddStepsTo(p, statuses).value, rs[k].to)
    {
      assert rs[k] in rs;
      ListedStatusHasStep(p, statuses, rs[k].from);
      ListedStatusHasStep(p, statuses, rs[k].to);
    }
  }

  /** Each status passed to `addSteps` has a step afterwards. */
  lemma ListedStatusHasStep(p: Process, statuses: seq<string>, s: string)
    requires Inv(p) && s in statuses
    ensures HasStatus(AddStepsTo(p, statuses).value, s)
  {
    AddStepsAppends(p, statuses);
    var i := IndexOf(statuses, s);
    assert AddStepsTo(p, statuses).value.graph.nodes[|p.graph.nodes| + i].value.status == s;
  }

  // ---- one action at a time ----

  /** `addActionToContext(type)`: a transient under the action's command, or under the initial token. */
  function AddActionToContext(c: Context, a: ActionClass): (r: Result<Context, Error>)
    ensures a.meta.None? ==> r == Failure(DecoratorIsRequired(a.cls, "Action"))
    ensures a.meta.Some? && a.meta.value.kind.Act? ==> r == SetTransient(c, Named(a.meta.value.kind.command), Some(a.cls))
    ensures a.meta.Some? && a.meta.value.kind.InitialKind? ==> r == SetTransient(c, Named(InitialActionCommand), Some(a.cls))
  {
    var meta :- GetActionMetadata(a);
    if meta.kind.Act? then SetTransient(c, Named(meta.kind.command), Some(a.cls))
    else SetTransient(c, Named(InitialActionCommand), Some(a.cls))
  }

  function AddActionOp(a: ActionClass): Operator<Context> {
    c => AddActionToContext(c, a)
  }

  /**
   * Registering an action class and then asking the container for its
   * command gives an instance of that class, in each lifetime it can be
   * resolved in; an initial action answers under the initial token.
   */
  lemma ActionResolvesUnderItsToken(classes: ClassTable, c: Context, a: ActionClass, fuel: nat)
    requires a.meta.Some? && AddActionToContext(c, a).Success?
    requires Good(c)
    ensures var t := if a.meta.value.kind.Act? then Named(a.meta.value.kind.command) else Named(InitialActionCommand);
      var c1 := AddActionToContext(c, a).value;
      t !in c.singletons ==>
        var (_, r) := Resolve(classes, c1, t, fuel);
        r.Success? ==> r.value.cls == a.cls
  {
    var t := if a.meta.value.kind.Act? then Named(a.meta.value.kind.command) else Named(InitialActionCommand);
    var c1 := AddActionToContext(c, a).value;
    if t !in c.singletons {
      assert c1.transients[t] == a.cls;
      assert t !in c1.singletons;
    }
  }

  /** The first step with status `s`, added only when there is none. */
  function EnsureStep(p: Process, s: string): (r: Result<Process, Error>)
    ensures Inv(p) ==> r.Success? && Inv(r.value) && HasStatus(r.value, s)
    ensures Inv(p) ==> r.value.name == p.name && r.value.edition == p.edition && r.value.graph.edges == p.graph.edges
    ensures Inv(p) && HasStatus(p, s) ==> r.value == p
    ensures Inv(p) && !HasStatus(p, s) ==> r.value.graph.nodes == p.graph.nodes + [Node(|p.graph.nodes|, Step(|p.graph.nodes|, p.name, s))]
  {
    if FirstWithStatus(p, s).Some? then Success(p)
    else
      var q :- AddStep(p, s);
      assert Inv(p) ==> q.graph.nodes[|p.graph.nodes|].value.status == s;
      Success(q)
  }

  /** For each pair of one action: the missing endpoints as new steps, then the relation. */
  function PairsToProcess(p: Process, command: string, pairs: seq<(string, string)>): (r: Result<Process, Error>)
    ensures Inv(p) && r.Success? ==> Inv(r.value) && r.value.name == p.name && r.value.edition == p.edition
    decreases |pairs|
  {
    if |pairs| == 0 then Success(p)
    else
      var p1 :- EnsureStep(p, pairs[0].0);
      var p2 :- EnsureStep(p1, pairs[0].1);
      var p3 :- AddRelation(p2, pairs[0].0, pairs[0].1, command);
      PairsToProcess(p3, command, pairs[1..])
  }

  /**
   * `addRelationAndStepToProcess(type)`: an `@Action` class's pairs are
   * added one by one; an initial action is refused with UnknownErrorException.
   */
  function RelationAndStepTo(p: Process, a: ActionClass): (r: Result<Process, Error>)
    ensures a.meta.None? ==> r == Failure(DecoratorIsRequired(a.cls, "Action"))
    ensures a.meta.Some? && a.meta.value.kind.InitialKind? ==> r == Failure(UnknownErrorException)
    ensures a.meta.Some? && a.meta.value.kind.Act? ==> r == PairsToProcess(p, a.meta.value.kind.command, a.meta.value.kind.relations)
  {
    var meta :- GetActionMetadata(a);
    if meta.kind.Act? then PairsToProcess(p, meta.kind.command, meta.kind.relations)
    else Failure(UnknownErrorException)
  }

  function RelationAndStep(a: ActionClass): Operator<Process> {
    p => RelationAndStepTo(p, a)
  }

  /** No two steps share a status. */
  ghost predicate UniqueStatuses(p: Process) {
    forall i, j :: 0 <= i < j < |p.graph.nodes| ==> p.graph.nodes[i].value.status != p.graph.nodes[j].value.status
  }

  /** Adding a step only when its status is missing keeps statuses unique. */
  lemma EnsureStepKeepsUnique(p: Process, s: string)
    requires Inv(p) && UniqueStatuses(p)
    ensures UniqueStatuses(EnsureStep(p, s).value)
  {
    var q := EnsureStep(p, s).value;
    if !HasStatus(p, s) {
      forall i, j | 0 <= i < j < |q.graph.nodes| ensures q.graph.nodes[i].value.status != q.graph.nodes[j].value.status {
        if j == |p.graph.nodes| {
          assert q.graph.nodes[i] == p.graph.nodes[i];
        } else {
          assert q.graph.nodes[i] == p.graph.nodes[i] && q.graph.nodes[j] == p.graph.nodes[j];
        }
      }
    }
  }

  /** A status that has a step keeps one. */
  lemma EnsureStepKeepsStatuses(p: Process, s: string)
    requires Inv(p)
    ensures forall t :: HasStatus(p, t) ==> HasStatus(EnsureStep(p, s).value, t)
  {
    var q := EnsureStep(p, s).value;
    forall t | HasStatus(p, t) ensures HasStatus(q, t) {
      var i :| 0 <= i < |p.graph.nodes| && p.graph.nodes[i].value.status == t;
      assert q.graph.nodes[i] == p.graph.nodes[i];
    }
  }

  /**
   * Unlike the metadata union, the one-action operator never duplicates a
   * status: on a process whose statuses are unique they stay unique.
   */
  lemma {:induction false} PairsKeepStatusesUnique(p: Process, command: string, pairs: seq<(string, string)>)
    requires Inv(p) && UniqueStatuses(p) && PairsToProcess(p, command, pairs).Success?
    ensures UniqueStatuses(PairsToProcess(p, command, pairs).value)
    decreases |pairs|
  {
    if |pairs| > 0 {
      var p3 := OnePair(p, command, pairs);
      OnePairUnique(p, command, pairs);
      PairsKeepStatusesUnique(p3, command, pairs[1..]);
    }
  }

  /**
   * Every endpoint the one-action operator was given has a step afterwards,
   * and every status that had a step still has one.
   */
  lemma PairsGiveSteps(p: Process, command: string, pairs: seq<(string, string)>)
    requires Inv(p) && PairsToProcess(p, command, pairs).Success?
    ensures var q := PairsToProcess(p, command, pairs).value;
      forall k :: 0 <= k < |pairs| ==> HasStatus(q, pairs[k].0) && HasStatus(q, pairs[k].1)
    ensures forall s :: HasStatus(p, s) ==> HasStatus(PairsToProcess(p, command, pairs).value, s)
  {
    forall k | 0 <= k < |pairs|
      ensures HasStatus(PairsToProcess(p, command, pairs).value, pairs[k].0)
           && HasStatus(PairsToProcess(p, command, pairs).value, pairs[k].1)
    {
      PairEndpointsHaveSteps(p, command, pairs, k);
    }
    forall s | HasStatus(p, s) ensures HasStatus(PairsToProcess(p, command, pairs).value, s) {
      PairsKeepStatus(p, command, pairs, s);
    }
  }

  /** A status with a step keeps it through the one-action operator. */
  lemma {:induction false} PairsKeepStatus(p: Process, command: string, pairs: seq<(string, string)>, s: string)
    requires Inv(p) && PairsToProcess(p, command, pairs).Success? && HasStatus(p, s)
    ensures HasStatus(PairsToProcess(p, command, pairs).value, s)
    decreases |pairs|
  {
    if |pairs| > 0 {
      var p3 := OnePair(p, command, pairs);
      OnePairKeeps(p, command, pairs, s);
      PairsKeepStatus(p3, command, pairs[1..], s);
    }
  }

  /** Both endpoints of the `k`-th pair have a step after the one-action operator. */
  lemma {:induction false} PairEndpointsHaveSteps(p: Process, command: string, pairs: seq<(string, string)>, k: nat)
    requires Inv(p) && PairsToProcess(p, command, pairs).Success? && k < |pairs|
    ensures var q := PairsToProcess(p, command, pairs).value;
      HasStatus(q, pairs[k].0) && HasStatus(q, pairs[k].1)
    decreases |pairs|
  {
    var p3 := OnePair(p, command, pairs);
    var q := PairsToProcess(p3, command, pairs[1..]).value;
    assert PairsToProcess(p, command, pairs).value == q;
    if k == 0 {
      assert HasStatus(q, pairs[0].0) && HasStatus(q, pairs[0].1) by {
        PairsKeepStatus(p3, command, pairs[1..], pairs[0].0);
        PairsKeepStatus(p3, command, pairs[1..], pairs[0].1);
      }
    } else {
      assert HasStatus(q, pairs[k].0) && HasStatus(q, pairs[k].1) by {
        TailAt(pairs, k);
        PairEndpointsHaveSteps(p3, command, pairs[1..], k - 1);
      }
    }
  }

  /** `q` keeps the steps of `p` in front. */
  ghost predicate StepsKept(p: Process, q: Process) {
    |p.graph.nodes| <= |q.graph.nodes| && q.graph.nodes[..|p.graph.nodes|] == p.graph.nodes
  }

  /**
   * `q` keeps the relations of `p` in front and then has exactly one per
   * pair, in pair order, joining the first steps of the pair's statuses in
   * `q` and labelled with `command`.
   */
  ghost predicate EdgesAppended(p: Process, q: Process, command: string, pairs: seq<(string, string)>) {
    && |q.graph.edges| == |p.graph.edges| + |pairs|
    && q.graph.edges[..|p.graph.edges|] == p.graph.edges
    && forall k :: 0 <= k < |pairs| ==> PairEdgeAt(q, |p.graph.edges|, command, pairs, k)
  }

  /**
   * Edge `m + k` of `q` joins the first steps of the `k`-th pair's statuses
   * and is labelled with `command`.
   */
  ghost predicate PairEdgeAt(q: Process, m: nat, command: string, pairs: seq<(string, string)>, k: nat) {
    && k < |pairs| && m + k < |q.graph.edges|
    && HasStatus(q, pairs[k].0) && HasStatus(q, pairs[k].1)
    && q.graph.edges[m + k] == Edge(At(q, pairs[k].0), At(q, pairs[k].1), Relation(command))
  }

  /**
   * The edges the one-action operator adds: exactly one per pair, in pair
   * order after the existing relations, each joining the first steps of
   * the pair's two statuses and labelled with the action's command. Steps
   * already there stay in front.
   */
  lemma {:induction false} PairsAddEdges(p: Process, command: string, pairs: seq<(string, string)>)
    requires Inv(p) && PairsToProcess(p, command, pairs).Success?
    ensures var q := PairsToProcess(p, command, pairs).value;
      StepsKept(p, q) && EdgesAppended(p, q, command, pairs)
    decreases |pairs|
  {
    if |pairs| == 0 {
      assert p.graph.nodes[..|p.graph.nodes|] == p.graph.nodes;
      assert p.graph.edges[..|p.graph.edges|] == p.graph.edges;
    } else {
      var p3 := OnePair(p, command, pairs);
      OnePairEdge(p, command, pairs);
      PairsAddEdges(p3, command, pairs[1..]);
      EdgesStep(p, p3, PairsToProcess(p3, command, pairs[1..]).value, command, pairs);
    }
  }

  /** The first pair's edge in front of the rest's edges gives the edges of all pairs. */
  lemma EdgesStep(p: Process, p3: Process, q: Process, command: string, pairs: seq<(string, string)>)
    requires |pairs| > 0 && StepsKept(p, p3) && HasStatus(p3, pairs[0].0) && HasStatus(p3, pairs[0].1)
    requires p3.graph.edges == p.graph.edges + [Edge(At(p3, pairs[0].0), At(p3, pairs[0].1), Relation(command))]
    requires StepsKept(p3, q) && EdgesAppended(p3, q, command, pairs[1..])
    ensures StepsKept(p, q) && EdgesAppended(p, q, command, pairs)
  {
    var m := |p.graph.edges|;
    EdgesHead(p, p3, q, command, pairs);
    forall k | 0 < k < |pairs| ensures PairEdgeAt(q, m, command, pairs, k) {
      ShiftPairEdge(q, m, command, pairs, k);
    }
  }

  /** The first pair's edge, and the steps and relations before it, survive the rest of the run. */
  lemma EdgesHead(p: Process, p3: Process, q: Process, command: string, pairs: seq<(string, string)>)
    requires |pairs| > 0 && StepsKept(p, p3) && HasStatus(p3, pairs[0].0) && HasStatus(p3, pairs[0].1)
    requires p3.graph.edges == p.graph.edges + [Edge(At(p3, pairs[0].0), At(p3, pairs[0].1), Relation(command))]
    requires StepsKept(p3, q) && |p3.graph.edges| <= |q.graph.edges| && q.graph.edges[..|p3.graph.edges|] == p3.graph.edges
    ensures StepsKept(p, q) && q.graph.edges[..|p.graph.edges|] == p.graph.edges
    ensures PairEdgeAt(q, |p.graph.edges|, command, pairs, 0)
  {
    var m := |p.graph.edges|;
    assert q.graph.edges[..m] == p.graph.edges by {
      assert q.graph.edges[..m + 1] == p3.graph.edges;
    }
    assert q.graph.nodes[..|p.graph.nodes|] == p.graph.nodes by {
      assert q.graph.nodes[..|p3.graph.nodes|] == p3.graph.nodes;
    }
    PrefixKeepsFirst(p3, q, pairs[0].0);
    PrefixKeepsFirst(p3, q, pairs[0].1);
    assert q.graph.edges[m] == p3.graph.edges[m];
  }

  /** The rest's `k - 1`-th edge, one place further on, is the `k`-th pair's edge. */
  lemma ShiftPairEdge(q: Process, m: nat, command: string, pairs: seq<(string, string)>, k: nat)
    requires 0 < k < |pairs| && PairEdgeAt(q, m + 1, command, pairs[1..], k - 1)
    ensures PairEdgeAt(q, m, command, pairs, k)
  {
    assert pairs[1..][k - 1] == pairs[k];
  }

  /** The first pair's own edge: after the existing ones, between the first steps of its statuses. */
  lemma OnePairEdge(p: Process, command: string, pairs: seq<(string, string)>)
    requires Inv(p) && |pairs| > 0 && PairsToProcess(p, command, pairs).Success?
    ensures var p3 := AddRelation(EnsureStep(EnsureStep(p, pairs[0].0).value, pairs[0].1).value, pairs[0].0, pairs[0].1, command).value;
      && StepsKept(p, p3)
      && HasStatus(p3, pairs[0].0) && HasStatus(p3, pairs[0].1)
      && p3.graph.edges == p.graph.edges + [Edge(At(p3, pairs[0].0), At(p3, pairs[0].1), Relation(command))]
  {
    EnsureBoth(p, pairs[0].0, pairs[0].1);
    RelationEdge(EnsureStep(EnsureStep(p, pairs[0].0).value, pairs[0].1).value, pairs[0].0, pairs[0].1, command);
  }

  /** Ensuring two steps keeps the steps in front and the relations, and gives both statuses. */
  lemma EnsureBoth(p: Process, a: string, b: string)
    requires Inv(p)
    ensures var p2 := EnsureStep(EnsureStep(p, a).value, b).value;
      && Inv(p2) && StepsKept(p, p2) && p2.graph.edges == p.graph.edges
      && HasStatus(p2, a) && HasStatus(p2, b)
  {
    var p1 := EnsureStep(p, a).value;
    var p2 := EnsureStep(p1, b).value;
    EnsureStepKeepsStatuses(p1, b);
    assert p2.graph.nodes[..|p.graph.nodes|] == p.graph.nodes by {
      assert p2.graph.nodes[..|p1.graph.nodes|] == p1.graph.nodes;
    }
  }

  /** A relation that is added joins the first steps of its two statuses. */
  lemma RelationEdge(p2: Process, from: string, to: string, command: string)
    requires Inv(p2) && HasStatus(p2, from) && HasStatus(p2, to) && AddRelation(p2, from, to, command).Success?
    ensures var p3 := AddRelation(p2, from, to, command).value;
      && p3.graph.nodes == p2.graph.nodes
      && HasStatus(p3, from) && HasStatus(p3, to)
      && p3.graph.edges == p2.graph.edges + [Edge(At(p3, from), At(p3, to), Relation(command))]
  {
    var p3 := AddRelation(p2, from, to, command).value;
    var fi := FirstWithStatus(p2, from).value;
    var ti := FirstWithStatus(p2, to).value;
    assert p3.graph.nodes == p2.graph.nodes;
    FirstWithStatusAt(p3, from, fi);
    FirstWithStatusAt(p3, to, ti);
  }

  /** Appending steps behind a process keeps the first step of every status it had. */
  lemma PrefixKeepsFirst(p: Process, q: Process, s: string)
    requires StepsKept(p, q) && HasStatus(p, s)
    ensures HasStatus(q, s) && At(q, s) == At(p, s)
  {
    var i := At(p, s);
    assert q.graph.nodes[i] == p.graph.nodes[i];
    forall k | 0 <= k < i ensures q.graph.nodes[k].value.status != s {
      assert q.graph.nodes[k] == p.graph.nodes[k];
    }
    FirstWithStatusAt(q, s, i);
  }

  /**
   * The one-action operator's labels: the new relations carry the action's
   * command once per pair, as the triples of its pairs ask.
   */
  lemma {:induction false} PairsLabels(p: Process, command: string, pairs: seq<(string, string)>)
    requires Inv(p) && PairsToProcess(p, command, pairs).Success?
    ensures var q := PairsToProcess(p, command, pairs).value;
      && |p.graph.edges| <= |q.graph.edges|
      && WeightsOf(q.graph.edges[|p.graph.edges|..]) == Labels(PairRelations(command, pairs))
  {
    PairsAddEdges(p, command, pairs);
    AppendedLabels(p, PairsToProcess(p, command, pairs).value, command, pairs);
  }

  /** Edges appended for the pairs carry the command once per pair. */
  lemma AppendedLabels(p: Process, q: Process, command: string, pairs: seq<(string, string)>)
    requires EdgesAppended(p, q, command, pairs)
    ensures WeightsOf(q.graph.edges[|p.graph.edges|..]) == Labels(PairRelations(command, pairs))
  {
    var es := q.graph.edges[|p.graph.edges|..];
    var ls := Labels(PairRelations(command, pairs));
    WeightsAt(es);
    LabelsAt(PairRelations(command, pairs));
    forall k | 0 <= k < |pairs| ensures WeightsOf(es)[k] == ls[k] {
      assert PairEdgeAt(q, |p.graph.edges|, command, pairs, k);
      assert es[k] == q.graph.edges[|p.graph.edges| + k];
    }
  }

  /**
   * The per-action operator on an `@Action` class: on success it adds one
   * relation per declared pair, in declaration order, between the first
   * steps of the pair's statuses and labelled with the action's command;
   * its only failure is a relation already present.
   */
  lemma RelationAndStepEdges(p: Process, a: ActionClass)
    requires Inv(p) && a.meta.Some? && a.meta.value.kind.Act?
    ensures var r := RelationAndStepTo(p, a);
      r.Success? ==> StepsKept(p, r.value) && EdgesAppended(p, r.value, a.meta.value.kind.command, a.meta.value.kind.relations)
    ensures var r := RelationAndStepTo(p, a);
      r.Failure? ==> r.error == EdgeHasBeenAdded
  {
    var kind := a.meta.value.kind;
    if PairsToProcess(p, kind.command, kind.relations).Success? {
      PairsAddEdges(p, kind.command, kind.relations);
    } else {
      PairsFailOnRepeatedEdge(p, kind.command, kind.relations);
    }
  }

  /** Position `k` of the weights is the `k`-th edge's relation. */
  lemma {:induction false} WeightsAt(es: seq<Edge<Relation>>)
    ensures forall k :: 0 <= k < |es| ==> WeightsOf(es)[k] == es[k].weight
  {
    if |es| > 0 {
      WeightsAt(es[1..]);
      assert forall k :: 0 < k < |es| ==> es[1..][k - 1] == es[k];
    }
  }

  /** Position `k` of the labels is the `k`-th triple's command. */
  lemma {:induction false} LabelsAt(rs: seq<RelationSpec>)
    ensures forall k :: 0 <= k < |rs| ==> Labels(rs)[k] == Relation(rs[k].command)
  {
    if |rs| > 0 {
      LabelsAt(rs[1..]);
      assert forall k :: 0 < k < |rs| ==> rs[1..][k - 1] == rs[k];
    }
  }

  /**
   * On a process that keeps the invariant, the one-action operator can only
   * fail on a relation already present: every endpoint gets its step first.
   */
  lemma {:induction false} PairsFailOnRepeatedEdge(p: Process, command: string, pairs: seq<(string, string)>)
    requires Inv(p) && PairsToProcess(p, command, pairs).Failure?
    ensures PairsToProcess(p, command, pairs).error == EdgeHasBeenAdded
    decreases |pairs|
  {
    var p1 := EnsureStep(p, pairs[0].0).value;
    var p2 := EnsureStep(p1, pairs[0].1).value;
    EnsureStepKeepsStatuses(p1, pairs[0].1);
    var r3 := AddRelation(p2, pairs[0].0, pairs[0].1, command);
    if r3.Success? {
      assert PairsToProcess(p, command, pairs) == PairsToProcess(r3.value, command, pairs[1..]);
      PairsFailOnRepeatedEdge(r3.value, command, pairs[1..]);
    }
  }

  /**
   * The first pair of a successful run: both endpoints get a step and the
   * run continues from there.
   */
  lemma OnePair(p: Process, command: string, pairs: seq<(string, string)>) returns (p3: Process)
    requires Inv(p) && |pairs| > 0 && PairsToProcess(p, command, pairs).Success?
    ensures Inv(p3) && HasStatus(p3, pairs[0].0) && HasStatus(p3, pairs[0].1)
    ensures p3 == AddRelation(EnsureStep(EnsureStep(p, pairs[0].0).value, pairs[0].1).value, pairs[0].0, pairs[0].1, command).value
    ensures PairsToProcess(p, command, pairs) == PairsToProcess(p3, command, pairs[1..])
  {
    var p2 := EnsureStep(EnsureStep(p, pairs[0].0).value, pairs[0].1).value;
    p3 := AddRelation(p2, pairs[0].0, pairs[0].1, command).value;
    assert p3.graph.nodes == p2.graph.nodes;
  }

  /** The first pair keeps a status that had a step. */
  lemma OnePairKeeps(p: Process, command: string, pairs: seq<(string, string)>, s: string)
    requires Inv(p) && |pairs| > 0 && PairsToProcess(p, command, pairs).Success? && HasStatus(p, s)
    ensures HasStatus(AddRelation(EnsureStep(EnsureStep(p, pairs[0].0).value, pairs[0].1).value, pairs[0].0, pairs[0].1, command).value, s)
  {
    var p1 := EnsureStep(p, pairs[0].0).value;
    var p2 := EnsureStep(p1, pairs[0].1).value;
    var p3 := AddRelation(p2, pairs[0].0, pairs[0].1, command).value;
    assert p3.graph.nodes == p2.graph.nodes;
    EnsureStepKeepsStatuses(p, pairs[0].0);
    EnsureStepKeepsStatuses(p1, pairs[0].1);
  }

  /** The first pair keeps the statuses unique. */
  lemma OnePairUnique(p: Process, command: string, pairs: seq<(string, string)>)
    requires Inv(p) && UniqueStatuses(p) && |pairs| > 0 && PairsToProcess(p, command, pairs).Success?
    ensures UniqueStatuses(AddRelation(EnsureStep(EnsureStep(p, pairs[0].0).value, pairs[0].1).value, pairs[0].0, pairs[0].1, command).value)
  {
    var p1 := EnsureStep(p, pairs[0].0).value;
    var p2 := EnsureStep(p1, pairs[0].1).value;
    var p3 := AddRelation(p2, pairs[0].0, pairs[0].1, command).value;
    assert p3.graph.nodes == p2.graph.nodes;
    EnsureStepKeepsUnique(p, pairs[0].0);
    EnsureStepKeepsUnique(p1, pairs[0].1);
  }

  // ---- the two-action example ----

  /** Two edges that both leave `id` are all that leaves it. */
  lemma OutgoingOfTwo<NV, W>(g: Graph<NV, W>, id: nat)
    requires |g.edges| == 2 && g.edges[0].start == id && g.edges[1].start == id
    ensures Outgoing(g, id) == g.edges
  {
    var keep := (x: Edge<W>) => x.start == id;
    assert g.edges[1..][1..] == [];
    assert Filter(g.edges[1..][1..], keep) == [];
    assert Filter(g.edges[1..], keep) == [g.edges[1]];
  }

  /** The first step carrying `s` is the one at `i` when none before it carries `s`. */
  lemma FirstWithStatusAt(p: Process, s: string, i: nat)
    requires i < |p.graph.nodes| && p.graph.nodes[i].value.status == s
    requires forall k :: 0 <= k < i ==> p.graph.nodes[k].value.status != s
    ensures FirstWithStatus(p, s) == Some(i)
  {
    assert HasStatus(p, s) by {
      assert StatusIs(s)(p.graph.nodes[i].value);
    }
  }

  /** An `activate` action and a `close` action, both leaving `active`. */
  function ActivateAndClose(): seq<Declaration> {
    [Declaration("activate", [("active", "in-progress")]), Declaration("close", [("active", "closed")])]
  }

  /** The mentioned statuses, deduplicated, and the declared relations of the example. */
  lemma ActivateAndCloseLists()
    ensures Dedup(StatusesOf(ActivateAndClose())) == ["active", "in-progress", "closed"]
    ensures RelationsOf(ActivateAndClose()) == [RelationSpec("active", "in-progress", "activate"), RelationSpec("active", "closed", "close")]
  {
    ActivateAndCloseStatuses();
    DedupOfExample(StatusesOf(ActivateAndClose()));
    ActivateAndCloseRelationList();
  }

  /** The statuses the example mentions, repeats included. */
  lemma ActivateAndCloseStatuses()
    ensures StatusesOf(ActivateAndClose()) == ["active", "in-progress", "active", "closed"]
  {
    var ds := ActivateAndClose();
    assert StatusesOf(ds[1..]) == ["active", "closed"];
  }

  /** Deduplicating the example's statuses drops the second `active`. */
  lemma DedupOfExample(ss: seq<string>)
    requires ss == ["active", "in-progress", "active", "closed"]
    ensures Dedup(ss) == ["active", "in-progress", "closed"]
  {
    assert Dedup(ss[..1]) == ["active"] by {
      assert ss[..1][..0] == [];
    }
    assert Dedup(ss[..2]) == ["active", "in-progress"] by {
      assert ss[..2][..1] == ss[..1];
    }
    assert Dedup(ss[..3]) == ["active", "in-progress"] by {
      assert ss[..3][..2] == ss[..2];
    }
    assert ss[..4][..3] == ss[..3];
    assert ss[..4] == ss;
  }

  lemma ActivateAndCloseRelationList()
    ensures RelationsOf(ActivateAndClose()) == [RelationSpec("active", "in-progress", "activate"), RelationSpec("active", "closed", "close")]
  {
    var ds := ActivateAndClose();
    assert RelationsOf(ds[1..]) == [RelationSpec("active", "closed", "close")];
  }

  /** The relations phase of the example, on the three steps it adds. */
  lemma ActivateAndCloseRelations(p1: Process)
    requires Inv(p1) && p1.graph.edges == []
    requires p1.graph.nodes == [Node(0, Step(0, p1.name, "active")), Node(1, Step(1, p1.name, "in-progress")), Node(2, Step(2, p1.name, "closed"))]
    ensures var q := AddRelationsTo(p1, [RelationSpec("active", "in-progress", "activate"), RelationSpec("active", "closed", "close")]);
      && q.Success? && Inv(q.value) && q.value.graph.nodes == p1.graph.nodes
      && q.value.graph.edges == [Edge(0, 1, Relation("activate")), Edge(0, 2, Relation("close"))]
      && GetAvailableStatusCommands(q.value, "active") == Success(["activate", "close"])
  {
    ActivateAndCloseEdges(p1);
    var q := AddRelationsTo(p1, [RelationSpec("active", "in-progress", "activate"), RelationSpec("active", "closed", "close")]).value;
    FirstWithStatusAt(q, "active", 0);
    OutgoingOfTwo(q.graph, 0);
    assert GetAvailableStatusCommands(q, "active").value == ["activate", "close"];
  }

  /** The two relations of the example join `active` to `in-progress`, then to `closed`. */
  lemma ActivateAndCloseEdges(p1: Process)
    requires Inv(p1) && p1.graph.edges == []
    requires p1.graph.nodes == [Node(0, Step(0, p1.name, "active")), Node(1, Step(1, p1.name, "in-progress")), Node(2, Step(2, p1.name, "closed"))]
    ensures var q := AddRelationsTo(p1, [RelationSpec("active", "in-progress", "activate"), RelationSpec("active", "closed", "close")]);
      && q.Success? && Inv(q.value) && q.value.graph.nodes == p1.graph.nodes
      && q.value.graph.edges == [Edge(0, 1, Relation("activate")), Edge(0, 2, Relation("close"))]
  {
    var rs := [RelationSpec("active", "in-progress", "activate"), RelationSpec("active", "closed", "close")];
    ActivateEdge(p1);
    var p2 := AddRelation(p1, "active", "in-progress", "activate").value;
    CloseEdge(p2);
    var p3 := AddRelation(p2, "active", "closed", "close").value;
    assert AddRelationsTo(p2, rs[1..]) == Success(p3) by {
      assert rs[1..][0] == RelationSpec("active", "closed", "close");
      assert AddRelationsTo(p3, rs[1..][1..]) == Success(p3) by {
        assert rs[1..][1..] == [];
      }
    }
  }

  /** The example's three statuses are distinct. */
  lemma ExampleStatusesDistinct()
    ensures "active" != "in-progress" && "active" != "closed" && "in-progress" != "closed"
  {
    assert |"active"| == 6 && |"in-progress"| == 11 && |"closed"| == 6 && "active"[0] != "closed"[0];
  }

  /** `active` → `in-progress` joins steps 0 and 1. */
  lemma ActivateEdge(p1: Process)
    requires Inv(p1) && p1.graph.edges == []
    requires p1.graph.nodes == [Node(0, Step(0, p1.name, "active")), Node(1, Step(1, p1.name, "in-progress")), Node(2, Step(2, p1.name, "closed"))]
    ensures var r := AddRelation(p1, "active", "in-progress", "activate");
      && r.Success? && Inv(r.value) && r.value.name == p1.name && r.value.graph.nodes == p1.graph.nodes
      && r.value.graph.edges == [Edge(0, 1, Relation("activate"))]
  {
    ExampleStatusesDistinct();
    FirstWithStatusAt(p1, "active", 0);
    FirstWithStatusAt(p1, "in-progress", 1);
    assert !HasEdge(p1.graph, 0, 1);
  }

  /** `active` → `closed` then joins steps 0 and 2. */
  lemma CloseEdge(p2: Process)
    requires Inv(p2) && p2.graph.edges == [Edge(0, 1, Relation("activate"))]
    requires p2.graph.nodes == [Node(0, Step(0, p2.name, "active")), Node(1, Step(1, p2.name, "in-progress")), Node(2, Step(2, p2.name, "closed"))]
    ensures var r := AddRelation(p2, "active", "closed", "close");
      && r.Success? && Inv(r.value) && r.value.graph.nodes == p2.graph.nodes
      && r.value.graph.edges == [Edge(0, 1, Relation("activate")), Edge(0, 2, Relation("close"))]
  {
    ExampleStatusesDistinct();
    FirstWithStatusAt(p2, "active", 0);
    FirstWithStatusAt(p2, "closed", 2);
    assert !HasEdge(p2.graph, 0, 2);
  }

  /** The steps phase of the example, on a fresh process. */
  lemma ActivateAndCloseSteps(e: Edition, name: ProcessName)
    ensures var q := AddStepsTo(Process(e, name, Empty()), ["active", "in-progress", "closed"]);
      && q.Success? && Inv(q.value) && q.value.name == name && q.value.graph.edges == []
      && q.value.graph.nodes == [Node(0, Step(0, name, "active")), Node(1, Step(1, name, "in-progress")), Node(2, Step(2, name, "closed"))]
  {
    var p0: Process := Process(e, name, Empty());
    AddStepsAppends(p0, ["active", "in-progress", "closed"]);
  }

  /**
   * Built from the two declarations, a fresh process has the steps
   * `active`, `in-progress`, `closed` (ids 0, 1, 2) and offers
   * `['activate', 'close']` from `active`.
   */
  lemma TwoActionsFromActive(e: Edition, name: ProcessName)
    ensures var q := StepsAndRelations(Process(e, name, Empty()), ActivateAndClose());
      && q.Success?
      && q.value.graph.nodes == [Node(0, Step(0, name, "active")), Node(1, Step(1, name, "in-progress")), Node(2, Step(2, name, "closed"))]
      && GetAvailableStatusCommands(q.value, "active") == Success(["activate", "close"])
  {
    ActivateAndCloseLists();
    ActivateAndCloseSteps(e, name);
    var p1 := AddStepsTo(Process(e, name, Empty()), ["active", "in-progress", "closed"]).value;
    ActivateAndCloseRelations(p1);
  }
}
