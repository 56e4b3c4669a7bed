/**
 * What a process built from declarations offers at each status: the
 * commands of the declared relations leaving that status, in declaration
 * order. This is the bridge from the `@Action` relations a module declares
 * to the answers of `getAvailableStatusCommands`.
 */
module Availability {
  import opened Wrappers
  import opened Common
  import opened Seqs
  import opened Graph
  import opened Process
  import opened ProcessProperties
  import opened ProcessBuilder
  import opened Metadata
  import opened ActionOperators

  /** The commands of the triples whose `from` is `s`, in order. */
  function CommandsLeaving(rs: seq<RelationSpec>, s: string): (cs: seq<string>)
    ensures |cs| <= |rs|
  {
    if |rs| == 0 then [] else (if rs[0].from == s then [rs[0].command] else []) + CommandsLeaving(rs[1..], s)
  }

  /** With no relation in the graph, every known status offers nothing. */
  lemma NoRelationsNoCommands(p: Process, s: string)
    requires Inv(p) && |p.graph.edges| == 0 && HasStatus(p, s)
    ensures GetAvailableStatusCommands(p, s) == Success([])
  {
    var id := FirstWithStatus(p, s).value;
    AvailableIsCommandsFrom(p, s);
    OutgoingNone(p.graph, id);
  }

  /**
   * One successful `addRelation`: a known status stays known and offers
   * what it offered before, followed by the new command when the relation
   * leaves that status.
   */
  lemma AvailableAfterOne(p: Process, r: RelationSpec, s: string)
    requires Inv(p) && AddRelation(p, r.from, r.to, r.command).Success? && HasStatus(p, s)
    ensures var p1 := AddRelation(p, r.from, r.to, r.command).value;
      && Inv(p1) && HasStatus(p1, s)
      && GetAvailableStatusCommands(p1, s)
         == Success(GetAvailableStatusCommands(p, s).value + (if r.from == s then [r.command] else []))
  {
    var p1 := AddRelation(p, r.from, r.to, r.command).value;
    assert HasStatus(p, r.from);
    AvailableAfterAddRelation(p, r.from, r.to, r.command, s);
    AddRelationAppendsOne(p, r.from, r.to, r.command);
    var i := FirstWithStatus(p, s).value;
    assert p1.graph.nodes[i].value.status == s;
    assert FirstWithStatus(p, s) == FirstWithStatus(p, r.from) <==> s == r.from;
  }

  /** A successful run of `addRelation`s is its first step followed by the rest. */
  lemma RunUnfolds(p: Process, rs: seq<RelationSpec>)
    requires |rs| > 0 && AddRelationsTo(p, rs).Success?
    ensures AddRelation(p, rs[0].from, rs[0].to, rs[0].command).Success?
    ensures AddRelationsTo(p, rs) == AddRelationsTo(AddRelation(p, rs[0].from, rs[0].to, rs[0].command).value, rs[1..])
  {
  }

  /**
   * Each successful `addRelation` of a run appends its command to the
   * commands of its `from` status, so a run appends exactly the commands of
   * the triples leaving `s`, in order, to what `s` offered before.
   */
  lemma {:induction false} AvailableAfterRelations(p: Process, rs: seq<RelationSpec>, s: string)
    requires Inv(p) && AddRelationsTo(p, rs).Success? && HasStatus(p, s)
    ensures GetAvailableStatusCommands(AddRelationsTo(p, rs).value, s)
      == Success(GetAvailableStatusCommands(p, s).value + CommandsLeaving(rs, s))
    decreases |rs|
  {
    var before := GetAvailableStatusCommands(p, s).value;
    if |rs| == 0 {
      assert before + [] == before;
    } else {
      var r0 := rs[0];
      RunUnfolds(p, rs);
      var p1 := AddRelation(p, r0.from, r0.to, r0.command).value;
      AvailableAfterOne(p, r0, s);
      AvailableAfterRelations(p1, rs[1..], s);
      ConcatAssoc(before, if r0.from == s then [r0.command] else [], CommandsLeaving(rs[1..], s));
    }
  }

  /** After `addSteps`, a status has a step exactly when it had one or was added. */
  lemma AddedStatuses(p: Process, statuses: seq<string>, s: string)
    requires Inv(p)
    ensures var p1 := AddStepsTo(p, statuses).value;
      HasStatus(p1, s) <==> HasStatus(p, s) || s in statuses
  {
    var p1 := AddStepsTo(p, statuses).value;
    if HasStatus(p, s) {
      var i :| 0 <= i < |p.graph.nodes| && p.graph.nodes[i].value.status == s;
      StepKept(p, statuses, i);
    }
    if s in statuses {
      var k :| 0 <= k < |statuses| && statuses[k] == s;
      StepAdded(p, statuses, k);
    }
    if HasStatus(p1, s) {
      var i :| 0 <= i < |p1.graph.nodes| && p1.graph.nodes[i].value.status == s;
      StepOrigin(p, statuses, i);
    }
  }

  /** An old step keeps its place after `addSteps`. */
  lemma StepKept(p: Process, statuses: seq<string>, i: nat)
    requires Inv(p) && i < |p.graph.nodes|
    ensures var p1 := AddStepsTo(p, statuses).value;
      i < |p1.graph.nodes| && p1.graph.nodes[i] == p.graph.nodes[i]
  {
    AddStepsAppends(p, statuses);
    var p1 := AddStepsTo(p, statuses).value;
    assert p1.graph.nodes[..|p.graph.nodes|][i] == p1.graph.nodes[i];
  }

  /** The `k`-th added status gets a step after the old ones. */
  lemma StepAdded(p: Process, statuses: seq<string>, k: nat)
    requires Inv(p) && k < |statuses|
    ensures var p1 := AddStepsTo(p, statuses).value;
      |p.graph.nodes| + k < |p1.graph.nodes| && p1.graph.nodes[|p.graph.nodes| + k].value.status == statuses[k]
  {
    AddStepsAppends(p, statuses);
  }

  /** Every step after `addSteps` is an old one or an added status's. */
  lemma StepOrigin(p: Process, statuses: seq<string>, i: nat)
    requires Inv(p) && i < |AddStepsTo(p, statuses).value.graph.nodes|
    ensures var st := AddStepsTo(p, statuses).value.graph.nodes[i].value.status;
      HasStatus(p, st) || st in statuses
  {
    AddStepsAppends(p, statuses);
    var p1 := AddStepsTo(p, statuses).value;
    var n := |p.graph.nodes|;
    if i < n {
      assert p1.graph.nodes[..n][i] == p1.graph.nodes[i];
    } else {
      assert statuses[i - n] == p1.graph.nodes[i].value.status;
    }
  }

  /**
   * The steps phase of a build from declarations: a status has a step
   * afterwards exactly when it had one or the declarations mention it, and
   * no relation is added yet.
   */
  lemma StepsPhaseStatuses(p: Process, ds: seq<Declaration>, s: string)
    requires Inv(p)
    ensures var p1 := AddStepsTo(p, Dedup(StatusesOf(ds))).value;
      && Inv(p1) && p1.graph.edges == p.graph.edges
      && (HasStatus(p1, s) <==> HasStatus(p, s) || s in StatusesOf(ds))
  {
    var statuses := Dedup(StatusesOf(ds));
    AddStepsAppends(p, statuses);
    AddedStatuses(p, statuses, s);
    assert s in statuses <==> s in StatusesOf(ds) by {
      if s in StatusesOf(ds) {
        var k :| 0 <= k < |StatusesOf(ds)| && StatusesOf(ds)[k] == s;
      }
      if s in statuses {
        var k :| 0 <= k < |statuses| && statuses[k] == s;
      }
    }
  }

  /**
   * On a process without relations, a successful build from declarations
   * answers, for every status it has or the declarations mention, exactly
   * the commands declared leaving it, in declaration order; any other
   * status is unknown.
   */
  lemma DeclaredCommands(p: Process, ds: seq<Declaration>, s: string)
    requires Inv(p) && |p.graph.edges| == 0 && StepsAndRelations(p, ds).Success?
    ensures var q := StepsAndRelations(p, ds).value;
      && (HasStatus(p, s) || s in StatusesOf(ds) ==> GetAvailableStatusCommands(q, s) == Success(CommandsLeaving(RelationsOf(ds), s)))
      && (!HasStatus(p, s) && s !in StatusesOf(ds) ==> GetAvailableStatusCommands(q, s) == Failure(StatusMissing(p.edition, s)))
  {
    var p1 := AddStepsTo(p, Dedup(StatusesOf(ds))).value;
    StepsPhaseStatuses(p, ds, s);
    var rs := RelationsOf(ds);
    assert StepsAndRelations(p, ds) == AddRelationsTo(p1, rs);
    var q := AddRelationsTo(p1, rs).value;
    AddRelationsAppends(p1, rs);
    assert HasStatus(q, s) <==> HasStatus(p1, s) by {
      assert q.graph.nodes == p1.graph.nodes;
    }
    if HasStatus(p1, s) {
      NoRelationsNoCommands(p1, s);
      AvailableAfterRelations(p1, rs, s);
      assert [] + CommandsLeaving(rs, s) == CommandsLeaving(rs, s);
    }
  }

  /** A command offered at some status is carried by an edge, so the process knows it. */
  lemma OfferedCommandExists(p: Process, s: string, c: string)
    requires Inv(p) && GetAvailableStatusCommands(p, s).Success? && c in GetAvailableStatusCommands(p, s).value
    ensures HasCommand(p, c)
  {
    var cs := GetAvailableStatusCommands(p, s).value;
    var id := FirstWithStatus(p, s).value;
    var k :| 0 <= k < |cs| && cs[k] == c;
    FilterAt(p.graph.edges, (x: Edge<Relation>) => x.start == id, k);
    var e := Outgoing(p.graph, id)[k];
    var j :| 0 <= j < |p.graph.edges| && p.graph.edges[j] == e;
  }
}
