/**
 * `bootstrapContext(module)` of both lineages: one context-builder pipe that
 * registers the module tree's providers as singletons, its actions as
 * transients under their commands, and (current lineage only) its steps'
 * operators as transients under their status tokens. Also the older
 * `bootstrapProcess`, which always throws.
 */
module Modules {
  import opened Wrappers
  import opened Common
  import opened Seqs
  import opened Container
  import opened Pipeline
  import opened ContextBuilder
  import opened StepOperators
  import opened Behaviours
  import opened Metadata
  import opened ActionOperators
  import Process

  // ---- providers ----

  /** The token a provider is registered under: its class, or its string token. */
  function ProviderToken(p: Provider): Token {
    match p
    case ByType(cls) => OfType(cls)
    case ByToken(token, _) => Named(token)
  }

  /** The class a provider stands for. */
  function ProviderClass(p: Provider): ClassId {
    match p
    case ByType(cls) => cls
    case ByToken(_, ty) => ty
  }

  /** A class goes to `addSingleton(p)`, a `{token, type}` pair to `addSingleton(p.token, p.type)`. */
  function ProviderOp(p: Provider): Operator<Context> {
    match p
    case ByType(cls) => AddSingleton(OfType(cls), None)
    case ByToken(token, ty) => AddSingleton(Named(token), Some(ty))
  }

  /** One provider: refused when its token is taken, otherwise a singleton of its class. */
  lemma ProviderOpEffect(c: Context, p: Provider)
    ensures var r := ProviderOp(p)(c);
      && (r.Failure? <==> ProviderToken(p) in c.singletons)
      && (r.Failure? ==> r.error == TypeExists)
      && (r.Success? ==> r.value == c.(singletons := c.singletons[ProviderToken(p) := ProviderClass(p)]))
  {
  }

  /** The providers can all be registered: no token is taken, none repeats. */
  ghost predicate ProvidersFit(c: Context, ps: seq<Provider>) {
    && (forall k :: 0 <= k < |ps| ==> ProviderToken(ps[k]) !in c.singletons)
    && (forall i, j :: 0 <= i < j < |ps| ==> ProviderToken(ps[i]) != ProviderToken(ps[j]))
  }

  lemma ProvidersFitStep(c: Context, ps: seq<Provider>)
    requires |ps| > 0 && ProviderToken(ps[0]) !in c.singletons
    ensures ProvidersFit(c, ps) <==> ProvidersFit(c.(singletons := c.singletons[ProviderToken(ps[0]) := ProviderClass(ps[0])]), ps[1..])
  {
    var c1 := c.(singletons := c.singletons[ProviderToken(ps[0]) := ProviderClass(ps[0])]);
    if ProvidersFit(c1, ps[1..]) {
      forall k | 0 < k < |ps| ensures ProviderToken(ps[k]) !in c.singletons && ProviderToken(ps[k]) != ProviderToken(ps[0]) {
        assert ps[k] == ps[1..][k - 1];
      }
      forall i, j | 0 < i < j < |ps| ensures ProviderToken(ps[i]) != ProviderToken(ps[j]) {
        assert ps[i] == ps[1..][i - 1] && ps[j] == ps[1..][j - 1];
      }
    }
  }

  /**
   * The providers' part of the pipe, in order: it succeeds exactly when the
   * providers fit, fails with TYPE_EXISTS_ERROR otherwise, and on success
   * keeps every earlier singleton and touches nothing but the singletons.
   */
  lemma {:induction false} ProvidersOutcome(c: Context, ps: seq<Provider>)
    ensures var r := Apply(c, Map(ps, ProviderOp));
      && (r.Success? <==> ProvidersFit(c, ps))
      && (r.Failure? ==> r.error == TypeExists)
      && (r.Success? ==> r.value.transients == c.transients && r.value.cache == c.cache && r.value.nextId == c.nextId && r.value.lineage == c.lineage)
      && (r.Success? ==> forall u :: u in c.singletons ==> u in r.value.singletons && r.value.singletons[u] == c.singletons[u])
    decreases |ps|
  {
    if |ps| > 0 {
      var ops := Map(ps, ProviderOp);
      assert ops[1..] == Map(ps[1..], ProviderOp);
      ProviderOpEffect(c, ps[0]);
      if ops[0](c).Success? {
        ProvidersOutcome(ops[0](c).value, ps[1..]);
        ProvidersFitStep(c, ps);
      }
    }
  }

  /**
   * After the providers' part succeeds, each provider's token holds its
   * class, and every new token is a provider's.
   */
  lemma ProvidersPhase(c: Context, ps: seq<Provider>)
    requires Apply(c, Map(ps, ProviderOp)).Success?
    ensures var c' := Apply(c, Map(ps, ProviderOp)).value;
      && (forall k :: 0 <= k < |ps| ==> ProviderToken(ps[k]) in c'.singletons && c'.singletons[ProviderToken(ps[k])] == ProviderClass(ps[k]))
      && (forall u :: u in c'.singletons ==> u in c.singletons || exists k :: 0 <= k < |ps| && u == ProviderToken(ps[k]))
  {
    ProvidersPhaseTokens(c, ps);
    ProvidersPhaseNew(c, ps);
  }

  lemma {:induction false} ProvidersPhaseTokens(c: Context, ps: seq<Provider>)
    requires Apply(c, Map(ps, ProviderOp)).Success?
    ensures var c' := Apply(c, Map(ps, ProviderOp)).value;
      forall k :: 0 <= k < |ps| ==> ProviderToken(ps[k]) in c'.singletons && c'.singletons[ProviderToken(ps[k])] == ProviderClass(ps[k])
    decreases |ps|
  {
    if |ps| > 0 {
      var ops := Map(ps, ProviderOp);
      assert ops[1..] == Map(ps[1..], ProviderOp);
      ProviderOpEffect(c, ps[0]);
      var c1 := ops[0](c).value;
      ProvidersPhaseTokens(c1, ps[1..]);
      ProvidersOutcome(c1, ps[1..]);
      var c' := Apply(c1, ops[1..]).value;
      forall k | 0 < k < |ps|
        ensures ProviderToken(ps[k]) in c'.singletons && c'.singletons[ProviderToken(ps[k])] == ProviderClass(ps[k])
      {
        assert ps[k] == ps[1..][k - 1];
      }
    }
  }

  lemma {:induction false} ProvidersPhaseNew(c: Context, ps: seq<Provider>)
    requires Apply(c, Map(ps, ProviderOp)).Success?
    ensures var c' := Apply(c, Map(ps, ProviderOp)).value;
      forall u :: u in c'.singletons ==> u in c.singletons || exists k :: 0 <= k < |ps| && u == ProviderToken(ps[k])
    decreases |ps|
  {
    if |ps| > 0 {
      var ops := Map(ps, ProviderOp);
      assert ops[1..] == Map(ps[1..], ProviderOp);
      ProviderOpEffect(c, ps[0]);
      var c1 := ops[0](c).value;
      ProvidersPhaseNew(c1, ps[1..]);
      var c' := Apply(c1, ops[1..]).value;
      forall u | u in c'.singletons && u !in c.singletons
        ensures exists k :: 0 <= k < |ps| && u == ProviderToken(ps[k])
      {
        if u in c1.singletons {
          assert u == ProviderToken(ps[0]);
        } else {
          var j :| 0 <= j < |ps[1..]| && u == ProviderToken(ps[1..][j]);
          assert u == ProviderToken(ps[j + 1]);
        }
      }
    }
  }

  // ---- actions ----

  /** The token `addActionToContext` registers a decorated action under. */
  function ActionToken(a: ActionClass): Token
    requires a.meta.Some?
  {
    if a.meta.value.kind.Act? then Named(a.meta.value.kind.command) else Named(InitialActionCommand)
  }

  /** One action: refused without metadata or when its token is taken, otherwise a transient of its class. */
  lemma ActionOpEffect(c: Context, a: ActionClass)
    ensures var r := AddActionOp(a)(c);
      && (a.meta.None? ==> r == Failure(DecoratorIsRequired(a.cls, "Action")))
      && (a.meta.Some? ==> (r.Failure? <==> ActionToken(a) in c.transients))
      && (a.meta.Some? && r.Failure? ==> r.error == TypeExists)
      && (r.Success? ==> a.meta.Some? && r.value == c.(transients := c.transients[ActionToken(a) := a.cls]))
  {
  }

  /** The actions can all be registered: each is decorated, no token is taken, none repeats. */
  ghost predicate ActionsFit(c: Context, acts: seq<ActionClass>) {
    && (forall k :: 0 <= k < |acts| ==> acts[k].meta.Some?)
    && (forall k :: 0 <= k < |acts| ==> ActionToken(acts[k]) !in c.transients)
    && (forall i, j :: 0 <= i < j < |acts| ==> ActionToken(acts[i]) != ActionToken(acts[j]))
  }

  lemma ActionsFitStep(c: Context, acts: seq<ActionClass>)
    requires |acts| > 0 && acts[0].meta.Some? && ActionToken(acts[0]) !in c.transients
    ensures ActionsFit(c, acts) <==> ActionsFit(c.(transients := c.transients[ActionToken(acts[0]) := acts[0].cls]), acts[1..])
  {
    var c1 := c.(transients := c.transients[ActionToken(acts[0]) := acts[0].cls]);
    if ActionsFit(c1, acts[1..]) {
      forall k | 0 < k < |acts| ensures acts[k].meta.Some? {
        assert acts[k] == acts[1..][k - 1];
      }
      forall k | 0 < k < |acts| ensures ActionToken(acts[k]) !in c.transients && ActionToken(acts[k]) != ActionToken(acts[0]) {
        assert acts[k] == acts[1..][k - 1];
      }
      forall i, j | 0 < i < j < |acts| ensures ActionToken(acts[i]) != ActionToken(acts[j]) {
        assert acts[i] == acts[1..][i - 1] && acts[j] == acts[1..][j - 1];
      }
    }
  }

  /**
   * The actions' part of the pipe: it succeeds exactly when the actions fit;
   * a failure is the first undecorated action or a taken token; on success
   * every earlier transient stays and nothing else changes.
   */
  lemma {:induction false} ActionsPhase(c: Context, acts: seq<ActionClass>)
    ensures var r := Apply(c, Map(acts, AddActionOp));
      && (r.Success? <==> ActionsFit(c, acts))
      && (r.Failure? ==> r.error == TypeExists || r.error.DecoratorIsRequired?)
      && (r.Success? ==> r.value.singletons == c.singletons && r.value.cache == c.cache && r.value.nextId == c.nextId && r.value.lineage == c.lineage)
      && (r.Success? ==> forall u :: u in c.transients ==> u in r.value.transients && r.value.transients[u] == c.transients[u])
    decreases |acts|
  {
    if |acts| > 0 {
      var ops := Map(acts, AddActionOp);
      assert ops[1..] == Map(acts[1..], AddActionOp);
      ActionOpEffect(c, acts[0]);
      var r1 := ops[0](c);
      if r1.Success? {
        ActionsPhase(r1.value, acts[1..]);
        ActionsFitStep(c, acts);
      }
    }
  }

  /**
   * The tokens after a successful actions' part: each action's class
   * answers under its command (or the initial token), and every other new
   * token is some action's.
   */
  lemma {:induction false} ActionsPhaseTokens(c: Context, acts: seq<ActionClass>)
    ensures var r := Apply(c, Map(acts, AddActionOp));
      r.Success? ==> forall k :: 0 <= k < |acts| ==> acts[k].meta.Some? && ActionToken(acts[k]) in r.value.transients && r.value.transients[ActionToken(acts[k])] == acts[k].cls
    decreases |acts|
  {
    if |acts| > 0 {
      var ops := Map(acts, AddActionOp);
      assert ops[1..] == Map(acts[1..], AddActionOp);
      ActionOpEffect(c, acts[0]);
      var r1 := ops[0](c);
      if r1.Success? {
        var c1 := r1.value;
        ActionsPhaseTokens(c1, acts[1..]);
        var r := Apply(c1, ops[1..]);
        if r.Success? {
          ActionsPhase(c1, acts[1..]);
          forall k | 0 < k < |acts|
            ensures acts[k].meta.Some? && ActionToken(acts[k]) in r.value.transients && r.value.transients[ActionToken(acts[k])] == acts[k].cls
          {
            assert acts[k] == acts[1..][k - 1];
          }
        }
      }
    }
  }

  /** Every token a successful actions' part adds is some action's. */
  lemma {:induction false} ActionsPhaseNew(c: Context, acts: seq<ActionClass>)
    ensures var r := Apply(c, Map(acts, AddActionOp));
      r.Success? ==> forall u :: u in r.value.transients ==> u in c.transients || exists k :: 0 <= k < |acts| && acts[k].meta.Some? && u == ActionToken(acts[k])
    decreases |acts|
  {
    if |acts| > 0 {
      var ops := Map(acts, AddActionOp);
      assert ops[1..] == Map(acts[1..], AddActionOp);
      ActionOpEffect(c, acts[0]);
      var r1 := ops[0](c);
      if r1.Success? {
        var c1 := r1.value;
        ActionsPhaseNew(c1, acts[1..]);
        var r := Apply(c1, ops[1..]);
        if r.Success? {
          forall u | u in r.value.transients && u !in c.transients
            ensures exists k :: 0 <= k < |acts| && acts[k].meta.Some? && u == ActionToken(acts[k])
          {
            if u in c1.transients {
              assert u == ActionToken(acts[0]);
            } else {
              var j :| 0 <= j < |acts[1..]| && acts[1..][j].meta.Some? && u == ActionToken(acts[1..][j]);
              assert acts[j + 1] == acts[1..][j];
            }
          }
        }
      }
    }
  }

  // ---- steps ----

  /** `addStepOperatorFromMetadata(step)` as an operator. */
  function StepOp(s: StepClass): Operator<Context> {
    c => AddStepOperators(c, s)
  }

  /** The step declares an update operator. */
  predicate HasUpdate(s: StepClass) {
    s.meta.Some? && s.meta.value.updateOperator.Some?
  }

  /** The step declares a read operator. */
  predicate HasRead(s: StepClass) {
    s.meta.Some? && s.meta.value.readOperator.Some?
  }

  /**
   * The steps' part of the pipe: in the current lineage a success means
   * every step class carries `@Step`; every declared operator class then
   * answers under its status token; earlier transients stay; singletons
   * and the cache are untouched.
   */
  lemma {:induction false} StepsPhase(c: Context, ss: seq<StepClass>)
    ensures var r := Apply(c, Map(ss, StepOp));
      && (r.Failure? ==> r.error == TypeExists || r.error.DecoratorIsRequired?)
      && (r.Success? ==> r.value.singletons == c.singletons && r.value.cache == c.cache && r.value.lineage == c.lineage)
      && (r.Success? && c.lineage == Current ==> forall k :: 0 <= k < |ss| ==> ss[k].meta.Some?)
      && (r.Success? ==> forall u :: u in c.transients ==> u in r.value.transients && r.value.transients[u] == c.transients[u])
      && (r.Success? ==> forall k :: 0 <= k < |ss| && HasUpdate(ss[k]) ==>
            var t := Named(UpdateOperatorName(c.lineage, ss[k].meta.value.status));
            t in r.value.transients && r.value.transients[t] == ss[k].meta.value.updateOperator.value)
      && (r.Success? ==> forall k :: 0 <= k < |ss| && HasRead(ss[k]) ==>
            var t := Named(ReadOperatorName(c.lineage, ss[k].meta.value.status));
            t in r.value.transients && r.value.transients[t] == ss[k].meta.value.readOperator.value)
    decreases |ss|
  {
    if |ss| > 0 {
      var ops := Map(ss, StepOp);
      assert ops[1..] == Map(ss[1..], StepOp);
      var r1 := ops[0](c);
      if r1.Success? {
        var c1 := r1.value;
        StepsPhase(c1, ss[1..]);
        var r := Apply(c1, ops[1..]);
        if r.Success? {
          forall k | 0 < k < |ss| ensures ss[k] == ss[1..][k - 1] {
          }
        }
      }
    }
  }

  // ---- the current lineage ----

  /**
   * `bootstrapContext(module)`: the tree's providers, then its actions, then
   * its steps, each list in the order of the depth-first walk, piped into a
   * builder built on the default factory.
   */
  function BootstrapContext(m: ModuleClass): (r: Result<Context, Error>)
    ensures r.Failure? ==> r.error == TypeExists || r.error.DecoratorIsRequired?
    ensures r.Success? ==> r.value.lineage == Current && r.value.cache == New(Current).cache
  {
    var p, a, s := Map(Collect(m, ProvidersOf), ProviderOp), Map(Collect(m, ActionsOf), AddActionOp), Map(Collect(m, StepsOf), StepOp);
    var r := Build(Pipe(Create(), p + a + s), DefaultContextFactory());
    assert (r.Failure? ==> r.error == TypeExists || r.error.DecoratorIsRequired?)
      && (r.Success? ==> r.value.lineage == Current && r.value.cache == New(Current).cache) by {
      assert Pipe(Create(), p + a + s).operators == p + a + s;
      ApplyConcat(New(Current), p + a, s);
      ApplyConcat(New(Current), p, a);
      ProvidersOutcome(New(Current), Collect(m, ProvidersOf));
      var r1 := Apply(New(Current), p);
      if r1.Success? {
        ActionsPhase(r1.value, Collect(m, ActionsOf));
        var r2 := Apply(r1.value, a);
        if r2.Success? {
          StepsPhase(r2.value, Collect(m, StepsOf));
        }
      }
    }
    r
  }

  /** The pipe runs as three phases, each on the previous one's context. */
  lemma BootstrapPhases(m: ModuleClass)
    ensures BootstrapContext(m) ==
      Then(Then(Apply(New(Current), Map(Collect(m, ProvidersOf), ProviderOp)), Map(Collect(m, ActionsOf), AddActionOp)), Map(Collect(m, StepsOf), StepOp))
  {
    var p, a, s := Map(Collect(m, ProvidersOf), ProviderOp), Map(Collect(m, ActionsOf), AddActionOp), Map(Collect(m, StepsOf), StepOp);
    assert Pipe(Create(), p + a + s).operators == p + a + s;
    ApplyConcat(New(Current), p + a, s);
    ApplyConcat(New(Current), p, a);
  }

  /**
   * Providers are registered before anything else: a provider token used
   * twice in the tree, or a provider for the container's own class, fails
   * the bootstrap with TYPE_EXISTS_ERROR whatever the actions and steps are.
   */
  lemma ProvidersDecideFirst(m: ModuleClass)
    requires !ProvidersFit(New(Current), Collect(m, ProvidersOf))
    ensures BootstrapContext(m) == Failure(TypeExists)
  {
    BootstrapPhases(m);
    ProvidersOutcome(New(Current), Collect(m, ProvidersOf));
  }

  /** The context after the providers' part of the bootstrap pipe. */
  ghost function AfterProviders(m: ModuleClass): Result<Context, Error> {
    Apply(New(Current), Map(Collect(m, ProvidersOf), ProviderOp))
  }

  /** The context after the actions' part of the bootstrap pipe. */
  ghost function AfterActions(m: ModuleClass): Result<Context, Error> {
    Then(AfterProviders(m), Map(Collect(m, ActionsOf), AddActionOp))
  }

  /** A successful bootstrap went through both earlier parts successfully. */
  lemma BootstrapStages(m: ModuleClass)
    requires BootstrapContext(m).Success?
    ensures AfterProviders(m).Success? && AfterActions(m).Success?
    ensures AfterActions(m) == Apply(AfterProviders(m).value, Map(Collect(m, ActionsOf), AddActionOp))
    ensures BootstrapContext(m) == Apply(AfterActions(m).value, Map(Collect(m, StepsOf), StepOp))
  {
    BootstrapPhases(m);
  }

  /**
   * The singletons of a bootstrapped context: the container itself and
   * every provider of the tree under its token, and nothing else; nothing
   * has been constructed yet.
   */
  lemma BootstrapSingletons(m: ModuleClass)
    requires BootstrapContext(m).Success?
    ensures var c := BootstrapContext(m).value;
      var ps := Collect(m, ProvidersOf);
      && c.lineage == Current && c.cache == New(Current).cache
      && ProvidersFit(New(Current), ps)
      && (forall k :: 0 <= k < |ps| ==> ProviderToken(ps[k]) in c.singletons && c.singletons[ProviderToken(ps[k])] == ProviderClass(ps[k]))
      && (forall u :: u in c.singletons ==> u == OfType(ContextClass) || exists k :: 0 <= k < |ps| && u == ProviderToken(ps[k]))
  {
    BootstrapStages(m);
    var ps := Collect(m, ProvidersOf);
    var c1, c2, c := AfterProviders(m).value, AfterActions(m).value, BootstrapContext(m).value;
    assert c1.lineage == Current && c1.cache == New(Current).cache && ProvidersFit(New(Current), ps) by {
      ProvidersOutcome(New(Current), ps);
    }
    ProvidersPhase(New(Current), ps);
    assert c2.singletons == c1.singletons && c2.cache == c1.cache && c2.lineage == c1.lineage by {
      ActionsPhase(c1, Collect(m, ActionsOf));
    }
    assert c.singletons == c2.singletons && c.cache == c2.cache && c.lineage == c2.lineage by {
      StepsPhase(c2, Collect(m, StepsOf));
    }
  }

  /**
   * The actions of a bootstrapped context: every action of the tree is
   * decorated and answers under its command, or the initial token.
   */
  lemma BootstrapActions(m: ModuleClass)
    requires BootstrapContext(m).Success?
    ensures var c := BootstrapContext(m).value;
      var acts := Collect(m, ActionsOf);
      forall k :: 0 <= k < |acts| ==> acts[k].meta.Some? && ActionToken(acts[k]) in c.transients && c.transients[ActionToken(acts[k])] == acts[k].cls
  {
    BootstrapStages(m);
    ActionsPhaseTokens(AfterProviders(m).value, Collect(m, ActionsOf));
    StepsPhase(AfterActions(m).value, Collect(m, StepsOf));
  }

  /**
   * The steps of a bootstrapped context: every step class of the tree
   * carries `@Step`, and each declared operator class answers under its
   * status's token.
   */
  lemma BootstrapSteps(m: ModuleClass)
    requires BootstrapContext(m).Success?
    ensures var c := BootstrapContext(m).value;
      var ss := Collect(m, StepsOf);
      && (forall k :: 0 <= k < |ss| ==> ss[k].meta.Some?)
      && (forall k :: 0 <= k < |ss| && HasUpdate(ss[k]) ==>
            var t := Named(UpdateOperatorName(Current, ss[k].meta.value.status));
            t in c.transients && c.transients[t] == ss[k].meta.value.updateOperator.value)
      && (forall k :: 0 <= k < |ss| && HasRead(ss[k]) ==>
            var t := Named(ReadOperatorName(Current, ss[k].meta.value.status));
            t in c.transients && c.transients[t] == ss[k].meta.value.readOperator.value)
  {
    BootstrapStages(m);
    ProvidersOutcome(New(Current), Collect(m, ProvidersOf));
    ActionsPhase(AfterProviders(m).value, Collect(m, ActionsOf));
    StepsPhase(AfterActions(m).value, Collect(m, StepsOf));
  }

  /** A module without metadata, or with empty metadata, bootstraps to the bare container. */
  lemma EmptyModuleBootstrap(name: ClassId)
    ensures BootstrapContext(ModuleClass(name, None)) == Success(New(Current))
    ensures BootstrapContext(ModuleClass(name, Some(ModuleMeta([], [], [], [])))) == Success(New(Current))
  {
    var e := ModuleMeta([], [], [], []);
    EmptyModuleContributesNothing(name, ProvidersOf);
    EmptyModuleContributesNothing(name, ActionsOf);
    EmptyModuleContributesNothing(name, StepsOf);
    assert ProvidersOf(e) == [] && ActionsOf(e) == [] && StepsOf(e) == [];
    assert Pipe(Create<Context>(), []).operators == [];
  }

  // ---- the older lineage ----

  /** The TypeError of reading `providers` from the missing metadata of an undecorated module. */
  const ProvidersTypeError: string := "Cannot read properties of undefined (reading 'providers')"

  /** The older `setSingleton` given a `{token, type}` object: neither a string nor a class. */
  function RejectProvider(c: Context): Result<Context, Error> {
    Failure(UnknownContextError)
  }

  /** The older `getServices(module).map(addSingleton)`: every provider is passed as a type. */
  function LegacyProviderOp(p: Provider): Operator<Context> {
    match p
    case ByType(cls) => AddLegacySingleton(cls)
    case ByToken(_, _) => RejectProvider
  }

  /**
   * The older `bootstrapContext(module)`: every module's metadata is read
   * without a guard, so an undecorated module anywhere in the tree throws
   * the TypeError on `providers` (the providers' walk runs first). Otherwise
   * providers then actions are piped into the older builder; steps are not
   * registered.
   */
  function LegacyBootstrapContext(m: ModuleClass): (r: Result<Context, Error>)
    ensures !Decorated(m) ==> r == Failure(Thrown(ProvidersTypeError))
    ensures r.Success? ==> r.value.lineage == Legacy && r.value.cache == New(Legacy).cache
  {
    if !Decorated(m) then Failure(Thrown(ProvidersTypeError))
    else
      var ps, acts := Collect(m, ProvidersOf), Collect(m, ActionsOf);
      var p, a := Map(ps, LegacyProviderOp), Map(acts, AddActionOp);
      var r := BuildLegacy(Pipe(Create(), p + a));
      assert r.Success? ==> r.value.lineage == Legacy && r.value.cache == New(Legacy).cache by {
        assert Pipe(Create(), p + a).operators == p + a;
        ApplyConcat(New(Legacy), p, a);
        LegacyProvidersPhase(New(Legacy), ps);
        ProvidersOutcome(New(Legacy), ps);
        var r1 := Apply(New(Legacy), p);
        if r1.Success? {
          ActionsPhase(r1.value, acts);
        }
      }
      r
  }

  /**
   * The older providers' part: it succeeds only if every provider is a
   * class, and on class providers it does what the current one does.
   */
  lemma {:induction false} LegacyProvidersPhase(c: Context, ps: seq<Provider>)
    ensures Apply(c, Map(ps, LegacyProviderOp)).Success? ==> forall k :: 0 <= k < |ps| ==> ps[k].ByType?
    ensures (forall k :: 0 <= k < |ps| ==> ps[k].ByType?) ==> Apply(c, Map(ps, LegacyProviderOp)) == Apply(c, Map(ps, ProviderOp))
    decreases |ps|
  {
    if |ps| > 0 {
      var ops, ops' := Map(ps, LegacyProviderOp), Map(ps, ProviderOp);
      assert ops[1..] == Map(ps[1..], LegacyProviderOp) && ops'[1..] == Map(ps[1..], ProviderOp);
      forall k | 0 < k < |ps| ensures ps[k] == ps[1..][k - 1] {
      }
      if ps[0].ByType? {
        assert ops[0](c) == ops'[0](c);
        if ops[0](c).Success? {
          LegacyProvidersPhase(ops[0](c).value, ps[1..]);
        }
      }
    }
  }

  /**
   * An older bootstrap that succeeds had a decorated tree of class
   * providers that fit; each provider class is a singleton of itself,
   * each action answers under its token, and every transient is an
   * action's: no step operator is registered.
   */
  lemma LegacyBootstrapRegisters(m: ModuleClass)
    requires LegacyBootstrapContext(m).Success?
    ensures var c := LegacyBootstrapContext(m).value;
      var ps, acts := Collect(m, ProvidersOf), Collect(m, ActionsOf);
      && Decorated(m) && c.lineage == Legacy
      && (forall k :: 0 <= k < |ps| ==> ps[k].ByType? && OfType(ps[k].cls) in c.singletons && c.singletons[OfType(ps[k].cls)] == ps[k].cls)
      && ProvidersFit(New(Legacy), ps)
      && (forall k :: 0 <= k < |acts| ==> acts[k].meta.Some? && ActionToken(acts[k]) in c.transients && c.transients[ActionToken(acts[k])] == acts[k].cls)
      && (forall u :: u in c.transients ==> exists k :: 0 <= k < |acts| && u == ActionToken(acts[k]))
  {
    var ps, acts := Collect(m, ProvidersOf), Collect(m, ActionsOf);
    var p, a := Map(ps, LegacyProviderOp), Map(acts, AddActionOp);
    assert Apply(New(Legacy), p).Success? && LegacyBootstrapContext(m) == Apply(Apply(New(Legacy), p).value, a) by {
      assert Pipe(Create(), p + a).operators == p + a;
      ApplyConcat(New(Legacy), p, a);
    }
    var c1 := Apply(New(Legacy), p).value;
    var c := Apply(c1, a).value;
    assert && Decorated(m) && ProvidersFit(New(Legacy), ps) && c1.lineage == Legacy && c1.transients == map[]
      && (forall k :: 0 <= k < |ps| ==> ps[k].ByType? && OfType(ps[k].cls) in c1.singletons && c1.singletons[OfType(ps[k].cls)] == ps[k].cls)
    by {
      assert Pipe(Create(), p + a).operators == p + a;
      ApplyConcat(New(Legacy), p, a);
      LegacyProvidersPhase(New(Legacy), ps);
      ProvidersOutcome(New(Legacy), ps);
      ProvidersPhase(New(Legacy), ps);
    }
    assert c.lineage == Legacy && c.singletons == c1.singletons by {
      ActionsPhase(c1, acts);
    }
    ActionsPhaseTokens(c1, acts);
    ActionsPhaseNew(c1, acts);
  }

  /**
   * The lineages part on a module without `@Module`: the current one reads
   * the metadata optionally and gives the bare container, the older one
   * throws the TypeError.
   */
  lemma UndecoratedModuleLineages(name: ClassId)
    ensures BootstrapContext(ModuleClass(name, None)) == Success(New(Current))
    ensures LegacyBootstrapContext(ModuleClass(name, None)) == Failure(Thrown(ProvidersTypeError))
    ensures LegacyBootstrapContext(ModuleClass(name, Some(ModuleMeta([], [], [], [])))) == Success(New(Legacy))
  {
    EmptyModuleBootstrap(name);
    EmptyModuleContributesNothing(name, ProvidersOf);
    EmptyModuleContributesNothing(name, ActionsOf);
    assert ProvidersOf(ModuleMeta([], [], [], [])) == [] && ActionsOf(ModuleMeta([], [], [], [])) == [];
    assert Decorated(ModuleClass(name, Some(ModuleMeta([], [], [], []))));
    assert Pipe(Create<Context>(), []).operators == [];
  }

  /**
   * A `{token, type}` provider, accepted by the current lineage, fails the
   * older bootstrap wherever it sits in the tree.
   */
  lemma LegacyRejectsTokenProviders(m: ModuleClass, k: nat)
    requires k < |Collect(m, ProvidersOf)| && Collect(m, ProvidersOf)[k].ByToken?
    ensures LegacyBootstrapContext(m).Failure?
  {
    if LegacyBootstrapContext(m).Success? {
      LegacyBootstrapRegisters(m);
    }
  }

  // ---- the older `bootstrapProcess` ----

  /** The older `bootstrapProcess(module, context)`: a stub that throws a bare `Error`. */
  function BootstrapProcess(m: ModuleClass, c: Context): (r: Result<Process.Process, Error>)
    ensures r.Failure? && Message(r.error) == ""
  {
    Failure(Thrown(""))
  }
}
