/**
 * What the decorators record on a class, passed around as explicit records:
 * `@Action`/`@InitialAction` metadata, `@Module` metadata, and the module
 * tree that `@Module({modules})` nests. A class that does not carry a
 * decorator has `None` for its metadata.
 */
module Metadata {
  import opened Wrappers
  import opened Common
  import opened Seqs
  import opened StepOperators

  /** `ActionMetadata` (`type: 'action'`) or `InitialActionMetadata` (`type: 'initial-action'`). */
  datatype ActionKind = Act(command: string, relations: seq<(string, string)>) | InitialKind

  datatype ActionMeta = ActionMeta(processName: ProcessName, kind: ActionKind)

  /** A class listed as an action, with its metadata if it carries `@Action` or `@InitialAction`. */
  datatype ActionClass = ActionClass(cls: ClassId, meta: Option<ActionMeta>)

  /** The command an action declares and the `(from, to)` pairs it declares it for. */
  datatype Declaration = Declaration(command: string, relations: seq<(string, string)>)

  /** `getActionMetadata`: the metadata, or DecoratorIsRequired naming the class and `Action`. */
  function GetActionMetadata(a: ActionClass): (r: Result<ActionMeta, Error>)
    ensures a.meta.Some? <==> r.Success?
    ensures r.Success? ==> r.value == a.meta.value
    ensures r.Failure? ==> r.error == DecoratorIsRequired(a.cls, "Action")
  {
    if a.meta.Some? then Success(a.meta.value) else Failure(DecoratorIsRequired(a.cls, "Action"))
  }

  /** A provider: a class under its own type, or `{token, type}` under a string token. */
  datatype Provider = ByType(cls: ClassId) | ByToken(token: string, ty: ClassId)

  /** `ModuleProperties`; absent lists are empty. */
  datatype ModuleMeta = ModuleMeta(modules: seq<ModuleClass>, actions: seq<ActionClass>, steps: seq<StepClass>, providers: seq<Provider>)

  /** A class listed as a module, with its metadata if it carries `@Module`. */
  datatype ModuleClass = ModuleClass(name: ClassId, meta: Option<ModuleMeta>)

  // ---- the tree walk of `bootstrapContext` ----

  /**
   * A module's own entries, then those of each nested module in order,
   * recursively: `own.concat(...modules.map(collect))`. A module without
   * metadata contributes nothing (`meta?.x ?? []`).
   */
  function Collect<T>(m: ModuleClass, own: ModuleMeta -> seq<T>): seq<T>
    decreases m, 1
  {
    if m.meta.None? then [] else own(m.meta.value) + CollectAll(m.meta.value.modules, own)
  }

  function CollectAll<T>(ms: seq<ModuleClass>, own: ModuleMeta -> seq<T>): seq<T>
    decreases ms, 0
  {
    if |ms| == 0 then [] else Collect(ms[0], own) + CollectAll(ms[1..], own)
  }

  function ProvidersOf(mm: ModuleMeta): seq<Provider> { mm.providers }
  function ActionsOf(mm: ModuleMeta): seq<ActionClass> { mm.actions }
  function StepsOf(mm: ModuleMeta): seq<StepClass> { mm.steps }
  function ChildrenOf(mm: ModuleMeta): seq<ModuleClass> { mm.modules }

  /** Every module of the tree carries `@Module`. */
  predicate Decorated(m: ModuleClass)
    decreases m, 1
  {
    m.meta.Some? && DecoratedAll(m.meta.value.modules)
  }

  predicate DecoratedAll(ms: seq<ModuleClass>)
    decreases ms, 0
  {
    |ms| == 0 || (Decorated(ms[0]) && DecoratedAll(ms[1..]))
  }

  /**
   * The walk is depth-first and pre-order: the root's own entries come
   * first, and a nested module's entries are all its subtree's.
   */
  lemma CollectRootFirst<T>(m: ModuleClass, own: ModuleMeta -> seq<T>)
    requires m.meta.Some?
    ensures Collect(m, own)[..|own(m.meta.value)|] == own(m.meta.value)
    ensures forall k :: 0 <= k < |m.meta.value.modules| ==>
      multiset(Collect(m.meta.value.modules[k], own)) <= multiset(Collect(m, own))
  {
    var kids := m.meta.value.modules;
    forall k | 0 <= k < |kids|
      ensures multiset(Collect(kids[k], own)) <= multiset(CollectAll(kids, own))
    {
      CollectAllContains(kids, own, k);
    }
  }

  /** Each nested module's entries are part of its parent's list. */
  lemma {:induction false} CollectAllContains<T>(ms: seq<ModuleClass>, own: ModuleMeta -> seq<T>, k: nat)
    requires k < |ms|
    ensures multiset(Collect(ms[k], own)) <= multiset(CollectAll(ms, own))
    decreases k
  {
    if k > 0 {
      CollectAllContains(ms[1..], own, k - 1);
      assert ms[1..][k - 1] == ms[k];
    }
  }

  /** A module without metadata, or with empty lists and no children, contributes nothing. */
  lemma EmptyModuleContributesNothing<T>(name: ClassId, own: ModuleMeta -> seq<T>)
    ensures Collect(ModuleClass(name, None), own) == []
    ensures own(ModuleMeta([], [], [], [])) == [] ==> Collect(ModuleClass(name, Some(ModuleMeta([], [], [], []))), own) == []
  {
  }

  // ---- the tree walk of `addRelationsAndStepsFromModule` ----

  /**
   * The declarations of a list of actions, in order: each `@Action` gives
   * one, each `@InitialAction` none, and the first class without action
   * metadata is refused.
   */
  function OwnDeclarations(actions: seq<ActionClass>): (r: Result<seq<Declaration>, Error>)
    ensures r.Success? <==> forall k :: 0 <= k < |actions| ==> actions[k].meta.Some?
    ensures r.Failure? ==> exists k :: 0 <= k < |actions| && actions[k].meta.None? && r.error == DecoratorIsRequired(actions[k].cls, "Action")
  {
    if |actions| == 0 then Success([])
    else
      var meta :- GetActionMetadata(actions[0]);
      var rest := OwnDeclarations(actions[1..]);
      assert forall k :: 0 < k < |actions| ==> actions[k] == actions[1..][k - 1];
      if rest.Failure? then rest
      else if meta.kind.Act? then Success([Declaration(meta.kind.command, meta.kind.relations)] + rest.value)
      else rest
  }

  /** The declarations of the actions that carry metadata, in order, initial actions skipped. */
  function DeclarationsOf(actions: seq<ActionClass>): (ds: seq<Declaration>)
    ensures |ds| <= |actions|
  {
    if |actions| == 0 then []
    else
      var m := actions[0].meta;
      (if m.Some? && m.value.kind.Act? then [Declaration(m.value.kind.command, m.value.kind.relations)] else [])
      + DeclarationsOf(actions[1..])
  }

  /** When every action is decorated, the refusing walk and the skipping one agree. */
  lemma {:induction false} OwnDeclarationsOfDecorated(actions: seq<ActionClass>)
    requires forall k :: 0 <= k < |actions| ==> actions[k].meta.Some?
    ensures OwnDeclarations(actions) == Success(DeclarationsOf(actions))
  {
    if |actions| > 0 {
      assert forall k :: 0 <= k < |actions[1..]| ==> actions[1..][k] == actions[k + 1];
      OwnDeclarationsOfDecorated(actions[1..]);
      var m := actions[0].meta.value;
      assert GetActionMetadata(actions[0]) == Success(m);
      if !m.kind.Act? {
        assert DeclarationsOf(actions) == [] + DeclarationsOf(actions[1..]) == DeclarationsOf(actions[1..]);
      }
    }
  }

  /**
   * The `getActionsMeta` walk: the root's action declarations, then each
   * nested module's, recursively. Unlike `bootstrapContext`, this walk goes
   * through the metadata getters, so a module without `@Module` is refused,
   * and so is an action without `@Action`/`@InitialAction`.
   */
  function ModuleDeclarations(m: ModuleClass): (r: Result<seq<Declaration>, Error>)
    decreases m, 1
  {
    if m.meta.None? then Failure(DecoratorIsRequired(m.name, "Module"))
    else
      var own :- OwnDeclarations(m.meta.value.actions);
      var nested :- ModuleDeclarationsAll(m.meta.value.modules);
      Success(own + nested)
  }

  function ModuleDeclarationsAll(ms: seq<ModuleClass>): (r: Result<seq<Declaration>, Error>)
    decreases ms, 0
  {
    if |ms| == 0 then Success([])
    else
      var first :- ModuleDeclarations(ms[0]);
      var rest :- ModuleDeclarationsAll(ms[1..]);
      Success(first + rest)
  }

  /** Every module of the tree carries `@Module`, and every listed action carries action metadata. */
  predicate FullyDecorated(m: ModuleClass)
    decreases m, 1
  {
    && m.meta.Some?
    && (forall k :: 0 <= k < |m.meta.value.actions| ==> m.meta.value.actions[k].meta.Some?)
    && FullyDecoratedAll(m.meta.value.modules)
  }

  predicate FullyDecoratedAll(ms: seq<ModuleClass>)
    decreases ms, 0
  {
    |ms| == 0 || (FullyDecorated(ms[0]) && FullyDecoratedAll(ms[1..]))
  }

  /**
   * `addRelationsAndStepsFromModule` gathers exactly the declarations of the
   * tree's `@Action` classes, in the order of the `bootstrapContext` walk
   * (root first, then children depth-first), when the whole tree is
   * decorated; otherwise it fails with DecoratorIsRequired.
   */
  lemma {:induction false} ModuleDeclarationsWalk(m: ModuleClass)
    ensures ModuleDeclarations(m).Success? <==> FullyDecorated(m)
    ensures FullyDecorated(m) ==> ModuleDeclarations(m) == Success(DeclarationsOf(Collect(m, ActionsOf)))
    ensures ModuleDeclarations(m).Failure? ==> ModuleDeclarations(m).error.DecoratorIsRequired?
    decreases m, 1
  {
    if m.meta.Some? {
      var mm := m.meta.value;
      ModuleDeclarationsAllWalk(mm.modules);
      if forall k :: 0 <= k < |mm.actions| ==> mm.actions[k].meta.Some? {
        OwnDeclarationsOfDecorated(mm.actions);
        DeclarationsOfConcat(mm.actions, CollectAll(mm.modules, ActionsOf));
      }
    }
  }

  lemma {:induction false} ModuleDeclarationsAllWalk(ms: seq<ModuleClass>)
    ensures ModuleDeclarationsAll(ms).Success? <==> FullyDecoratedAll(ms)
    ensures FullyDecoratedAll(ms) ==> ModuleDeclarationsAll(ms) == Success(DeclarationsOf(CollectAll(ms, ActionsOf)))
    ensures ModuleDeclarationsAll(ms).Failure? ==> ModuleDeclarationsAll(ms).error.DecoratorIsRequired?
    decreases ms, 0
  {
    if |ms| > 0 {
      ModuleDeclarationsWalk(ms[0]);
      ModuleDeclarationsAllWalk(ms[1..]);
      DeclarationsOfConcat(Collect(ms[0], ActionsOf), CollectAll(ms[1..], ActionsOf));
    }
  }

  lemma {:induction false} DeclarationsOfConcat(a: seq<ActionClass>, b: seq<ActionClass>)
    ensures DeclarationsOf(a + b) == DeclarationsOf(a) + DeclarationsOf(b)
  {
    if |a| > 0 {
      DeclarationsOfConcat(a[1..], b);
      assert (a + b)[1..] == a[1..] + b;
    } else {
      assert a + b == b;
    }
  }
}
