/**
 * Step operators: the DI tokens under which a step's update and read
 * operators are registered, derived from the step's status, and the
 * context operator that registers them from a `@Step` class.
 */
module StepOperators {
  import opened Wrappers
  import opened Common
  import opened Container

  /** `@Step` metadata: the status and the optional operator classes. */
  datatype StepMeta = StepMeta(processName: ProcessName, status: string, updateOperator: Option<ClassId>, readOperator: Option<ClassId>)

  /** A class listed as a step, with its metadata if it carries the decorator. */
  datatype StepClass = StepClass(cls: ClassId, meta: Option<StepMeta>)

  /** The current lineage wraps a status as `__<status>_…__`, the older one as `*&<status>_…&*`. */
  function Prefix(l: Lineage): (p: string)
    ensures |p| == 2
  {
    if l == Current then "__" else "*&"
  }

  function Suffix(l: Lineage): (p: string)
    ensures |p| == 2
  {
    if l == Current then "__" else "&*"
  }

  /** `getUpdateOperatorName(status)`. */
  function UpdateOperatorName(l: Lineage, status: string): (t: string)
    ensures |t| == |status| + 20
    ensures t[..2] == Prefix(l) && t[2..|status| + 2] == status && t[|status| + 2..] == "_update_operator" + Suffix(l)
  {
    Prefix(l) + status + "_update_operator" + Suffix(l)
  }

  /** `getReadOperatorName(status)`. */
  function ReadOperatorName(l: Lineage, status: string): (t: string)
    ensures |t| == |status| + 18
    ensures t[..2] == Prefix(l) && t[2..|status| + 2] == status && t[|status| + 2..] == "_read_operator" + Suffix(l)
  {
    Prefix(l) + status + "_read_operator" + Suffix(l)
  }

  /** Distinct statuses get distinct update tokens and distinct read tokens. */
  lemma NamesInjective(l: Lineage, a: string, b: string)
    ensures UpdateOperatorName(l, a) == UpdateOperatorName(l, b) ==> a == b
    ensures ReadOperatorName(l, a) == ReadOperatorName(l, b) ==> a == b
  {
  }

  /**
   * No update token is a read token, whatever the two statuses: the
   * sixteenth character from the end is 'p' in one and '_' in the other.
   */
  lemma UpdateIsNeverRead(l: Lineage, a: string, b: string)
    ensures UpdateOperatorName(l, a) != ReadOperatorName(l, b)
  {
    var u, r := UpdateOperatorName(l, a), ReadOperatorName(l, b);
    assert u[|u| - 16] == ("_update_operator" + Suffix(l))[2] == 'p';
    assert r[|r| - 16] == ("_read_operator" + Suffix(l))[0] == '_';
  }

  /** The two lineages' tokens never coincide: their first characters differ. */
  lemma LineagesNeverShareTokens(a: string, b: string)
    ensures UpdateOperatorName(Current, a) != UpdateOperatorName(Legacy, b)
    ensures ReadOperatorName(Current, a) != ReadOperatorName(Legacy, b)
    ensures UpdateOperatorName(Current, a) != ReadOperatorName(Legacy, b)
    ensures ReadOperatorName(Current, a) != UpdateOperatorName(Legacy, b)
  {
    assert UpdateOperatorName(Current, a)[0] == ReadOperatorName(Current, a)[0] == '_';
    assert UpdateOperatorName(Legacy, b)[0] == ReadOperatorName(Legacy, b)[0] == '*';
  }

  /**
   * `addStepOperatorsFromType` (and the older `addStepOperatorFromMetadata`):
   * registers the update operator, then the read operator, as transients
   * under the status's tokens, each only when the step declares it. A class
   * without step metadata is refused by the current lineage (the metadata
   * getter requires the decorator) and skipped by the older one.
   */
  function AddStepOperators(c: Context, step: StepClass): (r: Result<Context, Error>)
    ensures step.meta.None? && c.lineage == Current ==> r == Failure(DecoratorIsRequired(step.cls, "Step"))
    ensures step.meta.None? && c.lineage == Legacy ==> r == Success(c)
    ensures step.meta.Some? && step.meta.value.updateOperator.None? && step.meta.value.readOperator.None? ==> r == Success(c)
    ensures r.Success? ==> r.value.singletons == c.singletons && r.value.cache == c.cache && r.value.nextId == c.nextId
    ensures r.Success? ==> r.value.lineage == c.lineage && forall u :: u in c.transients ==> u in r.value.transients && r.value.transients[u] == c.transients[u]
    ensures r.Success? && step.meta.Some? ==>
      var m := step.meta.value;
      && r.value.transients.Keys == c.transients.Keys
           + (if m.updateOperator.Some? then {Named(UpdateOperatorName(c.lineage, m.status))} else {})
           + (if m.readOperator.Some? then {Named(ReadOperatorName(c.lineage, m.status))} else {})
      && (m.updateOperator.Some? ==> r.value.transients[Named(UpdateOperatorName(c.lineage, m.status))] == m.updateOperator.value)
      && (m.readOperator.Some? ==> r.value.transients[Named(ReadOperatorName(c.lineage, m.status))] == m.readOperator.value)
    ensures r.Failure? && step.meta.Some? ==> r.error == TypeExists
  {
    match step.meta
    case None => if c.lineage == Current then Failure(DecoratorIsRequired(step.cls, "Step")) else Success(c)
    case Some(m) =>
      UpdateIsNeverRead(c.lineage, m.status, m.status);
      var c1 :- if m.updateOperator.Some? then SetTransient(c, Named(UpdateOperatorName(c.lineage, m.status)), m.updateOperator) else Success(c);
      if m.readOperator.Some? then SetTransient(c1, Named(ReadOperatorName(c.lineage, m.status)), m.readOperator) else Success(c1)
  }
}
