/**
 * The context operators (`addSingleton`, `addTransient`, and the older
 * lineage's `addSingleton`/`addInstance`) and the two `ContextBuilder`s,
 * as instances of the generic pipeline.
 */
module ContextBuilder {
  import opened Wrappers
  import opened Common
  import opened Container
  import opened Pipeline

  /**
   * The two accepted argument shapes: a string token with a type, or a class
   * token alone. Any other combination makes the operator a no-op.
   */
  predicate Accepted(token: Token, ty: Option<ClassId>) {
    (token.Named? && ty.Some?) || (token.OfType? && ty.None?)
  }

  /** The class a registration under `token` stands for. */
  function Target(token: Token, ty: Option<ClassId>): (cls: ClassId)
    requires Accepted(token, ty)
    ensures token.OfType? ==> cls == token.cls
    ensures token.Named? ==> cls == ty.value
  {
    if token.Named? then ty.value else token.cls
  }

  /** What `addSingleton(token, type?)` does to a context. */
  function AddSingletonTo(c: Context, token: Token, ty: Option<ClassId>): (r: Result<Context, Error>)
    ensures !Accepted(token, ty) ==> r == Success(c)
    ensures Accepted(token, ty) ==> (r.Failure? <==> token in c.singletons)
    ensures r.Failure? ==> r.error == TypeExists
    ensures Accepted(token, ty) && r.Success? ==>
      && r.value.singletons == c.singletons[token := Target(token, ty)]
      && r.value.transients == c.transients && r.value.cache == c.cache
      && r.value.nextId == c.nextId && r.value.lineage == c.lineage
  {
    if Accepted(token, ty) then SetSingleton(c, token, ty) else Success(c)
  }

  /** What `addTransient(token, type?)` (older: `addInstance`) does to a context. */
  function AddTransientTo(c: Context, token: Token, ty: Option<ClassId>): (r: Result<Context, Error>)
    ensures !Accepted(token, ty) ==> r == Success(c)
    ensures Accepted(token, ty) ==> (r.Failure? <==> token in c.transients)
    ensures r.Failure? ==> r.error == TypeExists
    ensures Accepted(token, ty) && r.Success? ==>
      && r.value.transients == c.transients[token := Target(token, ty)]
      && r.value.singletons == c.singletons && r.value.cache == c.cache
      && r.value.nextId == c.nextId && r.value.lineage == c.lineage
  {
    if Accepted(token, ty) then SetTransient(c, token, ty) else Success(c)
  }

  /** `addSingleton(token, type?)` as an operator. */
  function AddSingleton(token: Token, ty: Option<ClassId>): (op: Operator<Context>)
    ensures forall c :: !Accepted(token, ty) ==> op(c) == Success(c)
    ensures forall c :: Accepted(token, ty) ==> (op(c).Failure? <==> token in c.singletons)
    ensures forall c :: op(c).Failure? ==> op(c).error == TypeExists
    ensures forall c :: Accepted(token, ty) && op(c).Success? ==>
      && op(c).value.singletons == c.singletons[token := Target(token, ty)]
      && op(c).value.transients == c.transients && op(c).value.cache == c.cache
  {
    c => AddSingletonTo(c, token, ty)
  }

  /** `addTransient(token, type?)`, and the older `addInstance`, as an operator. */
  function AddTransient(token: Token, ty: Option<ClassId>): (op: Operator<Context>)
    ensures forall c :: !Accepted(token, ty) ==> op(c) == Success(c)
    ensures forall c :: Accepted(token, ty) ==> (op(c).Failure? <==> token in c.transients)
    ensures forall c :: op(c).Failure? ==> op(c).error == TypeExists
    ensures forall c :: Accepted(token, ty) && op(c).Success? ==>
      && op(c).value.transients == c.transients[token := Target(token, ty)]
      && op(c).value.singletons == c.singletons && op(c).value.cache == c.cache
  {
    c => AddTransientTo(c, token, ty)
  }

  /** The older `addSingleton(type)`: always a class token. */
  function AddLegacySingleton(cls: ClassId): Operator<Context> {
    c => SetSingleton(c, OfType(cls), None)
  }

  /** `defaultContextFactory`: a new current-lineage container. */
  function DefaultContextFactory(): (c: Context)
    ensures c.lineage == Current && c.transients == map[]
    ensures c.singletons == map[OfType(ContextClass) := ContextClass]
    ensures c.cache == map[OfType(ContextClass) := SelfInstance]
  {
    New(Current)
  }

  /** The older `build()`, which always starts from a new older-lineage container. */
  function BuildLegacy(b: Builder<Context>): (r: Result<Context, Error>)
    ensures |b.operators| == 0 ==> r == Success(New(Legacy))
  {
    Build(b, New(Legacy))
  }

  /** An empty pipe builds the bare container: only its self-registration. */
  lemma EmptyBuild(lineage: Lineage)
    ensures Build(Create(), New(lineage)) == Success(New(lineage))
    ensures var c := New(lineage);
      c.singletons.Keys == {OfType(ContextClass)} && c.transients.Keys == {}
  {
  }

  /**
   * `addSingleton` then `build`: repeated resolutions of the class give the
   * identical instance, in either lineage.
   */
  lemma AddSingletonIdentical(classes: ClassTable, lineage: Lineage, cls: ClassId, fuel: nat, fuel': nat)
    requires cls != ContextClass
    ensures var built := Build(Pipe(Create(), [AddSingleton(OfType(cls), None)]), New(lineage));
      && built.Success?
      && (var (c1, r1) := Resolve(classes, built.value, OfType(cls), fuel);
          r1.Success? ==> r1.value.cls == cls && Resolve(classes, c1, OfType(cls), fuel') == (c1, r1))
  {
    var built := Build(Pipe(Create(), [AddSingleton(OfType(cls), None)]), New(lineage));
    assert Pipe(Create(), [AddSingleton(OfType(cls), None)]).operators == [AddSingleton(OfType(cls), None)];
    ApplyOne(New(lineage), AddSingleton(OfType(cls), None));
    var (c1, r1) := Resolve(classes, built.value, OfType(cls), fuel);
    if r1.Success? {
      SingletonIdentity(classes, built.value, OfType(cls), fuel, fuel');
    }
  }

  /**
   * `addTransient` (or `addInstance`) then `build`: consecutive resolutions
   * give distinct instances of the class, in either lineage.
   */
  lemma AddTransientDistinct(classes: ClassTable, lineage: Lineage, token: Token, ty: Option<ClassId>, fuel: nat)
    requires Accepted(token, ty) && token != OfType(ContextClass)
    ensures var built := Build(Pipe(Create(), [AddTransient(token, ty)]), New(lineage));
      && built.Success?
      && (var (c1, r1) := Resolve(classes, built.value, token, fuel);
          var (c2, r2) := Resolve(classes, c1, token, fuel);
          r1.Success? && r2.Success? ==> r1.value.cls == r2.value.cls == Target(token, ty) && r1.value != r2.value)
  {
    var built := Build(Pipe(Create(), [AddTransient(token, ty)]), New(lineage));
    assert Pipe(Create(), [AddTransient(token, ty)]).operators == [AddTransient(token, ty)];
    ApplyOne(New(lineage), AddTransient(token, ty));
    var c := built.value;
    assert Good(c);
    var (c1, r1) := Resolve(classes, c, token, fuel);
    if r1.Success? {
      TransientsDistinct(classes, c, token, fuel);
    }
  }

  /** A string token without a type registers nothing: the build is the bare container. */
  lemma NamedWithoutTypeIsNoop(lineage: Lineage, name: string)
    ensures Build(Pipe(Create(), [AddSingleton(Named(name), None), AddTransient(Named(name), None)]), New(lineage))
      == Success(New(lineage))
  {
    ApplyTwo(New(lineage), AddSingleton(Named(name), None), AddTransient(Named(name), None));
  }

  /**
   * Registering the same class twice in one lifetime aborts the build with
   * TYPE_EXISTS_ERROR, while one registration in each lifetime is accepted.
   */
  lemma DuplicatesArePerLifetime(lineage: Lineage, cls: ClassId)
    requires cls != ContextClass
    ensures Build(Pipe(Create(), [AddSingleton(OfType(cls), None), AddSingleton(OfType(cls), None)]), New(lineage))
      == Failure(TypeExists)
    ensures Build(Pipe(Create(), [AddSingleton(OfType(cls), None), AddTransient(OfType(cls), None)]), New(lineage)).Success?
  {
    ApplyTwo(New(lineage), AddSingleton(OfType(cls), None), AddSingleton(OfType(cls), None));
    ApplyTwo(New(lineage), AddSingleton(OfType(cls), None), AddTransient(OfType(cls), None));
  }
}
