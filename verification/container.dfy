/**
 * `Context`, the dependency-injection container of both lineages: two
 * token-to-class maps (singleton and transient lifetimes) and the cache of
 * singleton instances. An instance is a fresh id drawn from a counter threaded
 * through resolution, with its class and its constructor arguments.
 */
module Container {
  import opened Wrappers
  import opened Common
  import opened Inject

  /** A constructed object: a fresh id, its class and the arguments it received. */
  datatype Instance = Instance(id: nat, cls: ClassId, args: seq<Instance>)

  /**
   * The two implementations differ in two places: the error for an unknown
   * token, and whether a transient resolution also writes the instance cache.
   */
  datatype Lineage = Current | Legacy

  datatype Context = Context(
    singletons: map<Token, ClassId>,
    cache: map<Token, Instance>,
    transients: map<Token, ClassId>,
    nextId: nat,
    lineage: Lineage)

  /** Each class's `@Inject` slot list; a class never decorated has no entry. */
  type ClassTable = map<ClassId, Slots>

  /** The container's own class, registered in every new container. */
  const ContextClass: ClassId := "Context"

  /** The container itself, the first instance (id 0). */
  const SelfInstance: Instance := Instance(0, ContextClass, [])

  /** Every cached instance was issued before the counter. */
  ghost predicate Good(c: Context) {
    forall t :: t in c.cache ==> c.cache[t].id < c.nextId
  }

  /** The constructor: registers and caches the container under its own class. */
  function New(lineage: Lineage): (c: Context)
    ensures c.singletons == map[OfType(ContextClass) := ContextClass]
    ensures c.cache == map[OfType(ContextClass) := SelfInstance]
    ensures c.transients == map[] && c.lineage == lineage
    ensures Good(c)
  {
    Context(map[OfType(ContextClass) := ContextClass], map[OfType(ContextClass) := SelfInstance], map[], 1, lineage)
  }

  /**
   * The registration rule shared by both lifetimes: an existing token is
   * refused (TYPE_EXISTS_ERROR); a string token needs a type; a class token
   * stands for itself; a string without a type is UNKNOWN_ERROR.
   */
  function Register(m: map<Token, ClassId>, token: Token, ty: Option<ClassId>): (r: Result<map<Token, ClassId>, Error>)
    ensures token in m ==> r == Failure(TypeExists)
    ensures token !in m && token.Named? && ty.None? ==> r == Failure(UnknownContextError)
    ensures r.Success? <==> token !in m && (token.OfType? || ty.Some?)
    ensures r.Success? ==> r.value.Keys == m.Keys + {token}
    ensures r.Success? ==> forall u :: u in m ==> r.value[u] == m[u]
    ensures r.Success? && token.Named? ==> r.value[token] == ty.value
    ensures r.Success? && token.OfType? ==> r.value[token] == token.cls
  {
    if token in m then Failure(TypeExists)
    else match token
      case Named(_) => if ty.Some? then Success(m[token := ty.value]) else Failure(UnknownContextError)
      case OfType(cls) => Success(m[token := cls])
  }

  /** `setSingleton(token, type?)`: only the singleton map is consulted for duplicates. */
  function SetSingleton(c: Context, token: Token, ty: Option<ClassId>): (r: Result<Context, Error>)
    ensures r.Failure? <==> Register(c.singletons, token, ty).Failure?
    ensures r.Failure? ==> r.error == Register(c.singletons, token, ty).error
    ensures r.Success? ==> r.value == c.(singletons := Register(c.singletons, token, ty).value)
  {
    var m :- Register(c.singletons, token, ty);
    Success(c.(singletons := m))
  }

  /**
   * `setTransient(token, type?)` (in the older lineage also reached as
   * `setInstance`): only the transient map is consulted for duplicates.
   */
  function SetTransient(c: Context, token: Token, ty: Option<ClassId>): (r: Result<Context, Error>)
    ensures r.Failure? <==> Register(c.transients, token, ty).Failure?
    ensures r.Failure? ==> r.error == Register(c.transients, token, ty).error
    ensures r.Success? ==> r.value == c.(transients := Register(c.transients, token, ty).value)
  {
    var m :- Register(c.transients, token, ty);
    Success(c.(transients := m))
  }

  /** The error `getService` raises for a token registered in neither map. */
  function MissingError(lineage: Lineage, t: Token): (e: Error)
    ensures lineage == Current ==> e == TokenDoesNotExist(t) && Message(e) == "Token \"" + TokenToString(t) + "\" doesn't exist in current context"
    ensures lineage == Legacy ==> e == TypeDoesNotExist && Message(e) == "Type doesn't exist in current context"
  {
    if lineage == Current then TokenDoesNotExist(t) else TypeDoesNotExist
  }

  /** The errors resolution itself raises: a missing token, or construction nested too deep. */
  predicate ResolutionError(e: Error) {
    e.TokenDoesNotExist? || e == TypeDoesNotExist || e == DependencyTooDeep
  }

  /** What resolution never touches, and what it only adds to. */
  ghost predicate Extends(c: Context, c': Context) {
    && c'.singletons == c.singletons
    && c'.transients == c.transients
    && c'.lineage == c.lineage
    && c'.nextId >= c.nextId
    && (forall u :: u in c.cache && u in c.singletons ==> u in c'.cache && c'.cache[u] == c.cache[u])
    && (c.lineage == Current ==> forall u :: u !in c.singletons ==>
          (u in c'.cache <==> u in c.cache) && (u in c.cache ==> c'.cache[u] == c.cache[u]))
  }

  /**
   * `getService(token)`: a singleton token answers from the cache, or
   * constructs, caches and answers; otherwise a transient token constructs
   * (the older lineage also writes the cache, which no later lookup reads
   * for a transient token); otherwise the token is missing. A failure still
   * returns the container, since instances built before the failure stay
   * cached. `fuel` bounds the nesting of constructions, standing for the
   * call stack that a cyclic injection exhausts.
   */
  function Resolve(classes: ClassTable, c: Context, t: Token, fuel: nat): (r: (Context, Result<Instance, Error>))
    decreases fuel, 2
    ensures Extends(c, r.0)
    ensures Good(c) ==> Good(r.0) && (r.1.Success? ==> r.1.value.id < r.0.nextId)
    ensures r.1.Failure? ==> ResolutionError(r.1.error)
    ensures t !in c.singletons && t !in c.transients ==> r == (c, Failure(MissingError(c.lineage, t)))
    ensures t in c.singletons && t in c.cache ==> r == (c, Success(c.cache[t]))
    ensures t in c.singletons && r.1.Success? ==> t in r.0.cache && r.0.cache[t] == r.1.value
    ensures t in c.singletons && t !in c.cache && r.1.Success? ==>
      r.1.value.cls == c.singletons[t] && r.1.value.id >= c.nextId
    ensures t !in c.singletons && t in c.transients && r.1.Success? ==>
      r.1.value.cls == c.transients[t] && r.1.value.id >= c.nextId
  {
    if t in c.singletons then
      if t in c.cache then (c, Success(c.cache[t]))
      else
        var (c1, res) := Construct(classes, c, c.singletons[t], fuel);
        if res.Failure? then (c1, res) else (c1.(cache := c1.cache[t := res.value]), res)
    else if t in c.transients then
      var (c1, res) := Construct(classes, c, c.transients[t], fuel);
      if res.Success? && c.lineage == Legacy then (c1.(cache := c1.cache[t := res.value]), res) else (c1, res)
    else (c, Failure(MissingError(c.lineage, t)))
  }

  /** The tokens `cls` is constructed with: its injection arguments, none for an undecorated class. */
  function Injected(classes: ClassTable, cls: ClassId): seq<Token> {
    InjectionArgs(if cls in classes then Some(classes[cls]) else None)
  }

  /**
   * `createTypeFromTypeToken`: resolves the class's injection arguments in
   * parameter order, then constructs it under the next id.
   */
  function Construct(classes: ClassTable, c: Context, cls: ClassId, fuel: nat): (r: (Context, Result<Instance, Error>))
    decreases fuel, 1
    ensures Extends(c, r.0)
    ensures Good(c) ==> Good(r.0)
    ensures fuel == 0 ==> r == (c, Failure(DependencyTooDeep))
    ensures r.1.Failure? ==> ResolutionError(r.1.error)
    ensures r.1.Success? ==>
      && r.1.value.cls == cls
      && c.nextId <= r.1.value.id == r.0.nextId - 1
      && |r.1.value.args| == |Injected(classes, cls)|
  {
    if fuel == 0 then (c, Failure(DependencyTooDeep))
    else
      var tokens := Injected(classes, cls);
      var (c1, args) := ResolveAll(classes, c, tokens, fuel - 1);
      match args
      case Failure(e) => (c1, Failure(e))
      case Success(xs) => (c1.(nextId := c1.nextId + 1), Success(Instance(c1.nextId, cls, xs)))
  }

  /** `tokens.map(t => this.getService(t))`: resolves in order, stopping at the first failure. */
  function ResolveAll(classes: ClassTable, c: Context, ts: seq<Token>, fuel: nat): (r: (Context, Result<seq<Instance>, Error>))
    decreases fuel, 3, |ts|
    ensures Extends(c, r.0)
    ensures Good(c) ==> Good(r.0)
    ensures r.1.Success? ==> |r.1.value| == |ts|
    ensures r.1.Failure? ==> ResolutionError(r.1.error)
  {
    if |ts| == 0 then (c, Success([]))
    else
      var (c1, first) := Resolve(classes, c, ts[0], fuel);
      if first.Failure? then (c1, Failure(first.error))
      else
        var (c2, rest) := ResolveAll(classes, c1, ts[1..], fuel);
        if rest.Failure? then (c2, Failure(rest.error)) else (c2, Success([first.value] + rest.value))
  }

  /** One resolution: the container it leaves and its outcome. */
  type Step = (Context, Token) -> (Context, Result<Instance, Error>)

  /** Resolution of one token against `classes` with `fuel`, as a step. */
  function Resolver(classes: ClassTable, fuel: nat): Step {
    (c: Context, t: Token) => Resolve(classes, c, t, fuel)
  }

  /**
   * `cs` threads `step` through the first `n` tokens of `ts`: position `i`
   * resolves `ts[i]` in the container `cs[i]` left by the positions before
   * it, succeeds with `xs[i]`, and leaves `cs[i + 1]`.
   */
  ghost predicate Threaded(step: Step, cs: seq<Context>, ts: seq<Token>, xs: seq<Instance>, n: nat) {
    && n <= |ts| && |cs| == n + 1 && |xs| == n
    && forall i :: 0 <= i < n ==> step(cs[i], ts[i]) == (cs[i + 1], Success(xs[i]))
  }

  /** Resolving `ts` from `c` succeeds position by position with `xs`, ending in `c'`. */
  ghost predicate ResolvesTo(step: Step, c: Context, ts: seq<Token>, xs: seq<Instance>, c': Context) {
    exists cs :: Threaded(step, cs, ts, xs, |ts|) && cs[0] == c && cs[|ts|] == c'
  }

  /**
   * Position `k` is the first to fail: the tokens before it resolve in turn,
   * and resolving `ts[k]` in the container they leave fails with `e`, leaving `c'`.
   */
  ghost predicate FailsAt(step: Step, c: Context, ts: seq<Token>, k: nat, e: Error, c': Context) {
    && k < |ts|
    && exists cs, xs :: Threaded(step, cs, ts, xs, k) && cs[0] == c && step(cs[k], ts[k]) == (c', Failure(e))
  }

  /** A successful resolution extends a threading by one position in front. */
  lemma ThreadCons(step: Step, c: Context, t: Token, x: Instance, cs: seq<Context>, ts: seq<Token>, xs: seq<Instance>, n: nat)
    requires Threaded(step, cs, ts, xs, n)
    requires step(c, t) == (cs[0], Success(x))
    ensures Threaded(step, [c] + cs, [t] + ts, [x] + xs, n + 1)
  {
    var cs', ts', xs' := [c] + cs, [t] + ts, [x] + xs;
    forall i | 0 <= i < n + 1 ensures step(cs'[i], ts'[i]) == (cs'[i + 1], Success(xs'[i])) {
      if i > 0 {
        assert cs'[i] == cs[i - 1] && ts'[i] == ts[i - 1] && xs'[i] == xs[i - 1] && cs'[i + 1] == cs[i];
      }
    }
  }

  /** Dropping the first position of a threading leaves a threading of the rest. */
  lemma ThreadTail(step: Step, cs: seq<Context>, ts: seq<Token>, xs: seq<Instance>, n: nat)
    requires Threaded(step, cs, ts, xs, n) && n > 0
    ensures Threaded(step, cs[1..], ts[1..], xs[1..], n - 1)
  {
    forall i | 0 <= i < n - 1 ensures step(cs[1..][i], ts[1..][i]) == (cs[1..][i + 1], Success(xs[1..][i])) {
      assert cs[1..][i] == cs[i + 1] && ts[1..][i] == ts[i + 1] && xs[1..][i] == xs[i + 1] && cs[1..][i + 1] == cs[i + 2];
    }
  }

  /** A token that resolves in front of a list moves its first failure one place on. */
  lemma FailsAtCons(step: Step, c: Context, t: Token, x: Instance, c1: Context, ts: seq<Token>, k: nat, e: Error, c': Context)
    requires step(c, t) == (c1, Success(x))
    requires FailsAt(step, c1, ts, k, e, c')
    ensures FailsAt(step, c, [t] + ts, k + 1, e, c')
  {
    var cs, xs :| Threaded(step, cs, ts, xs, k) && cs[0] == c1 && step(cs[k], ts[k]) == (c', Failure(e));
    ThreadCons(step, c, t, x, cs, ts, xs, k);
    assert ([c] + cs)[k + 1] == cs[k] && ([t] + ts)[k + 1] == ts[k];
  }

  /** A first failure past position 0: the head resolves, and the rest fails one place earlier. */
  lemma FailsLater(step: Step, c: Context, ts: seq<Token>, k: nat, e: Error, c': Context) returns (c1: Context, x: Instance)
    requires FailsAt(step, c, ts, k, e, c') && k > 0
    ensures step(c, ts[0]) == (c1, Success(x))
    ensures FailsAt(step, c1, ts[1..], k - 1, e, c')
  {
    var cs, xs :| Threaded(step, cs, ts, xs, k) && cs[0] == c && step(cs[k], ts[k]) == (c', Failure(e));
    c1, x := cs[1], xs[0];
    ThreadTail(step, cs, ts, xs, k);
    assert cs[1..][k - 1] == cs[k] && ts[1..][k - 1] == ts[k];
  }

  /**
   * The argument list resolves left to right: on success, position `i` is
   * what `ts[i]` resolves to in the container the earlier positions leave;
   * on failure, the error and the container are those of the first token
   * that fails.
   */
  lemma ResolveAllInOrder(classes: ClassTable, c: Context, ts: seq<Token>, fuel: nat)
    ensures var r := ResolveAll(classes, c, ts, fuel);
      r.1.Success? ==> ResolvesTo(Resolver(classes, fuel), c, ts, r.1.value, r.0)
    ensures var r := ResolveAll(classes, c, ts, fuel);
      r.1.Failure? ==> exists k: nat :: FailsAt(Resolver(classes, fuel), c, ts, k, r.1.error, r.0)
  {
    if ResolveAll(classes, c, ts, fuel).1.Success? {
      SucceedsInOrder(classes, c, ts, fuel);
    } else {
      FailsInOrder(classes, c, ts, fuel);
    }
  }

  lemma {:induction false} SucceedsInOrder(classes: ClassTable, c: Context, ts: seq<Token>, fuel: nat)
    requires ResolveAll(classes, c, ts, fuel).1.Success?
    ensures var r := ResolveAll(classes, c, ts, fuel);
      ResolvesTo(Resolver(classes, fuel), c, ts, r.1.value, r.0)
    decreases |ts|
  {
    if |ts| == 0 {
      ResolvesToNothing(Resolver(classes, fuel), c, ts);
    } else {
      var (c1, first) := Resolve(classes, c, ts[0], fuel);
      var (c2, rest) := ResolveAll(classes, c1, ts[1..], fuel);
      assert ResolveAll(classes, c, ts, fuel) == (c2, Success([first.value] + rest.value));
      SucceedsInOrder(classes, c1, ts[1..], fuel);
      ResolvesToCons(Resolver(classes, fuel), c, ts, first.value, c1, rest.value, c2);
    }
  }

  lemma {:induction false} FailsInOrder(classes: ClassTable, c: Context, ts: seq<Token>, fuel: nat)
    requires ResolveAll(classes, c, ts, fuel).1.Failure?
    ensures var r := ResolveAll(classes, c, ts, fuel);
      exists k: nat :: FailsAt(Resolver(classes, fuel), c, ts, k, r.1.error, r.0)
    decreases |ts|
  {
    var (c1, first) := Resolve(classes, c, ts[0], fuel);
    if first.Failure? {
      FailsFirst(Resolver(classes, fuel), c, ts, first.error, c1);
    } else {
      var (c2, rest) := ResolveAll(classes, c1, ts[1..], fuel);
      assert ResolveAll(classes, c, ts, fuel) == (c2, Failure(rest.error));
      FailsInOrder(classes, c1, ts[1..], fuel);
      var k: nat :| FailsAt(Resolver(classes, fuel), c1, ts[1..], k, rest.error, c2);
      FailsAfterHead(Resolver(classes, fuel), c, ts, first.value, c1, k, rest.error, c2);
    }
  }

  /** The empty list resolves to nothing and leaves the container as it is. */
  lemma ResolvesToNothing(step: Step, c: Context, ts: seq<Token>)
    requires |ts| == 0
    ensures ResolvesTo(step, c, ts, [], c)
  {
    assert Threaded(step, [c], ts, [], 0);
  }

  /** A head that resolves, followed by a rest that resolves, resolves the whole list. */
  lemma ResolvesToCons(step: Step, c: Context, ts: seq<Token>, x: Instance, c1: Context, xs: seq<Instance>, c': Context)
    requires |ts| > 0 && step(c, ts[0]) == (c1, Success(x))
    requires ResolvesTo(step, c1, ts[1..], xs, c')
    ensures ResolvesTo(step, c, ts, [x] + xs, c')
  {
    var cs :| Threaded(step, cs, ts[1..], xs, |ts| - 1) && cs[0] == c1 && cs[|ts| - 1] == c';
    ThreadCons(step, c, ts[0], x, cs, ts[1..], xs, |ts| - 1);
    assert [ts[0]] + ts[1..] == ts;
    assert ([c] + cs)[|ts|] == c';
  }

  /** A head that fails is the first failure. */
  lemma FailsFirst(step: Step, c: Context, ts: seq<Token>, e: Error, c': Context)
    requires |ts| > 0 && step(c, ts[0]) == (c', Failure(e))
    ensures FailsAt(step, c, ts, 0, e, c')
  {
    assert Threaded(step, [c], ts, [], 0);
  }

  /** A first failure at position 0 is the head failing. */
  lemma FailsAtZero(step: Step, c: Context, ts: seq<Token>, e: Error, c': Context)
    requires FailsAt(step, c, ts, 0, e, c')
    ensures step(c, ts[0]) == (c', Failure(e))
  {
    var cs, xs :| Threaded(step, cs, ts, xs, 0) && cs[0] == c && step(cs[0], ts[0]) == (c', Failure(e));
  }

  /** A head that resolves moves the rest's first failure one place on. */
  lemma FailsAfterHead(step: Step, c: Context, ts: seq<Token>, x: Instance, c1: Context, k: nat, e: Error, c': Context)
    requires |ts| > 0 && step(c, ts[0]) == (c1, Success(x))
    requires FailsAt(step, c1, ts[1..], k, e, c')
    ensures FailsAt(step, c, ts, k + 1, e, c')
  {
    FailsAtCons(step, c, ts[0], x, c1, ts[1..], k, e, c');
    assert [ts[0]] + ts[1..] == ts;
  }

  /** Conversely, a left-to-right threading is what resolving the list gives. */
  lemma {:induction false} ThreadedResolveAll(classes: ClassTable, cs: seq<Context>, ts: seq<Token>, xs: seq<Instance>, fuel: nat)
    requires Threaded(Resolver(classes, fuel), cs, ts, xs, |ts|)
    ensures ResolveAll(classes, cs[0], ts, fuel) == (cs[|ts|], Success(xs))
  {
    if |ts| > 0 {
      assert Resolve(classes, cs[0], ts[0], fuel) == (cs[1], Success(xs[0]));
      ThreadTail(Resolver(classes, fuel), cs, ts, xs, |ts|);
      ThreadedResolveAll(classes, cs[1..], ts[1..], xs[1..], fuel);
      assert [xs[0]] + xs[1..] == xs;
    }
  }

  /** Conversely, a first failure at `k` is the failure resolving the list gives. */
  lemma {:induction false} FailsAtResolveAll(classes: ClassTable, c: Context, ts: seq<Token>, fuel: nat, k: nat, e: Error, c': Context)
    requires FailsAt(Resolver(classes, fuel), c, ts, k, e, c')
    ensures ResolveAll(classes, c, ts, fuel) == (c', Failure(e))
    decreases k
  {
    var step := Resolver(classes, fuel);
    if k > 0 {
      var c1, x := FailsLater(step, c, ts, k, e, c');
      FailsAtResolveAll(classes, c1, ts[1..], fuel, k - 1, e, c');
      ResolveAllAfterHead(classes, c, ts, fuel, c1, x);
    } else {
      FailsAtZero(step, c, ts, e, c');
    }
  }

  /** Once the first token resolves, the list fails exactly as its rest does. */
  lemma ResolveAllAfterHead(classes: ClassTable, c: Context, ts: seq<Token>, fuel: nat, c1: Context, x: Instance)
    requires |ts| > 0 && Resolve(classes, c, ts[0], fuel) == (c1, Success(x))
    ensures ResolveAll(classes, c1, ts[1..], fuel).1.Failure? ==>
      ResolveAll(classes, c, ts, fuel) == (ResolveAll(classes, c1, ts[1..], fuel).0, Failure(ResolveAll(classes, c1, ts[1..], fuel).1.error))
  {
  }

  /**
   * Construction resolves the class's injected tokens left to right and
   * issues the id after them: on success the arguments are the threaded
   * resolutions and the instance takes the counter they leave; a failure
   * with depth to spare is the first failing token's.
   */
  lemma ConstructInOrder(classes: ClassTable, c: Context, cls: ClassId, fuel: nat)
    ensures var r := Construct(classes, c, cls, fuel);
      r.1.Success? ==> fuel > 0 && ArgumentsResolve(classes, c, cls, fuel - 1, r.1.value, r.0)
    ensures var r := Construct(classes, c, cls, fuel);
      r.1.Failure? && fuel > 0 ==> ArgumentFails(classes, c, cls, fuel - 1, r.1.error, r.0)
  {
    if fuel > 0 {
      var ts := Injected(classes, cls);
      ResolveAllInOrder(classes, c, ts, fuel - 1);
      var (c1, args) := ResolveAll(classes, c, ts, fuel - 1);
      if args.Failure? {
        assert Construct(classes, c, cls, fuel) == (c1, Failure(args.error));
        var k: nat :| FailsAt(Resolver(classes, fuel - 1), c, ts, k, args.error, c1);
        assert ArgumentFails(classes, c, cls, fuel - 1, args.error, c1);
      } else {
        var x := Instance(c1.nextId, cls, args.value);
        assert Construct(classes, c, cls, fuel) == (c1.(nextId := c1.nextId + 1), Success(x));
        assert ArgumentsResolve(classes, c, cls, fuel - 1, x, c1.(nextId := c1.nextId + 1));
      }
    }
  }

  /**
   * `x` is built from `cls` after its injected tokens resolve left to right
   * from `c` into its arguments; it takes the id the counter then shows,
   * and the counter moves past it.
   */
  ghost predicate ArgumentsResolve(classes: ClassTable, c: Context, cls: ClassId, depth: nat, x: Instance, c': Context) {
    exists c1 :: ResolvesTo(Resolver(classes, depth), c, Injected(classes, cls), x.args, c1)
      && x == Instance(c1.nextId, cls, x.args) && c' == c1.(nextId := c1.nextId + 1)
  }

  /** Some injected token of `cls` is the first to fail, with `e`, leaving `c'`. */
  ghost predicate ArgumentFails(classes: ClassTable, c: Context, cls: ClassId, depth: nat, e: Error, c': Context) {
    exists k: nat :: FailsAt(Resolver(classes, depth), c, Injected(classes, cls), k, e, c')
  }

  /** `tryGetService`: null instead of any resolution failure. */
  function TryResolve(classes: ClassTable, c: Context, t: Token, fuel: nat): (r: (Context, Option<Instance>))
    ensures r.1.None? <==> Resolve(classes, c, t, fuel).1.Failure?
    ensures r.1.Some? ==> r.1.value == Resolve(classes, c, t, fuel).1.value
    ensures r.0 == Resolve(classes, c, t, fuel).0
    ensures t !in c.singletons && t !in c.transients ==> r == (c, None)
  {
    var (c1, res) := Resolve(classes, c, t, fuel);
    (c1, res.ToOption())
  }

  /** A new container resolves its own class to itself, and changes nothing. */
  lemma NewResolvesSelf(classes: ClassTable, lineage: Lineage, fuel: nat)
    ensures Resolve(classes, New(lineage), OfType(ContextClass), fuel) == (New(lineage), Success(SelfInstance))
  {
  }

  /**
   * Singleton identity: once a singleton token has resolved, every later
   * resolution returns the identical instance and changes nothing.
   */
  lemma SingletonIdentity(classes: ClassTable, c: Context, t: Token, fuel: nat, fuel': nat)
    requires t in c.singletons
    requires Resolve(classes, c, t, fuel).1.Success?
    ensures var (c1, r1) := Resolve(classes, c, t, fuel);
      Resolve(classes, c1, t, fuel') == (c1, r1)
  {
  }

  /**
   * Transient freshness: each resolution of a transient-only token builds a
   * new instance, distinct from every instance cached before it and from
   * the previous resolution's instance, in both lineages.
   */
  lemma TransientsDistinct(classes: ClassTable, c: Context, t: Token, fuel: nat)
    requires Good(c)
    requires t !in c.singletons && t in c.transients
    requires Resolve(classes, c, t, fuel).1.Success?
    ensures var (c1, r1) := Resolve(classes, c, t, fuel);
      && (forall u :: u in c.cache ==> c.cache[u] != r1.value)
      && (Resolve(classes, c1, t, fuel).1.Success? ==> Resolve(classes, c1, t, fuel).1.value != r1.value)
  {
    var (c1, r1) := Resolve(classes, c, t, fuel);
    assert r1.value.id < c1.nextId;
  }

  /**
   * Only the older lineage caches a transient instance; the current one
   * leaves the cache at a transient-only token as it was.
   */
  lemma TransientCaching(classes: ClassTable, c: Context, t: Token, fuel: nat)
    requires Good(c)
    requires t !in c.singletons && t in c.transients
    requires Resolve(classes, c, t, fuel).1.Success?
    ensures var (c1, r1) := Resolve(classes, c, t, fuel);
      c.lineage == Legacy <==> t in c1.cache && c1.cache[t] == r1.value
  {
    var (c1, r1) := Resolve(classes, c, t, fuel);
    var (c0, r0) := Construct(classes, c, c.transients[t], fuel);
    if c.lineage == Current {
      assert c1 == c0;
      assert t in c1.cache ==> c1.cache[t] == c.cache[t] && c.cache[t].id < c.nextId;
    }
  }

  /**
   * In the older lineage the cached transient instance shadows a singleton
   * registered later under the same token: resolving it answers the old
   * transient instance instead of constructing the singleton's class.
   */
  lemma LegacyTransientShadowsSingleton(classes: ClassTable, c: Context, t: Token, ty: Option<ClassId>, fuel: nat, fuel': nat)
    requires c.lineage == Legacy
    requires t !in c.singletons && t in c.transients
    requires Resolve(classes, c, t, fuel).1.Success?
    requires SetSingleton(Resolve(classes, c, t, fuel).0, t, ty).Success?
    ensures var (c1, r1) := Resolve(classes, c, t, fuel);
      var c2 := SetSingleton(c1, t, ty).value;
      Resolve(classes, c2, t, fuel') == (c2, r1)
  {
  }
}
