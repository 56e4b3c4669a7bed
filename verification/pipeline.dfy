/**
 * The builder pattern shared by `ContextBuilder` and `ProcessBuilder`:
 * `pipe` collects operators, `build` runs them in order on a start value.
 * An operator that throws aborts the build, so operators return `Result`.
 */
module Pipeline {
  import opened Wrappers
  import opened Common

  type Operator<!S> = S -> Result<S, Error>

  datatype Builder<!S> = Builder(operators: seq<Operator<S>>)

  /** `createContextBuilder()` / `new ProcessBuilder(…)`: no operator yet. */
  function Create<S>(): (b: Builder<S>)
    ensures |b.operators| == 0
  {
    Builder([])
  }

  /** `pipe(...operators)`: appends after the operators piped so far. */
  function Pipe<S>(b: Builder<S>, ops: seq<Operator<S>>): (r: Builder<S>)
    ensures |r.operators| == |b.operators| + |ops|
    ensures r.operators[..|b.operators|] == b.operators && r.operators[|b.operators|..] == ops
  {
    Builder(b.operators + ops)
  }

  /** Runs the operators left to right on `s`, stopping at the first that fails. */
  function Apply<S>(s: S, ops: seq<Operator<S>>): (r: Result<S, Error>)
    decreases |ops|
  {
    if |ops| == 0 then Success(s)
    else
      var r := ops[0](s);
      if r.Failure? then r else Apply(r.value, ops[1..])
  }

  /** Continues a run: a failure stays as it is, a success runs `ops` next. */
  function Then<S>(r: Result<S, Error>, ops: seq<Operator<S>>): Result<S, Error> {
    if r.Failure? then r else Apply(r.value, ops)
  }

  /** `build(factory)`: the piped operators applied once each, in order, to the factory's value. */
  function Build<S>(b: Builder<S>, start: S): (r: Result<S, Error>)
    ensures |b.operators| == 0 ==> r == Success(start)
  {
    Apply(start, b.operators)
  }

  /** A single operator's run is that operator's result. */
  lemma ApplyOne<S>(s: S, f: Operator<S>)
    ensures Apply(s, [f]) == f(s)
  {
    assert [f][1..] == [];
    if f(s).Success? {
      assert Apply(f(s).value, []) == f(s);
    }
  }

  /** Two operators: the second runs on the first's result, unless the first failed. */
  lemma ApplyTwo<S>(s: S, f: Operator<S>, g: Operator<S>)
    ensures Apply(s, [f, g]) == if f(s).Failure? then f(s) else g(f(s).value)
  {
    assert [f, g] == [f] + [g];
    ApplyConcat(s, [f], [g]);
    ApplyOne(s, f);
    if f(s).Success? {
      ApplyOne(f(s).value, g);
    }
  }

  /** Running two operator lists one after the other is running their concatenation. */
  lemma {:induction false} ApplyConcat<S>(s: S, a: seq<Operator<S>>, b: seq<Operator<S>>)
    ensures Apply(s, a + b) == Then(Apply(s, a), b)
    decreases |a|
  {
    if |a| == 0 {
      assert a + b == b;
    } else {
      assert (a + b)[0] == a[0] && (a + b)[1..] == a[1..] + b;
      if a[0](s).Success? {
        ApplyConcat(a[0](s).value, a[1..], b);
      }
    }
  }

  /** A failing prefix decides the build: nothing piped after it runs. */
  lemma ApplyStopsAtFailure<S>(s: S, a: seq<Operator<S>>, b: seq<Operator<S>>)
    requires Apply(s, a).Failure?
    ensures Apply(s, a + b) == Apply(s, a)
  {
    ApplyConcat(s, a, b);
  }

  /**
   * Two `pipe` calls build what the two operator lists, run one after the
   * other, produce: `pipe` accumulates across calls.
   */
  lemma BuildTwoPipes<S>(start: S, a: seq<Operator<S>>, b: seq<Operator<S>>)
    ensures Build(Pipe(Pipe(Create(), a), b), start)
      == Then(Apply(start, a), b)
  {
    assert Pipe(Pipe(Create<S>(), a), b).operators == a + b;
    ApplyConcat(start, a, b);
  }
}
