/**
 * The `@Inject` parameter decorator: a class carries a positional list of
 * injection slots, one per constructor parameter, each empty or holding the
 * token to resolve for that parameter. Both lineages implement it alike.
 */
module Inject {
  import opened Wrappers
  import opened Common
  import opened Seqs

  /** `maxServiceArgsCount`: the length of a freshly allocated slot list. */
  const MaxServiceArgsCount: nat := 10

  /** A class's slot list; `None` is an `undefined` slot. */
  type Slots = seq<Option<Token>>

  /** `n` empty slots. */
  function EmptySlots(n: nat): (r: Slots)
    ensures |r| == n
    ensures forall k :: 0 <= k < n ==> r[k].None?
  {
    if n == 0 then [] else EmptySlots(n - 1) + [None]
  }

  /**
   * `Inject(token)` applied to parameter `order` of a class whose slot list
   * is `slots` (`None` before the first `Inject`): the first use allocates
   * ten empty slots; the slot at `order` receives the token, and assigning
   * past the end grows the list as a JavaScript array does.
   */
  function Inject(slots: Option<Slots>, order: nat, t: Token): (r: Slots)
    ensures var base := if slots.Some? then slots.value else EmptySlots(MaxServiceArgsCount);
      && |r| == (if order < |base| then |base| else order + 1)
      && r[order] == Some(t)
      && (forall k :: 0 <= k < |r| && k != order ==> r[k] == (if k < |base| then base[k] else None))
  {
    var base := if slots.Some? then slots.value else EmptySlots(MaxServiceArgsCount);
    if order < |base| then base[order := Some(t)]
    else base + EmptySlots(order - |base|) + [Some(t)]
  }

  /** The slot survives `!!t`: it is filled, and not with the empty string. */
  predicate Truthy(s: Option<Token>) {
    s.Some? && s.value != Named("")
  }

  /** The filled slots' tokens, in parameter order. */
  function Tokens(s: Slots): (r: seq<Token>)
    ensures |r| <= |s|
  {
    if |s| == 0 then [] else (if Truthy(s[0]) then [s[0].value] else []) + Tokens(s[1..])
  }

  /**
   * The constructor arguments to resolve for a class: none when it was never
   * decorated, else the truthy slots' tokens in parameter order.
   */
  function InjectionArgs(slots: Option<Slots>): (r: seq<Token>)
    ensures slots.None? ==> r == []
  {
    if slots.None? then [] else Tokens(slots.value)
  }

  /** A token is an argument exactly when some truthy slot holds it. */
  lemma {:induction false} TokensIn(s: Slots, t: Token)
    ensures t in Tokens(s) <==> t != Named("") && exists k :: 0 <= k < |s| && s[k] == Some(t)
  {
    if |s| > 0 {
      TokensIn(s[1..], t);
      if t != Named("") && exists k :: 0 <= k < |s| && s[k] == Some(t) {
        var k :| 0 <= k < |s| && s[k] == Some(t);
        if k > 0 {
          assert s[1..][k - 1] == Some(t);
        }
      }
      if t != Named("") && exists k :: 0 <= k < |s[1..]| && s[1..][k] == Some(t) {
        var k :| 0 <= k < |s[1..]| && s[1..][k] == Some(t);
        assert s[k + 1] == Some(t);
      }
    }
  }

  /** Slots that are all empty (or hold the empty string) contribute no argument. */
  lemma {:induction false} TokensNone(s: Slots)
    requires forall k :: 0 <= k < |s| ==> !Truthy(s[k])
    ensures Tokens(s) == []
  {
    if |s| > 0 {
      TokensNone(s[1..]);
    }
  }

  /** Injections on distinct parameters commute: decorator order does not matter. */
  lemma InjectsCommute(slots: Option<Slots>, i: nat, j: nat, a: Token, b: Token)
    requires i != j
    ensures Inject(Some(Inject(slots, i, a)), j, b) == Inject(Some(Inject(slots, j, b)), i, a)
  {
    var x := Inject(Some(Inject(slots, i, a)), j, b);
    var y := Inject(Some(Inject(slots, j, b)), i, a);
    assert |x| == |y|;
    forall k | 0 <= k < |x| ensures x[k] == y[k] {
    }
  }

  /** Parameters 0 and 1 injected (in either order) give the two tokens in parameter order. */
  lemma TwoInjections(a: Token, b: Token)
    requires a != Named("") && b != Named("")
    ensures InjectionArgs(Some(Inject(Some(Inject(None, 1, b)), 0, a))) == [a, b]
  {
    var s := Inject(Some(Inject(None, 1, b)), 0, a);
    assert |s| == 10;
    var rest := s[2..];
    assert forall k :: 0 <= k < |rest| ==> !Truthy(rest[k]);
    TokensNone(rest);
    assert s[1..][1..] == rest;
    assert Tokens(s[1..]) == [b] + Tokens(rest);
    assert Tokens(s) == [a] + Tokens(s[1..]);
  }

  /** Parameter 0 injected alone gives that one token. */
  lemma OneInjection(a: Token)
    requires a != Named("")
    ensures InjectionArgs(Some(Inject(None, 0, a))) == [a]
  {
    var s := Inject(None, 0, a);
    assert |s| == 10;
    var rest := s[1..];
    assert forall k :: 0 <= k < |rest| ==> !Truthy(rest[k]);
    TokensNone(rest);
    assert Tokens(s) == [a] + Tokens(rest);
  }
}
