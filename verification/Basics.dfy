/** Optional values and a few facts about sequences that several modules need. */
module Basics {

  datatype Option<+T> = None | Some(value: T)

  function Last<T>(s: seq<T>): T
    requires s != []
  {
    s[|s| - 1]
  }

  function Init<T>(s: seq<T>): seq<T>
    requires s != []
  {
    s[..|s| - 1]
  }

  lemma ConcatAssociates<T>(a: seq<T>, b: seq<T>, c: seq<T>)
    ensures (a + b) + c == a + (b + c)
  {
  }

  lemma AppendNothing<T>(a: seq<T>)
    ensures a + [] == a
  {
  }

  // The concatenation of f(x) for the elements x of s, in order.
  function FlatMap<A, B>(f: A -> seq<B>, s: seq<A>): seq<B> {
    if s == [] then [] else FlatMap(f, Init(s)) + f(Last(s))
  }

  lemma FlatMapEmpty<A, B>(f: A -> seq<B>)
    ensures FlatMap(f, []) == []
  {
  }

  lemma {:induction false} FlatMapConcat<A, B>(f: A -> seq<B>, a: seq<A>, b: seq<A>)
    ensures FlatMap(f, a + b) == FlatMap(f, a) + FlatMap(f, b)
  {
    if b == [] {
      assert a + b == a;
    } else {
      FlatMapConcat(f, a, Init(b));
      assert Init(a + b) == a + Init(b) && Last(a + b) == Last(b);
      ConcatAssociates(FlatMap(f, a), FlatMap(f, Init(b)), f(Last(b)));
    }
  }

  lemma FlatMapAppend<A, B>(f: A -> seq<B>, s: seq<A>, x: A)
    ensures FlatMap(f, s + [x]) == FlatMap(f, s) + f(x)
  {
    assert Init(s + [x]) == s;
  }

  lemma FlatMapOne<A, B>(f: A -> seq<B>, x: A)
    ensures FlatMap(f, [x]) == f(x)
  {
    assert Init([x]) == [];
  }

  lemma FlatMapPrefix<A, B>(f: A -> seq<B>, s: seq<A>, i: nat)
    requires i < |s|
    ensures FlatMap(f, s[..i + 1]) == FlatMap(f, s[..i]) + f(s[i])
  {
    assert s[..i + 1] == s[..i] + [s[i]];
    FlatMapAppend(f, s[..i], s[i]);
  }

  lemma {:induction false} FlatMapMember<A, B>(f: A -> seq<B>, s: seq<A>, y: B)
    ensures y in FlatMap(f, s) <==> exists x :: x in s && y in f(x)
  {
    if s == [] {
    } else {
      assert s == Init(s) + [Last(s)];
      FlatMapMember(f, Init(s), y);
    }
  }

  lemma {:induction false} FlatMapAgree<A, B>(f: A -> seq<B>, g: A -> seq<B>, s: seq<A>)
    requires forall x :: x in s ==> f(x) == g(x)
    ensures FlatMap(f, s) == FlatMap(g, s)
  {
    if s == [] {
    } else {
      FlatMapAgree(f, g, Init(s));
    }
  }

  // Concatenation of a list of lists.
  function Flatten<T>(parts: seq<seq<T>>): seq<T> {
    FlatMap((part: seq<T>) => part, parts)
  }

  lemma FlattenConcat<T>(a: seq<seq<T>>, b: seq<seq<T>>)
    ensures Flatten(a + b) == Flatten(a) + Flatten(b)
  {
    FlatMapConcat((part: seq<T>) => part, a, b);
  }

  lemma FlattenAppend<T>(parts: seq<seq<T>>, part: seq<T>)
    ensures Flatten(parts + [part]) == Flatten(parts) + part
  {
    FlatMapAppend((p: seq<T>) => p, parts, part);
  }

  // ---------- selecting elements ----------

  // The chosen elements are those at these positions, in order.
  ghost predicate IsSelection<A>(s: seq<A>, at: seq<nat>, chosen: seq<A>) {
    && |chosen| == |at|
    && (forall k :: 0 <= k < |at| ==> at[k] < |s| && chosen[k] == s[at[k]])
    && (forall k, l :: 0 <= k < l < |at| ==> at[k] < at[l])
  }

  lemma SelectionNext<A>(s: seq<A>, at: seq<nat>, chosen: seq<A>, x: A)
    requires IsSelection(s, at, chosen)
    ensures IsSelection(s + [x], at, chosen) && |s| !in at
    ensures IsSelection(s + [x], at + [|s|], chosen + [x])
    ensures forall i :: i in at + [|s|] <==> i in at || i == |s|
  {
    var next := at + [|s|];
    assert forall k :: 0 <= k < |at| ==> next[k] == at[k];
    assert next[|at|] == |s|;
  }

  // A function that gives x or nothing, for each x, selects.
  lemma {:induction false} FlatMapSelects<A>(f: A -> seq<A>, s: seq<A>) returns (at: seq<nat>)
    requires forall x :: x in s ==> f(x) == [x] || f(x) == []
    ensures IsSelection(s, at, FlatMap(f, s))
    ensures forall i :: 0 <= i < |s| ==> (i in at <==> f(s[i]) != [])
  {
    hide IsSelection;
    if s == [] {
      at := [];
      NothingSelected<A>();
    } else {
      var init, x := Init(s), Last(s);
      assert s == init + [x];
      at := FlatMapSelects(f, init);
      SelectionNext(init, at, FlatMap(f, init), x);
      assert forall i :: 0 <= i < |init| ==> s[i] == init[i];
      if f(x) != [] {
        at := at + [|init|];
      } else {
        AppendNothing(FlatMap(f, init));
      }
    }
  }

  lemma NothingSelected<A>()
    ensures IsSelection<A>([], [], [])
  {
  }

  // Each element is then chosen as often as it occurs, or never.
  lemma {:induction false} FlatMapCounts<A>(f: A -> seq<A>, s: seq<A>, x: A)
    requires forall y :: y in s ==> f(y) == [y] || f(y) == []
    ensures multiset(FlatMap(f, s))[x] == if f(x) == [] then 0 else multiset(s)[x]
  {
    if s == [] {
    } else {
      assert s == Init(s) + [Last(s)];
      FlatMapCounts(f, Init(s), x);
      assert multiset(s) == multiset(Init(s)) + multiset([Last(s)]);
      assert multiset(FlatMap(f, s)) == multiset(FlatMap(f, Init(s))) + multiset(f(Last(s)));
    }
  }
}
