/** Loops that keep a result for some of the items they meet. */
module Selecting {
  import opened Bytes

  /** `kept` is what `f` gives for exactly those items for which it gives something, in their order;
      `from` says which item each result comes from. */
  ghost predicate Keeps<T, U>(items: seq<T>, f: T -> Option<U>, kept: seq<U>, from: seq<nat>) {
    && |from| == |kept|
    && (forall i | 0 <= i < |from| :: from[i] < |items| && f(items[from[i]]) == Some(kept[i]))
    && (forall i, k | 0 <= i < k < |from| :: from[i] < from[k])
    && (forall n | 0 <= n < |items| && f(items[n]).Some? :: n in from)
  }

  lemma KeepsMore<T, U>(items: seq<T>, f: T -> Option<U>, kept: seq<U>, from: seq<nat>, item: T)
    requires Keeps(items, f, kept, from)
    ensures f(item).None? ==> Keeps(items + [item], f, kept, from)
    ensures f(item).Some? ==> Keeps(items + [item], f, kept + [f(item).value], from + [|items|])
  {
  }

  /** What `f` gives for the items it gives something for. */
  function Collect<T, U>(items: seq<T>, f: T -> Option<U>): seq<U> {
    if items == [] then []
    else
      var before, last := Collect(items[..|items| - 1], f), f(items[|items| - 1]);
      if last.Some? then before + [last.value] else before
  }

  /** The loop has dealt with the first `i` items. */
  ghost predicate CollectedTo<T, U>(items: seq<T>, f: T -> Option<U>, i: nat, kept: seq<U>, from: seq<nat>) {
    i <= |items| && kept == Collect(items[..i], f) && Keeps(items[..i], f, kept, from)
  }

  lemma CollectOne<T, U>(items: seq<T>, f: T -> Option<U>, i: nat, kept: seq<U>, from: seq<nat>, r: Option<U>)
    requires i < |items| && CollectedTo(items, f, i, kept, from) && r == f(items[i])
    ensures if r.None? then CollectedTo(items, f, i + 1, kept, from)
            else CollectedTo(items, f, i + 1, kept + [r.value], from + [i])
  {
    assert items[..i + 1][..i] == items[..i];
    assert items[..i] + [items[i]] == items[..i + 1];
    KeepsMore(items[..i], f, kept, from, items[i]);
  }

  lemma {:induction false} CollectKeeps<T, U>(items: seq<T>, f: T -> Option<U>) returns (from: seq<nat>)
    ensures Keeps(items, f, Collect(items, f), from)
  {
    from := [];
    if items != [] {
      var n := |items| - 1;
      from := CollectKeeps(items[..n], f);
      KeepsMore(items[..n], f, Collect(items[..n], f), from, items[n]);
      assert items == items[..n] + [items[n]];
      from := if f(items[n]).Some? then from + [n] else from;
    }
  }

  lemma CollectAll<T, U>(items: seq<T>, f: T -> Option<U>, kept: seq<U>, from: seq<nat>)
    requires CollectedTo(items, f, |items|, kept, from)
    ensures kept == Collect(items, f) && Keeps(items, f, kept, from)
  {
    assert items[..|items|] == items;
  }
}
