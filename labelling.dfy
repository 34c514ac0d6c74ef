/** The density clustering is a library call; the model takes its result as
    input: one integer label per point, -1 marking noise, together with the
    order in which `for label in set(labels)` visits the distinct labels. */
module Labelling {

  import opened Collections

  const Noise: int := -1

  /** order enumerates `set(labels)`: each label exactly once. */
  ghost predicate IsSetOrder(order: seq<int>, labels: seq<int>)
  {
    Distinct(order) && forall l :: l in order <==> l in labels
  }

  /** The labels the post-processing visits: the set order without noise. */
  function Visited(order: seq<int>): (r: seq<int>)
    ensures forall l :: l in r <==> l in order && l != Noise
    ensures Distinct(order) ==> Distinct(r)
  {
    if |order| == 0 then []
    else
      var front := order[..|order| - 1];
      var last := order[|order| - 1];
      assert Distinct(order) ==> Distinct(front) && last !in front;
      assert forall l :: l in order <==> l in front || l == last;
      Visited(front) + (if last == Noise then [] else [last])
  }

  /** `[items[i] for i in range(len(items)) if labels[i] == l]`. */
  function Select<T>(items: seq<T>, labels: seq<int>, l: int): (r: seq<T>)
    requires |items| == |labels|
    ensures |r| <= |items|
  {
    if |items| == 0 then []
    else (if labels[0] == l then [items[0]] else []) + Select(items[1..], labels[1..], l)
  }

  /** An item is selected exactly when it sits at a position carrying l. */
  lemma {:induction false} SelectMember<T>(items: seq<T>, labels: seq<int>, l: int, x: T)
    requires |items| == |labels|
    ensures x in Select(items, labels, l) <==> exists i :: 0 <= i < |items| && labels[i] == l && items[i] == x
  {
    if |items| > 0 {
      SelectMember(items[1..], labels[1..], l, x);
      if x in Select(items[1..], labels[1..], l) {
        var i :| 0 <= i < |items[1..]| && labels[1..][i] == l && items[1..][i] == x;
        assert labels[i + 1] == l && items[i + 1] == x;
      }
      if exists i :: 0 <= i < |items| && labels[i] == l && items[i] == x {
        var i :| 0 <= i < |items| && labels[i] == l && items[i] == x;
        if i > 0 {
          assert labels[1..][i - 1] == l && items[1..][i - 1] == x;
        }
      }
    }
  }

  /** A label that occurs selects a non-empty group. */
  lemma SelectNonEmpty<T>(items: seq<T>, labels: seq<int>, l: int)
    requires |items| == |labels| && l in labels
    ensures |Select(items, labels, l)| > 0
  {
    var i :| 0 <= i < |labels| && labels[i] == l;
    SelectMember(items, labels, l, items[i]);
  }

  /** `[items[i] for i ... if labels[i] in ls]`. */
  function SelectAny<T>(items: seq<T>, labels: seq<int>, ls: set<int>): seq<T>
    requires |items| == |labels|
  {
    if |items| == 0 then []
    else (if labels[0] in ls then [items[0]] else []) + SelectAny(items[1..], labels[1..], ls)
  }

  /** The union of the groups of the labels in ls, counted with multiplicity. */
  ghost function Groups<T>(items: seq<T>, labels: seq<int>, ls: seq<int>): multiset<T>
    requires |items| == |labels|
  {
    if |ls| == 0 then multiset{} else multiset(Select(items, labels, ls[0])) + Groups(items, labels, ls[1..])
  }

  lemma {:induction false} SelectAnyAdd<T>(items: seq<T>, labels: seq<int>, l: int, ls: set<int>)
    requires |items| == |labels| && l !in ls
    ensures multiset(Select(items, labels, l)) + multiset(SelectAny(items, labels, ls))
         == multiset(SelectAny(items, labels, {l} + ls))
  {
    if |items| > 0 {
      SelectAnyAdd(items[1..], labels[1..], l, ls);
    }
  }

  lemma {:induction false} GroupsDisjoint<T>(items: seq<T>, labels: seq<int>, ls: seq<int>)
    requires |items| == |labels| && Distinct(ls)
    ensures Groups(items, labels, ls) == multiset(SelectAny(items, labels, set l | l in ls))
  {
    if |ls| == 0 {
      assert (set l | l in ls) == {};
      EmptySelectAny(items, labels);
    } else {
      GroupsDisjoint(items, labels, ls[1..]);
      assert (set l | l in ls) == {ls[0]} + (set l | l in ls[1..]);
      SelectAnyAdd(items, labels, ls[0], set l | l in ls[1..]);
    }
  }

  lemma {:induction false} EmptySelectAny<T>(items: seq<T>, labels: seq<int>)
    requires |items| == |labels|
    ensures SelectAny(items, labels, {}) == []
  {
    if |items| > 0 {
      EmptySelectAny(items[1..], labels[1..]);
    }
  }

  lemma {:induction false} SelectAnySame<T>(items: seq<T>, labels: seq<int>, ls: set<int>, ms: set<int>)
    requires |items| == |labels|
    requires forall i :: 0 <= i < |labels| ==> (labels[i] in ls <==> labels[i] in ms)
    ensures SelectAny(items, labels, ls) == SelectAny(items, labels, ms)
  {
    if |items| > 0 {
      SelectAnySame(items[1..], labels[1..], ls, ms);
    }
  }

  /** The post-processing partitions the non-noise items: over all visited
      labels every non-noise item is in exactly one group, noise in none. */
  lemma Partition<T>(items: seq<T>, labels: seq<int>, order: seq<int>)
    requires |items| == |labels| && IsSetOrder(order, labels)
    ensures Groups(items, labels, Visited(order)) == multiset(SelectAny(items, labels, set l | l in labels && l != Noise))
  {
    GroupsDisjoint(items, labels, Visited(order));
    SelectAnySame(items, labels, set l | l in Visited(order), set l | l in labels && l != Noise);
  }
}
