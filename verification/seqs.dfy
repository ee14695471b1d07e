/** Generic sequence helpers: filtering, counting, flattening, duplicate-freedom. */
module Seqs {
  import opened Wrappers

  /** `[x for x in xs if p(x)]`: the elements satisfying `p`, in their original order. */
  function Filter<T(!new)>(p: T -> bool, xs: seq<T>): (r: seq<T>)
    ensures |r| <= |xs|
    ensures forall i :: 0 <= i < |r| ==> p(r[i])
  {
    if |xs| == 0 then []
    else (if p(xs[0]) then [xs[0]] else []) + Filter(p, xs[1..])
  }

  /** Filtering keeps exactly the elements that pass. */
  lemma {:induction false} FilterMembers<T(!new)>(p: T -> bool, xs: seq<T>)
    ensures forall x :: x in Filter(p, xs) <==> x in xs && p(x)
  {
    if |xs| > 0 {
      FilterMembers(p, xs[1..]);
      assert xs == [xs[0]] + xs[1..];
    }
  }

  /** Filtering a sequence whose elements all pass keeps it whole. */
  lemma {:induction false} FilterAll<T(!new)>(p: T -> bool, xs: seq<T>)
    requires forall i :: 0 <= i < |xs| ==> p(xs[i])
    ensures Filter(p, xs) == xs
  {
    if |xs| > 0 {
      FilterAll(p, xs[1..]);
    }
  }

  /** Filtering a sequence none of whose elements pass leaves nothing. */
  lemma {:induction false} FilterNone<T(!new)>(p: T -> bool, xs: seq<T>)
    requires forall i :: 0 <= i < |xs| ==> !p(xs[i])
    ensures Filter(p, xs) == []
  {
    if |xs| > 0 {
      FilterNone(p, xs[1..]);
    }
  }

  /** Filtering distributes over concatenation, so it keeps relative order. */
  lemma {:induction false} FilterAppend<T(!new)>(p: T -> bool, xs: seq<T>, ys: seq<T>)
    ensures Filter(p, xs + ys) == Filter(p, xs) + Filter(p, ys)
  {
    if |xs| == 0 {
      assert xs + ys == ys;
    } else {
      assert (xs + ys)[0] == xs[0];
      assert (xs + ys)[1..] == xs[1..] + ys;
      FilterAppend(p, xs[1..], ys);
    }
  }

  /** `len([x for x in xs if p(x)])` */
  function Count<T(!new)>(p: T -> bool, xs: seq<T>): nat {
    |Filter(p, xs)|
  }

  /** Counts add up over concatenation. */
  lemma CountAppend<T(!new)>(p: T -> bool, xs: seq<T>, ys: seq<T>)
    ensures Count(p, xs + ys) == Count(p, xs) + Count(p, ys)
  {
    FilterAppend(p, xs, ys);
  }

  /** Appending one element adds one to the count exactly when it passes. */
  lemma {:induction false} CountSnoc<T(!new)>(p: T -> bool, xs: seq<T>, x: T)
    ensures Count(p, xs + [x]) == Count(p, xs) + (if p(x) then 1 else 0)
  {
    FilterAppend(p, xs, [x]);
    assert Filter(p, [x]) == (if p(x) then [x] else []) by {
      assert [x][1..] == [];
    }
  }

  /** Every element is counted either by `p` or by its negation, never both. */
  lemma {:induction false} CountComplement<T(!new)>(p: T -> bool, q: T -> bool, xs: seq<T>)
    requires forall x :: q(x) <==> !p(x)
    ensures Count(p, xs) + Count(q, xs) == |xs|
  {
    if |xs| > 0 {
      CountComplement(p, q, xs[1..]);
    }
  }

  /** Counts of two predicates that never hold together add up to the count of their disjunction. */
  lemma {:induction false} CountDisjoint<T(!new)>(p: T -> bool, q: T -> bool, pq: T -> bool, xs: seq<T>)
    requires forall x :: !(p(x) && q(x))
    requires forall x :: pq(x) <==> p(x) || q(x)
    ensures Count(p, xs) + Count(q, xs) == Count(pq, xs)
  {
    if |xs| > 0 {
      CountDisjoint(p, q, pq, xs[1..]);
    }
  }

  /** Concatenation of a sequence of sequences. */
  function Flatten<T(!new)>(xss: seq<seq<T>>): (r: seq<T>)
    ensures forall x :: x in r <==> exists i :: 0 <= i < |xss| && x in xss[i]
  {
    if |xss| == 0 then [] else xss[0] + Flatten(xss[1..])
  }

  lemma {:induction false} FlattenAppend<T(!new)>(xss: seq<seq<T>>, yss: seq<seq<T>>)
    ensures Flatten(xss + yss) == Flatten(xss) + Flatten(yss)
  {
    if |xss| == 0 {
      assert xss + yss == yss;
    } else {
      assert (xss + yss)[0] == xss[0];
      assert (xss + yss)[1..] == xss[1..] + yss;
      FlattenAppend(xss[1..], yss);
    }
  }

  /** No element occurs twice. */
  predicate NoDup<T(==)>(xs: seq<T>) {
    forall i, j :: 0 <= i < j < |xs| ==> xs[i] != xs[j]
  }

  /** The index of the first element satisfying `p`, if there is one. */
  function FirstWhere<T>(p: T -> bool, xs: seq<T>): (r: Option<nat>)
    ensures r.Some? ==> r.value < |xs| && p(xs[r.value])
    ensures r.Some? ==> forall j :: 0 <= j < r.value ==> !p(xs[j])
    ensures r.None? <==> forall j :: 0 <= j < |xs| ==> !p(xs[j])
  {
    if |xs| == 0 then None
    else if p(xs[0]) then Some(0)
    else
      match FirstWhere(p, xs[1..])
      case None => None
      case Some(k) => Some(k + 1)
  }
}
