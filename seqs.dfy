/** Sequence helpers shared by the import and export models. */
module Seqs {

  /** No element occurs twice. */
  predicate NoDuplicates<T(==)>(s: seq<T>) {
    forall i, j :: 0 <= i < j < |s| ==> s[i] != s[j]
  }

  /** The position of the first occurrence of `x` in `s`. */
  function FirstIndex<T(==)>(s: seq<T>, x: T): (i: nat)
    requires x in s
    ensures i < |s| && s[i] == x
    ensures forall j :: 0 <= j < i ==> s[j] != x
  {
    if s[0] == x then 0 else 1 + FirstIndex(s[1..], x)
  }

  /** The elements of `xs` that are not in `known`, each kept once, at its first
      occurrence: what Python's `dict.fromkeys` keeps of a list, and what a loop
      `for x in xs: if x not in known: known.append(x)` adds. */
  function Unseen<T(==, !new)>(xs: seq<T>, known: set<T>): (r: seq<T>)
    ensures NoDuplicates(r)
    ensures forall x :: x in r <==> x in xs && x !in known
    ensures |r| <= |xs|
  {
    if xs == [] then []
    else
      var prev := Unseen(xs[..|xs| - 1], known);
      var x := xs[|xs| - 1];
      assert forall y :: y in xs <==> y in xs[..|xs| - 1] || y == x;
      if x in known || x in prev then prev else prev + [x]
  }

  /** Nothing is new when every element is already known. */
  lemma {:induction false} UnseenKnown<T(!new)>(xs: seq<T>, known: set<T>)
    requires forall x :: x in xs ==> x in known
    ensures Unseen(xs, known) == []
  {
    if xs != [] {
      var init := xs[..|xs| - 1];
      assert forall y :: y in init ==> y in xs;
      UnseenKnown(init, known);
    }
  }

  /** `Unseen` keeps the order of first occurrence in `xs`. */
  lemma {:induction false} UnseenOrder<T(!new)>(xs: seq<T>, known: set<T>, i: nat, j: nat)
    requires i < j < |Unseen(xs, known)|
    ensures FirstIndex(xs, Unseen(xs, known)[i]) < FirstIndex(xs, Unseen(xs, known)[j])
  {
    var r := Unseen(xs, known);
    var init := xs[..|xs| - 1];
    var prev := Unseen(init, known);
    var x := xs[|xs| - 1];
    assert xs == init + [x];
    if x in known || x in prev {
      UnseenOrder(init, known, i, j);
      FirstIndexPrefix(init, x, r[i]);
      FirstIndexPrefix(init, x, r[j]);
    } else if j < |prev| {
      UnseenOrder(init, known, i, j);
      FirstIndexPrefix(init, x, r[i]);
      FirstIndexPrefix(init, x, r[j]);
    } else {
      assert r[j] == x && x !in init;
      FirstIndexPrefix(init, x, r[i]);
      assert FirstIndex(xs, r[i]) < |init|;
      assert FirstIndex(xs, x) == |init| by {
        forall k | 0 <= k < |init| ensures xs[k] != x { assert xs[k] == init[k]; }
      }
    }
  }

  lemma FirstIndexPrefix<T>(init: seq<T>, x: T, y: T)
    requires y in init
    ensures FirstIndex(init + [x], y) == FirstIndex(init, y)
  {
    if init[0] != y {
      assert (init + [x])[1..] == init[1..] + [x];
      FirstIndexPrefix(init[1..], x, y);
    }
  }

  /** Appending an element moves no first occurrence of an element already present. */
  lemma FirstIndexAppend<T(!new)>(s: seq<T>, x: T)
    ensures forall y :: y in s ==> FirstIndex(s + [x], y) == FirstIndex(s, y)
  {
    forall y | y in s ensures FirstIndex(s + [x], y) == FirstIndex(s, y) {
      FirstIndexPrefix(s, x, y);
    }
  }

  /** Extending a prefix by one element, after some leading elements. */
  lemma TakeSnoc<T>(a: seq<T>, s: seq<T>, i: nat)
    requires i < |s|
    ensures a + s[..i + 1] == (a + s[..i]) + [s[i]]
  {
    assert s[..i + 1] == s[..i] + [s[i]];
  }

  /** Concatenation of a sequence of sequences. */
  function Flatten<T>(ss: seq<seq<T>>): (r: seq<T>)
  {
    if ss == [] then [] else ss[0] + Flatten(ss[1..])
  }

  lemma {:induction false} FlattenAppend<T>(ss: seq<seq<T>>, s: seq<T>)
    ensures Flatten(ss + [s]) == Flatten(ss) + s
  {
    if ss != [] {
      assert (ss + [s])[1..] == ss[1..] + [s];
      FlattenAppend(ss[1..], s);
    }
  }

  /** Concatenation regroups. */
  lemma ConcatAssoc<T>(a: seq<T>, b: seq<T>, c: seq<T>)
    ensures a + b + c == a + (b + c)
  {
  }

  /** `n` empty cells: Python's `[""] * n`. */
  function Blanks(n: nat): (r: seq<string>)
    ensures |r| == n && forall i :: 0 <= i < n ==> r[i] == ""
  {
    seq(n, _ => "")
  }
}
