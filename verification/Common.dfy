/** Value types shared by the models. */
module Common {

  datatype Option<+T> = None | Some(value: T)

  datatype Result<+T> = Ok(value: T) | Err

  /** The elements of s that satisfy p, in order. */
  function Filter<T>(s: seq<T>, p: T -> bool): seq<T> {
    if s == [] then [] else (if p(s[0]) then [s[0]] else []) + Filter(s[1..], p)
  }

  /** done followed by rest is all: what a loop that moves elements from rest to done keeps. */
  ghost predicate Joins<T>(done: seq<T>, rest: seq<T>, all: seq<T>) {
    done + rest == all
  }

  lemma JoinsStart<T>(all: seq<T>)
    ensures Joins([], all, all)
  {
  }

  lemma JoinsMove<T>(done: seq<T>, rest: seq<T>, all: seq<T>)
    requires Joins(done, rest, all) && rest != []
    ensures Joins(done + [rest[0]], rest[1..], all)
  {
  }

  lemma JoinsEnd<T>(done: seq<T>, all: seq<T>)
    requires Joins(done, [], all)
    ensures done == all
  {
  }

  lemma Smaller<T>(a: set<T>, b: set<T>)
    requires a <= b
    ensures |a| <= |b|
  {
    assert b == a + (b - a);
  }

  /** Ascending lists of the same numbers are the same list. */
  lemma {:induction false} SameAscending(a: seq<nat>, b: seq<nat>)
    requires forall i, j :: 0 <= i < j < |a| ==> a[i] < a[j]
    requires forall i, j :: 0 <= i < j < |b| ==> b[i] < b[j]
    requires forall x :: x in a <==> x in b
    ensures a == b
  {
    assert a != [] ==> a[0] in a && a[0] in b;
    assert b != [] ==> b[0] in b && b[0] in a;
    if a != [] {
      assert a[0] == b[0];
      forall x ensures x in a[1..] <==> x in b[1..] {
        assert x in a <==> x == a[0] || x in a[1..];
        assert x in b <==> x == b[0] || x in b[1..];
        assert a[0] !in a[1..] && b[0] !in b[1..];
      }
      SameAscending(a[1..], b[1..]);
    }
  }

  function RemoveAt<T>(s: seq<T>, p: nat): seq<T>
    requires p < |s|
  {
    s[..p] + s[p + 1..]
  }

  lemma RemoveAtIs<T>(s: seq<T>, p: nat)
    requires p < |s|
    ensures |RemoveAt(s, p)| == |s| - 1
  {
  }

  lemma RemovedAt<T>(s: seq<T>, p: nat, i: nat)
    requires p < |s| && i < |RemoveAt(s, p)|
    ensures |RemoveAt(s, p)| == |s| - 1 && RemoveAt(s, p)[i] == if i < p then s[i] else s[i + 1]
  {
  }
}
