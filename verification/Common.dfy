/** Definitions shared by the models: optional values and order-preserving filters. */
module Common {

  datatype Option<+T> = None | Some(value: T)

  /** The elements of `s` that satisfy `keep`, in order. */
  function Filter<T>(s: seq<T>, keep: T -> bool): seq<T> {
    if s == [] then []
    else
      var rest := Filter(s[..|s| - 1], keep);
      if keep(s[|s| - 1]) then rest + [s[|s| - 1]] else rest
  }

  lemma {:induction false} FilterMembers<T>(s: seq<T>, keep: T -> bool, x: T)
    ensures x in Filter(s, keep) <==> x in s && keep(x)
  {
    if s != [] {
      assert s == s[..|s| - 1] + [s[|s| - 1]];
      FilterMembers(s[..|s| - 1], keep, x);
    }
  }

  lemma {:induction false} FilterConcat<T>(a: seq<T>, b: seq<T>, keep: T -> bool)
    ensures Filter(a + b, keep) == Filter(a, keep) + Filter(b, keep)
  {
    if b == [] {
      assert a + b == a;
    } else {
      var last := |b| - 1;
      assert (a + b)[..|a| + last] == a + b[..last];
      FilterConcat(a, b[..last], keep);
    }
  }

  /** Dropping one element that the filter rejects does not change what it keeps. */
  lemma FilterSkips<T>(a: seq<T>, x: T, b: seq<T>, keep: T -> bool)
    requires !keep(x)
    ensures Filter(a + [x] + b, keep) == Filter(a + b, keep)
  {
    FilterConcat(a + [x], b, keep);
    FilterConcat(a, [x], keep);
    FilterConcat(a, b, keep);
    assert Filter([x], keep) == [];
  }

  function Elements<T>(s: seq<T>): set<T> {
    set x | x in s
  }

  predicate AnyIn<T>(s: seq<T>, hit: T -> bool) {
    exists i :: 0 <= i < |s| && hit(s[i])
  }

  /** `s` without its first element that satisfies `hit`. */
  function RemoveFirst<T>(s: seq<T>, hit: T -> bool): seq<T> {
    if s == [] then []
    else if hit(s[0]) then s[1..]
    else [s[0]] + RemoveFirst(s[1..], hit)
  }

  lemma AnyInTail<T>(s: seq<T>, hit: T -> bool)
    requires AnyIn(s, hit) && !hit(s[0])
    ensures AnyIn(s[1..], hit)
  {
    var i :| 0 <= i < |s| && hit(s[i]);
    assert s[1..][i - 1] == s[i];
  }

  lemma SplitAgain<T>(s: seq<T>, j: nat)
    requires s != [] && j < |s| - 1
    ensures s[..j + 1] + s[j + 2..] == [s[0]] + (s[1..][..j] + s[1..][j + 1..])
  {
  }

  lemma {:induction false} RemoveFirstSplits<T>(s: seq<T>, hit: T -> bool) returns (k: nat)
    requires AnyIn(s, hit)
    ensures k < |s| && hit(s[k])
    ensures RemoveFirst(s, hit) == s[..k] + s[k + 1..]
    ensures forall j :: 0 <= j < k ==> !hit(s[j])
  {
    if hit(s[0]) {
      k := 0;
    } else {
      AnyInTail(s, hit);
      var rest := s[1..];
      var j := RemoveFirstSplits(rest, hit);
      k := j + 1;
      SplitAgain(s, j);
      assert forall m :: 1 <= m < k ==> s[m] == rest[m - 1];
    }
  }

  /** When `hit` only selects rejected elements, the first one selected in kept + [x] + rest is x. */
  lemma RemoveFirstHead<T>(kept: seq<T>, x: T, rest: seq<T>, hit: T -> bool)
    requires hit(x) && forall i :: 0 <= i < |kept| ==> !hit(kept[i])
    ensures AnyIn(kept + [x] + rest, hit) && RemoveFirst(kept + [x] + rest, hit) == kept + rest
  {
    var s := kept + [x] + rest;
    assert s[|kept|] == x;
    var k := RemoveFirstSplits(s, hit);
    assert k == |kept| by {
      assert forall i :: 0 <= i < |kept| ==> s[i] == kept[i];
    }
    assert s[..k] == kept && s[k + 1..] == rest;
  }

  lemma Member<T>(s: set<T>) returns (x: T)
    requires s != {}
    ensures x in s
  {
    x :| x in s;
  }

  lemma {:induction false} SubsetSize<T>(a: set<T>, b: set<T>)
    requires a <= b
    ensures |a| <= |b|
  {
    if a != {} {
      var x := Member(a);
      SubsetSize(a - {x}, b - {x});
    }
  }

  /** A non-empty finite set has an element with the least key. */
  lemma {:induction false} Least<T>(s: set<T>, key: T -> int) returns (least: T)
    requires s != {}
    ensures least in s && forall b :: b in s ==> key(least) <= key(b)
    decreases |s|
  {
    least := Member(s);
    if s != {least} {
      var a := Least(s - {least}, key);
      assert forall b :: b in s ==> b == least || b in s - {least};
      least := if key(least) < key(a) then least else a;
    }
  }
}
