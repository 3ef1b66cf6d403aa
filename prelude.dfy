/** Small general-purpose definitions shared by the rest of the model:
    an Option type, filtering and flattening of sequences, and the facts
    about them that the section-level proofs need. */
module Prelude {

  datatype Option<T> = None | Some(value: T)

  /** The elements of `s` for which `keep` holds, in their original order. */
  function Filter<T>(s: seq<T>, keep: T -> bool): (r: seq<T>)
    ensures |r| <= |s|
    ensures forall x :: x in r ==> x in s && keep(x)
    decreases |s|
  {
    if s == [] then []
    else (if keep(s[0]) then [s[0]] else []) + Filter(s[1..], keep)
  }

  /** Nothing that `keep` accepts is dropped. */
  lemma {:induction false} FilterComplete<T>(s: seq<T>, keep: T -> bool)
    ensures forall x :: x in s && keep(x) ==> x in Filter(s, keep)
    decreases |s|
  {
    if s != [] {
      FilterComplete(s[1..], keep);
      assert forall x :: x in s ==> x == s[0] || x in s[1..];
    }
  }

  lemma {:induction false} FilterAppend<T>(a: seq<T>, b: seq<T>, keep: T -> bool)
    ensures Filter(a + b, keep) == Filter(a, keep) + Filter(b, keep)
    decreases |a|
  {
    if a == [] {
      assert a + b == b;
    } else {
      assert (a + b)[0] == a[0];
      assert (a + b)[1..] == a[1..] + b;
      FilterAppend(a[1..], b, keep);
    }
  }

  lemma {:induction false} FilterNone<T>(s: seq<T>, keep: T -> bool)
    requires forall k :: 0 <= k < |s| ==> !keep(s[k])
    ensures Filter(s, keep) == []
    decreases |s|
  {
    if s != [] {
      FilterNone(s[1..], keep);
    }
  }

  lemma {:induction false} FilterAll<T>(s: seq<T>, keep: T -> bool)
    requires forall k :: 0 <= k < |s| ==> keep(s[k])
    ensures Filter(s, keep) == s
    decreases |s|
  {
    if s != [] {
      FilterAll(s[1..], keep);
      assert [s[0]] + s[1..] == s;
    }
  }

  lemma FilterSingle<T>(x: T, keep: T -> bool)
    ensures Filter([x], keep) == if keep(x) then [x] else []
  {
    assert [x][1..] == [];
  }

  /** Filtering a slice one element further: the step every scan proof uses. */
  lemma FilterSliceStep<T>(s: seq<T>, lo: nat, hi: nat, keep: T -> bool)
    requires lo < hi <= |s|
    ensures Filter(s[lo..hi], keep) == (if keep(s[lo]) then [s[lo]] else []) + Filter(s[lo + 1..hi], keep)
  {
    assert s[lo..hi][0] == s[lo];
    assert s[lo..hi][1..] == s[lo + 1..hi];
  }

  /** Regrouping a concatenation, for proofs whose context makes the
      solver slow to find it. */
  lemma AppendAssoc3<T>(a: seq<T>, b: seq<T>, c: seq<T>)
    ensures a + (b + c) == a + b + c
  {
  }

  lemma AppendAssoc<T>(a: seq<T>, b: seq<T>, c: seq<T>, d: seq<T>)
    ensures a + (b + c + d) == a + b + c + d
  {
  }

  /** The concatenation of a sequence of sequences. */
  function Flatten<T>(ss: seq<seq<T>>): seq<T>
    decreases |ss|
  {
    if ss == [] then [] else ss[0] + Flatten(ss[1..])
  }

  lemma {:induction false} FlattenAppend<T>(a: seq<seq<T>>, b: seq<seq<T>>)
    ensures Flatten(a + b) == Flatten(a) + Flatten(b)
    decreases |a|
  {
    if a == [] {
      assert a + b == b;
    } else {
      assert (a + b)[0] == a[0];
      assert (a + b)[1..] == a[1..] + b;
      FlattenAppend(a[1..], b);
    }
  }

  /** `[x for x in xs if number(x) == n][0]`, or `None` when that list is
      empty: the first item numbered `n`. */
  function FirstNumbered<T>(xs: seq<T>, number: T -> nat, n: nat): (r: Option<T>)
    ensures r.Some? ==> r.value in xs && number(r.value) == n
    ensures r.None? ==> forall k :: 0 <= k < |xs| ==> number(xs[k]) != n
    decreases |xs|
  {
    if xs == [] then None
    else if number(xs[0]) == n then Some(xs[0])
    else FirstNumbered(xs[1..], number, n)
  }

  /** The item found is the first numbered `n`: none before it carries that
      number. */
  lemma {:induction false} FirstNumberedIsFirst<T>(xs: seq<T>, number: T -> nat, n: nat, j: nat)
    requires j < |xs| && number(xs[j]) == n
    requires forall k :: 0 <= k < j ==> number(xs[k]) != n
    ensures FirstNumbered(xs, number, n) == Some(xs[j])
    decreases j
  {
    if j > 0 {
      assert number(xs[0]) != n;
      forall k | 0 <= k < j - 1 ensures number(xs[1..][k]) != n {
        assert xs[1..][k] == xs[k + 1];
      }
      FirstNumberedIsFirst(xs[1..], number, n, j - 1);
    }
  }
}
