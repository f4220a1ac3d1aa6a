/** `Array.prototype.filter` and `Array.prototype.find` on sequences, with
    the facts the pages rely on: a filter keeps exactly the elements that
    pass, in their original order, and a find returns the first that passes. */
module Seqs {
  import opened Types

  /** `s.filter(f)`. */
  function Filter<T>(s: seq<T>, f: T -> bool): (r: seq<T>)
    ensures |r| <= |s|
    ensures forall i :: 0 <= i < |r| ==> f(r[i]) && r[i] in s
  {
    if s == [] then [] else (if f(s[0]) then [s[0]] else []) + Filter(s[1..], f)
  }

  /** `s.find(f)`: the first element that passes, if any. */
  function Find<T>(s: seq<T>, f: T -> bool): (r: Option<T>)
    ensures r.None? <==> forall i :: 0 <= i < |s| ==> !f(s[i])
    ensures r.Some? ==> exists i :: 0 <= i < |s| && s[i] == r.value && f(s[i])
                                    && forall j :: 0 <= j < i ==> !f(s[j])
  {
    if s == [] then None
    else if f(s[0]) then Some(s[0])
    else
      var r := Find(s[1..], f);
      FindTail(s, s[1..], f, r);
      r
  }

  /** A first passing element of the tail is a first passing element of the
      whole sequence when the head does not pass. */
  lemma FindTail<T>(s: seq<T>, t: seq<T>, f: T -> bool, r: Option<T>)
    requires s != [] && t == s[1..] && !f(s[0])
    requires r.Some? ==> exists i :: 0 <= i < |t| && t[i] == r.value && f(t[i])
                                     && forall j :: 0 <= j < i ==> !f(t[j])
    ensures r.Some? ==> exists i :: 0 <= i < |s| && s[i] == r.value && f(s[i])
                                    && forall j :: 0 <= j < i ==> !f(s[j])
  {
    if r.Some? {
      var i :| 0 <= i < |t| && t[i] == r.value && f(t[i])
               && forall j :: 0 <= j < i ==> !f(t[j]);
      assert s[i + 1] == t[i];
      forall j | 0 <= j < i + 1 ensures !f(s[j]) {
        if j > 0 { assert s[j] == t[j - 1]; }
      }
    }
  }

  /** `a` is obtained from `b` by deleting elements: order is kept. */
  predicate IsSubsequence<T(==)>(a: seq<T>, b: seq<T>)
    decreases |b|
  {
    a == [] || (b != [] && ((a[0] == b[0] && IsSubsequence(a[1..], b[1..])) || IsSubsequence(a, b[1..])))
  }

  lemma {:induction false} SubsequenceReflexive<T>(s: seq<T>)
    ensures IsSubsequence(s, s)
  {
    if s != [] { SubsequenceReflexive(s[1..]); }
  }

  lemma {:induction false} SubsequenceTransitive<T>(a: seq<T>, b: seq<T>, c: seq<T>)
    requires IsSubsequence(a, b) && IsSubsequence(b, c)
    ensures IsSubsequence(a, c)
    decreases |c|
  {
    if a != [] {
      if b[0] == c[0] && IsSubsequence(b[1..], c[1..]) {
        if a[0] == b[0] && IsSubsequence(a[1..], b[1..]) {
          SubsequenceTransitive(a[1..], b[1..], c[1..]);
        } else {
          SubsequenceTransitive(a, b[1..], c[1..]);
        }
      } else {
        SubsequenceTransitive(a, b, c[1..]);
      }
    }
  }

  /** A filter result is a subsequence of its input. */
  lemma {:induction false} FilterIsSubsequence<T>(s: seq<T>, f: T -> bool)
    ensures IsSubsequence(Filter(s, f), s)
  {
    if s != [] {
      FilterIsSubsequence(s[1..], f);
      FilterHead(s, f);
    }
  }

  /** An element is kept by a filter exactly when it occurs in the input and passes. */
  lemma {:induction false} FilterMembership<T>(s: seq<T>, f: T -> bool, x: T)
    ensures x in Filter(s, f) <==> x in s && f(x)
  {
    if s != [] {
      FilterMembership(s[1..], f, x);
      assert s == [s[0]] + s[1..];
    }
  }

  /** A filter keeps every occurrence of a passing element and none of a failing one. */
  lemma {:induction false} FilterMultiplicity<T>(s: seq<T>, f: T -> bool, x: T)
    ensures multiset(Filter(s, f))[x] == if f(x) then multiset(s)[x] else 0
  {
    if s != [] {
      FilterMultiplicity(s[1..], f, x);
      assert s == [s[0]] + s[1..];
    }
  }

  /** Filtering by a predicate every element passes changes nothing. */
  lemma {:induction false} FilterAllPass<T>(s: seq<T>, f: T -> bool)
    requires forall i :: 0 <= i < |s| ==> f(s[i])
    ensures Filter(s, f) == s
  {
    if s != [] {
      FilterAllPass(s[1..], f);
      assert s == [s[0]] + s[1..];
    }
  }

  /** The first element a filter keeps is the first element that passes. */
  lemma {:induction false} FilterFirst<T>(s: seq<T>, f: T -> bool, i: nat)
    requires i < |s| && f(s[i])
    requires forall j :: 0 <= j < i ==> !f(s[j])
    ensures Filter(s, f) != [] && Filter(s, f)[0] == s[i]
  {
    FilterHead(s, f);
    if i > 0 {
      var t := s[1..];
      forall j | 0 <= j < i - 1
        ensures !f(t[j])
      {
        assert t[j] == s[j + 1];
      }
      FilterFirst(t, f, i - 1);
    }
  }

  /** Filtering by a predicate no element passes leaves nothing. */
  lemma {:induction false} FilterNonePass<T>(s: seq<T>, f: T -> bool)
    requires forall i :: 0 <= i < |s| ==> !f(s[i])
    ensures Filter(s, f) == []
  {
    if s != [] {
      FilterNonePass(s[1..], f);
    }
  }

  /** Filters by two predicates that agree on the input give the same result. */
  lemma {:induction false} FilterCongruent<T>(s: seq<T>, f: T -> bool, g: T -> bool)
    requires forall i :: 0 <= i < |s| ==> f(s[i]) == g(s[i])
    ensures Filter(s, f) == Filter(s, g)
  {
    if s != [] {
      FilterCongruent(s[1..], f, g);
    }
  }

  /** Two filters applied one after the other commute. */
  lemma {:induction false} FilterCommute<T>(s: seq<T>, f: T -> bool, g: T -> bool)
    ensures Filter(Filter(s, f), g) == Filter(Filter(s, g), f)
  {
    if s != [] {
      FilterCommute(s[1..], f, g);
      FilterHead(s, f);
      FilterHead(s, g);
      var fs := Filter(s, f);
      var gs := Filter(s, g);
      if f(s[0]) { FilterHead(fs, g); }
      if g(s[0]) { FilterHead(gs, f); }
    }
  }

  /** One step of a filter: the head is kept or dropped, then the tail is filtered. */
  lemma FilterHead<T>(s: seq<T>, f: T -> bool)
    requires s != []
    ensures Filter(s, f) == if f(s[0]) then [s[0]] + Filter(s[1..], f) else Filter(s[1..], f)
    ensures f(s[0]) ==> Filter(s, f) != [] && Filter(s, f)[0] == s[0] && Filter(s, f)[1..] == Filter(s[1..], f)
  {
  }
}
