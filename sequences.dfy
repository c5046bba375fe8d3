/**
  The collection operations the status checker leans on: Ruby's
  `Enumerable#select`, `Array#join` with a separator, and the search for the
  first occurrence of an element. Each is defined once here and characterised
  by lemmas that do not mention its body.
*/
module Sequences {
  import opened Wrappers

  /** `sub` is `s` with some elements deleted: its elements occur in `s` in the same order. */
  predicate Embeds<T(==)>(sub: seq<T>, s: seq<T>)
    decreases |s|
  {
    if sub == [] then true
    else if s == [] then false
    else (sub[0] == s[0] && Embeds(sub[1..], s[1..])) || Embeds(sub, s[1..])
  }

  lemma {:induction false} EmbedsMultiset<T>(sub: seq<T>, s: seq<T>)
    requires Embeds(sub, s)
    ensures multiset(sub) <= multiset(s)
    decreases |s|
  {
    if sub != [] {
      if sub[0] == s[0] && Embeds(sub[1..], s[1..]) {
        EmbedsMultiset(sub[1..], s[1..]);
        assert sub == [sub[0]] + sub[1..];
        assert s == [s[0]] + s[1..];
      } else {
        EmbedsMultiset(sub, s[1..]);
        assert s == [s[0]] + s[1..];
      }
    }
  }

  /** Ruby's `s.select { |x| p(x) }`. */
  function Filter<T>(s: seq<T>, p: T -> bool): (r: seq<T>)
    ensures |r| <= |s|
    ensures forall k :: 0 <= k < |r| ==> p(r[k])
  {
    if s == [] then []
    else if p(s[0]) then [s[0]] + Filter(s[1..], p)
    else Filter(s[1..], p)
  }

  /**
    `Filter` keeps the elements satisfying `p`, each as often as it occurs,
    and no others, in their original order.
  */
  lemma {:induction false} FilterSpec<T(!new)>(s: seq<T>, p: T -> bool)
    ensures forall k :: 0 <= k < |Filter(s, p)| ==> p(Filter(s, p)[k])
    ensures forall x :: multiset(Filter(s, p))[x] == if p(x) then multiset(s)[x] else 0
    ensures Embeds(Filter(s, p), s)
    decreases |s|
  {
    if s != [] {
      var rest := Filter(s[1..], p);
      FilterSpec(s[1..], p);
      assert s == [s[0]] + s[1..];
      if p(s[0]) {
        assert ([s[0]] + rest)[1..] == rest;
      }
    }
  }

  /**
    `Filter` is the only selection that keeps exactly the satisfying elements,
    each as often as it occurs, in their original order.
  */
  lemma {:induction false} FilterUnique<T(!new)>(s: seq<T>, p: T -> bool, r: seq<T>)
    requires forall k :: 0 <= k < |r| ==> p(r[k])
    requires forall x :: p(x) ==> multiset(r)[x] == multiset(s)[x]
    requires Embeds(r, s)
    ensures r == Filter(s, p)
    decreases |s|
  {
    if s == [] {
    } else {
      var e, t := s[0], s[1..];
      assert s == [e] + t;
      if p(e) {
        assert multiset(r)[e] == multiset(t)[e] + 1;
        if !(r[0] == e && Embeds(r[1..], t)) {
          assert Embeds(r, t);
          EmbedsMultiset(r, t);
          assert false;
        }
        assert r == [e] + r[1..];
        forall x | p(x) ensures multiset(r[1..])[x] == multiset(t)[x] {
          assert multiset(r) == multiset{e} + multiset(r[1..]);
        }
        FilterUnique(t, p, r[1..]);
      } else {
        if r != [] {
          assert r[0] != e;
        }
        forall x | p(x) ensures multiset(r)[x] == multiset(t)[x] {
          assert x != e;
        }
        FilterUnique(t, p, r);
      }
    }
  }

  /** Nothing satisfies `p`: nothing is selected. */
  lemma {:induction false} FilterNone<T>(s: seq<T>, p: T -> bool)
    requires forall k :: 0 <= k < |s| ==> !p(s[k])
    ensures Filter(s, p) == []
    decreases |s|
  {
    if s != [] {
      FilterNone(s[1..], p);
    }
  }

  /** Some element satisfies `p`: something is selected. */
  lemma {:induction false} FilterSome<T>(s: seq<T>, p: T -> bool, k: nat)
    requires k < |s| && p(s[k])
    ensures Filter(s, p) != []
    decreases k
  {
    if !p(s[0]) {
      FilterSome(s[1..], p, k - 1);
    }
  }

  /** Selecting from a concatenation selects from each part. */
  lemma {:induction false} FilterAppend<T>(a: seq<T>, b: seq<T>, p: T -> bool)
    ensures Filter(a + b, p) == Filter(a, p) + Filter(b, p)
    decreases |a|
  {
    if a == [] {
      assert a + b == b;
    } else {
      assert (a + b)[1..] == a[1..] + b;
      FilterAppend(a[1..], b, p);
    }
  }

  /** Total length of the parts. */
  function TotalLength(parts: seq<string>): nat
  {
    if parts == [] then 0 else |parts[0]| + TotalLength(parts[1..])
  }

  /** Ruby's `parts.join(sep)`. */
  function Join(parts: seq<string>, sep: string): (r: string)
    ensures parts == [] ==> r == ""
    ensures parts != [] ==> parts[0] <= r
  {
    if parts == [] then ""
    else if |parts| == 1 then parts[0]
    else parts[0] + sep + Join(parts[1..], sep)
  }

  /** The joined string is the parts plus one separator between each two of them, and nothing else. */
  lemma {:induction false} JoinLength(parts: seq<string>, sep: string)
    requires parts != []
    ensures |Join(parts, sep)| == TotalLength(parts) + (|parts| - 1) * |sep|
    decreases |parts|
  {
    if |parts| > 1 {
      JoinLength(parts[1..], sep);
      assert (|parts| - 1) * |sep| == |sep| + (|parts| - 2) * |sep|;
    }
  }

  /** Where the `k`-th part starts in `Join(parts, sep)`: every earlier part and its separator come first. */
  function Offset(parts: seq<string>, sep: string, k: nat): nat
    requires k <= |parts|
  {
    if k == 0 then 0 else |parts[0]| + |sep| + Offset(parts[1..], sep, k - 1)
  }

  /**
    The joined string holds part `k` at `Offset(parts, sep, k)`, and between
    two consecutive parts it holds exactly the separator.
  */
  lemma {:induction false} JoinAt(parts: seq<string>, sep: string, k: nat)
    requires k < |parts|
    ensures Offset(parts, sep, k) + |parts[k]| <= |Join(parts, sep)|
    ensures Join(parts, sep)[Offset(parts, sep, k)..Offset(parts, sep, k) + |parts[k]|] == parts[k]
    ensures k + 1 < |parts| ==>
      Offset(parts, sep, k + 1) == Offset(parts, sep, k) + |parts[k]| + |sep| <= |Join(parts, sep)| &&
      Join(parts, sep)[Offset(parts, sep, k) + |parts[k]|..Offset(parts, sep, k + 1)] == sep
    decreases k
  {
    var j := Join(parts, sep);
    if k == 0 {
      if |parts| > 1 {
        assert j == parts[0] + sep + Join(parts[1..], sep);
        assert j[..|parts[0]|] == parts[0];
        assert j[|parts[0]|..|parts[0]| + |sep|] == sep;
      }
    } else {
      var rest := parts[1..];
      var pre := parts[0] + sep;
      JoinAt(rest, sep, k - 1);
      var jr := Join(rest, sep);
      assert j == pre + jr;
      var o := Offset(rest, sep, k - 1);
      assert rest[k - 1] == parts[k];
      SliceOfAppend(pre, jr, o, o + |parts[k]|);
      if k + 1 < |parts| {
        assert Offset(parts, sep, k + 1) == |pre| + Offset(rest, sep, k);
        SliceOfAppend(pre, jr, o + |parts[k]|, Offset(rest, sep, k));
      }
    }
  }

  /** A slice of `x + y` past the end of `x` is a slice of `y`. */
  lemma SliceOfAppend<T>(x: seq<T>, y: seq<T>, i: nat, j: nat)
    requires i <= j <= |y|
    ensures (x + y)[|x| + i..|x| + j] == y[i..j]
  {
  }

  /** Joining a concatenation puts one separator between the two joined halves. */
  lemma {:induction false} JoinAppend(a: seq<string>, b: seq<string>, sep: string)
    requires a != [] && b != []
    ensures Join(a + b, sep) == Join(a, sep) + sep + Join(b, sep)
    decreases |a|
  {
    assert (a + b)[0] == a[0];
    assert (a + b)[1..] == a[1..] + b;
    if |a| > 1 {
      JoinAppend(a[1..], b, sep);
    }
  }

  /** The first position at which `x` occurs in `s`, if any. */
  function FirstIndexOf<T(==)>(s: seq<T>, x: T): (r: Option<nat>)
    ensures r.None? ==> x !in s
    ensures r.Some? ==> r.value < |s| && s[r.value] == x
    ensures r.Some? ==> forall j :: 0 <= j < r.value ==> s[j] != x
  {
    if s == [] then None
    else if s[0] == x then Some(0)
    else
      match FirstIndexOf(s[1..], x)
      case None => None
      case Some(k) => Some(k + 1)
  }
}
