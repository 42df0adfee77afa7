// Mapping and filtering a list, as the loops of the components below do.
module Sequences {

  function Mapped<A, B>(s: seq<A>, f: A -> B): (r: seq<B>)
    ensures |r| == |s| && forall i :: 0 <= i < |s| ==> r[i] == f(s[i])
  {
    if s == [] then [] else Mapped(s[..|s| - 1], f) + [f(s[|s| - 1])]
  }

  function Filtered<A>(s: seq<A>, p: A -> bool): (r: seq<A>)
    ensures forall x <- r :: x in s && p(x)
    ensures forall x <- s :: p(x) ==> x in r
  {
    if s == [] then [] else Filtered(s[..|s| - 1], p) + (if p(s[|s| - 1]) then [s[|s| - 1]] else [])
  }

  lemma FilteredSnoc<A>(s: seq<A>, x: A, p: A -> bool)
    ensures Filtered(s + [x], p) == if p(x) then Filtered(s, p) + [x] else Filtered(s, p)
  {
  }

  // Filtering keeps the order: it can be done piece by piece.
  lemma {:induction false} FilteredConcat<A>(s: seq<A>, t: seq<A>, p: A -> bool)
    ensures Filtered(s + t, p) == Filtered(s, p) + Filtered(t, p)
  {
    if t == [] {
      assert s + t == s;
    } else {
      var front, last := t[..|t| - 1], t[|t| - 1];
      FilteredConcat(s, front, p);
      FilteredMore(s, front, last, p);
      assert s + t == s + (front + [last]);
    }
  }

  lemma FilteredMore<A>(s: seq<A>, t: seq<A>, x: A, p: A -> bool)
    requires Filtered(s + t, p) == Filtered(s, p) + Filtered(t, p)
    ensures Filtered(s + (t + [x]), p) == Filtered(s, p) + Filtered(t + [x], p)
  {
    assert s + (t + [x]) == (s + t) + [x];
    FilteredSnoc(s + t, x, p);
    FilteredSnoc(t, x, p);
    Associative(Filtered(s, p), Filtered(t, p), [x]);
  }

  lemma Associative<A>(s: seq<A>, t: seq<A>, u: seq<A>)
    ensures (s + t) + u == s + (t + u)
  {
  }

  lemma MappedSnoc<A, B>(s: seq<A>, x: A, f: A -> B)
    ensures Mapped(s + [x], f) == Mapped(s, f) + [f(x)]
  {
  }

  lemma SameMembers<A>(s: seq<A>, t: seq<A>)
    requires multiset(s) == multiset(t)
    ensures (forall x <- s :: x in t) && (forall x <- t :: x in s)
  {
    forall x <- s
      ensures x in t
    {
      assert x in multiset(s);
    }
    forall x <- t
      ensures x in s
    {
      assert x in multiset(t);
    }
  }

  lemma {:induction false} MappedConcat<A, B>(s: seq<A>, t: seq<A>, f: A -> B)
    ensures Mapped(s + t, f) == Mapped(s, f) + Mapped(t, f)
  {
  }

  // Mapping keeps "the same elements, in some order".
  lemma {:induction false} MappedMultiset<A, B>(s: seq<A>, t: seq<A>, f: A -> B)
    requires multiset(s) == multiset(t)
    ensures multiset(Mapped(s, f)) == multiset(Mapped(t, f))
  {
    if s == [] {
      assert |multiset(t)| == 0;
    } else {
      var front, last := s[..|s| - 1], s[|s| - 1];
      assert s == front + [last];
      assert last in multiset(s);
      var i :| 0 <= i < |t| && t[i] == last;
      var before, after := t[..i], t[i + 1..];
      assert t == before + [last] + after;
      MultisetAround(before, last, after);
      WithoutOne(multiset(front), multiset(before + after), last);
      MappedMultiset(front, before + after, f);
      MappedSnoc(front, last, f);
      MappedAround(before, last, after, f);
    }
  }

  lemma MappedAround<A, B>(before: seq<A>, here: A, after: seq<A>, f: A -> B)
    ensures multiset(Mapped(before + [here] + after, f)) == multiset(Mapped(before + after, f)) + multiset{f(here)}
  {
    MappedConcat(before + [here], after, f);
    MappedSnoc(before, here, f);
    MappedConcat(before, after, f);
    MultisetAround(Mapped(before, f), f(here), Mapped(after, f));
  }

  lemma MultisetAround<B>(before: seq<B>, here: B, after: seq<B>)
    ensures multiset(before + [here] + after) == multiset(before + after) + multiset{here}
  {
  }

  lemma WithoutOne<A>(s: multiset<A>, t: multiset<A>, x: A)
    requires s + multiset{x} == t + multiset{x}
    ensures s == t
  {
    assert s == s + multiset{x} - multiset{x} == t;
  }

  predicate Distinct<A(==)>(s: seq<A>) {
    forall i, j :: 0 <= i < j < |s| ==> s[i] != s[j]
  }

  lemma {:induction false} DistinctCounts<A>(s: seq<A>, x: A)
    requires Distinct(s)
    ensures multiset(s)[x] <= 1
  {
    if s != [] {
      var front, last := s[..|s| - 1], s[|s| - 1];
      DistinctCounts(front, x);
      assert s == front + [last];
      assert last !in front;
    }
  }

  // Being without repetitions is a matter of the elements, not of their order.
  lemma DistinctInAnyOrder<A>(s: seq<A>, t: seq<A>)
    requires Distinct(s) && multiset(s) == multiset(t)
    ensures Distinct(t)
  {
    forall i, j | 0 <= i < j < |t|
      ensures t[i] != t[j]
    {
      DistinctCounts(s, t[i]);
      assert t == t[..j] + [t[j]] + t[j + 1..];
      assert t[i] in t[..j];
      assert multiset(t) == multiset(t[..j]) + multiset{t[j]} + multiset(t[j + 1..]);
    }
  }

  lemma {:induction false} FilteredSplits<A>(s: seq<A>, p: A -> bool, q: A -> bool, either: A -> bool)
    requires forall x <- s :: !(p(x) && q(x)) && (either(x) <==> p(x) || q(x))
    ensures multiset(Filtered(s, either)) == multiset(Filtered(s, p)) + multiset(Filtered(s, q))
  {
    if s != [] {
      var front, last := s[..|s| - 1], s[|s| - 1];
      assert last in s;
      FilteredSplits(front, p, q, either);
    }
  }

  lemma NoneFiltered<A>(s: seq<A>, p: A -> bool)
    requires forall x <- s :: !p(x)
    ensures Filtered(s, p) == []
  {
  }

  lemma {:induction false} FilteredSame<A>(s: seq<A>, p: A -> bool, q: A -> bool)
    requires forall x <- s :: p(x) == q(x)
    ensures Filtered(s, p) == Filtered(s, q)
  {
    if s != [] {
      assert s[|s| - 1] in s;
      FilteredSame(s[..|s| - 1], p, q);
    }
  }

  // Two lists without repetitions of the same elements differ in the order only.
  lemma SameElementsOnce<A>(s: seq<A>, t: seq<A>)
    requires Distinct(s) && Distinct(t) && (forall x <- s :: x in t) && forall x <- t :: x in s
    ensures multiset(s) == multiset(t)
  {
    forall x | x in multiset(s) || x in multiset(t)
      ensures multiset(s)[x] == multiset(t)[x]
    {
      assert x in s <==> x in multiset(s);
      assert x in t <==> x in multiset(t);
      DistinctCounts(s, x);
      DistinctCounts(t, x);
    }
  }
}
