// What sort.SliceStable promises: the sorted list that keeps equal elements in their
// order. StableSort computes it and IsTheStableSort says there is no other.
module Sorting {

  ghost predicate StrictWeakOrder<T(!new)>(less: (T, T) -> bool) {
    && (forall x, y :: less(x, y) ==> !less(y, x))
    && (forall x, y, z :: less(x, z) ==> less(x, y) || less(y, z))
  }

  function StableSort<T>(s: seq<T>, less: (T, T) -> bool): seq<T> {
    if s == [] then [] else Insert(s[0], StableSort(s[1..], less), less)
  }

  function Insert<T>(x: T, s: seq<T>, less: (T, T) -> bool): seq<T> {
    if s == [] || !less(s[0], x) then [x] + s else [s[0]] + Insert(x, s[1..], less)
  }

  ghost predicate Sorted<T>(s: seq<T>, less: (T, T) -> bool) {
    forall i, j :: 0 <= i < j < |s| ==> !less(s[j], s[i])
  }

  predicate Equivalent<T>(x: T, y: T, less: (T, T) -> bool) {
    !less(x, y) && !less(y, x)
  }

  // The elements of s that the order cannot tell from x, in their order.
  function Class<T>(x: T, s: seq<T>, less: (T, T) -> bool): seq<T> {
    if s == [] then []
    else (if Equivalent(x, s[0], less) then [s[0]] else []) + Class(x, s[1..], less)
  }

  // t holds the elements of s, and equal ones in the order they have in s.
  ghost predicate StablyPermutes<T(!new)>(s: seq<T>, t: seq<T>, less: (T, T) -> bool) {
    && multiset(s) == multiset(t)
    && forall x :: Class(x, s, less) == Class(x, t, less)
  }

  lemma {:induction false} SortIsStable<T(!new)>(s: seq<T>, less: (T, T) -> bool)
    requires StrictWeakOrder(less)
    ensures Sorted(StableSort(s, less), less)
    ensures StablyPermutes(s, StableSort(s, less), less)
  {
    if s != [] {
      var rest := StableSort(s[1..], less);
      SortIsStable(s[1..], less);
      InsertSorts(s[0], rest, less);
      assert s == [s[0]] + s[1..];
      forall x
        ensures Class(x, s, less) == Class(x, Insert(s[0], rest, less), less)
      {
        InsertIsStable(x, s[0], rest, less);
      }
    }
  }

  lemma {:induction false} InsertSorts<T(!new)>(x: T, s: seq<T>, less: (T, T) -> bool)
    requires StrictWeakOrder(less) && Sorted(s, less)
    ensures Sorted(Insert(x, s, less), less)
    ensures multiset(Insert(x, s, less)) == multiset([x]) + multiset(s)
  {
    if s == [] {
    } else if !less(s[0], x) {
      forall j | 0 <= j < |s|
        ensures !less(s[j], x)
      {
        assert j == 0 || !less(s[j], s[0]);
      }
    } else {
      InsertSorts(x, s[1..], less);
      assert s == [s[0]] + s[1..];
      var rest := Insert(x, s[1..], less);
      forall j | 0 <= j < |rest|
        ensures !less(rest[j], s[0])
      {
        assert rest[j] in multiset(rest);
        assert rest[j] in multiset([x]) + multiset(s[1..]);
        assert rest[j] == x || rest[j] in s[1..];
      }
    }
  }

  lemma {:induction false} InsertIsStable<T(!new)>(x: T, e: T, s: seq<T>, less: (T, T) -> bool)
    requires StrictWeakOrder(less)
    ensures Class(x, Insert(e, s, less), less) == (if Equivalent(x, e, less) then [e] else []) + Class(x, s, less)
  {
    if s == [] || !less(s[0], e) {
      ClassCons(x, e, s, less);
    } else {
      InsertIsStable(x, e, s[1..], less);
      ClassCons(x, s[0], Insert(e, s[1..], less), less);
      NotBoth(x, s[0], e, less);
      Swap(if Equivalent(x, s[0], less) then [s[0]] else [], if Equivalent(x, e, less) then [e] else [], Class(x, s[1..], less));
    }
  }

  lemma ClassCons<T>(x: T, y: T, s: seq<T>, less: (T, T) -> bool)
    ensures Class(x, [y] + s, less) == (if Equivalent(x, y, less) then [y] else []) + Class(x, s, less)
  {
  }

  lemma Swap<T>(a: seq<T>, b: seq<T>, c: seq<T>)
    requires a == [] || b == []
    ensures a + (b + c) == b + (a + c)
  {
  }

  lemma NotBoth<T(!new)>(x: T, y: T, z: T, less: (T, T) -> bool)
    requires StrictWeakOrder(less) && less(y, z)
    ensures !(Equivalent(x, y, less) && Equivalent(x, z, less))
  {
  }

  // Sorted and stable leaves only one answer.
  lemma {:induction false} IsTheStableSort<T(!new)>(s: seq<T>, t: seq<T>, less: (T, T) -> bool)
    requires StrictWeakOrder(less) && Sorted(t, less) && StablyPermutes(s, t, less)
    ensures t == StableSort(s, less)
  {
    SortIsStable(s, less);
    var u := StableSort(s, less);
    forall x
      ensures Class(x, t, less) == Class(x, u, less)
    {
      assert Class(x, s, less) == Class(x, t, less);
      assert Class(x, s, less) == Class(x, u, less);
    }
    SortedByClasses(t, u, less);
  }

  lemma {:induction false} SortedByClasses<T(!new)>(s: seq<T>, t: seq<T>, less: (T, T) -> bool)
    requires StrictWeakOrder(less) && Sorted(s, less) && Sorted(t, less)
    requires forall x :: Class(x, s, less) == Class(x, t, less)
    ensures s == t
  {
    if s == [] && t == [] {
    } else if s == [] {
      MovesOver(t[0], t, s, less);
    } else {
      MovesOver(s[0], s, t, less);
      HeadsAgree(s, t, less);
      forall x
        ensures Class(x, s[1..], less) == Class(x, t[1..], less)
      {
        var head := if Equivalent(x, s[0], less) then [s[0]] else [];
        assert head + Class(x, s[1..], less) == Class(x, s, less) == Class(x, t, less) == head + Class(x, t[1..], less);
        SameTail(head, Class(x, s[1..], less), Class(x, t[1..], less));
      }
      SortedByClasses(s[1..], t[1..], less);
      assert s == [s[0]] + s[1..] && t == [t[0]] + t[1..];
    }
  }

  lemma SameTail<T>(head: seq<T>, s: seq<T>, t: seq<T>)
    requires head + s == head + t
    ensures s == t
  {
    assert (head + s)[|head|..] == s && (head + t)[|head|..] == t;
  }

  lemma HeadsAgree<T(!new)>(s: seq<T>, t: seq<T>, less: (T, T) -> bool)
    requires StrictWeakOrder(less) && Sorted(s, less) && Sorted(t, less) && s != [] && t != []
    requires forall x :: Class(x, s, less) == Class(x, t, less)
    ensures t[0] == s[0]
  {
    MovesOver(s[0], s, t, less);
    MovesOver(t[0], t, s, less);
    HeadIsLeast(s[0], t, less);
    HeadIsLeast(t[0], s, less);
    assert Class(s[0], s, less)[0] == s[0];
    assert Class(s[0], t, less)[0] == t[0];
  }

  lemma HeadIsLeast<T(!new)>(x: T, s: seq<T>, less: (T, T) -> bool)
    requires StrictWeakOrder(less) && Sorted(s, less) && x in s
    ensures !less(x, s[0])
  {
  }

  lemma MovesOver<T(!new)>(x: T, s: seq<T>, t: seq<T>, less: (T, T) -> bool)
    requires StrictWeakOrder(less) && x in s && Class(x, s, less) == Class(x, t, less)
    ensures x in t
  {
    InItsClass(x, s, less);
    ClassMembers(x, t, less);
  }

  lemma {:induction false} InItsClass<T(!new)>(x: T, s: seq<T>, less: (T, T) -> bool)
    requires StrictWeakOrder(less) && x in s
    ensures x in Class(x, s, less)
  {
    if x != s[0] {
      InItsClass(x, s[1..], less);
    }
  }

  lemma {:induction false} ClassMembers<T>(x: T, s: seq<T>, less: (T, T) -> bool)
    ensures forall y <- Class(x, s, less) :: y in s
  {
    if s != [] {
      ClassMembers(x, s[1..], less);
    }
  }
}
