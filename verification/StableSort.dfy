/** What sorting a list means: the one sorted sequence that keeps equal elements in
    their original order. Comparators follow hw1/LinkedList.h: negative, zero or
    positive for smaller, equal or greater. */
module StableSorts {

  /** The bubble-sort test of SortLinkedList: a standing directly before b is out of order. */
  predicate Out<T>(cmp: (T, T) -> int, ascending: bool, a: T, b: T) {
    if ascending then cmp(a, b) > 0 else cmp(a, b) < 0
  }

  /** On the elements of dom the comparator is a total preorder. */
  ghost predicate TotalPreorder<T>(cmp: (T, T) -> int, dom: set<T>) {
    && (forall a, b {:trigger cmp(a, b)} :: a in dom && b in dom ==> (cmp(a, b) > 0 <==> cmp(b, a) < 0))
    && (forall a, b, c {:trigger cmp(a, b), cmp(b, c)} :: a in dom && b in dom && c in dom && cmp(a, b) <= 0 && cmp(b, c) <= 0 ==> cmp(a, c) <= 0)
  }

  ghost function Elements<T>(s: seq<T>): set<T> {
    set x | x in s
  }

  ghost predicate Sorted<T>(cmp: (T, T) -> int, ascending: bool, s: seq<T>) {
    forall i, j :: 0 <= i < j < |s| ==> !Out(cmp, ascending, s[i], s[j])
  }

  /** The elements of s that compare equal to x, in order. */
  ghost function Ties<T>(cmp: (T, T) -> int, x: T, s: seq<T>): seq<T> {
    if s == [] then []
    else if cmp(x, s[0]) == 0 then [s[0]] + Ties(cmp, x, s[1..])
    else Ties(cmp, x, s[1..])
  }

  function Insert<T>(cmp: (T, T) -> int, ascending: bool, x: T, s: seq<T>): seq<T> {
    if s == [] || !Out(cmp, ascending, x, s[0]) then [x] + s
    else [s[0]] + Insert(cmp, ascending, x, s[1..])
  }

  function StableSort<T>(cmp: (T, T) -> int, ascending: bool, s: seq<T>): seq<T> {
    if s == [] then [] else Insert(cmp, ascending, s[0], StableSort(cmp, ascending, s[1..]))
  }

  lemma PreorderSubset<T>(cmp: (T, T) -> int, sub: set<T>, dom: set<T>)
    requires sub <= dom && TotalPreorder(cmp, dom)
    ensures TotalPreorder(cmp, sub)
  {}

  lemma {:induction false} InsertElements<T>(cmp: (T, T) -> int, ascending: bool, x: T, s: seq<T>)
    ensures multiset(Insert(cmp, ascending, x, s)) == multiset(s) + multiset{x}
  {
    if s == [] || !Out(cmp, ascending, x, s[0]) {
    } else {
      InsertElements(cmp, ascending, x, s[1..]);
      assert s == [s[0]] + s[1..];
    }
  }

  lemma PermutationElements<T>(r: seq<T>, s: seq<T>)
    requires multiset(r) == multiset(s)
    ensures Elements(r) == Elements(s) && |r| == |s|
    ensures (forall x :: x in r ==> x in s) && (forall x :: x in s ==> x in r)
  {
    assert forall x :: x in r <==> x in multiset(r);
    assert forall x :: x in s <==> x in multiset(s);
    assert |multiset(r)| == |r| && |multiset(s)| == |s|;
  }

  lemma {:induction false} SortPermutes<T>(cmp: (T, T) -> int, ascending: bool, s: seq<T>)
    ensures multiset(StableSort(cmp, ascending, s)) == multiset(s)
    ensures Elements(StableSort(cmp, ascending, s)) == Elements(s)
    ensures |StableSort(cmp, ascending, s)| == |s|
  {
    if s != [] {
      SortPermutes(cmp, ascending, s[1..]);
      InsertElements(cmp, ascending, s[0], StableSort(cmp, ascending, s[1..]));
      assert s == [s[0]] + s[1..];
    }
    PermutationElements(StableSort(cmp, ascending, s), s);
  }

  lemma SortedCons<T>(cmp: (T, T) -> int, ascending: bool, x: T, s: seq<T>)
    requires Sorted(cmp, ascending, s)
    requires forall y :: y in s ==> !Out(cmp, ascending, x, y)
    ensures Sorted(cmp, ascending, [x] + s)
  {}

  lemma {:induction false} InsertSorted<T>(cmp: (T, T) -> int, ascending: bool, x: T, s: seq<T>)
    requires TotalPreorder(cmp, Elements(s) + {x}) && Sorted(cmp, ascending, s)
    ensures Sorted(cmp, ascending, Insert(cmp, ascending, x, s))
  {
    if s == [] {
    } else if !Out(cmp, ascending, x, s[0]) {
      assert s[0] in s && x in Elements(s) + {x};
      SortedCons(cmp, ascending, x, s);
    } else {
      var t := Insert(cmp, ascending, x, s[1..]);
      assert s[0] in s && x in Elements(s) + {x};
      PreorderSubset(cmp, Elements(s[1..]) + {x}, Elements(s) + {x});
      InsertSorted(cmp, ascending, x, s[1..]);
      InsertElements(cmp, ascending, x, s[1..]);
      PermutationElements(t, s[1..] + [x]);
      assert forall y :: y in t ==> y in Elements(s[1..] + [x]);
      SortedCons(cmp, ascending, s[0], t);
    }
  }

  lemma {:induction false} SortSorts<T>(cmp: (T, T) -> int, ascending: bool, s: seq<T>)
    requires TotalPreorder(cmp, Elements(s))
    ensures Sorted(cmp, ascending, StableSort(cmp, ascending, s))
  {
    if s != [] {
      assert Elements(s) == Elements(s[1..]) + {s[0]} by { assert s == [s[0]] + s[1..]; }
      SortSorts(cmp, ascending, s[1..]);
      SortPermutes(cmp, ascending, s[1..]);
      InsertSorted(cmp, ascending, s[0], StableSort(cmp, ascending, s[1..]));
    }
  }

  lemma TiesOfCons<T>(cmp: (T, T) -> int, y: T, x: T, s: seq<T>)
    ensures Ties(cmp, y, [x] + s) == (if cmp(y, x) == 0 then [x] else []) + Ties(cmp, y, s)
  {}

  lemma {:induction false} InsertTies<T>(cmp: (T, T) -> int, ascending: bool, y: T, x: T, s: seq<T>)
    requires TotalPreorder(cmp, Elements(s) + {x, y})
    ensures Ties(cmp, y, Insert(cmp, ascending, x, s)) == Ties(cmp, y, [x] + s)
  {
    if s == [] || !Out(cmp, ascending, x, s[0]) {
    } else {
      var h, t := s[0], s[1..];
      assert h in Elements(s);
      assert !(cmp(y, x) == 0 && cmp(y, h) == 0);
      PreorderSubset(cmp, Elements(t) + {x, y}, Elements(s) + {x, y});
      InsertTies(cmp, ascending, y, x, t);
      TiesOfCons(cmp, y, h, Insert(cmp, ascending, x, t));
      TiesOfCons(cmp, y, x, s);
      TiesOfCons(cmp, y, x, t);
      TiesOfCons(cmp, y, h, t);
      assert [h] + t == s;
    }
  }

  /** Elements that compare equal keep their order. */
  lemma {:induction false} SortIsStable<T>(cmp: (T, T) -> int, ascending: bool, y: T, s: seq<T>)
    requires TotalPreorder(cmp, Elements(s) + {y})
    ensures Ties(cmp, y, StableSort(cmp, ascending, s)) == Ties(cmp, y, s)
  {
    if s != [] {
      var t := StableSort(cmp, ascending, s[1..]);
      PreorderSubset(cmp, Elements(s[1..]) + {y}, Elements(s) + {y});
      SortIsStable(cmp, ascending, y, s[1..]);
      SortPermutes(cmp, ascending, s[1..]);
      assert Elements(t) + {s[0], y} <= Elements(s) + {y};
      PreorderSubset(cmp, Elements(t) + {s[0], y}, Elements(s) + {y});
      InsertTies(cmp, ascending, y, s[0], t);
      TiesOfCons(cmp, y, s[0], t);
      TiesOfCons(cmp, y, s[0], s[1..]);
      assert [s[0]] + s[1..] == s;
    }
  }

  lemma SmallestElementsAgree<T>(cmp: (T, T) -> int, ascending: bool, r: seq<T>, t: seq<T>)
    requires r != [] && TotalPreorder(cmp, Elements(r)) && multiset(r) == multiset(t) && t != []
    requires Sorted(cmp, ascending, r) && Sorted(cmp, ascending, t)
    requires Ties(cmp, r[0], r) == Ties(cmp, r[0], t)
    ensures r[0] == t[0]
  {
    PermutationElements(r, t);
    var a, b := r[0], t[0];
    assert a in Elements(r) && b in Elements(r) && a in Elements(t);
    assert cmp(a, b) == 0 && cmp(a, a) == 0;
    assert Ties(cmp, a, r)[0] == a && Ties(cmp, a, t)[0] == b;
  }

  lemma TiesTail<T>(cmp: (T, T) -> int, y: T, r: seq<T>, t: seq<T>)
    requires r != [] && t != [] && r[0] == t[0] && Ties(cmp, y, r) == Ties(cmp, y, t)
    ensures Ties(cmp, y, r[1..]) == Ties(cmp, y, t[1..])
  {
    var h := if cmp(y, r[0]) == 0 then [r[0]] else [];
    assert Ties(cmp, y, r[1..]) == Ties(cmp, y, r)[|h|..];
    assert Ties(cmp, y, t[1..]) == Ties(cmp, y, t)[|h|..];
  }

  lemma MultisetTail<T>(s: seq<T>)
    requires s != []
    ensures multiset(s[1..]) == multiset(s) - multiset{s[0]}
  {
    assert s == [s[0]] + s[1..];
  }

  lemma TailsAgree<T>(cmp: (T, T) -> int, r: seq<T>, t: seq<T>)
    requires r != [] && t != [] && r[0] == t[0] && multiset(r) == multiset(t)
    requires forall y :: y in r ==> Ties(cmp, y, r) == Ties(cmp, y, t)
    ensures multiset(r[1..]) == multiset(t[1..])
    ensures forall y :: y in r[1..] ==> Ties(cmp, y, r[1..]) == Ties(cmp, y, t[1..])
  {
    MultisetTail(r);
    MultisetTail(t);
    forall y | y in r[1..]
      ensures Ties(cmp, y, r[1..]) == Ties(cmp, y, t[1..])
    {
      TiesTail(cmp, y, r, t);
    }
  }

  /** Nothing else is sorted, has the same elements and keeps every class of ties in order. */
  lemma {:induction false} StableSortIsUnique<T>(cmp: (T, T) -> int, ascending: bool, r: seq<T>, t: seq<T>)
    requires TotalPreorder(cmp, Elements(r)) && multiset(r) == multiset(t)
    requires Sorted(cmp, ascending, r) && Sorted(cmp, ascending, t)
    requires forall y :: y in r ==> Ties(cmp, y, r) == Ties(cmp, y, t)
    ensures r == t
    decreases |r|
  {
    PermutationElements(r, t);
    if r != [] {
      SmallestElementsAgree(cmp, ascending, r, t);
      TailsAgree(cmp, r, t);
      StableSortIsUnique(cmp, ascending, r[1..], t[1..]);
    }
  }

  lemma {:induction false} SortedIsFixed<T>(cmp: (T, T) -> int, ascending: bool, s: seq<T>)
    requires Sorted(cmp, ascending, s)
    ensures StableSort(cmp, ascending, s) == s
  {
    if s != [] {
      SortedIsFixed(cmp, ascending, s[1..]);
    }
  }

  lemma {:induction false} InsertsCommute<T>(cmp: (T, T) -> int, ascending: bool, a: T, b: T, s: seq<T>)
    requires TotalPreorder(cmp, Elements(s) + {a, b}) && Out(cmp, ascending, a, b)
    ensures Insert(cmp, ascending, a, Insert(cmp, ascending, b, s))
         == Insert(cmp, ascending, b, Insert(cmp, ascending, a, s))
  {
    if s != [] {
      assert s[0] in s;
      if Out(cmp, ascending, b, s[0]) {
        InsertsCommute(cmp, ascending, a, b, s[1..]);
      }
    }
  }

  /** The pair s[i], s[i+1] exchanged. */
  function Swapped<T>(s: seq<T>, i: nat): seq<T>
    requires i + 1 < |s|
  {
    s[i := s[i + 1]][i + 1 := s[i]]
  }

  lemma SwapKeepsElements<T>(s: seq<T>, i: nat)
    requires i + 1 < |s|
    ensures Elements(Swapped(s, i)) == Elements(s)
  {
    var t := Swapped(s, i);
    forall x | x in s
      ensures x in t
    {
      var k :| 0 <= k < |s| && s[k] == x;
      assert t[if k == i then i + 1 else if k == i + 1 then i else k] == x;
    }
  }

  /** A swap of an out-of-order pair does not change what the sequence sorts to ... */
  lemma {:induction false} SwapKeepsSort<T>(cmp: (T, T) -> int, ascending: bool, s: seq<T>, i: nat)
    requires i + 1 < |s| && TotalPreorder(cmp, Elements(s)) && Out(cmp, ascending, s[i], s[i + 1])
    ensures StableSort(cmp, ascending, Swapped(s, i)) == StableSort(cmp, ascending, s)
  {
    var t := Swapped(s, i);
    if i == 0 {
      assert t[1..][1..] == s[1..][1..] == s[2..] && t[1..][0] == s[0];
      SortPermutes(cmp, ascending, s[2..]);
      InsertsCommute(cmp, ascending, s[0], s[1], StableSort(cmp, ascending, s[2..]));
    } else {
      assert t[1..] == Swapped(s[1..], i - 1);
      SwapKeepsSort(cmp, ascending, s[1..], i - 1);
    }
  }

  /** The number of elements of s that a stands out of order before. */
  ghost function CountOut<T>(cmp: (T, T) -> int, ascending: bool, a: T, s: seq<T>): nat {
    if s == [] then 0
    else (if Out(cmp, ascending, a, s[0]) then 1 else 0) + CountOut(cmp, ascending, a, s[1..])
  }

  /** The number of pairs, adjacent or not, that stand out of order. */
  ghost function Inversions<T>(cmp: (T, T) -> int, ascending: bool, s: seq<T>): nat {
    if s == [] then 0
    else CountOut(cmp, ascending, s[0], s[1..]) + Inversions(cmp, ascending, s[1..])
  }

  lemma {:induction false} SwapKeepsCount<T>(cmp: (T, T) -> int, ascending: bool, a: T, s: seq<T>, i: nat)
    requires i + 1 < |s|
    ensures CountOut(cmp, ascending, a, Swapped(s, i)) == CountOut(cmp, ascending, a, s)
  {
    var t := Swapped(s, i);
    if i == 0 {
      assert t[1..][1..] == s[1..][1..] && t[1..][0] == s[0];
    } else {
      assert t[1..] == Swapped(s[1..], i - 1);
      SwapKeepsCount(cmp, ascending, a, s[1..], i - 1);
    }
  }

  /** ... and removes exactly one inversion, so only finitely many swaps can happen. */
  lemma {:induction false} SwapRemovesInversion<T>(cmp: (T, T) -> int, ascending: bool, s: seq<T>, i: nat)
    requires i + 1 < |s| && TotalPreorder(cmp, Elements(s)) && Out(cmp, ascending, s[i], s[i + 1])
    ensures Inversions(cmp, ascending, Swapped(s, i)) == Inversions(cmp, ascending, s) - 1
  {
    var t := Swapped(s, i);
    if i == 0 {
      assert t[1..][1..] == s[1..][1..] == s[2..] && t[1..][0] == s[0];
      assert s[0] in s && s[1] in s;
    } else {
      assert t[1..] == Swapped(s[1..], i - 1);
      SwapKeepsCount(cmp, ascending, s[0], s[1..], i - 1);
      SwapRemovesInversion(cmp, ascending, s[1..], i - 1);
    }
  }

  lemma {:induction false} AdjacentSorted<T>(cmp: (T, T) -> int, ascending: bool, s: seq<T>)
    requires TotalPreorder(cmp, Elements(s))
    requires forall k {:trigger s[k]} :: 0 <= k && k + 1 < |s| ==> !Out(cmp, ascending, s[k], s[k + 1])
    ensures Sorted(cmp, ascending, s)
  {
    if |s| > 1 {
      var t := s[1..];
      forall k {:trigger t[k]} | 0 <= k && k + 1 < |t|
        ensures !Out(cmp, ascending, t[k], t[k + 1])
      {
        assert t[k] == s[k + 1] && t[k + 1] == s[k + 1 + 1];
      }
      PreorderSubset(cmp, Elements(t), Elements(s));
      AdjacentSorted(cmp, ascending, t);
      forall x | x in t
        ensures !Out(cmp, ascending, s[0], x)
      {
        assert t[0] == s[0 + 1] && s[0] in Elements(s) && t[0] in Elements(s) && x in Elements(s);
        assert x != t[0] ==> !Out(cmp, ascending, t[0], x);
      }
      SortedCons(cmp, ascending, s[0], t);
      assert [s[0]] + t == s;
    }
  }
}
