/** The stable sort of a list by a comparator, as the host language's array sort promises it. */
module StableSort {

  ghost predicate TotalPreorder<T(!new)>(le: (T, T) -> bool) {
    && (forall x, y :: le(x, y) || le(y, x))
    && (forall x, y, z :: le(x, y) && le(y, z) ==> le(x, z))
  }

  ghost predicate Sorted<T>(s: seq<T>, le: (T, T) -> bool) {
    forall i, j :: 0 <= i < j < |s| ==> le(s[i], s[j])
  }

  function Insert<T>(x: T, s: seq<T>, le: (T, T) -> bool): seq<T> {
    if s == [] then [x]
    else if le(x, s[0]) then [x] + s
    else [s[0]] + Insert(x, s[1..], le)
  }

  function Sort<T>(s: seq<T>, le: (T, T) -> bool): seq<T> {
    if s == [] then [] else Insert(s[0], Sort(s[1..], le), le)
  }

  /** The members of a list that a comparator ranks equal to `x`, in order. */
  function Ties<T>(s: seq<T>, x: T, le: (T, T) -> bool): seq<T> {
    if s == [] then []
    else (if le(s[0], x) && le(x, s[0]) then [s[0]] else []) + Ties(s[1..], x, le)
  }

  lemma {:induction false} InsertMultiset<T>(x: T, s: seq<T>, le: (T, T) -> bool)
    ensures multiset(Insert(x, s, le)) == multiset(s) + multiset{x}
  {
    if s != [] && !le(x, s[0]) {
      InsertMultiset(x, s[1..], le);
      assert s == [s[0]] + s[1..];
    }
  }

  lemma {:induction false} InsertSorted<T(!new)>(x: T, s: seq<T>, le: (T, T) -> bool)
    requires TotalPreorder(le) && Sorted(s, le)
    ensures Sorted(Insert(x, s, le), le)
  {
    if s != [] && !le(x, s[0]) {
      InsertSorted(x, s[1..], le);
      var rest := Insert(x, s[1..], le);
      InsertMultiset(x, s[1..], le);
      forall j | 0 <= j < |rest| ensures le(s[0], rest[j]) {
        assert rest[j] in multiset(rest);
        assert rest[j] == x || rest[j] in s[1..];
      }
    }
  }

  lemma {:induction false} InsertTies<T(!new)>(x: T, s: seq<T>, y: T, le: (T, T) -> bool)
    requires TotalPreorder(le)
    ensures Ties(Insert(x, s, le), y, le) == Ties([x] + s, y, le)
  {
    if s != [] && !le(x, s[0]) {
      InsertTies(x, s[1..], y, le);
      assert ([x] + s[1..])[1..] == s[1..];
      assert ([x] + s)[1..] == s;
      assert Insert(x, s, le)[1..] == Insert(x, s[1..], le);
    }
  }

  /** The sort is a sorted, stable permutation. */
  lemma {:induction false} SortIsStableSort<T(!new)>(s: seq<T>, y: T, le: (T, T) -> bool)
    requires TotalPreorder(le)
    ensures Sorted(Sort(s, le), le)
    ensures multiset(Sort(s, le)) == multiset(s)
    ensures Ties(Sort(s, le), y, le) == Ties(s, y, le)
  {
    if s != [] {
      SortIsStableSort(s[1..], y, le);
      InsertSorted(s[0], Sort(s[1..], le), le);
      InsertMultiset(s[0], Sort(s[1..], le), le);
      InsertTies(s[0], Sort(s[1..], le), y, le);
      assert s == [s[0]] + s[1..];
      assert ([s[0]] + Sort(s[1..], le))[1..] == Sort(s[1..], le);
    }
  }

  /** The first of the sorted list is a member that ranks before or with every member. */
  lemma FirstIsLeast<T(!new)>(s: seq<T>, le: (T, T) -> bool)
    requires TotalPreorder(le) && s != []
    ensures Sort(s, le) != []
    ensures Sort(s, le)[0] in s
    ensures forall x :: x in s ==> le(Sort(s, le)[0], x)
  {
    var sorted := Sort(s, le);
    SortIsStableSort(s, s[0], le);
    assert s[0] in multiset(s);
    assert s[0] in sorted;
    assert sorted[0] in multiset(sorted);
    forall x | x in s ensures le(sorted[0], x) {
      assert x in multiset(s);
      assert x in sorted;
      var j :| 0 <= j < |sorted| && sorted[j] == x;
      assert j == 0 ==> le(x, x);
    }
  }
}
