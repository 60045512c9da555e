/** Vocabulary shared by the whole model. */
module Common {

  /** A nullable column or an optional field. */
  datatype Option<+T> = None | Some(value: T)

  /** The first of two optional values that is present. */
  function Coalesce<T>(a: Option<T>, b: Option<T>): Option<T> {
    if a.Some? then a else b
  }

  function Max(a: int, b: int): int {
    if a < b then b else a
  }

  /** The sequence without repetitions. */
  ghost predicate Distinct<T>(s: seq<T>) {
    forall i, j :: 0 <= i < j < |s| ==> s[i] != s[j]
  }

  /** The members that satisfy `p`, in order. */
  function Filter<T(!new)>(s: seq<T>, p: T -> bool): (r: seq<T>)
    ensures forall x :: x in r <==> x in s && p(x)
  {
    if s == [] then []
    else
      var n := |s| - 1;
      assert s == s[..n] + [s[n]];
      Filter(s[..n], p) + if p(s[n]) then [s[n]] else []
  }

  /** The first member that satisfies `p`. */
  function Find<T>(s: seq<T>, p: T -> bool): (r: Option<T>)
    ensures r.Some? ==> r.value in s && p(r.value)
    ensures r.None? ==> forall x :: x in s ==> !p(x)
  {
    if s == [] then None
    else if p(s[0]) then Some(s[0])
    else
      assert s == [s[0]] + s[1..];
      Find(s[1..], p)
  }

  /** How often `x` occurs. */
  function Occurrences<T(==)>(s: seq<T>, x: T): nat {
    if s == [] then 0
    else
      var n := |s| - 1;
      Occurrences(s[..n], x) + if s[n] == x then 1 else 0
  }

  /** A number above all of a finite set. */
  lemma {:induction false} FreshNumber(used: set<nat>) returns (n: nat)
    ensures forall x :: x in used ==> x < n
  {
    if used == {} {
      n := 0;
    } else {
      var x :| x in used;
      var m := FreshNumber(used - {x});
      n := if x < m then m else x + 1;
      forall y | y in used ensures y < n {
        assert y == x || y in used - {x};
      }
    }
  }

  /** A text longer than all of a finite set. */
  lemma {:induction false} FreshText(used: set<string>) returns (t: string)
    ensures forall x :: x in used ==> |x| < |t|
  {
    if used == {} {
      t := [];
    } else {
      var x :| x in used;
      var shorter := FreshText(used - {x});
      t := (if |x| < |shorter| then shorter else x) + " ";
      forall y | y in used ensures |y| < |t| {
        assert y == x || y in used - {x};
      }
    }
  }
}
