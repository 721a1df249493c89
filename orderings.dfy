/**
 * Three-way comparison as the bot's orderings use it (`std::cmp::Ordering`,
 * `cmp`, `then_with`), and the sorting they feed (`sort_unstable`,
 * `into_sorted_vec`, `reverse`). Sorting by a total order has exactly one
 * result, so sorting is modelled by one stable insertion sort.
 */
module Orderings {

  datatype Ordering = Less | Equal | Greater

  function Flip(o: Ordering): Ordering
  {
    match o
    case Less => Greater
    case Equal => Equal
    case Greater => Less
  }

  /** `cmp` on integers. */
  function CmpInt(x: int, y: int): (r: Ordering)
    ensures r == Less <==> x < y
    ensures r == Equal <==> x == y
    ensures r == Greater <==> x > y
  {
    if x < y then Less else if x == y then Equal else Greater
  }

  /** `then_with`: the second comparison decides only a tie of the first. */
  function ThenWith(first: Ordering, second: Ordering): (r: Ordering)
    ensures first != Equal ==> r == first
    ensures first == Equal ==> r == second
  {
    if first == Equal then second else first
  }

  /** `cmp` is a total order consistent with equality. */
  ghost predicate TotalOrder<T(!new)>(cmp: (T, T) -> Ordering)
  {
    && (forall a, b :: cmp(a, b) == Flip(cmp(b, a)))
    && (forall a, b :: cmp(a, b) == Equal <==> a == b)
    && (forall a, b, c :: cmp(a, b) == Less && cmp(b, c) == Less ==> cmp(a, c) == Less)
  }

  /** Ascending under `cmp`. */
  predicate Ascending<T>(s: seq<T>, cmp: (T, T) -> Ordering)
  {
    forall i, j :: 0 <= i < j < |s| ==> cmp(s[i], s[j]) != Greater
  }

  /** Descending under `cmp`. */
  predicate Descending<T>(s: seq<T>, cmp: (T, T) -> Ordering)
  {
    forall i, j :: 0 <= i < j < |s| ==> cmp(s[i], s[j]) != Less
  }

  /** `x` put before the first element of `s` that is not smaller. */
  function Insert<T>(x: T, s: seq<T>, cmp: (T, T) -> Ordering): (r: seq<T>)
    ensures multiset(r) == multiset(s) + multiset{x}
    ensures |r| == |s| + 1
  {
    if s == [] then [x]
    else if cmp(x, s[0]) != Greater then [x] + s
    else
      assert s == [s[0]] + s[1..];
      [s[0]] + Insert(x, s[1..], cmp)
  }

  /** The elements of `s`, sorted ascending. */
  function Sort<T>(s: seq<T>, cmp: (T, T) -> Ordering): (r: seq<T>)
    ensures multiset(r) == multiset(s)
    ensures |r| == |s|
  {
    if s == [] then []
    else
      assert s == [s[0]] + s[1..];
      Insert(s[0], Sort(s[1..], cmp), cmp)
  }

  /** `x` is not greater than any element of `s`. */
  predicate LowerBound<T(==)>(x: T, s: seq<T>, cmp: (T, T) -> Ordering)
  {
    forall y :: y in s ==> cmp(x, y) != Greater
  }

  lemma LessOrEqualTransitive<T(!new)>(a: T, b: T, c: T, cmp: (T, T) -> Ordering)
    requires TotalOrder(cmp) && cmp(a, b) != Greater && cmp(b, c) != Greater
    ensures cmp(a, c) != Greater
  {
    if cmp(a, b) == Equal {
      assert a == b;
    } else if cmp(b, c) == Equal {
      assert b == c;
    } else {
      assert cmp(a, c) == Less;
    }
  }

  lemma AscendingCons<T>(x: T, s: seq<T>, cmp: (T, T) -> Ordering)
    requires LowerBound(x, s, cmp) && Ascending(s, cmp)
    ensures Ascending([x] + s, cmp)
  {
    var r := [x] + s;
    forall i, j | 0 <= i < j < |r|
      ensures cmp(r[i], r[j]) != Greater
    {
      if i == 0 {
        assert r[j] == s[j - 1];
      } else {
        assert r[i] == s[i - 1] && r[j] == s[j - 1];
      }
    }
  }

  lemma {:induction false} InsertAscending<T(!new)>(x: T, s: seq<T>, cmp: (T, T) -> Ordering)
    requires TotalOrder(cmp) && Ascending(s, cmp)
    ensures Ascending(Insert(x, s, cmp), cmp)
  {
    if s == [] {
    } else if cmp(x, s[0]) != Greater {
      forall y | y in s
        ensures cmp(x, y) != Greater
      {
        var k :| 0 <= k < |s| && s[k] == y;
        if k > 0 {
          LessOrEqualTransitive(x, s[0], y, cmp);
        }
      }
      AscendingCons(x, s, cmp);
    } else {
      var rest := Insert(x, s[1..], cmp);
      assert Ascending(s[1..], cmp) by {
        forall i, j | 0 <= i < j < |s[1..]|
          ensures cmp(s[1..][i], s[1..][j]) != Greater
        {
          assert s[1..][i] == s[i + 1] && s[1..][j] == s[j + 1];
        }
      }
      InsertAscending(x, s[1..], cmp);
      forall y | y in rest
        ensures cmp(s[0], y) != Greater
      {
        assert y in multiset(rest);
        if y != x {
          assert y in multiset(s[1..]);
          var k :| 0 <= k < |s[1..]| && s[1..][k] == y;
          assert s[k + 1] == y;
        }
      }
      AscendingCons(s[0], rest, cmp);
    }
  }

  /** Sorting yields an ascending permutation. */
  lemma {:induction false} SortAscending<T(!new)>(s: seq<T>, cmp: (T, T) -> Ordering)
    requires TotalOrder(cmp)
    ensures Ascending(Sort(s, cmp), cmp)
  {
    if s != [] {
      SortAscending(s[1..], cmp);
      InsertAscending(s[0], Sort(s[1..], cmp), cmp);
    }
  }

  /** `reverse`. */
  function Reversed<T>(s: seq<T>): (r: seq<T>)
    ensures |r| == |s|
    ensures forall i :: 0 <= i < |s| ==> r[i] == s[|s| - 1 - i]
  {
    if s == [] then [] else Reversed(s[1..]) + [s[0]]
  }

  lemma ReversedMultiset<T>(s: seq<T>)
    ensures multiset(Reversed(s)) == multiset(s)
  {
    if s != [] {
      assert s == [s[0]] + s[1..];
      ReversedMultiset(s[1..]);
    }
  }

  /** Reversing an ascending sequence makes it descending. */
  lemma ReversedDescending<T(!new)>(s: seq<T>, cmp: (T, T) -> Ordering)
    requires TotalOrder(cmp) && Ascending(s, cmp)
    ensures Descending(Reversed(s), cmp)
  {
    var r := Reversed(s);
    forall i, j | 0 <= i < j < |r|
      ensures cmp(r[i], r[j]) != Less
    {
      assert cmp(s[|s| - 1 - j], s[|s| - 1 - i]) != Greater;
    }
  }
}
