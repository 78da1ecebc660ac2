/** Sequences used as lists of distinct elements. */
module Lists {

  ghost predicate Distinct<T>(list: seq<T>) {
    forall i, j :: 0 <= i < j < |list| ==> list[i] != list[j]
  }

  function Without<T(==,!new)>(list: seq<T>, t: T): (r: seq<T>)
    ensures forall x :: x in r <==> x in list && x != t
  {
    if list == [] then []
    else if list[0] == t then Without(list[1..], t)
    else [list[0]] + Without(list[1..], t)
  }

  function InsertAt<T>(list: seq<T>, k: nat, t: T): (r: seq<T>)
    requires k <= |list|
    ensures |r| == |list| + 1 && r[k] == t
    ensures forall i :: 0 <= i < k ==> r[i] == list[i]
    ensures forall i :: k < i <= |list| ==> r[i] == list[i - 1]
  {
    list[..k] + [t] + list[k..]
  }

  lemma {:induction false} WithoutAbsent<T(!new)>(list: seq<T>, t: T)
    requires t !in list
    ensures Without(list, t) == list
  {
    if list != [] {
      WithoutAbsent(list[1..], t);
      assert list == [list[0]] + list[1..];
    }
  }

  /** Taking out an element of a list without repetitions closes one gap. */
  lemma {:induction false} WithoutAt<T(!new)>(list: seq<T>, k: nat)
    requires Distinct(list) && k < |list|
    ensures Without(list, list[k]) == list[..k] + list[k + 1..]
  {
    if k == 0 {
      assert list[0] !in list[1..];
      WithoutAbsent(list[1..], list[0]);
    } else {
      WithoutAt(list[1..], k - 1);
      assert list[..k] + list[k + 1..] == [list[0]] + (list[1..][..k - 1] + list[1..][k..]);
    }
  }

  lemma WithoutIsDistinct<T(!new)>(list: seq<T>, t: T)
    requires Distinct(list)
    ensures Distinct(Without(list, t))
  {
    if t in list {
      var k :| 0 <= k < |list| && list[k] == t;
      WithoutAt(list, k);
    } else {
      WithoutAbsent(list, t);
    }
  }

  lemma InsertMembers<T>(list: seq<T>, k: nat, t: T)
    requires k <= |list|
    ensures forall x :: x in InsertAt(list, k, t) <==> x in list || x == t
  {
    assert list == list[..k] + list[k..];
  }

  lemma InsertIsDistinct<T>(list: seq<T>, k: nat, t: T)
    requires Distinct(list) && t !in list && k <= |list|
    ensures Distinct(InsertAt(list, k, t))
  {
  }

  /** Distinct numbers below n are no more than n. */
  lemma {:induction false} Pigeonhole(list: seq<nat>, n: nat)
    requires Distinct(list) && forall x :: x in list ==> x < n
    ensures |list| <= n
  {
    if list != [] {
      assert list[0] in list;
      if n - 1 in list {
        var i :| 0 <= i < |list| && list[i] == n - 1;
        var rest := list[..i] + list[i + 1..];
        forall x | x in rest ensures x < n - 1 {
          var j :| 0 <= j < |rest| && rest[j] == x;
          assert x == list[if j < i then j else j + 1];
          assert x in list;
        }
        Pigeonhole(rest, n - 1);
      } else {
        Pigeonhole(list, n - 1);
      }
    }
  }

  /** And if they are n, they are all of them. */
  lemma NoneMissing(list: seq<nat>, n: nat, x: nat)
    requires Distinct(list) && (forall y :: y in list ==> y < n) && |list| == n && x < n
    ensures x in list
  {
    if x !in list {
      Pigeonhole(list + [x], n);
    }
  }
}
