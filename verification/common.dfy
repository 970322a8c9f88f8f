/** Small generic building blocks shared by the user table and the request
    ledger: an optional value, first-match search, order-preserving filter and
    the fresh-key rule of an integer primary key. */
module Common {

  /** A value that may be absent: the ORM's `None` for a missing row. */
  datatype Option<+T> = None | Some(value: T)

  /** Index of the first element satisfying `p`: a filtered query asked for
      its first row, walking the table in row order. */
  function First<T>(s: seq<T>, p: T -> bool): (o: Option<nat>)
    ensures o.Some? ==> o.value < |s| && p(s[o.value])
    ensures o.Some? ==> forall k :: 0 <= k < o.value ==> !p(s[k])
    ensures o.None? <==> forall k :: 0 <= k < |s| ==> !p(s[k])
  {
    if |s| == 0 then None
    else if p(s[0]) then Some(0)
    else
      match First(s[1..], p)
      case None =>
        assert forall k :: 1 <= k < |s| ==> s[k] == s[1..][k - 1];
        None
      case Some(i) =>
        assert forall k :: 1 <= k <= i + 1 ==> s[k] == s[1..][k - 1];
        Some(i + 1)
  }

  /** The elements of `s` satisfying `p`, in their original order: a filtered
      query asked for all its rows. */
  function Filter<T(==,!new)>(s: seq<T>, p: T -> bool): (r: seq<T>)
    ensures |r| <= |s|
    ensures forall x :: x in r <==> x in s && p(x)
  {
    if |s| == 0 then []
    else
      var rest := Filter(s[1..], p);
      assert s == [s[0]] + s[1..];
      if p(s[0]) then [s[0]] + rest else rest
  }

  /** Filtering keeps every selected element as many times as it occurs and
      drops every other one. */
  lemma {:induction false} FilterMultiset<T(!new)>(s: seq<T>, p: T -> bool)
    ensures forall x :: multiset(Filter(s, p))[x] == if p(x) then multiset(s)[x] else 0
  {
    if |s| > 0 {
      FilterMultiset(s[1..], p);
      assert s == [s[0]] + s[1..];
    }
  }

  /** Filtering keeps order: filtering a concatenation is concatenating the
      filtered parts. */
  lemma {:induction false} FilterAppend<T(!new)>(a: seq<T>, b: seq<T>, p: T -> bool)
    ensures Filter(a + b, p) == Filter(a, p) + Filter(b, p)
  {
    if |a| == 0 {
      assert a + b == b;
    } else {
      var ab := a + b;
      assert ab[0] == a[0] && ab[1..] == a[1..] + b;
      FilterAppend(a[1..], b, p);
      var fa, fb := Filter(a[1..], p), Filter(b, p);
      if p(a[0]) {
        calc {
          Filter(ab, p);
          [a[0]] + Filter(a[1..] + b, p);
          [a[0]] + (fa + fb);
          ([a[0]] + fa) + fb;
          Filter(a, p) + fb;
        }
      } else {
        calc {
          Filter(ab, p);
          Filter(a[1..] + b, p);
          fa + fb;
          Filter(a, p) + fb;
        }
      }
    }
  }

  /** The key an integer primary key column gives a new row when no row was
      ever deleted: one more than the largest key in use, or 1 for an empty
      table. */
  function NextKey<T>(s: seq<T>, key: T -> nat): (k: nat)
    ensures k >= 1
    ensures forall i :: 0 <= i < |s| ==> key(s[i]) < k
    ensures k == 1 || exists i :: 0 <= i < |s| && key(s[i]) == k - 1
  {
    if |s| == 0 then 1
    else
      var rest := NextKey(s[1..], key);
      assert forall i :: 1 <= i < |s| ==> s[i] == s[1..][i - 1];
      if key(s[0]) + 1 > rest then key(s[0]) + 1 else rest
  }
}
