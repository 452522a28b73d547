/** Small shared vocabulary: optional values, the faults a Java call can
    raise, and the list operations that `java.util.ArrayList` provides. */
module Common {

  /** A Java reference that may be null. */
  datatype Option<+T> = None | Some(value: T)

  /** Exceptions a modelled Java call can end in. */
  datatype Fault =
    | NullDereference            // a NullPointerException
    | UnresolvedDependency       // the exception thrown by the default Component.shutdown()
    | ShutdownRefused            // an exception thrown by an overriding shutdown()

  /** Number of occurrences of `x` in `s`. */
  function Count<T(==)>(s: seq<T>, x: T): nat
  {
    if s == [] then 0 else (if s[0] == x then 1 else 0) + Count(s[1..], x)
  }

  /** No element occurs twice. */
  predicate NoDup<T(==)>(s: seq<T>)
  {
    forall i, j :: 0 <= i < j < |s| ==> s[i] != s[j]
  }

  /** Index of the first occurrence of `x`, which must occur. */
  function FirstIndex<T(==)>(s: seq<T>, x: T): (i: nat)
    requires x in s
    ensures i < |s| && s[i] == x && x !in s[..i]
  {
    if s[0] == x then 0 else
      var k := FirstIndex(s[1..], x);
      assert s[1..][..k] == s[1..k + 1];
      1 + k
  }

  /** `ArrayList.remove(Object)`: drops the first occurrence of `x`, if any. */
  function RemoveFirst<T(==)>(s: seq<T>, x: T): (r: seq<T>)
    ensures x !in s ==> r == s
    ensures x in s ==> r == s[..FirstIndex(s, x)] + s[FirstIndex(s, x) + 1..]
    ensures x in s ==> |r| == |s| - 1
    ensures multiset(r) == multiset(s) - multiset{x}
  {
    if x !in s then s
    else
      var i := FirstIndex(s, x);
      assert s == s[..i] + [s[i]] + s[i + 1..];
      s[..i] + s[i + 1..]
  }

  lemma CountMultiset<T>(s: seq<T>, x: T)
    ensures Count(s, x) == multiset(s)[x]
  {
    if s != [] {
      assert s == [s[0]] + s[1..];
      CountMultiset(s[1..], x);
    }
  }

  /** Removing the first `x` lowers the count of `x` by one and keeps every
      other element's count. */
  lemma RemoveFirstCount<T>(s: seq<T>, x: T, y: T)
    ensures Count(RemoveFirst(s, x), y) ==
      if x == y && x in s then Count(s, y) - 1 else Count(s, y)
  {
    CountMultiset(s, y);
    CountMultiset(RemoveFirst(s, x), y);
    if x == y && x in s {
      assert multiset(s)[x] > 0;
    }
  }

  lemma CountAppend<T>(a: seq<T>, b: seq<T>, x: T)
    ensures Count(a + b, x) == Count(a, x) + Count(b, x)
  {
    CountMultiset(a + b, x);
    CountMultiset(a, x);
    CountMultiset(b, x);
  }

  lemma CountPositive<T>(s: seq<T>, x: T)
    ensures Count(s, x) > 0 <==> x in s
  {
    CountMultiset(s, x);
  }

  /** In a list without duplicates every element occurs once. */
  lemma {:induction false} CountNoDup<T>(s: seq<T>, x: T)
    requires NoDup(s)
    ensures Count(s, x) == if x in s then 1 else 0
  {
    if s != [] {
      assert NoDup(s[1..]) by {
        forall i, j | 0 <= i < j < |s[1..]| ensures s[1..][i] != s[1..][j] {
          assert s[1..][i] == s[i + 1] && s[1..][j] == s[j + 1];
        }
      }
      CountNoDup(s[1..], x);
      if s[0] == x {
        forall k | 0 <= k < |s[1..]| ensures s[1..][k] != x {
          assert s[1..][k] == s[k + 1];
        }
      }
      assert x in s <==> s[0] == x || x in s[1..];
    }
  }

  /** Appending a list that holds `x` twice adds at least two to its count. */
  lemma CountTwice<T>(a: seq<T>, b: seq<T>, x: T)
    requires x in b
    ensures Count(a + b + b, x) >= Count(a, x) + 2
  {
    CountPositive(b, x);
    CountAppend(a, b, x);
    CountAppend(a + b, b, x);
  }
}
