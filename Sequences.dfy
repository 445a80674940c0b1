/**
 * Specification functions for deleting payloads from a sequence by identity,
 * and the facts about them that give FastList.Remove its meaning.
 */
module Sequences {

  /** s with every occurrence of x deleted; the other elements keep their order. */
  function Erase<T(==)>(s: seq<T>, x: T): (r: seq<T>)
    ensures |r| <= |s|
    ensures x !in r
    ensures forall y :: y in r ==> y in s
  {
    if s == [] then []
    else if s[0] == x then Erase(s[1..], x)
    else [s[0]] + Erase(s[1..], x)
  }

  /** s with only its first occurrence of x deleted (s itself when x is absent). */
  function EraseFirst<T(==)>(s: seq<T>, x: T): (r: seq<T>)
    ensures x in s ==> |r| == |s| - 1
    ensures x !in s ==> r == s
  {
    if s == [] then []
    else if s[0] == x then s[1..]
    else [s[0]] + EraseFirst(s[1..], x)
  }

  /** Erasing distributes over concatenation: a forward scan may erase piecewise. */
  lemma {:induction false} EraseAppend<T>(a: seq<T>, b: seq<T>, x: T)
    ensures Erase(a + b, x) == Erase(a, x) + Erase(b, x)
  {
    if a == [] {
      assert a + b == b;
    } else {
      assert (a + b)[1..] == a[1..] + b;
      EraseAppend(a[1..], b, x);
    }
  }

  /** s without its element at index p. */
  function Cut<T>(s: seq<T>, p: nat): (r: seq<T>)
    requires p < |s|
    ensures |r| == |s| - 1
    decreases p
  {
    if p == 0 then s[1..] else [s[0]] + Cut(s[1..], p - 1)
  }

  /** Cut keeps the elements before p in place and shifts those after p down by one. */
  lemma {:induction false} CutAt<T>(s: seq<T>, p: nat)
    requires p < |s|
    ensures forall i {:trigger Cut(s, p)[i]} :: 0 <= i < |s| - 1 ==> Cut(s, p)[i] == if i < p then s[i] else s[i + 1]
    decreases p
  {
    if p > 0 {
      var t := Cut(s[1..], p - 1);
      assert Cut(s, p) == [s[0]] + t;
      CutAt(s[1..], p - 1);
      forall i | 0 <= i < |s| - 1
        ensures Cut(s, p)[i] == if i < p then s[i] else s[i + 1]
      {
        if i > 0 {
          assert Cut(s, p)[i] == t[i - 1];
        }
      }
    }
  }

  /** Cut agrees with the slicing formulation. */
  lemma CutIs<T>(s: seq<T>, p: nat)
    requires p < |s|
    ensures Cut(s, p) == s[..p] + s[p + 1..]
  {
    CutAt(s, p);
  }

  /** Cutting the head of s out of a + s, at index |a|, leaves a + s[1..]. */
  lemma {:induction false} CutHead<T>(a: seq<T>, s: seq<T>)
    requires s != []
    ensures Cut(a + s, |a|) == a + s[1..]
    decreases |a|
  {
    if a != [] {
      assert (a + s)[1..] == a[1..] + s;
      CutHead(a[1..], s);
      assert a == [a[0]] + a[1..];
    }
  }

  /**
   * Cutting out the element just inserted at position k gives back the original
   * sequence: for a cursor on the list (k < |s|), an Insert, a Prev back onto the
   * new tray, then a Remove.
   */
  lemma CutUndoesInsert<T>(s: seq<T>, k: nat, x: T)
    requires k <= |s|
    ensures Cut(s[..k] + [x] + s[k..], k) == s
  {
    CutHead(s[..k], [x] + s[k..]);
    assert s[..k] + [x] + s[k..] == s[..k] + ([x] + s[k..]);
    assert ([x] + s[k..])[1..] == s[k..];
  }

  /** Moving the head of s over to the end of a keeps a + s. */
  lemma MoveHead<T>(a: seq<T>, s: seq<T>)
    requires s != []
    ensures (a + [s[0]]) + s[1..] == a + s
  {
    assert s == [s[0]] + s[1..];
  }

  /** Cutting one element out of s leaves a sequence r whose elements are all among the members of big. */
  lemma CutWithin<T>(s: seq<T>, p: nat, r: seq<T>, big: seq<T>)
    requires p < |s| && r == Cut(s, p)
    requires forall i :: 0 <= i < |s| ==> s[i] in big
    ensures forall i :: 0 <= i < |r| ==> r[i] in big
  {
    CutAt(s, p);
    forall i | 0 <= i < |r|
      ensures r[i] in big
    {
      assert r[i] == if i < p then s[i] else s[i + 1];
    }
  }

  /** Erasing a payload that is not there leaves the sequence unchanged. */
  lemma {:induction false} EraseAbsent<T>(s: seq<T>, x: T)
    requires x !in s
    ensures Erase(s, x) == s
  {
    if s != [] {
      assert s == [s[0]] + s[1..];
      EraseAbsent(s[1..], x);
    }
  }

  /** Erase removes every copy of x and no copy of anything else. */
  lemma {:induction false} EraseMultiset<T>(s: seq<T>, x: T)
    ensures multiset(Erase(s, x)) == multiset(s)[x := 0]
  {
    if s != [] {
      assert s == [s[0]] + s[1..];
      EraseMultiset(s[1..], x);
    }
  }

  /** EraseFirst cuts out exactly the first index holding x. */
  lemma {:induction false} EraseFirstAt<T>(s: seq<T>, x: T, k: nat)
    requires k < |s| && s[k] == x && x !in s[..k]
    ensures EraseFirst(s, x) == s[..k] + s[k + 1..]
  {
    if k > 0 {
      assert s[0] in s[..k];
      assert s[1..][..k - 1] == s[1..k];
      EraseFirstAt(s[1..], x, k - 1);
      assert s[1..][k..] == s[k + 1..];
      assert s[..k] == [s[0]] + s[1..k];
    }
  }

  /** EraseFirst removes one copy of x and nothing else. */
  lemma {:induction false} EraseFirstMultiset<T>(s: seq<T>, x: T)
    requires x in s
    ensures multiset(EraseFirst(s, x)) == multiset(s) - multiset{x}
  {
    assert s == [s[0]] + s[1..];
    if s[0] != x {
      EraseFirstMultiset(s[1..], x);
    }
  }

  /** s and t have the same first n elements. */
  ghost predicate Agree<T>(s: seq<T>, t: seq<T>, n: int)
  {
    0 <= n <= |s| && n <= |t| && forall j :: 0 <= j < n ==> s[j] == t[j]
  }
}
