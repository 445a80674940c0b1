/**
 * An intrusive doubly-linked list whose nodes ("trays") come from an object
 * pool, and a cursor over it.
 *
 * Every list carries two ghost sequences: `nodes`, its trays from head to tail,
 * and `contents`, the payload each of those trays refers to. `Valid()` ties the
 * concrete fields (first, last, count and each tray's prev/next links) to
 * `nodes`, so every operation is specified against `contents`.
 */
module FastLists {
  import opened Wrappers
  import opened Sequences

  /** The caller-owned object a tray refers to; the list compares payloads by identity only. */
  class Payload {
  }

  /** A pool-managed list node: a payload reference and the two neighbour links. */
  class Tray {
    var item: Payload?
    var prev: Tray?
    var next: Tray?

    constructor ()
      ensures item == null && prev == null && next == null
    {
      item := null;
      prev := null;
      next := null;
    }

    /** Return the tray to its blank state. */
    method Initialize()
      modifies this
      ensures item == null && prev == null && next == null
    {
      item := null;
      prev := null;
      next := null;
    }
  }

  /**
   * The pool's "get an object of kind list-tray", followed by the three field
   * writes every caller makes at once. The tray belongs to no list; its Employ
   * hook does nothing. Giving a tray back to the pool (Retire is a no-op too)
   * is modelled by dropping it from a list's nodes.
   */
  method AcquireTray(item: Payload, prev: Tray?, next: Tray?) returns (t: Tray)
    ensures fresh(t)
    ensures t.item == item && t.prev == prev && t.next == next
  {
    t := new Tray();
    t.item, t.prev, t.next := item, prev, next;
  }

  /** Positions i and j hold different trays unless they are the same position. */
  ghost predicate Differ(nodes: seq<Tray>, i: int, j: int)
    requires 0 <= i < |nodes| && 0 <= j < |nodes|
  {
    i == j || nodes[i] != nodes[j]
  }

  /** No tray occurs twice, so walking the links cannot cycle. */
  ghost predicate Distinct(nodes: seq<Tray>)
  {
    forall i, j :: 0 <= i < |nodes| && 0 <= j < |nodes| ==> Differ(nodes, i, j)
  }

  /** No tray belongs to both chains. */
  ghost predicate Disjoint(a: seq<Tray>, b: seq<Tray>)
  {
    forall i, j :: 0 <= i < |a| && 0 <= j < |b| ==> a[i] != b[j]
  }

  /** Tray i's prev and next links point at its neighbours in `nodes`, null at the ends. */
  ghost predicate LinkedAt(nodes: seq<Tray>, i: int)
    reads nodes
    requires 0 <= i < |nodes|
  {
    nodes[i].prev == (if i == 0 then null else nodes[i - 1])
    && nodes[i].next == (if i + 1 == |nodes| then null else nodes[i + 1])
  }

  /** Every tray is linked to its neighbours. */
  ghost predicate Linked(nodes: seq<Tray>)
    reads nodes
  {
    forall i :: 0 <= i < |nodes| ==> LinkedAt(nodes, i)
  }

  /** Tray i carries payload i. */
  ghost predicate Carries(nodes: seq<Tray>, contents: seq<Payload>, i: int)
    reads nodes
    requires 0 <= i < |nodes| && |contents| == |nodes|
  {
    nodes[i].item == contents[i]
  }

  /** A well-formed chain: distinct trays, consistent links, tray i carrying payload i. */
  ghost predicate Chain(nodes: seq<Tray>, contents: seq<Payload>)
    reads nodes
  {
    |contents| == |nodes| && Distinct(nodes) && Linked(nodes)
    && (forall i :: 0 <= i < |nodes| ==> Carries(nodes, contents, i))
  }

  /** The position of tray t in the chain. */
  ghost function IndexOf(nodes: seq<Tray>, t: Tray): (k: nat)
    requires t in nodes
    ensures k < |nodes| && nodes[k] == t
  {
    var k :| 0 <= k < |nodes| && nodes[k] == t; k
  }

  /** The tray reached by following k next-links from t (stopping at null). */
  ghost function Follow(nodes: seq<Tray>, t: Tray?, k: nat): (r: Tray?)
    reads nodes
    requires Linked(nodes)
    requires t == null || t in nodes
    ensures r == null || r in nodes
    decreases k
  {
    if k == 0 || t == null then t
    else
      assert LinkedAt(nodes, IndexOf(nodes, t));
      Follow(nodes, t.next, k - 1)
  }

  /** What FastList.Remove leaves of s: every copy of x, or only the first, deleted. */
  ghost function Removed(s: seq<Payload?>, x: Payload?, multiple: bool): seq<Payload?>
  {
    if multiple then Erase(s, x) else EraseFirst(s, x)
  }

  /**
   * The trays FastList.Remove keeps of ns, where cs lists their payloads:
   * tray by tray, the counterpart of Removed.
   */
  ghost function Kept(ns: seq<Tray>, cs: seq<Payload?>, x: Payload?, multiple: bool): seq<Tray>
    requires |ns| == |cs|
    decreases |ns|
  {
    if ns == [] then []
    else if cs[0] == x then (if multiple then Kept(ns[1..], cs[1..], x, multiple) else ns[1..])
    else [ns[0]] + Kept(ns[1..], cs[1..], x, multiple)
  }

  /** Removing a payload that no tray carries keeps every tray. */
  lemma {:induction false} KeptAbsent(ns: seq<Tray>, cs: seq<Payload?>, x: Payload?, multiple: bool)
    requires |ns| == |cs| && x !in cs
    ensures Kept(ns, cs, x, multiple) == ns
    decreases |ns|
  {
    if ns != [] {
      assert x !in cs[1..] by { assert forall y :: y in cs[1..] ==> y in cs; }
      KeptAbsent(ns[1..], cs[1..], x, multiple);
      assert ns == [ns[0]] + ns[1..];
    }
  }

  /** Every tray carrying another payload survives the removal. */
  lemma {:induction false} KeptOthers(ns: seq<Tray>, cs: seq<Payload?>, x: Payload?, multiple: bool)
    requires |ns| == |cs|
    ensures forall i :: 0 <= i < |ns| && cs[i] != x ==> ns[i] in Kept(ns, cs, x, multiple)
    decreases |ns|
  {
    if ns != [] {
      KeptOthers(ns[1..], cs[1..], x, multiple);
      forall i | 0 <= i < |ns| && cs[i] != x
        ensures ns[i] in Kept(ns, cs, x, multiple)
      {
        if i > 0 {
          assert ns[i] == ns[1..][i - 1] && cs[i] == cs[1..][i - 1];
        }
      }
    }
  }

  /** A single removal cuts out exactly the first tray carrying x, keeping all others in order. */
  lemma {:induction false} KeptFirstAt(ns: seq<Tray>, cs: seq<Payload?>, x: Payload?, k: nat)
    requires |ns| == |cs| && k < |cs| && cs[k] == x && x !in cs[..k]
    ensures Kept(ns, cs, x, false) == Cut(ns, k)
    decreases k
  {
    if k > 0 {
      assert cs[0] in cs[..k];
      assert cs[1..][..k - 1] == cs[1..k];
      assert x !in cs[1..][..k - 1] by { assert forall y :: y in cs[1..k] ==> y in cs[..k]; }
      KeptFirstAt(ns[1..], cs[1..], x, k - 1);
    }
  }

  /** The same bookkeeping for the trays origN that carry orig. */
  ghost predicate ScannedTrays(orig: seq<Payload?>, origN: seq<Tray>, rest: seq<Payload?>,
                               doneN: seq<Tray>, restN: seq<Tray>, x: Payload?, multiple: bool)
  {
    |origN| == |orig| && |restN| == |rest|
    && Kept(origN, orig, x, multiple) == doneN + Kept(restN, rest, x, multiple)
  }

  /** A scan step that meets x: the rest loses its head, and a single removal is complete. */
  lemma ScanMatch(goal: seq<Payload?>, done: seq<Payload?>, rest: seq<Payload?>, x: Payload?, multiple: bool)
    requires rest != [] && rest[0] == x
    requires goal == done + Removed(rest, x, multiple)
    ensures multiple ==> goal == done + Removed(rest[1..], x, multiple)
    ensures !multiple ==> goal == done + rest[1..]
  {
  }

  /** A scan step that meets x cuts the head tray of the rest; a single removal then keeps the remaining trays. */
  lemma TraysMatch(orig: seq<Payload?>, origN: seq<Tray>, rest: seq<Payload?>,
                   doneN: seq<Tray>, restN: seq<Tray>, x: Payload?, multiple: bool)
    requires ScannedTrays(orig, origN, rest, doneN, restN, x, multiple) && rest != [] && rest[0] == x
    ensures Cut(doneN + restN, |doneN|) == doneN + restN[1..]
    ensures multiple ==> ScannedTrays(orig, origN, rest[1..], doneN, restN[1..], x, multiple)
    ensures !multiple ==> Kept(origN, orig, x, multiple) == doneN + restN[1..]
  {
    CutHead(doneN, restN);
  }

  /** A scan step past a different payload moves it from the rest onto the kept prefix. */
  lemma ScanKeep(goal: seq<Payload?>, done: seq<Payload?>, rest: seq<Payload?>, x: Payload?, multiple: bool)
    requires rest != [] && rest[0] != x
    requires goal == done + Removed(rest, x, multiple)
    ensures goal == (done + [rest[0]]) + Removed(rest[1..], x, multiple)
  {
    assert done + ([rest[0]] + Removed(rest[1..], x, multiple)) == (done + [rest[0]]) + Removed(rest[1..], x, multiple);
  }

  /** A scan step past a different payload moves its tray onto the kept prefix. */
  lemma TraysKeep(orig: seq<Payload?>, origN: seq<Tray>, rest: seq<Payload?>,
                  doneN: seq<Tray>, restN: seq<Tray>, x: Payload?, multiple: bool)
    requires ScannedTrays(orig, origN, rest, doneN, restN, x, multiple) && rest != [] && rest[0] != x
    ensures doneN + restN == (doneN + [restN[0]]) + restN[1..]
    ensures ScannedTrays(orig, origN, rest[1..], doneN + [restN[0]], restN[1..], x, multiple)
  {
    MoveHead(doneN, restN);
    assert doneN + ([restN[0]] + Kept(restN[1..], rest[1..], x, multiple))
      == (doneN + [restN[0]]) + Kept(restN[1..], rest[1..], x, multiple);
  }

  class FastList {
    var count: int
    var first: Tray?
    var last: Tray?
    /** The embedded default cursor; only Initialize, Clear and TransferContentsTo touch it. */
    var iteratorCur: Tray?

    ghost var nodes: seq<Tray>
    ghost var contents: seq<Payload>

    ghost predicate Valid()
      reads this, nodes
    {
      count == |nodes|
      && first == (if nodes == [] then null else nodes[0])
      && last == (if nodes == [] then null else nodes[|nodes| - 1])
      && Chain(nodes, contents)
    }

    /** The end conditions the link structure guarantees. */
    lemma ValidEnds()
      requires Valid()
      ensures (first == null <==> last == null) && (first == null <==> count == 0)
      ensures first != null ==> first.prev == null
      ensures last != null ==> last.next == null
    {
      if count > 0 {
        assert LinkedAt(nodes, 0) && LinkedAt(nodes, count - 1);
      }
    }

    /** count is the number of trays reached by walking next-links from first. */
    lemma {:induction false} CountIsReachable()
      requires Valid()
      ensures forall k :: 0 <= k < count ==> Follow(nodes, first, k) == nodes[k]
      ensures Follow(nodes, first, count) == null
    {
      forall k | 0 <= k <= count
        ensures Follow(nodes, first, k) == if k < count then nodes[k] else null
      {
        if count > 0 {
          FollowFrom(0, k);
        }
      }
    }

    lemma {:induction false} FollowFrom(i: nat, k: nat)
      requires Valid() && i < |nodes| && i + k <= |nodes|
      ensures Follow(nodes, nodes[i], k) == if i + k < |nodes| then nodes[i + k] else null
      decreases k
    {
      if k > 0 {
        Neighbours(i);
        if i + 1 < |nodes| {
          FollowFrom(i + 1, k - 1);
        } else {
          assert Follow(nodes, nodes[i], k) == Follow(nodes, null, k - 1);
        }
      }
    }

    /**
     * Splicing a fresh tray t in at position k keeps the chain well formed,
     * provided only the links of its two new neighbours were redirected to t.
     */
    twostate lemma SplicedIn(k: nat, new t: Tray)
      requires old(Valid()) && k <= old(|nodes|) && fresh(t)
      requires count == old(count) + 1
      requires first == (if k == 0 then t else old(first))
      requires last == (if k == old(|nodes|) then t else old(last))
      requires nodes == old(nodes)[..k] + [t] + old(nodes)[k..]
      requires |contents| == |nodes| && t.item == contents[k]
      requires contents == old(contents)[..k] + [contents[k]] + old(contents)[k..]
      requires t.prev == (if k == 0 then null else nodes[k - 1])
      requires t.next == (if k + 1 == |nodes| then null else nodes[k + 1])
      requires k > 0 ==> nodes[k - 1].next == t
      requires k + 1 < |nodes| ==> nodes[k + 1].prev == t
      requires forall x :: x in old(nodes) ==> x.item == old(x.item)
      requires forall x :: x in old(nodes) && (k == 0 || x != old(nodes)[k - 1]) ==> x.next == old(x.next)
      requires forall x :: x in old(nodes) && (k == old(|nodes|) || x != old(nodes)[k]) ==> x.prev == old(x.prev)
      ensures Valid()
    {
      var ns, cs, nn, nc := old(nodes), old(contents), nodes, contents;
      forall i | 0 <= i < |nn|
        ensures LinkedAt(nn, i)
      {
        if i < k {
          assert nn[i] == ns[i] && old(LinkedAt(ns, i));
          if k < |ns| {
            assert Differ(ns, i, k);
          }
          if i + 1 < k {
            assert Differ(ns, i, k - 1);
          }
        } else if i > k {
          assert nn[i] == ns[i - 1] && old(LinkedAt(ns, i - 1));
          if k > 0 {
            assert Differ(ns, i - 1, k - 1);
          }
          if i > k + 1 {
            assert Differ(ns, i - 1, k);
          }
        }
      }
      forall i, j | 0 <= i < |nn| && 0 <= j < |nn|
        ensures Differ(nn, i, j)
      {
        if i != k && j != k {
          assert Differ(ns, if i < k then i else i - 1, if j < k then j else j - 1);
        }
      }
      forall i | 0 <= i < |nn|
        ensures Carries(nn, nc, i)
      {
        if i < k {
          assert nn[i] == ns[i] && nc[i] == cs[i] && old(Carries(ns, cs, i));
        } else if i > k {
          assert nn[i] == ns[i - 1] && nc[i] == cs[i - 1] && old(Carries(ns, cs, i - 1));
        }
      }
    }

    /**
     * Cutting the tray at position k out of the chain keeps it well formed,
     * provided only its two neighbours' links were redirected past it.
     */
    twostate lemma CutOut(k: nat)
      requires old(Valid()) && k < old(|nodes|)
      requires count == old(count) - 1
      requires first == (if k == 0 then old(nodes[k].next) else old(first))
      requires last == (if k + 1 == old(|nodes|) then old(nodes[k].prev) else old(last))
      requires nodes == Cut(old(nodes), k) && contents == Cut(old(contents), k)
      requires var ns := old(nodes); k > 0 ==> ns[k - 1].next == old(ns[k].next)
      requires var ns := old(nodes); k + 1 < |ns| ==> ns[k + 1].prev == old(ns[k].prev)
      requires forall x :: x in old(nodes) ==> x.item == old(x.item)
      requires forall x :: x in old(nodes) && (k == 0 || x != old(nodes)[k - 1]) ==> x.next == old(x.next)
      requires forall x :: x in old(nodes) && (k + 1 == old(|nodes|) || x != old(nodes)[k + 1]) ==> x.prev == old(x.prev)
      ensures Valid()
    {
      var ns, cs, nn, nc := old(nodes), old(contents), nodes, contents;
      CutAt(ns, k);
      CutAt(cs, k);
      assert old(LinkedAt(ns, k));
      forall i | 0 <= i < |nn|
        ensures LinkedAt(nn, i)
      {
        if i < k {
          assert nn[i] == ns[i] && old(LinkedAt(ns, i));
          if k + 1 < |ns| {
            assert Differ(ns, i, k + 1);
          }
          if i + 1 < k {
            assert Differ(ns, i, k - 1);
          } else {
            assert old(LinkedAt(ns, k));
          }
        } else {
          assert nn[i] == ns[i + 1] && old(LinkedAt(ns, i + 1));
          if k > 0 {
            assert Differ(ns, i + 1, k - 1);
          }
          if i == k {
            assert old(LinkedAt(ns, k));
          } else if i + 1 < |ns| {
            assert Differ(ns, i + 1, k + 1);
          }
        }
      }
      forall i, j | 0 <= i < |nn| && 0 <= j < |nn|
        ensures Differ(nn, i, j)
      {
        assert Differ(ns, if i < k then i else i + 1, if j < k then j else j + 1);
      }
      forall i | 0 <= i < |nn|
        ensures Carries(nn, nc, i)
      {
        if i < k {
          assert nn[i] == ns[i] && nc[i] == cs[i] && old(Carries(ns, cs, i));
        } else {
          assert nn[i] == ns[i + 1] && nc[i] == cs[i + 1] && old(Carries(ns, cs, i + 1));
        }
      }
    }

    /** The links of the tray at position k. */
    lemma Neighbours(k: nat)
      requires Valid() && k < |nodes|
      ensures nodes[k].prev == if k == 0 then null else nodes[k - 1]
      ensures nodes[k].next == if k + 1 == |nodes| then null else nodes[k + 1]
    {
      assert LinkedAt(nodes, k);
    }

    constructor ()
      ensures Valid() && contents == [] && nodes == []
      ensures iteratorCur == null
    {
      count := 0;
      iteratorCur := null;
      first := null;
      last := null;
      nodes := [];
      contents := [];
    }

    /** Reset to the empty list; any trays held are abandoned, not released. */
    method Initialize()
      modifies this
      ensures Valid() && contents == [] && nodes == []
      ensures count == 0 && first == null && last == null && iteratorCur == null
    {
      count := 0;
      iteratorCur := null;
      first := null;
      last := null;
      nodes := [];
      contents := [];
    }

    /** Release every tray to the pool and empty the list. */
    method Clear()
      requires Valid()
      modifies this
      ensures Valid() && contents == [] && nodes == []
      ensures count == 0 && first == null && last == null && iteratorCur == null
    {
      ghost var k := 0;
      var cur: Tray?;
      while first != null
        invariant nodes == old(nodes) && Linked(nodes)
        invariant 0 <= k <= |nodes|
        invariant first == if k < |nodes| then nodes[k] else null
        decreases |nodes| - k
      {
        assert LinkedAt(nodes, k);
        cur := first;
        first := cur.next;
        // cur goes back to the pool
        k := k + 1;
      }
      last := null;
      count := 0;
      iteratorCur := null;
      nodes := [];
      contents := [];
    }

    method InsertAtStart(p: Payload)
      requires Valid()
      modifies this, nodes
      ensures Valid()
      ensures contents == [p] + old(contents) && count == old(count) + 1
      ensures fresh(nodes[0]) && nodes[1..] == old(nodes)
      ensures iteratorCur == old(iteratorCur)
    {
      ghost var ns, cs := nodes, contents;
      var t := AcquireTray(p, null, first);
      if first != null {
        first.prev := t;
      }
      first := t;
      if last == null {
        last := t;
      }
      count := count + 1;
      nodes := [t] + nodes;
      contents := [p] + contents;
      assert ns[..0] + [t] + ns[0..] == nodes && cs[..0] + [p] + cs[0..] == contents;
      SplicedIn(0, t);
    }

    method InsertAtEnd(p: Payload)
      requires Valid()
      modifies this, nodes
      ensures Valid()
      ensures contents == old(contents) + [p] && count == old(count) + 1
      ensures fresh(nodes[|nodes| - 1]) && nodes[..|nodes| - 1] == old(nodes)
      ensures iteratorCur == old(iteratorCur)
    {
      ghost var ns, cs := nodes, contents;
      var t := AcquireTray(p, last, null);
      if last != null {
        last.next := t;
      }
      last := t;
      if first == null {
        first := t;
      }
      count := count + 1;
      nodes := nodes + [t];
      contents := contents + [p];
      assert ns[..|ns|] + [t] + ns[|ns|..] == nodes && cs[..|ns|] + [p] + cs[|ns|..] == contents;
      SplicedIn(|ns|, t);
    }

    /** Unlink the head tray and return its payload, or None on an empty list. */
    method RemoveFirst() returns (r: Option<Payload>)
      requires Valid()
      modifies this, nodes
      ensures Valid()
      ensures old(contents) == [] ==> r == None && unchanged(this)
      ensures old(contents) != [] ==>
        r == Some(old(contents)[0]) && contents == old(contents)[1..]
        && nodes == old(nodes)[1..] && count == old(count) - 1
      ensures iteratorCur == old(iteratorCur)
    {
      if first == null {
        return None;
      }
      ghost var ns, cs := nodes, contents;
      Neighbours(0);
      var removed := first;
      assert Carries(nodes, contents, 0);
      var item := removed.item;
      first := first.next;
      if first == null {
        last := null;
      } else {
        first.prev := null;
      }
      // removed goes back to the pool
      count := count - 1;
      nodes := nodes[1..];
      contents := contents[1..];
      assert nodes == Cut(ns, 0) && contents == Cut(cs, 0);
      CutOut(0);
      return Some(item);
    }

    /**
     * Delete the first tray whose payload is identical to item, or every such
     * tray when multiple is set, walking the list with a cursor.
     */
    /**
     * One turn of Remove's scan, with the cursor on the tray at index p:
     * that tray is unlinked when it carries item (the cursor then rests on
     * its successor, again at index p), otherwise the cursor steps past it.
     */
    method RemoveStep(iter: FastListIter, item: Payload?) returns (found: bool)
      requires iter.Valid() && iter.list == this && iter.Get().Some?
      modifies this, nodes, iter
      ensures iter.Valid() && iter.list == this
      ensures found == (old(contents[iter.Pos()]) == item)
      ensures found ==> contents == Cut(old(contents), old(iter.Pos())) && nodes == Cut(old(nodes), old(iter.Pos()))
      ensures found ==> iter.Pos() == old(iter.Pos())
      ensures !found ==> contents == old(contents) && nodes == old(nodes) && iter.Pos() == old(iter.Pos()) + 1
      ensures iteratorCur == old(iteratorCur)
    {
      if iter.Get() == Some(item) {
        iter.Remove();
        found := true;
      } else {
        var here := iter.Advance();
        found := false;
      }
    }

    /**
     * Unlink the first tray carrying item, or every such tray when multiple
     * holds; the other trays stay, in their order.
     */
    method Remove(item: Payload?, multiple: bool)
      requires Valid()
      modifies this, nodes
      ensures Valid()
      ensures contents == if multiple then Erase(old(contents), item) else EraseFirst(old(contents), item)
      ensures nodes == Kept(old(nodes), old(contents), item, multiple)
      ensures count == |contents|
      ensures forall i :: 0 <= i < |nodes| ==> nodes[i] in old(nodes)
      ensures iteratorCur == old(iteratorCur)
    {
      ghost var orig, origN := contents, nodes;
      ghost var done, rest := [], contents;
      ghost var doneN, restN := [], nodes;
      assert [] + origN == origN && [] + Kept(origN, orig, item, multiple) == Kept(origN, orig, item, multiple);
      var iter := new FastListIter(this);
      var here := iter.Reset();
      while iter.Get().Some?
        invariant iter.Valid() && iter.list == this
        invariant forall i :: 0 <= i < |nodes| ==> nodes[i] in old(nodes)
        invariant iteratorCur == old(iteratorCur)
        invariant contents == done + rest && nodes == doneN + restN && iter.Pos() == |done|
        invariant Removed(orig, item, multiple) == done + Removed(rest, item, multiple)
        invariant ScannedTrays(orig, origN, rest, doneN, restN, item, multiple)
        decreases |rest|
      {
        ghost var ns := nodes;
        var found := RemoveStep(iter, item);
        if found {
          TraysMatch(orig, origN, rest, doneN, restN, item, multiple);
          CutHead(done, rest);
          ScanMatch(Removed(orig, item, multiple), done, rest, item, multiple);
          CutWithin(ns, |done|, nodes, old(nodes));
          rest, restN := rest[1..], restN[1..];
          if !multiple {
            return;
          }
        } else {
          TraysKeep(orig, origN, rest, doneN, restN, item, multiple);
          MoveHead(done, rest);
          ScanKeep(Removed(orig, item, multiple), done, rest, item, multiple);
          done, rest := done + [rest[0]], rest[1..];
          doneN, restN := doneN + [restN[0]], restN[1..];
        }
      }
      assert |rest| == 0;
      assert Removed(orig, item, multiple) == done;
      assert doneN + [] == doneN;
    }

    /**
     * Move the whole chain, the count and the embedded cursor into the empty
     * list dst, leaving this list empty; no tray is touched.
     */
    method TransferContentsTo(dst: FastList)
      requires Valid() && dst.Valid()
      requires dst.count == 0
      modifies this, dst
      ensures Valid() && dst.Valid()
      ensures dst.contents == old(contents) && dst.nodes == old(nodes) && dst.count == old(count)
      ensures dst != this ==> dst.iteratorCur == old(iteratorCur)
      ensures contents == [] && nodes == [] && count == 0
      ensures first == null && last == null && iteratorCur == null
    {
      ghost var ns, cs := nodes, contents;
      dst.count := count;
      dst.first := first;
      dst.last := last;
      dst.iteratorCur := iteratorCur;
      dst.nodes, dst.contents := ns, cs;
      count := 0;
      first, last := null, null;
      iteratorCur := null;
      nodes, contents := [], [];
    }

    /**
     * Append every payload of this list, in order, to dst on trays of its own,
     * walking this list's chain from its head.
     */
    method CopyContentsTo(dst: FastList)
      requires Valid() && dst.Valid()
      requires dst != this && Disjoint(nodes, dst.nodes)
      modifies dst, dst.nodes
      ensures Valid() && dst.Valid()
      ensures dst.contents == old(dst.contents) + contents
      ensures dst.nodes[..old(|dst.nodes|)] == old(dst.nodes)
      ensures forall i :: old(|dst.nodes|) <= i < |dst.nodes| ==> fresh(dst.nodes[i])
      ensures dst.iteratorCur == old(dst.iteratorCur)
    {
      var cur := first;
      ghost var i := 0;
      while cur != null
        invariant Valid() && dst.Valid() && Disjoint(nodes, dst.nodes)
        invariant i <= |nodes| && cur == if i < |nodes| then nodes[i] else null
        invariant dst.contents == old(dst.contents) + contents[..i]
        invariant dst.nodes[..old(|dst.nodes|)] == old(dst.nodes)
        invariant forall j :: old(|dst.nodes|) <= j < |dst.nodes| ==> fresh(dst.nodes[j])
        invariant dst.iteratorCur == old(dst.iteratorCur)
        decreases |nodes| - i
      {
        assert Carries(nodes, contents, i);
        assert contents[..i + 1] == contents[..i] + [cur.item];
        Neighbours(i);
        dst.InsertAtEnd(cur.item);
        cur := cur.next;
        i := i + 1;
      }
      assert contents[..i] == contents;
    }

    function GetFirst(): (r: Option<Payload>)
      reads this, nodes
      requires Valid()
      ensures r == if contents == [] then None else Some(contents[0])
    {
      if first == null then None
      else
        assert Carries(nodes, contents, 0);
        Some(first.item)
    }

    function GetLast(): (r: Option<Payload>)
      reads this, nodes
      requires Valid()
      ensures r == if contents == [] then None else Some(contents[|contents| - 1])
    {
      if last == null then None
      else
        assert Carries(nodes, contents, |nodes| - 1);
        Some(last.item)
    }

    /**
     * The payload at position index, walking from the head; None past the tail.
     * A negative index never enters the walk and so yields the head payload.
     */
    method GetByIndex(index: int) returns (r: Option<Payload>)
      requires Valid()
      ensures 0 <= index < |contents| ==> r == Some(contents[index])
      ensures index < 0 ==> r == GetFirst()
      ensures index >= |contents| ==> r == None
    {
      var i := index;
      ghost var j := 0;
      var cur := first;
      while i > 0
        invariant j <= |nodes|
        invariant cur == if j < |nodes| then nodes[j] else null
        invariant index > 0 ==> 0 <= i && j == index - i
        invariant index <= 0 ==> i == index && j == 0
      {
        if cur == null {
          return None;
        }
        Neighbours(j);
        cur := cur.next;
        i := i - 1;
        j := j + 1;
      }
      if cur == null {
        return None;
      }
      assert Carries(nodes, contents, j);
      return Some(cur.item);
    }

    method IsInList(x: Payload?) returns (found: bool)
      requires Valid()
      ensures found <==> x in contents
    {
      var iter := new FastListIter(this);
      var cur := iter.Reset();
      while cur.Some?
        invariant iter.Valid() && iter.list == this
        invariant cur == iter.Get()
        invariant x !in contents[..iter.Pos()]
        decreases |nodes| - iter.Pos()
      {
        if cur.value == x {
          return true;
        }
        assert contents[..iter.Pos() + 1] == contents[..iter.Pos()] + [cur.value];
        cur := iter.Advance();
      }
      assert contents[..iter.Pos()] == contents;
      return false;
    }
  }

  /** Equal counts and identical payload references position by position. */
  method ListsAreIdentical(a: FastList, b: FastList) returns (same: bool)
    requires a.Valid() && b.Valid()
    ensures same <==> a.contents == b.contents
  {
    if a.count != b.count {
      return false;
    }
    var curA, curB := a.first, b.first;
    ghost var i := 0;
    while curA != null
      invariant i <= |a.nodes| && curA == if i < |a.nodes| then a.nodes[i] else null
      invariant i <= |b.nodes| && curB == if i < |b.nodes| then b.nodes[i] else null
      invariant Agree(a.contents, b.contents, i)
      decreases |a.nodes| - i
    {
      assert Carries(a.nodes, a.contents, i) && Carries(b.nodes, b.contents, i);
      if curA.item != curB.item {
        return false;
      }
      assert Agree(a.contents, b.contents, i + 1);
      a.Neighbours(i);
      b.Neighbours(i);
      curA, curB := curA.next, curB.next;
      i := i + 1;
    }
    assert a.contents == b.contents;
    return true;
  }

  /** A cursor bound to one list: either on one of its trays or off-list (null). */
  class FastListIter {
    var list: FastList
    var cur: Tray?

    ghost predicate Valid()
      reads this, list, list.nodes
    {
      list.Valid() && OnList()
    }

    /** The cursor is off-list or on one of the list's trays. */
    ghost predicate OnList()
      reads this, list
    {
      cur == null || cur in list.nodes
    }

    /** The cursor's index in the list, or the list's length when off-list. */
    ghost function Pos(): (p: nat)
      reads this, list
      requires OnList()
      ensures p <= |list.nodes|
      ensures cur == if p < |list.nodes| then list.nodes[p] else null
    {
      if cur == null then |list.nodes| else IndexOf(list.nodes, cur)
    }

    /** Bind to l; the cursor starts off-list until the first Reset. */
    constructor (l: FastList)
      ensures list == l && cur == null
    {
      list := l;
      cur := null;
    }

    /** A cursor on the tray at position k (or off-list when k is the length) is at position k. */
    lemma PosAt(k: nat)
      requires Distinct(list.nodes) && k <= |list.nodes|
      requires cur == if k < |list.nodes| then list.nodes[k] else null
      ensures Pos() == k
    {
      if k < |list.nodes| {
        assert Differ(list.nodes, Pos(), k);
      }
    }

    /** The payload under the cursor, None when off-list. */
    function Get(): (r: Option<Payload>)
      reads this, list, list.nodes
      requires Valid()
      ensures cur == null ==> r == None
      ensures cur != null ==> r == Some(list.contents[Pos()])
    {
      if cur == null then None
      else
        assert Carries(list.nodes, list.contents, Pos());
        Some(cur.item)
    }

    method Reset() returns (r: Option<Payload>)
      requires list.Valid()
      modifies this
      ensures Valid() && list == old(list)
      ensures Pos() == 0
      ensures r == if list.contents == [] then None else Some(list.contents[0])
    {
      cur := list.first;
      PosAt(0);
      r := Get();
    }

    method ResetReverse() returns (r: Option<Payload>)
      requires list.Valid()
      modifies this
      ensures Valid() && list == old(list)
      ensures cur == if list.nodes == [] then null else list.nodes[|list.nodes| - 1]
      ensures r == if list.contents == [] then None else Some(list.contents[|list.contents| - 1])
    {
      cur := list.last;
      if cur != null {
        PosAt(|list.nodes| - 1);
      }
      r := Get();
    }

    /** Step back one tray; stepping off the head leaves the cursor off-list for good. */
    method Prev() returns (r: Option<Payload>)
      requires Valid()
      modifies this
      ensures Valid() && list == old(list)
      ensures old(cur) == null ==> cur == null
      ensures old(cur) != null ==>
        cur == if old(Pos()) == 0 then null else list.nodes[old(Pos()) - 1]
      ensures r == Get()
    {
      if cur == null {
        return None;
      }
      list.Neighbours(Pos());
      cur := cur.prev;
      r := Get();
    }

    /** Step forward one tray; stepping off the tail leaves the cursor off-list for good. */
    method Advance() returns (r: Option<Payload>)
      requires Valid()
      modifies this
      ensures Valid() && list == old(list)
      ensures old(cur) == null ==> cur == null
      ensures old(cur) != null ==> Pos() == old(Pos()) + 1
      ensures r == Get()
    {
      if cur == null {
        return None;
      }
      ghost var k := Pos();
      list.Neighbours(k);
      cur := cur.next;
      PosAt(k + 1);
      r := Get();
    }

    /** Copy the position of another cursor over the same list. */
    method Duplicate(original: FastListIter) returns (r: Option<Payload>)
      requires original.Valid() && original.list == list
      modifies this
      ensures Valid() && list == old(list) && cur == original.cur
      ensures r == Get()
    {
      cur := original.cur;
      r := Get();
    }

    function IsFirst(): (b: bool)
      reads this, list, list.nodes
      requires Valid()
      ensures b <==> cur != null && Pos() == 0
    {
      if cur == null then false
      else
        assert Differ(list.nodes, Pos(), 0);
        cur == list.first
    }

    function IsLast(): (b: bool)
      reads this, list, list.nodes
      requires Valid()
      ensures b <==> cur != null && Pos() == |list.nodes| - 1
    {
      if cur == null then false
      else
        assert Differ(list.nodes, Pos(), |list.nodes| - 1);
        cur == list.last
    }

    /** The cursor's 0-based position found by walking from the head, or -1 when off-list. */
    method GetIndex() returns (r: int)
      requires Valid()
      ensures r == if cur == null then -1 else Pos()
    {
      if cur == null {
        return -1;
      }
      var index := 0;
      var walker := list.first;
      while walker != null
        invariant 0 <= index <= Pos() < |list.nodes|
        invariant walker == list.nodes[index]
        decreases |list.nodes| - index
      {
        if walker == cur {
          PosAt(index);
          return index;
        }
        list.Neighbours(index);
        index := index + 1;
        walker := walker.next;
      }
      assert false;
      return -1;
    }

    /**
     * Put p on a new tray just before the cursor, which stays on its tray;
     * off-list, append p at the tail.
     */
    method Insert(p: Payload)
      requires Valid()
      modifies list, list.nodes
      ensures Valid() && list == old(list) && cur == old(cur)
      ensures list.count == old(list.count) + 1
      ensures old(cur) == null ==>
        list.contents == old(list.contents) + [p]
        && fresh(list.nodes[|list.nodes| - 1]) && list.nodes[..|list.nodes| - 1] == old(list.nodes)
      ensures old(cur) != null ==>
        list.contents == old(list.contents)[..old(Pos())] + [p] + old(list.contents)[old(Pos())..]
        && fresh(list.nodes[old(Pos())])
        && list.nodes == old(list.nodes)[..old(Pos())] + [list.nodes[old(Pos())]] + old(list.nodes)[old(Pos())..]
        && Pos() == old(Pos()) + 1
      ensures list.iteratorCur == old(list.iteratorCur)
    {
      if cur == null {
        list.InsertAtEnd(p);
        return;
      }
      ghost var k := Pos();
      ghost var ns, cs := list.nodes, list.contents;
      list.Neighbours(k);
      var t := AcquireTray(p, cur.prev, cur);
      if t.prev == null {
        list.first := t;
      } else {
        t.prev.next := t;
      }
      cur.prev := t;
      list.count := list.count + 1;
      list.nodes := ns[..k] + [t] + ns[k..];
      list.contents := cs[..k] + [p] + cs[k..];
      list.SplicedIn(k, t);
      PosAt(k + 1);
    }

    /**
     * Unlink the cursor's tray, release it to the pool and move the cursor to
     * the tray that followed it (off-list if it was the tail).
     */
    method Remove()
      requires Valid()
      modifies this, list, list.nodes
      ensures Valid() && list == old(list)
      ensures old(cur) == null ==>
        cur == null && list.contents == old(list.contents) && list.nodes == old(list.nodes)
        && list.count == old(list.count)
      ensures old(cur) != null ==>
        list.nodes == Cut(old(list.nodes), old(Pos()))
        && list.contents == Cut(old(list.contents), old(Pos()))
        && list.count == old(list.count) - 1
        && Pos() == old(Pos())
      ensures list.iteratorCur == old(list.iteratorCur)
    {
      if cur == null {
        return;
      }
      ghost var k := Pos();
      ghost var ns, cs := list.nodes, list.contents;
      list.Neighbours(k);
      var removed, before, after := cur, cur.prev, cur.next;
      if before == null {
        list.first := after;
      } else {
        before.next := after;
      }
      if after == null {
        list.last := before;
      } else {
        after.prev := before;
      }
      cur := after;
      // removed goes back to the pool
      list.count := list.count - 1;
      list.nodes := Cut(ns, k);
      list.contents := Cut(cs, k);
      list.CutOut(k);
      CutAt(ns, k);
      assert k < |list.nodes| ==> list.nodes[k] == ns[k + 1];
      PosAt(k);
    }

    /** Rebind to l and reset the cursor to its head. */
    method SetList(l: FastList)
      requires l.Valid()
      modifies this
      ensures Valid() && list == l
      ensures Pos() == 0
    {
      list := l;
      var head := Reset();
    }
  }
}
