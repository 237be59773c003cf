/**
 The tail queue: a doubly linked list whose back links are addresses of forward-link slots.

 A slot is the head's `tqh_first` or some element's `tqe_next`.  Because a head and an entry lay
 out their two fields alike, the address of either slot can be read as if it pointed to a head;
 that is how the last and the previous element are found.
 */
module TailQueues {

  datatype Slot = HeadFirst | NextOf(node: Node)

  class Node {
    var next: Node?
    var prev: Slot

    constructor () {
      next, prev := null, HeadFirst;
    }
  }

  ghost predicate Differ(s: seq<Node>, i: nat, j: nat)
    requires i < |s| && j < |s|
  {
    s[i] != s[j]
  }

  ghost predicate AllDiffer(s: seq<Node>) {
    forall i, j {:trigger Differ(s, i, j)} :: 0 <= i < j < |s| ==> Differ(s, i, j)
  }

  lemma Distinct(s: seq<Node>, k: nat)
    requires AllDiffer(s) && k < |s|
    ensures forall j :: 0 <= j < |s| && j != k ==> s[j] != s[k]
  {
    forall j | 0 <= j < |s| && j != k
      ensures s[j] != s[k]
    {
      assert if j < k then Differ(s, j, k) else Differ(s, k, j);
    }
  }

  lemma NoDupInsert(s: seq<Node>, k: nat, x: Node)
    requires AllDiffer(s) && k <= |s| && x !in s
    ensures AllDiffer(s[..k] + [x] + s[k..])
  {
    var t := s[..k] + [x] + s[k..];
    forall i, j {:trigger Differ(t, i, j)} | 0 <= i < j < |t|
      ensures Differ(t, i, j)
    {
      if i != k && j != k {
        assert Differ(s, if i < k then i else i - 1, if j < k then j else j - 1);
      }
    }
  }

  lemma NoDupRemove(s: seq<Node>, k: nat)
    requires AllDiffer(s) && k < |s|
    ensures AllDiffer(s[..k] + s[k + 1..])
  {
    var t := s[..k] + s[k + 1..];
    forall i, j {:trigger Differ(t, i, j)} | 0 <= i < j < |t|
      ensures Differ(t, i, j)
    {
      assert Differ(s, if i < k then i else i + 1, if j < k then j else j + 1);
    }
  }

  lemma NoDupReplace(s: seq<Node>, k: nat, x: Node)
    requires AllDiffer(s) && k < |s| && x !in s
    ensures AllDiffer(s[k := x])
  {
    forall i, j {:trigger Differ(s[k := x], i, j)} | 0 <= i < j < |s|
      ensures Differ(s[k := x], i, j)
    {
      assert i != k && j != k ==> Differ(s, i, j);
    }
  }

  /** The slot that points to element `k`, or past the end for `k == |s|`. */
  ghost function SlotOf(s: seq<Node>, k: nat): Slot
    requires k <= |s|
  {
    if k == 0 then HeadFirst else NextOf(s[k - 1])
  }

  ghost function Element(s: seq<Node>, k: nat): Node? {
    if k < |s| then s[k] else null
  }

  /** Both links of element `k` are right. */
  ghost predicate LinkedAt(s: seq<Node>, k: nat)
    requires k < |s|
    reads s[k]
  {
    s[k].next == Element(s, k + 1) && s[k].prev == SlotOf(s, k)
  }

  function Reversed<T>(s: seq<T>): (r: seq<T>)
    ensures |r| == |s| && forall i :: 0 <= i < |s| ==> r[i] == s[|s| - 1 - i]
  {
    if s == [] then [] else Reversed(s[1..]) + [s[0]]
  }

  function Without(s: seq<Node>, drop: set<Node>): seq<Node> {
    if s == [] then []
    else Without(s[..|s| - 1], drop) + if s[|s| - 1] in drop then [] else [s[|s| - 1]]
  }

  /** The list in the middle of a traversal that drops elements: `i` of them have been looked at. */
  function Halfway(s: seq<Node>, i: nat, drop: set<Node>): seq<Node>
    requires i <= |s|
  {
    Without(s[..i], drop) + s[i..]
  }

  lemma HalfwayStep(s: seq<Node>, i: nat, drop: set<Node>)
    requires i < |s|
    ensures var k, h := |Without(s[..i], drop)|, Halfway(s, i, drop);
            k < |h| && h[k] == s[i] && Element(h, k + 1) == Element(s, i + 1)
            && Halfway(s, i + 1, drop) == if s[i] in drop then h[..k] + h[k + 1..] else h
  {
    assert s[..i + 1][..i] == s[..i];
    var w := Without(s[..i], drop);
    assert s[i..] == [s[i]] + s[i + 1..];
    assert w + s[i..] == w + [s[i]] + s[i + 1..];
  }

  lemma {:induction false} WithoutSubset(s: seq<Node>, drop: set<Node>, n: Node)
    requires n in Without(s, drop)
    ensures n in s
  {
    if n != s[|s| - 1] {
      WithoutSubset(s[..|s| - 1], drop, n);
    }
  }

  lemma HalfwaySubset(s: seq<Node>, i: nat, drop: set<Node>)
    requires i <= |s|
    ensures forall n :: n in Halfway(s, i, drop) ==> n in s
  {
    forall n | n in Halfway(s, i, drop)
      ensures n in s
    {
      if n in Without(s[..i], drop) {
        WithoutSubset(s[..i], drop, n);
      }
    }
  }

  class TailQueue {
    var first: Node?
    var last: Slot
    /** The elements in order. */
    ghost var elems: seq<Node>

    ghost predicate Valid()
      reads this, elems
    {
      && AllDiffer(elems)
      && first == Element(elems, 0)
      && last == SlotOf(elems, |elems|)
      && (forall k {:trigger LinkedAt(elems, k)} :: 0 <= k < |elems| ==> LinkedAt(elems, k))
    }

    /** `TOR_TAILQ_INIT` */
    constructor ()
      ensures Valid() && elems == []
    {
      first, last, elems := null, HeadFirst, [];
    }

    /** `*slot` */
    function Deref(slot: Slot): Node?
      reads this, if slot.NextOf? then {slot.node} else {}
    {
      match slot
      case HeadFirst => first
      case NextOf(n) => n.next
    }

    /** `((struct head *) slot)->tqh_last` */
    function BackOf(slot: Slot): Slot
      reads this, if slot.NextOf? then {slot.node} else {}
    {
      match slot
      case HeadFirst => last
      case NextOf(n) => n.prev
    }

    method Store(slot: Slot, n: Node?)
      modifies this`first, if slot.NextOf? then {slot.node} else {}
      ensures slot.HeadFirst? ==> first == n
      ensures slot.NextOf? ==> first == old(first) && slot.node.next == n && slot.node.prev == old(slot.node.prev)
    {
      match slot
      case HeadFirst => first := n;
      case NextOf(m) => m.next := n;
    }

    /** `TOR_TAILQ_LAST` */
    method Last() returns (n: Node?)
      requires Valid()
      ensures n == if elems == [] then null else elems[|elems| - 1]
    {
      assert |elems| >= 1 ==> LinkedAt(elems, |elems| - 1);
      assert |elems| >= 2 ==> LinkedAt(elems, |elems| - 2);
      n := Deref(BackOf(last));
    }

    /** `TOR_TAILQ_PREV` */
    method Prev(elm: Node, ghost k: nat) returns (n: Node?)
      requires Valid() && k < |elems| && elems[k] == elm
      ensures n == if k == 0 then null else elems[k - 1]
    {
      assert LinkedAt(elems, k);
      assert k >= 1 ==> LinkedAt(elems, k - 1);
      assert k >= 2 ==> LinkedAt(elems, k - 2);
      assert k == 0 ==> LinkedAt(elems, |elems| - 1);
      n := Deref(BackOf(elm.prev));
    }

    /** `TOR_TAILQ_FOREACH` */
    method Forward() returns (s: seq<Node>)
      requires Valid()
      ensures s == elems
    {
      s := [];
      var v := first;
      while v != null
        invariant |s| <= |elems| && s == elems[..|s|] && v == Element(elems, |s|)
        decreases |elems| - |s|
      {
        assert LinkedAt(elems, |s|);
        s := s + [v];
        v := v.next;
      }
    }

    /** `TOR_TAILQ_FOREACH_REVERSE` */
    method Backward() returns (s: seq<Node>)
      requires Valid()
      ensures s == Reversed(elems)
    {
      s := [];
      var v := Last();
      ghost var k := |elems|;
      while v != null
        invariant 0 <= k <= |elems| && |s| == |elems| - k
        invariant forall i :: 0 <= i < |s| ==> s[i] == elems[|elems| - 1 - i]
        invariant v == if k == 0 then null else elems[k - 1]
        decreases k
      {
        s := s + [v];
        v := Prev(v, k - 1);
        k := k - 1;
      }
    }

    /** The links of element `k`, and that it and its neighbours occur nowhere else. */
    lemma Around(k: nat)
      requires Valid() && k < |elems|
      ensures LinkedAt(elems, k)
      ensures forall j :: 0 <= j < |elems| && j != k ==> elems[j] != elems[k]
      ensures k > 0 ==> forall j :: 0 <= j < |elems| && j != k - 1 ==> elems[j] != elems[k - 1]
      ensures k + 1 < |elems| ==> forall j :: 0 <= j < |elems| && j != k + 1 ==> elems[j] != elems[k + 1]
    {
      Distinct(elems, k);
      if k > 0 {
        Distinct(elems, k - 1);
      }
      if k + 1 < |elems| {
        Distinct(elems, k + 1);
      }
    }

    /** `TOR_TAILQ_INSERT_HEAD` */
    method InsertHead(elm: Node)
      requires Valid() && elm !in elems
      modifies this, elems, elm
      ensures Valid() && elems == [elm] + old(elems)
    {
      NoDupInsert(elems, 0, elm);
      if elems != [] {
        Distinct(elems, 0);
      }
      assert elems[..0] + [elm] + elems[0..] == [elm] + elems;
      elm.next := first;
      if elm.next != null {
        first.prev := NextOf(elm);
      } else {
        last := NextOf(elm);
      }
      first := elm;
      elm.prev := HeadFirst;
      elems := [elm] + elems;
      forall j {:trigger LinkedAt(elems, j)} | 0 <= j < |elems|
        ensures LinkedAt(elems, j)
      {
        assert j > 0 ==> old(LinkedAt(elems, j - 1));
      }
    }

    /** `TOR_TAILQ_INSERT_TAIL` */
    method InsertTail(elm: Node)
      requires Valid() && elm !in elems
      modifies this, elems, elm
      ensures Valid() && elems == old(elems) + [elm]
    {
      NoDupInsert(elems, |elems|, elm);
      if elems != [] {
        Distinct(elems, |elems| - 1);
      }
      assert elems[..|elems|] + [elm] + elems[|elems|..] == elems + [elm];
      elm.next := null;
      elm.prev := last;
      Store(last, elm);
      last := NextOf(elm);
      elems := elems + [elm];
      forall j {:trigger LinkedAt(elems, j)} | 0 <= j < |elems|
        ensures LinkedAt(elems, j)
      {
        assert j < |elems| - 1 ==> old(LinkedAt(elems, j));
      }
    }

    /** `TOR_TAILQ_INSERT_AFTER` */
    method InsertAfter(listelm: Node, elm: Node, ghost k: nat)
      requires Valid() && elm !in elems && k < |elems| && elems[k] == listelm
      modifies this, elems, elm
      ensures Valid() && elems == old(elems[..k + 1] + [elm] + elems[k + 1..])
    {
      NoDupInsert(elems, k + 1, elm);
      Around(k);
      elm.next := listelm.next;
      if elm.next != null {
        elm.next.prev := NextOf(elm);
      } else {
        last := NextOf(elm);
      }
      listelm.next := elm;
      elm.prev := NextOf(listelm);
      elems := elems[..k + 1] + [elm] + elems[k + 1..];
      forall j {:trigger LinkedAt(elems, j)} | 0 <= j < |elems|
        ensures LinkedAt(elems, j)
      {
        assert j != k + 1 ==> old(LinkedAt(elems, if j <= k then j else j - 1));
      }
    }

    /** `TOR_TAILQ_INSERT_BEFORE` */
    method InsertBefore(listelm: Node, elm: Node, ghost k: nat)
      requires Valid() && elm !in elems && k < |elems| && elems[k] == listelm
      modifies this, elems, elm
      ensures Valid() && elems == old(elems[..k] + [elm] + elems[k..])
    {
      NoDupInsert(elems, k, elm);
      Around(k);
      elm.prev := listelm.prev;
      elm.next := listelm;
      Store(listelm.prev, elm);
      listelm.prev := NextOf(elm);
      elems := elems[..k] + [elm] + elems[k..];
      forall j {:trigger LinkedAt(elems, j)} | 0 <= j < |elems|
        ensures LinkedAt(elems, j)
      {
        assert j != k ==> old(LinkedAt(elems, if j < k then j else j - 1));
      }
    }

    /** `TOR_TAILQ_REMOVE` */
    method Remove(elm: Node, ghost k: nat)
      requires Valid() && k < |elems| && elems[k] == elm
      modifies this, elems
      ensures Valid() && elems == old(elems[..k] + elems[k + 1..])
    {
      NoDupRemove(elems, k);
      Around(k);
      if elm.next != null {
        elm.next.prev := elm.prev;
      } else {
        last := elm.prev;
      }
      Store(elm.prev, elm.next);
      elems := elems[..k] + elems[k + 1..];
      forall j {:trigger LinkedAt(elems, j)} | 0 <= j < |elems|
        ensures LinkedAt(elems, j)
      {
        assert old(LinkedAt(elems, if j < k then j else j + 1));
      }
    }

    /** `TOR_TAILQ_REPLACE` */
    method Replace(elm: Node, elm2: Node, ghost k: nat)
      requires Valid() && k < |elems| && elems[k] == elm && elm2 !in elems
      modifies this, elems, elm2
      ensures Valid() && elems == old(elems)[k := elm2]
    {
      NoDupReplace(elems, k, elm2);
      Around(k);
      elm2.next := elm.next;
      if elm2.next != null {
        elm2.next.prev := NextOf(elm2);
      } else {
        last := NextOf(elm2);
      }
      elm2.prev := elm.prev;
      Store(elm2.prev, elm2);
      elems := elems[k := elm2];
      forall j {:trigger LinkedAt(elems, j)} | 0 <= j < |elems|
        ensures LinkedAt(elems, j)
      {
        assert old(LinkedAt(elems, j));
      }
    }

    /** `TOR_TAILQ_FOREACH_SAFE` with a body that removes the elements of `drop`. */
    method RemoveAll(drop: set<Node>) returns (seen: seq<Node>)
      requires Valid()
      modifies this, elems
      ensures Valid() && seen == old(elems) && elems == Without(old(elems), drop)
    {
      var v := first;
      ghost var all, i := elems, 0;
      seen := [];
      assert all[..0] == [] && Halfway(all, 0, drop) == all;
      while v != null
        invariant Valid() && 0 <= i <= |all| && seen == all[..i] && v == Element(all, i)
        invariant elems == Halfway(all, i, drop)
        decreases |all| - i
      {
        var tv := Visit(v, all, i, drop);
        assert all[..i] + [all[i]] == all[..i + 1];
        seen := seen + [v];
        v := tv;
        i := i + 1;
      }
      assert all[..i] == all && Halfway(all, i, drop) == Without(all, drop) + [];
    }

    /** One round of the traversal: fetch the successor, then run the body on `v`. */
    method Visit(v: Node, ghost all: seq<Node>, ghost i: nat, drop: set<Node>) returns (tv: Node?)
      requires Valid() && i < |all| && v == all[i] && elems == Halfway(all, i, drop)
      modifies this, all
      ensures Valid() && elems == Halfway(all, i + 1, drop) && tv == Element(all, i + 1)
    {
      HalfwayStep(all, i, drop);
      HalfwaySubset(all, i, drop);
      ghost var k := |Without(all[..i], drop)|;
      Around(k);
      tv := v.next;
      if v in drop {
        assert forall j :: 0 <= j < |elems| ==> elems[j] in elems;
        Remove(v, k);
      }
    }
  }
}
