/**
 The links of the hash table: the bucket array holds the first element of each chain, every element
 holds the next one, and the code rewrites them through the address of a link.

 `HashTables` speaks of chains; here the same chains are represented by links, and the steps that
 rewrite links are shown to be the steps on chains.
 */
module HashLinks {
  import opened Prelude
  import opened HashTables

  /** The address of a link: a place in the bucket array, or the field of an element. */
  datatype Link<T> = Bucket(b: nat) | NextOf(e: T)

  // ------------------------------------------------------------ links that represent chains

  function ElementAt<T>(c: seq<T>, i: nat): Option<T> { if i < |c| then Some(c[i]) else None }

  /** Element `i` of chain `b` leads to the one behind it. */
  ghost predicate LeadsOn<T>(next: map<T, Option<T>>, t: Chains<T>, b: nat, i: nat)
    requires HoldsElement(t, Slot(b, i))
  {
    t[b][i] in next && next[t[b][i]] == ElementAt(t[b], i + 1)
  }

  ghost predicate Represents<T>(heads: seq<Option<T>>, next: map<T, Option<T>>, t: Chains<T>) {
    && |heads| == |t|
    && (forall b {:trigger heads[b]} :: 0 <= b < |t| ==> heads[b] == ElementAt(t[b], 0))
    && (forall b: nat, i: nat {:trigger LeadsOn(next, t, b, i)} ::
      HoldsElement(t, Slot(b, i)) ==> LeadsOn(next, t, b, i))
  }

  /** No element is linked twice. */
  ghost predicate Once<T(!new)>(t: Chains<T>) {
    forall x {:trigger Elements(t)[x]} :: Elements(t)[x] <= 1
  }

  lemma SeqOnce<T(!new)>(s: seq<T>, p: nat, q: nat)
    requires p < q < |s| && s[p] == s[q]
    ensures multiset(s)[s[p]] >= 2
  {
    assert s == s[..p] + [s[p]] + s[p + 1..q] + [s[q]] + s[q + 1..];
  }

  /** So different places hold different elements. */
  lemma PlacesDiffer<T(!new)>(t: Chains<T>, r: Slot, s: Slot)
    requires Once(t) && HoldsElement(t, r) && HoldsElement(t, s) && r != s
    ensures t[r.b][r.i] != t[s.b][s.i]
  {
    ElementsOf(t);
    PositionHolds(t, r);
    PositionHolds(t, s);
    PositionsDiffer(t, r, s);
    var p, q := Position(t, r), Position(t, s);
    assert Elements(t)[t[r.b][r.i]] <= 1;
    if t[r.b][r.i] == t[s.b][s.i] {
      SeqOnce(Flatten(t), if p < q then p else q, if p < q then q else p);
    }
  }

  lemma PositionsDiffer<T>(t: Chains<T>, r: Slot, s: Slot)
    requires HoldsElement(t, r) && HoldsElement(t, s) && r != s
    ensures Position(t, r) != Position(t, s)
  {
    if r.b < s.b {
      FirstsGrow(t, r.b, s.b);
    } else if s.b < r.b {
      FirstsGrow(t, s.b, r.b);
    }
  }

  lemma {:induction false} FirstsGrow<T>(t: Chains<T>, a: nat, b: nat)
    requires a < b <= |t|
    ensures |Flatten(t[..a])| + |t[a]| <= |Flatten(t[..b])|
    decreases b
  {
    FlattenStep(t, b - 1);
    if a < b - 1 {
      FirstsGrow(t, a, b - 1);
    }
  }

  // ------------------------------------------------------------ reading and writing through a link

  /** The link to element `i` of chain `b`, or behind its last one. */
  ghost function LinkTo<T>(t: Chains<T>, b: nat, i: nat): Link<T>
    requires IsSlot(t, Slot(b, i))
  {
    if i == 0 then Bucket(b) else NextOf(t[b][i - 1])
  }

  /** `*p` */
  function Deref<T>(heads: seq<Option<T>>, next: map<T, Option<T>>, p: Link<T>): Option<T>
    requires if p.Bucket? then p.b < |heads| else p.e in next
  {
    if p.Bucket? then heads[p.b] else next[p.e]
  }

  lemma LinkLeads<T>(heads: seq<Option<T>>, next: map<T, Option<T>>, t: Chains<T>, b: nat, i: nat)
    requires Represents(heads, next, t) && IsSlot(t, Slot(b, i))
    ensures var p := LinkTo(t, b, i);
      (if p.Bucket? then p.b < |heads| else p.e in next) && Deref(heads, next, p) == ElementAt(t[b], i)
  {
    if i > 0 {
      assert LeadsOn(next, t, b, i - 1);
    }
  }

  /** `*p = x`, on the bucket array and on the fields of the elements. */
  function NewHeads<T>(heads: seq<Option<T>>, p: Link<T>, x: Option<T>): seq<Option<T>>
    requires p.Bucket? ==> p.b < |heads|
  {
    if p.Bucket? then heads[p.b := x] else heads
  }

  function NewNext<T>(next: map<T, Option<T>>, p: Link<T>, x: Option<T>): map<T, Option<T>> {
    if p.Bucket? then next else next[p.e := x]
  }

  /** `*p = (*p)->next` takes the element out of its chain. */
  lemma UnlinkRepresents<T(!new)>(heads: seq<Option<T>>, next: map<T, Option<T>>, t: Chains<T>, b: nat, i: nat)
    requires Represents(heads, next, t) && Once(t) && HoldsElement(t, Slot(b, i))
    ensures t[b][i] in next
    ensures var p, x := LinkTo(t, b, i), next[t[b][i]];
      (p.Bucket? ==> p.b < |heads|) && Represents(NewHeads(heads, p, x), NewNext(next, p, x), Unlinked(t, b, i))
  {
    var p, t' := LinkTo(t, b, i), Unlinked(t, b, i);
    assert LeadsOn(next, t, b, i);
    var x := next[t[b][i]];
    var heads', next' := NewHeads(heads, p, x), NewNext(next, p, x);
    forall c: nat, j: nat {:trigger LeadsOn(next', t', c, j)} | HoldsElement(t', Slot(c, j))
      ensures LeadsOn(next', t', c, j)
    {
      var k := if c == b && j >= i then j + 1 else j;
      assert t'[c][j] == t[c][k];
      assert LeadsOn(next, t, c, k);
      if i > 0 && !(c == b && j == i - 1) {
        PlacesDiffer(t, Slot(c, k), Slot(b, i - 1));
      }
    }
  }

  /** `e->next = table[b]; table[b] = e` puts an element in front of a chain. */
  lemma PushRepresents<T(!new)>(heads: seq<Option<T>>, next: map<T, Option<T>>, t: Chains<T>, b: nat, e: T)
    requires Represents(heads, next, t) && b < |t| && Elements(t)[e] == 0
    ensures Represents(heads[b := Some(e)], next[e := heads[b]], t[b := [e] + t[b]])
  {
    var t', next' := t[b := [e] + t[b]], next[e := heads[b]];
    forall c: nat, j: nat {:trigger LeadsOn(next', t', c, j)} | HoldsElement(t', Slot(c, j))
      ensures LeadsOn(next', t', c, j)
    {
      if c != b || j > 0 {
        var k := if c == b then j - 1 else j;
        assert t'[c][j] == t[c][k];
        assert LeadsOn(next, t, c, k);
        UnlinkedElements(t, c, k);
        assert t[c][k] != e;
      }
    }
  }

  /** `r = *p; *p = elm; elm->next = r->next` exchanges an element for one that is not linked. */
  lemma SwapRepresents<T(!new)>(heads: seq<Option<T>>, next: map<T, Option<T>>, t: Chains<T>, b: nat, i: nat, elm: T)
    requires Represents(heads, next, t) && Once(t) && HoldsElement(t, Slot(b, i)) && Elements(t)[elm] == 0
    ensures t[b][i] in next
    ensures var p, r := LinkTo(t, b, i), t[b][i];
      && (p.Bucket? ==> p.b < |heads|)
      && Represents(NewHeads(heads, p, Some(elm)), NewNext(next, p, Some(elm))[elm := next[r]][r := None],
                    t[b := t[b][i := elm]])
  {
    var p, r, t' := LinkTo(t, b, i), t[b][i], t[b := t[b][i := elm]];
    assert LeadsOn(next, t, b, i);
    var next' := NewNext(next, p, Some(elm))[elm := next[r]][r := None];
    forall c: nat, j: nat {:trigger LeadsOn(next', t', c, j)} | HoldsElement(t', Slot(c, j))
      ensures LeadsOn(next', t', c, j)
    {
      SwapLeads(next, t, b, i, elm, c, j);
    }
  }

  /** One element of the chains after the exchange. */
  lemma SwapLeads<T(!new)>(next: map<T, Option<T>>, t: Chains<T>, b: nat, i: nat, elm: T, c: nat, j: nat)
    requires Once(t) && HoldsElement(t, Slot(b, i)) && HoldsElement(t, Slot(c, j)) && Elements(t)[elm] == 0
    requires LeadsOn(next, t, b, i) && LeadsOn(next, t, c, j)
    ensures LeadsOn(NewNext(next, LinkTo(t, b, i), Some(elm))[elm := next[t[b][i]]][t[b][i] := None],
                    t[b := t[b][i := elm]], c, j)
  {
    var t' := t[b := t[b][i := elm]];
    UnlinkedElements(t, b, i);
    if c == b && j == i {
      assert t'[c][j] == elm && ElementAt(t'[c], j + 1) == ElementAt(t[c], j + 1);
    } else {
      SwapKeeps(t, b, i, elm, c, j);
      assert t'[c][j] == t[c][j];
      if c == b && j + 1 == i {
        assert ElementAt(t'[c], j + 1) == Some(elm);
      } else {
        assert ElementAt(t'[c], j + 1) == ElementAt(t[c], j + 1);
      }
    }
  }

  /** An element elsewhere is neither of the two exchanged, nor the one before them unless it stands there. */
  lemma SwapKeeps<T(!new)>(t: Chains<T>, b: nat, i: nat, elm: T, c: nat, j: nat)
    requires Once(t) && HoldsElement(t, Slot(b, i)) && HoldsElement(t, Slot(c, j)) && Elements(t)[elm] == 0
    requires Slot(c, j) != Slot(b, i)
    ensures t[c][j] != elm && t[c][j] != t[b][i]
    ensures i > 0 && Slot(c, j) != Slot(b, i - 1) ==> t[c][j] != t[b][i - 1]
  {
    PlacesDiffer(t, Slot(c, j), Slot(b, i));
    UnlinkedElements(t, c, j);
    if i > 0 && Slot(c, j) != Slot(b, i - 1) {
      PlacesDiffer(t, Slot(c, j), Slot(b, i - 1));
    }
  }

  // ------------------------------------------------------------ an element at the end of a chain

  /**
   `*p = elm` where `p` ends a chain: the element is at the end of the chain afterwards if and only
   if its own link was empty, since nothing writes that link.
   */
  lemma AppendRepresentsIff<T(!new)>(heads: seq<Option<T>>, next: map<T, Option<T>>, t: Chains<T>, b: nat, elm: T)
    requires Represents(heads, next, t) && Once(t) && b < |t| && Elements(t)[elm] == 0 && elm in next
    ensures var p := LinkTo(t, b, |t[b]|);
      && (p.Bucket? ==> p.b < |heads|)
      && (Represents(NewHeads(heads, p, Some(elm)), NewNext(next, p, Some(elm)), t[b := t[b] + [elm]])
          <==> next[elm] == None)
  {
    var p, t', n := LinkTo(t, b, |t[b]|), t[b := t[b] + [elm]], |t[b]|;
    var heads', next' := NewHeads(heads, p, Some(elm)), NewNext(next, p, Some(elm));
    assert t'[b][n] == elm && ElementAt(t'[b], n + 1) == None;
    if n > 0 {
      UnlinkedElements(t, b, n - 1);
    }
    assert next'[elm] == next[elm];
    if Represents(heads', next', t') {
      assert LeadsOn(next', t', b, n);
    }
    if next[elm] == None {
      forall c: nat, j: nat {:trigger LeadsOn(next', t', c, j)} | HoldsElement(t', Slot(c, j))
        ensures LeadsOn(next', t', c, j)
      {
        if c != b || j != n {
          assert LeadsOn(next, t, c, j);
          AppendLeads(next, t, b, elm, c, j);
        }
      }
    }
  }

  lemma AppendLeads<T(!new)>(next: map<T, Option<T>>, t: Chains<T>, b: nat, elm: T, c: nat, j: nat)
    requires Once(t) && b < |t| && HoldsElement(t, Slot(c, j)) && LeadsOn(next, t, c, j)
    ensures LeadsOn(NewNext(next, LinkTo(t, b, |t[b]|), Some(elm)), t[b := t[b] + [elm]], c, j)
  {
    var t', n := t[b := t[b] + [elm]], |t[b]|;
    assert t'[c][j] == t[c][j];
    if c == b && j + 1 == n {
      assert ElementAt(t'[c], j + 1) == Some(elm);
    } else {
      assert ElementAt(t'[c], j + 1) == ElementAt(t[c], j + 1);
      if n > 0 {
        PlacesDiffer(t, Slot(c, j), Slot(b, n - 1));
      }
    }
  }

  /** The links after `*p = elm` at the end of chain `b`. */
  ghost predicate Appended<T>(heads: seq<Option<T>>, next: map<T, Option<T>>, t: Chains<T>, b: nat, elm: T,
                              heads': seq<Option<T>>, next': map<T, Option<T>>)
  {
    && b < |t| && b < |heads|
    && var p := LinkTo(t, b, |t[b]|);
    && heads' == NewHeads(heads, p, Some(elm)) && next' == NewNext(next, p, Some(elm))
  }

  /** Links represent one table of chains at most. */
  lemma RepresentsUnique<T(!new)>(heads: seq<Option<T>>, next: map<T, Option<T>>, t: Chains<T>, t': Chains<T>)
    requires Represents(heads, next, t) && Represents(heads, next, t')
    ensures t == t'
  {
    forall b | 0 <= b < |t| ensures t[b] == t'[b] {
      SameChain(heads, next, t, t', b, 0);
    }
  }

  lemma {:induction false} SameChain<T(!new)>(heads: seq<Option<T>>, next: map<T, Option<T>>, t: Chains<T>,
        t': Chains<T>, b: nat, i: nat)
    requires Represents(heads, next, t) && Represents(heads, next, t') && b < |t|
    requires i <= |t[b]| && i <= |t'[b]| && t[b][..i] == t'[b][..i]
    ensures t[b] == t'[b]
    decreases |t[b]| - i
  {
    LinkLeads(heads, next, t, b, i);
    LinkLeads(heads, next, t', b, i);
    assert i > 0 ==> t[b][i - 1] == t[b][..i][i - 1] && t'[b][i - 1] == t'[b][..i][i - 1];
    assert ElementAt(t[b], i) == ElementAt(t'[b], i);
    if i < |t[b]| {
      assert t[b][..i + 1] == t[b][..i] + [t[b][i]] && t'[b][..i + 1] == t'[b][..i] + [t'[b][i]];
      SameChain(heads, next, t, t', b, i + 1);
    } else {
      assert t[b][..i] == t[b] && t'[b][..i] == t'[b];
    }
  }

  /** Every chain that is not empty ends with an element that leads nowhere. */
  lemma ChainEnds<T>(heads: seq<Option<T>>, next: map<T, Option<T>>, t: Chains<T>, b: nat) returns (e: T)
    requires Represents(heads, next, t) && b < |heads| && heads[b].Some?
    ensures e in next && next[e] == None
  {
    assert heads[b] == ElementAt(t[b], 0);
    e := t[b][|t[b]| - 1];
    assert LeadsOn(next, t, b, |t[b]| - 1);
  }

  /** So two elements that lead to each other are no chain at all. */
  lemma CycleRepresentsNothing(t: Chains<nat>)
    ensures !Represents([Some(1)], map[1 := Some(0), 0 := Some(1)], t)
  {
    if Represents([Some(1)], map[1 := Some(0), 0 := Some(1)], t) {
      var e := ChainEnds([Some(1)], map[1 := Some(0), 0 := Some(1)], t, 0);
    }
  }

  lemma OnceWithout<T(!new)>(t: Chains<T>, b: nat, i: nat)
    requires Once(t) && HoldsElement(t, Slot(b, i))
    ensures Once(Unlinked(t, b, i)) && Elements(Unlinked(t, b, i))[t[b][i]] == 0
  {
    UnlinkedElements(t, b, i);
    var t' := Unlinked(t, b, i);
    forall x {:trigger Elements(t')[x]} ensures Elements(t')[x] <= 1 {
      assert Elements(t)[x] <= 1;
    }
    assert Elements(t)[t[b][i]] <= 1;
  }

  lemma OncePushed<T(!new)>(t: Chains<T>, b: nat, e: T)
    requires Once(t) && b < |t| && Elements(t)[e] == 0
    ensures Once(t[b := [e] + t[b]])
  {
    PushedElements(t, b, e);
    var t' := t[b := [e] + t[b]];
    forall x {:trigger Elements(t')[x]} ensures Elements(t')[x] <= 1 {
      assert Elements(t)[x] <= 1;
    }
  }

  lemma OnceSwapped<T(!new)>(t: Chains<T>, b: nat, i: nat, elm: T)
    requires Once(t) && HoldsElement(t, Slot(b, i)) && Elements(t)[elm] == 0
    ensures Once(t[b := t[b][i := elm]])
  {
    SwapElements(t, b, i, elm);
    var t' := t[b := t[b][i := elm]];
    forall x {:trigger Elements(t')[x]} ensures Elements(t')[x] <= 1 {
      assert Elements(t)[x] <= 1;
    }
  }

  // ------------------------------------------------------------ into a second bucket array

  /**
   While elements move to a second array, the chains of both arrays share the links.  Here they are
   one table: first those of the new array, then what is left of the old ones.
   */
  lemma FreshStep<T(!new)>(newTable: seq<Option<T>>, left: seq<Option<T>>, next: map<T, Option<T>>,
                           nt: Chains<T>, ot: Chains<T>, b: nat, b2: nat)
    requires |newTable| == |nt| && Represents(newTable + left, next, nt + ot) && Once(nt + ot)
    requires b < |ot| && ot[b] != [] && b2 < |nt|
    ensures b < |left| && left[b] == Some(ot[b][0]) && ot[b][0] in next
    ensures var e := ot[b][0];
      var nt', ot' := nt[b2 := [e] + nt[b2]], ot[b := ot[b][1..]];
      && Represents(newTable[b2 := Some(e)] + left[b := next[e]], next[e := newTable[b2]], nt' + ot')
      && Once(nt' + ot') && Elements(nt' + ot') == Elements(nt + ot)
  {
    var heads, t, k, e := newTable + left, nt + ot, |nt| + b, ot[b][0];
    assert t[k] == ot[b] && heads[k] == left[b];
    UnlinkRepresents(heads, next, t, k, 0);
    OnceWithout(t, k, 0);
    var heads1, t1 := heads[k := next[e]], Unlinked(t, k, 0);
    assert t[k][..0] + t[k][1..] == ot[b][1..];
    PushRepresents(heads1, next, t1, b2, e);
    OncePushed(t1, b2, e);
    UnlinkedElements(t, k, 0);
    PushedElements(t1, b2, e);
    assert heads1[b2] == newTable[b2] && t1[b2] == nt[b2];
    assert heads1[b2 := Some(e)] == newTable[b2 := Some(e)] + left[b := next[e]];
    assert t1[b2 := [e] + t1[b2]] == nt[b2 := [e] + nt[b2]] + ot[b := ot[b][1..]];
  }

  // ------------------------------------------------------------ the links rewritten by the code

  class LinkTable<T(==, !new)> {
    const hash: T -> nat    // the hash value cached in each element
    const eqfn: (T, T) -> bool
    var heads: seq<Option<T>>
    /** The link field of every element, linked or not. */
    var next: map<T, Option<T>>
    var nEntries: nat
    /** The chains that the links represent. */
    ghost var t: Chains<T>

    ghost predicate Valid()
      reads this
    {
      Represents(heads, next, t) && Once(t)
    }

    /** A set modulo `eqfn`, in the right buckets and counted. */
    ghost predicate Sound()
      reads this
    {
      && Valid() && Lawful(hash, eqfn) && Placed(t, hash)
      && Distinct(Elements(t), eqfn) && nEntries == |Elements(t)|
    }

    /** Empty buckets, and elements whose link fields hold anything. */
    constructor (hash: T -> nat, eqfn: (T, T) -> bool, len: nat, next: map<T, Option<T>>)
      requires Lawful(hash, eqfn)
      ensures Sound() && |heads| == len && this.next == next && t == seq(len, _ => [])
      ensures this.hash == hash && this.eqfn == eqfn
    {
      this.hash, this.eqfn, this.next := hash, eqfn, next;
      heads, nEntries, t := seq(len, _ => None), 0, seq(len, _ => []);
      new;
      ElementsEmpty([], len, t);
    }

    /** `*elm = (*elm)->next`: the element leaves its chain, and its own link stays as it was. */
    method Unlink(p: Link<T>, ghost b: nat, ghost i: nat)
      requires Valid() && HoldsElement(t, Slot(b, i)) && p == LinkTo(t, b, i)
      modifies this`heads, this`next, this`t
      ensures Valid() && t == Unlinked(old(t), b, i) && next.Keys == old(next).Keys
      ensures OutsidersKept(old(t), old(next), next)
      ensures old(t[b][i]) in next && next[old(t[b][i])] == ElementAt(old(t)[b], i + 1)
    {
      LinkLeads(heads, next, t, b, i);
      UnlinkRepresents(heads, next, t, b, i);
      OnceWithout(t, b, i);
      assert LeadsOn(next, t, b, i);
      if i > 0 {
        PlacesDiffer(t, Slot(b, i), Slot(b, i - 1));
        UnlinkedElements(t, b, i - 1);
        assert LeadsOn(next, t, b, i - 1);
      }
      var x := next[Deref(heads, next, p).value];
      heads, next := NewHeads(heads, p, x), NewNext(next, p, x);
      t := Unlinked(t, b, i);
    }

    /** `*p = elm; elm->next = r->next; r->next = NULL`: the exchange of `HT_REPLACE`. */
    method Exchange(p: Link<T>, elm: T, ghost b: nat, ghost i: nat) returns (r: T)
      requires Valid() && HoldsElement(t, Slot(b, i)) && p == LinkTo(t, b, i) && Elements(t)[elm] == 0
      modifies this`heads, this`next, this`t
      ensures Valid() && r == old(t[b][i]) && t == old(t)[b := old(t)[b][i := elm]]
      ensures r in next && next[r] == None
    {
      LinkLeads(heads, next, t, b, i);
      SwapRepresents(heads, next, t, b, i, elm);
      OnceSwapped(t, b, i, elm);
      r := Deref(heads, next, p).value;
      var after := next[r];
      heads, next := NewHeads(heads, p, Some(elm)), NewNext(next, p, Some(elm));
      next := next[elm := after];
      next := next[r := None];
      t := t[b := t[b][i := elm]];
    }

    /** `*pE = e->next; e->next = table[b2]; table[b2] = e` */
    method Move(pE: Link<T>, e: T, b2: nat, ghost b: nat, ghost i: nat)
      requires Valid() && HoldsElement(t, Slot(b, i)) && pE == LinkTo(t, b, i) && e == t[b][i]
      requires b2 < |heads| && b2 != b
      modifies this`heads, this`next, this`t
      ensures Valid() && |heads| == |old(heads)| && t == Moved(old(t), b, i, b2)
    {
      OnceWithout(t, b, i);
      Unlink(pE, b, i);
      PushRepresents(heads, next, t, b2, e);
      OncePushed(t, b2, e);
      next := next[e := heads[b2]];
      heads := heads[b2 := Some(e)];
      t := t[b2 := [e] + t[b2]];
    }

    /** The inner loop of the rehash in place: follow one chain, moving away what belongs elsewhere. */
    method Settle(b: nat, ghost oldLen: nat)
      requires Valid() && b < oldLen <= |heads|
      requires forall c {:trigger t[c]} :: 0 <= c < |t| && !(b <= c < oldLen) ==> PlacedAt(t[c], hash, |t|, c)
      modifies this`heads, this`next, this`t
      ensures Valid() && |heads| == |old(heads)| && Elements(t) == old(Elements(t))
      ensures forall c {:trigger t[c]} :: 0 <= c < |t| && !(b < c < oldLen) ==> PlacedAt(t[c], hash, |t|, c)
      ensures Walked(old(t), t, old(t)[b], [], b, hash)
    {
      var pE, e := Bucket(b), heads[b];
      ghost var i, k, was := 0, 0, t;
      WalkingStarts(t, b, oldLen, hash);
      while e.Some?
        invariant Valid() && |heads| == |old(heads)| && Walking(was, t, k, b, oldLen, hash, i)
        invariant pE == LinkTo(t, b, i) && e == ElementAt(t[b], i)
        decreases |t[b]| - i
      {
        var b2 := hash(e.value) % |heads|;
        WalkingStep(was, t, k, b, oldLen, hash, i);
        k := k + 1;
        if b2 == b {
          pE := NextOf(e.value);
          i := i + 1;
        } else {
          Move(pE, e.value, b2, b, i);
        }
        LinkLeads(heads, next, t, b, i);
        e := Deref(heads, next, pE);
      }
      WalkingEnds(was, t, k, b, oldLen, hash, i);
    }

    /** Into a second bucket array, which then becomes the table's. */
    method RehashFresh(newLen: nat)
      requires Valid() && newLen > 0
      modifies this`heads, this`next, this`t
      ensures Valid() && |heads| == newLen && Placed(t, hash) && Elements(t) == old(Elements(t))
      ensures Rehashed(old(t), t, hash, true)
    {
      var newTable;
      ghost var ot, left;
      newTable, t, ot, left := EmptyChains(newLen);
      OldIsEmpty(newTable, left, next, t, ot);
      heads := newTable;
    }

    /** The outer loop, which leaves the old chains empty. */
    method EmptyChains(newLen: nat)
        returns (newTable: seq<Option<T>>, ghost nt: Chains<T>, ghost ot: Chains<T>, ghost left: seq<Option<T>>)
      requires Valid() && newLen > 0
      modifies this`next
      ensures |ot| == |left| && |newTable| == |nt| == newLen
      ensures forall c {:trigger ot[c]} :: 0 <= c < |ot| ==> ot[c] == []
      ensures Represents(newTable + left, next, nt + ot) && Once(nt + ot)
      ensures Elements(nt + ot) == Elements(t) && Placed(nt, hash) && Rehashed(t, nt, hash, true)
    {
      newTable := seq(newLen, _ => None);
      nt, ot, left := seq(newLen, _ => []), t, heads;
      EmptyInFront(heads, next, t, newLen);
      var b := 0;
      while b < |heads|
        invariant 0 <= b <= |heads| == |ot| == |left| == |t| && |newTable| == |nt| == newLen
        invariant Represents(newTable + left, next, nt + ot) && Once(nt + ot)
        invariant Elements(nt + ot) == Elements(t) && Placed(nt, hash)
        invariant forall c {:trigger left[c]} :: b <= c < |heads| ==> left[c] == heads[c]
        invariant forall c {:trigger ot[c]} :: 0 <= c < |ot| ==> ot[c] == if c < b then [] else t[c]
        invariant Rehashed(t[..b], nt, hash, true)
      {
        ghost var was := nt;
        newTable, nt, ot, left := EmptyChain(b, newTable, nt, ot, left);
        RehashedMore(t, was, nt, hash, b);
        b := b + 1;
      }
      assert t[..b] == t;
    }

    /** The inner loop: take the elements of one chain, one after the other, to the chains of the new array. */
    method EmptyChain(b: nat, newTable: seq<Option<T>>, ghost nt: Chains<T>, ghost ot: Chains<T>,
          ghost left: seq<Option<T>>)
        returns (newTable': seq<Option<T>>, ghost nt': Chains<T>, ghost ot': Chains<T>, ghost left': seq<Option<T>>)
      requires b < |heads| == |ot| == |left| && |newTable| == |nt| > 0 && left[b] == heads[b]
      requires Represents(newTable + left, next, nt + ot) && Once(nt + ot) && Placed(nt, hash)
      modifies this`next
      ensures |newTable'| == |nt'| == |nt| && |ot'| == |ot| == |left'|
      ensures Represents(newTable' + left', next, nt' + ot') && Once(nt' + ot') && Placed(nt', hash)
      ensures Elements(nt' + ot') == Elements(nt + ot) && PushedOn(nt, nt', ot[b], hash)
      ensures ot' == ot[b := []] && forall c {:trigger left'[c]} :: 0 <= c < |left| && c != b ==> left'[c] == left[c]
    {
      newTable', nt', ot', left' := newTable, nt, ot, left;
      var elm := heads[b];
      ghost var done := [];
      PushedOnNone(nt, hash);
      while elm.Some?
        invariant |newTable'| == |nt'| == |nt| && |ot'| == |ot| == |left'| && elm == left'[b]
        invariant done + ot'[b] == ot[b] && PushedOn(nt, nt', done, hash)
        invariant Represents(newTable' + left', next, nt' + ot') && Once(nt' + ot') && Placed(nt', hash)
        invariant Elements(nt' + ot') == Elements(nt + ot)
        invariant ot' == ot[b := ot'[b]] && forall c {:trigger left'[c]} ::
          0 <= c < |left| && c != b ==> left'[c] == left[c]
        decreases |ot'[b]|
      {
        FirstOf(newTable', left', next, nt', ot', b);
        var e := elm.value;
        var b2 := hash(e) % |newTable'|;
        FreshStep(newTable', left', next, nt', ot', b, b2);
        PushOne(nt', hash, e, b2);
        PushedOnMore(nt, nt', done, hash, e);
        done := done + [e];
        elm := next[e];
        left', ot' := left'[b := next[e]], ot'[b := ot'[b][1..]];
        nt' := nt'[b2 := [e] + nt'[b2]];
        next := next[e := newTable'[b2]];
        newTable' := newTable'[b2 := Some(e)];
      }
      FirstOf(newTable', left', next, nt', ot', b);
      assert done == ot[b];
    }

    /** In the old bucket array, lengthened. */
    method RehashInPlace(newLen: nat)
      requires Valid() && |heads| <= newLen && newLen > 0
      modifies this`heads, this`next, this`t
      ensures Valid() && |heads| == newLen && Placed(t, hash) && Elements(t) == old(Elements(t))
      ensures Rehashed(old(t), t, hash, false)
    {
      var oldLen := |heads|;
      ghost var none: Chains<T> := seq(newLen - oldLen, _ => []);
      ElementsEmpty(t, newLen - oldLen, none);
      MoreBuckets(heads, next, t, newLen);
      SettledNone(t, none, hash);
      heads := heads + seq(newLen - oldLen, _ => None);
      t := t + none;
      SettleAll(oldLen, old(t));
    }

    /** The outer loop of the rehash in place. */
    method SettleAll(oldLen: nat, ghost was: Chains<T>)
      requires Valid() && |heads| > 0 && oldLen == |was| <= |heads| && SettledUpTo(was, t, 0, hash)
      requires forall c {:trigger t[c]} :: oldLen <= c < |t| ==> t[c] == []
      modifies this`heads, this`next, this`t
      ensures Valid() && |heads| == |old(heads)| && Placed(t, hash) && Elements(t) == old(Elements(t))
      ensures Rehashed(was, t, hash, false)
    {
      var b := 0;
      while b < oldLen
        invariant 0 <= b <= oldLen && Valid() && |heads| == |old(heads)| && Elements(t) == old(Elements(t))
        invariant forall c {:trigger t[c]} :: 0 <= c < |t| && !(b <= c < oldLen) ==> PlacedAt(t[c], hash, |t|, c)
        invariant SettledUpTo(was, t, b, hash)
      {
        ghost var before := t;
        Settle(b, oldLen);
        SettledNext(was, before, t, b, hash);
        b := b + 1;
      }
      SettledAll(was, t, hash);
    }

    // ---------------------------------------------------------- finding and changing

    /** `HT_FIND_P_`, from link to link. */
    method FindLink(elm: T) returns (p: Link<T>, ghost b: nat, ghost i: nat)
      requires Sound() && |heads| > 0
      ensures b == hash(elm) % |heads| && IsSlot(t, Slot(b, i)) && p == LinkTo(t, b, i)
      ensures (if p.Bucket? then p.b < |heads| else p.e in next) && Deref(heads, next, p) == ElementAt(t[b], i)
      ensures i < |t[b]| ==> eqfn(t[b][i], elm)
      ensures i == |t[b]| ==> forall x :: x in Elements(t) ==> !eqfn(x, elm)
    {
      var home := hash(elm) % |heads|;
      p, b, i := Bucket(home), home, 0;
      LinkLeads(heads, next, t, b, i);
      while Deref(heads, next, p).Some?
        invariant b == hash(elm) % |heads| && 0 <= i <= |t[b]| && p == LinkTo(t, b, i)
        invariant if p.Bucket? then p.b < |heads| else p.e in next
        invariant Deref(heads, next, p) == ElementAt(t[b], i)
        invariant forall k :: 0 <= k < i ==> !eqfn(t[b][k], elm)
        decreases |t[b]| - i
      {
        var e := Deref(heads, next, p).value;
        if eqfn(e, elm) {
          return;
        }
        p, i := NextOf(e), i + 1;
        LinkLeads(heads, next, t, b, i);
      }
      forall x | x in Elements(t) ensures !eqfn(x, elm) {
        if eqfn(x, elm) {
          MatchIsInBucket(t, hash, eqfn, x, elm);
        }
      }
    }

    /** `HT_INSERT` behind its growth, whatever the element's own link holds. */
    method Insert(elm: T)
      requires Sound() && |heads| > 0
      requires forall x :: x in Elements(t) ==> !eqfn(x, elm)
      modifies this`heads, this`next, this`t, this`nEntries
      ensures Sound() && next.Keys == old(next).Keys + {elm}
      ensures var b := hash(elm) % |old(heads)|; b < |old(t)| && t == old(t)[b := [elm] + old(t)[b]]
    {
      var b := hash(elm) % |heads|;
      PushSound(t, hash, eqfn, b, elm);
      PushRepresents(heads, next, t, b, elm);
      OncePushed(t, b, elm);
      nEntries := nEntries + 1;
      next := next[elm := heads[b]];
      heads := heads[b := Some(elm)];
      t := t[b := [elm] + t[b]];
    }

    /**
     `HT_REPLACE` behind its growth.  The links are right afterwards exactly when the element was not
     linked before and either takes the place of another or had an empty link of its own: at the end of
     a chain, nothing writes that link.
     */
    method Replace(elm: T) returns (r: Option<T>)
      requires Sound() && |heads| > 0 && elm in next
      modifies this`heads, this`next, this`t, this`nEntries
      ensures r.Some? <==> elm !in old(Elements(t)) && exists x :: x in old(Elements(t)) && eqfn(x, elm)
      ensures r.Some? ==> r.value in old(Elements(t)) && eqfn(r.value, elm) && r.value in next && next[r.value] == None
      ensures Sound() <==> elm !in old(Elements(t)) && (r.Some? || old(next)[elm] == None)
      ensures elm in old(Elements(t)) ==> t == old(t) && nEntries == old(nEntries) + 1
      ensures r.Some? ==> Elements(t) == old(Elements(t)) - multiset{r.value} + multiset{elm}
      ensures r.Some? ==> Exchanged(old(t), t, r.value, elm) && nEntries == old(nEntries)
      ensures elm !in old(Elements(t)) && r.None? ==> Elements(t) == old(Elements(t)) + multiset{elm}
      ensures elm !in old(Elements(t)) && r.None? ==>
        Appended(old(heads), old(next), old(t), hash(elm) % |old(heads)|, elm, heads, next)
    {
      var p;
      ghost var b, i;
      p, b, i := FindLink(elm);
      var found := Deref(heads, next, p);
      if found.None? {
        AppendAt(p, b, elm);
        r := None;
      } else if found.value == elm {
        UnlinkedElements(t, b, i);
        nEntries := nEntries + 1;
        r := None;
      } else {
        var e := ExchangeAt(p, elm, b, i);
        r := Some(e);
      }
    }

    /** The end of `HT_REPLACE` where another element matches. */
    method ExchangeAt(p: Link<T>, elm: T, ghost b: nat, ghost i: nat) returns (r: T)
      requires Sound() && HoldsElement(t, Slot(b, i)) && p == LinkTo(t, b, i) && b == hash(elm) % |t|
      requires eqfn(t[b][i], elm) && t[b][i] != elm
      modifies this`heads, this`next, this`t
      ensures Sound() && r == old(t[b][i]) && r in old(Elements(t)) && elm !in old(Elements(t))
      ensures Elements(t) == old(Elements(t)) - multiset{r} + multiset{elm} && Exchanged(old(t), t, r, elm)
      ensures r in next && next[r] == None
    {
      ghost var s := Slot(b, i);
      assert HoldsElement(t, s);
      SwapElements(t, b, i, elm);
      PlacedSwap(t, hash, b, i, elm);
      SwapDistinct(Elements(t), hash, eqfn, t[b][i], elm);
      r := Exchange(p, elm, b, i);
    }

    /** The end of `HT_REPLACE` where nothing matches. */
    method AppendAt(p: Link<T>, ghost b: nat, elm: T)
      requires Sound() && b < |t| && b == hash(elm) % |t| && p == LinkTo(t, b, |t[b]|) && elm in next
      requires if p.Bucket? then p.b < |heads| else p.e in next
      requires forall x :: x in Elements(t) ==> !eqfn(x, elm)
      modifies this`heads, this`next, this`t, this`nEntries
      ensures elm !in old(Elements(t)) && t == old(t)[b := old(t)[b] + [elm]]
      ensures Elements(t) == old(Elements(t)) + multiset{elm}
      ensures Sound() <==> old(next)[elm] == None
      ensures Appended(old(heads), old(next), old(t), b, elm, heads, next)
    {
      DistinctMore(Elements(t), elm, hash, eqfn);
      AppendRepresentsIff(heads, next, t, b, elm);
      AppendElements(t, b, elm);
      PlacedAppend(t, hash, b, elm);
      OnceDistinct(t[b := t[b] + [elm]], eqfn);
      heads, next := NewHeads(heads, p, Some(elm)), NewNext(next, p, Some(elm));
      nEntries := nEntries + 1;
      t := t[b := t[b] + [elm]];
    }

    /** `HT_REMOVE`, which also empties the link of what it removes. */
    method Remove(elm: T) returns (r: Option<T>)
      requires Sound()
      modifies this`heads, this`next, this`t, this`nEntries
      ensures Sound() && |heads| == |old(heads)|
      ensures r.Some? ==> old(Elements(t)) == Elements(t) + multiset{r.value}
      ensures r.None? ==> Elements(t) == old(Elements(t))
      ensures if r.Some? then TakenOut(old(t), t, r.value) else t == old(t) && next == old(next)
      ensures r.Some? ==> eqfn(r.value, elm) && r.value in next && next[r.value] == None
      ensures OutsidersKept(old(t), old(next), next)
      ensures forall x :: x in Elements(t) ==> !eqfn(x, elm)
    {
      if |heads| == 0 {
        return None;
      }
      var p;
      ghost var b, i;
      p, b, i := FindLink(elm);
      r := Deref(heads, next, p);
      if r.Some? {
        RemoveAt(p, r.value, b, i);
      }
    }

    /** The same where the element was found. */
    method RemoveAt(p: Link<T>, r: T, ghost b: nat, ghost i: nat)
      requires Sound() && HoldsElement(t, Slot(b, i)) && p == LinkTo(t, b, i) && r == t[b][i]
      modifies this`heads, this`next, this`t, this`nEntries
      ensures Sound() && |heads| == |old(heads)| && old(Elements(t)) == Elements(t) + multiset{r}
      ensures TakenOut(old(t), t, r) && r in next && next[r] == None && OutsidersKept(old(t), old(next), next)
      ensures forall x :: x in Elements(t) ==> !eqfn(x, r)
    {
      ghost var s := Slot(b, i);
      assert HoldsElement(t, s);
      Drop(p, b, i);
      OutsiderLink(heads, next, t, r, None);
      next := next[r := None];
    }

    /** An element leaves its chain and the count; its own link still leads where it led. */
    method Drop(p: Link<T>, ghost b: nat, ghost i: nat)
      requires Sound() && HoldsElement(t, Slot(b, i)) && p == LinkTo(t, b, i)
      modifies this`heads, this`next, this`t, this`nEntries
      ensures Sound() && t == Unlinked(old(t), b, i) && nEntries == old(nEntries) - 1
      ensures old(Elements(t)) == Elements(t) + multiset{old(t[b][i])} && old(t[b][i]) !in Elements(t)
      ensures forall x :: x in Elements(t) ==> !eqfn(x, old(t[b][i]))
      ensures old(t[b][i]) in next && next[old(t[b][i])] == ElementAt(old(t)[b], i + 1)
      ensures next.Keys == old(next).Keys && |heads| == |old(heads)| && OutsidersKept(old(t), old(next), next)
      ensures IsSlot(t, Slot(b, i)) && p == LinkTo(t, b, i)
    {
      UnlinkedElements(t, b, i);
      PlacedUnlinked(t, hash, b, i);
      OnceWithout(t, b, i);
      DistinctLess(Elements(t), Elements(Unlinked(t, b, i)), t[b][i], eqfn);
      Unlink(p, b, i);
      nEntries := nEntries - 1;
    }

    // ---------------------------------------------------------- iterating

    /** The first bucket in use, from one on: the loop of `HT_START`, `HT_NEXT` and `HT_NEXT_RMV`. */
    method FirstFrom(from: nat) returns (p: Option<Link<T>>, ghost s: Slot)
      requires Valid() && from <= |heads|
      ensures p.None? ==> |Flatten(t[..from])| == |Flatten(t)|
      ensures p.Some? ==> HoldsElement(t, s) && p.value == LinkTo(t, s.b, s.i) && Position(t, s) == |Flatten(t[..from])|
    {
      var b := from;
      s := Slot(0, 0);
      while b < |heads|
        invariant from <= b <= |heads| && |Flatten(t[..b])| == |Flatten(t[..from])|
      {
        if heads[b].Some? {
          return Some(Bucket(b)), Slot(b, 0);
        }
        FlattenStep(t, b);
        b := b + 1;
      }
      assert t[..b] == t;
      return None, s;
    }

    /** `HT_NEXT` */
    method Next(p: Link<T>, ghost s: Slot) returns (q: Option<Link<T>>, ghost s': Slot)
      requires Sound() && HoldsElement(t, s) && p == LinkTo(t, s.b, s.i)
      ensures q.None? <==> Position(t, s) + 1 == |Flatten(t)|
      ensures q.Some? ==> HoldsElement(t, s') && q.value == LinkTo(t, s'.b, s'.i)
      ensures q.Some? ==> Position(t, s') == Position(t, s) + 1
    {
      PositionHolds(t, s);
      LinkLeads(heads, next, t, s.b, s.i);
      LinkLeads(heads, next, t, s.b, s.i + 1);
      var e := Deref(heads, next, p).value;
      if next[e].Some? {
        q, s' := Some(NextOf(e)), Slot(s.b, s.i + 1);
      } else {
        HashLeadsBack(s);
        q, s' := FirstFrom(hash(e) % |heads| + 1);
      }
      if q.Some? {
        PositionHolds(t, s');
      }
    }

    /** `HT_NEXT_RMV`, which leaves the link of what it removes as it was. */
    method NextRmv(p: Link<T>, ghost s: Slot) returns (q: Option<Link<T>>, ghost s': Slot)
      requires Sound() && HoldsElement(t, s) && p == LinkTo(t, s.b, s.i)
      modifies this`heads, this`next, this`t, this`nEntries
      ensures Sound() && nEntries == old(nEntries) - 1 && next.Keys == old(next).Keys
      ensures OutsidersKept(old(t), old(next), next)
      ensures t == Unlinked(old(t), s.b, s.i)
      ensures old(t[s.b][s.i]) in next && next[old(t[s.b][s.i])] == ElementAt(old(t)[s.b], s.i + 1)
      ensures var k := old(Position(t, s));
        k < |old(Flatten(t))| && Flatten(t) == old(Flatten(t))[..k] + old(Flatten(t))[k + 1..]
      ensures q.None? <==> old(Position(t, s)) == |Flatten(t)|
      ensures q.Some? ==> HoldsElement(t, s') && q.value == LinkTo(t, s'.b, s'.i)
      ensures q.Some? ==> Position(t, s') == old(Position(t, s))
    {
      HashLeadsBack(s);
      var from := hash(Deref(heads, next, p).value) % |heads| + 1;
      DropInOrder(p, s);
      q, s' := Resume(p, s, from);
    }

    /** The element that leaves is out of the order too, and its place in it is that of the next one. */
    method DropInOrder(p: Link<T>, ghost s: Slot)
      requires Sound() && HoldsElement(t, s) && p == LinkTo(t, s.b, s.i)
      modifies this`heads, this`next, this`t, this`nEntries
      ensures Sound() && nEntries == old(nEntries) - 1 && next.Keys == old(next).Keys
      ensures OutsidersKept(old(t), old(next), next) && t == Unlinked(old(t), s.b, s.i)
      ensures old(t[s.b][s.i]) in next && next[old(t[s.b][s.i])] == ElementAt(old(t)[s.b], s.i + 1)
      ensures var k := old(Position(t, s));
        k < |old(Flatten(t))| && Flatten(t) == old(Flatten(t))[..k] + old(Flatten(t))[k + 1..]
      ensures IsSlot(t, s) && p == LinkTo(t, s.b, s.i) && Position(t, s) == old(Position(t, s))
    {
      UnlinkedOrder(t, s);
      Drop(p, s.b, s.i);
    }

    /** The link to an element is there to follow, and its cached hash value leads to the bucket it is in. */
    lemma HashLeadsBack(s: Slot)
      requires Sound() && HoldsElement(t, s)
      ensures var p := LinkTo(t, s.b, s.i);
        && (if p.Bucket? then p.b < |heads| else p.e in next)
        && Deref(heads, next, p) == Some(t[s.b][s.i]) && hash(t[s.b][s.i]) % |heads| == s.b
    {
      LinkLeads(heads, next, t, s.b, s.i);
      assert PlacedAt(t[s.b], hash, |t|, s.b);
    }

    /** The element that a link leads to, or else the first one behind its bucket. */
    method Resume(p: Link<T>, ghost s: Slot, from: nat) returns (q: Option<Link<T>>, ghost s': Slot)
      requires Valid() && IsSlot(t, s) && p == LinkTo(t, s.b, s.i) && from == s.b + 1
      ensures q.None? <==> Position(t, s) == |Flatten(t)|
      ensures q.Some? ==> HoldsElement(t, s') && q.value == LinkTo(t, s'.b, s'.i) && Position(t, s') == Position(t, s)
    {
      LinkLeads(heads, next, t, s.b, s.i);
      if Deref(heads, next, p).Some? {
        q, s' := Some(p), s;
      } else {
        FlattenStep(t, s.b);
        q, s' := FirstFrom(from);
      }
      if q.Some? {
        PositionHolds(t, s');
      }
    }

    /** One round of a loop over the table: look at an element, and go on with or without removing it. */
    method Visit(p: Link<T>, ghost s: Slot, n: nat, drop: (nat, T) -> bool)
        returns (x: T, rmv: bool, q: Option<Link<T>>, ghost s': Slot)
      requires Sound() && HoldsElement(t, s) && p == LinkTo(t, s.b, s.i)
      modifies this`heads, this`next, this`t, this`nEntries
      ensures Sound() && rmv == drop(n, x)
      ensures var k, was := old(Position(t, s)), old(Flatten(t));
        && k < |was| && x == was[k]
        && Flatten(t) == (if rmv then was[..k] + was[k + 1..] else was)
        && (q.None? <==> (if rmv then k else k + 1) == |Flatten(t)|)
        && (q.Some? ==> HoldsElement(t, s') && q.value == LinkTo(t, s'.b, s'.i))
        && (q.Some? ==> Position(t, s') == if rmv then k else k + 1)
    {
      PositionHolds(t, s);
      HashLeadsBack(s);
      x := Deref(heads, next, p).value;
      rmv := drop(n, x);
      if rmv {
        q, s' := NextRmv(p, s);
      } else {
        q, s' := Next(p, s);
      }
    }

    /** One round of such a loop, in the middle of it. */
    method SweepOn(p: Link<T>, ghost s: Slot, visited: seq<T>, ghost all: seq<T>, drop: (nat, T) -> bool)
        returns (x: T, p': Option<Link<T>>, ghost s': Slot)
      requires Sound() && HoldsElement(t, s) && p == LinkTo(t, s.b, s.i)
      requires Midway(Flatten(t), all, visited, drop) && Position(t, s) == |Kept(visited, drop)|
      modifies this`heads, this`next, this`t, this`nEntries
      ensures Sound() && Midway(Flatten(t), all, visited + [x], drop)
      ensures p'.None? <==> |Kept(visited + [x], drop)| == |Flatten(t)|
      ensures p'.Some? ==>
        HoldsElement(t, s') && p'.value == LinkTo(t, s'.b, s'.i) && Position(t, s') == |Kept(visited + [x], drop)|
    {
      ghost var flat := Flatten(t);
      var rmv;
      x, rmv, p', s' := Visit(p, s, |visited|, drop);
      MidwayStep(flat, Flatten(t), all, visited, x, drop);
    }

    /** The loop that goes on with `HT_NEXT` or `HT_NEXT_RMV`, along the links that it rewrites. */
    method Sweep(drop: (nat, T) -> bool) returns (visited: seq<T>)
      requires Sound()
      modifies this`heads, this`next, this`t, this`nEntries
      ensures Sound() && visited == old(Flatten(t)) && Flatten(t) == Kept(visited, drop)
    {
      visited := [];
      ghost var all, s := Flatten(t), Slot(0, 0);
      var p;
      p, s := FirstFrom(0);
      assert t[..0] == [];
      if p.Some? {
        PositionHolds(t, s);
      }
      MidwayStart(all, drop);
      while p.Some?
        invariant Sound() && Midway(Flatten(t), all, visited, drop)
        invariant p.None? <==> |Kept(visited, drop)| == |Flatten(t)|
        invariant p.Some? ==>
          HoldsElement(t, s) && p.value == LinkTo(t, s.b, s.i) && Position(t, s) == |Kept(visited, drop)|
        decreases |all| - |visited|
      {
        var x;
        x, p, s := SweepOn(p.value, s, visited, all, drop);
        visited := visited + [x];
      }
      MidwayEnd(Flatten(t), all, visited, drop);
    }
  }

  /** The links of elements that are in no chain are as they were. */
  ghost predicate OutsidersKept<T(!new)>(t: Chains<T>, next: map<T, Option<T>>, next': map<T, Option<T>>) {
    forall x {:trigger next'[x]} :: x in next && x !in Elements(t) ==> x in next' && next'[x] == next[x]
  }

  /** A set with one more element in front of its chain. */
  lemma PushSound<T(!new)>(t: Chains<T>, hash: T -> nat, eqfn: (T, T) -> bool, b: nat, elm: T)
    requires Lawful(hash, eqfn) && Placed(t, hash) && Distinct(Elements(t), eqfn) && |t| > 0 && b == hash(elm) % |t|
    requires forall x :: x in Elements(t) ==> !eqfn(x, elm)
    ensures Elements(t)[elm] == 0 && Placed(t[b := [elm] + t[b]], hash)
    ensures Distinct(Elements(t[b := [elm] + t[b]]), eqfn)
    ensures |Elements(t[b := [elm] + t[b]])| == |Elements(t)| + 1
  {
    DistinctMore(Elements(t), elm, hash, eqfn);
    PushOne(t, hash, elm, b);
  }

  lemma OnceDistinct<T(!new)>(t: Chains<T>, eqfn: (T, T) -> bool)
    ensures Distinct(Elements(t), eqfn) ==> Once(t)
  {
  }

  /** The link of an element that is in no chain is free to change. */
  lemma OutsiderLink<T(!new)>(heads: seq<Option<T>>, next: map<T, Option<T>>, t: Chains<T>, e: T, x: Option<T>)
    requires Represents(heads, next, t) && Elements(t)[e] == 0
    ensures Represents(heads, next[e := x], t)
  {
    var next' := next[e := x];
    forall b: nat, i: nat {:trigger LeadsOn(next', t, b, i)} | HoldsElement(t, Slot(b, i))
      ensures LeadsOn(next', t, b, i)
    {
      assert LeadsOn(next, t, b, i);
      UnlinkedElements(t, b, i);
    }
  }

  /**
   Two elements in one bucket; the first is removed on the way through the table and then put back
   with `HT_REPLACE`.  It was not linked, and yet the links represent nothing any more.
   */
  method StaleReplace() returns (a: LinkTable<nat>)
    ensures forall t :: !Represents(a.heads, a.next, t)
  {
    a := RemovedInPassing();
    var r := a.Replace(0);
    assert a.heads == [Some(1)] && a.next == map[1 := Some(0), 0 := Some(1)];
    forall t ensures !Represents(a.heads, a.next, t) {
      CycleRepresentsNothing(t);
    }
  }

  method RemovedInPassing() returns (a: LinkTable<nat>)
    ensures fresh(a) && a.Sound() && a.t == [[1]] && Elements(a.t) == multiset{1}
    ensures a.heads == [Some(1)] && a.next == map[0 := Some(1), 1 := None]
    ensures a.hash == Zero && a.eqfn == Equal
  {
    a := TwoLinked();
    var q;
    ghost var s;
    q, s := a.NextRmv(Bucket(0), Slot(0, 0));
    assert a.t[0] == [0, 1][..0] + [0, 1][1..] == [1];
    LinkLeads(a.heads, a.next, a.t, 0, 0);
    LinkLeads(a.heads, a.next, a.t, 0, 1);
  }

  function Zero(x: nat): nat { 0 }

  predicate Equal(x: nat, y: nat) { x == y }

  lemma OneBucket(c: seq<nat>)
    ensures Elements([c]) == multiset(c)
  {
    assert [c][1..] == [];
  }

  method TwoLinked() returns (a: LinkTable<nat>)
    ensures fresh(a) && a.Sound() && a.t == [[0, 1]] && a.next.Keys == {0, 1} && a.hash == Zero && a.eqfn == Equal
  {
    a := OneLinked();
    OneBucket([1]);
    assert a.hash(0) % 1 == 0 && [0] + [1] == [0, 1];
    a.Insert(0);
  }

  method OneLinked() returns (a: LinkTable<nat>)
    ensures fresh(a) && a.Sound() && a.t == [[1]] && a.next.Keys == {0, 1} && a.hash == Zero && a.eqfn == Equal
  {
    a := new LinkTable<nat>(Zero, Equal, 1, map[0 := None, 1 := None]);
    OneBucket([]);
    assert a.t == [[]];
    assert a.hash(1) % 1 == 0 && [1] + [] == [1];
    a.Insert(1);
  }

  /** The first element of an old chain, if any. */
  lemma FirstOf<T>(newTable: seq<Option<T>>, left: seq<Option<T>>, next: map<T, Option<T>>, nt: Chains<T>,
        ot: Chains<T>, b: nat)
    requires |newTable| == |nt| && |left| == |ot| && Represents(newTable + left, next, nt + ot) && b < |ot|
    ensures left[b] == ElementAt(ot[b], 0)
  {
    assert (newTable + left)[|nt| + b] == left[b] && (nt + ot)[|nt| + b] == ot[b];
  }

  lemma EmptyInFront<T(!new)>(heads: seq<Option<T>>, next: map<T, Option<T>>, t: Chains<T>, n: nat)
    requires Represents(heads, next, t) && Once(t)
    ensures var none: Chains<T> := seq(n, _ => []);
      Represents(seq(n, _ => None) + heads, next, none + t) && Once(none + t) && Elements(none + t) == Elements(t)
  {
    var none: Chains<T> := seq(n, _ => []);
    var t' := none + t;
    forall b: nat, i: nat {:trigger LeadsOn(next, t', b, i)} | HoldsElement(t', Slot(b, i))
      ensures LeadsOn(next, t', b, i)
    {
      assert LeadsOn(next, t, b - n, i);
    }
    FlattenEmpty(none);
    FlattenConcat(none, t);
    ElementsOf(t);
    ElementsOf(t');
    forall x {:trigger Elements(t')[x]} ensures Elements(t')[x] <= 1 {
      assert Elements(t)[x] <= 1;
    }
  }

  /** Once the old chains are empty, the new array holds everything. */
  lemma OldIsEmpty<T(!new)>(newTable: seq<Option<T>>, left: seq<Option<T>>, next: map<T, Option<T>>, nt: Chains<T>,
        ot: Chains<T>)
    requires |newTable| == |nt| && Represents(newTable + left, next, nt + ot) && Once(nt + ot)
    requires forall c {:trigger ot[c]} :: 0 <= c < |ot| ==> ot[c] == []
    ensures Represents(newTable, next, nt) && Once(nt) && Elements(nt + ot) == Elements(nt)
  {
    FlattenEmpty(ot);
    FlattenConcat(nt, ot);
    ElementsOf(nt);
    ElementsOf(nt + ot);
    forall b {:trigger newTable[b]} | 0 <= b < |nt| ensures newTable[b] == ElementAt(nt[b], 0) {
      assert (newTable + left)[b] == newTable[b] && (nt + ot)[b] == nt[b];
    }
    forall b: nat, i: nat {:trigger LeadsOn(next, nt, b, i)} | HoldsElement(nt, Slot(b, i))
      ensures LeadsOn(next, nt, b, i)
    {
      assert LeadsOn(next, nt + ot, b, i);
    }
    forall x {:trigger Elements(nt)[x]} ensures Elements(nt)[x] <= 1 {
      assert Elements(nt + ot)[x] <= 1;
    }
  }

  lemma MoreBuckets<T(!new)>(heads: seq<Option<T>>, next: map<T, Option<T>>, t: Chains<T>, newLen: nat)
    requires Represents(heads, next, t) && Once(t) && |heads| <= newLen
    ensures var none: Chains<T> := seq(newLen - |heads|, _ => []);
      Represents(heads + seq(newLen - |heads|, _ => None), next, t + none) && Once(t + none)
  {
    var none: Chains<T> := seq(newLen - |heads|, _ => []);
    var t' := t + none;
    ElementsEmpty(t, newLen - |heads|, none);
    forall b: nat, i: nat {:trigger LeadsOn(next, t', b, i)} | HoldsElement(t', Slot(b, i))
      ensures LeadsOn(next, t', b, i)
    {
      assert LeadsOn(next, t, b, i);
    }
    forall x {:trigger Elements(t')[x]} ensures Elements(t')[x] <= 1 {
      assert Elements(t)[x] <= 1;
    }
  }
}
