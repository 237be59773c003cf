/**
 The intrusive chained hash table.

 Elements are known by identity; `hashfn` and `eqfn` look at their contents.  A table is the
 sequence of its chains (empty when the bucket array is null), and a slot is a chain and a
 position in it.
 */
module HashTables {
  import opened Prelude

  const PRIMES: seq<nat> := [
    53, 97, 193, 389, 769, 1543, 3079, 6151, 12289, 24593, 49157, 98317,
    196613, 393241, 786433, 1572869, 3145739, 6291469, 12582917, 25165843,
    50331653, 100663319, 201326611, 402653189]

  type Chains<T> = seq<seq<T>>

  // ------------------------------------------------------------ the elements of a table

  /** The elements in the order of the buckets, the order of iteration. */
  function Flatten<T>(t: Chains<T>): seq<T> {
    if t == [] then [] else t[0] + Flatten(t[1..])
  }

  /** The elements linked into a table, each as often as it is linked. */
  ghost function Elements<T>(t: Chains<T>): multiset<T> {
    if t == [] then multiset{} else multiset(t[0]) + Elements(t[1..])
  }

  lemma {:induction false} ElementsOf<T>(t: Chains<T>)
    ensures Elements(t) == multiset(Flatten(t)) && |Elements(t)| == |Flatten(t)|
  {
    if t != [] {
      ElementsOf(t[1..]);
    }
  }

  lemma {:induction false} FlattenConcat<T>(a: Chains<T>, b: Chains<T>)
    ensures Flatten(a + b) == Flatten(a) + Flatten(b)
  {
    if a == [] {
      assert a + b == b;
    } else {
      FlattenConcat(a[1..], b);
      assert (a + b)[1..] == a[1..] + b;
      var x, y, z := a[0], Flatten(a[1..]), Flatten(b);
      assert x + (y + z) == x + y + z;
    }
  }

  /** The elements before, in and behind bucket `b`, with its chain as it is or replaced. */
  lemma {:induction false} FlattenAt<T>(t: Chains<T>, b: nat, c: seq<T>)
    requires b < |t|
    ensures Flatten(t) == Flatten(t[..b]) + t[b] + Flatten(t[b + 1..])
    ensures Flatten(t[b := c]) == Flatten(t[..b]) + c + Flatten(t[b + 1..])
  {
    assert t == t[..b] + ([t[b]] + t[b + 1..]);
    FlattenConcat(t[..b], [t[b]] + t[b + 1..]);
    FlattenConcat([t[b]], t[b + 1..]);
    assert t[b := c] == t[..b] + ([c] + t[b + 1..]);
    FlattenConcat(t[..b], [c] + t[b + 1..]);
    FlattenConcat([c], t[b + 1..]);
  }

  lemma {:induction false} FlattenStep<T>(t: Chains<T>, b: nat)
    requires b < |t|
    ensures Flatten(t[..b + 1]) == Flatten(t[..b]) + t[b]
  {
    assert t[..b + 1] == t[..b] + [t[b]];
    FlattenConcat(t[..b], [t[b]]);
  }

  lemma {:induction false} FlattenEmpty<T>(t: Chains<T>)
    requires forall b :: 0 <= b < |t| ==> t[b] == []
    ensures Flatten(t) == []
  {
    if t != [] {
      FlattenEmpty(t[1..]);
    }
  }

  /** The elements outside bucket `b` do not depend on its chain. */
  lemma ElementsAt<T>(t: Chains<T>, b: nat, c: seq<T>)
    requires b < |t|
    ensures Elements(t[b := c]) == Elements(t[b := []]) + multiset(c)
    ensures Elements(t) == Elements(t[b := []]) + multiset(t[b])
  {
    ElementsWith(t, b, c);
    ElementsWith(t, b, t[b]);
    assert t[b := t[b]] == t;
  }

  lemma {:induction false} ElementsWith<T>(t: Chains<T>, b: nat, c: seq<T>)
    requires b < |t|
    ensures Elements(t[b := c]) == Elements(t[b := []]) + multiset(c)
  {
    var with, without := t[b := c], t[b := []];
    if b == 0 {
      assert with[1..] == t[1..] && without[1..] == t[1..];
    } else {
      ElementsWith(t[1..], b - 1, c);
      assert with[1..] == t[1..][b - 1 := c];
      assert without[1..] == t[1..][b - 1 := []];
    }
  }

  lemma {:induction false} WhereIs<T>(t: Chains<T>, x: T) returns (b: nat)
    requires x in Flatten(t)
    ensures b < |t| && x in t[b]
  {
    if x in t[0] {
      b := 0;
    } else {
      b := WhereIs(t[1..], x);
      b := b + 1;
    }
  }

  // ------------------------------------------------------------ placement

  /** Every element of bucket `b` hashes there. */
  ghost predicate PlacedAt<T(!new)>(c: seq<T>, hashfn: T -> nat, len: nat, b: nat)
    requires len > 0
  {
    forall x :: x in c ==> hashfn(x) % len == b
  }

  ghost predicate Placed<T(!new)>(t: Chains<T>, hashfn: T -> nat) {
    forall b {:trigger t[b]} :: 0 <= b < |t| ==> PlacedAt(t[b], hashfn, |t|, b)
  }

  /** An element is linked as often as it is in its own bucket. */
  lemma {:induction false} OwnBucket<T(!new)>(t: Chains<T>, hashfn: T -> nat, x: T)
    requires Placed(t, hashfn) && |t| > 0
    ensures Elements(t)[x] == multiset(t[hashfn(x) % |t|])[x]
  {
    var b := hashfn(x) % |t|;
    ElementsOf(t);
    FlattenAt(t, b, []);
    Elsewhere(t, t[..b], 0, hashfn, x);
    Elsewhere(t, t[b + 1..], b + 1, hashfn, x);
  }

  lemma {:induction false} Elsewhere<T(!new)>(t: Chains<T>, part: Chains<T>, from: nat, hashfn: T -> nat, x: T)
    requires Placed(t, hashfn) && from + |part| <= |t| && part == t[from..from + |part|]
    requires |t| > 0 && !(from <= hashfn(x) % |t| < from + |part|)
    ensures x !in Flatten(part)
  {
    if x in Flatten(part) {
      var c := WhereIs(part, x);
    }
  }

  // ------------------------------------------------------------ rehashing

  lemma PushOne<T(!new)>(t: Chains<T>, hashfn: T -> nat, e: T, b: nat)
    requires |t| > 0 && Placed(t, hashfn) && b == hashfn(e) % |t|
    ensures Placed(t[b := [e] + t[b]], hashfn)
    ensures Elements(t[b := [e] + t[b]]) == Elements(t) + multiset{e}
  {
    assert PlacedAt(t[b], hashfn, |t|, b);
    PushedElements(t, b, e);
  }

  /** The elements of a sequence that hash to bucket `b`, in their order. */
  ghost function Belonging<T>(s: seq<T>, hash: T -> nat, len: nat, b: nat): seq<T>
    requires len > 0
  {
    if s == [] then []
    else
      var n: nat := |s| - 1;
      Belonging(s[..n], hash, len, b) + if hash(s[n]) % len == b then [s[n]] else []
  }

  ghost function Backwards<T>(s: seq<T>): seq<T> {
    if s == [] then [] else [s[|s| - 1]] + Backwards(s[..|s| - 1])
  }

  /** Those elements as a chain they were pushed on: the last one in front. */
  ghost function Pushed<T>(s: seq<T>, hash: T -> nat, len: nat, b: nat): seq<T>
    requires len > 0
  {
    Backwards(Belonging(s, hash, len, b))
  }

  lemma BelongingMore<T>(s: seq<T>, e: T, hash: T -> nat, len: nat, b: nat)
    requires len > 0
    ensures Belonging(s + [e], hash, len, b) ==
      if hash(e) % len == b then Belonging(s, hash, len, b) + [e] else Belonging(s, hash, len, b)
    ensures Pushed(s + [e], hash, len, b) ==
      if hash(e) % len == b then [e] + Pushed(s, hash, len, b) else Pushed(s, hash, len, b)
  {
    var was := Belonging(s, hash, len, b);
    assert (s + [e])[..|s|] == s;
    assert (was + [e])[..|was|] == was;
    assert was + [] == was;
  }

  lemma {:induction false} BackwardsConcat<T>(a: seq<T>, b: seq<T>)
    ensures Backwards(a + b) == Backwards(b) + Backwards(a)
  {
    if b == [] {
      assert a + b == a;
    } else {
      var n: nat := |b| - 1;
      BackwardsConcat(a, b[..n]);
      assert (a + b)[..|a| + n] == a + b[..n] && (a + b)[|a| + n] == b[n];
      Regroup([b[n]], Backwards(b[..n]), Backwards(a));
    }
  }

  lemma Regroup<T>(a: seq<T>, b: seq<T>, c: seq<T>)
    ensures a + b + c == a + (b + c)
  {
  }

  lemma {:induction false} BelongingConcat<T>(x: seq<T>, y: seq<T>, hash: T -> nat, len: nat, b: nat)
    requires len > 0
    ensures Belonging(x + y, hash, len, b) == Belonging(x, hash, len, b) + Belonging(y, hash, len, b)
  {
    if y == [] {
      assert x + y == x;
    } else {
      var n: nat := |y| - 1;
      BelongingConcat(x, y[..n], hash, len, b);
      assert (x + y)[..|x| + n] == x + y[..n];
    }
  }

  lemma PushedConcat<T>(x: seq<T>, y: seq<T>, hash: T -> nat, len: nat, b: nat)
    requires len > 0
    ensures Pushed(x + y, hash, len, b) == Pushed(y, hash, len, b) + Pushed(x, hash, len, b)
  {
    BelongingConcat(x, y, hash, len, b);
    BackwardsConcat(Belonging(x, hash, len, b), Belonging(y, hash, len, b));
  }

  lemma {:induction false} BelongingHashes<T(!new)>(s: seq<T>, hash: T -> nat, len: nat, b: nat)
    requires len > 0
    ensures PlacedAt(Belonging(s, hash, len, b), hash, len, b)
  {
    if s != [] {
      BelongingHashes(s[..|s| - 1], hash, len, b);
    }
  }

  lemma {:induction false} BackwardsHashes<T(!new)>(s: seq<T>, hash: T -> nat, len: nat, b: nat)
    requires len > 0 && PlacedAt(s, hash, len, b)
    ensures PlacedAt(Backwards(s), hash, len, b)
  {
    if s != [] {
      BackwardsHashes(s[..|s| - 1], hash, len, b);
    }
  }

  /** What belongs to one bucket belongs there whole, and nothing of it to another. */
  lemma {:induction false} BelongingPlaced<T(!new)>(x: seq<T>, hash: T -> nat, len: nat, b: nat, c: nat)
    requires len > 0 && PlacedAt(x, hash, len, b)
    ensures Belonging(x, hash, len, c) == if b == c then x else []
  {
    if x != [] {
      var n: nat := |x| - 1;
      BelongingPlaced(x[..n], hash, len, b, c);
      assert x[..n] + [x[n]] == x;
    }
  }

  /** Chain `b` of table `t` when the elements of `s` have been pushed on the chains of their buckets. */
  ghost function PushedChain<T>(t: Chains<T>, s: seq<T>, hash: T -> nat, b: nat): seq<T>
    requires b < |t|
  {
    Pushed(s, hash, |t|, b) + t[b]
  }

  ghost predicate PushedOn<T>(t: Chains<T>, t': Chains<T>, s: seq<T>, hash: T -> nat) {
    |t'| == |t| && forall b: nat {:trigger PushedChain(t, s, hash, b)} ::
      b < |t| ==> t'[b] == PushedChain(t, s, hash, b)
  }

  lemma PushedChainMore<T>(t: Chains<T>, s: seq<T>, hash: T -> nat, e: T, b: nat)
    requires b < |t|
    ensures PushedChain(t, s + [e], hash, b) ==
      if hash(e) % |t| == b then [e] + PushedChain(t, s, hash, b) else PushedChain(t, s, hash, b)
  {
    BelongingMore(s, e, hash, |t|, b);
    if hash(e) % |t| == b {
      Regroup([e], Pushed(s, hash, |t|, b), t[b]);
    }
  }

  lemma PushedOnMore<T>(t: Chains<T>, t': Chains<T>, s: seq<T>, hash: T -> nat, e: T)
    requires |t| > 0 && PushedOn(t, t', s, hash)
    ensures var b := hash(e) % |t|; PushedOn(t, t'[b := [e] + t'[b]], s + [e], hash)
  {
    forall b: nat {:trigger PushedChain(t, s + [e], hash, b)} | b < |t|
      ensures t'[hash(e) % |t| := [e] + t'[hash(e) % |t|]][b] == PushedChain(t, s + [e], hash, b)
    {
      PushedChainMore(t, s, hash, e, b);
    }
  }

  lemma PushedOnNone<T>(t: Chains<T>, hash: T -> nat)
    ensures PushedOn(t, t, [], hash)
  {
  }

  /** Push the elements of a chain, one after the other, on the chains of their new buckets. */
  method PushChain<T(!new)>(t: Chains<T>, chain: seq<T>, hashfn: T -> nat) returns (t': Chains<T>)
    requires |t| > 0 && Placed(t, hashfn)
    ensures |t'| == |t| && Placed(t', hashfn) && Elements(t') == Elements(t) + multiset(chain)
    ensures PushedOn(t, t', chain, hashfn)
  {
    t' := t;
    var elm := chain;
    ghost var done := [];
    PushedOnNone(t, hashfn);
    while elm != []
      invariant |t'| == |t| && Placed(t', hashfn)
      invariant Elements(t') + multiset(elm) == Elements(t) + multiset(chain)
      invariant done + elm == chain && PushedOn(t, t', done, hashfn)
      decreases |elm|
    {
      var e, b2 := elm[0], hashfn(elm[0]) % |t|;
      PushOne(t', hashfn, e, b2);
      PushedOnMore(t, t', done, hashfn, e);
      assert elm == [e] + elm[1..];
      t' := t'[b2 := [e] + t'[b2]];
      done, elm := done + [e], elm[1..];
    }
    assert done == chain;
  }

  /**
   A chain of the table after `HT_GROW`.  In a fresh array it is pushed together in the order of the
   buckets; in the lengthened one, on what stays of the old chain comes what moves there from the others.
   */
  ghost function RehashedChain<T>(t: Chains<T>, len: nat, hash: T -> nat, anew: bool, b: nat): seq<T>
    requires len > 0
  {
    if anew || b >= |t| then Pushed(Flatten(t), hash, len, b)
    else Pushed(Flatten(t[b := []]), hash, len, b) + Belonging(t[b], hash, len, b)
  }

  ghost predicate Rehashed<T>(t: Chains<T>, t': Chains<T>, hash: T -> nat, anew: bool) {
    forall b: nat {:trigger RehashedChain(t, |t'|, hash, anew, b)} ::
      b < |t'| ==> t'[b] == RehashedChain(t, |t'|, hash, anew, b)
  }

  /** Into a fresh bucket array. */
  method RehashFresh<T(!new)>(t: Chains<T>, newLen: nat, hashfn: T -> nat) returns (t': Chains<T>)
    requires newLen > 0
    ensures |t'| == newLen && Placed(t', hashfn) && Elements(t') == Elements(t)
    ensures Rehashed(t, t', hashfn, true)
  {
    t' := seq(newLen, _ => []);
    ElementsEmpty([], newLen, t');
    var b := 0;
    while b < |t|
      invariant 0 <= b <= |t| && |t'| == newLen && Placed(t', hashfn)
      invariant Elements(t') == Elements(t[..b]) && Rehashed(t[..b], t', hashfn, true)
    {
      ghost var was := t';
      t' := PushChain(t', t[b], hashfn);
      RehashedMore(t, was, t', hashfn, b);
      ElementsStep(t, b);
      b := b + 1;
    }
    assert t[..b] == t;
  }

  lemma RehashedMore<T>(t: Chains<T>, was: Chains<T>, t': Chains<T>, hash: T -> nat, b: nat)
    requires b < |t| && |was| > 0 && Rehashed(t[..b], was, hash, true) && PushedOn(was, t', t[b], hash)
    ensures Rehashed(t[..b + 1], t', hash, true)
  {
    FlattenStep(t, b);
    forall c: nat {:trigger RehashedChain(t[..b + 1], |t'|, hash, true, c)} | c < |t'|
      ensures t'[c] == RehashedChain(t[..b + 1], |t'|, hash, true, c)
    {
      assert t'[c] == PushedChain(was, t[b], hash, c);
      assert was[c] == RehashedChain(t[..b], |was|, hash, true, c);
      PushedConcat(Flatten(t[..b]), t[b], hash, |was|, c);
    }
  }

  lemma ElementsStep<T>(t: Chains<T>, b: nat)
    requires b < |t|
    ensures Elements(t[..b + 1]) == Elements(t[..b]) + multiset(t[b])
  {
    FlattenStep(t, b);
    ElementsOf(t[..b]);
    ElementsOf(t[..b + 1]);
  }

  lemma ElementsEmpty<T>(t: Chains<T>, n: nat, none: Chains<T>)
    requires none == seq(n, _ => [])
    ensures Elements(t + none) == Elements(t) && Elements(none) == multiset{}
  {
    FlattenEmpty(none);
    FlattenConcat(t, none);
    ElementsOf(none);
    ElementsOf(t);
    ElementsOf(t + none);
  }

  /** Element `i` of chain `b` unlinked and pushed on chain `b2`. */
  function Moved<T>(t: Chains<T>, b: nat, i: nat, b2: nat): Chains<T>
    requires b < |t| && b2 < |t| && i < |t[b]|
  {
    t[b := t[b][..i] + t[b][i + 1..]][b2 := [t[b][i]] + t[b2]]
  }

  /** Chain `b` without its element `i`. */
  function Unlinked<T>(t: Chains<T>, b: nat, i: nat): Chains<T>
    requires b < |t| && i < |t[b]|
  {
    t[b := t[b][..i] + t[b][i + 1..]]
  }

  lemma UnlinkedElements<T>(t: Chains<T>, b: nat, i: nat)
    requires b < |t| && i < |t[b]|
    ensures Elements(t) == Elements(Unlinked(t, b, i)) + multiset{t[b][i]}
  {
    var c := t[b][..i] + t[b][i + 1..];
    assert t[b] == t[b][..i] + [t[b][i]] + t[b][i + 1..];
    assert multiset(t[b]) == multiset(c) + multiset{t[b][i]};
    ElementsAt(t, b, c);
  }

  lemma PushedElements<T>(t: Chains<T>, b: nat, e: T)
    requires b < |t|
    ensures Elements(t[b := [e] + t[b]]) == Elements(t) + multiset{e}
  {
    ElementsAt(t, b, [e] + t[b]);
  }

  lemma MovedElements<T>(t: Chains<T>, b: nat, i: nat, b2: nat)
    requires b < |t| && b2 < |t| && b != b2 && i < |t[b]|
    ensures Elements(Moved(t, b, i, b2)) == Elements(t)
  {
    UnlinkedElements(t, b, i);
    PushedElements(Unlinked(t, b, i), b2, t[b][i]);
  }

  /** The first `i` elements of chain `b` belong there, and so does what is outside the chains still to be followed. */
  ghost predicate Settled<T(!new)>(t: Chains<T>, hash: T -> nat, b: nat, oldLen: nat, i: nat)
    requires b < |t| && i <= |t[b]|
  {
    && PlacedAt(t[b][..i], hash, |t|, b)
    && forall c {:trigger t[c]} :: 0 <= c < |t| && !(b <= c < oldLen) ==> PlacedAt(t[c], hash, |t|, c)
  }

  lemma SettledStay<T(!new)>(t: Chains<T>, hash: T -> nat, b: nat, oldLen: nat, i: nat)
    requires b < oldLen <= |t| && i < |t[b]| && Settled(t, hash, b, oldLen, i) && b == hash(t[b][i]) % |t|
    ensures Settled(t, hash, b, oldLen, i + 1)
  {
    assert t[b][..i + 1] == t[b][..i] + [t[b][i]];
  }

  lemma SettledMove<T(!new)>(t: Chains<T>, hash: T -> nat, b: nat, oldLen: nat, i: nat, b2: nat)
    requires b < oldLen <= |t| && i < |t[b]| && Settled(t, hash, b, oldLen, i) && b2 == hash(t[b][i]) % |t| && b2 != b
    ensures |Moved(t, b, i, b2)[b]| == |t[b]| - 1 && Moved(t, b, i, b2)[b][..i] == t[b][..i]
    ensures Settled(Moved(t, b, i, b2), hash, b, oldLen, i)
  {
    var t' := Moved(t, b, i, b2);
    assert t'[b] == t[b][..i] + t[b][i + 1..];
    assert t'[b][..i] == t[b][..i];
    forall c {:trigger t'[c]} | 0 <= c < |t| && !(b <= c < oldLen) ensures PlacedAt(t'[c], hash, |t|, c) {
      assert PlacedAt(t[c], hash, |t|, c);
      if c == b2 {
        PlacedPushed(t[c], hash, |t|, c, t[b][i]);
      }
    }
  }

  lemma PlacedPushed<T(!new)>(c: seq<T>, hash: T -> nat, len: nat, b: nat, e: T)
    requires len > 0 && PlacedAt(c, hash, len, b) && hash(e) % len == b
    ensures PlacedAt([e] + c, hash, len, b)
  {
  }

  /**
   In the old bucket array, lengthened: an element that hashes elsewhere moves to the front of
   that chain, whether the walk has passed it already or not.
   */
  method RehashInPlace<T(!new)>(t: Chains<T>, newLen: nat, hashfn: T -> nat) returns (t': Chains<T>)
    requires |t| <= newLen && newLen > 0
    ensures |t'| == newLen && Placed(t', hashfn) && Elements(t') == Elements(t)
    ensures Rehashed(t, t', hashfn, false)
  {
    ghost var none: Chains<T> := seq(newLen - |t|, _ => []);
    ElementsEmpty(t, newLen - |t|, none);
    t' := t + seq(newLen - |t|, _ => []);
    assert t' == t + none;
    SettledNone(t, none, hashfn);
    var b := 0;
    while b < |t|
      invariant 0 <= b <= |t| && |t'| == newLen && Elements(t') == Elements(t)
      invariant forall c {:trigger t'[c]} :: 0 <= c < newLen && !(b <= c < |t|) ==> PlacedAt(t'[c], hashfn, newLen, c)
      invariant SettledUpTo(t, t', b, hashfn)
    {
      ghost var was := t';
      t' := SettleBucket(t', b, |t|, hashfn);
      SettledNext(t, was, t', b, hashfn);
      b := b + 1;
    }
    SettledAll(t, t', hashfn);
  }

  /** A chain when the buckets before `b` have been walked. */
  ghost function ChainSoFar<T>(t: Chains<T>, b: nat, len: nat, hash: T -> nat, c: nat): seq<T>
    requires b <= |t| && len > 0
  {
    if c < b then Pushed(Flatten(t[..b][c := []]), hash, len, c) + Belonging(t[c], hash, len, c)
    else Pushed(Flatten(t[..b]), hash, len, c) + if c < |t| then t[c] else []
  }

  ghost predicate SettledUpTo<T>(t: Chains<T>, t': Chains<T>, b: nat, hash: T -> nat)
    requires b <= |t|
  {
    forall c: nat {:trigger ChainSoFar(t, b, |t'|, hash, c)} ::
      c < |t'| ==> t'[c] == ChainSoFar(t, b, |t'|, hash, c)
  }

  /**
   The elements of `s` in the chain of bucket `b` have been walked, and `rest` has not: what belongs
   there has stayed, and the others were pushed on the chains of their buckets.
   */
  ghost predicate Walked<T>(t: Chains<T>, t': Chains<T>, s: seq<T>, rest: seq<T>, b: nat, hash: T -> nat)
    requires b < |t|
  {
    && |t'| == |t| && t'[b] == Belonging(s, hash, |t|, b) + rest
    && forall c: nat {:trigger PushedChain(t, s, hash, c)} :: c < |t| && c != b ==> t'[c] == PushedChain(t, s, hash, c)
  }

  lemma WalkedOn<T>(t: Chains<T>, t': Chains<T>, s: seq<T>, rest: seq<T>, b: nat, hash: T -> nat)
    requires b < |t| && rest != [] && Walked(t, t', s, rest, b, hash)
    ensures var i, b2 := |Belonging(s, hash, |t|, b)|, hash(rest[0]) % |t|;
      && i < |t'[b]| && t'[b][i] == rest[0]
      && Walked(t, if b2 == b then t' else Moved(t', b, i, b2), s + [rest[0]], rest[1..], b, hash)
  {
    var e, i, b2 := rest[0], |Belonging(s, hash, |t|, b)|, hash(rest[0]) % |t|;
    var t'' := if b2 == b then t' else Moved(t', b, i, b2);
    WalkedHere(Belonging(s, hash, |t|, b), rest);
    BelongingMore(s, e, hash, |t|, b);
    forall c: nat {:trigger PushedChain(t, s + [e], hash, c)} | c < |t| && c != b
      ensures t''[c] == PushedChain(t, s + [e], hash, c)
    {
      PushedChainMore(t, s, hash, e, c);
    }
  }

  /** The walk has seen `k` elements of chain `b`, and stands behind the `pE` of them that stayed. */
  ghost predicate WalkedTo<T>(t: Chains<T>, t': Chains<T>, k: nat, b: nat, hash: T -> nat, pE: nat)
    requires b < |t| && k <= |t[b]|
  {
    Walked(t, t', t[b][..k], t[b][k..], b, hash) && pE == |Belonging(t[b][..k], hash, |t|, b)|
  }

  lemma WalkedNone<T>(t: Chains<T>, b: nat, hash: T -> nat)
    requires b < |t|
    ensures WalkedTo(t, t, 0, b, hash, 0)
  {
  }

  lemma WalkedStep<T>(t: Chains<T>, t': Chains<T>, k: nat, b: nat, hash: T -> nat, pE: nat)
    requires b < |t| && k <= |t[b]| && WalkedTo(t, t', k, b, hash, pE) && pE < |t'[b]|
    ensures k < |t[b]|
    ensures var b2 := hash(t'[b][pE]) % |t|;
      if b2 == b then WalkedTo(t, t', k + 1, b, hash, pE + 1) else WalkedTo(t, Moved(t', b, pE, b2), k + 1, b, hash, pE)
  {
    WalkedOn(t, t', t[b][..k], t[b][k..], b, hash);
    BelongingMore(t[b][..k], t[b][k], hash, |t|, b);
    assert t[b][..k + 1] == t[b][..k] + [t[b][k]] && t[b][k..][1..] == t[b][k + 1..];
  }

  lemma WalkedAll<T>(t: Chains<T>, t': Chains<T>, k: nat, b: nat, hash: T -> nat, pE: nat)
    requires b < |t| && k <= |t[b]| && WalkedTo(t, t', k, b, hash, pE) && pE == |t'[b]|
    ensures Walked(t, t', t[b], [], b, hash)
  {
    assert t[b][..k] == t[b] && t[b][k..] == [];
  }

  lemma WalkedHere<T>(x: seq<T>, rest: seq<T>)
    requires rest != []
    ensures (x + rest)[..|x|] + (x + rest)[|x| + 1..] == x + rest[1..]
    ensures x + rest == x + [rest[0]] + rest[1..]
  {
  }

  lemma SettledNone<T>(t: Chains<T>, none: Chains<T>, hash: T -> nat)
    requires forall c {:trigger none[c]} :: 0 <= c < |none| ==> none[c] == []
    ensures SettledUpTo(t, t + none, 0, hash)
  {
    forall c: nat {:trigger ChainSoFar(t, 0, |t + none|, hash, c)} | c < |t + none|
      ensures (t + none)[c] == ChainSoFar(t, 0, |t + none|, hash, c)
    {
      assert t[..0] == [];
    }
  }

  lemma SettledNext<T(!new)>(t: Chains<T>, was: Chains<T>, t': Chains<T>, b: nat, hash: T -> nat)
    requires b < |t| <= |was| && SettledUpTo(t, was, b, hash) && Walked(was, t', was[b], [], b, hash)
    ensures SettledUpTo(t, t', b + 1, hash)
  {
    var came := Pushed(Flatten(t[..b]), hash, |was|, b);
    BelongingHashes(Flatten(t[..b]), hash, |was|, b);
    BackwardsHashes(Belonging(Flatten(t[..b]), hash, |was|, b), hash, |was|, b);
    assert was[b] == ChainSoFar(t, b, |was|, hash, b);
    forall c: nat {:trigger ChainSoFar(t, b + 1, |t'|, hash, c)} | c < |t'|
      ensures t'[c] == ChainSoFar(t, b + 1, |t'|, hash, c)
    {
      BelongingPlaced(came, hash, |was|, b, c);
      BelongingConcat(came, t[b], hash, |was|, c);
      ChainNext(t, b, |was|, hash, c);
      if c == b {
        assert t'[b] == Belonging(was[b], hash, |was|, b);
      } else {
        assert [] + Belonging(t[b], hash, |was|, c) == Belonging(t[b], hash, |was|, c);
        assert t'[c] == PushedChain(was, was[b], hash, c);
        assert was[c] == ChainSoFar(t, b, |was|, hash, c);
      }
    }
  }

  lemma ChainNext<T>(t: Chains<T>, b: nat, len: nat, hash: T -> nat, c: nat)
    requires b < |t| && len > 0
    ensures ChainSoFar(t, b + 1, len, hash, c) ==
      if c == b then Pushed(Flatten(t[..b]), hash, len, b) + Belonging(t[b], hash, len, b)
      else Pushed(t[b], hash, len, c) + ChainSoFar(t, b, len, hash, c)
  {
    if c < b {
      assert t[..b + 1][c := []] == t[c := []][..b + 1] && t[..b][c := []] == t[c := []][..b];
      PushedNext(t[c := []], b, len, hash, c, Belonging(t[c], hash, len, c));
    } else if c > b {
      PushedNext(t, b, len, hash, c, if c < |t| then t[c] else []);
    } else {
      var u := t[c := []];
      FlattenStep(u, b);
      assert u[..b + 1] == t[..b + 1][c := []] && u[..b] == t[..b];
      assert Flatten(u[..b]) + [] == Flatten(u[..b]);
    }
  }

  lemma PushedNext<T>(t: Chains<T>, b: nat, len: nat, hash: T -> nat, c: nat, y: seq<T>)
    requires b < |t| && len > 0
    ensures Pushed(Flatten(t[..b + 1]), hash, len, c) + y ==
      Pushed(t[b], hash, len, c) + (Pushed(Flatten(t[..b]), hash, len, c) + y)
  {
    FlattenStep(t, b);
    PushedConcat(Flatten(t[..b]), t[b], hash, len, c);
    Regroup(Pushed(t[b], hash, len, c), Pushed(Flatten(t[..b]), hash, len, c), y);
  }

  lemma SettledAll<T>(t: Chains<T>, t': Chains<T>, hash: T -> nat)
    requires |t| <= |t'| && |t'| > 0 && SettledUpTo(t, t', |t|, hash)
    ensures Rehashed(t, t', hash, false)
  {
    assert t[..|t|] == t;
    forall c: nat {:trigger RehashedChain(t, |t'|, hash, false, c)} | c < |t'|
      ensures t'[c] == RehashedChain(t, |t'|, hash, false, c)
    {
      assert t'[c] == ChainSoFar(t, |t|, |t'|, hash, c);
    }
  }

  /** Walk one chain, moving away what belongs elsewhere. */
  method SettleBucket<T(!new)>(t: Chains<T>, b: nat, ghost oldLen: nat, hashfn: T -> nat) returns (t': Chains<T>)
    requires b < oldLen <= |t|
    requires forall c {:trigger t[c]} :: 0 <= c < |t| && !(b <= c < oldLen) ==> PlacedAt(t[c], hashfn, |t|, c)
    ensures |t'| == |t| && Elements(t') == Elements(t)
    ensures forall c {:trigger t'[c]} :: 0 <= c < |t| && !(b < c < oldLen) ==> PlacedAt(t'[c], hashfn, |t|, c)
    ensures Walked(t, t', t[b], [], b, hashfn)
  {
    t' := t;
    var pE := 0;
    ghost var k := 0;
    WalkingStarts(t, b, oldLen, hashfn);
    while pE < |t'[b]|
      invariant |t'| == |t| && Walking(t, t', k, b, oldLen, hashfn, pE)
      decreases |t'[b]| - pE
    {
      var b2 := hashfn(t'[b][pE]) % |t|;
      WalkingStep(t, t', k, b, oldLen, hashfn, pE);
      k := k + 1;
      if b2 == b {
        pE := pE + 1;
      } else {
        t' := Moved(t', b, pE, b2);
      }
    }
    WalkingEnds(t, t', k, b, oldLen, hashfn, pE);
  }

  /** In the middle of such a walk. */
  ghost predicate Walking<T(!new)>(t: Chains<T>, t': Chains<T>, k: nat, b: nat, oldLen: nat, hash: T -> nat, pE: nat) {
    && b < oldLen <= |t| == |t'| && k <= |t[b]| && pE <= |t'[b]|
    && WalkedTo(t, t', k, b, hash, pE) && Settled(t', hash, b, oldLen, pE) && Elements(t') == Elements(t)
  }

  lemma WalkingStarts<T(!new)>(t: Chains<T>, b: nat, oldLen: nat, hash: T -> nat)
    requires b < oldLen <= |t|
    requires forall c {:trigger t[c]} :: 0 <= c < |t| && !(b <= c < oldLen) ==> PlacedAt(t[c], hash, |t|, c)
    ensures Walking(t, t, 0, b, oldLen, hash, 0)
  {
    WalkedNone(t, b, hash);
  }

  lemma WalkingStep<T(!new)>(t: Chains<T>, t': Chains<T>, k: nat, b: nat, oldLen: nat, hash: T -> nat, pE: nat)
    requires Walking(t, t', k, b, oldLen, hash, pE) && pE < |t'[b]|
    ensures var b2 := hash(t'[b][pE]) % |t|;
      if b2 == b then Walking(t, t', k + 1, b, oldLen, hash, pE + 1)
      else Walking(t, Moved(t', b, pE, b2), k + 1, b, oldLen, hash, pE) && |Moved(t', b, pE, b2)[b]| == |t'[b]| - 1
  {
    var b2 := hash(t'[b][pE]) % |t|;
    WalkedStep(t, t', k, b, hash, pE);
    if b2 == b {
      SettledStay(t', hash, b, oldLen, pE);
    } else {
      MovedElements(t', b, pE, b2);
      SettledMove(t', hash, b, oldLen, pE, b2);
    }
  }

  lemma WalkingEnds<T(!new)>(t: Chains<T>, t': Chains<T>, k: nat, b: nat, oldLen: nat, hash: T -> nat, pE: nat)
    requires Walking(t, t', k, b, oldLen, hash, pE) && pE == |t'[b]|
    ensures Walked(t, t', t[b], [], b, hash)
    ensures forall c {:trigger t'[c]} :: 0 <= c < |t| && !(b < c < oldLen) ==> PlacedAt(t'[c], hash, |t|, c)
  {
    assert t'[b][..pE] == t'[b];
    WalkedAll(t, t', k, b, hash, pE);
  }

  // ------------------------------------------------------------ growth

  /** The load limit for `len` buckets: `(unsigned) (load * len)`. */
  function Limit(load: real, len: nat): nat
    requires load > 0.0
  {
    (load * len as real).Floor
  }

  lemma LimitMono(load: real, a: nat, b: nat)
    requires load > 0.0 && a <= b
    ensures Limit(load, a) <= Limit(load, b)
  {
    assert load * a as real <= load * b as real;
  }

  lemma PrimesAscend(i: nat, j: nat)
    requires i < j < 24
    ensures PRIMES[i] < PRIMES[j]
    decreases j
  {
    if i < j - 1 {
      PrimesAscend(i, j - 1);
    }
  }

  /** The lengths are odd, and each is about twice the one before: between 1.8 and 2.1 times. */
  lemma PrimesDouble(i: nat)
    requires i < 23
    ensures 18 * PRIMES[i] < 10 * PRIMES[i + 1] < 21 * PRIMES[i]
    ensures PRIMES[i] % 2 == 1 && PRIMES[i + 1] % 2 == 1
  {
  }

  /**
   The `do` loop of `HT_GROW`: the first larger prime with room for more than `size` elements.
   `None` stands for reading past the last prime, which happens if and only if even that one is
   too small.
   */
  method NextPrime(load: real, primeIdx: int, size: nat) returns (r: Option<nat>)
    requires load > 0.0 && -1 <= primeIdx < 23
    ensures r.None? <==> Limit(load, PRIMES[23]) <= size
    ensures r.Some? ==> FirstWithRoom(load, primeIdx, size, r.value)
  {
    var idx, first := primeIdx, true;
    while first || (Limit(load, PRIMES[idx]) <= size && idx < 24)
      invariant primeIdx <= idx < 24 && (first <==> idx == primeIdx)
      invariant forall i :: primeIdx < i < idx ==> Limit(load, PRIMES[i]) <= size
      decreases 24 - idx
    {
      first, idx := false, idx + 1;
      if idx == |PRIMES| {
        return None;
      }
    }
    if idx < 23 {
      PrimesAscend(idx, 23);
    }
    LimitMono(load, PRIMES[idx], PRIMES[23]);
    return Some(idx);
  }

  /** Prime `idx` is the first behind `primeIdx` whose load limit is above `size`. */
  ghost predicate FirstWithRoom(load: real, primeIdx: int, size: nat, idx: int)
    requires load > 0.0
  {
    && -1 <= primeIdx < idx < 24 && Limit(load, PRIMES[idx]) > size
    && forall i :: primeIdx < i < idx ==> Limit(load, PRIMES[i]) <= size
  }

  /** With the usual load of 0.6, for instance, at as many elements as the last prime. */
  method RunsOffThePrimes() returns (r: Option<nat>)
    ensures r.None?
  {
    r := NextPrime(0.6, -1, 402653189);
  }

  /** And the first growth of an empty table is to 53 buckets. */
  method FirstGrowth(memory: Memory) returns (h: HashTable<nat>, code: Option<int>)
    ensures fresh(h) && code == Some(if memory.Exhausted? then -1 else 0)
    ensures |h.table| == if memory.Exhausted? then 0 else 53
    ensures h.loadLimit == if memory.Exhausted? then 0 else 31
  {
    h := new HashTable(x => x, (x, y) => x == y, 0.6, {});
    FirstPrime();
    code := h.Grow(1, memory);
  }

  lemma FirstPrime()
    ensures PRIMES[0] == 53 && Limit(0.6, 53) == 31 && Limit(0.6, PRIMES[23]) > 1
    ensures forall idx :: FirstWithRoom(0.6, -1, 1, idx) ==> idx == 0
  {
    LimitMono(0.6, 53, PRIMES[23]);
  }

  // ------------------------------------------------------------ slots and the order of iteration

  /** The address of a link: the one to element `i` of chain `b`, or behind its last element. */
  datatype Slot = Slot(b: nat, i: nat)

  predicate IsSlot<T>(t: Chains<T>, s: Slot) { s.b < |t| && s.i <= |t[s.b]| }

  predicate HoldsElement<T>(t: Chains<T>, s: Slot) { s.b < |t| && s.i < |t[s.b]| }

  /** How many elements come before a slot. */
  function Position<T>(t: Chains<T>, s: Slot): nat
    requires IsSlot(t, s)
  {
    |Flatten(t[..s.b])| + s.i
  }

  lemma PositionHolds<T>(t: Chains<T>, s: Slot)
    requires HoldsElement(t, s)
    ensures Position(t, s) < |Flatten(t)| && Flatten(t)[Position(t, s)] == t[s.b][s.i]
    ensures s.i + 1 == |t[s.b]| ==> |Flatten(t[..s.b + 1])| == Position(t, s) + 1
  {
    FlattenAt(t, s.b, []);
    FlattenStep(t, s.b);
  }

  /** Unlinking the element of a slot takes it out of the order and leaves what is before it. */
  lemma UnlinkedOrder<T>(t: Chains<T>, s: Slot)
    requires HoldsElement(t, s)
    ensures var t' := Unlinked(t, s.b, s.i); var p := Position(t, s);
      IsSlot(t', s) && Position(t', s) == p < |Flatten(t)| && Flatten(t') == Flatten(t)[..p] + Flatten(t)[p + 1..]
    ensures var t' := Unlinked(t, s.b, s.i);
      s.i == |t'[s.b]| ==> |Flatten(t'[..s.b + 1])| == Position(t, s)
  {
    var t' := Unlinked(t, s.b, s.i);
    FlattenAt(t, s.b, t'[s.b]);
    FlattenStep(t', s.b);
    assert t'[..s.b] == t[..s.b];
    CutAt(Flatten(t[..s.b]), t[s.b], Flatten(t[s.b + 1..]), s.i);
  }

  lemma CutAt<T>(front: seq<T>, c: seq<T>, back: seq<T>, i: nat)
    requires i < |c|
    ensures var f := front + c + back;
      front + (c[..i] + c[i + 1..]) + back == f[..|front| + i] + f[|front| + i + 1..]
  {
    var f := front + c + back;
    assert f[..|front| + i] == front + c[..i];
    assert f[|front| + i + 1..] == c[i + 1..] + back;
  }

  /** The first element in bucket `b` or behind it: the `while` loop of `HT_START`, `HT_NEXT` and `HT_NEXT_RMV`. */
  method FirstFrom<T>(t: Chains<T>, from: nat) returns (r: Option<Slot>)
    requires from <= |t|
    ensures r.None? ==> |Flatten(t[..from])| == |Flatten(t)|
    ensures r.Some? ==> HoldsElement(t, r.value) && Position(t, r.value) == |Flatten(t[..from])|
  {
    var b := from;
    while b < |t|
      invariant from <= b <= |t| && |Flatten(t[..b])| == |Flatten(t[..from])|
    {
      if t[b] != [] {
        return Some(Slot(b, 0));
      }
      FlattenStep(t, b);
      b := b + 1;
    }
    assert t[..b] == t;
    return None;
  }

  /** What is left of a sequence when `drop` decides, visit by visit, what is removed. */
  ghost function Kept<T>(s: seq<T>, drop: (nat, T) -> bool): seq<T> {
    if s == [] then []
    else
      var n: nat := |s| - 1;
      Kept(s[..n], drop) + if drop(n, s[n]) then [] else [s[n]]
  }

  lemma KeptStep<T>(visited: seq<T>, x: T, drop: (nat, T) -> bool)
    ensures Kept(visited + [x], drop) ==
      if drop(|visited|, x) then Kept(visited, drop) else Kept(visited, drop) + [x]
  {
    assert (visited + [x])[..|visited|] == visited;
    assert Kept(visited, drop) + [] == Kept(visited, drop);
  }

  /** Of `all` elements, some were visited: what is left of them is behind the walk, and the others before it. */
  ghost predicate Midway<T>(flat: seq<T>, all: seq<T>, visited: seq<T>, drop: (nat, T) -> bool) {
    visited <= all && flat == Kept(visited, drop) + all[|visited|..]
  }

  lemma MidwayStart<T>(all: seq<T>, drop: (nat, T) -> bool)
    ensures Midway(all, all, [], drop)
  {
    assert Kept([], drop) + all == all;
  }

  lemma MidwayEnd<T>(flat: seq<T>, all: seq<T>, visited: seq<T>, drop: (nat, T) -> bool)
    requires Midway(flat, all, visited, drop) && |Kept(visited, drop)| >= |flat|
    ensures visited == all && flat == Kept(all, drop)
  {
    assert flat == Kept(visited, drop);
  }

  /** A visit to the element before the walk, with or without removing it. */
  lemma MidwayStep<T>(flat: seq<T>, flat': seq<T>, all: seq<T>, visited: seq<T>, x: T, drop: (nat, T) -> bool)
    requires Midway(flat, all, visited, drop)
    requires var k := |Kept(visited, drop)|;
      && k < |flat| && x == flat[k]
      && flat' == if drop(|visited|, x) then flat[..k] + flat[k + 1..] else flat
    ensures Midway(flat', all, visited + [x], drop)
    ensures |Kept(visited + [x], drop)| == |Kept(visited, drop)| + if drop(|visited|, x) then 0 else 1
  {
    var n := |visited|;
    assert x == all[n];
    assert visited + [x] == all[..n + 1];
    KeptStep(visited, x, drop);
    MidwayTail(Kept(visited, drop), all[n..]);
    assert all[n..][1..] == all[n + 1..];
  }

  lemma MidwayTail<T>(kept: seq<T>, left: seq<T>)
    requires left != []
    ensures kept + left == kept + [left[0]] + left[1..]
    ensures (kept + left)[..|kept|] + (kept + left)[|kept| + 1..] == kept + left[1..]
  {
  }

  // ------------------------------------------------------------ sets modulo eqfn

  /** Each element is linked once, and no two of them match. */
  ghost predicate Distinct<T(!new)>(m: multiset<T>, eqfn: (T, T) -> bool) {
    && (forall x :: m[x] <= 1)
    && forall x, y {:trigger eqfn(x, y)} :: x in m && y in m && eqfn(x, y) ==> x == y
  }

  /** Some element matches. */
  ghost predicate Matched<T(!new)>(m: multiset<T>, elm: T, eqfn: (T, T) -> bool) {
    exists x :: x in m && eqfn(x, elm)
  }

  /** `elm` is an element afterwards, and a match other than itself, `r`, no longer is. */
  ghost predicate Displaced<T(!new)>(m: multiset<T>, m': multiset<T>, elm: T, r: Option<T>, eqfn: (T, T) -> bool) {
    && (r.Some? <==> elm !in m && Matched(m, elm, eqfn))
    && (r.Some? ==> r.value in m && r.value != elm && eqfn(r.value, elm))
    && m' == if r.Some? then m - multiset{r.value} + multiset{elm} else if elm in m then m else m + multiset{elm}
  }

  /** `eqfn` is an equivalence, and equivalent elements hash alike. */
  ghost predicate Lawful<T(!new)>(hashfn: T -> nat, eqfn: (T, T) -> bool) {
    && (forall x {:trigger eqfn(x, x)} :: eqfn(x, x))
    && (forall x, y {:trigger eqfn(x, y)} :: eqfn(x, y) ==> eqfn(y, x) && hashfn(x) == hashfn(y))
    && (forall x, y, z {:trigger eqfn(x, y), eqfn(y, z)} :: eqfn(x, y) && eqfn(y, z) ==> eqfn(x, z))
  }

  /** Element `x` of a chain has left it. */
  ghost predicate TakenOut<T>(t: Chains<T>, t': Chains<T>, x: T) {
    exists s {:trigger HoldsElement(t, s)} ::
      HoldsElement(t, s) && t[s.b][s.i] == x && t' == Unlinked(t, s.b, s.i)
  }

  /** Element `x` of a chain has given its place to `elm`. */
  ghost predicate Exchanged<T>(t: Chains<T>, t': Chains<T>, x: T, elm: T) {
    exists s {:trigger HoldsElement(t, s)} ::
      HoldsElement(t, s) && t[s.b][s.i] == x && t' == t[s.b := t[s.b][s.i := elm]]
  }

  /** An element is at the end of the chain of its bucket, where it was not linked before. */
  ghost predicate LinkedLast<T>(t: Chains<T>, t': Chains<T>, elm: T, hashfn: T -> nat)
    requires |t| > 0
  {
    var b := hashfn(elm) % |t|;
    t' == if elm in Elements(t) then t else t[b := t[b] + [elm]]
  }

  lemma AbsentElement<T(!new)>(t: Chains<T>, elm: T, eqfn: (T, T) -> bool)
    requires eqfn(elm, elm) && forall x :: x in Elements(t) ==> !eqfn(x, elm)
    ensures elm !in Elements(t)
  {
  }

  /** An element matching `elm` can only be in the bucket that `elm` hashes to. */
  lemma MatchIsInBucket<T(!new)>(t: Chains<T>, hashfn: T -> nat, eqfn: (T, T) -> bool, x: T, elm: T)
    requires Lawful(hashfn, eqfn) && Placed(t, hashfn) && |t| > 0
    requires x in Elements(t) && eqfn(x, elm)
    ensures x in t[hashfn(elm) % |t|]
  {
    OwnBucket(t, hashfn, x);
  }

  /** The outcome of `reallocarrayfn` in `HT_GROW`: a second array, the old one lengthened, or neither. */
  datatype Memory = Fresh | Lengthened | Exhausted

  /** Table `t` becomes `t'` to take `size` elements: as it was, or rehashed to the first prime with room. */
  ghost predicate Roomed<T>(grows: bool, load: real, t: Chains<T>, primeIdx: int, size: nat, hte: T -> nat,
        memory: Memory, t': Chains<T>, primeIdx': int)
    requires load > 0.0
  {
    if grows then
      && FirstWithRoom(load, primeIdx, size, primeIdx') && |t'| == PRIMES[primeIdx']
      && Rehashed(t, t', hte, memory.Fresh?)
    else t' == t && primeIdx' == primeIdx
  }

  // ------------------------------------------------------------ the table

  class HashTable<T(==, !new)> {
    const hashfn: T -> nat
    const eqfn: (T, T) -> bool
    const load: real

    var table: Chains<T>
    var hte: T -> nat    // the hash value cached in each element
    var nEntries: nat
    var loadLimit: nat
    var primeIdx: int
    /** The elements outside the table whose own link is not empty. */
    ghost var stale: set<T>
    /** An element with such a link was put at the end of a chain, which then leads on from there. */
    ghost var torn: bool

    /** What `HT_REP_IS_BAD_` checks, apart from the load. */
    ghost predicate Linked()
      requires load > 0.0
      reads this
    {
      if table == [] then nEntries == 0 && loadLimit == 0 && primeIdx == -1
      else
        && 0 <= primeIdx < |PRIMES| && |table| == PRIMES[primeIdx]
        && loadLimit == Limit(load, |table|) && loadLimit > 0
        && nEntries == |Elements(table)|
        && Placed(table, hashfn)
        && Cached(Elements(table), hte, hashfn)
    }

    ghost predicate Loaded()
      reads this
    {
      nEntries <= loadLimit
    }

    /** A set modulo `eqfn`, held in the right buckets. */
    ghost predicate Valid()
      reads this
    {
      !torn && load > 0.0 && Lawful(hashfn, eqfn) && Linked() && Distinct(Elements(table), eqfn)
    }

    constructor (hashfn: T -> nat, eqfn: (T, T) -> bool, load: real, ghost stale: set<T>)
      requires load > 0.0 && Lawful(hashfn, eqfn)
      ensures Valid() && Loaded() && table == [] && Elements(table) == multiset{}
      ensures this.hashfn == hashfn && this.eqfn == eqfn && this.load == load && this.stale == stale
    {
      this.hashfn, this.eqfn, this.load, this.stale, torn := hashfn, eqfn, load, stale, false;
      table, hte, nEntries, loadLimit, primeIdx := [], _ => 0, 0, 0, -1;
    }

    /**
     `HT_REP_IS_BAD_` is 0 exactly on the consistent representations, whatever the fields hold.
     `None` stands for reading past the last prime, and another number says which check fails first.
     */
    method RepIsBad() returns (code: Option<nat>)
      requires load > 0.0
      ensures code == Some(0) <==> Linked() && Loaded()
      ensures code.None? <==> table != [] && primeIdx >= |PRIMES| && 0 < loadLimit && nEntries <= loadLimit
      ensures code == Some(1) <==> table == [] && !(nEntries == 0 && loadLimit == 0 && primeIdx == -1)
      ensures code == Some(2) <==> table != [] && (primeIdx < 0 || loadLimit == 0)
      ensures code == Some(3) <==> table != [] && primeIdx >= 0 && 0 < loadLimit < nEntries
      ensures var sized := table != [] && 0 <= primeIdx < |PRIMES| && 0 < loadLimit && nEntries <= loadLimit;
        && (code == Some(4) <==> sized && |table| != PRIMES[primeIdx])
        && (code == Some(5) <==> sized && |table| == PRIMES[primeIdx] && loadLimit != Limit(load, |table|))
        && (code.Some? && code.value > 5 ==> sized && |table| == PRIMES[primeIdx] && loadLimit == Limit(load, |table|))
      ensures code == Some(6) ==> Placed(table, hashfn) && Cached(Elements(table), hte, hashfn)
      ensures code.Some? && code.value > 6 ==> FirstFault(table, hte, hashfn, code.value)
    {
      if |table| == 0 {
        return Some(if nEntries == 0 && loadLimit == 0 && primeIdx == -1 then 0 else 1);
      }
      if primeIdx < 0 || loadLimit == 0 {
        return Some(2);
      }
      if nEntries > loadLimit {
        return Some(3);
      }
      if primeIdx >= |PRIMES| {
        return None;
      }
      if |table| != PRIMES[primeIdx] {
        return Some(4);
      }
      if loadLimit != Limit(load, |table|) {
        return Some(5);
      }
      var bad, n := CheckChains();
      return Some(if bad == 0 && n != nEntries then 6 else bad);
    }

    /** The outer loop of `HT_REP_IS_BAD_`. */
    method CheckChains() returns (code: nat, n: nat)
      ensures code == 0 ==> Placed(table, hashfn) && Cached(Elements(table), hte, hashfn) && n == |Elements(table)|
      ensures code != 0 ==> !Placed(table, hashfn) || !Cached(Elements(table), hte, hashfn)
      ensures code != 0 ==> code > 6 && FirstFault(table, hte, hashfn, code)
    {
      n := 0;
      var i := 0;
      while i < |table|
        invariant 0 <= i <= |table| && n == |Flatten(table[..i])| && SoundUpTo(table, hte, hashfn, i)
      {
        code := CheckChain(i);
        if code != 0 {
          ghost var j: nat :| FaultAt(table, hte, hashfn, i, j, code);
          FaultIsBad(table, hte, hashfn, i, j, code);
          return;
        }
        FlattenStep(table, i);
        n := n + |table[i]|;
        i := i + 1;
      }
      assert table[..i] == table;
      SoundAll(table, hte, hashfn);
      code := 0;
    }

    /** The inner loop of `HT_REP_IS_BAD_`. */
    method CheckChain(i: nat) returns (code: nat)
      requires i < |table|
      ensures code == 0 ==> PlacedAt(table[i], hashfn, |table|, i) && Cached(multiset(table[i]), hte, hashfn)
      ensures code != 0 ==> code > 6 && exists j: nat :: FaultAt(table, hte, hashfn, i, j, code)
    {
      var j := 0;
      while j < |table[i]|
        invariant 0 <= j <= |table[i]|
        invariant forall k ::
          0 <= k < j ==> hte(table[i][k]) == hashfn(table[i][k]) && hashfn(table[i][k]) % |table| == i
      {
        var elm := table[i][j];
        if hte(elm) != hashfn(elm) {
          assert FaultAt(table, hte, hashfn, i, j, 1000 + i);
          return 1000 + i;
        }
        if hte(elm) % |table| != i {
          assert FaultAt(table, hte, hashfn, i, j, 10000 + i);
          return 10000 + i;
        }
        j := j + 1;
      }
      return 0;
    }

    // ---------------------------------------------------------- growing

    /** No more primes to grow to, or room already. */
    ghost predicate NoGrowth(size: nat)
      reads this
    {
      primeIdx == 23 || loadLimit > size
    }

    /**
     `HT_GROW`: afterwards there is room for `size` elements, unless the table has its last length
     already; or there was no memory, or no prime large enough (`None`), and nothing has changed.
     The length is the first larger prime with room, and the elements are the same, in the order that
     the way of rehashing gives them.
     */
    method Grow(size: nat, memory: Memory) returns (code: Option<int>)
      requires Valid()
      modifies this
      ensures Valid() && Elements(table) == old(Elements(table))
      ensures hte == old(hte) && nEntries == old(nEntries) && stale == old(stale)
      ensures code.None? <==> !old(NoGrowth(size)) && Limit(load, PRIMES[23]) <= size
      ensures code == Some(-1) <==> !old(NoGrowth(size)) && size < Limit(load, PRIMES[23]) && memory.Exhausted?
      ensures code == Some(0) ==> table != [] && (loadLimit > size <==> size < Limit(load, PRIMES[23]))
      ensures code.None? || code.value == 0 || code.value == -1
      ensures old(NoGrowth(size)) || code != Some(0) ==>
        table == old(table) && loadLimit == old(loadLimit) && primeIdx == old(primeIdx)
      ensures !old(NoGrowth(size)) && code == Some(0) ==>
        FirstWithRoom(load, old(primeIdx), size, primeIdx) && Rehashed(old(table), table, hte, memory.Fresh?)
    {
      if primeIdx == |PRIMES| - 1 || loadLimit > size {
        WithinLast();
        return Some(0);
      }
      var found := NextPrime(load, primeIdx, size);
      if found.None? {
        return None;
      }
      var done := Rebuild(found.value, memory);
      return Some(if done then 0 else -1);
    }

    /** The second half of `HT_GROW`: an array of the new length, and the elements in it. */
    method Rebuild(idx: nat, memory: Memory) returns (done: bool)
      requires Valid() && primeIdx < idx < 24 && Limit(load, PRIMES[idx]) > 0
      modifies this`table, this`primeIdx, this`loadLimit
      ensures Valid() && Elements(table) == old(Elements(table)) && done == !memory.Exhausted?
      ensures done ==> primeIdx == idx && Rehashed(old(table), table, hte, memory.Fresh?)
      ensures !done ==> table == old(table) && loadLimit == old(loadLimit) && primeIdx == old(primeIdx)
    {
      var newLen := PRIMES[idx];
      if primeIdx >= 0 {
        PrimesAscend(primeIdx, idx);
      }
      var t: Chains<T>;
      if memory.Fresh? {
        t := RehashFresh(table, newLen, hte);
      } else {
        if memory.Exhausted? {
          return false;
        }
        t := RehashInPlace(table, newLen, hte);
      }
      CachedPlaces(t, hte, hashfn);
      table, primeIdx, loadLimit := t, idx, Limit(load, newLen);
      return true;
    }

    /** No load limit is above that of the last prime. */
    lemma WithinLast()
      requires Valid()
      ensures loadLimit <= Limit(load, PRIMES[23])
    {
      if table != [] {
        if primeIdx < 23 {
          PrimesAscend(primeIdx, 23);
        }
        LimitMono(load, |table|, PRIMES[23]);
      }
    }

    /** An insertion would have to grow the table, but there is no prime for it or no bucket array to go on with. */
    ghost predicate Stuck(memory: Memory)
      requires load > 0.0
      reads this
    {
      && (table == [] || nEntries >= loadLimit) && primeIdx != 23
      && (Limit(load, PRIMES[23]) <= nEntries + 1 || (table == [] && memory.Exhausted?))
    }

    /** An insertion grows the table. */
    ghost predicate Grows(memory: Memory)
      reads this
    {
      (table == [] || nEntries >= loadLimit) && primeIdx != 23 && !memory.Exhausted?
    }

    /** The growth before an insertion. */
    method MakeRoom(memory: Memory) returns (ok: bool)
      requires Valid()
      modifies this
      ensures Valid() && Elements(table) == old(Elements(table))
      ensures hte == old(hte) && nEntries == old(nEntries) && stale == old(stale)
      ensures ok <==> !old(Stuck(memory))
      ensures ok ==> table != []
      ensures !ok ==> table == old(table) && loadLimit == old(loadLimit) && primeIdx == old(primeIdx)
      ensures ok ==> (nEntries < loadLimit <==>
          old(nEntries < loadLimit) || (old(primeIdx) != 23 && !memory.Exhausted?))
      ensures ok ==>
        Roomed(old(Grows(memory)), load, old(table), old(primeIdx), nEntries + 1, hte, memory, table, primeIdx)
    {
      ok := true;
      if table == [] || nEntries >= loadLimit {
        var code := Grow(nEntries + 1, memory);
        ok := code.Some? && table != [];
      }
    }

    // ---------------------------------------------------------- finding

    /** `HT_FIND_P_`: the link to the matching element, else the one at the end of its bucket. */
    method FindSlot(elm: T) returns (r: Option<Slot>)
      requires Valid() && hte(elm) == hashfn(elm)
      ensures r.None? <==> table == []
      ensures r.Some? ==> IsSlot(table, r.value) && r.value.b == hashfn(elm) % |table|
      ensures r.Some? && HoldsElement(table, r.value) ==> eqfn(table[r.value.b][r.value.i], elm)
      ensures r.None? || !HoldsElement(table, r.value) ==> forall x :: x in Elements(table) ==> !eqfn(x, elm)
    {
      if table == [] {
        return None;
      }
      var b := hte(elm) % |table|;
      var p := 0;
      while p < |table[b]|
        invariant 0 <= p <= |table[b]|
        invariant forall k :: 0 <= k < p ==> !eqfn(table[b][k], elm)
      {
        if eqfn(table[b][p], elm) {
          return Some(Slot(b, p));
        }
        p := p + 1;
      }
      forall x | x in Elements(table) ensures !eqfn(x, elm) {
        if eqfn(x, elm) {
          MatchIsInBucket(table, hashfn, eqfn, x, elm);
        }
      }
      return Some(Slot(b, p));
    }

    twostate predicate HashSet(elm: T)
      reads this
    {
      hte(elm) == hashfn(elm) && forall x :: x != elm ==> hte(x) == old(hte)(x)
    }

    /** The hash of an element is put in its own link. */
    method SetHash(elm: T)
      requires Valid()
      modifies this`hte
      ensures Valid() && HashSet(elm)
    {
      var was, hash := hte, hashfn(elm);
      hte := x => if x == elm then hash else was(x);
    }

    method Find(elm: T) returns (r: Option<T>)
      requires Valid()
      modifies this`hte
      ensures Valid() && HashSet(elm)
      ensures r.Some? ==> r.value in Elements(table) && eqfn(r.value, elm)
      ensures r.None? ==> forall x :: x in Elements(table) ==> !eqfn(x, elm)
    {
      SetHash(elm);
      var p := FindSlot(elm);
      if p.None? || p.value.i == |table[p.value.b]| {
        return None;
      }
      UnlinkedElements(table, p.value.b, p.value.i);
      return Some(table[p.value.b][p.value.i]);
    }

    // ---------------------------------------------------------- changing

    /** What an insertion does first: room in the table, and the hash in the element. */
    method Prepare(elm: T, memory: Memory) returns (ok: bool)
      requires Valid()
      modifies this
      ensures Valid() && Elements(table) == old(Elements(table)) && nEntries == old(nEntries) && stale == old(stale)
      ensures ok <==> !old(Stuck(memory))
      ensures ok ==> table != [] && HashSet(elm)
      ensures ok ==>
        Roomed(old(Grows(memory)), load, old(table), old(primeIdx), nEntries + 1, old(hte), memory, table, primeIdx)
      ensures !ok ==> table == old(table) && primeIdx == old(primeIdx) && hte == old(hte)
      ensures ok ==> (nEntries < loadLimit <==>
          old(nEntries < loadLimit) || (old(primeIdx) != 23 && !memory.Exhausted?))
    {
      ok := MakeRoom(memory);
      if ok {
        SetHash(elm);
      }
    }

    /** `HT_INSERT` of an element that matches none in the table; not `ok` where it would leave its arrays. */
    method Insert(elm: T, memory: Memory) returns (ok: bool, ghost grown: Chains<T>)
      requires Valid()
      requires forall x :: x in Elements(table) ==> !eqfn(x, elm)
      modifies this
      ensures Valid() && (ok <==> !old(Stuck(memory)))
      ensures Elements(table) == if ok then old(Elements(table)) + multiset{elm} else old(Elements(table))
      ensures ok ==> (Loaded() <==> old(nEntries < loadLimit) || (old(primeIdx) != 23 && !memory.Exhausted?))
      ensures ok ==> HashSet(elm) && stale == old(stale) - {elm}
      ensures ok ==> Roomed(old(Grows(memory)), load, old(table), old(primeIdx), old(nEntries) + 1, old(hte), memory,
        grown, primeIdx)
      ensures ok ==> |grown| > 0 && var b := hashfn(elm) % |grown|; table == grown[b := [elm] + grown[b]]
      ensures !ok ==> table == old(table) && primeIdx == old(primeIdx) && hte == old(hte) && stale == old(stale)
    {
      ok := Prepare(elm, memory);
      grown := table;
      if ok {
        var b := hte(elm) % |table|;
        Prepend(b, elm);
        stale := stale - {elm};
      }
    }

    /** `*p = elm` where the link `p` is the bucket's own. */
    method Prepend(b: nat, elm: T)
      requires Valid() && b < |table| && hashfn(elm) % |table| == b && hte(elm) == hashfn(elm)
      requires forall x :: x in Elements(table) ==> !eqfn(x, elm)
      modifies this`table, this`nEntries
      ensures Valid() && Elements(table) == old(Elements(table)) + multiset{elm}
      ensures nEntries == old(nEntries) + 1 && table == old(table)[b := [elm] + old(table)[b]]
    {
      PushOne(table, hashfn, elm, b);
      DistinctMore(Elements(table), elm, hashfn, eqfn);
      nEntries := nEntries + 1;
      table := table[b := [elm] + table[b]];
    }

    /**
     `HT_REPLACE`: the matching element, if any, gives its place to `elm`.  The table is right
     afterwards exactly when `elm` was not linked before, since the count goes up otherwise, and either
     takes the place of another or had an empty link of its own, since nothing writes that link.
     */
    method Replace(elm: T, memory: Memory) returns (ok: bool, r: Option<T>, ghost grown: Chains<T>)
      requires Valid()
      modifies this
      ensures ok <==> !old(Stuck(memory))
      ensures !ok ==> r.None? && Valid() && Elements(table) == old(Elements(table))
      ensures ok ==> (Valid() <==> elm !in old(Elements(table)) && (r.Some? || elm !in old(stale)))
      ensures ok ==> Displaced(old(Elements(table)), Elements(table), elm, r, eqfn)
      ensures r.Some? ==> r.value !in stale
      ensures ok && (old(nEntries < loadLimit) || (old(primeIdx) != 23 && !memory.Exhausted?)) ==> Loaded()
      ensures ok ==> HashSet(elm) && |grown| > 0
      ensures ok ==> Roomed(old(Grows(memory)), load, old(table), old(primeIdx), old(nEntries) + 1, old(hte), memory,
        grown, primeIdx)
      ensures ok ==> if r.Some? then Exchanged(grown, table, r.value, elm) && nEntries == old(nEntries)
                     else LinkedLast(grown, table, elm, hashfn) && nEntries == old(nEntries) + 1
      ensures !ok ==> table == old(table) && primeIdx == old(primeIdx) && hte == old(hte) && stale == old(stale)
    {
      ghost var was := Elements(table);
      r := None;
      ok := Prepare(elm, memory);
      grown := table;
      if ok {
        assert Elements(table) == was;
        r := Displace(elm);
      }
    }

    /** The part of `HT_REPLACE` behind the growth. */
    method Displace(elm: T) returns (r: Option<T>)
      requires Valid() && table != [] && hte(elm) == hashfn(elm)
      modifies this`table, this`nEntries, this`stale, this`torn
      ensures Valid() <==> elm !in old(Elements(table)) && (r.Some? || elm !in old(stale))
      ensures Displaced(old(Elements(table)), Elements(table), elm, r, eqfn)
      ensures r.Some? ==> r.value !in stale
      ensures nEntries == if r.Some? then old(nEntries) else old(nEntries) + 1
      ensures if r.Some? then Exchanged(old(table), table, r.value, elm) else LinkedLast(old(table), table, elm, hashfn)
    {
      var p := FindSlot(elm);
      var s := p.value;
      if s.i == |table[s.b]| {
        AbsentElement(table, elm, eqfn);
        Append(s.b, elm);
        return None;
      }
      UnlinkedElements(table, s.b, s.i);
      if table[s.b][s.i] == elm {
        nEntries := nEntries + 1;
        return None;
      }
      r := Some(table[s.b][s.i]);
      assert Matched(Elements(table), elm, eqfn);
      Swap(s, elm);
    }

    /** `*p = elm` where the link `p` is at the end of a chain; `HashLinks.AppendRepresentsIff` has the links. */
    method Append(b: nat, elm: T)
      requires Valid() && b < |table| && hashfn(elm) % |table| == b && hte(elm) == hashfn(elm)
      requires forall x :: x in Elements(table) ==> !eqfn(x, elm)
      modifies this`table, this`nEntries, this`torn
      ensures Elements(table) == old(Elements(table)) + multiset{elm}
      ensures nEntries == old(nEntries) + 1 && elm !in old(Elements(table))
      ensures table == old(table)[b := old(table)[b] + [elm]]
      ensures Valid() <==> elm !in stale
    {
      AppendElements(table, b, elm);
      PlacedAppend(table, hashfn, b, elm);
      DistinctMore(Elements(table), elm, hashfn, eqfn);
      table := table[b := table[b] + [elm]];
      nEntries := nEntries + 1;
      torn := elm in stale;
    }

    /** `*p = elm` where the link `p` leads to a matching element, whose own link is then emptied. */
    method Swap(s: Slot, elm: T)
      requires Valid() && HoldsElement(table, s) && hashfn(elm) % |table| == s.b && hte(elm) == hashfn(elm)
      requires eqfn(table[s.b][s.i], elm) && table[s.b][s.i] != elm
      modifies this`table, this`stale
      ensures Valid() && old(elm !in Elements(table) && table[s.b][s.i] in Elements(table))
      ensures Elements(table) == old(Elements(table)) - multiset{old(table[s.b][s.i])} + multiset{elm}
      ensures stale == old(stale) - {old(table[s.b][s.i]), elm}
      ensures table == old(table)[s.b := old(table)[s.b][s.i := elm]]
    {
      SwapSound(table, hashfn, eqfn, hte, s, elm);
      stale := stale - {table[s.b][s.i], elm};
      table := table[s.b := table[s.b][s.i := elm]];
    }

    /** `HT_REMOVE`, which also empties the link of what it removes. */
    method Remove(elm: T) returns (r: Option<T>)
      requires Valid()
      modifies this`table, this`nEntries, this`stale, this`hte
      ensures Valid() && nEntries <= old(nEntries)
      ensures r.Some? ==> old(Elements(table)) == Elements(table) + multiset{r.value}
      ensures r.None? ==> Elements(table) == old(Elements(table))
      ensures r.Some? ==> eqfn(r.value, elm) && r.value !in stale
      ensures forall x :: x in Elements(table) ==> !eqfn(x, elm)
      ensures HashSet(elm)
      ensures if r.Some? then TakenOut(old(table), table, r.value) && stale == old(stale) - {r.value}
              else table == old(table) && stale == old(stale)
    {
      SetHash(elm);
      var p := FindSlot(elm);
      if p.None? || p.value.i == |table[p.value.b]| {
        return None;
      }
      var x := TakeOut(p.value);
      NoneMatches(Elements(table), hashfn, eqfn, x, elm);
      return Some(x);
    }

    method TakeOut(s: Slot) returns (x: T)
      requires Valid() && HoldsElement(table, s)
      modifies this`table, this`nEntries, this`stale
      ensures Valid() && x == old(table[s.b][s.i]) && x !in stale && nEntries == old(nEntries) - 1
      ensures old(Elements(table)) == Elements(table) + multiset{x}
      ensures forall y :: y in Elements(table) ==> !eqfn(y, x)
      ensures table == Unlinked(old(table), s.b, s.i) && stale == old(stale) - {x}
    {
      x := table[s.b][s.i];
      Drop(s);
      stale := stale - {x};
    }

    /** Take the element of a slot out of its chain, and of the count; its own link still leads where it led. */
    method Drop(s: Slot)
      requires Valid() && HoldsElement(table, s)
      modifies this`table, this`nEntries, this`stale
      ensures old(table[s.b][s.i]) in stale <==> s.i + 1 < |old(table)[s.b]|
      ensures forall y :: y != old(table[s.b][s.i]) ==> (y in stale <==> y in old(stale))
      ensures Valid() && table == Unlinked(old(table), s.b, s.i) && nEntries == old(nEntries) - 1
      ensures old(Elements(table)) == Elements(table) + multiset{old(table[s.b][s.i])}
      ensures forall x :: x in Elements(table) ==> !eqfn(x, old(table[s.b][s.i]))
    {
      UnlinkedElements(table, s.b, s.i);
      PlacedUnlinked(table, hashfn, s.b, s.i);
      DistinctLess(Elements(table), Elements(Unlinked(table, s.b, s.i)), table[s.b][s.i], eqfn);
      ghost var x := table[s.b][s.i];
      stale := if s.i + 1 < |table[s.b]| then stale + {x} else stale - {x};
      table := Unlinked(table, s.b, s.i);
      nEntries := nEntries - 1;
    }

    // ---------------------------------------------------------- iterating

    /** `HT_START`. */
    method Start() returns (r: Option<Slot>)
      requires Valid()
      ensures r.None? <==> Flatten(table) == []
      ensures r.Some? ==> HoldsElement(table, r.value) && Position(table, r.value) == 0
    {
      r := FirstFrom(table, 0);
      assert table[..0] == [];
      if r.Some? {
        PositionHolds(table, r.value);
      }
    }

    /** The cached hash value of an element leads to the bucket it is in. */
    lemma HashLeadsBack(s: Slot)
      requires Valid() && HoldsElement(table, s)
      ensures hte(table[s.b][s.i]) % |table| == s.b
    {
      assert PlacedAt(table[s.b], hashfn, |table|, s.b);
      UnlinkedElements(table, s.b, s.i);
    }

    /** `HT_NEXT`: the following element, in the order of the buckets. */
    method Next(elm: Slot) returns (r: Option<Slot>)
      requires Valid() && HoldsElement(table, elm)
      ensures r.None? <==> Position(table, elm) + 1 == |Flatten(table)|
      ensures r.Some? ==> HoldsElement(table, r.value) && Position(table, r.value) == Position(table, elm) + 1
    {
      PositionHolds(table, elm);
      if elm.i + 1 < |table[elm.b]| {
        r := Some(Slot(elm.b, elm.i + 1));
      } else {
        HashLeadsBack(elm);
        var b := hte(table[elm.b][elm.i]) % |table| + 1;
        r := FirstFrom(table, b);
      }
      if r.Some? {
        PositionHolds(table, r.value);
      }
    }

    /** `HT_NEXT_RMV`: the same element as `HT_NEXT` would give, with the current one taken out. */
    method NextRmv(elm: Slot) returns (r: Option<Slot>)
      requires Valid() && HoldsElement(table, elm)
      modifies this`table, this`nEntries, this`stale
      ensures Valid() && nEntries == old(nEntries) - 1
      ensures old(table[elm.b][elm.i]) in stale <==> elm.i + 1 < |old(table)[elm.b]|
      ensures var p := old(Position(table, elm));
        p < |old(Flatten(table))| && Flatten(table) == old(Flatten(table))[..p] + old(Flatten(table))[p + 1..]
      ensures r.None? <==> old(Position(table, elm)) == |Flatten(table)|
      ensures r.Some? ==> HoldsElement(table, r.value) && Position(table, r.value) == old(Position(table, elm))
    {
      HashLeadsBack(elm);
      var h := hte(table[elm.b][elm.i]);
      UnlinkedOrder(table, elm);
      Drop(elm);
      if elm.i < |table[elm.b]| {
        r := Some(elm);
      } else {
        var b := h % |table| + 1;
        r := FirstFrom(table, b);
      }
      if r.Some? {
        PositionHolds(table, r.value);
      }
    }

    /** One round of a loop over the table: look at an element, and go on with or without removing it. */
    method Visit(elm: Slot, n: nat, drop: (nat, T) -> bool) returns (x: T, rmv: bool, r: Option<Slot>)
      requires Valid() && HoldsElement(table, elm)
      modifies this`table, this`nEntries, this`stale
      ensures Valid() && rmv == drop(n, x)
      ensures var k, was := old(Position(table, elm)), old(Flatten(table));
        && k < |was| && x == was[k]
        && Flatten(table) == (if rmv then was[..k] + was[k + 1..] else was)
        && (r.None? <==> (if rmv then k else k + 1) == |Flatten(table)|)
        && (r.Some? ==> HoldsElement(table, r.value) && Position(table, r.value) == if rmv then k else k + 1)
    {
      PositionHolds(table, elm);
      x := table[elm.b][elm.i];
      rmv := drop(n, x);
      if rmv {
        r := NextRmv(elm);
      } else {
        r := Next(elm);
      }
    }

    /**
     A loop over the whole table that goes on with `HT_NEXT` or with `HT_NEXT_RMV`, as `drop`
     says at each visit: it sees each element once, in order, and leaves what it did not drop.
     */
    method Sweep(drop: (nat, T) -> bool) returns (visited: seq<T>)
      requires Valid()
      modifies this`table, this`nEntries, this`stale
      ensures Valid() && visited == old(Flatten(table)) && Flatten(table) == Kept(visited, drop)
      ensures nEntries == |Kept(visited, drop)|
    {
      visited := [];
      ghost var all := Flatten(table);
      MidwayStart(all, drop);
      var elm := Start();
      while elm.Some?
        invariant Valid() && Midway(Flatten(table), all, visited, drop)
        invariant elm.None? <==> |Kept(visited, drop)| == |Flatten(table)|
        invariant elm.Some? ==>
          HoldsElement(table, elm.value) && Position(table, elm.value) == |Kept(visited, drop)|
        decreases |all| - |visited|
      {
        ghost var flat := Flatten(table);
        var x, rmv;
        x, rmv, elm := Visit(elm.value, |visited|, drop);
        MidwayStep(flat, Flatten(table), all, visited, x, drop);
        visited := visited + [x];
      }
      MidwayEnd(Flatten(table), all, visited, drop);
      CountIsLength();
    }

    lemma CountIsLength()
      requires Valid()
      ensures nEntries == |Flatten(table)|
    {
      ElementsOf(table);
    }

    /** `HT_FOREACH_FN`, with the calls of `fn` and their answers given by `drop`. */
    method ForeachFn(drop: (nat, T) -> bool) returns (visited: seq<T>)
      requires Valid()
      modifies this`table, this`nEntries, this`stale
      ensures Valid() && visited == old(Flatten(table)) && Flatten(table) == Kept(visited, drop)
      ensures nEntries == |Kept(visited, drop)|
    {
      visited := [];
      ghost var all := Flatten(table);
      MidwayStart(all, drop);
      var idx := 0;
      assert table[..0] == [];
      while idx < |table|
        invariant Valid() && |table| == |old(table)| && 0 <= idx <= |table|
        invariant Midway(Flatten(table), all, visited, drop) && |Flatten(table[..idx])| == |Kept(visited, drop)|
      {
        visited := ForeachInBucket(idx, visited, all, drop);
        idx := idx + 1;
      }
      assert table[..idx] == table;
      MidwayEnd(Flatten(table), all, visited, drop);
      CountIsLength();
    }

    /** The inner loop of `HT_FOREACH_FN`. */
    method ForeachInBucket(idx: nat, before: seq<T>, ghost all: seq<T>, drop: (nat, T) -> bool)
        returns (visited: seq<T>)
      requires Valid() && idx < |table| && Midway(Flatten(table), all, before, drop)
      requires |Flatten(table[..idx])| == |Kept(before, drop)|
      modifies this`table, this`nEntries, this`stale
      ensures Valid() && |table| == |old(table)| && Midway(Flatten(table), all, visited, drop)
      ensures |Flatten(table[..idx + 1])| == |Kept(visited, drop)|
    {
      visited := before;
      var p := 0;
      while p < |table[idx]|
        invariant Valid() && |table| == |old(table)| && 0 <= p <= |table[idx]|
        invariant Midway(Flatten(table), all, visited, drop)
        invariant Position(table, Slot(idx, p)) == |Kept(visited, drop)|
        decreases |table[idx]| - p
      {
        var s, x := Slot(idx, p), table[idx][p];
        ghost var flat := Flatten(table);
        PositionHolds(table, s);
        if drop(|visited|, x) {
          UnlinkedOrder(table, s);
          Drop(s);
        } else {
          p := p + 1;
        }
        MidwayStep(flat, Flatten(table), all, visited, x, drop);
        visited := visited + [x];
      }
      FlattenStep(table, idx);
    }
  }

  /** The cached hash values are those of the elements. */
  ghost predicate Cached<T(!new)>(m: multiset<T>, hte: T -> nat, hashfn: T -> nat) {
    forall x :: x in m ==> hte(x) == hashfn(x)
  }

  /** In chain `i` element `j` is the first whose cached hash is wrong or belongs elsewhere, and `code` says which. */
  ghost predicate FaultAt<T>(t: Chains<T>, hte: T -> nat, hashfn: T -> nat, i: nat, j: nat, code: nat) {
    && HoldsElement(t, Slot(i, j))
    && (forall k :: 0 <= k < j ==> hte(t[i][k]) == hashfn(t[i][k]) && hashfn(t[i][k]) % |t| == i)
    && if hte(t[i][j]) != hashfn(t[i][j]) then code == 1000 + i else hashfn(t[i][j]) % |t| != i && code == 10000 + i
  }

  /** That is so of the first chain with a fault. */
  ghost predicate FirstFault<T(!new)>(t: Chains<T>, hte: T -> nat, hashfn: T -> nat, code: nat) {
    exists i: nat, j: nat :: FaultAt(t, hte, hashfn, i, j, code) && SoundUpTo(t, hte, hashfn, i)
  }

  ghost predicate SoundUpTo<T(!new)>(t: Chains<T>, hte: T -> nat, hashfn: T -> nat, i: nat) {
    i <= |t| && forall b {:trigger t[b]} ::
      0 <= b < i ==> PlacedAt(t[b], hashfn, |t|, b) && Cached(multiset(t[b]), hte, hashfn)
  }

  lemma FaultIsBad<T(!new)>(t: Chains<T>, hte: T -> nat, hashfn: T -> nat, i: nat, j: nat, code: nat)
    requires FaultAt(t, hte, hashfn, i, j, code)
    ensures !Placed(t, hashfn) || !Cached(Elements(t), hte, hashfn)
  {
    UnlinkedElements(t, i, j);
    assert Placed(t, hashfn) ==> PlacedAt(t[i], hashfn, |t|, i);
  }

  lemma SoundAll<T(!new)>(t: Chains<T>, hte: T -> nat, hashfn: T -> nat)
    requires SoundUpTo(t, hte, hashfn, |t|)
    ensures Placed(t, hashfn) && Cached(Elements(t), hte, hashfn) && |Elements(t)| == |Flatten(t)|
  {
    ElementsOf(t);
    forall x | x in Elements(t) ensures hte(x) == hashfn(x) {
      var b := WhereIs(t, x);
      assert Cached(multiset(t[b]), hte, hashfn);
    }
  }

  /** A table placed by its cached hash values is placed by the hash function. */
  lemma CachedPlaces<T(!new)>(t: Chains<T>, hte: T -> nat, hashfn: T -> nat)
    requires Cached(Elements(t), hte, hashfn) && Placed(t, hte)
    ensures Placed(t, hashfn)
  {
    ElementsOf(t);
    forall b {:trigger t[b]} | 0 <= b < |t| ensures PlacedAt(t[b], hashfn, |t|, b) {
      FlattenAt(t, b, []);
      assert PlacedAt(t[b], hte, |t|, b);
    }
  }

  lemma AppendElements<T>(t: Chains<T>, b: nat, e: T)
    requires b < |t|
    ensures Elements(t[b := t[b] + [e]]) == Elements(t) + multiset{e}
  {
    ElementsAt(t, b, t[b] + [e]);
  }

  lemma PlacedAppend<T(!new)>(t: Chains<T>, hashfn: T -> nat, b: nat, e: T)
    requires b < |t| && Placed(t, hashfn) && hashfn(e) % |t| == b
    ensures Placed(t[b := t[b] + [e]], hashfn)
  {
    assert PlacedAt(t[b], hashfn, |t|, b);
  }

  lemma SwapElements<T>(t: Chains<T>, b: nat, i: nat, e: T)
    requires b < |t| && i < |t[b]|
    ensures t[b][i] in Elements(t)
    ensures Elements(t[b := t[b][i := e]]) == Elements(t) - multiset{t[b][i]} + multiset{e}
  {
    UnlinkedElements(t, b, i);
    ElementsAt(t, b, t[b][i := e]);
    assert multiset(t[b][i := e]) == multiset(t[b]) - multiset{t[b][i]} + multiset{e};
  }

  lemma PlacedSwap<T(!new)>(t: Chains<T>, hashfn: T -> nat, b: nat, i: nat, e: T)
    requires b < |t| && i < |t[b]| && Placed(t, hashfn) && hashfn(e) % |t| == b
    ensures Placed(t[b := t[b][i := e]], hashfn)
  {
    assert PlacedAt(t[b], hashfn, |t|, b);
  }

  lemma SwapSound<T(!new)>(t: Chains<T>, hashfn: T -> nat, eqfn: (T, T) -> bool, hte: T -> nat, s: Slot, e: T)
    requires HoldsElement(t, s) && Placed(t, hashfn) && hashfn(e) % |t| == s.b && hte(e) == hashfn(e)
    requires Lawful(hashfn, eqfn) && Distinct(Elements(t), eqfn) && eqfn(t[s.b][s.i], e) && t[s.b][s.i] != e
    requires Cached(Elements(t), hte, hashfn)
    ensures e !in Elements(t) && t[s.b][s.i] in Elements(t)
    ensures var t' := t[s.b := t[s.b][s.i := e]];
      && Elements(t') == Elements(t) - multiset{t[s.b][s.i]} + multiset{e} && |Elements(t')| == |Elements(t)|
      && Placed(t', hashfn) && Distinct(Elements(t'), eqfn) && Cached(Elements(t'), hte, hashfn)
  {
    SwapElements(t, s.b, s.i, e);
    PlacedSwap(t, hashfn, s.b, s.i, e);
    SwapDistinct(Elements(t), hashfn, eqfn, t[s.b][s.i], e);
  }

  lemma PlacedUnlinked<T(!new)>(t: Chains<T>, hashfn: T -> nat, b: nat, i: nat)
    requires b < |t| && i < |t[b]| && Placed(t, hashfn)
    ensures Placed(Unlinked(t, b, i), hashfn)
  {
    assert PlacedAt(t[b], hashfn, |t|, b);
  }

  lemma DistinctLess<T(!new)>(m: multiset<T>, m': multiset<T>, x: T, eqfn: (T, T) -> bool)
    requires Distinct(m, eqfn) && m == m' + multiset{x}
    ensures Distinct(m', eqfn) && |m'| == |m| - 1
    ensures forall y :: y in m' ==> y in m && !eqfn(y, x)
  {
    forall y | y in m' ensures y in m && !eqfn(y, x) {
      assert m[y] == m'[y] + multiset{x}[y];
    }
    forall y ensures m'[y] <= 1 {
      assert m[y] == m'[y] + multiset{x}[y];
    }
  }

  lemma DistinctMore<T(!new)>(m: multiset<T>, e: T, hashfn: T -> nat, eqfn: (T, T) -> bool)
    requires Lawful(hashfn, eqfn) && Distinct(m, eqfn)
    requires forall x :: x in m ==> !eqfn(x, e)
    ensures e !in m && Distinct(m + multiset{e}, eqfn)
  {
    assert eqfn(e, e);
  }

  /** Where nothing matches an element, nothing matches what it matches. */
  lemma NoneMatches<T(!new)>(m: multiset<T>, hashfn: T -> nat, eqfn: (T, T) -> bool, r: T, elm: T)
    requires Lawful(hashfn, eqfn) && eqfn(r, elm) && forall x :: x in m ==> !eqfn(x, r)
    ensures forall x :: x in m ==> !eqfn(x, elm)
  {
    assert eqfn(elm, r);
  }

  /** Swapping one element for a matching one keeps the set a set. */
  lemma SwapDistinct<T(!new)>(m: multiset<T>, hashfn: T -> nat, eqfn: (T, T) -> bool, r: T, e: T)
    requires Lawful(hashfn, eqfn) && Distinct(m, eqfn) && r in m && eqfn(r, e) && r != e
    ensures e !in m && Distinct(m - multiset{r} + multiset{e}, eqfn)
  {
    var m' := m - multiset{r} + multiset{e};
    forall x, y | x in m' && y in m' && eqfn(x, y) ensures x == y {
      assert eqfn(e, r) && eqfn(x, y) && eqfn(y, x);
    }
  }
}
