/** The two rehash algorithms of HT_GROW as functions on chains, and their agreement. */
module HashRehash {
  import opened HashChains

  function Dest(hash: int -> nat, e: Entry, n: nat): nat
    requires n > 0
  {
    hash(e.fd) % n
  }

  /** Every entry of chain `b` hashes to `b`. */
  ghost predicate PlacedChain(c: seq<Entry>, b: nat, n: nat, hash: int -> nat)
    requires n > 0
  {
    forall k :: 0 <= k < |c| ==> Dest(hash, c[k], n) == b
  }

  ghost predicate Placed(cs: Chains, hash: int -> nat) {
    forall b :: 0 <= b < |cs| ==> PlacedChain(cs[b], b, |cs|, hash)
  }

  /** All entries in traversal order, bucket after bucket. */
  ghost function Flat(cs: Chains): seq<Entry> {
    if cs == [] then [] else Flat(cs[..|cs| - 1]) + cs[|cs| - 1]
  }

  ghost function Empty(n: nat): (cs: Chains)
    ensures |cs| == n && forall b :: 0 <= b < n ==> cs[b] == []
  {
    seq(n, _ => [])
  }

  // ---------- the malloc path: a second table, filled by head insertion ----------

  ghost function PushAll(acc: Chains, es: seq<Entry>, hash: int -> nat): (r: Chains)
    requires |acc| > 0
    ensures |r| == |acc|
  {
    if es == [] then acc
    else
      var e := es[|es| - 1];
      Pushed(PushAll(acc, es[..|es| - 1], hash), Dest(hash, e, |acc|), e)
  }

  lemma PushNothing(n: nat, hash: int -> nat)
    requires n > 0
    ensures PushAll(Empty(n), [], hash) == Empty(n) && Flat([]) == []
  {
  }

  lemma PushAllNext(acc: Chains, done: seq<Entry>, c: seq<Entry>, i: nat, hash: int -> nat)
    requires |acc| > 0 && i < |c|
    ensures PushAll(acc, done + c[..i + 1], hash)
         == Pushed(PushAll(acc, done + c[..i], hash), Dest(hash, c[i], |acc|), c[i])
  {
    hide PushAll, Pushed, Dest;
    PushAllSnoc(acc, done + c[..i], c[i], hash);
    TakeNext(done, c, i);
  }

  lemma TakeNext(done: seq<Entry>, c: seq<Entry>, i: nat)
    requires i < |c|
    ensures done + c[..i + 1] == done + c[..i] + [c[i]]
  {
  }

  lemma PushAllSnoc(acc: Chains, es: seq<Entry>, e: Entry, hash: int -> nat)
    requires |acc| > 0
    ensures PushAll(acc, es + [e], hash) == Pushed(PushAll(acc, es, hash), Dest(hash, e, |acc|), e)
  {
    assert (es + [e])[..|es|] == es;
    hide Pushed, Dest;
  }

  ghost function FreshRehash(cs: Chains, n: nat, hash: int -> nat): (r: Chains)
    requires n > 0
    ensures |r| == n
  {
    PushAll(Empty(n), Flat(cs), hash)
  }

  // ---------- the realloc path: entries move inside the one lengthened table ----------

  /** Take the entry at position `i` of chain `b` out and put it at the head of chain `b2`. */
  ghost function Moved(cs: Chains, b: nat, i: nat, b2: nat): (r: Chains)
    requires b < |cs| && i < |cs[b]| && b2 < |cs|
    ensures |r| == |cs|
  {
    Pushed(Removed(cs, b, i), b2, cs[b][i])
  }

  /** The loop over the `len0` original buckets, standing at position `i` of bucket `b`. */
  ghost function Relocate(cs: Chains, b: nat, i: nat, len0: nat, hash: int -> nat): (r: Chains)
    requires b <= len0 <= |cs| && |cs| > 0 && (b < len0 ==> i <= |cs[b]|)
    ensures |r| == |cs|
    decreases len0 - b, if b < len0 then |cs[b]| - i else 0
  {
    if b == len0 then cs
    else if i == |cs[b]| then Relocate(cs, b + 1, 0, len0, hash)
    else
      var b2 := Dest(hash, cs[b][i], |cs|);
      if b2 == b then Relocate(cs, b, i + 1, len0, hash)
      else Relocate(Moved(cs, b, i, b2), b, i, len0, hash)
  }

  ghost function InPlaceRehash(cs: Chains, n: nat, hash: int -> nat): (r: Chains)
    requires 0 < n && |cs| <= n
    ensures |r| == n
  {
    Relocate(cs + Empty(n - |cs|), 0, 0, |cs|, hash)
  }

  // ---------- where entries are, and how many times ----------

  /** The occurrences in all chains together. */
  ghost function Bag(cs: Chains): multiset<Entry> {
    if cs == [] then multiset{} else Bag(cs[..|cs| - 1]) + multiset(cs[|cs| - 1])
  }

  lemma {:induction false} BagIsFlat(cs: Chains)
    ensures Bag(cs) == multiset(Flat(cs))
  {
    if cs != [] {
      BagIsFlat(cs[..|cs| - 1]);
    }
  }

  lemma Cancel<T>(x: multiset<T>, y: multiset<T>, z: multiset<T>)
    requires x + z == y + z
    ensures x == y
  {
    forall e
      ensures x[e] == y[e]
    {
      assert (x + z)[e] == (y + z)[e];
    }
  }

  lemma AddCommon<T>(a: multiset<T>, b: multiset<T>, c: multiset<T>, d: multiset<T>, common: multiset<T>)
    requires a + b == c + d
    ensures a + common + b == c + common + d
  {
    assert a + common + b == (a + b) + common;
    assert c + common + d == (c + d) + common;
  }

  lemma {:induction false} BagUpdate(cs: Chains, b: nat, c: seq<Entry>)
    requires b < |cs|
    ensures Bag(cs[b := c]) + multiset(cs[b]) == Bag(cs) + multiset(c)
  {
    var last := |cs| - 1;
    if b == last {
      assert cs[b := c][..last] == cs[..last];
    } else {
      assert cs[b := c][..last] == cs[..last][b := c] && cs[..last][b] == cs[b];
      BagUpdate(cs[..last], b, c);
      AddCommon(Bag(cs[..last][b := c]), multiset(cs[b]), Bag(cs[..last]), multiset(c), multiset(cs[last]));
    }
  }

  lemma {:induction false} BagEmpty(cs: Chains, n: nat)
    ensures Bag(cs + Empty(n)) == Bag(cs)
  {
    if n == 0 {
      assert cs + Empty(n) == cs;
    } else {
      var wide := cs + Empty(n);
      BagEmpty(cs, n - 1);
      assert wide[..|wide| - 1] == cs + Empty(n - 1);
      assert wide[|wide| - 1] == [] && multiset(wide[|wide| - 1]) == multiset{};
    }
  }

  lemma PushedBag(cs: Chains, b: nat, e: Entry)
    requires b < |cs|
    ensures Bag(Pushed(cs, b, e)) == Bag(cs) + multiset{e}
  {
    BagUpdate(cs, b, [e] + cs[b]);
    assert multiset([e] + cs[b]) == multiset{e} + multiset(cs[b]);
    Cancel(Bag(Pushed(cs, b, e)), Bag(cs) + multiset{e}, multiset(cs[b]));
  }

  lemma TakeOne(c: seq<Entry>, i: nat)
    requires i < |c|
    ensures multiset(c) == multiset(c[..i] + c[i + 1..]) + multiset{c[i]}
  {
    assert c == c[..i] + [c[i]] + c[i + 1..];
  }

  lemma RemovedBag(cs: Chains, b: nat, i: nat)
    requires b < |cs| && i < |cs[b]|
    ensures Bag(Removed(cs, b, i)) + multiset{cs[b][i]} == Bag(cs)
  {
    var rest, e := cs[b][..i] + cs[b][i + 1..], cs[b][i];
    BagUpdate(cs, b, rest);
    TakeOne(cs[b], i);
    hide Bag;
    var one, r, all, before := multiset{e}, multiset(rest), Bag(Removed(cs, b, i)), Bag(cs);
    assert all + (r + one) == before + r;
    Cancel(all + one, before, r);
  }

  lemma {:induction false} PushAllPlaced(acc: Chains, es: seq<Entry>, hash: int -> nat)
    requires |acc| > 0 && Placed(acc, hash)
    ensures Placed(PushAll(acc, es, hash), hash)
  {
    if es != [] {
      var init, e := es[..|es| - 1], es[|es| - 1];
      PushAllPlaced(acc, init, hash);
      var done, d := PushAll(acc, init, hash), Dest(hash, e, |acc|);
      assert PlacedChain(done[d], d, |acc|, hash);
    }
  }

  lemma {:induction false} PushAllBag(acc: Chains, es: seq<Entry>, hash: int -> nat)
    requires |acc| > 0
    ensures Bag(PushAll(acc, es, hash)) == Bag(acc) + multiset(es)
  {
    hide Bag, PushAll, Pushed;
    if es == [] {
      PushAllNone(acc, hash);
    } else {
      var init, e := es[..|es| - 1], es[|es| - 1];
      assert es == init + [e];
      PushAllBag(acc, init, hash);
      PushAllSnoc(acc, init, e, hash);
      PushedBag(PushAll(acc, init, hash), Dest(hash, e, |acc|), e);
    }
  }

  lemma PushAllNone(acc: Chains, hash: int -> nat)
    requires |acc| > 0
    ensures PushAll(acc, [], hash) == acc
  {
  }

  /** What the in-place loop has established when it stands at position `i` of bucket `b`. */
  ghost predicate BucketsDone(cs: Chains, b: nat, i: nat, len0: nat, hash: int -> nat) {
    && b <= len0 <= |cs| && |cs| > 0
    && (forall c :: 0 <= c < |cs| && (c < b || len0 <= c) ==> PlacedChain(cs[c], c, |cs|, hash))
    && (b < len0 ==> i <= |cs[b]| && PlacedChain(cs[b][..i], b, |cs|, hash))
  }

  lemma {:induction false} RelocateFacts(cs: Chains, b: nat, i: nat, len0: nat, hash: int -> nat)
    requires BucketsDone(cs, b, i, len0, hash)
    ensures Placed(Relocate(cs, b, i, len0, hash), hash)
    ensures Bag(Relocate(cs, b, i, len0, hash)) == Bag(cs)
    decreases len0 - b, if b < len0 then |cs[b]| - i else 0
  {
    if b == len0 {
    } else if i == |cs[b]| {
      assert cs[b][..i] == cs[b];
      RelocateFacts(cs, b + 1, 0, len0, hash);
    } else {
      var b2 := Dest(hash, cs[b][i], |cs|);
      if b2 == b {
        assert cs[b][..i + 1] == cs[b][..i] + [cs[b][i]];
        RelocateFacts(cs, b, i + 1, len0, hash);
      } else {
        RemovedBag(cs, b, i);
        PushedBag(Removed(cs, b, i), b2, cs[b][i]);
        MovedDone(cs, b, i, len0, hash);
        RelocateFacts(Moved(cs, b, i, b2), b, i, len0, hash);
      }
    }
  }

  lemma MovedDone(cs: Chains, b: nat, i: nat, len0: nat, hash: int -> nat)
    requires BucketsDone(cs, b, i, len0, hash) && b < len0 && i < |cs[b]|
    requires Dest(hash, cs[b][i], |cs|) != b
    ensures BucketsDone(Moved(cs, b, i, Dest(hash, cs[b][i], |cs|)), b, i, len0, hash)
  {
    var cs' := Moved(cs, b, i, Dest(hash, cs[b][i], |cs|));
    assert cs'[b][..i] == cs[b][..i];
  }

  /** In a placed table a bucket holds exactly the occurrences that hash to it. */
  lemma {:induction false} PlacedCount(cs: Chains, m: nat, b: nat, e: Entry, hash: int -> nat)
    requires m <= |cs| && b < |cs| && Placed(cs, hash) && Dest(hash, e, |cs|) == b
    ensures Bag(cs[..m])[e] == if b < m then multiset(cs[b])[e] else 0
  {
    if m > 0 {
      PlacedCount(cs, m - 1, b, e, hash);
      assert cs[..m][..m - 1] == cs[..m - 1];
      assert PlacedChain(cs[m - 1], m - 1, |cs|, hash);
      assert m - 1 != b ==> e !in cs[m - 1];
    }
  }

  lemma PlacedDetermined(cs: Chains, ds: Chains, hash: int -> nat, b: nat)
    requires |cs| == |ds| && b < |cs| && Placed(cs, hash) && Placed(ds, hash)
    requires Bag(cs) == Bag(ds)
    ensures multiset(cs[b]) == multiset(ds[b])
  {
    assert cs[..|cs|] == cs && ds[..|ds|] == ds;
    forall e
      ensures multiset(cs[b])[e] == multiset(ds[b])[e]
    {
      if Dest(hash, e, |cs|) == b {
        PlacedCount(cs, |cs|, b, e, hash);
        PlacedCount(ds, |ds|, b, e, hash);
      } else {
        assert PlacedChain(cs[b], b, |cs|, hash) && PlacedChain(ds[b], b, |ds|, hash);
        assert e !in cs[b] && e !in ds[b];
      }
    }
  }

  lemma FreshFacts(cs: Chains, n: nat, hash: int -> nat)
    requires n > 0
    ensures Placed(FreshRehash(cs, n, hash), hash) && Bag(FreshRehash(cs, n, hash)) == Bag(cs)
  {
    BagEmpty([], n);
    assert [] + Empty(n) == Empty(n);
    PushAllPlaced(Empty(n), Flat(cs), hash);
    PushAllBag(Empty(n), Flat(cs), hash);
    BagIsFlat(cs);
  }

  lemma InPlaceFacts(cs: Chains, n: nat, hash: int -> nat)
    requires 0 < n && |cs| <= n
    ensures Placed(InPlaceRehash(cs, n, hash), hash) && Bag(InPlaceRehash(cs, n, hash)) == Bag(cs)
  {
    BagEmpty(cs, n - |cs|);
    RelocateFacts(cs + Empty(n - |cs|), 0, 0, |cs|, hash);
  }

  /** The in-place rehash puts into every bucket what the rehash into a second table puts there:
      whatever the table was, each entry ends in the bucket of its hash, as often as it occurred. */
  lemma InPlaceAgreesWithFresh(cs: Chains, n: nat, hash: int -> nat, b: nat)
    requires |cs| <= n && b < n
    ensures multiset(InPlaceRehash(cs, n, hash)[b]) == multiset(FreshRehash(cs, n, hash)[b])
  {
    FreshFacts(cs, n, hash);
    InPlaceFacts(cs, n, hash);
    PlacedDetermined(InPlaceRehash(cs, n, hash), FreshRehash(cs, n, hash), hash, b);
  }

  // ---------- the order inside the buckets ----------

  ghost function Backwards(es: seq<Entry>): seq<Entry> {
    if es == [] then [] else Backwards(es[1..]) + [es[0]]
  }

  /** The entries that belong to bucket `t` of `n`, in order. */
  ghost function Bound(es: seq<Entry>, t: nat, n: nat, hash: int -> nat): seq<Entry>
    requires n > 0
  {
    if es == [] then []
    else (if Dest(hash, es[0], n) == t then [es[0]] else []) + Bound(es[1..], t, n, hash)
  }

  lemma {:induction false} BoundAdds(es: seq<Entry>, fs: seq<Entry>, t: nat, n: nat, hash: int -> nat)
    requires n > 0
    ensures Bound(es + fs, t, n, hash) == Bound(es, t, n, hash) + Bound(fs, t, n, hash)
  {
    hide Dest;
    if es == [] {
      assert es + fs == fs;
    } else {
      assert (es + fs)[1..] == es[1..] + fs;
      BoundAdds(es[1..], fs, t, n, hash);
      BoundFirst(es + fs, t, n, hash);
      BoundFirst(es, t, n, hash);
    }
  }

  lemma BoundFirst(es: seq<Entry>, t: nat, n: nat, hash: int -> nat)
    requires n > 0 && es != []
    ensures Bound(es, t, n, hash) == (if Dest(hash, es[0], n) == t then [es[0]] else []) + Bound(es[1..], t, n, hash)
  {
  }

  lemma {:induction false} BackwardsAdds(es: seq<Entry>, fs: seq<Entry>)
    ensures Backwards(es + fs) == Backwards(fs) + Backwards(es)
  {
    if es == [] {
      assert es + fs == fs;
    } else {
      assert (es + fs)[1..] == es[1..] + fs;
      BackwardsAdds(es[1..], fs);
    }
  }

  lemma BackwardsOne(e: Entry)
    ensures Backwards([e]) == [e] && Backwards([]) == []
  {
  }

  lemma BoundOne(e: Entry, t: nat, n: nat, hash: int -> nat)
    requires n > 0
    ensures Bound([e], t, n, hash) == if Dest(hash, e, n) == t then [e] else []
  {
  }

  /** The malloc path fills every bucket from the front: its entries in reverse traversal order. */
  lemma FreshOrder(cs: Chains, n: nat, hash: int -> nat, t: nat)
    requires t < n
    ensures FreshRehash(cs, n, hash)[t] == Backwards(Bound(Flat(cs), t, n, hash))
  {
    PushedOrder(n, Flat(cs), hash, t);
  }

  lemma {:induction false} PushedOrder(n: nat, es: seq<Entry>, hash: int -> nat, t: nat)
    requires t < n
    ensures PushAll(Empty(n), es, hash)[t] == Backwards(Bound(es, t, n, hash))
  {
    hide Bound, Backwards, PushAll;
    if es == [] {
      PushAllNone(Empty(n), hash);
      BoundNone(t, n, hash);
    } else {
      var init, e := es[..|es| - 1], es[|es| - 1];
      assert es == init + [e];
      PushedOrder(n, init, hash, t);
      PushAllSnoc(Empty(n), init, e, hash);
      BoundAdds(init, [e], t, n, hash);
      BackwardsAdds(Bound(init, t, n, hash), Bound([e], t, n, hash));
      BoundOne(e, t, n, hash);
      BackwardsOne(e);
    }
  }

  lemma BoundNone(t: nat, n: nat, hash: int -> nat)
    requires n > 0
    ensures Bound([], t, n, hash) == [] && Backwards([]) == []
  {
  }

  /** The entries of a chain that do not belong to it, in order. */
  ghost function Strays(c: seq<Entry>, b: nat, n: nat, hash: int -> nat): seq<Entry>
    requires n > 0
  {
    if c == [] then []
    else (if Dest(hash, c[0], n) == b then [] else [c[0]]) + Strays(c[1..], b, n, hash)
  }

  /** Those of all old chains from position `i` of chain `b` on. */
  ghost function StraysFrom(cs: Chains, b: nat, i: nat, len0: nat, hash: int -> nat): seq<Entry>
    requires b <= len0 <= |cs| && |cs| > 0 && (b < len0 ==> i <= |cs[b]|)
    decreases len0 - b
  {
    if b == len0 then []
    else Strays(cs[b][i..], b, |cs|, hash) + StraysFrom(cs, b + 1, 0, len0, hash)
  }

  /** What stays of bucket `t`, in order. */
  ghost function Staying(cs: Chains, b: nat, i: nat, len0: nat, hash: int -> nat, t: nat): seq<Entry>
    requires b <= len0 <= |cs| && t < |cs| && (b < len0 ==> i <= |cs[b]|)
  {
    if t < b || len0 <= t then cs[t]
    else if t == b then cs[t][..i] + Bound(cs[t][i..], t, |cs|, hash)
    else Bound(cs[t], t, |cs|, hash)
  }

  /** The realloc path: in front the entries that came from elsewhere, in reverse traversal order, and behind
      them, as they were, those that stayed. */
  lemma InPlaceOrder(cs: Chains, n: nat, hash: int -> nat, t: nat)
    requires |cs| <= n && t < n
    ensures var wide := cs + Empty(n - |cs|);
            InPlaceRehash(cs, n, hash)[t]
            == Backwards(Bound(StraysFrom(wide, 0, 0, |cs|, hash), t, n, hash))
               + if t < |cs| then Bound(cs[t], t, n, hash) else []
  {
    hide Backwards, Bound, StraysFrom, Relocate, Staying;
    var wide := cs + Empty(n - |cs|);
    RelocatedOrder(wide, 0, 0, |cs|, hash, t);
    WideStaying(cs, n, hash, t);
  }

  lemma WideStaying(cs: Chains, n: nat, hash: int -> nat, t: nat)
    requires |cs| <= n && t < n
    ensures Staying(cs + Empty(n - |cs|), 0, 0, |cs|, hash, t) == if t < |cs| then Bound(cs[t], t, n, hash) else []
  {
    hide Bound;
    if t < |cs| {
      assert cs[t][..0] == [] && cs[t][0..] == cs[t];
    }
  }

  /** What bucket `t` becomes. */
  ghost function Finally(cs: Chains, b: nat, i: nat, len0: nat, hash: int -> nat, t: nat): seq<Entry>
    requires b <= len0 <= |cs| && t < |cs| && (b < len0 ==> i <= |cs[b]|)
  {
    Backwards(Bound(StraysFrom(cs, b, i, len0, hash), t, |cs|, hash)) + Staying(cs, b, i, len0, hash, t)
  }

  lemma {:induction false} RelocatedOrder(cs: Chains, b: nat, i: nat, len0: nat, hash: int -> nat, t: nat)
    requires b <= len0 <= |cs| && t < |cs| && (b < len0 ==> i <= |cs[b]|)
    ensures Relocate(cs, b, i, len0, hash)[t] == Finally(cs, b, i, len0, hash, t)
    decreases len0 - b, if b < len0 then |cs[b]| - i else 0
  {
    hide Finally, Moved;
    if b == len0 {
      NothingFinally(cs, i, len0, hash, t);
    } else if i == |cs[b]| {
      RelocatedOrder(cs, b + 1, 0, len0, hash, t);
      NextFinally(cs, b, len0, hash, t);
    } else {
      var b2 := Dest(hash, cs[b][i], |cs|);
      if b2 == b {
        RelocatedOrder(cs, b, i + 1, len0, hash, t);
        PlacedFinally(cs, b, i, len0, hash, t);
      } else {
        MovedFits(cs, b, i);
        MovedFinally(cs, b, i, len0, hash, t);
        RelocatedOrder(Moved(cs, b, i, b2), b, i, len0, hash, t);
      }
    }
  }

  lemma NothingFinally(cs: Chains, i: nat, len0: nat, hash: int -> nat, t: nat)
    requires len0 <= |cs| && t < |cs|
    ensures Finally(cs, len0, i, len0, hash, t) == cs[t]
  {
  }

  lemma NextFinally(cs: Chains, b: nat, len0: nat, hash: int -> nat, t: nat)
    requires b < len0 <= |cs| && t < |cs|
    ensures Finally(cs, b, |cs[b]|, len0, hash, t) == Finally(cs, b + 1, 0, len0, hash, t)
  {
    NextStrays(cs, b, len0, hash);
    NextStaying(cs, b, len0, hash, t);
    hide StraysFrom, Staying, Backwards, Bound;
  }

  lemma NextStrays(cs: Chains, b: nat, len0: nat, hash: int -> nat)
    requires b < len0 <= |cs|
    ensures StraysFrom(cs, b, |cs[b]|, len0, hash) == StraysFrom(cs, b + 1, 0, len0, hash)
  {
    assert cs[b][|cs[b]|..] == [];
  }

  lemma NextStaying(cs: Chains, b: nat, len0: nat, hash: int -> nat, t: nat)
    requires b < len0 <= |cs| && t < |cs|
    ensures Staying(cs, b, |cs[b]|, len0, hash, t) == Staying(cs, b + 1, 0, len0, hash, t)
  {
    assert cs[b][..|cs[b]|] == cs[b] && cs[b][|cs[b]|..] == [];
    assert t == b + 1 ==> cs[t][..0] == [] && cs[t][0..] == cs[t];
  }

  lemma PlacedFinally(cs: Chains, b: nat, i: nat, len0: nat, hash: int -> nat, t: nat)
    requires b < len0 <= |cs| && t < |cs| && i < |cs[b]| && Dest(hash, cs[b][i], |cs|) == b
    ensures Finally(cs, b, i, len0, hash, t) == Finally(cs, b, i + 1, len0, hash, t)
  {
    PlacedStrays(cs, b, i, len0, hash);
    PlacedStaying(cs, b, i, len0, hash, t);
    hide StraysFrom, Staying, Backwards, Bound;
  }

  lemma PlacedStrays(cs: Chains, b: nat, i: nat, len0: nat, hash: int -> nat)
    requires b < len0 <= |cs| && i < |cs[b]| && Dest(hash, cs[b][i], |cs|) == b
    ensures StraysFrom(cs, b, i, len0, hash) == StraysFrom(cs, b, i + 1, len0, hash)
  {
    assert cs[b][i..][1..] == cs[b][i + 1..];
    assert cs[b][i..][0] == cs[b][i];
  }

  lemma PlacedStaying(cs: Chains, b: nat, i: nat, len0: nat, hash: int -> nat, t: nat)
    requires b < len0 <= |cs| && t < |cs| && i < |cs[b]| && Dest(hash, cs[b][i], |cs|) == b
    ensures Staying(cs, b, i, len0, hash, t) == Staying(cs, b, i + 1, len0, hash, t)
  {
    var e, back := cs[b][i], cs[b][i + 1..];
    BoundAdds([e], back, b, |cs|, hash);
    BoundOne(e, b, |cs|, hash);
    hide Bound;
    assert cs[b][i..] == [e] + back && cs[b][..i + 1] == cs[b][..i] + [e];
    Regrouped(cs[b][..i], e, Bound(back, b, |cs|, hash));
  }

  /** One misplaced entry moved: it was the next stray, and stands in front of what stays of its bucket. */
  lemma MovedFinally(cs: Chains, b: nat, i: nat, len0: nat, hash: int -> nat, t: nat)
    requires b < len0 <= |cs| && t < |cs| && i < |cs[b]| && Dest(hash, cs[b][i], |cs|) != b
    ensures Finally(cs, b, i, len0, hash, t)
         == Finally(Moved(cs, b, i, Dest(hash, cs[b][i], |cs|)), b, i, len0, hash, t)
  {
    hide Bound, Backwards, StraysFrom, Staying, Moved;
    var e := cs[b][i];
    var ds := Moved(cs, b, i, Dest(hash, e, |cs|));
    MovedFits(cs, b, i);
    MovedStrays(cs, b, i, len0, hash);
    MovedStaying(cs, b, i, len0, hash, t);
    FirstStray(e, StraysFrom(ds, b, i, len0, hash), t, |cs|, hash);
    var front := Backwards(Bound(StraysFrom(ds, b, i, len0, hash), t, |cs|, hash));
    Regrouped(front, e, Staying(cs, b, i, len0, hash, t));
  }

  lemma MovedFits(cs: Chains, b: nat, i: nat)
    requires b < |cs| && i < |cs[b]|
    ensures forall b2 :: 0 <= b2 < |cs| && b2 != b ==> |Moved(cs, b, i, b2)[b]| == |cs[b]| - 1
  {
  }

  lemma Regrouped(front: seq<Entry>, e: Entry, back: seq<Entry>)
    ensures front + [e] + back == front + ([e] + back)
  {
  }

  lemma FirstStray(e: Entry, later: seq<Entry>, t: nat, n: nat, hash: int -> nat)
    requires n > 0
    ensures Backwards(Bound([e] + later, t, n, hash))
         == Backwards(Bound(later, t, n, hash)) + if Dest(hash, e, n) == t then [e] else []
  {
    BoundAdds([e], later, t, n, hash);
    BackwardsAdds(Bound([e], t, n, hash), Bound(later, t, n, hash));
    BoundOne(e, t, n, hash);
    BackwardsOne(e);
    hide Bound, Backwards;
  }

  lemma MovedStrays(cs: Chains, b: nat, i: nat, len0: nat, hash: int -> nat)
    requires b < len0 <= |cs| && i < |cs[b]| && Dest(hash, cs[b][i], |cs|) != b
    ensures StraysFrom(cs, b, i, len0, hash)
         == [cs[b][i]] + StraysFrom(Moved(cs, b, i, Dest(hash, cs[b][i], |cs|)), b, i, len0, hash)
  {
    var e := cs[b][i];
    var ds := Moved(cs, b, i, Dest(hash, e, |cs|));
    StraysLater(cs, ds, b + 1, len0, e, hash);
    assert cs[b][i..] == [e] + cs[b][i + 1..] && ds[b][i..] == cs[b][i + 1..];
    assert cs[b][i..][1..] == cs[b][i + 1..];
  }

  lemma {:induction false} StraysLater(cs: Chains, ds: Chains, b: nat, len0: nat, e: Entry, hash: int -> nat)
    requires b <= len0 <= |cs| == |ds| && |cs| > 0
    requires forall c :: b <= c < len0 ==>
               ds[c] == if c == Dest(hash, e, |cs|) then [e] + cs[c] else cs[c]
    ensures StraysFrom(ds, b, 0, len0, hash) == StraysFrom(cs, b, 0, len0, hash)
    decreases len0 - b
  {
    if b < len0 {
      StraysLater(cs, ds, b + 1, len0, e, hash);
      assert ds[b][0..] == ds[b] && cs[b][0..] == cs[b] && ([e] + cs[b])[1..] == cs[b];
    }
  }

  lemma MovedStaying(cs: Chains, b: nat, i: nat, len0: nat, hash: int -> nat, t: nat)
    requires b < len0 <= |cs| && t < |cs| && i < |cs[b]| && Dest(hash, cs[b][i], |cs|) != b
    ensures var b2 := Dest(hash, cs[b][i], |cs|);
            Staying(Moved(cs, b, i, b2), b, i, len0, hash, t)
            == if t == b2 then [cs[b][i]] + Staying(cs, b, i, len0, hash, t) else Staying(cs, b, i, len0, hash, t)
  {
    var e := cs[b][i];
    var b2 := Dest(hash, e, |cs|);
    var ds := Moved(cs, b, i, b2);
    assert ds[b][..i] == cs[b][..i] && ds[b][i..] == cs[b][i + 1..] && cs[b][i..][1..] == cs[b][i + 1..];
    assert t == b2 ==> ds[t] == [e] + cs[t] && ([e] + cs[t])[1..] == cs[t];
    assert t != b && t != b2 ==> ds[t] == cs[t];
  }

  // ---------- an entry is examined at most twice ----------

  /** The inner loop body of the in-place rehash: the weights of the entries it examines, summed over its runs. */
  ghost function Visits(cs: Chains, b: nat, i: nat, len0: nat, hash: int -> nat, w: Entry -> nat): nat
    requires b <= len0 <= |cs| && |cs| > 0 && (b < len0 ==> i <= |cs[b]|)
    decreases len0 - b, if b < len0 then |cs[b]| - i else 0
  {
    if b == len0 then 0
    else if i == |cs[b]| then Visits(cs, b + 1, 0, len0, hash, w)
    else
      var e := cs[b][i];
      var b2 := Dest(hash, e, |cs|);
      w(e) + if b2 == b then Visits(cs, b, i + 1, len0, hash, w)
             else Visits(Moved(cs, b, i, b2), b, i, len0, hash, w)
  }

  ghost function Weight(es: seq<Entry>, w: Entry -> nat): nat {
    if es == [] then 0 else w(es[0]) + Weight(es[1..], w)
  }

  /** A misplaced entry still costs two visits, a placed one costs one. */
  ghost function Cost(c: seq<Entry>, b: nat, n: nat, hash: int -> nat, w: Entry -> nat): nat
    requires n > 0
  {
    if c == [] then 0 else (if Dest(hash, c[0], n) == b then 1 else 2) * w(c[0]) + Cost(c[1..], b, n, hash, w)
  }

  ghost function CostFrom(cs: Chains, b: nat, len0: nat, hash: int -> nat, w: Entry -> nat): nat
    requires b <= len0 <= |cs| && |cs| > 0
    decreases len0 - b
  {
    if b == len0 then 0 else Cost(cs[b], b, |cs|, hash, w) + CostFrom(cs, b + 1, len0, hash, w)
  }

  lemma {:induction false} CostFromPush(
    cs: Chains, b: nat, len0: nat, d: nat, e: Entry, hash: int -> nat, w: Entry -> nat)
    requires b <= len0 <= |cs| && d < |cs| && Dest(hash, e, |cs|) == d
    ensures CostFrom(Pushed(cs, d, e), b, len0, hash, w)
         == CostFrom(cs, b, len0, hash, w) + if b <= d < len0 then w(e) else 0
    decreases len0 - b
  {
    if b < len0 {
      CostFromPush(cs, b + 1, len0, d, e, hash, w);
      if b == d {
        assert ([e] + cs[b])[1..] == cs[b];
      }
    }
  }

  lemma {:induction false} CostFromSame(
    cs: Chains, ds: Chains, b: nat, len0: nat, hash: int -> nat, w: Entry -> nat)
    requires b <= len0 <= |cs| == |ds| && |cs| > 0 && forall c :: b <= c < |cs| ==> cs[c] == ds[c]
    ensures CostFrom(cs, b, len0, hash, w) == CostFrom(ds, b, len0, hash, w)
    decreases len0 - b
  {
    if b < len0 {
      CostFromSame(cs, ds, b + 1, len0, hash, w);
    }
  }

  lemma {:induction false} VisitsBound(cs: Chains, b: nat, i: nat, len0: nat, hash: int -> nat, w: Entry -> nat)
    requires b < len0 <= |cs| && i <= |cs[b]|
    ensures Visits(cs, b, i, len0, hash, w)
         <= Cost(cs[b][i..], b, |cs|, hash, w) + CostFrom(cs, b + 1, len0, hash, w)
    decreases len0 - b, |cs[b]| - i
  {
    if i == |cs[b]| {
      if b + 1 < len0 {
        VisitsBound(cs, b + 1, 0, len0, hash, w);
        assert cs[b + 1][0..] == cs[b + 1];
      }
    } else {
      var b2 := Dest(hash, cs[b][i], |cs|);
      assert cs[b][i..][1..] == cs[b][i + 1..];
      if b2 == b {
        VisitsBound(cs, b, i + 1, len0, hash, w);
      } else {
        var mid, cs' := Removed(cs, b, i), Moved(cs, b, i, b2);
        VisitsBound(cs', b, i, len0, hash, w);
        assert cs'[b][i..] == cs[b][i + 1..];
        CostFromPush(mid, b + 1, len0, b2, cs[b][i], hash, w);
        CostFromSame(mid, cs, b + 1, len0, hash, w);
      }
    }
  }

  lemma {:induction false} CostAtMostTwice(cs: Chains, b: nat, len0: nat, hash: int -> nat, w: Entry -> nat)
    requires b <= len0 <= |cs| && |cs| > 0
    ensures CostFrom(cs, b, len0, hash, w) + 2 * Weight(Flat(cs[..b]), w) <= 2 * Weight(Flat(cs[..len0]), w)
    decreases len0 - b
  {
    if b < len0 {
      CostAtMostTwice(cs, b + 1, len0, hash, w);
      ChainCost(cs[b], b, |cs|, hash, w);
      assert cs[..b + 1][..b] == cs[..b];
      WeightsAdd(Flat(cs[..b]), cs[b], w);
    }
  }

  lemma {:induction false} ChainCost(c: seq<Entry>, b: nat, n: nat, hash: int -> nat, w: Entry -> nat)
    requires n > 0
    ensures Cost(c, b, n, hash, w) <= 2 * Weight(c, w)
  {
    if c != [] {
      ChainCost(c[1..], b, n, hash, w);
    }
  }

  lemma {:induction false} WeightsAdd(es: seq<Entry>, fs: seq<Entry>, w: Entry -> nat)
    ensures Weight(es + fs, w) == Weight(es, w) + Weight(fs, w)
  {
    if es == [] {
      assert es + fs == fs;
    } else {
      assert (es + fs)[1..] == es[1..] + fs;
      WeightsAdd(es[1..], fs, w);
    }
  }

  /** Moved entries may be met again in a later bucket. Whatever the entries weigh, all visits together weigh
      at most twice what the entries do. */
  lemma VisitsAtMostTwice(cs: Chains, n: nat, hash: int -> nat, w: Entry -> nat)
    requires 0 < |cs| <= n
    ensures Visits(cs + Empty(n - |cs|), 0, 0, |cs|, hash, w) <= 2 * Weight(Flat(cs), w)
  {
    var wide := cs + Empty(n - |cs|);
    hide Visits, Cost, Weight;
    VisitsBound(wide, 0, 0, |cs|, hash, w);
    assert wide[0][0..] == wide[0] && wide[..0] == [] && wide[..|cs|] == cs;
    CostAtMostTwice(wide, 0, |cs|, hash, w);
  }

  /** How often the loop body runs in all. */
  lemma LoopEnds(cs: Chains, n: nat, hash: int -> nat)
    requires 0 < |cs| <= n
    ensures Visits(cs + Empty(n - |cs|), 0, 0, |cs|, hash, _ => 1) <= 2 * |Flat(cs)|
  {
    var one: Entry -> nat := _ => 1;
    VisitsAtMostTwice(cs, n, hash, one);
    AllWeighOne(Flat(cs), one);
  }

  lemma {:induction false} AllWeighOne(es: seq<Entry>, w: Entry -> nat)
    requires forall e :: w(e) == 1
    ensures Weight(es, w) == |es|
  {
    if es != [] {
      AllWeighOne(es[1..], w);
    }
  }

  /** Counts one entry. */
  ghost function Only(e: Entry): Entry -> nat {
    (x: Entry) => if x == e then 1 else 0
  }

  /** No entry of a table is examined a third time. */
  lemma EachEntryVisitedAtMostTwice(cs: Chains, n: nat, hash: int -> nat, e: Entry)
    requires 0 < |cs| <= n && Unshared(cs)
    ensures Visits(cs + Empty(n - |cs|), 0, 0, |cs|, hash, Only(e)) <= 2
  {
    hide Visits, Weight, Unshared;
    VisitsAtMostTwice(cs, n, hash, Only(e));
    FlatIsExact(cs);
    OnceAtMost(Flat(cs), e);
  }

  lemma {:induction false} OnceAtMost(es: seq<Entry>, e: Entry)
    requires forall x, y :: 0 <= x < y < |es| ==> es[x] != es[y]
    ensures Weight(es, Only(e)) <= 1 && (e !in es ==> Weight(es, Only(e)) == 0)
  {
    if es != [] {
      OnceAtMost(es[1..], e);
    }
  }

  // ---------- sharing: each loop step keeps every entry at one place ----------

  /** The entries of `cs` already passed when standing at position `i` of bucket `b`. */
  ghost function Passed(cs: Chains, b: nat, i: nat): set<Entry> {
    set c, k | 0 <= c < |cs| && 0 <= k < |cs[c]| && (c < b || (c == b && k < i)) :: cs[c][k]
  }

  lemma PassedStep(cs: Chains, b: nat, i: nat)
    requires Unshared(cs) && b < |cs| && i < |cs[b]|
    ensures Passed(cs, b, i + 1) == Passed(cs, b, i) + {cs[b][i]}
    ensures forall e :: e in Passed(cs, b, i) ==> e.fd != cs[b][i].fd
  {
    forall e | e in Passed(cs, b, i)
      ensures e.fd != cs[b][i].fd
    {
      var c, k :| 0 <= c < |cs| && 0 <= k < |cs[c]| && (c < b || (c == b && k < i)) && cs[c][k] == e;
    }
    assert cs[b][i] in Passed(cs, b, i + 1);
  }

  lemma PassedBucket(cs: Chains, b: nat)
    requires b < |cs|
    ensures Passed(cs, b + 1, 0) == Passed(cs, b, |cs[b]|)
  {
  }

  lemma PassedAll(cs: Chains)
    ensures Passed(cs, 0, 0) == {} && Passed(cs, |cs|, 0) == Entries(cs)
  {
    forall e | e in Entries(cs)
      ensures e in Passed(cs, |cs|, 0)
    {
      var b, k := EntryAt(cs, e);
      assert cs[b][k] in Passed(cs, |cs|, 0);
    }
  }

  lemma MovedFacts(cs: Chains, b: nat, i: nat, b2: nat)
    requires Unshared(cs) && b < |cs| && i < |cs[b]| && b2 < |cs|
    ensures Unshared(Moved(cs, b, i, b2)) && Entries(Moved(cs, b, i, b2)) == Entries(cs)
    ensures cs[b][i] !in Entries(Removed(cs, b, i))
  {
    RemovedFacts(cs, b, i);
    var mid: Chains := Removed(cs, b, i);
    var e: Entry := cs[b][i];
    forall c, k | 0 <= c < |mid| && 0 <= k < |mid[c]|
      ensures mid[c][k].fd != e.fd
    {
      assert mid[c][k] == cs[c][if c == b && k >= i then k + 1 else k];
    }
    PushedFacts(mid, b2, e);
  }

  lemma WidenedFacts(cs: Chains, n: nat)
    requires Unshared(cs)
    ensures Unshared(cs + Empty(n)) && Entries(cs + Empty(n)) == Entries(cs)
  {
    var ds: Chains := cs + Empty(n);
    forall e | e in Entries(cs)
      ensures e in Entries(ds)
    {
      var c, k := EntryAt(cs, e);
      assert ds[c][k] == e;
    }
  }

  // ---------- what one edit of a consistent table does to it as a finite map ----------

  /** Every key at one place, and that place in the bucket of its hash. */
  ghost predicate Consistent(cs: Chains, hash: int -> nat) {
    Unshared(cs) && Placed(cs, hash)
  }

  lemma ContentsFromEntries(cs: Chains, ds: Chains)
    requires Unshared(cs) && Unshared(ds) && Entries(cs) == Entries(ds)
    ensures Contents(cs) == Contents(ds)
  {
    ContentsFacts(cs);
    ContentsDetermined(ds, Contents(cs));
  }

  lemma InsertEffect(cs: Chains, b: nat, e: Entry, hash: int -> nat)
    requires Consistent(cs, hash) && !HasKey(cs, e.fd) && b < |cs| && b == Dest(hash, e, |cs|)
    ensures Consistent(Pushed(cs, b, e), hash)
    ensures e !in Entries(cs) && Entries(Pushed(cs, b, e)) == Entries(cs) + {e}
    ensures |Entries(Pushed(cs, b, e))| == |Entries(cs)| + 1
    ensures Contents(Pushed(cs, b, e)) == Contents(cs)[e.fd := e]
  {
    PushedFacts(cs, b, e);
    assert PlacedChain(cs[b], b, |cs|, hash);
    MapInsert(cs, Pushed(cs, b, e), e);
  }

  lemma AppendEffect(cs: Chains, b: nat, e: Entry, hash: int -> nat)
    requires Consistent(cs, hash) && !HasKey(cs, e.fd) && b < |cs| && b == Dest(hash, e, |cs|)
    ensures Consistent(Appended(cs, b, e), hash)
    ensures e !in Entries(cs) && Entries(Appended(cs, b, e)) == Entries(cs) + {e}
    ensures |Entries(Appended(cs, b, e))| == |Entries(cs)| + 1
    ensures Contents(Appended(cs, b, e)) == Contents(cs)[e.fd := e]
  {
    AppendedFacts(cs, b, e);
    assert PlacedChain(cs[b], b, |cs|, hash);
    MapInsert(cs, Appended(cs, b, e), e);
  }

  /** Adding one entry with a new key. */
  lemma MapInsert(cs: Chains, ds: Chains, e: Entry)
    requires Unshared(cs) && Unshared(ds) && !HasKey(cs, e.fd) && Entries(ds) == Entries(cs) + {e}
    ensures Contents(ds) == Contents(cs)[e.fd := e]
  {
    ContentsFacts(cs);
    hide Unshared, Contents, HasKey;
    var m := Contents(cs)[e.fd := e];
    forall x | x in Entries(ds) && x.fd in m
      ensures m[x.fd] == x
    {
      if x != e {
        assert x.fd in Contents(cs) && HasKey(cs, x.fd);
      }
    }
    ContentsDetermined(ds, m);
  }

  /** Dropping one entry drops its key. */
  lemma MapRemove(cs: Chains, ds: Chains, e: Entry)
    requires Unshared(cs) && Unshared(ds) && e in Entries(cs) && Entries(ds) == Entries(cs) - {e}
    ensures Contents(ds) == Contents(cs) - {e.fd} && e.fd !in Contents(ds)
  {
    ContentsFacts(cs);
    forall x | x in Entries(ds)
      ensures x.fd != e.fd
    {
      if x.fd == e.fd {
        KeyedUniquely(cs, x, e);
      }
    }
    var m := Contents(cs) - {e.fd};
    assert m.Keys == Keys(ds);
    ContentsDetermined(ds, m);
  }

  /** Exchanging the entry of a key overwrites the key. */
  lemma MapReplace(cs: Chains, ds: Chains, r: Entry, e: Entry)
    requires Unshared(cs) && Unshared(ds) && r in Entries(cs) && r.fd == e.fd && e !in Entries(cs)
    requires Entries(ds) == Entries(cs) - {r} + {e}
    ensures Contents(ds) == Contents(cs)[e.fd := e]
  {
    ContentsFacts(cs);
    var m := Contents(cs)[e.fd := e];
    forall x | x in Entries(ds) && x.fd in m
      ensures m[x.fd] == x
    {
      if x.fd == e.fd {
        KeyedUniquely(ds, x, e);
      }
    }
    assert m.Keys == Keys(ds);
    ContentsDetermined(ds, m);
  }

  lemma RemoveEffect(cs: Chains, b: nat, i: nat, hash: int -> nat)
    requires Consistent(cs, hash) && b < |cs| && i < |cs[b]|
    ensures Consistent(Removed(cs, b, i), hash)
    ensures cs[b][i] in Entries(cs) && Entries(Removed(cs, b, i)) == Entries(cs) - {cs[b][i]}
    ensures |Entries(Removed(cs, b, i))| == |Entries(cs)| - 1
    ensures Contents(Removed(cs, b, i)) == Contents(cs) - {cs[b][i].fd}
  {
    RemovedFacts(cs, b, i);
    assert PlacedChain(cs[b], b, |cs|, hash);
    hide Unshared;
    MapRemove(cs, Removed(cs, b, i), cs[b][i]);
  }

  lemma ReplaceEffect(cs: Chains, b: nat, i: nat, e: Entry, hash: int -> nat)
    requires Consistent(cs, hash) && b < |cs| && i < |cs[b]| && e.fd == cs[b][i].fd && e !in Entries(cs)
    ensures Consistent(Substituted(cs, b, i, e), hash)
    ensures cs[b][i] in Entries(cs) && Entries(Substituted(cs, b, i, e)) == Entries(cs) - {cs[b][i]} + {e}
    ensures |Entries(Substituted(cs, b, i, e))| == |Entries(cs)|
    ensures Contents(Substituted(cs, b, i, e)) == Contents(cs)[e.fd := e]
  {
    SubstitutedFacts(cs, b, i, e);
    assert PlacedChain(cs[b], b, |cs|, hash);
    hide Unshared;
    MapReplace(cs, Substituted(cs, b, i, e), cs[b][i], e);
  }

  // ---------- sweeping out the entries a callback asks to remove ----------

  /** The entries of a chain for which the callback returned zero, in order. */
  ghost function Kept(c: seq<Entry>, fn: Entry -> bool): seq<Entry> {
    if c == [] then []
    else
      var init, e := Kept(c[..|c| - 1], fn), c[|c| - 1];
      if fn(e) then init else init + [e]
  }

  /** A chain of which the first `j` entries have been examined. */
  ghost function PartlySwept(c: seq<Entry>, j: nat, fn: Entry -> bool): (r: seq<Entry>)
    requires j <= |c|
    ensures |r| == |Kept(c[..j], fn)| + |c| - j
  {
    Kept(c[..j], fn) + c[j..]
  }

  ghost function Swept(cs: Chains, m: nat, fn: Entry -> bool): (r: Chains)
    requires m <= |cs|
    ensures |r| == |cs|
  {
    seq(|cs|, b requires 0 <= b < |cs| => if b < m then Kept(cs[b], fn) else cs[b])
  }

  lemma SweepStep(c: seq<Entry>, j: nat, fn: Entry -> bool)
    requires j < |c|
    ensures var i, now := |Kept(c[..j], fn)|, PartlySwept(c, j, fn);
            && i < |now| && now[i] == c[j]
            && (fn(c[j]) ==> PartlySwept(c, j + 1, fn) == now[..i] + now[i + 1..] && |Kept(c[..j + 1], fn)| == i)
            && (!fn(c[j]) ==> PartlySwept(c, j + 1, fn) == now && |Kept(c[..j + 1], fn)| == i + 1)
  {
    assert c[..j + 1][..j] == c[..j];
  }

  lemma SweepEnds(c: seq<Entry>, fn: Entry -> bool)
    ensures Kept([], fn) == [] && PartlySwept(c, 0, fn) == c && PartlySwept(c, |c|, fn) == Kept(c, fn)
  {
    assert c[..|c|] == c && c[..0] == [];
  }

  lemma SweptNone(cs: Chains, fn: Entry -> bool)
    ensures Swept(cs, 0, fn) == cs
  {
  }

  lemma SweptNext(cs: Chains, m: nat, fn: Entry -> bool)
    requires m < |cs|
    ensures Swept(cs, m, fn)[m] == cs[m]
    ensures Swept(cs, m + 1, fn) == Swept(cs, m, fn)[m := Kept(cs[m], fn)]
    ensures Flat(cs[..m + 1]) == Flat(cs[..m]) + cs[m]
  {
    assert cs[..m + 1][..m] == cs[..m];
  }

  /** What stays of two parts of a chain stays in their order. */
  lemma {:induction false} KeptAdds(c: seq<Entry>, d: seq<Entry>, fn: Entry -> bool)
    ensures Kept(c + d, fn) == Kept(c, fn) + Kept(d, fn)
    decreases |d|
  {
    if d == [] {
      assert c + d == c;
    } else {
      var init, last := d[..|d| - 1], d[|d| - 1];
      assert (c + d)[..|c + d| - 1] == c + init;
      KeptAdds(c, init, fn);
    }
  }

  lemma {:induction false} KeptMembers(c: seq<Entry>, fn: Entry -> bool, e: Entry)
    ensures e in Kept(c, fn) <==> e in c && !fn(e)
  {
    if c != [] {
      var init, last := c[..|c| - 1], c[|c| - 1];
      KeptMembers(init, fn, e);
      assert c == init + [last];
    }
  }

  lemma SweptMember(cs: Chains, fn: Entry -> bool, e: Entry)
    ensures e in Entries(Swept(cs, |cs|, fn)) <==> e in Entries(cs) && !fn(e)
  {
    var ds: Chains := Swept(cs, |cs|, fn);
    if e in Entries(ds) {
      var b, k := EntryAt(ds, e);
      KeptMembers(cs[b], fn, e);
      assert e in cs[b];
    } else if e in Entries(cs) {
      var b, k := EntryAt(cs, e);
      KeptMembers(cs[b], fn, e);
      assert e in ds[b] ==> e in Entries(ds);
    }
  }

  lemma SweptEntries(cs: Chains, fn: Entry -> bool)
    ensures forall e :: e in Entries(Swept(cs, |cs|, fn)) <==> e in Entries(cs) && !fn(e)
  {
    hide Entries, Swept;
    forall e: Entry
      ensures e in Entries(Swept(cs, |cs|, fn)) <==> e in Entries(cs) && !fn(e)
    {
      SweptMember(cs, fn, e);
    }
  }

  // ---------- traversal order ----------

  lemma SplitLast(cs: Chains, init: Chains, last: seq<Entry>)
    requires Unshared(cs) && cs == init + [last]
    ensures Unshared(init)
    ensures forall e :: e in Entries(cs) <==> e in Entries(init) || e in last
    ensures forall e :: e in Entries(init) ==> e !in last
    ensures forall x, y :: 0 <= x < y < |last| ==> last[x] != last[y]
  {
    var n := |init|;
    assert forall b, k :: 0 <= b < n && 0 <= k < |init[b]| ==> init[b][k] == cs[b][k];
    assert cs[n] == last;
    forall e
      ensures e in Entries(cs) <==> e in Entries(init) || e in last
      ensures e in Entries(init) ==> e !in last
    {
      if e in Entries(cs) {
        var b, k := EntryAt(cs, e);
        assert b < n ==> init[b][k] == e;
      }
      if e in Entries(init) {
        var b, k := EntryAt(init, e);
        assert cs[b][k] == e;
      }
      if e in last {
        var k :| 0 <= k < |last| && cs[n][k] == e;
      }
    }
  }

  /** Bucket after bucket, each from its head: where an entry comes in the traversal order. */
  lemma {:induction false} FlatAt(cs: Chains, b: nat, k: nat)
    requires b < |cs| && k < |cs[b]|
    ensures var at := |Flat(cs[..b])| + k; at < |Flat(cs)| && Flat(cs)[at] == cs[b][k]
    decreases |cs|
  {
    var last := |cs| - 1;
    if b < last {
      FlatAt(cs[..last], b, k);
      assert cs[..last][..b] == cs[..b];
    }
  }

  /** The traversal order lists every entry, and lists it once. */
  lemma {:induction false} FlatIsExact(cs: Chains)
    requires Unshared(cs)
    ensures forall e :: e in Flat(cs) <==> e in Entries(cs)
    ensures forall x, y :: 0 <= x < y < |Flat(cs)| ==> Flat(cs)[x] != Flat(cs)[y]
    ensures |Flat(cs)| == |Entries(cs)|
  {
    if cs != [] {
      var init, last := cs[..|cs| - 1], cs[|cs| - 1];
      SplitLast(cs, init, last);
      hide Unshared, Entries;
      FlatIsExact(init);
      ConcatDistinct(Flat(init), last);
      NoDuplicates(Flat(cs), Entries(cs));
    }
  }

  lemma ConcatDistinct(s: seq<Entry>, t: seq<Entry>)
    requires forall x, y :: 0 <= x < y < |s| ==> s[x] != s[y]
    requires forall x, y :: 0 <= x < y < |t| ==> t[x] != t[y]
    requires forall e :: e in s ==> e !in t
    ensures forall x, y :: 0 <= x < y < |s + t| ==> (s + t)[x] != (s + t)[y]
  {
    assert forall x :: 0 <= x < |s| ==> s[x] in s;
  }

  lemma {:induction false} NoDuplicates(s: seq<Entry>, es: set<Entry>)
    requires forall x, y :: 0 <= x < y < |s| ==> s[x] != s[y]
    requires forall e :: e in s <==> e in es
    ensures |s| == |es|
  {
    if s != [] {
      var e := s[|s| - 1];
      NoDuplicates(s[..|s| - 1], es - {e});
    }
  }

  /** Empty buckets in between add nothing to the order. */
  lemma {:induction false} FlatSkip(cs: Chains, b: nat, b': nat)
    requires b <= b' <= |cs| && forall c :: b <= c < b' ==> cs[c] == []
    ensures Flat(cs[..b']) == Flat(cs[..b]) && (b == 0 ==> Flat(cs[..b']) == [])
    decreases b' - b
  {
    if b < b' {
      FlatSkip(cs, b, b' - 1);
      assert cs[..b'][..b' - 1] == cs[..b' - 1];
    }
  }

  /** The order up to a later bucket, when only bucket `b` contributes. */
  lemma FlatPast(cs: Chains, b: nat, b': nat)
    requires b < |cs| && b' <= |cs| && forall c :: b < c < b' ==> cs[c] == []
    ensures b < b' ==> Flat(cs[..b']) == Flat(cs[..b]) + cs[b]
    ensures cs[..|cs|] == cs && cs[b][..|cs[b]|] == cs[b]
  {
    if b < b' {
      FlatSkip(cs, b + 1, b');
      assert cs[..b + 1][..b] == cs[..b];
    }
  }

  /** Everything before position `j` of chain `b` has been taken. */
  ghost predicate Draining(cs: Chains, now: Chains, taken: seq<Entry>, b: nat, j: nat) {
    && |now| == |cs| && b < |cs| && j < |cs[b]|
    && taken == Flat(cs[..b]) + cs[b][..j]
    && now[b] == cs[b][j..]
    && forall c :: 0 <= c < |cs| && c != b ==> now[c] == if c < b then [] else cs[c]
  }

  ghost predicate Drained(cs: Chains, now: Chains, taken: seq<Entry>) {
    taken == Flat(cs) && forall c :: 0 <= c < |now| ==> now[c] == []
  }

  lemma DrainFirst(cs: Chains, b: nat)
    requires b <= |cs| && (b < |cs| ==> cs[b] != []) && forall c :: 0 <= c < b ==> cs[c] == []
    ensures if b < |cs| then Draining(cs, cs, [], b, 0) else Drained(cs, cs, [])
  {
    FlatSkip(cs, 0, b);
    assert cs[..|cs|] == cs;
  }

  lemma DrainNext(cs: Chains, now: Chains, taken: seq<Entry>, b: nat, j: nat, b': nat)
    requires Draining(cs, now, taken, b, j) && b <= b' <= |now| && b < |now| && now[b] != []
    requires b' == b <==> |now[b]| > 1
    requires b < b' < |now| ==> now[b'] != []
    requires forall c :: b < c < b' ==> Removed(now, b, 0)[c] == []
    ensures var next, taken' := Removed(now, b, 0), taken + [now[b][0]];
            if b' == |now| then Drained(cs, next, taken')
            else Draining(cs, next, taken', b', if b' == b then j + 1 else 0)
  {
    hide Flat;
    assert forall c :: b < c < b' ==> Removed(now, b, 0)[c] == now[c] == cs[c];
    assert cs[b][..j + 1] == cs[b][..j] + [cs[b][j]];
    assert Removed(now, b, 0)[b] == cs[b][j + 1..];
    FlatPast(cs, b, b');
  }

  lemma DrainedAll(cs: Chains, now: Chains, taken: seq<Entry>)
    requires Drained(cs, now, taken)
    ensures taken == Flat(cs) && Entries(now) == {}
  {
    NoEntries(now);
  }

  lemma NoEntries(cs: Chains)
    requires forall c :: 0 <= c < |cs| ==> cs[c] == []
    ensures Entries(cs) == {} && |Entries(cs)| == 0
  {
  }

  /** A key missing from the bucket of its hash is missing from the table. */
  lemma AbsentKey(cs: Chains, hash: int -> nat, key: int, b: nat)
    requires Placed(cs, hash) && b < |cs| && b == hash(key) % |cs|
    requires forall k :: 0 <= k < |cs[b]| ==> cs[b][k].fd != key
    ensures !HasKey(cs, key)
  {
    forall c, k | 0 <= c < |cs| && 0 <= k < |cs[c]|
      ensures cs[c][k].fd != key
    {
      assert PlacedChain(cs[c], c, |cs|, hash);
    }
  }
}
