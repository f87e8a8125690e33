/** The collision chains of the libevent hash table: entries linked by `hte_next`, an array of
    chain heads, and the address-of-pointer values through which the table edits a chain. */
module HashChains {

  /** `struct event_map_entry`: the key never changes, the link and the event queue do. */
  class Entry {
    const fd: int
    var next: Entry?
    var events: seq<int>

    constructor (fd: int)
      ensures this.fd == fd && next == null && events == []
    {
      this.fd, next, events := fd, null, [];
    }
  }

  /** `struct event_map_entry **`: the address of a table cell or of an entry's `hte_next`. */
  datatype Slot = Head(bucket: nat) | NextOf(entry: Entry)

  /** Bucket by bucket, the entries in chain order. */
  type Chains = seq<seq<Entry>>

  ghost function Entries(cs: Chains): set<Entry> {
    set b, k | 0 <= b < |cs| && 0 <= k < |cs[b]| :: cs[b][k]
  }

  /** Every key occurs at one place only; in particular no entry is on two chains or twice on one. */
  ghost predicate Unshared(cs: Chains) {
    forall b, k, b', k' ::
      0 <= b < |cs| && 0 <= k < |cs[b]| && 0 <= b' < |cs| && 0 <= k' < |cs[b']| ==>
        (cs[b][k].fd == cs[b'][k'].fd ==> b == b' && k == k')
  }

  ghost function At(c: seq<Entry>, k: nat): Entry? {
    if k < |c| then c[k] else null
  }

  /** The links in memory spell out exactly `cs`, each chain ending in NULL. */
  ghost predicate Represents(tab: array<Entry?>, cs: Chains)
    reads tab, Entries(cs)
  {
    && tab.Length == |cs|
    && (forall b :: 0 <= b < |cs| ==> tab[b] == At(cs[b], 0))
    && (forall b, k :: 0 <= b < |cs| && 0 <= k < |cs[b]| ==> cs[b][k].next == At(cs[b], k + 1))
  }

  ghost predicate HasKey(cs: Chains, key: int) {
    exists b, k :: 0 <= b < |cs| && 0 <= k < |cs[b]| && cs[b][k].fd == key
  }

  ghost function Removed(cs: Chains, b: nat, i: nat): Chains
    requires b < |cs| && i < |cs[b]|
  {
    cs[b := cs[b][..i] + cs[b][i + 1..]]
  }

  ghost function Pushed(cs: Chains, b: nat, e: Entry): Chains
    requires b < |cs|
  {
    cs[b := [e] + cs[b]]
  }

  /** One entry of one chain is taken out, or put in at the end, or exchanged; all others stay in order. */
  ghost predicate Edited(cs: Chains, ds: Chains, b: nat, i: nat, out: Entry?, new_: Entry?) {
    && b < |cs| == |ds| && i <= |cs[b]| && (out == null ==> i == |cs[b]|)
    && (out != null ==> i < |cs[b]| && cs[b][i] == out)
    && ds[b] == cs[b][..i] + (if new_ == null then [] else [new_]) + cs[b][if out == null then i else i + 1..]
    && forall c :: 0 <= c < |cs| && c != b ==> ds[c] == cs[c]
  }

  /** Slot `p` is the cell whose content is position `i` of chain `b`. */
  ghost predicate Addresses(p: Slot, cs: Chains, b: nat, i: nat) {
    && b < |cs| && i <= |cs[b]|
    && p == if i == 0 then Head(b) else NextOf(cs[b][i - 1])
  }

  ghost function SlotFrame(p: Slot): set<Entry> {
    if p.NextOf? then {p.entry} else {}
  }

  /** `*p` */
  function Load(tab: array<Entry?>, p: Slot): Entry?
    requires p.Head? ==> p.bucket < tab.Length
    reads tab, SlotFrame(p)
  {
    if p.Head? then tab[p.bucket] else p.entry.next
  }

  lemma LoadAt(tab: array<Entry?>, p: Slot, cs: Chains, b: nat, i: nat)
    requires Represents(tab, cs) && Addresses(p, cs, b, i)
    ensures Load(tab, p) == At(cs[b], i)
  {
  }

  lemma NextAt(tab: array<Entry?>, cs: Chains, b: nat, i: nat)
    requires Represents(tab, cs) && b < |cs| && i < |cs[b]|
    ensures cs[b][i].next == At(cs[b], i + 1)
  {
  }

  /** `*p = v` */
  method Store(tab: array<Entry?>, p: Slot, v: Entry?)
    requires p.Head? ==> p.bucket < tab.Length
    modifies if p.Head? then {tab} else {}, SlotFrame(p)`next
    ensures p.Head? ==> tab[..] == old(tab[..])[p.bucket := v]
    ensures p.NextOf? ==> p.entry.next == v
  {
    if p.Head? {
      tab[p.bucket] := v;
    } else {
      p.entry.next := v;
    }
  }

  lemma RemovedFacts(cs: Chains, b: nat, i: nat)
    requires Unshared(cs) && b < |cs| && i < |cs[b]|
    ensures Unshared(Removed(cs, b, i))
    ensures Entries(Removed(cs, b, i)) == Entries(cs) - {cs[b][i]}
  {
    var cs': Chains := Removed(cs, b, i);
    forall e | e in Entries(cs) - {cs[b][i]}
      ensures e in Entries(cs')
    {
      var c, k :| 0 <= c < |cs| && 0 <= k < |cs[c]| && cs[c][k] == e;
      if c == b && k > i {
        assert cs'[b][k - 1] == e;
      } else {
        assert cs'[c][k] == e;
      }
    }
    forall c, k | 0 <= c < |cs'| && 0 <= k < |cs'[c]|
      ensures cs'[c][k] == cs[c][if c == b && k >= i then k + 1 else k]
    {
    }
  }

  lemma PushedFacts(cs: Chains, b: nat, e: Entry)
    requires Unshared(cs) && b < |cs| && !HasKey(cs, e.fd)
    ensures Unshared(Pushed(cs, b, e))
    ensures Entries(Pushed(cs, b, e)) == Entries(cs) + {e}
    ensures e !in Entries(cs)
  {
    var cs': Chains := Pushed(cs, b, e);
    forall x | x in Entries(cs) + {e}
      ensures x in Entries(cs')
    {
      if x == e {
        assert cs'[b][0] == e;
      } else {
        var c, k :| 0 <= c < |cs| && 0 <= k < |cs[c]| && cs[c][k] == x;
        assert cs'[c][if c == b then k + 1 else k] == x;
      }
    }
    forall c, k | 0 <= c < |cs'| && 0 <= k < |cs'[c]| && !(c == b && k == 0)
      ensures cs'[c][k] == cs[c][if c == b then k - 1 else k] && cs'[c][k].fd != e.fd
    {
    }
  }

  /** What memory spells out when the one cell `p` has been redirected past position `i`. */
  ghost predicate Bypassed(tab: array<Entry?>, p: Slot, cs: Chains, b: nat, i: nat)
    requires b < |cs|
    reads tab, Entries(cs)
  {
    && tab.Length == |cs|
    && (forall c :: 0 <= c < |cs| ==> tab[c] == if p == Head(c) then At(cs[b], i + 1) else At(cs[c], 0))
    && (forall c, k :: 0 <= c < |cs| && 0 <= k < |cs[c]| ==>
          cs[c][k].next == if p == NextOf(cs[c][k]) then At(cs[b], i + 1) else At(cs[c], k + 1))
  }

  lemma BypassedLink(tab: array<Entry?>, p: Slot, cs: Chains, b: nat, i: nat, c: nat, k: nat)
    requires Unshared(cs) && Addresses(p, cs, b, i) && i < |cs[b]|
    requires Bypassed(tab, p, cs, b, i)
    requires c < |cs| && k < |Removed(cs, b, i)[c]|
    ensures Removed(cs, b, i)[c][k].next == At(Removed(cs, b, i)[c], k + 1)
  {
    var k0 := if c == b && k >= i then k + 1 else k;
    assert Removed(cs, b, i)[c][k] == cs[c][k0];
  }

  lemma BypassRemoves(tab: array<Entry?>, p: Slot, cs: Chains, b: nat, i: nat)
    requires Unshared(cs) && Addresses(p, cs, b, i) && i < |cs[b]|
    requires Bypassed(tab, p, cs, b, i)
    ensures Represents(tab, Removed(cs, b, i))
  {
    hide Unshared;
    var cs': Chains := Removed(cs, b, i);
    forall c, k | 0 <= c < |cs'| && 0 <= k < |cs'[c]|
      ensures cs'[c][k].next == At(cs'[c], k + 1)
    {
      BypassedLink(tab, p, cs, b, i, c, k);
    }
  }

  /** `*p = (*p)->hte_next`: drop one entry from the middle of a chain through the slot before it. */
  method Unlink(tab: array<Entry?>, p: Slot, ghost cs: Chains, ghost b: nat, ghost i: nat) returns (e: Entry)
    requires Represents(tab, cs) && Unshared(cs) && Addresses(p, cs, b, i) && i < |cs[b]|
    modifies tab, SlotFrame(p)`next
    ensures e == cs[b][i] && Represents(tab, Removed(cs, b, i))
    ensures p != NextOf(e) && e.next == old(e.next)
  {
    LoadAt(tab, p, cs, b, i);
    e := Load(tab, p);
    NextAt(tab, cs, b, i);
    Store(tab, p, e.next);
    assert forall c, k :: 0 <= c < |cs| && 0 <= k < |cs[c]| ==>
             cs[c][k].next == if p == NextOf(cs[c][k]) then At(cs[b], i + 1) else At(cs[c], k + 1);
    hide Unshared;
    assert Bypassed(tab, p, cs, b, i);
    hide Unshared, Represents, Entries, Bypassed;
    BypassRemoves(tab, p, cs, b, i);
  }

  /** `e->hte_next = table[b]; table[b] = e`: head insertion. */
  method Push(tab: array<Entry?>, e: Entry, b: nat, ghost cs: Chains)
    requires Represents(tab, cs) && b < |cs| && e !in Entries(cs)
    modifies tab, e`next
    ensures Represents(tab, Pushed(cs, b, e))
  {
    e.next := tab[b];
    tab[b] := e;
    ghost var cs': Chains := Pushed(cs, b, e);
    forall c, k | 0 <= c < |cs'| && 0 <= k < |cs'[c]|
      ensures cs'[c][k].next == At(cs'[c], k + 1)
    {
      if c == b && k > 0 {
        assert cs'[c][k] == cs[c][k - 1] && cs[c][k - 1] in Entries(cs);
      } else if c != b {
        assert cs'[c][k] == cs[c][k] && cs[c][k] in Entries(cs);
      }
    }
  }

  ghost function Substituted(cs: Chains, b: nat, i: nat, e: Entry): Chains
    requires b < |cs| && i < |cs[b]|
  {
    cs[b := cs[b][i := e]]
  }

  lemma SubstitutedFacts(cs: Chains, b: nat, i: nat, e: Entry)
    requires Unshared(cs) && b < |cs| && i < |cs[b]| && e.fd == cs[b][i].fd
    ensures Unshared(Substituted(cs, b, i, e))
    ensures Entries(Substituted(cs, b, i, e)) == Entries(cs) - {cs[b][i]} + {e}
  {
    var cs': Chains := Substituted(cs, b, i, e);
    forall c, k | 0 <= c < |cs'| && 0 <= k < |cs'[c]|
      ensures cs'[c][k].fd == cs[c][k].fd
      ensures cs'[c][k] == if c == b && k == i then e else cs[c][k]
    {
    }
    forall x | x in Entries(cs) - {cs[b][i]} + {e}
      ensures x in Entries(cs')
    {
      if x == e {
        assert cs'[b][i] == e;
      } else {
        var c, k :| 0 <= c < |cs| && 0 <= k < |cs[c]| && cs[c][k] == x;
        assert cs'[c][k] == x;
      }
    }
  }

  /** What memory spells out when cell `p` points to `e`, and `e` to what followed the entry at `i`. */
  ghost predicate Spliced(tab: array<Entry?>, p: Slot, cs: Chains, b: nat, i: nat, e: Entry)
    requires b < |cs| && i < |cs[b]|
    reads tab, Entries(cs), e
  {
    && tab.Length == |cs|
    && e.next == At(cs[b], i + 1)
    && (forall c :: 0 <= c < |cs| ==> tab[c] == if p == Head(c) then e else At(cs[c], 0))
    && (forall c, k :: 0 <= c < |cs| && 0 <= k < |cs[c]| && cs[c][k] != cs[b][i] ==>
          cs[c][k].next == if p == NextOf(cs[c][k]) then e else At(cs[c], k + 1))
  }

  lemma SpliceSubstitutes(tab: array<Entry?>, p: Slot, cs: Chains, b: nat, i: nat, e: Entry)
    requires Unshared(cs) && Addresses(p, cs, b, i) && i < |cs[b]|
    requires Spliced(tab, p, cs, b, i, e)
    ensures Represents(tab, Substituted(cs, b, i, e))
  {
    var cs': Chains := Substituted(cs, b, i, e);
    forall c, k | 0 <= c < |cs'| && 0 <= k < |cs'[c]|
      ensures cs'[c][k].next == At(cs'[c], k + 1)
    {
      if !(c == b && k == i) {
        assert cs'[c][k] == cs[c][k] && cs[c][k] != cs[b][i];
      }
    }
  }

  /** `r = *p; *p = e; e->hte_next = r->hte_next; r->hte_next = NULL` */
  method Substitute(tab: array<Entry?>, p: Slot, e: Entry, ghost cs: Chains, ghost b: nat, ghost i: nat)
    returns (r: Entry)
    requires Represents(tab, cs) && Unshared(cs) && Addresses(p, cs, b, i) && i < |cs[b]|
    requires e !in Entries(cs)
    modifies tab, Entries(cs)`next, e`next
    ensures r == cs[b][i] && r.next == null && Represents(tab, Substituted(cs, b, i, e))
  {
    hide Unshared, Represents, Entries, Spliced;
    r := Splice(tab, p, e, cs, b, i);
    SpliceSubstitutes(tab, p, cs, b, i, e);
  }

  method Splice(tab: array<Entry?>, p: Slot, e: Entry, ghost cs: Chains, ghost b: nat, ghost i: nat)
    returns (r: Entry)
    requires Represents(tab, cs) && Unshared(cs) && Addresses(p, cs, b, i) && i < |cs[b]|
    requires e !in Entries(cs)
    modifies tab, Entries(cs)`next, e`next
    ensures r == cs[b][i] && r.next == null && Spliced(tab, p, cs, b, i, e)
  {
    LoadAt(tab, p, cs, b, i);
    r := Load(tab, p);
    Store(tab, p, e);
    e.next := r.next;
    r.next := null;
  }

  ghost function Appended(cs: Chains, b: nat, e: Entry): Chains
    requires b < |cs|
  {
    cs[b := cs[b] + [e]]
  }

  lemma EditedSubstituted(cs: Chains, b: nat, i: nat, e: Entry)
    requires b < |cs| && i < |cs[b]|
    ensures Edited(cs, Substituted(cs, b, i, e), b, i, cs[b][i], e)
  {
  }

  lemma EditedAppended(cs: Chains, b: nat, e: Entry)
    requires b < |cs|
    ensures Edited(cs, Appended(cs, b, e), b, |cs[b]|, null, e)
  {
  }

  lemma AppendedFacts(cs: Chains, b: nat, e: Entry)
    requires Unshared(cs) && b < |cs| && !HasKey(cs, e.fd)
    ensures Unshared(Appended(cs, b, e))
    ensures Entries(Appended(cs, b, e)) == Entries(cs) + {e}
    ensures e !in Entries(cs)
  {
    var cs': Chains := Appended(cs, b, e);
    forall x | x in Entries(cs) + {e}
      ensures x in Entries(cs')
    {
      if x == e {
        assert cs'[b][|cs[b]|] == e;
      } else {
        var c, k :| 0 <= c < |cs| && 0 <= k < |cs[c]| && cs[c][k] == x;
        assert cs'[c][k] == x;
      }
    }
    forall c, k | 0 <= c < |cs'| && 0 <= k < |cs'[c]| && !(c == b && k == |cs[b]|)
      ensures cs'[c][k] == cs[c][k] && cs'[c][k].fd != e.fd
    {
    }
  }

  /** `*p = e` where `*p` is the NULL that ends chain `b` */
  method Append(tab: array<Entry?>, p: Slot, e: Entry, ghost cs: Chains, ghost b: nat)
    requires Represents(tab, cs) && Unshared(cs) && b < |cs| && Addresses(p, cs, b, |cs[b]|)
    requires e !in Entries(cs) && e.next == null
    modifies tab, SlotFrame(p)`next
    ensures Represents(tab, Appended(cs, b, e)) && e.next == null
  {
    Store(tab, p, e);
    ghost var cs': Chains := Appended(cs, b, e);
    forall c, k | 0 <= c < |cs'| && 0 <= k < |cs'[c]|
      ensures cs'[c][k].next == At(cs'[c], k + 1)
    {
      if !(c == b && k == |cs[b]|) {
        assert cs'[c][k] == cs[c][k] && cs[c][k] in Entries(cs);
        if p == NextOf(cs[c][k]) {
          assert c == b && k == |cs[b]| - 1;
        }
      }
    }
  }

  lemma EntryAt(cs: Chains, e: Entry) returns (b: nat, k: nat)
    requires e in Entries(cs)
    ensures b < |cs| && k < |cs[b]| && cs[b][k] == e
  {
    var c, j :| 0 <= c < |cs| && 0 <= j < |cs[c]| && cs[c][j] == e;
    b, k := c, j;
  }

  ghost function Keys(cs: Chains): set<int> {
    set e | e in Entries(cs) :: e.fd
  }

  ghost function EntryFor(cs: Chains, key: int): (e: Entry)
    requires key in Keys(cs)
    ensures e in Entries(cs) && e.fd == key
  {
    var e :| e in Entries(cs) && e.fd == key;
    e
  }

  /** The table as a finite map from descriptor to entry. */
  ghost function Contents(cs: Chains): map<int, Entry> {
    map key | key in Keys(cs) :: EntryFor(cs, key)
  }

  lemma KeyedUniquely(cs: Chains, e: Entry, e': Entry)
    requires Unshared(cs) && e in Entries(cs) && e' in Entries(cs) && e.fd == e'.fd
    ensures e == e'
  {
    var _, _ := EntryAt(cs, e);
    var _, _ := EntryAt(cs, e');
  }

  /** The map sends a key to the one entry that carries it, and has as many keys as there are entries. */
  lemma ContentsFacts(cs: Chains)
    requires Unshared(cs)
    ensures forall e :: e in Entries(cs) ==> e.fd in Contents(cs) && Contents(cs)[e.fd] == e
    ensures forall key :: key in Contents(cs) <==> HasKey(cs, key)
    ensures |Contents(cs)| == |Entries(cs)|
  {
    forall e | e in Entries(cs)
      ensures e.fd in Contents(cs) && Contents(cs)[e.fd] == e
    {
      assert e.fd in Keys(cs);
      KeyedUniquely(cs, EntryFor(cs, e.fd), e);
    }
    forall key | HasKey(cs, key)
      ensures key in Contents(cs)
    {
      var b, k :| 0 <= b < |cs| && 0 <= k < |cs[b]| && cs[b][k].fd == key;
      assert cs[b][k] in Entries(cs);
    }
    assert forall e, e' :: e in Entries(cs) && e' in Entries(cs) && e.fd == e'.fd ==> e == e';
    KeyedCard(Entries(cs), Keys(cs));
    assert |Contents(cs)| == |Contents(cs).Keys| && Contents(cs).Keys == Keys(cs);
  }

  lemma {:induction false} KeyedCard(s: set<Entry>, keys: set<int>)
    requires forall e, e' :: e in s && e' in s && e.fd == e'.fd ==> e == e'
    requires keys == set e | e in s :: e.fd
    ensures |keys| == |s|
  {
    if s != {} {
      var x :| x in s;
      KeyedCard(s - {x}, keys - {x.fd});
    }
  }

  /** Two unshared tables with the same entries are the same map. */
  lemma ContentsDetermined(cs: Chains, m: map<int, Entry>)
    requires Unshared(cs)
    requires m.Keys == Keys(cs) && forall e :: e in Entries(cs) && e.fd in m ==> m[e.fd] == e
    ensures Contents(cs) == m
  {
  }
}
