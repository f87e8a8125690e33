/** `struct event_io_map`: the chained hash table keyed by descriptor. */
module HashTable {
  import opened Common
  import opened HashChains
  import opened HashRehash

  /** Outcome of the two allocations GROW may try. */
  datatype Memory = MallocOk | ReallocOk | Exhausted

  const LAST_PRIME: nat := 25
  /** Half the last prime: what the largest table is meant to hold. */
  const LAST_LIMIT: nat := 805306370

  /** The table of primes, each about twice the one before. */
  function Prime(i: nat): (p: nat)
    requires i <= LAST_PRIME
    ensures p > 1
  {
    [53, 97, 193, 389, 769, 1543, 3079, 6151, 12289, 24593, 49157, 98317, 196613, 393241, 786433,
     1572869, 3145739, 6291469, 12582917, 25165843, 50331653, 100663319, 201326611, 402653189,
     805306457, 1610612741][i]
  }

  /** `(unsigned)(0.5 * len)` */
  function Limit(len: nat): (limit: nat)
    ensures 2 * limit <= len < 2 * (limit + 1)
  {
    len / 2
  }

  lemma PrimesDouble(i: nat)
    requires i <= LAST_PRIME
    ensures Prime(i) >= 53 && Limit(Prime(LAST_PRIME)) == LAST_LIMIT
    ensures i < LAST_PRIME ==> Limit(Prime(i)) < LAST_LIMIT - 1
    ensures forall j :: 0 <= j < i ==> Prime(j) < Prime(i)
  {
    if i > 0 {
      PrimesDouble(i - 1);
    }
  }

  /** The search for a larger prime stays inside the table of primes for exactly these sizes. */
  lemma SearchStaysInside(from: int, size: nat)
    requires -1 <= from < LAST_PRIME
    ensures (exists j: nat :: from < j <= LAST_PRIME && Limit(Prime(j)) > size) <==> size < LAST_LIMIT
  {
    PrimesDouble(LAST_PRIME);
    hide Prime;
    if size < LAST_LIMIT {
      assert Limit(Prime(LAST_PRIME)) > size;
    }
    forall j: nat | from < j <= LAST_PRIME
      ensures Limit(Prime(j)) <= LAST_LIMIT
    {
    }
  }

  /** What the largest table with this prime holds, or none. */
  function LimitOf(idx: int): nat
    requires -1 <= idx <= LAST_PRIME
  {
    if idx == -1 then 0 else Limit(Prime(idx))
  }

  lemma LastLimit()
    ensures Limit(Prime(LAST_PRIME)) == LAST_LIMIT
  {
  }

  /** The first larger prime whose limit exceeds `size`. */
  function NextIdx(idx: int, size: nat): (next: int)
    requires -1 <= idx < LAST_PRIME && size < LAST_LIMIT
    ensures idx < next <= LAST_PRIME && LimitOf(next) > size
    decreases LAST_PRIME - idx
  {
    LastLimit();
    if LimitOf(idx + 1) > size then idx + 1 else NextIdx(idx + 1, size)
  }

  lemma {:induction false} NextIdxIs(idx: int, size: nat, next: int)
    requires -1 <= idx < next <= LAST_PRIME && size < LAST_LIMIT && LimitOf(next) > size
    requires forall j :: idx < j < next ==> LimitOf(j) <= size
    ensures NextIdx(idx, size) == next
    decreases next - idx
  {
    hide LimitOf;
    if idx + 1 < next {
      NextIdxIs(idx + 1, size, next);
    }
  }

  /** Growing for `size` keeps the search for a prime inside the table of primes. */
  predicate InRange(idx: int, size: nat)
    requires -1 <= idx <= LAST_PRIME
  {
    idx == LAST_PRIME || LimitOf(idx) > size || size < LAST_LIMIT
  }

  /** The prime after HT_GROW. */
  function GrownIdx(idx: int, size: nat, mem: Memory): (next: int)
    requires -1 <= idx <= LAST_PRIME && InRange(idx, size)
    ensures idx <= next <= LAST_PRIME
  {
    if mem == Exhausted || idx == LAST_PRIME || LimitOf(idx) > size then idx else NextIdx(idx, size)
  }

  /** The same for the growth test in front of an insertion into a table with `n` entries. */
  predicate RoomInRange(idx: int, n: nat)
    requires -1 <= idx <= LAST_PRIME
  {
    n >= LimitOf(idx) ==> InRange(idx, n + 1)
  }

  function RoomIdx(idx: int, n: nat, mem: Memory): (next: int)
    requires -1 <= idx <= LAST_PRIME && RoomInRange(idx, n)
    ensures idx <= next <= LAST_PRIME
  {
    if n >= LimitOf(idx) then GrownIdx(idx, n + 1, mem) else idx
  }

  /** The test in front of an insertion asks for room only when the table is full, and then takes the first
      larger prime whose limit exceeds the new count. */
  predicate RightPrime(idx: int, n: nat, mem: Memory, next: int)
    requires -1 <= idx <= LAST_PRIME
  {
    if n < LimitOf(idx) || idx == LAST_PRIME || mem == Exhausted then next == idx
    else
      && idx < next <= LAST_PRIME && n + 1 < LimitOf(next)
      && forall j :: idx < j < next ==> LimitOf(j) <= n + 1
  }

  lemma RoomIsRight(idx: int, n: nat, mem: Memory, next: int)
    requires -1 <= idx <= LAST_PRIME && RoomInRange(idx, n)
    ensures next == RoomIdx(idx, n, mem) <==> RightPrime(idx, n, mem, next)
  {
    hide LimitOf;
    if n >= LimitOf(idx) && idx < LAST_PRIME && mem != Exhausted {
      NextIsFirst(idx, n + 1);
      if RightPrime(idx, n, mem, next) {
        NextIdxIs(idx, n + 1, next);
      }
    }
  }

  lemma {:induction false} NextIsFirst(idx: int, size: nat)
    requires -1 <= idx < LAST_PRIME && size < LAST_LIMIT
    ensures forall j :: idx < j < NextIdx(idx, size) ==> LimitOf(j) <= size
    decreases LAST_PRIME - idx
  {
    LastLimit();
    assert LimitOf(LAST_PRIME) == LAST_LIMIT;
    hide LimitOf;
    if LimitOf(idx + 1) <= size {
      NextIsFirst(idx + 1, size);
    }
  }

  /** A table within its load bound can always be asked for room. */
  lemma BoundedInRange(idx: int, n: nat)
    requires -1 <= idx <= LAST_PRIME && (idx == LAST_PRIME || n <= LimitOf(idx))
    ensures RoomInRange(idx, n)
  {
    if 0 <= idx < LAST_PRIME {
      PrimesDouble(idx);
    }
  }

  class IoMap {
    /** `hashsocket`, a function of the descriptor alone. */
    const hash: int -> nat
    var table: array?<Entry?>
    var length: nat
    var nEntries: nat
    var loadLimit: nat
    var primeIdx: int
    ghost var chains: Chains

    /** What walking the chains needs: they are finite, unshared, and as many as `length` says. */
    ghost predicate Shape()
      reads this, table, Entries(chains)
    {
      && (table == null ==> chains == [])
      && (table != null ==> Represents(table, chains) && |chains| == length == table.Length)
      && Unshared(chains)
      && -1 <= primeIdx <= LAST_PRIME
    }

    /** The representation invariant. The load bound is given up only at the last prime. */
    ghost predicate Valid()
      reads this, table, Entries(chains)
    {
      Loose() && Bounded()
    }

    ghost predicate Bounded()
      reads this
    {
      primeIdx < LAST_PRIME ==> nEntries <= loadLimit
    }

    /** All of it but the load bound. */
    ghost predicate Loose()
      reads this, table, Entries(chains)
    {
      && Shape()
      && (table == null ==> length == 0 && loadLimit == 0 && primeIdx == -1)
      && (table != null ==> 0 <= primeIdx && length == Prime(primeIdx) && loadLimit == Limit(length))
      && Consistent(chains, hash)
      && nEntries == |Entries(chains)|
    }

    /** HT_INIT */
    constructor (hash: int -> nat)
      ensures Valid() && this.hash == hash && chains == [] && table == null && nEntries == 0
    {
      this.hash := hash;
      table, length, nEntries, loadLimit, primeIdx, chains := null, 0, 0, 0, -1, [];
    }

    /** HT_CLEAR: back to the initial representation; the entries themselves are not touched. */
    method Clear()
      modifies this
      ensures Valid() && chains == [] && table == null && nEntries == 0
    {
      table, length, nEntries, loadLimit, primeIdx, chains := null, 0, 0, 0, -1, [];
    }

    // ---------- lookup ----------

    /** HT_FIND_P: the slot that points to the entry with this key, or the slot ending its chain. */
    method FindP(key: int) returns (p: Option<Slot>, ghost b: nat, ghost i: nat)
      requires Loose()
      ensures Loose() && (p.None? <==> table == null)
      ensures table == null ==> !HasKey(chains, key)
      ensures p.Some? ==> Addresses(p.value, chains, b, i) && b == hash(key) % |chains|
      ensures p.Some? ==> SlotFrame(p.value) <= Entries(chains) && Load(table, p.value) == At(chains[b], i)
      ensures p.Some? ==> (HasKey(chains, key) <==> i < |chains[b]|)
      ensures p.Some? && i < |chains[b]| ==> chains[b][i].fd == key && chains[b][i] in Entries(chains)
    {
      hide Prime, Unshared, Placed, Represents;
      b, i := 0, 0;
      if table == null {
        return None, b, i;
      }
      var q;
      b := hash(key) % length;
      q, i := SearchChain(hash(key) % length, key);
      if i == |chains[b]| {
        AbsentKey(chains, hash, key, b);
      }
      p := Some(q);
    }

    method SearchChain(b: nat, key: int) returns (q: Slot, ghost i: nat)
      requires Loose() && table != null && b < |chains|
      ensures Loose() && Addresses(q, chains, b, i) && Load(table, q) == At(chains[b], i)
      ensures forall k :: 0 <= k < i ==> chains[b][k].fd != key
      ensures i < |chains[b]| ==> chains[b][i].fd == key
    {
      hide Prime, Unshared, Placed, Entries, Represents, HasKey;
      q, i := Head(b), 0;
      LoadAt(table, q, chains, b, i);
      while Load(table, q) != null
        invariant Loose() && Addresses(q, chains, b, i) && Load(table, q) == At(chains[b], i)
        invariant forall k :: 0 <= k < i ==> chains[b][k].fd != key
        decreases |chains[b]| - i
      {
        var e := Load(table, q);
        if e.fd == key {
          return;
        }
        q := NextOf(e);
        i := i + 1;
        LoadAt(table, q, chains, b, i);
      }
    }

    /** HT_FIND agrees with the finite map. */
    method Find(key: int) returns (r: Entry?)
      requires Loose()
      ensures Loose() && r == if key in Contents(chains) then Contents(chains)[key] else null
    {
      ContentsFacts(chains);
      var p, b, i := FindP(key);
      match p {
        case None => r := null;
        case Some(q) =>
          r := Load(table, q);
          if r != null {
            assert r in Entries(chains);
          }
      }
    }

    // ---------- growth ----------

    ghost predicate GrowNeeded(size: nat)
      reads this
    {
      primeIdx != LAST_PRIME && loadLimit <= size
    }

    method NextPrime(size: nat) returns (idx: int)
      requires -1 <= primeIdx < LAST_PRIME && size < LAST_LIMIT
      ensures primeIdx < idx <= LAST_PRIME && LimitOf(idx) > size
      ensures forall j :: primeIdx < j < idx ==> LimitOf(j) <= size
      ensures idx == NextIdx(primeIdx, size)
    {
      LastLimit();
      hide Prime;
      idx := primeIdx + 1;
      var newLen := Prime(idx);
      while Limit(newLen) <= size && idx <= LAST_PRIME
        invariant primeIdx < idx <= LAST_PRIME && newLen == Prime(idx)
        invariant forall j :: primeIdx < j < idx ==> LimitOf(j) <= size
        decreases LAST_PRIME - idx
      {
        idx := idx + 1;
        newLen := Prime(idx);
      }
      NextIdxIs(primeIdx, size, idx);
    }

    /** The malloc path: walk the old table, pushing each entry onto its chain in a second table. */
    method RehashFresh(newLen: nat) returns (fresh_: array<Entry?>, ghost ncs: Chains)
      requires Shape() && newLen > 0 && (table == null ==> length == 0)
      modifies Entries(chains)`next
      ensures fresh(fresh_) && Represents(fresh_, ncs) && ncs == FreshRehash(chains, newLen, hash)
      ensures Unshared(ncs) && Entries(ncs) == Entries(chains)
    {
      fresh_ := NullTable(newLen);
      assert Ahead(0, 0);
      hide Unshared, Represents, Entries, Passed, PushAll, Flat;
      ncs := Empty(newLen);
      PushNothing(newLen, hash);
      PassedAll(chains);
      var b := 0;
      while b < length
        invariant b <= |chains| && Represents(fresh_, ncs) && Unshared(ncs)
        invariant table != null ==> |chains| == length
        invariant Ahead(b, 0) && Entries(ncs) == Passed(chains, b, 0)
        invariant ncs == PushAll(Empty(newLen), Flat(chains[..b]), hash)
      {
        ncs := RehashBucket(fresh_, b, ncs, Flat(chains[..b]));
        PassedBucket(chains, b);
        FlatPast(chains, b, b + 1);
        b := b + 1;
      }
      assert chains[..b] == chains;
    }

    method NullTable(newLen: nat) returns (tab: array<Entry?>)
      ensures fresh(tab) && Represents(tab, Empty(newLen)) && Unshared(Empty(newLen)) && Entries(Empty(newLen)) == {}
    {
      tab := new Entry?[newLen](_ => null);
    }

    /** The links not yet visited are still those of the old chains. */
    ghost predicate Ahead(b: nat, i: nat)
      reads this, table, Entries(chains)
    {
      && (table != null ==> table.Length == |chains|)
      && (table == null ==> chains == [])
      && (forall c :: 0 <= c < |chains| ==> table[c] == At(chains[c], 0))
      && (forall c, k :: 0 <= c < |chains| && 0 <= k < |chains[c]| && (c > b || (c == b && k >= i)) ==>
            chains[c][k].next == At(chains[c], k + 1))
    }

    method RehashEntry(fresh_: array<Entry?>, elm: Entry, ghost b: nat, ghost i: nat, ghost ncs0: Chains)
      returns (next: Entry?, ghost ncs: Chains)
      requires Unshared(chains) && b < |chains| && i < |chains[b]| && elm == chains[b][i]
      requires table != null && fresh_ != table && fresh_.Length > 0
      requires Represents(fresh_, ncs0) && Unshared(ncs0) && Ahead(b, i)
      requires Entries(ncs0) == Passed(chains, b, i)
      modifies fresh_, elm`next
      ensures next == At(chains[b], i + 1) && Ahead(b, i + 1)
      ensures ncs == Pushed(ncs0, Dest(hash, elm, fresh_.Length), elm)
      ensures Represents(fresh_, ncs) && Unshared(ncs) && Entries(ncs) == Passed(chains, b, i + 1)
    {
      next := elm.next;
      var b2 := Dest(hash, elm, fresh_.Length);
      PassedStep(chains, b, i);
      PushedFacts(ncs0, b2, elm);
      Push(fresh_, elm, b2, ncs0);
      ncs := Pushed(ncs0, b2, elm);
    }

    method RehashBucket(fresh_: array<Entry?>, b: nat, ghost ncs0: Chains, ghost done: seq<Entry>)
      returns (ghost ncs: Chains)
      requires Unshared(chains) && b < |chains| && table != null && fresh_ != table && fresh_.Length > 0
      requires Represents(fresh_, ncs0) && Unshared(ncs0) && Ahead(b, 0)
      requires Entries(ncs0) == Passed(chains, b, 0)
      requires ncs0 == PushAll(Empty(fresh_.Length), done, hash)
      modifies fresh_, Entries(chains)`next
      ensures Represents(fresh_, ncs) && Unshared(ncs) && Ahead(b + 1, 0)
      ensures Entries(ncs) == Passed(chains, b, |chains[b]|)
      ensures ncs == PushAll(Empty(fresh_.Length), done + chains[b], hash)
    {
      hide Unshared, Represents, Passed, PushAll;
      ncs := ncs0;
      var elm := table[b];
      ghost var i := 0;
      assert done + chains[b][..0] == done;
      while elm != null
        invariant i <= |chains[b]| && elm == At(chains[b], i) && Ahead(b, i)
        invariant Represents(fresh_, ncs) && Unshared(ncs)
        invariant Entries(ncs) == Passed(chains, b, i)
        invariant ncs == PushAll(Empty(fresh_.Length), done + chains[b][..i], hash)
        decreases |chains[b]| - i
      {
        PushAllNext(Empty(fresh_.Length), done, chains[b], i, hash);
        elm, ncs := RehashEntry(fresh_, elm, b, i, ncs);
        i := i + 1;
      }
      assert chains[b][..i] == chains[b];
    }

    /** The realloc path: lengthen the one table and move misplaced entries inside it. */
    method RehashInPlace(newLen: nat) returns (wide: array<Entry?>, ghost ncs: Chains)
      requires Shape() && newLen > 0 && |chains| <= newLen && (table == null ==> length == 0)
      modifies Entries(chains)`next
      ensures fresh(wide) && Represents(wide, ncs) && ncs == InPlaceRehash(chains, newLen, hash)
      ensures Unshared(ncs) && Entries(ncs) == Entries(chains)
    {
      hide Unshared, Represents, Entries, Prime;
      wide, ncs := Widened(newLen);
      var b := 0;
      while b < length
        invariant b <= |chains| <= newLen && Represents(wide, ncs) && |ncs| == newLen
        invariant table != null ==> |chains| == length
        invariant Unshared(ncs) && Entries(ncs) == Entries(chains)
        invariant Relocate(ncs, b, 0, |chains|, hash) == InPlaceRehash(chains, newLen, hash)
      {
        ncs := RelocateBucket(wide, b, ncs, |chains|);
        b := b + 1;
      }
    }

    /** `mm_realloc` and `memset`: the old cells followed by NULLs. */
    method Widened(newLen: nat) returns (wide: array<Entry?>, ghost ncs: Chains)
      requires Shape() && |chains| <= newLen && (table == null ==> length == 0)
      ensures fresh(wide) && Represents(wide, ncs) && ncs == chains + Empty(newLen - |chains|)
      ensures Unshared(ncs) && Entries(ncs) == Entries(chains)
    {
      wide := new Entry?[newLen](_ => null);
      if table != null {
        forall c | 0 <= c < length {
          wide[c] := table[c];
        }
      }
      ncs := chains + Empty(newLen - |chains|);
      WidenedFacts(chains, newLen - |chains|);
    }

    method RelocateBucket(wide: array<Entry?>, b: nat, ghost ncs0: Chains, ghost len0: nat) returns (ghost ncs: Chains)
      requires Represents(wide, ncs0) && Unshared(ncs0) && b < len0 <= |ncs0|
      modifies wide, Entries(ncs0)`next
      ensures |ncs| == |ncs0| && Represents(wide, ncs) && Unshared(ncs) && Entries(ncs) == Entries(ncs0)
      ensures Relocate(ncs, b + 1, 0, len0, hash) == Relocate(ncs0, b, 0, len0, hash)
    {
      ncs := ncs0;
      var pE := Head(b);
      ghost var i := 0;
      LoadAt(wide, pE, ncs, b, i);
      var e := Load(wide, pE);
      while e != null
        invariant |ncs| == |ncs0| && Represents(wide, ncs) && Unshared(ncs) && Entries(ncs) == Entries(ncs0)
        invariant i <= |ncs[b]| && Addresses(pE, ncs, b, i) && e == At(ncs[b], i)
        invariant Relocate(ncs, b, i, len0, hash) == Relocate(ncs0, b, 0, len0, hash)
        decreases |ncs[b]| - i
      {
        var b2 := Dest(hash, e, wide.Length);
        if b2 == b {
          pE := NextOf(e);
          i := i + 1;
        } else {
          ncs := MoveEntry(wide, pE, e, b, i, b2, ncs);
        }
        LoadAt(wide, pE, ncs, b, i);
        e := Load(wide, pE);
      }
    }

    method MoveEntry(wide: array<Entry?>, pE: Slot, e: Entry, ghost b: nat, ghost i: nat, b2: nat, ghost cs: Chains)
      returns (ghost ncs: Chains)
      requires Represents(wide, cs) && Unshared(cs) && Addresses(pE, cs, b, i) && i < |cs[b]| && e == cs[b][i]
      requires b2 < |cs| && b2 != b
      modifies wide, Entries(cs)`next
      ensures ncs == Moved(cs, b, i, b2) && Represents(wide, ncs) && Unshared(ncs) && Entries(ncs) == Entries(cs)
      ensures |ncs[b]| == |cs[b]| - 1 && Addresses(pE, ncs, b, i)
    {
      RemovedFacts(cs, b, i);
      MovedFacts(cs, b, i, b2);
      var _ := Unlink(wide, pE, cs, b, i);
      Push(wide, e, b2, Removed(cs, b, i));
      ncs := Moved(cs, b, i, b2);
      assert ncs[b][..i] == cs[b][..i];
    }

    /** HT_GROW, which may also be called with a size below the number of entries. A larger table holds the
        same entries, each chain in the order its path produces. */
    method Grow(size: nat, mem: Memory) returns (status: int)
      requires Loose() && InRange(primeIdx, size)
      modifies this, Entries(chains)`next
      ensures Loose() && nEntries == old(nEntries) && Entries(chains) == old(Entries(chains))
      ensures status == if old(GrowNeeded(size)) && mem == Exhausted then -1 else 0
      ensures !old(GrowNeeded(size)) || mem == Exhausted ==> unchanged(this)
      ensures old(GrowNeeded(size)) && mem != Exhausted ==>
                && fresh(table) && primeIdx > old(primeIdx) && loadLimit > size
                && (forall j :: old(primeIdx) < j < primeIdx ==> LimitOf(j) <= size)
                && chains == Rehashed(old(chains), length, mem)
      ensures primeIdx == GrownIdx(old(primeIdx), size, mem) && (old(Valid()) ==> Valid())
    {
      if primeIdx == LAST_PRIME {
        return 0;
      }
      if loadLimit > size {
        return 0;
      }
      var idx := NextPrime(size);
      if mem == Exhausted {
        return -1;
      }
      Enlarge(idx, mem);
      return 0;
    }

    ghost function Rehashed(cs: Chains, n: nat, mem: Memory): Chains
      requires 0 < n && |cs| <= n
    {
      if mem == MallocOk then FreshRehash(cs, n, hash) else InPlaceRehash(cs, n, hash)
    }

    method Enlarge(idx: int, mem: Memory)
      requires Loose() && primeIdx < idx <= LAST_PRIME && mem != Exhausted
      modifies this, Entries(chains)`next
      ensures Loose() && nEntries == old(nEntries) && Entries(chains) == old(Entries(chains))
      ensures fresh(table) && primeIdx == idx && old(|chains|) <= length && loadLimit == LimitOf(idx)
      ensures old(loadLimit) <= loadLimit
      ensures chains == Rehashed(old(chains), length, mem)
    {
      PrimesDouble(idx);
      hide Prime, Unshared, Placed, Entries, Represents;
      assert loadLimit <= Limit(Prime(idx)) && |chains| <= Prime(idx);
      var newTable, ncs := Rehash(Prime(idx), mem);
      Adopt(idx, newTable, ncs);
    }

    method Adopt(idx: nat, newTable: array<Entry?>, ghost ncs: Chains)
      requires idx <= LAST_PRIME && |ncs| == newTable.Length == Prime(idx)
      requires Represents(newTable, ncs) && Consistent(ncs, hash)
      requires nEntries == |Entries(ncs)|
      modifies this
      ensures Loose() && table == newTable && chains == ncs && primeIdx == idx && nEntries == old(nEntries)
      ensures loadLimit == LimitOf(idx)
    {
      hide Prime, Unshared, Placed, Entries, Represents;
      table, length, primeIdx, loadLimit, chains := newTable, newTable.Length, idx, Limit(newTable.Length), ncs;
    }

    method Rehash(newLen: nat, mem: Memory) returns (newTable: array<Entry?>, ghost ncs: Chains)
      requires Shape() && newLen > 0 && |chains| <= newLen && (table == null ==> length == 0)
      requires mem != Exhausted
      modifies Entries(chains)`next
      ensures fresh(newTable) && Represents(newTable, ncs) && |ncs| == newLen
      ensures Unshared(ncs) && Entries(ncs) == Entries(chains) && Placed(ncs, hash)
      ensures ncs == Rehashed(chains, newLen, mem)
    {
      if mem == MallocOk {
        newTable, ncs := RehashFresh(newLen);
        FreshFacts(chains, newLen, hash);
      } else {
        newTable, ncs := RehashInPlace(newLen);
        InPlaceFacts(chains, newLen, hash);
      }
    }

    /** The table is due to grow and neither allocation is granted. */
    ghost predicate Starved(mem: Memory)
      reads this
    {
      mem == Exhausted && GrowNeeded(nEntries)
    }

    /** One more entry does not break the load bound. */
    ghost predicate HasRoom()
      reads this
    {
      primeIdx < LAST_PRIME ==> nEntries < loadLimit
    }

    /** What the growth test does to the table: nothing while there is room, and nothing if it cannot; else the
        first larger prime whose limit exceeds the new count. */
    twostate predicate RoomMade(mem: Memory)
      reads this
    {
      if old(nEntries) < old(loadLimit) || old(primeIdx) == LAST_PRIME || mem == Exhausted then
        table == old(table) && length == old(length) && primeIdx == old(primeIdx) && loadLimit == old(loadLimit)
      else
        && fresh(table) && -1 <= old(primeIdx) < primeIdx <= LAST_PRIME && length == Prime(primeIdx)
        && old(nEntries) + 1 < loadLimit == Limit(length)
        && forall j :: old(primeIdx) < j < primeIdx ==> LimitOf(j) <= old(nEntries) + 1
    }

    /** So the prime is the one the specification of histories computes. */
    twostate lemma RoomMadeIs(mem: Memory)
      requires old(Loose()) && RoomInRange(old(primeIdx), old(nEntries)) && RoomMade(mem)
      ensures primeIdx == RoomIdx(old(primeIdx), old(nEntries), mem)
    {
      RoomIsRight(old(primeIdx), old(nEntries), mem, primeIdx);
      hide Prime;
    }

    /** The chains it leaves in a table of length `n`. */
    twostate function RoomChains(n: nat, mem: Memory): Chains
    {
      if old(nEntries) < old(loadLimit) || old(primeIdx) == LAST_PRIME || mem == Exhausted then old(chains)
      else if 0 < n && |old(chains)| <= n then Rehashed(old(chains), n, mem)
      else []
    }

    /** The growth test shared by INSERT, REPLACE and evmap_io_add. What GROW answers is not looked
        at, so a starved table goes on as it is: full, or not there at all. In that case INSERT divides
        by its length, zero, and the others follow the NULL that HT_FIND_P answers. */
    method MakeRoom(mem: Memory)
      requires Loose() && RoomInRange(primeIdx, nEntries)
      modifies this, Entries(chains)`next
      ensures Loose() && nEntries == old(nEntries) && (table == null <==> mem == Exhausted && old(table) == null)
      ensures Entries(chains) == old(Entries(chains)) && Contents(chains) == old(Contents(chains))
      ensures RoomMade(mem) && chains == RoomChains(length, mem)
      ensures HasRoom() <==> !old(Starved(mem))
      ensures Valid() <==> !old(Starved(mem)) || old(Valid())
    {
      hide Prime, NextIdx, GrownIdx, Contents, HasKey, Unshared, Placed, Represents, Entries, Rehashed;
      ghost var before := chains;
      if table == null || nEntries >= loadLimit {
        var _ := Grow(nEntries + 1, mem);
      }
      ContentsFromEntries(before, chains);
    }

    // ---------- update ----------

    /** HT_INSERT of an absent key: the entry becomes the head of its chain. A starved table takes it
        too, past its load bound. */
    method Insert(elm: Entry, mem: Memory)
      requires Loose() && RoomInRange(primeIdx, nEntries) && (table == null ==> mem != Exhausted)
      requires elm.fd !in Contents(chains)
      modifies this, table, Entries(chains)`next, elm`next
      ensures Loose() && (Valid() <==> !old(Starved(mem))) && nEntries == old(nEntries) + 1
      ensures Entries(chains) == old(Entries(chains)) + {elm}
      ensures Contents(chains) == old(Contents(chains))[elm.fd := elm]
      ensures table != null && RoomMade(mem)
      ensures |RoomChains(length, mem)| == length
      ensures chains == Pushed(RoomChains(length, mem), Dest(hash, elm, length), elm)
    {
      hide Prime, Contents, HasKey, HasRoom, Starved, Unshared, Placed, Represents;
      MakeRoom(mem);
      LinkFirst(elm);
    }

    method LinkFirst(elm: Entry)
      requires Loose() && table != null && elm.fd !in Contents(chains)
      modifies this`nEntries, this`chains, table, elm`next
      ensures Loose() && (Valid() <==> old(HasRoom())) && nEntries == old(nEntries) + 1
      ensures Entries(chains) == old(Entries(chains)) + {elm}
      ensures Contents(chains) == old(Contents(chains))[elm.fd := elm]
      ensures var b := Dest(hash, elm, length); chains == Pushed(old(chains), b, elm)
    {
      hide Prime, Unshared, Placed, Contents, HasKey, Entries, Represents;
      var b := Dest(hash, elm, length);
      ContentsFacts(chains);
      InsertEffect(chains, b, elm, hash);
      Push(table, elm, b, chains);
      nEntries, chains := nEntries + 1, Pushed(chains, b, elm);
    }

    /** HT_REMOVE */
    method Remove(key: int) returns (r: Entry?)
      requires Loose()
      modifies this`nEntries, this`chains, table, Entries(chains)`next
      ensures Loose() && (old(Valid()) ==> Valid())
      ensures r == if key in old(Contents(chains)) then old(Contents(chains))[key] else null
      ensures r != null ==> r.next == null && Entries(chains) == old(Entries(chains)) - {r}
      ensures if r == null then chains == old(chains) else exists b, i :: Edited(old(chains), chains, b, i, r, null)
      ensures Contents(chains) == old(Contents(chains)) - {key}
    {
      hide Prime, Unshared, Placed, Contents, HasKey, Entries;
      ContentsFacts(chains);
      var p, b, i := FindP(key);
      if p.None? || Load(table, p.value) == null {
        return null;
      }
      r := UnlinkAt(p.value, b, i);
      r.next := null;
      assert Edited(old(chains), chains, b, i, r, null);
    }

    method UnlinkAt(p: Slot, ghost b: nat, ghost i: nat) returns (r: Entry)
      requires Loose() && table != null && Addresses(p, chains, b, i) && i < |chains[b]|
      modifies this`nEntries, this`chains, table, SlotFrame(p)`next
      ensures Loose() && nEntries == old(nEntries) - 1
      ensures r == old(chains[b][i]) && r in old(Entries(chains)) && r.next == old(r.next)
      ensures Entries(chains) == old(Entries(chains)) - {r}
      ensures Contents(chains) == old(Contents(chains)) - {r.fd}
      ensures chains == Removed(old(chains), b, i)
    {
      hide Prime, Unshared, Placed, Contents, HasKey, Entries, Represents;
      RemoveEffect(chains, b, i, hash);
      r := Unlink(table, p, chains, b, i);
      nEntries, chains := nEntries - 1, Removed(chains, b, i);
    }

    /** The slot ends the chain a new entry with this key belongs to. */
    ghost predicate FreeSlot(p: Slot, key: int, b: nat)
      reads this, table
    {
      && table != null && |chains| == length && b < length && b == hash(key) % length
      && Addresses(p, chains, b, |chains[b]|)
    }

    /** The slot points to the entry at position `i` of chain `b`. */
    ghost predicate UsedSlot(p: Slot, r: Entry, b: nat, i: nat)
      reads this, table
    {
      table != null && Addresses(p, chains, b, i) && b < |chains| && i < |chains[b]| && r == chains[b][i]
    }

    /** Room for one more entry where it can be had, then the slot for a key and what it points to. */
    method Locate(key: int, mem: Memory) returns (p: Slot, r: Entry?, ghost b: nat, ghost i: nat)
      requires Loose() && RoomInRange(primeIdx, nEntries) && (table == null ==> mem != Exhausted)
      modifies this, Entries(chains)`next
      ensures Loose() && nEntries == old(nEntries) && table != null
      ensures RoomMade(mem) && chains == RoomChains(length, mem)
      ensures Valid() <==> !old(Starved(mem)) || old(Valid())
      ensures HasRoom() <==> !old(Starved(mem))
      ensures Entries(chains) == old(Entries(chains)) && Contents(chains) == old(Contents(chains))
      ensures r == if key in Contents(chains) then Contents(chains)[key] else null
      ensures r != null ==> r in Entries(chains) && r.fd == key && UsedSlot(p, r, b, i)
      ensures r == null ==> FreeSlot(p, key, b) && SlotFrame(p) <= Entries(chains)
    {
      hide Prime, Unshared, Placed, Contents, HasKey, Entries;
      MakeRoom(mem);
      ContentsFacts(chains);
      var q;
      q, b, i := FindP(key);
      p := q.value;
      r := Load(table, p);
    }

    /** HT_REPLACE. For an unlinked `elm` it overwrites the key in the finite map and hands back what
        was there. For an `elm` that is already in the table nothing moves and yet the count is
        raised, so the representation is broken; a new key overfills a starved table. */
    method Replace(elm: Entry, mem: Memory) returns (r: Entry?)
      requires Loose() && RoomInRange(primeIdx, nEntries) && (table == null ==> mem != Exhausted)
      requires elm.fd !in Contents(chains) ==> elm.next == null
      modifies this, table, Entries(chains)`next, elm`next
      ensures Entries(chains) == old(Entries(chains)) - (if r == null then {} else {r}) + {elm}
      ensures Unshared(chains) && Contents(chains) == old(Contents(chains))[elm.fd := elm]
      ensures elm !in old(Entries(chains)) ==> Loose()
      ensures Valid() <==>
                && elm !in old(Entries(chains))
                && (!old(Starved(mem)) || (elm.fd in old(Contents(chains)) && old(Valid())))
      ensures RoomMade(mem)
      ensures if r == null && elm in old(Entries(chains)) then chains == RoomChains(length, mem)
              else exists b, i :: Edited(RoomChains(length, mem), chains, b, i, r, elm)
      ensures elm !in old(Entries(chains)) ==>
                r == if elm.fd in old(Contents(chains)) then old(Contents(chains))[elm.fd] else null
      ensures elm in old(Entries(chains)) ==> r == null && nEntries == |Contents(chains)| + 1
      ensures r != null ==> r.next == null
    {
      hide Prime, Unshared, Placed, Contents, HasKey, Entries, Represents, Addresses, Edited, Limit, LimitOf, Rehashed;
      assert elm in Entries(chains) ==> elm.fd in Contents(chains) by {
        ContentsFacts(chains);
      }
      var p, r0, b, i := Locate(elm.fd, mem);
      ghost var roomed := chains;
      r := PutAt(p, elm, r0, b, i);
      assert roomed == RoomChains(length, mem);
    }

    /** REPLACE behind its search. */
    method PutAt(p: Slot, elm: Entry, r0: Entry?, ghost b: nat, ghost i: nat) returns (r: Entry?)
      requires Loose() && table != null && (elm.fd !in Contents(chains) ==> elm.next == null)
      requires r0 == if elm.fd in Contents(chains) then Contents(chains)[elm.fd] else null
      requires r0 != null ==> r0 in Entries(chains) && r0.fd == elm.fd && UsedSlot(p, r0, b, i)
      requires r0 == null ==> FreeSlot(p, elm.fd, b) && SlotFrame(p) <= Entries(chains)
      modifies this`nEntries, this`chains, table, Entries(chains)`next, elm`next
      ensures Entries(chains) == old(Entries(chains)) - (if r == null then {} else {r}) + {elm}
      ensures Unshared(chains) && Contents(chains) == old(Contents(chains))[elm.fd := elm]
      ensures elm !in old(Entries(chains)) ==> Loose() && r == r0
      ensures Valid() <==> elm !in old(Entries(chains)) && if r0 == null then old(HasRoom()) else old(Valid())
      ensures elm in old(Entries(chains)) ==> r == null && nEntries == |Contents(chains)| + 1
      ensures r != null ==> r.next == null
      ensures if r == null && elm in old(Entries(chains)) then chains == old(chains)
              else exists b, i :: Edited(old(chains), chains, b, i, r, elm)
    {
      hide Prime, Unshared, Placed, Contents, HasKey, Entries, Represents, Addresses, Edited, Limit, LimitOf;
      assert elm in Entries(chains) ==> r0 == elm by {
        ContentsFacts(chains);
      }
      ghost var before := chains;
      if r0 != null && r0 != elm {
        assert b < |before| && i < |before[b]|;
        r := ExchangeAt(p, elm, r0, b, i);
        EditedSubstituted(before, b, i, elm);
      } else if r0 == elm {
        ContentsFacts(chains);
        nEntries := nEntries + 1;
        assert Contents(chains) == Contents(chains)[elm.fd := elm];
        r := null;
      } else {
        LinkLast(p, elm, b);
        EditedAppended(before, b, elm);
        r := null;
      }
    }

    method ExchangeAt(p: Slot, elm: Entry, ghost r0: Entry, ghost b: nat, ghost i: nat) returns (r: Entry)
      requires Loose() && UsedSlot(p, r0, b, i) && elm !in Entries(chains) && elm.fd == r0.fd
      modifies this`chains, table, Entries(chains)`next, elm`next
      ensures Loose() && r == r0 && r.next == null
      ensures Entries(chains) == old(Entries(chains)) - {r} + {elm}
      ensures Contents(chains) == old(Contents(chains))[elm.fd := elm]
      ensures chains == Substituted(old(chains), b, i, elm)
    {
      hide Prime, Unshared, Placed, Contents, HasKey, Entries, Represents;
      ReplaceEffect(chains, b, i, elm, hash);
      r := Substitute(table, p, elm, chains, b, i);
      chains := Substituted(chains, b, i, elm);
    }

    /** `*p = elm; ++hth_n_entries` where `p` is the slot that ends the chain. */
    method LinkLast(p: Slot, elm: Entry, ghost b: nat)
      requires Loose() && FreeSlot(p, elm.fd, b) && elm.fd !in Contents(chains) && elm.next == null
      modifies this`nEntries, this`chains, table, SlotFrame(p)`next
      ensures Loose() && (Valid() <==> old(HasRoom())) && nEntries == old(nEntries) + 1
      ensures Entries(chains) == old(Entries(chains)) + {elm}
      ensures Contents(chains) == old(Contents(chains))[elm.fd := elm]
      ensures b < |old(chains)| && chains == Appended(old(chains), b, elm)
    {
      hide Prime, Unshared, Placed, Contents, HasKey, Entries, Represents;
      ContentsFacts(chains);
      AppendEffect(chains, b, elm, hash);
      Append(table, p, elm, chains, b);
      nEntries, chains := nEntries + 1, Appended(chains, b, elm);
    }

    // ---------- traversal ----------

    /** HT_FOREACH_FN: the callback sees every entry once, in traversal order, and exactly the
        entries it answers nonzero for leave the table. */
    method ForEachFn(fn: Entry -> bool) returns (calls: seq<Entry>)
      requires Loose()
      modifies this`nEntries, this`chains, table, Entries(chains)`next
      ensures Loose() && (old(Valid()) ==> Valid()) && calls == Flat(old(chains))
      ensures chains == Swept(old(chains), old(|chains|), fn)
      ensures forall e :: e in Entries(chains) <==> e in old(Entries(chains)) && !fn(e)
    {
      hide Prime, Unshared, Placed, Contents, HasKey, Represents, Entries, Swept;
      calls := [];
      var idx := 0;
      ghost var cs := chains;
      SweptNone(cs, fn);
      while idx < length
        invariant idx <= length == |cs| && Loose() && nEntries <= old(nEntries)
        invariant chains == Swept(cs, idx, fn) && calls == Flat(cs[..idx])
        invariant Entries(chains) <= old(Entries(chains))
      {
        var some := SweepBucket(idx, fn);
        SweptNext(cs, idx, fn);
        calls := calls + some;
        idx := idx + 1;
      }
      assert cs[..idx] == cs;
      SweptEntries(cs, fn);
    }

    method SweepBucket(idx: nat, fn: Entry -> bool) returns (calls: seq<Entry>)
      requires Loose() && table != null && idx < length
      modifies this`nEntries, this`chains, table, Entries(chains)`next
      ensures Loose() && nEntries <= old(nEntries) && calls == old(chains[idx])
      ensures chains == old(chains)[idx := Kept(old(chains[idx]), fn)]
      ensures Entries(chains) <= old(Entries(chains))
    {
      hide Prime, Unshared, Placed, Contents, HasKey, Represents, Kept, PartlySwept;
      ghost var cs, c := chains, chains[idx];
      ghost var i := 0;
      var p := Head(idx);
      calls := [];
      LoadAt(table, p, chains, idx, i);
      SweepEnds(c, fn);
      while Load(table, p) != null
        invariant Loose() && nEntries <= old(nEntries)
        invariant |calls| <= |c| && calls == c[..|calls|] && i == |Kept(c[..|calls|], fn)|
        invariant chains == cs[idx := PartlySwept(c, |calls|, fn)]
        invariant Addresses(p, chains, idx, i) && Load(table, p) == At(chains[idx], i)
        invariant Entries(chains) <= old(Entries(chains))
        decreases |c| - |calls|
      {
        var e := Load(table, p);
        SweepStep(c, |calls|, fn);
        p, i := SweepEntry(p, e, idx, c, |calls|, i, fn);
        calls := calls + [e];
        LoadAt(table, p, chains, idx, i);
      }
    }

    method SweepEntry(p: Slot, e: Entry, idx: nat, ghost c: seq<Entry>, ghost j: nat, ghost i: nat, fn: Entry -> bool)
      returns (q: Slot, ghost k: nat)
      requires Loose() && table != null && Addresses(p, chains, idx, i) && j < |c| && e == c[j]
      requires i == |Kept(c[..j], fn)| && chains[idx] == PartlySwept(c, j, fn)
      modifies this`nEntries, this`chains, table, SlotFrame(p)`next
      ensures Loose() && nEntries <= old(nEntries) && Entries(chains) <= old(Entries(chains))
      ensures k == |Kept(c[..j + 1], fn)| && chains == old(chains)[idx := PartlySwept(c, j + 1, fn)]
      ensures Addresses(q, chains, idx, k)
    {
      hide Prime, Unshared, Placed, Contents, HasKey, Represents, Kept, PartlySwept, Entries;
      SweepStep(c, j, fn);
      ghost var cs := chains;
      if fn(e) {
        var _ := UnlinkAt(p, idx, i);
        assert i > 0 ==> chains[idx][i - 1] == cs[idx][i - 1];
        return p, i;
      }
      assert cs == cs[idx := cs[idx]];
      return NextOf(e), i + 1;
    }

    /** The scan for the first nonempty bucket that START, NEXT and NEXT_RMV share. */
    method FirstFrom(b0: nat) returns (p: Option<Slot>, ghost b: nat)
      requires Loose()
      ensures Loose()
      ensures p.None? ==> forall c :: b0 <= c < |chains| ==> chains[c] == []
      ensures p.Some? ==> b0 <= b < |chains| && chains[b] != [] && p.value == Head(b)
      ensures p.Some? ==> forall c :: b0 <= c < b ==> chains[c] == []
    {
      hide Prime, Unshared, Placed;
      var d := b0;
      while d < length
        invariant b0 <= d && forall c :: b0 <= c < d && c < |chains| ==> chains[c] == []
      {
        if table[d] != null {
          return Some(Head(d)), d;
        }
        d := d + 1;
      }
      return None, d;
    }

    /** HT_START */
    method Start() returns (p: Option<Slot>, ghost b: nat)
      requires Loose()
      ensures Loose() && (p.None? <==> Entries(chains) == {})
      ensures p.None? ==> forall c :: 0 <= c < |chains| ==> chains[c] == []
      ensures p.Some? ==> b < |chains| && chains[b] != [] && p.value == Head(b)
      ensures p.Some? ==> forall c :: 0 <= c < b ==> chains[c] == []
    {
      p, b := FirstFrom(0);
      if p.Some? {
        assert chains[b][0] in Entries(chains);
      }
    }

    /** HT_NEXT: the slot of the entry after the one at position `i` of chain `b`. */
    method Next(elm: Slot, ghost b: nat, ghost i: nat) returns (p: Option<Slot>, ghost b': nat, ghost i': nat)
      requires Loose() && table != null && Addresses(elm, chains, b, i) && i < |chains[b]|
      ensures Loose()
      ensures p.None? ==> i + 1 == |chains[b]| && forall c :: b < c < |chains| ==> chains[c] == []
      ensures p.Some? ==> Addresses(p.value, chains, b', i') && i' < |chains[b']|
      ensures p.Some? && b' == b ==> i' == i + 1
      ensures p.Some? && b' != b ==> b < b' && i' == 0 && i + 1 == |chains[b]|
      ensures p.Some? ==> forall c :: b < c < b' ==> chains[c] == []
    {
      hide Prime, Unshared, Contents, HasKey, Entries, Represents;
      LoadAt(table, elm, chains, b, i);
      NextAt(table, chains, b, i);
      var e := Load(table, elm);
      if e.next != null {
        return Some(NextOf(e)), b, i + 1;
      }
      assert PlacedChain(chains[b], b, |chains|, hash);
      p, b' := FirstFrom(Dest(hash, e, length) + 1);
      i' := 0;
    }

    /** START then NEXT until it answers NULL visits every entry exactly once, in traversal order. */
    method Walk() returns (visited: seq<Entry>)
      requires Loose()
      ensures visited == Flat(chains)
      ensures forall e :: e in visited <==> e in Entries(chains)
      ensures forall x, y :: 0 <= x < y < |visited| ==> visited[x] != visited[y]
      ensures |visited| == nEntries
    {
      hide Prime, Unshared, Placed, Contents, HasKey, Entries, Represents, Flat;
      visited := [];
      var p, b := Start();
      ghost var i: nat := 0;
      FlatSkip(chains, 0, if p.Some? then b else |chains|);
      assert chains[..|chains|] == chains;
      while p.Some?
        invariant Loose()
        invariant p.Some? ==> table != null && Addresses(p.value, chains, b, i) && i < |chains[b]|
        invariant p.Some? ==> visited == Flat(chains[..b]) + chains[b][..i]
        invariant p.None? ==> visited == Flat(chains)
        decreases if p.Some? then |chains| - b + 1 else 0, if p.Some? then |chains[b]| - i else 0
      {
        LoadAt(table, p.value, chains, b, i);
        visited := visited + [Load(table, p.value)];
        assert chains[b][..i + 1] == chains[b][..i] + [chains[b][i]];
        ghost var b0 := b;
        p, b, i := Next(p.value, b, i);
        FlatPast(chains, b0, if p.Some? then b else |chains|);
      }
      FlatIsExact(chains);
    }

    /** HT_NEXT_RMV: unlink the entry through its slot and answer the slot of the entry after it. */
    method NextRmv(elm: Slot, ghost b: nat, ghost i: nat) returns (p: Option<Slot>, ghost b': nat)
      requires Loose() && table != null && Addresses(elm, chains, b, i) && i < |chains[b]|
      modifies this`nEntries, this`chains, table, SlotFrame(elm)`next
      ensures Loose() && nEntries == old(nEntries) - 1 && chains == Removed(old(chains), b, i)
      ensures Entries(chains) == old(Entries(chains)) - {old(chains[b][i])}
      ensures i < |chains[b]| ==> p == Some(elm) && b' == b
      ensures i == |chains[b]| && p.None? ==> forall c :: b < c < |chains| ==> chains[c] == []
      ensures i == |chains[b]| && p.Some? ==> b < b' < |chains| && chains[b'] != [] && p.value == Head(b')
      ensures i == |chains[b]| && p.Some? ==> forall c :: b < c < b' ==> chains[c] == []
    {
      hide Prime, Unshared, Contents, HasKey, Entries, Represents;
      LoadAt(table, elm, chains, b, i);
      assert PlacedChain(chains[b], b, |chains|, hash);
      var h := hash(Load(table, elm).fd);
      var _ := UnlinkAt(elm, b, i);
      assert Addresses(elm, chains, b, i) by {
        assert i > 0 ==> chains[b][i - 1] == old(chains[b][i - 1]);
      }
      LoadAt(table, elm, chains, b, i);
      if Load(table, elm) != null {
        return Some(elm), b;
      }
      p, b' := FirstFrom(h % length + 1);
    }

    /** START then NEXT_RMV until it answers NULL takes out every entry once and leaves count 0. */
    method Drain() returns (taken: seq<Entry>)
      requires Loose()
      modifies this`nEntries, this`chains, table, Entries(chains)`next
      ensures Loose() && nEntries == 0 && Entries(chains) == {}
      ensures taken == Flat(old(chains)) && |taken| == old(nEntries)
    {
      hide Prime, Unshared, Placed, Contents, HasKey, Entries, Represents, Flat, Draining, Drained;
      ghost var cs := chains;
      FlatIsExact(cs);
      taken := [];
      var p, b := Start();
      ghost var j: nat := 0;
      DrainFirst(cs, if p.Some? then b else |cs|);
      while p.Some?
        invariant Loose() && Entries(chains) <= old(Entries(chains))
        invariant p.Some? ==> 0 <= b < |chains| && p.value == Head(b) && table != null && chains[b] != []
        invariant p.Some? ==> Draining(cs, chains, taken, b, j)
        invariant p.None? ==> Drained(cs, chains, taken)
        decreases nEntries
      {
        LoadAt(table, p.value, chains, b, 0);
        ghost var b0, before, taken0 := b, chains, taken;
        taken := taken + [Load(table, p.value)];
        p, b := NextRmv(p.value, b, 0);
        DrainNext(cs, before, taken0, b0, j, if p.Some? then b else |chains|);
        j := if p.Some? && b == b0 then j + 1 else 0;
      }
      DrainedAll(cs, chains, taken);
    }

    // ---------- the debugging check ----------

    /** The header fields agree with each other, whatever the chains hold. */
    ghost predicate FieldsAgree()
      reads this
    {
      && (length == 0 ==> table == null && nEntries == 0 && loadLimit == 0 && primeIdx == -1)
      && (length != 0 ==> table != null && 0 <= primeIdx <= LAST_PRIME && length == Prime(primeIdx)
                          && loadLimit == Limit(length))
    }

    /** HT_REP_IS_BAD answers 0 exactly for the representation invariant together with the load bound.
        A valid table over its load bound, possible at the last prime only, is reported as 3. */
    method RepIsBad() returns (code: int)
      requires Shape()
      ensures code == 0 <==> Valid() && nEntries <= loadLimit
      ensures Loose() && nEntries > loadLimit ==> code == 3
      ensures Loose() ==> (code == 0 <==> nEntries <= LimitOf(primeIdx))
      ensures Valid() ==> (code == 0 <==> nEntries <= LAST_LIMIT)
      ensures code >= 10000 ==>
                && code - 10000 < |chains|
                && !PlacedChain(chains[code - 10000], code - 10000, |chains|, hash)
      ensures FieldsAgree() && nEntries <= loadLimit && Placed(chains, hash) && nEntries != |Entries(chains)| ==>
                code == 6
    {
      hide Prime, LimitOf, Unshared, Contents, HasKey, Represents;
      if Loose() {
        LimitFits();
      }
      if length == 0 {
        NoEntries(chains);
        if table == null && nEntries == 0 && loadLimit == 0 && primeIdx == -1 {
          return 0;
        }
        return 1;
      }
      if table == null || primeIdx < 0 || loadLimit == 0 {
        return 2;
      }
      if nEntries > loadLimit {
        return 3;
      }
      if length != Prime(primeIdx) {
        return 4;
      }
      if loadLimit != Limit(length) {
        return 5;
      }
      code := CountChains();
    }

    lemma LimitFits()
      requires Loose()
      ensures loadLimit == LimitOf(primeIdx)
      ensures Bounded() ==> (nEntries <= loadLimit <==> nEntries <= LAST_LIMIT)
    {
      if primeIdx >= 0 {
        PrimesDouble(primeIdx);
      }
    }

    method CountChains() returns (code: int)
      requires Shape() && FieldsAgree() && length != 0
      ensures code == 0 || code == 6 || code >= 10000
      ensures code < 10000 ==> Placed(chains, hash) && (code == 0 <==> nEntries == |Entries(chains)|)
      ensures code >= 10000 ==>
                && code - 10000 < |chains|
                && !PlacedChain(chains[code - 10000], code - 10000, |chains|, hash)
    {
      hide Prime, Unshared, Contents, HasKey, Represents, Entries, Passed;
      var n, i := 0, 0;
      PassedAll(chains);
      while i < length
        invariant Shape() && i <= length && n == |Passed(chains, i, 0)|
        invariant forall b :: 0 <= b < i ==> PlacedChain(chains[b], b, |chains|, hash)
      {
        var ok;
        ok, n := CountChain(i, n);
        if !ok {
          return 10000 + i;
        }
        PassedBucket(chains, i);
        i := i + 1;
      }
      return if n != nEntries then 6 else 0;
    }

    method CountChain(i: nat, n0: nat) returns (ok: bool, n: nat)
      requires Shape() && table != null && i < length && n0 == |Passed(chains, i, 0)|
      ensures Shape() && (ok <==> PlacedChain(chains[i], i, |chains|, hash))
      ensures ok ==> n == |Passed(chains, i, |chains[i]|)|
    {
      hide Prime, Unshared, Contents, HasKey, Represents, Entries, Passed;
      n := n0;
      LoadAt(table, Head(i), chains, i, 0);
      var elm := table[i];
      ghost var k := 0;
      while elm != null
        invariant Shape() && k <= |chains[i]| && elm == At(chains[i], k) && n == |Passed(chains, i, k)|
        invariant forall j :: 0 <= j < k ==> Dest(hash, chains[i][j], |chains|) == i
        decreases |chains[i]| - k
      {
        if Dest(hash, elm, length) != i {
          return false, n;
        }
        PassedStep(chains, i, k);
        NextAt(table, chains, i, k);
        n := n + 1;
        elm := elm.next;
        k := k + 1;
      }
      ok := true;
    }

    /** TAILQ_INSERT_TAIL on the queue of one entry. */
    method AppendEvent(ent: Entry, ev: int)
      requires Loose()
      modifies ent`events
      ensures Loose() && (Valid() <==> old(Valid())) && ent.events == old(ent.events) + [ev]
    {
      ent.events := ent.events + [ev];
    }
  }
}
