/** Whole histories of the hash table, compared answer by answer with a finite map. */
module HashHistory {
  import opened Common
  import opened HashChains
  import opened HashRehash
  import opened HashTable

  /** What a client may ask for. `Add` inserts after a lookup has found the key absent, as HT_INSERT
      demands of its callers; `Put` is HT_REPLACE with an unlinked entry; `Enlarge` is HT_GROW;
      `Purge` is HT_FOREACH_FN. */
  datatype Op =
    | Add(fd: int, mem: Memory)
    | Put(fd: int, mem: Memory)
    | Get(fd: int)
    | Del(fd: int)
    | Enlarge(size: nat, mem: Memory)
    | Purge(unwanted: int -> bool)

  /** What decides the size of a table: its keys and its prime. */
  datatype Extent = Extent(keys: set<int>, idx: int)

  const NO_TABLE := Extent({}, -1)

  predicate Fine(x: Extent) {
    -1 <= x.idx <= LAST_PRIME
  }

  /** A new key can be put in: a search for a larger prime stays inside the table of primes, and a table that
      is to be made is granted. */
  predicate MayGrow(x: Extent, mem: Memory)
    requires Fine(x)
  {
    RoomInRange(x.idx, |x.keys|) && (x.idx == -1 ==> mem != Exhausted)
  }

  /** The call is defined. */
  predicate Served(x: Extent, op: Op)
    requires Fine(x)
  {
    match op
    case Add(fd, mem) => fd in x.keys || MayGrow(x, mem)
    case Put(_, mem) => MayGrow(x, mem)
    case Enlarge(size, _) => InRange(x.idx, size)
    case _ => true
  }

  function ExtentAfter(x: Extent, op: Op): (y: Extent)
    requires Fine(x) && Served(x, op)
    ensures Fine(y)
  {
    match op
    case Add(fd, mem) => if fd in x.keys then x else Extent(x.keys + {fd}, RoomIdx(x.idx, |x.keys|, mem))
    case Put(fd, mem) => Extent(x.keys + {fd}, RoomIdx(x.idx, |x.keys|, mem))
    case Get(_) => x
    case Del(fd) => x.(keys := x.keys - {fd})
    case Enlarge(size, mem) => x.(idx := GrownIdx(x.idx, size, mem))
    case Purge(unwanted) => x.(keys := set fd | fd in x.keys && !unwanted(fd))
  }

  /** The extent after a history, None if some call of it is not defined. */
  function ExtentAll(ops: seq<Op>): (x: Option<Extent>)
    ensures x.Some? ==> Fine(x.value)
  {
    if ops == [] then Some(NO_TABLE)
    else
      match ExtentAll(ops[..|ops| - 1])
      case None => None
      case Some(x) =>
        if Served(x, ops[|ops| - 1]) then Some(ExtentAfter(x, ops[|ops| - 1])) else None
  }

  /** How one call may change the prime: an insertion only if the table is full, a demand only if it is for more
      than the table holds, each to the first larger prime with a limit above the demand. */
  predicate PrimeMoves(x: Extent, op: Op, y: Extent)
    requires Fine(x)
  {
    match op
    case Add(fd, mem) => if fd in x.keys then y.idx == x.idx else RightPrime(x.idx, |x.keys|, mem, y.idx)
    case Put(_, mem) => RightPrime(x.idx, |x.keys|, mem, y.idx)
    case Enlarge(size, mem) =>
      if size < LimitOf(x.idx) || x.idx == LAST_PRIME || mem == Exhausted then y.idx == x.idx
      else
        && x.idx < y.idx <= LAST_PRIME && size < LimitOf(y.idx)
        && forall j :: x.idx < j < y.idx ==> LimitOf(j) <= size
    case _ => y.idx == x.idx
  }

  /** Every call of every history moves the prime so. */
  lemma PrimesMoveRight(ops: seq<Op>, k: nat)
    requires ExtentAll(ops).Some? && k < |ops|
    ensures ExtentAll(ops[..k]).Some? && ExtentAll(ops[..k + 1]).Some?
    ensures PrimeMoves(ExtentAll(ops[..k]).value, ops[k], ExtentAll(ops[..k + 1]).value)
  {
    NextDefined(ops, k);
    hide ExtentAll, LimitOf;
    var x := ExtentAll(ops[..k]).value;
    match ops[k]
    case Add(fd, mem) =>
      if fd !in x.keys {
        RoomIsRight(x.idx, |x.keys|, mem, RoomIdx(x.idx, |x.keys|, mem));
      }
    case Put(_, mem) => RoomIsRight(x.idx, |x.keys|, mem, RoomIdx(x.idx, |x.keys|, mem));
    case Enlarge(size, mem) =>
      if size >= LimitOf(x.idx) && x.idx != LAST_PRIME && mem != Exhausted {
        NextIsFirst(x.idx, size);
      }
    case _ =>
  }

  /** Growth is granted where it is needed, and not asked for beyond the last prime. */
  predicate Ample(op: Op) {
    match op
    case Add(_, mem) => mem != Exhausted
    case Put(_, mem) => mem != Exhausted
    case Enlarge(size, _) => size < LAST_LIMIT
    case _ => true
  }

  predicate AllAmple(ops: seq<Op>) {
    forall k :: 0 <= k < |ops| ==> Ample(ops[k])
  }

  predicate Snug(x: Extent)
    requires Fine(x)
  {
    x.idx == LAST_PRIME || |x.keys| <= LimitOf(x.idx)
  }

  lemma AmpleStep(x: Extent, op: Op)
    requires Fine(x) && Snug(x) && Ample(op)
    ensures Served(x, op) && Snug(ExtentAfter(x, op))
  {
    BoundedInRange(x.idx, |x.keys|);
    match op
    case Enlarge(size, mem) => LimitsGrow(x.idx, GrownIdx(x.idx, size, mem));
    case Purge(unwanted) => Fewer(x.keys, set fd | fd in x.keys && !unwanted(fd));
    case Del(fd) => Fewer(x.keys, x.keys - {fd});
    case _ => hide Prime;
  }

  lemma LimitsGrow(i: int, j: int)
    requires -1 <= i <= j <= LAST_PRIME
    ensures LimitOf(i) <= LimitOf(j)
  {
    if 0 <= i < j {
      PrimesDouble(j);
      hide Prime;
    }
  }

  lemma Fewer(all: set<int>, some: set<int>)
    requires some <= all
    ensures |some| <= |all|
  {
    assert all == some + (all - some);
  }

  /** With ample memory every history is defined and the load bound is kept short of the last prime. */
  lemma {:induction false} AmpleMemory(ops: seq<Op>)
    requires AllAmple(ops)
    ensures ExtentAll(ops).Some? && Snug(ExtentAll(ops).value)
  {
    if ops != [] {
      AmpleMemory(ops[..|ops| - 1]);
      AmpleStep(ExtentAll(ops[..|ops| - 1]).value, ops[|ops| - 1]);
      hide Served, ExtentAfter, Snug, Ample;
    }
  }

  function KeyOf(op: Op): int {
    if op.Enlarge? || op.Purge? then 0 else op.fd
  }

  function Lookup(m: map<int, Entry>, fd: int): Entry? {
    if fd in m then m[fd] else null
  }

  /** The finite map after one operation made with entry `e`; rehashing never shows. */
  function After(m: map<int, Entry>, op: Op, e: Entry): map<int, Entry> {
    match op
    case Add(fd, _) => if fd in m then m else m[fd := e]
    case Put(fd, _) => m[fd := e]
    case Get(_) => m
    case Del(fd) => m - {fd}
    case Enlarge(_, _) => m
    case Purge(unwanted) => Purged(m, unwanted)
  }

  function Purged(m: map<int, Entry>, unwanted: int -> bool): map<int, Entry> {
    map fd | fd in m && !unwanted(fd) :: m[fd]
  }

  /** Every keyed operation answers with the entry that was under its key. */
  function Answer(m: map<int, Entry>, op: Op): Entry? {
    if op.Enlarge? || op.Purge? then null else Lookup(m, op.fd)
  }

  function AfterAll(ops: seq<Op>, made: seq<Entry>): map<int, Entry>
    requires |ops| == |made|
  {
    if ops == [] then map[]
    else
      var k := |ops| - 1;
      After(AfterAll(ops[..k], made[..k]), ops[k], made[k])
  }

  function Answers(ops: seq<Op>, made: seq<Entry>): seq<Entry?>
    requires |ops| == |made|
  {
    if ops == [] then []
    else
      var k := |ops| - 1;
      Answers(ops[..k], made[..k]) + [Answer(AfterAll(ops[..k], made[..k]), ops[k])]
  }

  ghost function ExtentOf(t: IoMap): Extent
    reads t, Entries(t.chains)
  {
    Extent(Contents(t.chains).Keys, t.primeIdx)
  }

  lemma ExtentFits(t: IoMap)
    requires t.Loose()
    ensures Fine(ExtentOf(t)) && t.nEntries == |ExtentOf(t).keys| && (t.primeIdx == -1 <==> t.table == null)
  {
    ContentsFacts(t.chains);
    hide Contents, Prime;
    assert |Contents(t.chains).Keys| == |Contents(t.chains)|;
  }

  lemma KeysAfter(m: map<int, Entry>, op: Op, e: Entry, idx: int)
    requires Fine(Extent(m.Keys, idx)) && Served(Extent(m.Keys, idx), op)
    ensures After(m, op, e).Keys == ExtentAfter(Extent(m.Keys, idx), op).keys
  {
    hide RoomIdx, GrownIdx, RoomInRange, InRange;
  }

  method Perform(t: IoMap, op: Op, e: Entry) returns (answer: Entry?)
    requires t.Loose() && Fine(ExtentOf(t)) && Served(ExtentOf(t), op)
    requires e.fd == KeyOf(op) && e.next == null && e !in Entries(t.chains)
    modifies t, t.table, Entries(t.chains), e
    ensures t.Loose() && t.primeIdx == ExtentAfter(old(ExtentOf(t)), op).idx
    ensures Contents(t.chains) == After(old(Contents(t.chains)), op, e)
    ensures answer == Answer(old(Contents(t.chains)), op)
    ensures Entries(t.chains) <= old(Entries(t.chains)) + {e}
    ensures t.table == old(t.table) || fresh(t.table)
  {
    hide Unshared, Placed, HasKey, Represents, Prime, Contents, Entries, IoMap.Loose;
    hide After, Answer, ExtentAfter, Served, KeyOf, ExtentOf, Fine;
    match op {
      case Add(_, _) => answer := PerformAdd(t, op, e);
      case Put(_, _) => answer := PerformPut(t, op, e);
      case Get(_) => answer := PerformGet(t, op, e);
      case Del(_) => answer := PerformDel(t, op, e);
      case Enlarge(_, _) => answer := PerformEnlarge(t, op, e);
      case Purge(_) => answer := PerformPurge(t, op, e);
    }
  }

  method PerformAdd(t: IoMap, op: Op, e: Entry) returns (answer: Entry?)
    requires t.Loose() && Fine(ExtentOf(t)) && Served(ExtentOf(t), op)
    requires e.fd == KeyOf(op) && e.next == null && e !in Entries(t.chains) && op.Add?
    modifies t, t.table, Entries(t.chains), e
    ensures t.Loose() && t.primeIdx == ExtentAfter(old(ExtentOf(t)), op).idx
    ensures Contents(t.chains) == After(old(Contents(t.chains)), op, e)
    ensures answer == Answer(old(Contents(t.chains)), op)
    ensures Entries(t.chains) <= old(Entries(t.chains)) + {e}
    ensures t.table == old(t.table) || fresh(t.table)
  {
    hide Unshared, Placed, HasKey, Represents, Prime, Contents, Entries, RoomIdx, RoomInRange, GrownIdx, InRange;
    hide Purged;
    ExtentFits(t);
    answer := t.Find(e.fd);
    if answer == null {
      t.Insert(e, op.mem);
      t.RoomMadeIs(op.mem);
    }
  }

  method PerformPut(t: IoMap, op: Op, e: Entry) returns (answer: Entry?)
    requires t.Loose() && Fine(ExtentOf(t)) && Served(ExtentOf(t), op)
    requires e.fd == KeyOf(op) && e.next == null && e !in Entries(t.chains) && op.Put?
    modifies t, t.table, Entries(t.chains), e
    ensures t.Loose() && t.primeIdx == ExtentAfter(old(ExtentOf(t)), op).idx
    ensures Contents(t.chains) == After(old(Contents(t.chains)), op, e)
    ensures answer == Answer(old(Contents(t.chains)), op)
    ensures Entries(t.chains) <= old(Entries(t.chains)) + {e}
    ensures t.table == old(t.table) || fresh(t.table)
  {
    hide Unshared, Placed, HasKey, Represents, Prime, Contents, Entries, RoomIdx, RoomInRange, GrownIdx, InRange;
    hide Purged;
    ExtentFits(t);
    answer := t.Replace(e, op.mem);
    t.RoomMadeIs(op.mem);
  }

  method PerformGet(t: IoMap, op: Op, e: Entry) returns (answer: Entry?)
    requires t.Loose() && Fine(ExtentOf(t)) && Served(ExtentOf(t), op)
    requires e.fd == KeyOf(op) && e.next == null && e !in Entries(t.chains) && op.Get?
    modifies t, t.table, Entries(t.chains), e
    ensures t.Loose() && t.primeIdx == ExtentAfter(old(ExtentOf(t)), op).idx
    ensures Contents(t.chains) == After(old(Contents(t.chains)), op, e)
    ensures answer == Answer(old(Contents(t.chains)), op)
    ensures Entries(t.chains) <= old(Entries(t.chains)) + {e}
    ensures t.table == old(t.table) || fresh(t.table)
  {
    hide Unshared, Placed, HasKey, Represents, Prime, Contents, Entries, RoomIdx, RoomInRange, GrownIdx, InRange;
    hide Purged;
    answer := t.Find(op.fd);
  }

  method PerformDel(t: IoMap, op: Op, e: Entry) returns (answer: Entry?)
    requires t.Loose() && Fine(ExtentOf(t)) && Served(ExtentOf(t), op)
    requires e.fd == KeyOf(op) && e.next == null && e !in Entries(t.chains) && op.Del?
    modifies t, t.table, Entries(t.chains), e
    ensures t.Loose() && t.primeIdx == ExtentAfter(old(ExtentOf(t)), op).idx
    ensures Contents(t.chains) == After(old(Contents(t.chains)), op, e)
    ensures answer == Answer(old(Contents(t.chains)), op)
    ensures Entries(t.chains) <= old(Entries(t.chains)) + {e}
    ensures t.table == old(t.table) || fresh(t.table)
  {
    hide Unshared, Placed, HasKey, Represents, Prime, Contents, Entries, RoomIdx, RoomInRange, GrownIdx, InRange;
    hide Purged;
    answer := t.Remove(op.fd);
  }

  method PerformEnlarge(t: IoMap, op: Op, e: Entry) returns (answer: Entry?)
    requires t.Loose() && Fine(ExtentOf(t)) && Served(ExtentOf(t), op)
    requires e.fd == KeyOf(op) && e.next == null && e !in Entries(t.chains) && op.Enlarge?
    modifies t, t.table, Entries(t.chains), e
    ensures t.Loose() && t.primeIdx == ExtentAfter(old(ExtentOf(t)), op).idx
    ensures Contents(t.chains) == After(old(Contents(t.chains)), op, e)
    ensures answer == Answer(old(Contents(t.chains)), op)
    ensures Entries(t.chains) <= old(Entries(t.chains)) + {e}
    ensures t.table == old(t.table) || fresh(t.table)
  {
    hide Unshared, Placed, HasKey, Represents, Prime, Contents, Entries, RoomIdx, RoomInRange, GrownIdx, InRange;
    hide Purged;
    ghost var before := t.chains;
    var _ := t.Grow(op.size, op.mem);
    ContentsFromEntries(before, t.chains);
    answer := null;
  }

  method PerformPurge(t: IoMap, op: Op, e: Entry) returns (answer: Entry?)
    requires t.Loose() && Fine(ExtentOf(t)) && Served(ExtentOf(t), op)
    requires e.fd == KeyOf(op) && e.next == null && e !in Entries(t.chains) && op.Purge?
    modifies t, t.table, Entries(t.chains), e
    ensures t.Loose() && t.primeIdx == ExtentAfter(old(ExtentOf(t)), op).idx
    ensures Contents(t.chains) == After(old(Contents(t.chains)), op, e)
    ensures answer == Answer(old(Contents(t.chains)), op)
    ensures Entries(t.chains) <= old(Entries(t.chains)) + {e}
    ensures t.table == old(t.table) || fresh(t.table)
  {
    hide Unshared, Placed, HasKey, Represents, Prime, Contents, Purged;
    var unwanted := op.unwanted;
    var _ := t.ForEachFn((x: Entry) => unwanted(x.fd));
    PurgedContents(old(t.chains), t.chains, unwanted);
    answer := null;
  }

  lemma PurgedContents(cs: Chains, ds: Chains, unwanted: int -> bool)
    requires Unshared(cs) && Unshared(ds)
    requires forall e :: e in Entries(ds) <==> e in Entries(cs) && !unwanted(e.fd)
    ensures Contents(ds) == Purged(Contents(cs), unwanted)
  {
    ContentsFacts(cs);
    hide Unshared, HasKey;
    var m := Purged(Contents(cs), unwanted);
    forall fd | fd in m
      ensures fd in Keys(ds)
    {
      assert m[fd] in Entries(ds) && m[fd].fd == fd;
    }
    ContentsDetermined(ds, m);
  }

  /** Performs one operation with an entry of its own. */
  method PerformFresh(t: IoMap, op: Op) returns (answer: Entry?, e: Entry)
    requires t.Loose() && Fine(ExtentOf(t)) && Served(ExtentOf(t), op)
    modifies t, t.table, Entries(t.chains)
    ensures t.Loose() && fresh(e) && e.fd == KeyOf(op)
    ensures ExtentOf(t) == ExtentAfter(old(ExtentOf(t)), op)
    ensures Contents(t.chains) == After(old(Contents(t.chains)), op, e)
    ensures answer == Answer(old(Contents(t.chains)), op)
    ensures Entries(t.chains) <= old(Entries(t.chains)) + {e}
    ensures t.table == old(t.table) || fresh(t.table)
  {
    e := new Entry(KeyOf(op));
    hide Contents, After, Answer, Served, KeyOf, ExtentAfter;
    KeysAfter(Contents(t.chains), op, e, t.primeIdx);
    answer := Perform(t, op, e);
  }

  /** Performs a history on an empty table. */
  method Replay(t: IoMap, ops: seq<Op>) returns (answers: seq<Entry?>, made: seq<Entry>)
    requires t.Loose() && t.table == null && t.chains == [] && ExtentAll(ops).Some?
    modifies t
    ensures t.Loose() && |made| == |ops| && OnePerOp(ops, made)
    ensures answers == Answers(ops, made) && Contents(t.chains) == AfterAll(ops, made)
    ensures ExtentAll(ops) == Some(ExtentOf(t))
  {
    hide Unshared, Placed, Represents, Contents, HasKey, Prime, ExtentOf;
    hide OnePerOp, AfterAll, Answers, Served, KeyOf, After, Answer, ExtentAll, ExtentAfter;
    answers, made := [], [];
    NothingYet(t, ops);
    while |made| < |ops|
      invariant |made| <= |ops| && OnePerOp(ops, made)
      invariant t.Loose() && (t.table == null || fresh(t.table))
      invariant forall e :: e in made ==> fresh(e)
      invariant forall e :: e in Entries(t.chains) ==> e in made
      invariant answers == Answers(ops[..|made|], made)
      invariant Contents(t.chains) == AfterAll(ops[..|made|], made)
      invariant ExtentAll(ops[..|made|]) == Some(ExtentOf(t))
    {
      NextDefined(ops, |made|);
      var answer, e := PerformFresh(t, ops[|made|]);
      AnotherOp(ops, made, e);
      HistorySnoc(ops, made, e);
      answers, made := answers + [answer], made + [e];
    }
    assert ops[..|made|] == ops;
  }

  /** Every history whose calls are defined answers as the finite map does and leaves the map's contents, even
      where memory runs out. The debugging check passes exactly if the map fits the load limit of the prime
      that the history leads to; with ample memory, if it is no larger than half the last prime. */
  method RunHistory(hash: int -> nat, ops: seq<Op>)
    returns (answers: seq<Entry?>, made: seq<Entry>, count: nat, code: int)
    requires ExtentAll(ops).Some?
    ensures |made| == |ops| && OnePerOp(ops, made)
    ensures answers == Answers(ops, made)
    ensures count == |AfterAll(ops, made)|
    ensures AfterAll(ops, made).Keys == ExtentAll(ops).value.keys
    ensures code == 0 <==> |AfterAll(ops, made)| <= LimitOf(ExtentAll(ops).value.idx)
    ensures AllAmple(ops) ==> (code == 0 <==> |AfterAll(ops, made)| <= LAST_LIMIT)
  {
    hide AfterAll, Answers, OnePerOp, ExtentAll, AllAmple, LimitOf, Prime;
    hide Contents, HasKey, Unshared, Placed, Represents;
    var t := new IoMap(hash);
    answers, made := Replay(t, ops);
    ExtentFits(t);
    count := t.nEntries;
    code := t.RepIsBad();
    assert |AfterAll(ops, made).Keys| == |AfterAll(ops, made)|;
    if AllAmple(ops) {
      AmpleMemory(ops);
      SnugLimit(ExtentAll(ops).value);
    }
  }

  lemma SnugLimit(x: Extent)
    requires Fine(x) && Snug(x)
    ensures |x.keys| <= LimitOf(x.idx) <==> |x.keys| <= LAST_LIMIT
  {
    LastLimit();
    LimitsGrow(x.idx, LAST_PRIME);
    hide Prime;
  }

  /** Every prefix of a history whose calls are defined is such a history. */
  lemma {:induction false} NextDefined(ops: seq<Op>, k: nat)
    requires ExtentAll(ops).Some? && k < |ops|
    ensures var x := ExtentAll(ops[..k]);
            && x.Some? && Served(x.value, ops[k])
            && ExtentAll(ops[..k + 1]) == Some(ExtentAfter(x.value, ops[k]))
    decreases |ops|
  {
    hide Served, ExtentAfter;
    var init := ops[..|ops| - 1];
    if k == |init| {
      assert ops[..k + 1] == ops;
    } else {
      NextDefined(init, k);
      assert init[..k] == ops[..k] && init[..k + 1] == ops[..k + 1];
    }
  }

  /** Each operation has an entry of its own, carrying its key. */
  ghost predicate OnePerOp(ops: seq<Op>, made: seq<Entry>)
    requires |made| <= |ops|
  {
    && (forall k :: 0 <= k < |made| ==> made[k].fd == KeyOf(ops[k]))
    && (forall j, k :: 0 <= j < k < |made| ==> made[j] != made[k])
  }

  lemma AnotherOp(ops: seq<Op>, made: seq<Entry>, e: Entry)
    requires |made| < |ops| && OnePerOp(ops, made) && e !in made && e.fd == KeyOf(ops[|made|])
    ensures OnePerOp(ops, made + [e])
  {
  }

  lemma NothingYet(t: IoMap, ops: seq<Op>)
    requires t.Loose() && t.table == null && t.chains == []
    ensures Entries([]) == {} && Contents([]) == map[]
    ensures OnePerOp(ops, []) && ops[..0] == [] && Answers([], []) == [] && AfterAll([], []) == map[]
    ensures ExtentAll([]) == Some(ExtentOf(t))
  {
    assert Contents(t.chains) == map[];
    assert Contents(t.chains).Keys == {};
  }

  lemma HistorySnoc(ops: seq<Op>, made: seq<Entry>, e: Entry)
    requires |made| < |ops|
    ensures var k := |made|;
            && AfterAll(ops[..k + 1], made + [e]) == After(AfterAll(ops[..k], made), ops[k], e)
            && Answers(ops[..k + 1], made + [e]) == Answers(ops[..k], made) + [Answer(AfterAll(ops[..k], made), ops[k])]
  {
    hide After, Answer;
    var k := |made|;
    assert ops[..k + 1][..k] == ops[..k] && (made + [e])[..k] == made;
  }
}
