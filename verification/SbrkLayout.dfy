/** The heap of the sbrk allocator as a row of blocks, and what its operations do to the row. */
module SbrkLayout {
  import opened Common

  /** BLOCK_SZIE: the header in front of every data area. */
  const HEADER: nat := 40

  /** A remainder smaller than this is not split off. */
  const MIN_SPLIT: nat := HEADER + 8

  const TWO_64: nat := 0x1_0000_0000_0000_0000

  datatype Block = Block(addr: nat, size: nat, free: bool) {
    function Data(): nat { addr + HEADER }

    function End(): nat { addr + HEADER + size }
  }

  /** `align8` on a 64-bit `size_t`: the shift back left drops the carry. */
  function Align8(size: nat): nat
    requires size < TWO_64
  {
    if size % 8 == 0 then size else (size / 8 + 1) * 8 % TWO_64
  }

  /** `align8` is the least multiple of 8 that holds the request, except for the last seven sizes,
      which it sends to 0. */
  lemma Align8Exact(size: nat)
    requires size < TWO_64
    ensures size <= TWO_64 - 8 ==> Align8(size) % 8 == 0 && size <= Align8(size) < size + 8
    ensures size > TWO_64 - 8 <==> Align8(size) < size
    ensures size > TWO_64 - 8 ==> Align8(size) == 0
  {
    if size > TWO_64 - 8 {
      assert size / 8 == TWO_64 / 8 - 1;
    } else if size % 8 != 0 {
      assert size / 8 + 1 <= TWO_64 / 8 - 1;
    }
  }

  /** A size in whole 8-byte units. */
  predicate Units(n: nat) {
    n % 8 == 0 && n >= 8
  }

  lemma UnitsSplit(size: nat, a: nat)
    requires Units(size) && Units(a) && size >= a + MIN_SPLIT
    ensures Units(size - HEADER - a)
  {
  }

  lemma UnitsJoin(m: nat, n: nat)
    requires Units(m) && Units(n)
    ensures Units(m + HEADER + n)
  {
  }

  /** Blocks lie end to end up to the break, and data areas are whole numbers of 8-byte units. */
  ghost predicate Tiled(bs: seq<Block>, brk: nat) {
    forall k :: 0 <= k < |bs| ==> Fits(bs, k, brk)
  }

  ghost predicate Fits(bs: seq<Block>, k: nat, brk: nat)
    requires k < |bs|
  {
    bs[k].addr > 0 && Units(bs[k].size) && bs[k].End() == Edge(bs, k + 1, brk)
  }

  /** Where block `k` begins, or the break. */
  function Edge(bs: seq<Block>, k: nat, brk: nat): nat {
    if k < |bs| then bs[k].addr else brk
  }

  lemma {:induction false} TiledOrder(bs: seq<Block>, brk: nat, j: nat, k: nat)
    requires Tiled(bs, brk) && j < k <= |bs|
    ensures bs[j].End() <= Edge(bs, k, brk)
    decreases k - j
  {
    assert Fits(bs, j, brk);
    if j + 1 < k {
      TiledOrder(bs, brk, j + 1, k);
    }
  }

  /** No two neighbours are both free, and the block at the break is in use. */
  ghost predicate Settled(bs: seq<Block>) {
    && (forall k :: 0 <= k < |bs| - 1 ==> Apart(bs, k))
    && (bs != [] ==> !bs[|bs| - 1].free)
  }

  ghost predicate Apart(bs: seq<Block>, k: nat)
    requires k + 1 < |bs|
  {
    !(bs[k].free && bs[k + 1].free)
  }

  /** A free block has neighbours in use, on the right always. */
  lemma FreeNeighbours(bs: seq<Block>, k: nat)
    requires Settled(bs) && k < |bs| && bs[k].free
    ensures k + 1 < |bs| && !bs[k + 1].free && (k > 0 ==> !bs[k - 1].free)
  {
    assert k + 1 < |bs| ==> Apart(bs, k);
    assert k > 0 ==> Apart(bs, k - 1);
  }

  /** The blocks in use. */
  ghost function Live(bs: seq<Block>): set<Block> {
    set k | 0 <= k < |bs| && !bs[k].free :: bs[k]
  }

  /** Data areas in use overlap neither each other nor any header, and end below the break. */
  lemma LiveAreasDisjoint(bs: seq<Block>, brk: nat, b: Block, k: nat)
    requires Tiled(bs, brk) && b in Live(bs) && k < |bs|
    ensures b != bs[k] ==> b.End() <= bs[k].addr || bs[k].End() <= b.addr
    ensures b.End() <= brk && b.Data() == b.End() - b.size
  {
    var j :| 0 <= j < |bs| && bs[j] == b;
    assert Fits(bs, j, brk);
    TiledOrder(bs, brk, j, |bs|);
    if j < k {
      TiledOrder(bs, brk, j, k);
    } else if k < j {
      TiledOrder(bs, brk, k, j);
    }
  }

  /** Two different blocks in use. */
  lemma LiveApart(bs: seq<Block>, brk: nat, b: Block, c: Block)
    requires Tiled(bs, brk) && b in Live(bs) && c in Live(bs) && b != c
    ensures b.End() <= c.addr || c.End() <= b.addr
  {
    var k :| 0 <= k < |bs| && bs[k] == c;
    LiveAreasDisjoint(bs, brk, b, k);
  }

  // ---------- the moves ----------

  function Mark(bs: seq<Block>, k: nat, free: bool): seq<Block>
    requires k < |bs|
  {
    bs[k := bs[k].(free := free)]
  }

  /** block_split: the block keeps `a` bytes and a free block takes the rest. */
  function SplitAt(bs: seq<Block>, k: nat, a: nat): seq<Block>
    requires k < |bs| && bs[k].size >= a + HEADER
  {
    var b := bs[k];
    bs[..k] + [b.(size := a), Block(b.addr + HEADER + a, b.size - HEADER - a, true)] + bs[k + 1..]
  }

  /** block_merge: the block takes over its right neighbour. */
  function MergeAt(bs: seq<Block>, k: nat): seq<Block>
    requires k + 1 < |bs|
  {
    bs[..k] + [bs[k].(size := bs[k].size + HEADER + bs[k + 1].size)] + bs[k + 2..]
  }

  /** find_block: the first free block that is large enough. */
  function FirstFit(bs: seq<Block>, a: nat): (r: Option<nat>)
    ensures r.Some? ==> r.value < |bs| && bs[r.value].free && bs[r.value].size >= a
    ensures forall k :: 0 <= k < |bs| && (r.Some? ==> k < r.value) ==> !(bs[k].free && bs[k].size >= a)
  {
    if bs == [] then None
    else if bs[0].free && bs[0].size >= a then Some(0)
    else
      match FirstFit(bs[1..], a)
      case None => None
      case Some(k) => Some(k + 1)
  }

  predicate Splits(bs: seq<Block>, a: nat) {
    var fit := FirstFit(bs, a);
    fit.Some? && bs[fit.value].size - a >= MIN_SPLIT
  }

  /** The row after a request for `a` bytes has been served. */
  function Served(bs: seq<Block>, brk: nat, a: nat): seq<Block> {
    match FirstFit(bs, a)
    case None => bs + [Block(brk, a, false)]
    case Some(k) => Mark(if Splits(bs, a) then SplitAt(bs, k, a) else bs, k, false)
  }

  function ServedBlock(bs: seq<Block>, brk: nat, a: nat): Block {
    match FirstFit(bs, a)
    case None => Block(brk, a, false)
    case Some(k) => Block(bs[k].addr, if Splits(bs, a) then a else bs[k].size, false)
  }

  function ServedBreak(bs: seq<Block>, brk: nat, a: nat): nat {
    if FirstFit(bs, a).None? then brk + HEADER + a else brk
  }

  /** my_free up to the release of the top: mark, join with a free predecessor, join with a free
      successor. The result says where the joined block is. */
  function Joined(bs: seq<Block>, k: nat): (r: (seq<Block>, nat))
    requires k < |bs|
    ensures r.1 < |r.0| && r.0[r.1].free
  {
    var b1 := Mark(bs, k, true);
    var (b2, k2) := if k > 0 && b1[k - 1].free then (MergeAt(b1, k - 1), k - 1) else (b1, k);
    (if k2 + 1 < |b2| && b2[k2 + 1].free then MergeAt(b2, k2) else b2, k2)
  }

  /** The joined block is at the break and goes back to the system. */
  predicate Releases(bs: seq<Block>, k: nat)
    requires k < |bs|
  {
    var (b3, k3) := Joined(bs, k);
    k3 + 1 == |b3|
  }

  function Freed(bs: seq<Block>, k: nat): seq<Block>
    requires k < |bs|
  {
    var (b3, k3) := Joined(bs, k);
    if k3 + 1 == |b3| then b3[..k3] else b3
  }

  function FreedBreak(bs: seq<Block>, k: nat, brk: nat): nat
    requires k < |bs|
  {
    var (b3, k3) := Joined(bs, k);
    if k3 + 1 == |b3| then b3[k3].addr else brk
  }

  // ---------- what the moves are, block by block ----------

  /** Block `k` is the first free one that is large enough; with `k == |bs|` there is none. */
  predicate FirstLarge(bs: seq<Block>, a: nat, k: nat) {
    && k <= |bs| && (k < |bs| ==> bs[k].free && bs[k].size >= a)
    && forall j :: 0 <= j < k ==> !bs[j].free || bs[j].size < a
  }

  /** A request takes the first free block that is large enough: of exactly the size asked for, with the rest
      as a free block behind it, if and only if the rest has room for a header and 8 bytes, and else as it
      is. Without such a block it takes a new one of exactly that size at the break. */
  lemma ServedExactly(bs: seq<Block>, brk: nat, a: nat, k: nat)
    requires FirstLarge(bs, a, k)
    ensures var cs, b := Served(bs, brk, a), ServedBlock(bs, brk, a);
            if k == |bs| then
              b == Block(brk, a, false) && cs == bs + [b] && ServedBreak(bs, brk, a) == brk + HEADER + a
            else
              var rest := bs[k].size - a;
              && ServedBreak(bs, brk, a) == brk && cs[..k] == bs[..k] && cs[k] == b
              && b == Block(bs[k].addr, if rest >= HEADER + 8 then a else a + rest, false)
              && if rest >= HEADER + 8 then
                   cs[k + 1..] == [Block(bs[k].addr + HEADER + a, rest - HEADER, true)] + bs[k + 1..]
                 else cs[k + 1..] == bs[k + 1..]
  {
    assert k == match FirstFit(bs, a) { case None => |bs| case Some(j) => j };
  }

  /** The size of blocks `l` to `r` taken as one. */
  function Joint(bs: seq<Block>, l: nat, r: nat): nat
    requires l <= r < |bs|
    decreases r - l
  {
    bs[l].size + if l < r then HEADER + Joint(bs, l + 1, r) else 0
  }

  /** Freeing joins the block with a free one before it and a free one behind it; what reaches the break goes
      back to the system. */
  lemma FreedExactly(bs: seq<Block>, brk: nat, k: nat)
    requires k < |bs|
    ensures var l := if k > 0 && bs[k - 1].free then k - 1 else k;
            var r := if k + 1 < |bs| && bs[k + 1].free then k + 1 else k;
            if r + 1 == |bs| then Freed(bs, k) == bs[..l] && FreedBreak(bs, k, brk) == bs[l].addr
            else
              && Freed(bs, k) == bs[..l] + [Block(bs[l].addr, Joint(bs, l, r), true)] + bs[r + 1..]
              && FreedBreak(bs, k, brk) == brk
  {
    var l := if k > 0 && bs[k - 1].free then k - 1 else k;
    var r := if k + 1 < |bs| && bs[k + 1].free then k + 1 else k;
    hide Joined, Joint, Freed, FreedBreak;
    JoinedExactly(bs, k, l, r);
    var b := Block(bs[l].addr, Joint(bs, l, r), true);
    FreedFrom(bs, k, brk, bs[..l] + [b] + bs[r + 1..], l);
    Parts(bs[..l], b, bs[r + 1..]);
  }

  lemma FreedFrom(bs: seq<Block>, k: nat, brk: nat, row: seq<Block>, l: nat)
    requires k < |bs| && Joined(bs, k) == (row, l)
    ensures Freed(bs, k) == (if l + 1 == |row| then row[..l] else row)
    ensures l < |row| && FreedBreak(bs, k, brk) == if l + 1 == |row| then row[l].addr else brk
  {
    hide Joined;
  }

  lemma Parts(front: seq<Block>, b: Block, back: seq<Block>)
    ensures var row := front + [b] + back;
            && |row| == |front| + 1 + |back| && row[..|front|] == front && row[|front|] == b
            && (back == [] ==> row == front + [b])
  {
  }

  lemma JoinedExactly(bs: seq<Block>, k: nat, l: nat, r: nat)
    requires k < |bs| && l == (if k > 0 && bs[k - 1].free then k - 1 else k)
    requires r == if k + 1 < |bs| && bs[k + 1].free then k + 1 else k
    ensures Joined(bs, k) == (bs[..l] + [Block(bs[l].addr, Joint(bs, l, r), true)] + bs[r + 1..], l)
  {
    var b1 := Mark(bs, k, true);
    LeftJoined(bs, k);
    var b2 := if l < k then MergeAt(b1, k - 1) else b1;
    RightJoined(bs, b2, k, l);
    hide MergeAt, Mark;
  }

  /** The block joined with the one before it. */
  lemma LeftJoined(bs: seq<Block>, k: nat)
    requires k < |bs|
    ensures Mark(bs, k, true) == bs[..k] + [Block(bs[k].addr, Joint(bs, k, k), true)] + bs[k + 1..]
    ensures k > 0 && bs[k - 1].free ==>
              && MergeAt(Mark(bs, k, true), k - 1)
                 == bs[..k - 1] + [Block(bs[k - 1].addr, Joint(bs, k - 1, k), true)] + bs[k + 1..]
  {
    if k > 0 && bs[k - 1].free {
      assert Joint(bs, k - 1, k) == bs[k - 1].size + HEADER + bs[k].size;
    }
  }

  /** And with the one behind it. */
  lemma RightJoined(bs: seq<Block>, b2: seq<Block>, k: nat, l: nat)
    requires l <= k < |bs| && k <= l + 1
    requires b2 == bs[..l] + [Block(bs[l].addr, Joint(bs, l, k), true)] + bs[k + 1..]
    ensures l + 1 < |b2| <==> k + 1 < |bs|
    ensures k + 1 < |bs| ==>
              && b2[l + 1] == bs[k + 1]
              && MergeAt(b2, l) == bs[..l] + [Block(bs[l].addr, Joint(bs, l, k + 1), true)] + bs[k + 2..]
  {
    if k + 1 < |bs| {
      assert Joint(bs, l, k + 1) == Joint(bs, l, k) + HEADER + bs[k + 1].size by {
        assert Joint(bs, k, k + 1) == bs[k].size + (HEADER + bs[k + 1].size);
      }
      hide Joint;
      assert b2[l] == Block(bs[l].addr, Joint(bs, l, k), true);
      assert b2[..l] == bs[..l] && b2[l + 2..] == bs[k + 2..];
    }
  }

  // ---------- what the moves keep ----------

  lemma SplitTiled(bs: seq<Block>, brk: nat, k: nat, a: nat)
    requires Tiled(bs, brk) && k < |bs| && bs[k].size >= a + MIN_SPLIT && Units(a)
    ensures Tiled(SplitAt(bs, k, a), brk)
  {
    var cs := SplitAt(bs, k, a);
    assert Fits(bs, k, brk);
    UnitsSplit(bs[k].size, a);
    hide Units;
    assert cs[k].size == a && cs[k + 1].size == bs[k].size - HEADER - a;
    forall j | 0 <= j < |cs|
      ensures Fits(cs, j, brk)
    {
      if j < k {
        assert Fits(bs, j, brk) && cs[j] == bs[j];
      } else if j > k + 1 {
        assert Fits(bs, j - 1, brk) && cs[j] == bs[j - 1];
      }
    }
  }

  lemma MergeTiled(bs: seq<Block>, brk: nat, k: nat)
    requires Tiled(bs, brk) && k + 1 < |bs|
    ensures Tiled(MergeAt(bs, k), brk)
  {
    var cs := MergeAt(bs, k);
    assert Fits(bs, k, brk) && Fits(bs, k + 1, brk);
    UnitsJoin(bs[k].size, bs[k + 1].size);
    hide Units;
    assert cs[k].size == bs[k].size + HEADER + bs[k + 1].size;
    forall j | 0 <= j < |cs|
      ensures Fits(cs, j, brk)
    {
      if j < k {
        assert Fits(bs, j, brk) && cs[j] == bs[j];
      } else if j > k {
        assert Fits(bs, j + 1, brk) && cs[j] == bs[j + 1];
      }
    }
  }

  lemma MarkTiled(bs: seq<Block>, brk: nat, k: nat, free: bool)
    requires Tiled(bs, brk) && k < |bs|
    ensures Tiled(Mark(bs, k, free), brk)
  {
    hide Units;
    var cs := Mark(bs, k, free);
    forall j | 0 <= j < |cs|
      ensures Fits(cs, j, brk)
    {
      assert Fits(bs, j, brk);
    }
  }

  lemma AddrUnique(bs: seq<Block>, brk: nat, j: nat, k: nat)
    requires Tiled(bs, brk) && j < k <= |bs|
    ensures bs[j].addr < Edge(bs, k, brk)
  {
    TiledOrder(bs, brk, j, k);
  }

  lemma ServedTiled(bs: seq<Block>, brk: nat, a: nat)
    requires Tiled(bs, brk) && Units(a) && brk > 0
    ensures Tiled(Served(bs, brk, a), ServedBreak(bs, brk, a))
  {
    hide Units;
    match FirstFit(bs, a)
    case None =>
      var cs, top := Served(bs, brk, a), brk + HEADER + a;
      forall j | 0 <= j < |cs|
        ensures Fits(cs, j, top)
      {
        assert j < |bs| ==> Fits(bs, j, brk);
      }
    case Some(k) =>
      if Splits(bs, a) {
        SplitTiled(bs, brk, k, a);
        MarkTiled(SplitAt(bs, k, a), brk, k, false);
      } else {
        MarkTiled(bs, brk, k, false);
      }
  }

  lemma MarkSettled(bs: seq<Block>, k: nat)
    requires Settled(bs) && k < |bs|
    ensures Settled(Mark(bs, k, false))
  {
    var cs := Mark(bs, k, false);
    forall j | 0 <= j < |cs| - 1
      ensures Apart(cs, j)
    {
      assert Apart(bs, j);
    }
  }

  lemma SplitSettled(bs: seq<Block>, k: nat, a: nat)
    requires Settled(bs) && k < |bs| && bs[k].free && bs[k].size >= a + HEADER
    ensures Settled(Mark(SplitAt(bs, k, a), k, false))
  {
    var cs := Mark(SplitAt(bs, k, a), k, false);
    FreeNeighbours(bs, k);
    assert forall j :: 0 <= j < k ==> cs[j] == bs[j];
    assert forall j :: k + 2 <= j < |cs| ==> cs[j] == bs[j - 1];
    forall j | 0 <= j < |cs| - 1
      ensures Apart(cs, j)
    {
      if j + 1 < k {
        assert Apart(bs, j);
      } else if j > k + 1 {
        assert Apart(bs, j - 1);
      }
    }
  }

  lemma ServedSettled(bs: seq<Block>, brk: nat, a: nat)
    requires Settled(bs)
    ensures Settled(Served(bs, brk, a))
  {
    match FirstFit(bs, a)
    case None =>
      var cs := Served(bs, brk, a);
      forall j | 0 <= j < |cs| - 1
        ensures Apart(cs, j)
      {
        assert j + 1 < |bs| ==> Apart(bs, j);
      }
    case Some(k) =>
      if Splits(bs, a) {
        SplitSettled(bs, k, a);
      } else {
        MarkSettled(bs, k);
      }
  }

  /** Serving a request keeps the row tiled and settled and adds exactly the block handed out, which
      is new and large enough but wastes less than a split would save. */
  lemma ServedKeeps(bs: seq<Block>, brk: nat, a: nat)
    requires Tiled(bs, brk) && Settled(bs) && Units(a) && brk > 0
    ensures Tiled(Served(bs, brk, a), ServedBreak(bs, brk, a)) && Settled(Served(bs, brk, a))
    ensures Live(Served(bs, brk, a)) == Live(bs) + {ServedBlock(bs, brk, a)}
    ensures forall b :: b in Live(bs) ==> b.addr != ServedBlock(bs, brk, a).addr
    ensures a <= ServedBlock(bs, brk, a).size
    ensures FirstFit(bs, a).Some? ==> ServedBlock(bs, brk, a).size < a + MIN_SPLIT
  {
    ServedTiled(bs, brk, a);
    ServedSettled(bs, brk, a);
    var new_ := ServedBlock(bs, brk, a);
    forall b | b in Live(bs)
      ensures b.addr != new_.addr
    {
      var j :| 0 <= j < |bs| && !bs[j].free && bs[j] == b;
      match FirstFit(bs, a)
      case None => AddrUnique(bs, brk, j, |bs|);
      case Some(k) => AddrUnique(bs, brk, if j < k then j else k, if j < k then k else j);
    }
    ServedLive(bs, brk, a);
  }

  lemma ServedLive(bs: seq<Block>, brk: nat, a: nat)
    ensures Live(Served(bs, brk, a)) == Live(bs) + {ServedBlock(bs, brk, a)}
  {
    var b, cs := ServedBlock(bs, brk, a), Served(bs, brk, a);
    match FirstFit(bs, a)
    case None =>
      assert forall k :: 0 <= k < |bs| ==> cs[k] == bs[k];
      assert cs[|bs|] == b;
    case Some(k) =>
      if Splits(bs, a) {
        assert forall j :: k + 1 < j < |cs| ==> cs[j] == bs[j - 1];
        LiveShift(bs, cs, k, b);
      } else {
        LiveMark(bs, k);
      }
  }

  lemma LiveMark(bs: seq<Block>, k: nat)
    requires k < |bs| && bs[k].free
    ensures Live(Mark(bs, k, false)) == Live(bs) + {bs[k].(free := false)}
  {
    var cs := Mark(bs, k, false);
    assert cs[k] == bs[k].(free := false);
    forall b | b in Live(bs)
      ensures b in Live(cs)
    {
      var j :| 0 <= j < |bs| && !bs[j].free && bs[j] == b;
      assert cs[j] == b;
    }
  }

  lemma LiveShift(bs: seq<Block>, cs: seq<Block>, k: nat, b: Block)
    requires k < |bs| && bs[k].free && |cs| == |bs| + 1 && cs[k] == b && !b.free && cs[k + 1].free
    requires forall j :: 0 <= j < k ==> cs[j] == bs[j]
    requires forall j :: k + 1 < j < |cs| ==> cs[j] == bs[j - 1]
    ensures Live(cs) == Live(bs) + {b}
  {
    forall x | x in Live(bs)
      ensures x in Live(cs)
    {
      var j :| 0 <= j < |bs| && !bs[j].free && bs[j] == x;
      assert cs[if j < k then j else j + 1] == x;
    }
  }

  // ---------- freeing ----------

  lemma JoinedTiled(bs: seq<Block>, brk: nat, k: nat)
    requires Tiled(bs, brk) && k < |bs|
    ensures Tiled(Joined(bs, k).0, brk)
  {
    var b1 := Mark(bs, k, true);
    MarkTiled(bs, brk, k, true);
    var b2, k2 := b1, k;
    if k > 0 && b1[k - 1].free {
      MergeTiled(b1, brk, k - 1);
      b2, k2 := MergeAt(b1, k - 1), k - 1;
    }
    if k2 + 1 < |b2| && b2[k2 + 1].free {
      MergeTiled(b2, brk, k2);
    }
  }

  /** The joined blocks are `lo` up to, not including, `hi`. */
  function JoinLo(bs: seq<Block>, k: nat): nat
    requires k < |bs|
  {
    if k > 0 && bs[k - 1].free then k - 1 else k
  }

  function JoinHi(bs: seq<Block>, k: nat): nat
    requires k < |bs|
  {
    if k + 1 < |bs| && bs[k + 1].free then k + 2 else k + 1
  }

  /** Up to three blocks around `k` become one; the blocks on either side stay. */
  lemma JoinedShape(bs: seq<Block>, k: nat)
    requires k < |bs|
    ensures Joined(bs, k).1 == JoinLo(bs, k) && Joined(bs, k).0[JoinLo(bs, k)].addr == bs[JoinLo(bs, k)].addr
    ensures Joined(bs, k).0 == bs[..JoinLo(bs, k)] + [Joined(bs, k).0[JoinLo(bs, k)]] + bs[JoinHi(bs, k)..]
  {
    var b1 := Mark(bs, k, true);
    if k > 0 && b1[k - 1].free {
      var b2 := MergeAt(b1, k - 1);
      assert b2[..k - 1] == bs[..k - 1] && b2[k..] == bs[k + 1..];
      if k < |b2| && b2[k].free {
        assert b2[k + 1..] == bs[k + 2..];
      }
    } else if k + 1 < |b1| && b1[k + 1].free {
      assert b1[k + 2..] == bs[k + 2..] && b1[..k] == bs[..k];
    }
  }

  lemma MergeShape(bs: seq<Block>, k: nat)
    requires k + 1 < |bs|
    ensures var cs := MergeAt(bs, k);
            && |cs| == |bs| - 1 && cs[k].addr == bs[k].addr && cs[k].free == bs[k].free
            && (forall j :: 0 <= j < k ==> cs[j] == bs[j])
            && (forall j :: k < j < |cs| ==> cs[j] == bs[j + 1])
  {
  }

  /** What takes the place of the joined blocks: one free block, or nothing at the top. */
  function Remainder(bs: seq<Block>, k: nat): seq<Block>
    requires k < |bs|
  {
    var (b3, k3) := Joined(bs, k);
    if JoinHi(bs, k) == |bs| then [] else [b3[k3]]
  }

  lemma FreedShape(bs: seq<Block>, k: nat)
    requires k < |bs|
    ensures Freed(bs, k) == bs[..JoinLo(bs, k)] + Remainder(bs, k) + bs[JoinHi(bs, k)..]
  {
    JoinedShape(bs, k);
  }

  lemma SettledSlices(bs: seq<Block>, lo: nat, hi: nat)
    requires Settled(bs) && lo <= hi <= |bs|
    ensures Settled(bs[hi..]) && (lo > 0 ==> !bs[lo - 1].free ==> Settled(bs[..lo]))
  {
    forall j | 0 <= j < |bs| - hi - 1
      ensures Apart(bs[hi..], j)
    {
      assert Apart(bs, hi + j);
    }
    forall j | 0 <= j < lo - 1
      ensures Apart(bs[..lo], j)
    {
      assert Apart(bs, j);
    }
  }

  /** Two settled rows side by side, or with one free block between them. */
  lemma SettledConcat(s: seq<Block>, mid: seq<Block>, t: seq<Block>)
    requires Settled(s) && Settled(t) && |mid| <= 1
    requires t == [] ==> mid == []
    requires t != [] ==> mid == [] || !t[0].free
    ensures Settled(s + mid + t)
  {
    var cs := s + mid + t;
    forall j | 0 <= j < |cs| - 1
      ensures Apart(cs, j)
    {
      if j + 1 < |s| {
        assert Apart(s, j);
      } else if j >= |s| + |mid| {
        assert Apart(t, j - |s| - |mid|);
      }
    }
  }

  lemma FreedSettled(bs: seq<Block>, k: nat)
    requires Settled(bs) && k < |bs|
    ensures Settled(Freed(bs, k))
  {
    FreedShape(bs, k);
    JoinEdges(bs, k);
    var lo, hi := JoinLo(bs, k), JoinHi(bs, k);
    SettledSlices(bs, lo, hi);
    assert lo == 0 ==> bs[..lo] == [];
    hide Freed, Joined, JoinLo, JoinHi;
    SettledConcat(bs[..lo], Remainder(bs, k), bs[hi..]);
  }

  /** The blocks on either side of the joined ones are in use. */
  lemma JoinEdges(bs: seq<Block>, k: nat)
    requires Settled(bs) && k < |bs|
    ensures JoinLo(bs, k) > 0 ==> !bs[JoinLo(bs, k) - 1].free
    ensures JoinHi(bs, k) < |bs| ==> !bs[JoinHi(bs, k)].free
    ensures JoinHi(bs, k) == |bs| <==> k == |bs| - 1
  {
    if k > 0 && bs[k - 1].free {
      FreeNeighbours(bs, k - 1);
    }
    if k + 1 < |bs| && bs[k + 1].free {
      FreeNeighbours(bs, k + 1);
    }
  }

  /** Under the invariant only the topmost block is ever released. */
  lemma ReleasesTopOnly(bs: seq<Block>, k: nat)
    requires Settled(bs) && k < |bs|
    ensures Releases(bs, k) <==> k == |bs| - 1
  {
    JoinedShape(bs, k);
    JoinEdges(bs, k);
  }

  lemma FreedTiled(bs: seq<Block>, brk: nat, k: nat)
    requires Tiled(bs, brk) && k < |bs| && brk > 0
    ensures Tiled(Freed(bs, k), FreedBreak(bs, k, brk)) && FreedBreak(bs, k, brk) > 0
  {
    var (b3, k3) := Joined(bs, k);
    JoinedTiled(bs, brk, k);
    assert Fits(b3, k3, brk);
    if k3 + 1 == |b3| {
      var top := b3[k3].addr;
      forall j | 0 <= j < k3
        ensures Fits(b3[..k3], j, top)
      {
        assert Fits(b3, j, brk);
      }
    }
  }

  lemma LiveConcat(s: seq<Block>, t: seq<Block>)
    ensures Live(s + t) == Live(s) + Live(t)
  {
    forall b | b in Live(s) + Live(t)
      ensures b in Live(s + t)
    {
      if b in Live(s) {
        var j :| 0 <= j < |s| && !s[j].free && s[j] == b;
        assert (s + t)[j] == b;
      } else {
        var j :| 0 <= j < |t| && !t[j].free && t[j] == b;
        assert (s + t)[|s| + j] == b;
      }
    }
  }

  lemma FreedLive(bs: seq<Block>, brk: nat, k: nat)
    requires Tiled(bs, brk) && k < |bs| && !bs[k].free
    ensures Live(Freed(bs, k)) == Live(bs) - {bs[k]}
  {
    var lo, hi := JoinLo(bs, k), JoinHi(bs, k);
    var s, joined, t := bs[..lo], bs[lo..hi], bs[hi..];
    assert lo <= k < hi <= |bs|;
    hide Freed, Joined, Remainder, Live, Tiled, JoinLo, JoinHi;
    JoinedLive(bs, k);
    OnlyAt(bs, brk, k, lo, hi);
    FreedShape(bs, k);
    ThreeParts(bs, lo, hi);
    LiveReplace(s, joined, Remainder(bs, k), t, bs[k]);
  }

  lemma ThreeParts(bs: seq<Block>, lo: nat, hi: nat)
    requires lo <= hi <= |bs|
    ensures bs == bs[..lo] + bs[lo..hi] + bs[hi..]
  {
  }

  lemma LiveReplace(s: seq<Block>, joined: seq<Block>, mid: seq<Block>, t: seq<Block>, b: Block)
    requires Live(joined) == {b} && Live(mid) == {} && b !in Live(s) && b !in Live(t)
    ensures Live(s + mid + t) == Live(s + joined + t) - {b}
  {
    LiveConcat(s, joined);
    LiveConcat(s + joined, t);
    LiveConcat(s, mid);
    LiveConcat(s + mid, t);
  }

  lemma JoinedLive(bs: seq<Block>, k: nat)
    requires k < |bs| && !bs[k].free
    ensures Live(bs[JoinLo(bs, k)..JoinHi(bs, k)]) == {bs[k]} && Live(Remainder(bs, k)) == {}
  {
    assert bs[JoinLo(bs, k)..JoinHi(bs, k)][k - JoinLo(bs, k)] == bs[k];
  }

  lemma OnlyAt(bs: seq<Block>, brk: nat, k: nat, lo: nat, hi: nat)
    requires Tiled(bs, brk) && lo <= k < hi <= |bs|
    ensures bs[k] !in Live(bs[..lo]) && bs[k] !in Live(bs[hi..])
  {
    forall j | 0 <= j < lo
      ensures bs[..lo][j] != bs[k]
    {
      AddrUnique(bs, brk, j, k);
    }
    forall j | 0 <= j < |bs| - hi
      ensures bs[hi..][j] != bs[k]
    {
      AddrUnique(bs, brk, k, hi + j);
    }
  }

  /** A second free of the same block changes nothing. */
  lemma FreedTwice(bs: seq<Block>, brk: nat, k: nat)
    requires Settled(bs) && k < |bs| && bs[k].free
    ensures Freed(bs, k) == bs && FreedBreak(bs, k, brk) == brk
  {
    FreeNeighbours(bs, k);
    assert Mark(bs, k, true) == bs;
  }

  /** Freeing keeps the row tiled and settled and gives up exactly the one block. */
  lemma FreedKeeps(bs: seq<Block>, brk: nat, k: nat)
    requires Tiled(bs, brk) && Settled(bs) && k < |bs| && brk > 0
    ensures Tiled(Freed(bs, k), FreedBreak(bs, k, brk)) && Settled(Freed(bs, k))
    ensures 0 < FreedBreak(bs, k, brk) <= brk
    ensures Live(Freed(bs, k)) == Live(bs) - {bs[k]}
  {
    FreedTiled(bs, brk, k);
    FreedSettled(bs, k);
    JoinedTiled(bs, brk, k);
    assert Fits(Joined(bs, k).0, Joined(bs, k).1, brk);
    hide Tiled, Settled, Freed;
    if bs[k].free {
      FreedTwice(bs, brk, k);
      assert bs[k] !in Live(bs);
    } else {
      hide Live;
      FreedLive(bs, brk, k);
    }
  }

  function ServedIndex(bs: seq<Block>, a: nat): nat {
    if FirstFit(bs, a).Some? then FirstFit(bs, a).value else |bs|
  }

  /** Freeing what a request has just taken undoes the request: the row and the break are as before. */
  lemma ServeThenFree(bs: seq<Block>, brk: nat, a: nat)
    requires Settled(bs)
    ensures var cs, k := Served(bs, brk, a), ServedIndex(bs, a);
            && k < |cs| && cs[k] == ServedBlock(bs, brk, a)
            && Freed(cs, k) == bs && FreedBreak(cs, k, ServedBreak(bs, brk, a)) == brk
  {
    match FirstFit(bs, a)
    case None =>
      AppendThenFree(bs, Block(brk, a, false));
    case Some(k) =>
      FreeNeighbours(bs, k);
      if Splits(bs, a) {
        SplitThenFree(bs, k, a);
      } else {
        assert Mark(Mark(bs, k, false), k, true) == bs;
      }
  }

  lemma AppendThenFree(bs: seq<Block>, b: Block)
    requires Settled(bs)
    ensures var cs := bs + [b];
            && Joined(cs, |bs|).1 == |bs| && |Joined(cs, |bs|).0| == |bs| + 1
            && Freed(cs, |bs|) == bs && Joined(cs, |bs|).0[|bs|].addr == b.addr
  {
    var cs := bs + [b];
    JoinedShape(cs, |bs|);
    FreedShape(cs, |bs|);
  }

  lemma SplitThenFree(bs: seq<Block>, k: nat, a: nat)
    requires k + 1 < |bs| && bs[k].free && !bs[k + 1].free && (k > 0 ==> !bs[k - 1].free) && bs[k].size >= a + HEADER
    ensures Joined(Mark(SplitAt(bs, k, a), k, false), k) == (bs, k)
  {
    var cs := Mark(SplitAt(bs, k, a), k, false);
    JoinedShape(cs, k);
    SplitJoined(bs, k, a);
    assert cs[..k] == bs[..k] && cs[k + 2..] == bs[k + 1..] && cs[k + 1].free;
    hide Joined, SplitAt;
    assert bs == bs[..k] + [bs[k]] + bs[k + 1..];
  }

  lemma SplitJoined(bs: seq<Block>, k: nat, a: nat)
    requires k < |bs| && bs[k].free && (k > 0 ==> !bs[k - 1].free) && bs[k].size >= a + HEADER
    ensures var cs := Mark(SplitAt(bs, k, a), k, false);
            Joined(cs, k).1 == k && Joined(cs, k).0[k] == bs[k]
  {
    var cs := Mark(SplitAt(bs, k, a), k, false);
    assert cs[k] == Block(bs[k].addr, a, false);
    assert cs[k + 1] == Block(bs[k].addr + HEADER + a, bs[k].size - HEADER - a, true);
    assert k > 0 ==> cs[k - 1] == bs[k - 1];
  }
}
