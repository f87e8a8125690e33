/** The sbrk allocator itself: headers linked in both directions, kept in memory below the break. */
module SbrkHeap {
  import opened Common
  import opened SbrkLayout

  /** `struct block` without its data; 0 is the NULL pointer. */
  datatype Header = Header(size: nat, prev: nat, next: nat, free: bool, magic: nat)

  /** Requests above this would make the signed argument of `sbrk` overflow. */
  const MAX_REQUEST: nat := 0x7fff_ffff_ffff_ff00

  function AddrAt(bs: seq<Block>, k: int): nat {
    if 0 <= k < |bs| then bs[k].addr else 0
  }

  /** The header block `k` should have. */
  function HeaderAt(bs: seq<Block>, k: nat): Header
    requires k < |bs|
  {
    Header(bs[k].size, AddrAt(bs, k - 1), AddrAt(bs, k + 1), bs[k].free, bs[k].Data())
  }

  ghost predicate Holds(hdr: map<nat, Header>, bs: seq<Block>, k: nat)
    requires k < |bs|
  {
    bs[k].addr in hdr && hdr[bs[k].addr] == HeaderAt(bs, k)
  }

  /** The headers in memory are those of the row, linked both ways, and there are no others. */
  ghost predicate Represents(hdr: map<nat, Header>, bs: seq<Block>) {
    && (forall k :: 0 <= k < |bs| ==> Holds(hdr, bs, k))
    && (forall a :: a in hdr ==> exists k :: 0 <= k < |bs| && bs[k].addr == a)
  }

  ghost predicate SameOn(m: int -> int, n: int -> int, b: Block) {
    forall x: int :: b.Data() <= x < b.End() ==> m(x) == n(x)
  }

  /** Memory `n` is `m` with zeros from `from` up to, not including, `to`. */
  ghost predicate ZeroedOn(m: int -> int, n: int -> int, from: int, to: int) {
    forall x: int :: n(x) == if from <= x < to then 0 else m(x)
  }

  // ---------- what editing headers does to the row ----------

  /** The header writes of block_split; `relinked` adds the missing one, to the block that follows. */
  function SplitHeaders(hdr: map<nat, Header>, ptr: nat, a: nat, relinked: bool): map<nat, Header>
    requires ptr in hdr && hdr[ptr].size >= a + HEADER
  {
    var newptr, h := ptr + HEADER + a, hdr[ptr];
    var split := hdr[newptr := Header(h.size - HEADER - a, ptr, h.next, true, newptr + HEADER)]
                    [ptr := h.(size := a, next := newptr)];
    if relinked && h.next != 0 && h.next in split then split[h.next := split[h.next].(prev := newptr)] else split
  }

  lemma SplitRepresents(hdr: map<nat, Header>, bs: seq<Block>, brk: nat, k: nat, a: nat, relinked: bool)
    requires Represents(hdr, bs) && Tiled(bs, brk) && k < |bs| && bs[k].size >= a + MIN_SPLIT && Units(a)
    requires Holds(hdr, bs, k)
    ensures Represents(SplitHeaders(hdr, bs[k].addr, a, relinked), SplitAt(bs, k, a)) <==> relinked || k + 1 == |bs|
  {
    hide Units;
    assert Holds(hdr, bs, k);
    var cs, newptr := SplitAt(bs, k, a), bs[k].addr + HEADER + a;
    var hdr' := SplitHeaders(hdr, bs[k].addr, a, relinked);
    assert cs[k + 1].addr == newptr;
    assert Fits(bs, k, brk);
    if k + 1 < |bs| {
      assert Holds(hdr, bs, k + 1) && cs[k + 2] == bs[k + 1];
      assert !relinked ==> !Holds(hdr', cs, k + 2);
    }
    forall j | 0 <= j < |cs| && (j != k + 2 || relinked)
      ensures Holds(hdr', cs, j)
    {
      SplitHolds(hdr, bs, brk, k, a, relinked, j);
    }
    forall x | x in hdr'
      ensures exists j :: 0 <= j < |cs| && cs[j].addr == x
    {
      if x == newptr {
        assert cs[k + 1].addr == x;
      } else {
        var j :| 0 <= j < |bs| && bs[j].addr == x;
        assert cs[if j <= k then j else j + 1].addr == x;
      }
    }
  }

  lemma SplitHolds(hdr: map<nat, Header>, bs: seq<Block>, brk: nat, k: nat, a: nat, relinked: bool, j: nat)
    requires Represents(hdr, bs) && Tiled(bs, brk) && k < |bs| && bs[k].size >= a + MIN_SPLIT
    requires Holds(hdr, bs, k) && j <= |bs| && (j != k + 2 || relinked)
    ensures Holds(SplitHeaders(hdr, bs[k].addr, a, relinked), SplitAt(bs, k, a), j)
  {
    hide Units;
    var i := if j <= k then j else j - 1;
    assert Holds(hdr, bs, i) && Holds(hdr, bs, k) && Fits(bs, k, brk);
    if i < k {
      AddrUnique(bs, brk, i, k);
    } else if k < i {
      TiledOrder(bs, brk, k, i);
      if k + 1 < i {
        AddrUnique(bs, brk, k + 1, i);
      }
      assert Holds(hdr, bs, k + 1);
    }
    if k + 1 < |bs| && i < k + 1 {
      AddrUnique(bs, brk, i, k + 1);
    }
  }

  /** Without the update the block behind a split still has the split block, not the new one, before it. */
  lemma SplitStale(hdr: map<nat, Header>, bs: seq<Block>, brk: nat, k: nat, a: nat)
    requires Represents(hdr, bs) && Tiled(bs, brk) && k + 1 < |bs| && bs[k].size >= a + MIN_SPLIT
    requires bs[k].addr in hdr && hdr[bs[k].addr].size == bs[k].size
    ensures var next := bs[k + 1].addr;
            && next in SplitHeaders(hdr, bs[k].addr, a, false)
            && SplitHeaders(hdr, bs[k].addr, a, false)[next].prev == bs[k].addr
  {
    assert Holds(hdr, bs, k + 1) && Fits(bs, k, brk);
    DistinctAddrs(bs, brk, k, k + 1);
  }

  /** The header writes of block_merge; the neighbour's header is zeroed away. */
  function MergeHeaders(hdr: map<nat, Header>, ptr: nat): map<nat, Header>
    requires ptr in hdr && hdr[ptr].next in hdr
  {
    var h := hdr[ptr];
    var n := hdr[h.next];
    var joined := hdr[ptr := h.(size := h.size + HEADER + n.size, next := n.next)];
    (if n.next != 0 && n.next in joined then joined[n.next := joined[n.next].(prev := ptr)] else joined) - {h.next}
  }

  lemma MergeHolds(hdr: map<nat, Header>, bs: seq<Block>, brk: nat, k: nat, j: nat)
    requires Represents(hdr, bs) && Tiled(bs, brk) && k + 1 < |bs|
    requires Holds(hdr, bs, k) && Holds(hdr, bs, k + 1) && j < |bs| - 1
    ensures Holds(MergeHeaders(hdr, bs[k].addr), MergeAt(bs, k), j)
  {
    var i := if j <= k then j else j + 1;
    assert Holds(hdr, bs, i);
    DistinctAddrs(bs, brk, i, k);
    DistinctAddrs(bs, brk, i, k + 1);
    if k + 2 < |bs| {
      assert Holds(hdr, bs, k + 2) && Fits(bs, k + 2, brk);
      DistinctAddrs(bs, brk, k, k + 2);
      DistinctAddrs(bs, brk, k + 1, k + 2);
      DistinctAddrs(bs, brk, i, k + 2);
    }
    MergeShape(bs, k);
  }

  lemma DistinctAddrs(bs: seq<Block>, brk: nat, i: nat, j: nat)
    requires Tiled(bs, brk) && i < |bs| && j < |bs|
    ensures bs[i].addr == bs[j].addr <==> i == j
  {
    if i < j {
      AddrUnique(bs, brk, i, j);
    } else if j < i {
      AddrUnique(bs, brk, j, i);
    }
  }

  lemma MergeRepresents(hdr: map<nat, Header>, bs: seq<Block>, brk: nat, k: nat)
    requires Represents(hdr, bs) && Tiled(bs, brk) && k + 1 < |bs|
    requires Holds(hdr, bs, k) && Holds(hdr, bs, k + 1)
    ensures Represents(MergeHeaders(hdr, bs[k].addr), MergeAt(bs, k))
  {
    var cs, hdr' := MergeAt(bs, k), MergeHeaders(hdr, bs[k].addr);
    forall j | 0 <= j < |cs|
      ensures Holds(hdr', cs, j)
    {
      MergeHolds(hdr, bs, brk, k, j);
    }
    MergeShape(bs, k);
    if k + 2 < |bs| {
      assert Holds(hdr, bs, k + 2);
    }
    forall x | x in hdr'
      ensures exists j :: 0 <= j < |cs| && cs[j].addr == x
    {
      var j :| 0 <= j < |bs| && bs[j].addr == x;
      assert cs[if j <= k then j else j - 1].addr == x;
    }
  }

  lemma MarkRepresents(hdr: map<nat, Header>, bs: seq<Block>, brk: nat, k: nat, free: bool)
    requires Represents(hdr, bs) && Tiled(bs, brk) && k < |bs| && Holds(hdr, bs, k)
    ensures Represents(hdr[bs[k].addr := hdr[bs[k].addr].(free := free)], Mark(bs, k, free))
  {
    var cs, hdr' := Mark(bs, k, free), hdr[bs[k].addr := hdr[bs[k].addr].(free := free)];
    forall j | 0 <= j < |cs|
      ensures Holds(hdr', cs, j)
    {
      assert Holds(hdr, bs, j);
      DistinctAddrs(bs, brk, j, k);
    }
    forall x | x in hdr'
      ensures exists j :: 0 <= j < |cs| && cs[j].addr == x
    {
      var j :| 0 <= j < |bs| && bs[j].addr == x;
      assert cs[j].addr == x;
    }
  }

  /** Marking a header neither repairs nor breaks the links. */
  lemma MarkHolds(hdr: map<nat, Header>, bs: seq<Block>, brk: nat, k: nat, free: bool)
    requires Tiled(bs, brk) && k < |bs| && Holds(hdr, bs, k)
    ensures Represents(hdr[bs[k].addr := hdr[bs[k].addr].(free := free)], Mark(bs, k, free)) <==> Represents(hdr, bs)
  {
    var cs, hdr' := Mark(bs, k, free), hdr[bs[k].addr := hdr[bs[k].addr].(free := free)];
    if Represents(hdr, bs) {
      MarkRepresents(hdr, bs, brk, k, free);
    }
    if Represents(hdr', cs) {
      MarkTiled(bs, brk, k, free);
      assert Holds(hdr', cs, k);
      MarkRepresents(hdr', cs, brk, k, bs[k].free);
      assert Mark(cs, k, bs[k].free) == bs;
      assert hdr'[bs[k].addr := hdr'[bs[k].addr].(free := bs[k].free)] == hdr;
    }
  }

  /** The header writes of extend_heap. */
  function ExtendHeaders(hdr: map<nat, Header>, last: nat, ptr: nat, a: nat): map<nat, Header>
    requires last != 0 ==> last in hdr
  {
    var new_ := hdr[ptr := Header(a, last, 0, false, ptr + HEADER)];
    if last != 0 then new_[last := new_[last].(next := ptr)] else new_
  }

  lemma ExtendRepresents(hdr: map<nat, Header>, bs: seq<Block>, brk: nat, a: nat)
    requires Represents(hdr, bs) && Tiled(bs, brk) && brk > 0
    requires bs != [] ==> Holds(hdr, bs, |bs| - 1)
    ensures Represents(ExtendHeaders(hdr, AddrAt(bs, |bs| - 1), brk, a), bs + [Block(brk, a, false)])
  {
    var n := |bs|;
    var cs, hdr' := bs + [Block(brk, a, false)], ExtendHeaders(hdr, AddrAt(bs, |bs| - 1), brk, a);
    if n > 0 {
      assert Fits(bs, n - 1, brk);
    }
    forall j | 0 <= j < |cs|
      ensures Holds(hdr', cs, j)
    {
      if n > 0 {
        AddrUnique(bs, brk, n - 1, n);
      }
      if j < n {
        assert Holds(hdr, bs, j) && cs[j] == bs[j];
        AddrUnique(bs, brk, j, n);
        DistinctAddrs(bs, brk, j, n - 1);
      }
    }
    forall x | x in hdr'
      ensures exists j :: 0 <= j < |cs| && cs[j].addr == x
    {
      if x == brk {
        assert cs[n].addr == x;
      } else {
        var j :| 0 <= j < n && bs[j].addr == x;
        assert cs[j].addr == x;
      }
    }
  }

  /** The top block has gone; `relinked` clears the predecessor's link to it, the code does not. */
  function ReleaseHeaders(hdr: map<nat, Header>, ptr: nat, relinked: bool): map<nat, Header>
    requires ptr in hdr
  {
    var prev := hdr[ptr].prev;
    (if relinked && prev != 0 && prev in hdr then hdr[prev := hdr[prev].(next := 0)] else hdr) - {ptr}
  }

  lemma ReleaseRepresents(hdr: map<nat, Header>, bs: seq<Block>, brk: nat, relinked: bool)
    requires Represents(hdr, bs) && Tiled(bs, brk) && bs != [] && Holds(hdr, bs, |bs| - 1)
    ensures Represents(ReleaseHeaders(hdr, bs[|bs| - 1].addr, relinked), bs[..|bs| - 1]) <==> relinked || |bs| == 1
  {
    var n := |bs| - 1;
    var cs, hdr' := bs[..n], ReleaseHeaders(hdr, bs[n].addr, relinked);
    assert Fits(bs, n, brk);
    if n > 0 {
      assert Holds(hdr, bs, n - 1);
      DistinctAddrs(bs, brk, n, n - 1);
      assert Fits(bs, n - 1, brk);
      assert !relinked ==> !Holds(hdr', cs, n - 1);
    }
    forall j | 0 <= j < n && (j != n - 1 || relinked)
      ensures Holds(hdr', cs, j)
    {
      assert Holds(hdr, bs, j);
      DistinctAddrs(bs, brk, j, n);
      DistinctAddrs(bs, brk, j, n - 1);
    }
    forall x | x in hdr'
      ensures exists j :: 0 <= j < |cs| && cs[j].addr == x
    {
      var j :| 0 <= j < |bs| && bs[j].addr == x;
      assert j < n && cs[j].addr == x;
    }
  }

  class Heap {
    /** `sbrk` refuses to move the break above this. */
    const limit: nat
    /** Whether the two link updates the code forgets are made. */
    const relinked: bool
    var hdr: map<nat, Header>
    var mem: int -> int
    var firstBlock: nat
    var brk: nat
    /** The row the operations intend, even where a forgotten update leaves the headers behind it. */
    ghost var blocks: seq<Block>

    ghost predicate Laid()
      reads this`blocks, this`brk
    {
      Tiled(blocks, brk) && Settled(blocks) && brk > 0
    }

    /** The intended invariant of the allocator. */
    ghost predicate Valid()
      reads this`blocks, this`brk, this`hdr, this`firstBlock
    {
      Laid() && firstBlock == AddrAt(blocks, 0) && Represents(hdr, blocks)
    }

    /** The link the code forgets after a release: the last block points to the break, where no header is. */
    ghost predicate StaleNext()
      reads this`blocks, this`brk, this`hdr
    {
      && blocks != [] && brk !in hdr
      && var last := blocks[|blocks| - 1].addr;
      last in hdr && hdr[last].next == brk
    }

    /** The link the code forgets after a split: block `k + 2` points back past block `k + 1`. */
    ghost predicate StalePrev(k: nat)
      reads this`blocks, this`hdr
    {
      && k + 2 < |blocks| && blocks[k].addr != blocks[k + 1].addr
      && var next := blocks[k + 2].addr;
      next in hdr && hdr[next].prev == blocks[k].addr
    }

    constructor (brk: nat, limit: nat, relinked: bool, mem: int -> int)
      requires brk > 0
      ensures Valid() && blocks == [] && this.brk == brk && this.mem == mem
      ensures this.limit == limit && this.relinked == relinked
    {
      this.brk, this.limit, this.relinked, this.mem := brk, limit, relinked, mem;
      hdr, firstBlock, blocks := map[], 0, [];
    }

    /** block_zero */
    method BlockZero(ptr: nat, size: nat)
      modifies this`mem
      ensures ZeroedOn(old(mem), mem, ptr, ptr + size)
    {
      var i := 0;
      while i < size
        invariant i <= size && ZeroedOn(old(mem), mem, ptr, ptr + i)
      {
        var m, at := mem, ptr + i;
        mem := (x: int) => if x == at then 0 else m(x);
        i := i + 1;
      }
    }

    /** The loop of my_calloc, one 8-byte word at a time. */
    method ZeroWords(ptr: nat, words: nat)
      modifies this`mem
      ensures ZeroedOn(old(mem), mem, ptr, ptr + 8 * words)
    {
      var i := 0;
      while i < words
        invariant i <= words && ZeroedOn(old(mem), mem, ptr, ptr + 8 * i)
      {
        var m, at := mem, ptr + 8 * i;
        mem := (x: int) => if at <= x < at + 8 then 0 else m(x);
        i := i + 1;
      }
    }

    /** extend_heap: a new block at the break, or NULL when `sbrk` refuses. */
    method ExtendHeap(last: nat, a: nat) returns (ptr: nat)
      requires Valid() && last == AddrAt(blocks, |blocks| - 1) && Units(a)
      modifies this`hdr, this`brk, this`blocks
      ensures ptr == if brk == old(brk) then 0 else old(brk)
      ensures brk == if old(brk) + HEADER + a <= limit then old(brk) + HEADER + a else old(brk)
      ensures ptr == 0 ==> unchanged(this)
      ensures ptr != 0 ==> blocks == old(blocks) + [Block(ptr, a, false)] && Represents(hdr, blocks)
    {
      hide Units;
      ptr := brk;
      if brk + HEADER + a > limit {
        return 0;
      }
      if blocks != [] {
        assert Holds(hdr, blocks, |blocks| - 1);
      }
      ExtendRepresents(hdr, blocks, brk, a);
      brk := brk + HEADER + a;
      hdr := hdr[ptr := Header(a, 0, 0, false, ptr + HEADER)];
      if last != 0 {
        hdr := hdr[last := hdr[last].(next := ptr)];
        hdr := hdr[ptr := hdr[ptr].(prev := last)];
      }
      assert hdr == ExtendHeaders(old(hdr), last, ptr, a);
      blocks := blocks + [Block(ptr, a, false)];
    }

    /** find_block: first fit; `last` is the block before it, or the last block of all. */
    method FindBlock(last0: nat, a: nat) returns (ptr: nat, last: nat, ghost k: nat)
      requires Valid() && blocks != [] && last0 == firstBlock
      ensures k == if FirstFit(blocks, a).Some? then FirstFit(blocks, a).value else |blocks|
      ensures ptr == AddrAt(blocks, k) && (ptr == 0 <==> k == |blocks|)
      ensures ptr == 0 ==> last == AddrAt(blocks, |blocks| - 1)
    {
      ptr, last, k := firstBlock, last0, 0;
      assert Holds(hdr, blocks, 0) && Fits(blocks, 0, brk);
      while ptr != 0 && !(hdr[ptr].free && hdr[ptr].size >= a)
        invariant k <= |blocks| && ptr == AddrAt(blocks, k) && (ptr == 0 <==> k == |blocks|)
        invariant k > 0 ==> last == AddrAt(blocks, k - 1)
        invariant k < |blocks| ==> Holds(hdr, blocks, k)
        invariant forall j :: 0 <= j < k ==> !(blocks[j].free && blocks[j].size >= a)
        decreases |blocks| - k
      {
        last := ptr;
        ptr := hdr[ptr].next;
        k := k + 1;
        if k < |blocks| {
          assert Holds(hdr, blocks, k) && Fits(blocks, k, brk);
        }
      }
    }

    /** block_split of block `k`. */
    method BlockSplit(ptr: nat, a: nat, ghost k: nat) returns (r: nat)
      requires Tiled(blocks, brk) && Represents(hdr, blocks) && k < |blocks| && ptr == blocks[k].addr
      requires blocks[k].size >= a && Units(a)
      modifies this`hdr, this`mem, this`blocks
      ensures old(blocks)[k].size < a + MIN_SPLIT ==> r == 0 && unchanged(this)
      ensures old(blocks)[k].size >= a + MIN_SPLIT ==>
                && r == ptr && blocks == SplitAt(old(blocks), k, a) && Tiled(blocks, brk)
                && (Represents(hdr, blocks) <==> relinked || k + 1 == |old(blocks)|)
                && (Represents(hdr, blocks) || StalePrev(k))
                && Holds(hdr, blocks, k)
                && ZeroedOn(old(mem), mem, ptr + HEADER + a, ptr + old(blocks)[k].size)
    {
      assert Holds(hdr, blocks, k);
      if hdr[ptr].size - a < MIN_SPLIT {
        return 0;
      }
      SplitRepresents(hdr, blocks, brk, k, a, relinked);
      SplitTiled(blocks, brk, k, a);
      SplitHolds(hdr, blocks, brk, k, a, relinked, k);
      if k + 1 < |blocks| {
        SplitStale(hdr, blocks, brk, k, a);
      }
      hide Units, Represents;
      var newptr := ptr + HEADER + a;
      var newSize := hdr[ptr].size - (HEADER + a);
      BlockZero(newptr, newSize);
      hdr := hdr[newptr := Header(newSize, ptr, hdr[ptr].next, true, newptr + HEADER)];
      hdr := hdr[ptr := hdr[ptr].(size := a, next := newptr)];
      if relinked && hdr[newptr].next != 0 && hdr[newptr].next in hdr {
        hdr := hdr[hdr[newptr].next := hdr[hdr[newptr].next].(prev := newptr)];
      }
      assert hdr == SplitHeaders(old(hdr), ptr, a, relinked);
      blocks := SplitAt(blocks, k, a);
      r := ptr;
    }

    /** Marks the header of block `k`. */
    method SetFree(ptr: nat, free: bool, ghost k: nat)
      requires Tiled(blocks, brk) && k < |blocks| && ptr == blocks[k].addr && Holds(hdr, blocks, k)
      modifies this`hdr, this`blocks
      ensures blocks == Mark(old(blocks), k, free) && Tiled(blocks, brk)
      ensures Represents(hdr, blocks) <==> old(Represents(hdr, blocks))
      ensures hdr == old(hdr)[ptr := old(hdr)[ptr].(free := free)]
    {
      MarkTiled(blocks, brk, k, free);
      MarkHolds(hdr, blocks, brk, k, free);
      hdr := hdr[ptr := hdr[ptr].(free := free)];
      blocks := Mark(blocks, k, free);
    }

    /** The state after a request for `a` bytes has been served with data pointer `r`. */
    ghost predicate HasServed(r: nat, a: nat, blocks0: seq<Block>, brk0: nat, mem0: int -> int)
      reads this
    {
      && blocks == Served(blocks0, brk0, a) && brk == ServedBreak(blocks0, brk0, a)
      && r == ServedBlock(blocks0, brk0, a).Data()
      && Laid() && firstBlock == AddrAt(blocks, 0)
      && (Valid() <==> relinked || !Splits(blocks0, a))
      && (Valid() || (FirstFit(blocks0, a).Some? && StalePrev(FirstFit(blocks0, a).value)))
      && (forall b :: b in Live(blocks0) ==> SameOn(mem, mem0, b))
    }

    /** my_malloc. The block handed out is new to the set of blocks in use, large enough, and nothing in
        use moves or changes a byte. As the code stands the headers stay in step with the row exactly
        when no block was split; with the forgotten link update they always do. */
    method Malloc(size: nat) returns (r: nat)
      requires Valid() && size <= MAX_REQUEST
      modifies this
      ensures var a := Align8(size);
              r == 0 <==> size == 0 || (FirstFit(old(blocks), a).None? && old(brk) + HEADER + a > limit)
      ensures r == 0 ==> unchanged(this)
      ensures r != 0 ==> HasServed(r, Align8(size), old(blocks), old(brk), old(mem))
      ensures r != 0 ==> ServedBytes(old(blocks), Align8(size), old(mem), mem)
    {
      var a := Align8(size);
      Align8Exact(size);
      if size == 0 {
        return 0;
      }
      hide Represents, Tiled, Settled, Align8, Served, ServedBreak, ServedBlock, Splits;
      if firstBlock == 0 {
        NoFirst();
        r := Append(0, a);
        return;
      }
      HasFirst();
      var ptr, last, k := FindBlock(firstBlock, a);
      if ptr != 0 {
        r := Reuse(ptr, a, k);
      } else {
        r := Append(last, a);
      }
    }

    /** Serves a request no free block fits, at the break. */
    method Append(last: nat, a: nat) returns (r: nat)
      requires Valid() && last == AddrAt(blocks, |blocks| - 1) && Units(a) && FirstFit(blocks, a).None?
      modifies this
      ensures r == 0 <==> old(brk) + HEADER + a > limit
      ensures r == 0 ==> unchanged(this)
      ensures r != 0 ==> HasServed(r, a, old(blocks), old(brk), old(mem)) && mem == old(mem)
    {
      ServedKeeps(blocks, brk, a);
      assert blocks != [] ==> Fits(blocks, 0, brk);
      hide Tiled, Settled;
      var ptr := ExtendHeap(last, a);
      if ptr == 0 {
        return 0;
      }
      if firstBlock == 0 {
        firstBlock := ptr;
      }
      r := ptr + HEADER;
    }

    lemma HasFirst()
      requires Valid() && firstBlock != 0
      ensures blocks != []
    {
    }

    lemma NoFirst()
      requires Valid() && firstBlock == 0
      ensures blocks == []
    {
      assert blocks != [] ==> Fits(blocks, 0, brk);
    }

    /** Hands out the free block `k`, split if that leaves a block worth having. */
    method Reuse(ptr: nat, a: nat, ghost k: nat) returns (r: nat)
      requires Valid() && FirstFit(blocks, a) == Some(k) && ptr == blocks[k].addr && Units(a)
      modifies this`hdr, this`mem, this`blocks
      ensures r != 0 && HasServed(r, a, old(blocks), old(brk), old(mem)) && ServedBytes(old(blocks), a, old(mem), mem)
    {
      ServedKeeps(blocks, brk, a);
      assert Holds(hdr, blocks, k);
      FreeNeighbours(blocks, k);
      ghost var before := blocks;
      if hdr[ptr].size - a >= MIN_SPLIT {
        var _ := BlockSplit(ptr, a, k);
      }
      SetFree(ptr, false, k);
      forall b | b in Live(before)
        ensures SameOn(mem, old(mem), b)
      {
        LiveAreasDisjoint(before, brk, b, k);
      }
      r := ptr + HEADER;
    }

    /** block_merge: block `k` takes over its right neighbour if that is free. */
    method BlockMerge(ptr: nat, ghost k: nat) returns (r: nat)
      requires Tiled(blocks, brk) && Represents(hdr, blocks) && k < |blocks| && ptr == blocks[k].addr
      modifies this`hdr, this`mem, this`blocks
      ensures r == ptr && Tiled(blocks, brk) && Represents(hdr, blocks)
      ensures var joins := k + 1 < |old(blocks)| && old(blocks)[k + 1].free;
              && blocks == (if joins then MergeAt(old(blocks), k) else old(blocks))
              && forall x: int ::
                   mem(x) == if joins && old(blocks)[k + 1].addr <= x < old(blocks)[k + 1].End() then 0
                             else old(mem)(x)
    {
      assert Holds(hdr, blocks, k);
      var next := hdr[ptr].next;
      if k + 1 < |blocks| {
        assert Holds(hdr, blocks, k + 1) && Fits(blocks, k + 1, brk);
      }
      if next != 0 && hdr[next].free {
        MergeTiled(blocks, brk, k);
        MergeRepresents(hdr, blocks, brk, k);
        hide Represents;
        var n := hdr[next];
        hdr := hdr[ptr := hdr[ptr].(size := hdr[ptr].size + HEADER + n.size, next := n.next)];
        if n.next != 0 && n.next in hdr {
          hdr := hdr[n.next := hdr[n.next].(prev := ptr)];
        }
        BlockZero(next, HEADER + n.size);
        hdr := hdr - {next};
        assert hdr == MergeHeaders(old(hdr), ptr);
        blocks := MergeAt(blocks, k);
      }
      r := ptr;
    }

    /** valid_addr: the pointer is the data pointer of some block. */
    method ValidAddr(ptr: nat) returns (ok: bool, ghost k: nat)
      requires Valid()
      ensures ok <==> exists j :: 0 <= j < |blocks| && blocks[j].Data() == ptr
      ensures ok ==> k < |blocks| && blocks[k].Data() == ptr
    {
      ok := firstBlock != 0 && firstBlock < ptr < brk && ptr >= HEADER && ptr - HEADER in hdr
            && hdr[ptr - HEADER].magic == ptr;
      k := 0;
      if ok {
        k :| k < |blocks| && blocks[k].addr == ptr - HEADER;
      } else {
        forall j | 0 <= j < |blocks|
          ensures blocks[j].Data() != ptr
        {
          assert Holds(hdr, blocks, j) && Fits(blocks, j, brk) && Fits(blocks, 0, brk);
          TiledOrder(blocks, brk, j, |blocks|);
          if j > 0 {
            TiledOrder(blocks, brk, 0, j);
          }
        }
      }
    }

    /** The state after block `k` has been given up. */
    ghost predicate HasFreed(k: nat, blocks0: seq<Block>, brk0: nat, mem0: int -> int)
      reads this
    {
      && k < |blocks0| && blocks == Freed(blocks0, k) && brk == FreedBreak(blocks0, k, brk0)
      && Laid() && firstBlock == AddrAt(blocks, 0)
      && (Valid() <==> relinked || k + 1 < |blocks0| || JoinLo(blocks0, k) == 0)
      && (Valid() || StaleNext())
      && (forall b :: b in Live(blocks0) && b != blocks0[k] ==> SameOn(mem, mem0, b))
    }

    /** my_free. A pointer that is not the start of a data area is ignored. Otherwise the block is
        given up, joined with free neighbours and released at the top; no other block in use moves or
        changes a byte. As the code stands the headers stay in step with the row unless a block that
        has a predecessor is released; with the forgotten link update they always do. */
    /** What freeing block `k` does to memory: a block that is joined to the one before it is zeroed, header and
        all; nothing else is touched. */
    ghost predicate FreedBytes(bs: seq<Block>, k: nat, m0: int -> int, m: int -> int)
      requires k < |bs|
    {
      forall x: int ::
        m(x) == if (k > 0 && bs[k - 1].free && bs[k].addr <= x < bs[k].End())
                   || (k + 1 < |bs| && bs[k + 1].free && bs[k + 1].addr <= x < bs[k + 1].End())
                then 0 else m0(x)
    }

    /** What a request does to memory: the rest of a block that is split is zeroed, up to the length of a header
        before its end; nothing else is touched. */
    ghost predicate ServedBytes(bs: seq<Block>, a: nat, m0: int -> int, m: int -> int) {
      if Splits(bs, a) then
        var b := bs[FirstFit(bs, a).value];
        ZeroedOn(m0, m, b.Data() + a, b.addr + b.size)
      else m == m0
    }

    /** What `my_calloc` does: the same, and the area is zeroed. */
    ghost predicate Cleared(r: nat, a: nat, bs: seq<Block>, m0: int -> int)
      reads this
    {
      exists mid :: ServedBytes(bs, a, m0, mid) && ZeroedOn(mid, mem, r, r + a)
    }

    method Free(ptr: nat) returns (ghost k: nat)
      requires Valid()
      modifies this
      ensures (forall j :: 0 <= j < |old(blocks)| ==> old(blocks)[j].Data() != ptr) ==> unchanged(this)
      ensures (exists j :: 0 <= j < |old(blocks)| && old(blocks)[j].Data() == ptr) ==>
                && HasFreed(k, old(blocks), old(brk), old(mem)) && old(blocks)[k].Data() == ptr
                && FreedBytes(old(blocks), k, old(mem), mem)
    {
      hide Represents, Tiled, Settled;
      var ok;
      ok, k := ValidAddr(ptr);
      if ok {
        FreeBlock(ptr - HEADER, k);
      }
    }

    method FreeBlock(ptr: nat, ghost k: nat)
      requires Valid() && k < |blocks| && blocks[k].addr == ptr
      modifies this
      ensures HasFreed(k, old(blocks), old(brk), old(mem)) && FreedBytes(old(blocks), k, old(mem), mem)
    {
      FreedKeeps(blocks, brk, k);
      ReleasesTopOnly(blocks, k);
      JoinedShape(blocks, k);
      ghost var lo := JoinLo(blocks, k);
      var block := Join(ptr, k);
      assert Holds(hdr, blocks, lo);
      if lo + 1 < |blocks| {
        assert Fits(blocks, lo + 1, brk);
      }
      hide Represents, Tiled, Settled, Joined;
      if hdr[block].next == 0 {
        Release(block);
      }
    }

    /** The first test of my_free: the left neighbour, if free, takes over block `k`. */
    method MergeLeft(ptr: nat, ghost k: nat) returns (r: nat, ghost lo: nat)
      requires Tiled(blocks, brk) && Represents(hdr, blocks) && k < |blocks| && ptr == blocks[k].addr
      requires blocks[k].free
      modifies this`hdr, this`mem, this`blocks
      ensures Tiled(blocks, brk) && Represents(hdr, blocks)
      ensures var joins := k > 0 && old(blocks)[k - 1].free;
              && lo == (if joins then k - 1 else k)
              && blocks == (if joins then MergeAt(old(blocks), k - 1) else old(blocks))
              && forall x: int ::
                   mem(x) == if joins && old(blocks)[k].addr <= x < old(blocks)[k].End() then 0 else old(mem)(x)
      ensures lo < |blocks| && r == blocks[lo].addr
    {
      r, lo := ptr, k;
      assert Holds(hdr, blocks, k);
      if k > 0 {
        assert Holds(hdr, blocks, k - 1) && Fits(blocks, k - 1, brk);
      }
      if hdr[r].prev != 0 && hdr[hdr[r].prev].free {
        r := BlockMerge(hdr[r].prev, k - 1);
        lo := k - 1;
      }
    }

    /** The second test: block `k` takes over its right neighbour if that is free. */
    method MergeRight(ptr: nat, ghost k: nat) returns (r: nat)
      requires Tiled(blocks, brk) && Represents(hdr, blocks) && k < |blocks| && ptr == blocks[k].addr
      modifies this`hdr, this`mem, this`blocks
      ensures r == ptr && Tiled(blocks, brk) && Represents(hdr, blocks)
      ensures var joins := k + 1 < |old(blocks)| && old(blocks)[k + 1].free;
              && blocks == (if joins then MergeAt(old(blocks), k) else old(blocks))
              && forall x: int ::
                   mem(x) == if joins && old(blocks)[k + 1].addr <= x < old(blocks)[k + 1].End() then 0
                             else old(mem)(x)
    {
      r := ptr;
      assert Holds(hdr, blocks, k);
      if k + 1 < |blocks| {
        assert Holds(hdr, blocks, k + 1) && Fits(blocks, k + 1, brk);
      }
      if hdr[r].next != 0 && hdr[hdr[r].next].free {
        r := BlockMerge(r, k);
      }
    }

    /** Marks block `k` free and joins it with its free neighbours. */
    method Join(ptr: nat, ghost k: nat) returns (r: nat)
      requires Valid() && k < |blocks| && ptr == blocks[k].addr
      modifies this`hdr, this`mem, this`blocks
      ensures Tiled(blocks, brk) && Represents(hdr, blocks)
      ensures blocks == Joined(old(blocks), k).0 && r == blocks[Joined(old(blocks), k).1].addr
      ensures forall b :: b in old(Live(blocks)) && b != old(blocks)[k] ==> SameOn(mem, old(mem), b)
      ensures FreedBytes(old(blocks), k, old(mem), mem)
    {
      ghost var before := blocks;
      assert Holds(hdr, blocks, k);
      hide Live, SameOn, Settled, Represents, Tiled;
      SetFree(ptr, true, k);
      ghost var lo;
      r, lo := MergeLeft(ptr, k);
      ghost var mid := mem;
      BehindLeft(before, k, lo);
      assert forall x: int ::
          mid(x) == if k > 0 && before[k - 1].free && before[k].addr <= x < before[k].End() then 0 else old(mem)(x);
      r := MergeRight(r, lo);
      hide MergeAt, Mark, Joined;
      JoinBytes(before, k, old(mem), mid, mem);
      JoinFrame(before, brk, k, old(mem), mem);
    }

    /** What is behind the block once it has been joined to the left. */
    lemma BehindLeft(bs: seq<Block>, k: nat, lo: nat)
      requires k < |bs| && lo == if k > 0 && bs[k - 1].free then k - 1 else k
      ensures var marked := Mark(bs, k, true);
              var left := if lo < k then MergeAt(marked, lo) else marked;
              && (lo + 1 < |left| <==> k + 1 < |bs|) && (k + 1 < |bs| ==> left[lo + 1] == bs[k + 1])
              && marked[k].addr == bs[k].addr && marked[k].End() == bs[k].End()
    {
    }

    lemma JoinBytes(bs: seq<Block>, k: nat, m0: int -> int, mid: int -> int, m: int -> int)
      requires k < |bs|
      requires forall x: int ::
                 mid(x) == if k > 0 && bs[k - 1].free && bs[k].addr <= x < bs[k].End() then 0 else m0(x)
      requires forall x: int ::
                 m(x) == if k + 1 < |bs| && bs[k + 1].free && bs[k + 1].addr <= x < bs[k + 1].End() then 0 else mid(x)
      ensures FreedBytes(bs, k, m0, m)
      ensures forall x: int :: m(x) == m0(x) || bs[k].addr <= x < bs[k].End()
                 || (k + 1 < |bs| && bs[k + 1].free && bs[k + 1].addr <= x < bs[k + 1].End())
    {
    }

    lemma JoinFrame(bs: seq<Block>, brk: nat, k: nat, m0: int -> int, m: int -> int)
      requires Tiled(bs, brk) && k < |bs|
      requires forall x: int :: m(x) == m0(x) || bs[k].addr <= x < bs[k].End()
                 || (k + 1 < |bs| && bs[k + 1].free && bs[k + 1].addr <= x < bs[k + 1].End())
      ensures forall b :: b in Live(bs) && b != bs[k] ==> SameOn(m, m0, b)
    {
      forall b | b in Live(bs) && b != bs[k]
        ensures SameOn(m, m0, b)
      {
        LiveAreasDisjoint(bs, brk, b, k);
        if k + 1 < |bs| {
          LiveAreasDisjoint(bs, brk, b, k + 1);
        }
      }
    }

    /** The last branch of my_free: the top block goes back to the system. */
    method Release(block: nat)
      requires Tiled(blocks, brk) && Represents(hdr, blocks) && firstBlock == AddrAt(blocks, 0)
      requires blocks != [] && block == blocks[|blocks| - 1].addr
      modifies this`hdr, this`brk, this`blocks, this`firstBlock
      ensures blocks == old(blocks)[..|old(blocks)| - 1] && brk == block
      ensures firstBlock == AddrAt(blocks, 0)
      ensures Represents(hdr, blocks) <==> relinked || blocks == []
      ensures Represents(hdr, blocks) || StaleNext()
    {
      ghost var n := |blocks| - 1;
      assert Holds(hdr, blocks, n) && Fits(blocks, n, brk);
      if n > 0 {
        assert Fits(blocks, n - 1, brk) && Holds(hdr, blocks, n - 1);
        DistinctAddrs(blocks, brk, n - 1, n);
      }
      ReleaseRepresents(hdr, blocks, brk, relinked);
      hide Represents;
      var prev := hdr[block].prev;
      if prev == 0 && block == firstBlock {
        firstBlock := 0;
      }
      if relinked && prev != 0 {
        hdr := hdr[prev := hdr[prev].(next := 0)];
      }
      brk := block;
      hdr := hdr - {block};
      assert hdr == ReleaseHeaders(old(hdr), block, relinked);
      blocks := blocks[..n];
    }

    /** my_calloc: as my_malloc for the product, which wraps at 64 bits; the whole area reads 0. */
    method Calloc(num: nat, size: nat) returns (r: nat)
      requires Valid() && num * size % TWO_64 <= MAX_REQUEST
      modifies this
      ensures var total := num * size % TWO_64;
              r == 0 <==> total == 0
                          || (FirstFit(old(blocks), Align8(total)).None? && old(brk) + HEADER + Align8(total) > limit)
      ensures r == 0 ==> unchanged(this)
      ensures r != 0 ==>
                var a := Align8(num * size % TWO_64);
                && HasServed(r, a, old(blocks), old(brk), old(mem))
                && Cleared(r, a, old(blocks), old(mem))
                && (forall x: int :: r <= x < r + a ==> mem(x) == 0)
                && (num * size <= a <==> num * size < TWO_64)
    {
      hide Align8, HasServed, Valid, FirstFit, Cleared;
      var total := num * size % TWO_64;
      r := ZeroedMalloc(total);
      Align8Exact(total);
      SmallProduct(num * size);
    }

    lemma SmallProduct(n: nat)
      ensures n < TWO_64 ==> n % TWO_64 == n
    {
    }

    /** A request whose whole area then reads 0. */
    method ZeroedMalloc(total: nat) returns (r: nat)
      requires Valid() && total <= MAX_REQUEST
      modifies this
      ensures var a := Align8(total);
              r == 0 <==> total == 0 || (FirstFit(old(blocks), a).None? && old(brk) + HEADER + a > limit)
      ensures r == 0 ==> unchanged(this)
      ensures r != 0 ==> HasServed(r, Align8(total), old(blocks), old(brk), old(mem))
      ensures r != 0 ==> Cleared(r, Align8(total), old(blocks), old(mem))
      ensures r != 0 ==> forall x: int :: r <= x < r + Align8(total) ==> mem(x) == 0
    {
      Align8Exact(total);
      r := Malloc(total);
      if r != 0 {
        var a := Align8(total);
        ghost var new_ := ServedBlock(old(blocks), old(brk), a);
        ghost var mid := mem;
        ServedKeeps(old(blocks), old(brk), a);
        hide Align8, Served, ServedBlock, ServedBreak, Tiled, Settled, Represents, Splits, StalePrev, FirstFit;
        hide ServedBytes;
        ZeroWords(r, a / 8);
        CallocFrame(blocks, brk, old(Live(blocks)), new_, a, old(mem), mid, mem);
      }
    }

    lemma CallocFrame(
      bs: seq<Block>, brk: nat, live: set<Block>, new_: Block, a: nat,
      m0: int -> int, m1: int -> int, m2: int -> int)
      requires Tiled(bs, brk) && Live(bs) == live + {new_} && (forall b :: b in live ==> b.addr != new_.addr)
      requires a <= new_.size && ZeroedOn(m1, m2, new_.Data(), new_.Data() + a)
      requires forall b :: b in live ==> SameOn(m1, m0, b)
      ensures forall b :: b in live ==> SameOn(m2, m0, b)
    {
      forall b | b in live
        ensures SameOn(m2, m0, b)
      {
        LiveApart(bs, brk, b, new_);
      }
    }

    /** A client writing one byte of memory. */
    method Poke(at: int, value: int)
      modifies this`mem
      ensures forall x: int :: mem(x) == if x == at then value else old(mem)(x)
    {
      var m := mem;
      mem := (x: int) => if x == at then value else m(x);
    }
  }
}
