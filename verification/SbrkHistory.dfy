/** Whole histories of a client that allocates, frees, writes and reads through the allocator. */
module SbrkHistory {
  import opened Common
  import opened SbrkLayout
  import opened SbrkHeap

  /** Known bytes by offset. */
  type Bytes = map<int, int>

  /** An area is named by the index of the operation that asked for it. */
  datatype Op =
    | New(size: nat)
    | NewZeroed(num: nat, size: nat)
    | Drop(area: nat)
    | Write(area: nat, at: nat, value: int)
    | Read(area: nat, at: nat)

  /** How many bytes an allocating operation asks for, as `my_calloc` computes a product. */
  function Requested(op: Op): nat {
    match op
    case New(size) => size
    case NewZeroed(num, size) => num * size % TWO_64
    case _ => 0
  }

  /** Sizes whose arithmetic stays inside a signed machine word. */
  predicate InRange(op: Op) {
    Requested(op) <= MAX_REQUEST
  }

  predicate AllInRange(ops: seq<Op>) {
    forall k :: 0 <= k < |ops| ==> InRange(ops[k])
  }

  function Zeros(n: nat): (z: Bytes)
    ensures forall at :: at in z <==> 0 <= at < n
    ensures forall at :: at in z ==> z[at] == 0
  {
    if n == 0 then map[] else Zeros(n - 1)[n - 1 := 0]
  }

  /** What the client knows of its areas: the bytes it wrote, and the zeros it asked for. An answer of 0
      to an allocating operation is a refusal. */
  function Known(ops: seq<Op>, answers: seq<int>): map<nat, Bytes>
    requires |answers| <= |ops|
    decreases |answers|
  {
    if answers == [] then map[]
    else
      var k := |answers| - 1;
      After(Known(ops, answers[..k]), ops, k, answers[k])
  }

  function After(m: map<nat, Bytes>, ops: seq<Op>, k: nat, answer: int): map<nat, Bytes>
    requires k < |ops|
  {
    match ops[k]
    case New(_) => if answer == 0 then m else m[k := map[]]
    case NewZeroed(_, _) => if answer == 0 then m else m[k := Zeros(Requested(ops[k]))]
    case Drop(area) => m - {area}
    case Write(area, at, value) =>
      if area in m && area < |ops| && at < Requested(ops[area]) then m[area := m[area][at := value]] else m
    case Read(_, _) => m
  }

  /** Every known area is a block in use of its own, large enough, and holds the known bytes. */
  ghost predicate Tracks(bs: seq<Block>, mem: int -> int, known: map<nat, Bytes>, ops: seq<Op>, answers: seq<int>) {
    && (forall id :: id in known ==> Backed(bs, mem, known, ops, answers, id))
    && (forall i, j :: i in known && j in known && i != j ==>
          i < |answers| && j < |answers| && answers[i] != answers[j])
  }

  ghost predicate Backed(
    bs: seq<Block>, mem: int -> int, known: map<nat, Bytes>, ops: seq<Op>, answers: seq<int>, id: nat)
    requires id in known
  {
    && id < |answers| && id < |ops|
    && (exists b :: b in Live(bs) && b.Data() == answers[id] && Requested(ops[id]) <= b.size)
    && (forall at :: at in known[id] ==> 0 <= at < Requested(ops[id]) && mem(answers[id] + at) == known[id][at])
  }

  /** Areas survive any change of the row that keeps their blocks and any change of memory elsewhere. */
  lemma StillBacked(bs: seq<Block>, cs: seq<Block>, m0: int -> int, m: int -> int, known: map<nat, Bytes>,
                    ops: seq<Op>, answers: seq<int>, id: nat, lost: set<Block>)
    requires id in known && Backed(bs, m0, known, ops, answers, id)
    requires Live(bs) - lost <= Live(cs) && forall b :: b in Live(bs) - lost ==> SameOn(m, m0, b)
    requires forall b :: b in lost ==> b.Data() != answers[id]
    ensures Backed(cs, m, known, ops, answers, id)
  {
    var b :| b in Live(bs) && b.Data() == answers[id] && Requested(ops[id]) <= b.size;
    assert SameOn(m, m0, b);
  }

  lemma AddArea(bs: seq<Block>, cs: seq<Block>, m0: int -> int, m: int -> int, known: map<nat, Bytes>,
                ops: seq<Op>, answers: seq<int>, p: int, new_: Block, bytes: Bytes)
    requires Tracks(bs, m0, known, ops, answers) && |answers| < |ops|
    requires Live(cs) == Live(bs) + {new_} && new_.Data() == p && Requested(ops[|answers|]) <= new_.size
    requires forall b :: b in Live(bs) ==> SameOn(m, m0, b) && b.addr != new_.addr
    requires forall at :: at in bytes ==> 0 <= at < Requested(ops[|answers|]) && m(p + at) == bytes[at]
    ensures Tracks(cs, m, known[|answers| := bytes], ops, answers + [p])
  {
    var k, known', answers' := |answers|, known[|answers| := bytes], answers + [p];
    assert new_ in Live(cs);
    hide Live, Backed;
    forall id | id in known && id != k
      ensures Backed(cs, m, known', ops, answers', id) && id < k && answers'[id] == answers[id] != p
    {
      KeptArea(bs, cs, m0, m, known, ops, answers, p, new_, bytes, id);
    }
    NewArea(cs, m, known', ops, answers, p, new_, bytes);
  }

  lemma NewArea(cs: seq<Block>, m: int -> int, known: map<nat, Bytes>, ops: seq<Op>, answers: seq<int>, p: int,
                new_: Block, bytes: Bytes)
    requires |answers| < |ops| && |answers| in known && known[|answers|] == bytes
    requires new_ in Live(cs) && new_.Data() == p && Requested(ops[|answers|]) <= new_.size
    requires forall at :: at in bytes ==> 0 <= at < Requested(ops[|answers|]) && m(p + at) == bytes[at]
    ensures Backed(cs, m, known, ops, answers + [p], |answers|)
  {
  }

  lemma KeptArea(bs: seq<Block>, cs: seq<Block>, m0: int -> int, m: int -> int, known: map<nat, Bytes>,
                 ops: seq<Op>, answers: seq<int>, p: int, new_: Block, bytes: Bytes, id: nat)
    requires |answers| < |ops| && id in known && id != |answers| && Backed(bs, m0, known, ops, answers, id)
    requires Live(cs) == Live(bs) + {new_} && new_.Data() == p
    requires forall b :: b in Live(bs) ==> SameOn(m, m0, b) && b.addr != new_.addr
    ensures Backed(cs, m, known[|answers| := bytes], ops, answers + [p], id) && id < |answers| && answers[id] != p
  {
    StillBacked(bs, cs, m0, m, known, ops, answers, id, {});
    var b :| b in Live(bs) && b.Data() == answers[id];
  }

  lemma DropArea(bs: seq<Block>, cs: seq<Block>, m0: int -> int, m: int -> int, known: map<nat, Bytes>,
                 ops: seq<Op>, answers: seq<int>, area: nat, gone: Block)
    requires Tracks(bs, m0, known, ops, answers) && area in known && area < |answers|
    requires gone.Data() == answers[area] && Live(cs) == Live(bs) - {gone}
    requires forall b :: b in Live(bs) && b != gone ==> SameOn(m, m0, b)
    ensures Tracks(cs, m, known - {area}, ops, answers + [0])
  {
    forall id | id in known - {area}
      ensures Backed(cs, m, known - {area}, ops, answers + [0], id)
    {
      assert Backed(bs, m0, known, ops, answers, id);
      StillBacked(bs, cs, m0, m, known, ops, answers, id, {gone});
      assert Backed(cs, m, known, ops, answers, id);
    }
  }

  lemma WriteArea(bs: seq<Block>, brk: nat, m0: int -> int, m: int -> int, known: map<nat, Bytes>,
                  ops: seq<Op>, answers: seq<int>, area: nat, at: nat, value: int)
    requires Tracks(bs, m0, known, ops, answers) && Tiled(bs, brk) && area in known && area < |answers| && area < |ops|
    requires at < Requested(ops[area])
    requires forall x: int :: m(x) == if x == answers[area] + at then value else m0(x)
    ensures Tracks(bs, m, known[area := known[area][at := value]], ops, answers + [0])
  {
    var known' := known[area := known[area][at := value]];
    assert Backed(bs, m0, known, ops, answers, area);
    var b :| b in Live(bs) && b.Data() == answers[area] && Requested(ops[area]) <= b.size;
    forall id | id in known'
      ensures Backed(bs, m, known', ops, answers + [0], id)
    {
      assert Backed(bs, m0, known, ops, answers, id);
      if id != area {
        var c :| c in Live(bs) && c.Data() == answers[id] && Requested(ops[id]) <= c.size;
        LiveApart(bs, brk, b, c);
        assert Backed(bs, m, known, ops, answers, id);
      }
    }
  }

  lemma SameAreas(bs: seq<Block>, m: int -> int, known: map<nat, Bytes>, ops: seq<Op>, answers: seq<int>, answer: int)
    requires Tracks(bs, m, known, ops, answers)
    ensures Tracks(bs, m, known, ops, answers + [answer])
  {
    forall id | id in known
      ensures Backed(bs, m, known, ops, answers + [answer], id)
    {
      assert Backed(bs, m, known, ops, answers, id);
    }
  }

  /** An answer the client may rely on: a read of a byte it knows gives that byte. */
  ghost predicate Faithful(ops: seq<Op>, answers: seq<int>, k: nat)
    requires k < |answers| <= |ops|
  {
    var known := Known(ops, answers[..k]);
    ops[k].Read? && ops[k].area in known && ops[k].at in known[ops[k].area] ==>
      answers[k] == known[ops[k].area][ops[k].at]
  }

  // ---------- the row of blocks over a history ----------

  /** The blocks and the break. */
  datatype Row = Row(blocks: seq<Block>, brk: nat)

  predicate Allocates(op: Op) {
    op.New? || op.NewZeroed?
  }

  /** A request is refused if it is for nothing, or if nothing fits and the break cannot be raised. */
  predicate Refused(r: Row, limit: nat, op: Op)
    requires InRange(op)
  {
    var a := Align8(Requested(op));
    Requested(op) == 0 || (FirstFit(r.blocks, a).None? && r.brk + HEADER + a > limit)
  }

  /** The answer to a request. */
  function Granted(r: Row, limit: nat, op: Op): nat
    requires InRange(op)
  {
    if Refused(r, limit, op) then 0 else ServedBlock(r.blocks, r.brk, Align8(Requested(op))).Data()
  }

  /** The block with this data pointer. */
  function BlockAt(bs: seq<Block>, ptr: int): (k: nat)
    ensures k <= |bs| && (k < |bs| ==> bs[k].Data() == ptr)
  {
    if bs == [] || bs[0].Data() == ptr then 0 else 1 + BlockAt(bs[1..], ptr)
  }

  /** The row after one more operation; `ptr` is what a freed area was granted as, if it is held. */
  function RowStep(r: Row, limit: nat, op: Op, ptr: Option<int>): Row
    requires InRange(op)
  {
    match op
    case Drop(_) =>
      var k := if ptr.Some? then BlockAt(r.blocks, ptr.value) else |r.blocks|;
      if k < |r.blocks| then Row(Freed(r.blocks, k), FreedBreak(r.blocks, k, r.brk)) else r
    case Write(_, _, _) => r
    case Read(_, _) => r
    case _ =>
      if Refused(r, limit, op) then r
      else
        var a := Align8(Requested(op));
        Row(Served(r.blocks, r.brk, a), ServedBreak(r.blocks, r.brk, a))
  }

  /** What the area of a freeing operation was granted as, if the client holds it. */
  function Held(ops: seq<Op>, answers: seq<int>): Option<int>
    requires |answers| < |ops|
  {
    var op := ops[|answers|];
    if op.Drop? && op.area in Known(ops, answers) && op.area < |answers| then Some(answers[op.area]) else None
  }

  function RowAfter(start: nat, limit: nat, ops: seq<Op>, answers: seq<int>): Row
    requires |answers| <= |ops| && AllInRange(ops)
    decreases |answers|
  {
    if answers == [] then Row([], start)
    else
      var before := answers[..|answers| - 1];
      RowStep(RowAfter(start, limit, ops, before), limit, ops[|before|], Held(ops, before))
  }

  /** The answer to a request is the one that first fit on the row of that moment gives. */
  ghost predicate AnsweredRight(start: nat, limit: nat, ops: seq<Op>, answers: seq<int>, k: nat)
    requires k < |answers| <= |ops| && AllInRange(ops)
  {
    Allocates(ops[k]) ==> answers[k] == Granted(RowAfter(start, limit, ops, answers[..k]), limit, ops[k])
  }

  /** At every moment the areas the client holds overlap neither each other nor the space beyond the break. */
  ghost predicate AreasApart(start: nat, limit: nat, ops: seq<Op>, answers: seq<int>)
    requires |answers| <= |ops| && AllInRange(ops)
  {
    var known, brk := Known(ops, answers), RowAfter(start, limit, ops, answers).brk;
    forall i :: i in known ==>
      && i < |answers| && 0 < answers[i] && answers[i] + Requested(ops[i]) <= brk
      && forall j :: j in known && j != i && j < |answers| ==> Disjoint(ops, answers, i, j)
  }

  ghost predicate Disjoint(ops: seq<Op>, answers: seq<int>, i: nat, j: nat)
    requires i < |answers| <= |ops| && j < |answers|
  {
    answers[i] + Requested(ops[i]) <= answers[j] || answers[j] + Requested(ops[j]) <= answers[i]
  }

  lemma TracksApart(start: nat, limit: nat, ops: seq<Op>, answers: seq<int>, bs: seq<Block>, brk: nat, mem: int -> int)
    requires |answers| <= |ops| && AllInRange(ops)
    requires RowAfter(start, limit, ops, answers) == Row(bs, brk) && Tiled(bs, brk)
    requires Tracks(bs, mem, Known(ops, answers), ops, answers)
    ensures AreasApart(start, limit, ops, answers)
  {
    hide RowAfter, Known;
    var known := Known(ops, answers);
    forall i | i in known
      ensures i < |answers| && 0 < answers[i] && answers[i] + Requested(ops[i]) <= brk
      ensures forall j :: j in known && j != i && j < |answers| ==> Disjoint(ops, answers, i, j)
    {
      assert Backed(bs, mem, known, ops, answers, i);
      var b :| b in Live(bs) && b.Data() == answers[i] && Requested(ops[i]) <= b.size;
      var k :| 0 <= k < |bs| && bs[k] == b;
      LiveAreasDisjoint(bs, brk, b, k);
      forall j | j in known && j != i && j < |answers|
        ensures Disjoint(ops, answers, i, j)
      {
        assert Backed(bs, mem, known, ops, answers, j);
        var c :| c in Live(bs) && c.Data() == answers[j] && Requested(ops[j]) <= c.size;
        var l :| 0 <= l < |bs| && bs[l] == c;
        LiveAreasDisjoint(bs, brk, b, l);
      }
    }
  }

  // ---------- the operations ----------

  /** my_malloc or my_calloc. */
  method Ask(h: Heap, op: Op) returns (p: nat)
    requires h.Valid() && Allocates(op) && InRange(op)
    modifies h
    ensures p == 0 <==> Refused(old(RowOf(h)), h.limit, op)
    ensures p == 0 ==> unchanged(h)
    ensures p > 0 ==> Requested(op) > 0 && h.HasServed(p, Align8(Requested(op)), old(h.blocks), old(h.brk), old(h.mem))
    ensures p > 0 && op.NewZeroed? ==> forall x: int :: p <= x < p + Requested(op) ==> h.mem(x) == 0
  {
    hide Tiled, Settled, Represents, Served, ServedBlock, ServedBreak, Splits, Align8;
    assert Requested(op) % TWO_64 == Requested(op);
    Align8Exact(Requested(op));
    if op.New? {
      p := h.Malloc(op.size);
    } else {
      p := h.Calloc(op.num, op.size);
    }
  }

  /** The same, seen by what it adds to the blocks in use. */
  method Request(h: Heap, op: Op) returns (p: int, ghost new_: Block)
    requires h.Valid() && h.relinked && Allocates(op) && InRange(op)
    modifies h
    ensures h.Valid() && p == Granted(old(RowOf(h)), h.limit, op)
    ensures RowOf(h) == RowStep(old(RowOf(h)), h.limit, op, None)
    ensures p == 0 ==> h.mem == old(h.mem) && h.blocks == old(h.blocks)
    ensures p != 0 ==> Live(h.blocks) == old(Live(h.blocks)) + {new_} && new_.Data() == p && Requested(op) <= new_.size
    ensures p != 0 ==> forall b :: b in old(Live(h.blocks)) ==> SameOn(h.mem, old(h.mem), b) && b.addr != new_.addr
    ensures p != 0 && op.NewZeroed? ==> forall x: int :: p <= x < p + Requested(op) ==> h.mem(x) == 0
  {
    ghost var a := Align8(Requested(op));
    Align8Exact(Requested(op));
    new_ := ServedBlock(h.blocks, h.brk, a);
    if Requested(op) > 0 {
      ServedKeeps(h.blocks, h.brk, a);
    }
    hide Tiled, Settled, Represents, Served, ServedBlock, ServedBreak, Splits, Align8, Refused;
    p := Ask(h, op);
  }

  ghost function RowOf(h: Heap): Row
    reads h
  {
    Row(h.blocks, h.brk)
  }

  /** One allocating operation. */
  method Allocate(h: Heap, op: Op, ghost ops: seq<Op>, ghost answers: seq<int>) returns (p: int)
    requires h.Valid() && h.relinked && |answers| < |ops| && op == ops[|answers|] && InRange(op) && Allocates(op)
    requires Tracks(h.blocks, h.mem, Known(ops, answers), ops, answers)
    modifies h
    ensures h.Valid() && p == Granted(old(RowOf(h)), h.limit, op)
    ensures RowOf(h) == RowStep(old(RowOf(h)), h.limit, op, None)
    ensures Tracks(h.blocks, h.mem, After(Known(ops, answers), ops, |answers|, p), ops, answers + [p])
  {
    hide Tiled, Settled, Represents, Served, ServedBlock, ServedBreak, Splits, Align8, Known, Tracks, Granted, RowStep;
    ghost var bs, m0, known := h.blocks, h.mem, Known(ops, answers);
    ghost var new_;
    p, new_ := Request(h, op);
    if p == 0 {
      SameAreas(bs, m0, known, ops, answers, p);
    } else {
      AddArea(bs, h.blocks, m0, h.mem, known, ops, answers, p, new_, if op.New? then map[] else Zeros(Requested(op)));
    }
  }

  /** One operation that is not an allocation, on an area the client holds. */
  method Use(h: Heap, op: Op, area: nat, ptr: int, ghost ops: seq<Op>, ghost answers: seq<int>) returns (answer: int)
    requires h.Valid() && h.relinked && |answers| < |ops| && op == ops[|answers|] && InRange(op)
    requires op.Drop? || op.Write? || op.Read?
    requires op.area == area && area in Known(ops, answers) && area < |answers| && ptr == answers[area]
    requires op.Write? ==> op.at < Requested(ops[area])
    requires Tracks(h.blocks, h.mem, Known(ops, answers), ops, answers)
    modifies h
    ensures h.Valid() && RowOf(h) == RowStep(old(RowOf(h)), h.limit, op, Some(ptr))
    ensures Tracks(h.blocks, h.mem, After(Known(ops, answers), ops, |answers|, answer), ops, answers + [answer])
    ensures Faithful(ops, answers + [answer], |answers|)
  {
    hide Freed, FreedBreak, BlockAt;
    ghost var bs, m0, known := h.blocks, h.mem, Known(ops, answers);
    assert (answers + [0])[..|answers|] == answers;
    answer := 0;
    assert Backed(bs, m0, known, ops, answers, area);
    match op {
      case Drop(_) =>
        ghost var b :| b in Live(bs) && b.Data() == ptr;
        answer := Give(h, ptr, b);
        DropArea(bs, h.blocks, m0, h.mem, known, ops, answers, area, b);
      case Write(_, at, value) =>
        h.Poke(ptr + at, value);
        WriteArea(bs, h.brk, m0, h.mem, known, ops, answers, area, at, value);
      case Read(_, at) =>
        answer := h.mem(ptr + at);
        SameAreas(bs, m0, known, ops, answers, answer);
    }
  }

  lemma BlockIsAt(bs: seq<Block>, brk: nat, k: nat)
    requires Tiled(bs, brk) && k < |bs|
    ensures BlockAt(bs, bs[k].Data()) == k
  {
    var j := BlockAt(bs, bs[k].Data());
    FirstAt(bs, bs[k].Data(), k);
    if j < k {
      AddrUnique(bs, brk, j, k);
    }
  }

  lemma {:induction false} FirstAt(bs: seq<Block>, ptr: int, k: nat)
    requires k < |bs| && bs[k].Data() == ptr
    ensures BlockAt(bs, ptr) <= k
  {
    if bs[0].Data() != ptr {
      FirstAt(bs[1..], ptr, k - 1);
    }
  }

  /** my_free of a block in use, seen by what it takes from the blocks in use. */
  method Give(h: Heap, ptr: int, ghost b: Block) returns (answer: int)
    requires h.Valid() && h.relinked && b in Live(h.blocks) && b.Data() == ptr
    modifies h
    ensures h.Valid() && answer == 0
    ensures var k := BlockAt(old(h.blocks), ptr);
            k < |old(h.blocks)| && RowOf(h) == Row(Freed(old(h.blocks), k), FreedBreak(old(h.blocks), k, old(h.brk)))
    ensures Live(h.blocks) == old(Live(h.blocks)) - {b}
    ensures forall c :: c in old(Live(h.blocks)) && c != b ==> SameOn(h.mem, old(h.mem), c)
  {
    ghost var bs, brk := h.blocks, h.brk;
    ghost var k := h.Free(ptr);
    FreedKeeps(bs, brk, k);
    BlockIsAt(bs, brk, k);
    ghost var j :| 0 <= j < |bs| && bs[j] == b;
    if j != k {
      AddrUnique(bs, brk, if j < k then j else k, if j < k then k else j);
    }
    answer := 0;
  }

  /** Every history of allocations, frees, writes and reads. Each request is answered with the block that
      first fit gives on the row of that moment, and refused exactly when nothing fits and the break cannot
      be raised, or for no bytes. Areas held at the same time never overlap. Each read of a byte the client
      has written, or asked to be zero, gives that byte. The allocator is left valid, with the row that the
      history comes to and every area held backed by a block in use of its own. Uses of areas the client
      does not hold, and writes past what it asked for, are not made. */
  method RunHistory(start: nat, limit: nat, mem: int -> int, ops: seq<Op>) returns (answers: seq<int>, h: Heap)
    requires start > 0 && AllInRange(ops)
    ensures |answers| == |ops|
    ensures forall k :: 0 <= k < |ops| ==> AnsweredRight(start, limit, ops, answers, k)
    ensures forall k :: 0 <= k < |ops| ==> Faithful(ops, answers, k)
    ensures forall k :: 0 <= k <= |ops| ==> AreasApart(start, limit, ops, answers[..k])
    ensures h.Valid() && RowOf(h) == RowAfter(start, limit, ops, answers)
    ensures Tracks(h.blocks, h.mem, Known(ops, answers), ops, answers)
  {
    h := new Heap(start, limit, true, mem);
    answers := [];
    TracksApart(start, limit, ops, [], h.blocks, h.brk, h.mem);
    while |answers| < |ops|
      invariant fresh(h) && h.relinked && h.limit == limit && h.Valid() && |answers| <= |ops|
      invariant RowOf(h) == RowAfter(start, limit, ops, answers)
      invariant Tracks(h.blocks, h.mem, Known(ops, answers), ops, answers)
      invariant AllRight(start, limit, ops, answers)
    {
      var answer := Perform(h, start, ops, answers);
      ghost var more := answers + [answer];
      assert Tiled(h.blocks, h.brk);
      TracksApart(start, limit, ops, more, h.blocks, h.brk, h.mem);
      OneMore(start, limit, ops, answers, answer);
      answers := answers + [answer];
    }
    assert answers[..|ops|] == answers;
  }

  /** The next operation of the history. */
  method Perform(h: Heap, ghost start: nat, ops: seq<Op>, answers: seq<int>) returns (answer: int)
    requires h.Valid() && h.relinked && |answers| < |ops| && AllInRange(ops)
    requires RowOf(h) == RowAfter(start, h.limit, ops, answers)
    requires Tracks(h.blocks, h.mem, Known(ops, answers), ops, answers)
    modifies h
    ensures h.Valid() && RowOf(h) == RowAfter(start, h.limit, ops, answers + [answer])
    ensures Tracks(h.blocks, h.mem, Known(ops, answers + [answer]), ops, answers + [answer])
    ensures AnsweredRight(start, h.limit, ops, answers + [answer], |answers|)
    ensures Faithful(ops, answers + [answer], |answers|)
  {
    hide Tracks, Served, ServedBlock, ServedBreak, Freed, FreedBreak, Tiled, Settled, Represents, BlockAt, Refused;
    var op := ops[|answers|];
    var known := Known(ops, answers);
    answer := 0;
    if op.New? || op.NewZeroed? {
      answer := Allocate(h, op, ops, answers);
    } else if op.area in known && op.area < |answers| && (op.Write? ==> op.at < Requested(ops[op.area])) {
      answer := Use(h, op, op.area, answers[op.area], ops, answers);
    } else {
      SkipArea(h.blocks, h.mem, ops, answers);
    }
    OneMoreStep(start, h.limit, ops, answers, answer);
  }

  lemma OneMoreStep(start: nat, limit: nat, ops: seq<Op>, answers: seq<int>, answer: int)
    requires |answers| < |ops| && AllInRange(ops)
    ensures (answers + [answer])[..|answers|] == answers
    ensures Known(ops, answers + [answer]) == After(Known(ops, answers), ops, |answers|, answer)
    ensures RowAfter(start, limit, ops, answers + [answer])
            == RowStep(RowAfter(start, limit, ops, answers), limit, ops[|answers|], Held(ops, answers))
  {
    assert (answers + [answer])[..|answers|] == answers;
  }

  lemma SkipArea(bs: seq<Block>, mem: int -> int, ops: seq<Op>, answers: seq<int>)
    requires |answers| < |ops| && Tracks(bs, mem, Known(ops, answers), ops, answers)
    requires var op := ops[|answers|];
             !op.New? && !op.NewZeroed?
             && !(op.area in Known(ops, answers)
                  && op.area < |answers| && (op.Write? ==> op.at < Requested(ops[op.area])))
    ensures Tracks(bs, mem, After(Known(ops, answers), ops, |answers|, 0), ops, answers + [0])
    ensures Faithful(ops, answers + [0], |answers|)
  {
    var op, known := ops[|answers|], Known(ops, answers);
    assert (answers + [0])[..|answers|] == answers;
    if op.area in known {
      assert Backed(bs, mem, known, ops, answers, op.area);
    }
    SameAreas(bs, mem, known, ops, answers, 0);
    assert known - {op.area} == known || op.area in known;
  }

  /** Everything said so far about the answers. */
  ghost predicate AllRight(start: nat, limit: nat, ops: seq<Op>, answers: seq<int>)
    requires |answers| <= |ops| && AllInRange(ops)
  {
    && (forall k :: 0 <= k < |answers| ==> AnsweredRight(start, limit, ops, answers, k))
    && (forall k :: 0 <= k < |answers| ==> Faithful(ops, answers, k))
    && (forall k :: 0 <= k <= |answers| ==> AreasApart(start, limit, ops, answers[..k]))
  }

  lemma OneMore(start: nat, limit: nat, ops: seq<Op>, answers: seq<int>, answer: int)
    requires |answers| < |ops| && AllInRange(ops) && AllRight(start, limit, ops, answers)
    requires AnsweredRight(start, limit, ops, answers + [answer], |answers|)
    requires Faithful(ops, answers + [answer], |answers|)
    requires AreasApart(start, limit, ops, answers + [answer])
    ensures AllRight(start, limit, ops, answers + [answer])
  {
    hide Known, RowAfter, Granted, AreasApart, RowStep;
    var more := answers + [answer];
    assert more[..|more|] == more;
    forall k | 0 <= k <= |answers|
      ensures AreasApart(start, limit, ops, more[..k])
      ensures k < |answers| ==> Faithful(ops, more, k) && AnsweredRight(start, limit, ops, more, k)
    {
      assert more[..k] == answers[..k];
      assert k < |answers| ==> Faithful(ops, answers, k) && AnsweredRight(start, limit, ops, answers, k);
    }
  }

  /** The code as it stands, without the two updates: after two requests and freeing the second, the header
      of the first block, which is in use, still points to the released one. So the walk of the next my_malloc
      goes from the first block to an address at the break and reads a header where there is none. */
  method ForgottenLinkShows(start: nat, mem: int -> int) returns (h: Heap)
    requires start > 0
    ensures !h.relinked && h.Laid() && |h.blocks| == 1 && !h.Valid()
    ensures h.firstBlock == start && !h.blocks[0].free
    ensures start in h.hdr && h.hdr[start].next == h.brk && h.brk !in h.hdr
  {
    h := new Heap(start, start + 2 * (HEADER + 8), false, mem);
    Align8Exact(8);
    var p := h.Malloc(8);
    var q := h.Malloc(8);
    assert h.blocks == [Block(start, 8, false), Block(start + HEADER + 8, 8, false)];
    ghost var k := h.Free(q);
  }

  /** And after splitting a block with another one behind it, that one still points back past the new block. */
  method ForgottenBackLinkShows(start: nat, mem: int -> int) returns (h: Heap)
    requires start > 0
    ensures !h.relinked && h.Laid() && |h.blocks| == 3 && !h.Valid()
    ensures var last := h.blocks[2].addr; last in h.hdr && h.hdr[last].prev == h.blocks[0].addr != h.blocks[1].addr
  {
    h := new Heap(start, start + 2 * HEADER + 64, false, mem);
    Align8Exact(56);
    Align8Exact(8);
    var p := h.Malloc(56);
    var q := h.Malloc(8);
    assert h.blocks == [Block(start, 56, false), Block(start + HEADER + 56, 8, false)];
    ghost var k := h.Free(p);
    assert h.blocks == [Block(start, 56, true), Block(start + HEADER + 56, 8, false)];
    assert FirstFit(h.blocks, 8) == Some(0);
    var r := h.Malloc(8);
  }
}
