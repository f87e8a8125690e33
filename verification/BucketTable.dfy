/** The table of token buckets, its refill handler, and fetch and return as the program runs them, with the
    handler breaking in between their loads and stores. */
module BucketTable {
  import opened Common
  import opened TokenBucket

  const MYTBF_MAX: nat := 1024

  // ---------- what a run of the step system can reach ----------

  ghost predicate Reaches(b: Bucket, c: Bucket) {
    exists moves :: Run(b, moves) == c
  }

  lemma ReachesSelf(b: Bucket)
    ensures Reaches(b, b)
  {
    assert Run(b, []) == b;
  }

  lemma ReachesNext(b: Bucket, c: Bucket, m: Move)
    requires Reaches(b, c)
    ensures Reaches(b, Step(c, m))
  {
    var moves :| Run(b, moves) == c;
    RunStep(b, moves, m);
    assert Run(b, moves + [m]) == Step(c, m);
  }

  class Job {
    const cps: Int
    const burst: Int
    var token: Int
    var pos: int

    constructor (cps: Int, burst: Int)
      ensures this.cps == cps && this.burst == burst && token == 0
    {
      this.cps, this.burst, token, pos := cps, burst, 0, -1;
    }

    /** The bucket of the step system stands for this job. */
    ghost predicate Is(b: Bucket)
      reads this
    {
      b.cps == cps && b.burst == burst && b.token == token
    }

    /** A count after `n` runs of the handler. */
    function Ticked(count: Int, n: nat): Int {
      if n == 0 then count else Min(Wrap(Ticked(count, n - 1) + cps), burst)
    }

    lemma {:induction false} TickedMore(count: Int, m: nat, n: nat)
      ensures Ticked(Ticked(count, m), n) == Ticked(count, m + n) && Ticked(count, 0) == count
    {
      hide Wrap, Min;
      if n > 0 {
        TickedMore(count, m, n - 1);
      }
    }

    /** What the handler does to one job. */
    method OnTick()
      modifies this`token
      ensures token == Min(Wrap(old(token) + cps), burst)
    {
      token := Wrap(token + cps);
      if token > burst {
        token := burst;
      }
    }

    /** The handler breaks in `times` times. */
    method Interrupt(times: nat, ghost b: Bucket, ghost c: Bucket) returns (ghost d: Bucket)
      requires Reaches(b, c) && Is(c)
      modifies this`token
      ensures Reaches(b, d) && Is(d) && d.pc == c.pc && d.fetched == c.fetched && d.returned == c.returned
      ensures token == Ticked(old(token), times)
      ensures Roomy(cps, burst) && cps > 0 && burst > 0 && c.token <= 0 && times > 0 ==> d.token > c.token
      ensures c.token <= burst ==> d.token <= burst
      ensures Roomy(cps, burst) && 0 < c.token <= burst ==> 0 < d.token
    {
      hide Reaches, Wrap;
      d := c;
      for i := 0 to times
        invariant Reaches(b, d) && Is(d) && d.pc == c.pc && d.fetched == c.fetched && d.returned == c.returned
        invariant token == Ticked(old(token), i)
        invariant c.token <= burst ==> d.token <= burst
        invariant Roomy(cps, burst) && cps > 0 && burst > 0 && c.token <= 0 ==>
                    d.token > c.token || (i == 0 && d.token == c.token)
        invariant Roomy(cps, burst) && 0 < c.token <= burst ==> 0 < d.token
      {
        OnTick();
        ReachesNext(b, d, Tick);
        d := Step(d, Tick);
      }
    }

    /** A fetch past its test, with the count `held`: what it takes is settled after `before` runs of the
        handler, the count it is taken from after `between` more, and any later runs are overwritten. Without
        runs it is exactly the smaller of count and size. */
    predicate Took(held: Int, size: Size, before: nat, between: nat, n: int)
      reads this
    {
      && n == Min(Ticked(held, before), size)
      && token == Wrap(Ticked(held, before + between) - n)
    }

    /** The runs of the handler in the first `w` pauses. */
    function Pauses(ticks: nat -> nat, w: nat): nat {
      if w == 0 then 0 else Pauses(ticks, w - 1) + 1 + ticks(w - 1)
    }

    /** The `w`-th pause is the first after which there is a token. */
    predicate WokenAt(count: Int, ticks: nat -> nat, w: nat) {
      && Ticked(count, Pauses(ticks, w)) > 0
      && forall v :: 0 <= v < w ==> Ticked(count, Pauses(ticks, v)) <= 0
    }

    /** `mytbf_fetchtoken`: -1 stands for -EINVAL, None for a call that still waits after `pauses` pauses.
        The handler breaks in `ticks(k)` times at the k-th point between two memory accesses, and at least
        once in each `pause`. Whatever it does, the call is a run of the step system that grants `n`. */
    method FetchToken(size: Int, pauses: nat, ticks: nat -> nat, ghost b: Bucket)
      returns (n: Option<int>, ghost c: Bucket)
      requires Is(b) && b.pc.Idle?
      modifies this`token
      ensures Reaches(b, c) && Is(c) && c.returned == b.returned
      ensures size < 0 ==> n == Some(-1) && c == b
      ensures size >= 0 && n.Some? ==> c.pc.Idle? && c.fetched == b.fetched + n.value && n.value <= size
      ensures n.None? ==> size >= 0 && c.pc == FetchTest(size) && c.fetched == b.fetched && token <= 0
      ensures n.None? ==> token == Ticked(old(token), Pauses(ticks, pauses))
      ensures size >= 0 && n.Some? ==>
                exists w: nat ::
                  && w <= pauses && WokenAt(old(token), ticks, w)
                  && Took(Ticked(old(token), Pauses(ticks, w)), size, ticks(w), ticks(w + 1), n.value)
      ensures size >= 0 && old(token) > 0 && (forall k :: ticks(k) == 0) ==>
                n == Some(Min(old(token), size)) && token == old(token) - n.value
      ensures Roomy(cps, burst) && cps > 0 && burst > 0 && pauses >= 1 - old(token) ==> n.Some?
      ensures Roomy(cps, burst) && old(token) <= burst && size > 0 && n.Some? ==> n.value > 0
    {
      hide Reaches, Wrap, Min, Ticked, Pauses, Took, WokenAt, Step;
      ReachesSelf(b);
      c := b;
      if size < 0 {
        return Some(-1), c;
      }
      c := Call(size, b, c);
      var waits;
      waits, c := Wait(size, pauses, ticks, b, c);
      if token <= 0 {
        return None, c;
      }
      var m;
      ghost var held := token;
      m, c := TakeOut(size, ticks(waits), ticks(waits + 1), ticks(waits + 2), b, c);
      assert Took(Ticked(old(token), Pauses(ticks, waits)), size, ticks(waits), ticks(waits + 1), m);
      if old(token) > 0 {
        NoTicks(old(token), size, m);
      }
      return Some(m), c;
    }

    lemma NoTicks(held: Int, size: Size, n: int)
      requires held > 0
      ensures Took(held, size, 0, 0, n) ==> n == Min(held, size) && token == held - n
    {
    }

    /** Entering the call. */
    ghost method Call(size: Size, b: Bucket, c0: Bucket) returns (c: Bucket)
      requires Reaches(b, c0) && c0.pc.Idle?
      ensures Reaches(b, c) && c == c0.(pc := FetchTest(size))
    {
      ReachesNext(b, c0, Fetch(size));
      c := Step(c0, Fetch(size));
    }

    /** What follows the test, with `i`, `j` and `k` runs of the handler in between. */
    method TakeOut(size: Size, i: nat, j: nat, k: nat, ghost b: Bucket, ghost c0: Bucket)
      returns (m: int, ghost c: Bucket)
      requires Reaches(b, c0) && Is(c0) && c0.pc == FetchTest(size) && token > 0
      modifies this`token
      ensures Reaches(b, c) && Is(c) && c.pc.Idle? && c.fetched == c0.fetched + m && c.returned == c0.returned
      ensures m <= size && Took(old(token), size, i, j, m)
      ensures Roomy(cps, burst) && old(token) <= burst && size > 0 ==> m > 0
    {
      hide Reaches, Wrap, Ticked;
      c := c0;
      ReachesNext(b, c, Go);
      c := Step(c, Go);
      c := Interrupt(i, b, c);
      var n: Int := Min(token, size);
      ReachesNext(b, c, Go);
      c := Step(c, Go);
      c := Interrupt(j, b, c);
      TickedMore(old(token), i, j);
      var reg := token;
      ReachesNext(b, c, Go);
      c := Step(c, Go);
      c := Interrupt(k, b, c);
      token := Wrap(reg - n);
      ReachesNext(b, c, Go);
      c := Step(c, Go);
      m := n;
    }

    /** `while (token <= 0) pause();` for at most `pauses` turns. */
    method Wait(size: Size, pauses: nat, ticks: nat -> nat, ghost b: Bucket, ghost c0: Bucket)
      returns (at: nat, ghost c: Bucket)
      requires Reaches(b, c0) && Is(c0) && c0.pc == FetchTest(size)
      modifies this`token
      ensures Reaches(b, c) && Is(c) && c.pc == c0.pc && c.fetched == c0.fetched && c.returned == c0.returned
      ensures token <= 0 ==> at == pauses
      ensures at <= pauses && token == Ticked(old(token), Pauses(ticks, at))
      ensures token > 0 ==> WokenAt(old(token), ticks, at)
      ensures old(token) > 0 ==> at == 0 && token == old(token)
      ensures Roomy(cps, burst) && cps > 0 && burst > 0 && pauses >= 1 - c0.token ==> token > 0
      ensures c0.token <= burst ==> token <= burst
    {
      hide Reaches, Wrap, Ticked, Pauses;
      at, c := 0, c0;
      NoPauses(ticks);
      TickedMore(token, 0, 0);
      while token <= 0 && at < pauses
        invariant at <= pauses && Reaches(b, c) && Is(c) && c.pc == c0.pc
        invariant token == Ticked(old(token), Pauses(ticks, at))
        invariant old(token) > 0 ==> at == 0 && token == old(token)
        invariant forall v :: 0 <= v < at ==> Ticked(old(token), Pauses(ticks, v)) <= 0
        invariant c.fetched == c0.fetched && c.returned == c0.returned
        invariant Roomy(cps, burst) && cps > 0 && burst > 0 && token <= 0 ==> token >= c0.token + at
        invariant c0.token <= burst ==> token <= burst
        decreases pauses - at
      {
        TickedMore(old(token), Pauses(ticks, at), 1 + ticks(at));
        OnePause(ticks, at);
        c := Interrupt(1 + ticks(at), b, c);
        at := at + 1;
      }
    }

    lemma NoPauses(ticks: nat -> nat)
      ensures Pauses(ticks, 0) == 0
    {
    }

    lemma OnePause(ticks: nat -> nat, w: nat)
      ensures Pauses(ticks, w + 1) == Pauses(ticks, w) + (1 + ticks(w))
    {
    }

    /** `mytbf_returntoken`, likewise. The runs of the handler before the load and between store and test count,
        those between load and store and before the cap are overwritten. */
    method ReturnToken(size: Int, ticks: nat -> nat, ghost b: Bucket) returns (r: int, ghost c: Bucket)
      requires Is(b) && b.pc.Idle?
      modifies this`token
      ensures Reaches(b, c) && Is(c) && c.pc.Idle? && c.fetched == b.fetched
      ensures if size < 0 then r == -1 && c == b else r == 0 && c.returned == b.returned + size
      ensures size < 0 ==> token == old(token)
      ensures size >= 0 ==> token == Min(Ticked(Wrap(Ticked(old(token), ticks(0)) + size), ticks(2)), burst)
      ensures size >= 0 && (forall k :: ticks(k) == 0) ==> token == Min(Wrap(old(token) + size), burst)
    {
      hide Reaches, Wrap, Ticked, Step, Min;
      ReachesSelf(b);
      c := b;
      if size < 0 {
        return -1, c;
      }
      TickedMore(token, 0, 0);
      TickedMore(Wrap(token + size), 0, 0);
      c := PutIn(size, ticks(0), ticks(1), b, c);
      c := Interrupt(ticks(2), b, c);
      c := CutDown(size, ticks(3), b, c);
      return 0, c;
    }

    /** `token += size`, with `i` runs of the handler before it and `j` inside. */
    method PutIn(size: Size, i: nat, j: nat, ghost b: Bucket, ghost c0: Bucket) returns (ghost c: Bucket)
      requires Reaches(b, c0) && Is(c0) && c0.pc.Idle?
      modifies this`token
      ensures Reaches(b, c) && Is(c) && c.pc == ReturnTest(size)
      ensures c.fetched == c0.fetched && c.returned == c0.returned
      ensures token == Wrap(Ticked(old(token), i) + size)
    {
      hide Reaches, Wrap, Ticked;
      ReachesNext(b, c0, Return(size));
      c := Step(c0, Return(size));
      c := Interrupt(i, b, c);
      var reg := token;
      ReachesNext(b, c, Go);
      c := Step(c, Go);
      c := Interrupt(j, b, c);
      token := Wrap(reg + size);
      ReachesNext(b, c, Go);
      c := Step(c, Go);
    }

    /** `if (token > burst) token = burst`, with `k` runs of the handler in between. */
    method CutDown(size: Size, k: nat, ghost b: Bucket, ghost c0: Bucket) returns (ghost c: Bucket)
      requires Reaches(b, c0) && Is(c0) && c0.pc == ReturnTest(size)
      modifies this`token
      ensures Reaches(b, c) && Is(c) && c.pc.Idle?
      ensures c.fetched == c0.fetched && c.returned == c0.returned + size
      ensures token == Min(old(token), burst)
    {
      hide Reaches, Wrap, Ticked;
      c := c0;
      ReachesNext(b, c, Go);
      c := Step(c, Go);
      if token > burst {
        c := Interrupt(k, b, c);
        token := burst;
        ReachesNext(b, c, Go);
        c := Step(c, Go);
      }
    }
  }

  // ---------- the table ----------

  class Table {
    const job: array<Job?>

    constructor ()
      ensures fresh(job) && Valid() && forall i :: 0 <= i < MYTBF_MAX ==> job[i] == null
    {
      job := new Job?[MYTBF_MAX](_ => null);
    }

    /** A job knows its slot, so no job is in two slots. */
    ghost predicate Valid()
      reads this, job, set i | 0 <= i < job.Length :: job[i]
    {
      job.Length == MYTBF_MAX && forall i :: 0 <= i < job.Length && job[i] != null ==> job[i].pos == i
    }

    /** `alrm_handler`: every job in the table is refilled once, no other is touched. */
    method AlrmHandler()
      requires Valid()
      modifies set i | 0 <= i < job.Length :: job[i]`token
      ensures Valid()
      ensures forall i :: 0 <= i < job.Length && job[i] != null ==>
                job[i].token == Min(Wrap(old(job[i].token) + job[i].cps), job[i].burst)
    {
      for i := 0 to MYTBF_MAX
        invariant Valid()
        invariant forall k :: 0 <= k < i && job[k] != null ==>
                    job[k].token == Min(Wrap(old(job[k].token) + job[k].cps), job[k].burst)
        invariant forall k :: i <= k < job.Length && job[k] != null ==> job[k].token == old(job[k].token)
      {
        if job[i] != null {
          job[i].OnTick();
        }
      }
    }

    /** `get_free_pos` */
    method GetFreePos() returns (pos: int)
      requires Valid()
      ensures pos == -1 <==> forall i :: 0 <= i < job.Length ==> job[i] != null
      ensures pos != -1 ==> 0 <= pos < job.Length && job[pos] == null && forall i :: 0 <= i < pos ==> job[i] != null
    {
      for i := 0 to MYTBF_MAX
        invariant forall k :: 0 <= k < i ==> job[k] != null
      {
        if job[i] == null {
          return i;
        }
      }
      return -1;
    }

    /** `mytbf_init`: an empty bucket in the first free slot, or null when the table is full or memory is short. */
    method Init(cps: Int, burst: Int, mallocOk: bool) returns (me: Job?)
      requires Valid()
      modifies job
      ensures Valid()
      ensures me == null <==> !mallocOk || forall i :: 0 <= i < job.Length ==> old(job[i]) != null
      ensures me == null ==> job[..] == old(job[..])
      ensures me != null ==>
        && fresh(me) && me.Is(TokenBucket.Init(cps, burst))
        && 0 <= me.pos < job.Length && old(job[..])[me.pos] == null
        && job[..] == old(job[..])[me.pos := me]
    {
      if !mallocOk {
        return null;
      }
      var made := new Job(cps, burst);
      var pos := GetFreePos();
      if pos < 0 {
        return null;
      }
      made.pos := pos;
      job[pos] := made;
      me := made;
    }

    /** `mytbf_destroy` of a job from this table frees its slot and no other. */
    method Destroy(me: Job)
      requires Valid() && me in job[..]
      modifies job
      ensures Valid() && job[..] == old(job[..])[me.pos := null] && me !in job[..]
    {
      job[me.pos] := null;
    }
  }
}
