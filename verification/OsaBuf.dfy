/** The buffer pool of osa_buf.c: buffers as ownership tokens moving between the
    two rings, the writer and the readers, in every interleaving of the sections
    the code runs atomically. */
module OsaBuf {
  import opened OsaQue
  import opened Finite

  const INVALID: int := -1

  /** empty and full are the two rings. writer holds the ids the writer got,
      filling those it is putting (reader count reset, put not done), held those
      got by readers with the releases still due, returning those whose last
      release was counted while the put into the empty ring is not done. */
  datatype Pool = Pool(
    numBuf: nat, numReaders: nat, empty: seq<int>, full: seq<int>, curReaders: seq<int>,
    writer: set<int>, filling: set<int>, held: map<int, int>, returning: set<int>)

  function One(b: bool): nat { if b then 1 else 0 }

  /** Number of places an id is in. */
  ghost function Holders(p: Pool, id: int): nat {
    One(id in p.empty) + One(id in p.full) + One(id in p.writer) + One(id in p.filling)
    + One(id in p.held) + One(id in p.returning)
  }

  /** Every buffer is in exactly one place, once if that is a ring, and nothing
      else is in any place. */
  ghost predicate Partition(p: Pool) {
    && Distinct(p.empty) && Distinct(p.full)
    && forall id :: Holders(p, id) == One(0 <= id < p.numBuf)
  }

  /** The reader counts agree with the releases made of each full buffer. */
  ghost predicate Counts(p: Pool) {
    && |p.curReaders| == p.numBuf && p.numReaders >= 1
    && (forall id :: id in p.held ==>
          0 <= id < p.numBuf && 1 <= p.held[id] <= p.numReaders && p.curReaders[id] == p.numReaders - p.held[id])
    && (forall id :: 0 <= id < p.numBuf && (id in p.filling || id in p.full) ==> p.curReaders[id] == 0)
    && (forall id :: 0 <= id < p.numBuf && id in p.returning ==> p.curReaders[id] == p.numReaders)
  }

  ghost predicate Inv(p: Pool) { Partition(p) && Counts(p) }

  /** The atomic sections of osa_buf.c: a get from either ring, the two halves of
      OSA_bufPutFull, and the locked half and the put of OSA_bufPutEmpty. */
  datatype Step =
    | GetEmpty
    | ResetReaders(id: int)
    | PutFull(id: int)
    | GetFull
    | Release(id: int)
    | PutEmpty(id: int)

  /** What writer and readers may do: the writer puts what it holds, readers
      release a full buffer at most numReaders times. */
  ghost predicate Allowed(p: Pool, s: Step) {
    match s
    case GetEmpty => true
    case ResetReaders(id) => id in p.writer
    case PutFull(id) => id in p.filling
    case GetFull => true
    case Release(id) => id in p.held
    case PutEmpty(id) => id in p.returning
  }

  /** The code's effect; a put on a full ring would leave the pool as it is. */
  function Next(p: Pool, s: Step): Pool {
    match s
    case GetEmpty =>
      var (r, q) := Take(p.empty);
      if r.Some? then p.(empty := q, writer := p.writer + {r.value}) else p
    case ResetReaders(id) =>
      if 0 <= id < |p.curReaders|
      then p.(curReaders := p.curReaders[id := 0], writer := p.writer - {id}, filling := p.filling + {id})
      else p
    case PutFull(id) =>
      var (ok, q) := Offer(p.numBuf, p.full, id);
      if ok then p.(full := q, filling := p.filling - {id}) else p
    case GetFull =>
      var (r, q) := Take(p.full);
      if r.Some? then p.(full := q, held := p.held[r.value := p.numReaders]) else p
    case Release(id) =>
      if 0 <= id < |p.curReaders| && id in p.held then
        var p1 := p.(curReaders := p.curReaders[id := p.curReaders[id] + 1]);
        if p1.curReaders[id] == p.numReaders
        then p1.(held := p.held - {id}, returning := p.returning + {id})
        else p1.(held := p.held[id := p.held[id] - 1])
      else p
    case PutEmpty(id) =>
      var (ok, q) := Offer(p.numBuf, p.empty, id);
      if ok then p.(empty := q, returning := p.returning - {id}) else p
  }

  /** A buffer about to be put leaves a free place in both rings. */
  lemma RoomForHand(p: Pool, id: int)
    requires Partition(p) && (id in p.writer || id in p.filling || id in p.held || id in p.returning)
    ensures |p.empty| < p.numBuf && |p.full| < p.numBuf && id !in p.empty && id !in p.full && 0 <= id < p.numBuf
  {
    assert Holders(p, id) == One(0 <= id < p.numBuf);
    DistinctSize(p.empty);
    DistinctSize(p.full);
    var e, f := Elems(p.empty), Elems(p.full);
    forall x | x in e + f + {id} ensures x in Below(p.numBuf) && (x in e ==> x !in f) {
      assert Holders(p, x) == One(0 <= x < p.numBuf);
    }
    assert |e + f + {id}| == |e| + |f| + 1;
    SubsetSize(e + f + {id}, Below(p.numBuf));
  }

  lemma Popped(q: seq<int>)
    requires Distinct(q) && q != []
    ensures Distinct(q[1..]) && forall x :: x in q[1..] <==> x in q && x != q[0]
  {
    assert q == [q[0]] + q[1..];
  }

  lemma IdsInRange(p: Pool)
    requires Partition(p)
    ensures forall id :: id in p.empty || id in p.full ==> 0 <= id < p.numBuf
  {
    forall id | id in p.empty || id in p.full ensures 0 <= id < p.numBuf {
      assert Holders(p, id) == One(0 <= id < p.numBuf);
    }
  }

  lemma GetKeepsInv(p: Pool, s: Step)
    requires Inv(p) && (s.GetEmpty? || s.GetFull?)
    ensures Inv(Next(p, s))
  {
    var q := if s.GetEmpty? then p.empty else p.full;
    if q != [] {
      var p1 := Next(p, s);
      Popped(q);
      assert Holders(p, q[0]) == One(0 <= q[0] < p.numBuf);
      forall id ensures Holders(p1, id) == One(0 <= id < p.numBuf) { assert Holders(p, id) == One(0 <= id < p.numBuf); }
    }
  }

  lemma WriterKeepsInv(p: Pool, s: Step)
    requires Inv(p) && (s.ResetReaders? || s.PutFull?) && Allowed(p, s)
    ensures Inv(Next(p, s))
  {
    RoomForHand(p, s.id);
    var p1 := Next(p, s);
    assert Holders(p, s.id) == 1;
    forall id ensures Holders(p1, id) == One(0 <= id < p.numBuf) { assert Holders(p, id) == One(0 <= id < p.numBuf); }
  }

  lemma ReaderKeepsInv(p: Pool, s: Step)
    requires Inv(p) && (s.Release? || s.PutEmpty?) && Allowed(p, s)
    ensures Inv(Next(p, s))
  {
    RoomForHand(p, s.id);
    var p1 := Next(p, s);
    assert Holders(p, s.id) == 1;
    forall id ensures Holders(p1, id) == One(0 <= id < p.numBuf) { assert Holders(p, id) == One(0 <= id < p.numBuf); }
  }

  lemma StepKeepsInv(p: Pool, s: Step)
    requires Inv(p) && Allowed(p, s)
    ensures Inv(Next(p, s))
  {
    match s
    case GetEmpty => GetKeepsInv(p, s);
    case GetFull => GetKeepsInv(p, s);
    case ResetReaders(_) => WriterKeepsInv(p, s);
    case PutFull(_) => WriterKeepsInv(p, s);
    case Release(_) => ReaderKeepsInv(p, s);
    case PutEmpty(_) => ReaderKeepsInv(p, s);
  }

  /** A put finds its ring full: the code would block in it. */
  predicate Blocks(p: Pool, s: Step) {
    (s.PutFull? && !Offer(p.numBuf, p.full, s.id).0) || (s.PutEmpty? && !Offer(p.numBuf, p.empty, s.id).0)
  }

  ghost predicate IsRun(p: Pool, steps: seq<Step>)
    decreases |steps|
  {
    steps == [] || (Allowed(p, steps[0]) && IsRun(Next(p, steps[0]), steps[1..]))
  }

  function After(p: Pool, steps: seq<Step>): Pool
    decreases |steps|
  {
    if steps == [] then p else After(Next(p, steps[0]), steps[1..])
  }

  /** In every interleaving every buffer is in exactly one place at all times, and
      no put is ever made on a full ring. */
  lemma {:induction false} PoolPartition(p: Pool, steps: seq<Step>)
    requires Inv(p) && IsRun(p, steps)
    ensures Inv(After(p, steps))
    ensures forall s :: Allowed(After(p, steps), s) ==> !Blocks(After(p, steps), s)
    decreases |steps|
  {
    if steps == [] {
      forall s | Allowed(p, s) ensures !Blocks(p, s) {
        if s.PutFull? || s.PutEmpty? { RoomForHand(p, s.id); }
      }
    } else {
      StepKeepsInv(p, steps[0]);
      PoolPartition(Next(p, steps[0]), steps[1..]);
    }
  }

  // ----- a buffer goes back after its last reader -----

  function Releases(steps: seq<Step>, id: int): nat {
    if steps == [] then 0 else One(steps[0] == Release(id)) + Releases(steps[1..], id)
  }

  /** From when readers hold a buffer until it is put back: releases made and releases
      due add up, and it is on its way back exactly when none is due. */
  lemma {:induction false} ReleasesAddUp(p: Pool, steps: seq<Step>, id: int)
    requires Inv(p) && IsRun(p, steps) && PutEmpty(id) !in steps
    requires id in p.held || id in p.returning
    ensures var due, q := if id in p.held then p.held[id] else 0, After(p, steps);
            if id in q.held then Releases(steps, id) == due - q.held[id]
            else id in q.returning && Releases(steps, id) == due
    decreases |steps|
  {
    if steps != [] {
      var p1 := Next(p, steps[0]);
      StepKeepsInv(p, steps[0]);
      HeldStep(p, steps[0], id);
      assert PutEmpty(id) !in steps[1..];
      ReleasesAddUp(p1, steps[1..], id);
    }
  }

  /** Only a release of the buffer changes what is due, by one. */
  lemma HeldStep(p: Pool, s: Step, id: int)
    requires Inv(p) && Allowed(p, s) && s != PutEmpty(id) && (id in p.held || id in p.returning)
    ensures var p1 := Next(p, s);
            if s == Release(id) then
              id in p.held && if p.held[id] == 1 then id in p1.returning && id !in p1.held
                              else id in p1.held && p1.held[id] == p.held[id] - 1
            else (id in p1.held <==> id in p.held) && (id in p1.returning <==> id in p.returning)
                 && (id in p.held ==> p1.held[id] == p.held[id])
  {
    assert Holders(p, id) == One(0 <= id < p.numBuf);
  }

  /** Between the get of a full buffer and its return to the empty ring there are exactly
      as many releases as readers: it may be put back after these steps exactly if they
      hold that many. */
  lemma LastReaderReturns(p: Pool, steps: seq<Step>, id: int)
    requires Inv(p) && p.full != [] && p.full[0] == id
    requires IsRun(Next(p, GetFull), steps) && PutEmpty(id) !in steps
    ensures Allowed(After(Next(p, GetFull), steps), PutEmpty(id)) <==> Releases(steps, id) == p.numReaders
  {
    StepKeepsInv(p, GetFull);
    var p1 := Next(p, GetFull);
    assert p1.held[id] == p.numReaders;
    ReleasesAddUp(p1, steps, id);
    PoolPartition(p1, steps);
    var q := After(p1, steps);
    assert Holders(q, id) == One(0 <= id < q.numBuf);
  }

  // ----- the calls of osa_buf.c, made by threads that own what they put -----

  const SOK: int := 0
  const EFAIL: int := -1
  const NUM_MAX: int := 16

  /** The pool a creation leaves: every buffer in the empty ring. */
  function Created(numBuf: nat, numReaders: nat): Pool {
    Pool(numBuf, numReaders, Ids(numBuf), [], Zeros(numBuf), {}, {}, map[], {})
  }

  function Ids(n: nat): (s: seq<int>)
    ensures |s| == n && forall i :: 0 <= i < n ==> s[i] == i
  {
    if n == 0 then [] else Ids(n - 1) + [n - 1]
  }

  function Zeros(n: nat): (s: seq<int>)
    ensures |s| == n && forall i :: 0 <= i < n ==> s[i] == 0
  {
    if n == 0 then [] else Zeros(n - 1) + [0]
  }

  lemma CreatedInv(numBuf: nat, numReaders: nat)
    requires numReaders >= 1
    ensures Inv(Created(numBuf, numReaders))
  {
    var p := Created(numBuf, numReaders);
    forall id ensures Holders(p, id) == One(0 <= id < numBuf) {
      if 0 <= id < numBuf { assert p.empty[id] == id; }
    }
  }

  function PutFullSpec(p: Pool, id: int): Pool { Next(Next(p, ResetReaders(id)), PutFull(id)) }

  function PutEmptySpec(p: Pool, id: int): Pool {
    var p1 := Next(p, Release(id));
    if id in p1.returning then Next(p1, PutEmpty(id)) else p1
  }

  /** The switch calls take the new buffer first and then give up the old one.
      As the get reports success whether or not it got a buffer, the old one is
      given up in both cases. */
  function SwitchFullSpec(p: Pool, id: int): Pool {
    var p1 := Next(p, GetEmpty);
    if id == INVALID then p1 else PutFullSpec(p1, id)
  }

  function SwitchEmptySpec(p: Pool, id: int): Pool {
    var p1 := Next(p, GetFull);
    if id == INVALID then p1 else PutEmptySpec(p1, id)
  }

  function Head(q: seq<int>): int { if q == [] then INVALID else q[0] }

  /** A get takes the oldest buffer of its ring, for the writer or for all readers. */
  lemma Got(p: Pool)
    requires Partition(p)
    ensures Next(p, GetEmpty) == if p.empty == [] then p
                                 else p.(empty := p.empty[1..], writer := p.writer + {p.empty[0]})
    ensures Next(p, GetFull) == if p.full == [] then p
                                else p.(full := p.full[1..], held := p.held[p.full[0] := p.numReaders])
    ensures p.empty == [] <==> Head(p.empty) == INVALID
    ensures p.full == [] <==> Head(p.full) == INVALID
  {
    IdsInRange(p);
    assert p.empty != [] ==> p.empty[0] in p.empty;
    assert p.full != [] ==> p.full[0] in p.full;
  }

  class BufHndl {
    const numBuf: nat
    const numReaders: nat
    const emptyQue: Que
    const fullQue: Que
    const curReaders: array<int>
    /** The rings, the counts, and who owns the buffers in neither ring. */
    ghost var pool: Pool

    ghost predicate Valid()
      reads this, emptyQue, emptyQue.queue, fullQue, fullQue.queue, curReaders
    {
      && emptyQue.Valid() && fullQue.Valid() && emptyQue.len == fullQue.len == numBuf
      && emptyQue != fullQue && emptyQue.queue != fullQue.queue
      && curReaders != emptyQue.queue && curReaders != fullQue.queue
      && pool.empty == emptyQue.contents && pool.full == fullQue.contents && pool.curReaders == curReaders[..]
      && pool.numBuf == numBuf && pool.numReaders == numReaders && Inv(pool)
    }

    /** OSA_bufCreate, for a number of buffers it accepts. */
    constructor (numBuf: nat, numReaders: int)
      requires numBuf <= NUM_MAX
      ensures Valid() && pool == Created(numBuf, if numReaders <= 0 then 1 else numReaders)
      ensures fresh(emptyQue) && fresh(emptyQue.queue) && fresh(fullQue) && fresh(fullQue.queue) && fresh(curReaders)
    {
      this.numBuf := numBuf;
      this.numReaders := if numReaders <= 0 then 1 else numReaders;
      emptyQue := new Que(numBuf);
      fullQue := new Que(numBuf);
      curReaders := new int[numBuf];
      new;
      var i := 0;
      while i < numBuf
        invariant 0 <= i <= numBuf && emptyQue.Valid() && fullQue.Valid()
        invariant emptyQue.contents == Ids(i) && fullQue.contents == []
        invariant curReaders[..i] == Zeros(i)
        modifies emptyQue, emptyQue.queue, curReaders
      {
        curReaders[i] := 0;
        var ok := emptyQue.PutPass(i);
        i := i + 1;
      }
      CreatedInv(numBuf, this.numReaders);
      pool := Created(numBuf, this.numReaders);
    }

    /** OSA_bufCreate */
    static method BufCreate(numBuf: nat, numReaders: int) returns (status: int, hndl: BufHndl?)
      ensures numBuf > NUM_MAX ==> status == EFAIL && hndl == null
      ensures numBuf <= NUM_MAX ==>
                && status == SOK && hndl != null && fresh(hndl) && hndl.Valid()
                && hndl.pool == Created(numBuf, if numReaders <= 0 then 1 else numReaders)
    {
      if numBuf > NUM_MAX { return EFAIL, null; }
      hndl := new BufHndl(numBuf, numReaders);
      status := SOK;
    }

    /** OSA_bufGetEmpty without waiting. */
    method BufGetEmpty() returns (status: int, bufId: int)
      requires Valid()
      modifies this, emptyQue
      ensures Valid() && pool == Next(old(pool), GetEmpty)
      ensures bufId == INVALID ==> pool.writer == old(pool).writer
      ensures bufId != INVALID ==> pool.writer == old(pool).writer + {bufId}
      ensures status == SOK && bufId == Head(old(pool).empty)
    {
      GetKeepsInv(pool, GetEmpty);
      Got(pool);
      var r := emptyQue.GetPass();
      pool := Next(pool, GetEmpty);
      return SOK, if r.Some? then r.value else INVALID;
    }

    /** OSA_bufGetFull without waiting. */
    method BufGetFull() returns (status: int, bufId: int)
      requires Valid()
      modifies this, fullQue
      ensures Valid() && pool == Next(old(pool), GetFull)
      ensures bufId == INVALID ==> pool.held == old(pool).held
      ensures bufId != INVALID ==> pool.held == old(pool).held[bufId := numReaders]
      ensures status == SOK && bufId == Head(old(pool).full)
    {
      GetKeepsInv(pool, GetFull);
      Got(pool);
      var r := fullQue.GetPass();
      pool := Next(pool, GetFull);
      return SOK, if r.Some? then r.value else INVALID;
    }

    /** OSA_bufPutFull. The wait in it never happens: the first pass succeeds. */
    method BufPutFull(bufId: int) returns (status: int)
      requires Valid() && (0 <= bufId < numBuf ==> bufId in pool.writer)
      modifies this, fullQue, fullQue.queue, curReaders
      ensures Valid()
      ensures if 0 <= bufId < numBuf then status == SOK && pool == PutFullSpec(old(pool), bufId)
              else status == EFAIL && pool == old(pool)
      ensures 0 <= bufId < numBuf ==>
                pool.full == old(pool).full + [bufId] && pool.writer == old(pool).writer - {bufId}
    {
      if bufId >= numBuf || bufId < 0 { return EFAIL; }
      WriterKeepsInv(pool, ResetReaders(bufId));
      WriterKeepsInv(Next(pool, ResetReaders(bufId)), PutFull(bufId));
      RoomForHand(pool, bufId);
      curReaders[bufId] := 0;
      var ok := fullQue.PutPass(bufId);
      assert ok;
      pool := PutFullSpec(pool, bufId);
      return SOK;
    }

    /** OSA_bufPutEmpty. */
    method BufPutEmpty(bufId: int) returns (status: int)
      requires Valid() && (0 <= bufId < numBuf ==> bufId in pool.held)
      modifies this, emptyQue, emptyQue.queue, curReaders
      ensures Valid()
      ensures if 0 <= bufId < numBuf then status == SOK && pool == PutEmptySpec(old(pool), bufId)
              else status == EFAIL && pool == old(pool)
      ensures 0 <= bufId < numBuf && old(pool).held[bufId] == 1 ==>
                pool.empty == old(pool).empty + [bufId] && pool.held == old(pool).held - {bufId}
      ensures 0 <= bufId < numBuf && old(pool).held[bufId] != 1 ==>
                pool.empty == old(pool).empty && pool.held == old(pool).held[bufId := old(pool).held[bufId] - 1]
    {
      if bufId >= numBuf || bufId < 0 { return EFAIL; }
      var putBuf := false;
      ReaderKeepsInv(pool, Release(bufId));
      RoomForHand(pool, bufId);
      ghost var p1 := Next(pool, Release(bufId));
      curReaders[bufId] := curReaders[bufId] + 1;
      if curReaders[bufId] == numReaders { putBuf := true; }
      assert Holders(pool, bufId) == 1;
      if putBuf {
        ReaderKeepsInv(p1, PutEmpty(bufId));
        var ok := emptyQue.PutPass(bufId);
        assert ok;
      }
      pool := PutEmptySpec(pool, bufId);
      return SOK;
    }

    /** OSA_bufSwitchFull: the status is success even when no buffer was got. */
    method BufSwitchFull(bufId: int) returns (status: int, newBufId: int)
      requires Valid() && (bufId == INVALID || bufId in pool.writer)
      modifies this, emptyQue, fullQue, fullQue.queue, curReaders
      ensures Valid() && pool == SwitchFullSpec(old(pool), bufId)
      ensures status == SOK && newBufId == Head(old(pool).empty)
      ensures newBufId != INVALID ==> newBufId in pool.writer
      ensures bufId != INVALID ==> pool.full == old(pool).full + [bufId] && bufId !in pool.writer
    {
      if bufId != INVALID { RoomForHand(pool, bufId); }
      Got(pool);
      status, newBufId := BufGetEmpty();
      if bufId != INVALID {
        var st := BufPutFull(bufId);
      }
    }

    /** OSA_bufSwitchEmpty: likewise. */
    method BufSwitchEmpty(bufId: int) returns (status: int, newBufId: int)
      requires Valid() && (bufId == INVALID || bufId in pool.held)
      modifies this, fullQue, emptyQue, emptyQue.queue, curReaders
      ensures Valid() && pool == SwitchEmptySpec(old(pool), bufId)
      ensures status == SOK && newBufId == Head(old(pool).full)
      ensures newBufId != INVALID ==> newBufId in pool.held && pool.held[newBufId] == numReaders
      ensures bufId != INVALID && old(pool).held[bufId] == 1 ==>
                pool.empty == old(pool).empty + [bufId] && bufId !in pool.held
      ensures bufId != INVALID && old(pool).held[bufId] != 1 ==>
                && pool.empty == old(pool).empty && bufId in pool.held
                && pool.held[bufId] == old(pool).held[bufId] - 1
    {
      if bufId != INVALID { RoomForHand(pool, bufId); }
      Got(pool);
      status, newBufId := BufGetFull();
      if bufId != INVALID {
        var st := BufPutEmpty(bufId);
      }
    }
  }
}
