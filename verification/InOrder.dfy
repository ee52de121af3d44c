/** Delivery of a sender's stream through a network that reorders, drops and
    duplicates: the receive path on wrapped 16-bit and 32-bit fields does what
    the same buffer does on unwrapped integers, and that one delivers in order
    and at most once. */
module InOrder {
  import opened Wrappers
  import opened Modular
  import opened RtpQueue
  import opened Jitter
  import opened RtpReceive

  /** A sender numbers its packets consecutively; the n-th one carries the low
      bits of n and of its unwrapped timestamp ts(n). */
  datatype Sender = Sender(ts: int -> int, cc: int -> nat, size: int -> int, ssrc: u32, paytype: nat)

  function Wire(snd: Sender, n: int): Packet {
    Packet(2, snd.cc(n), snd.paytype, Wrap16(n), Wrap32(snd.ts(n)), snd.ssrc, snd.size(n))
  }

  function Wires(snd: Sender, ns: seq<int>): (ps: seq<Packet>)
    ensures |ps| == |ns| && forall i :: 0 <= i < |ns| ==> ps[i] == Wire(snd, ns[i])
  {
    seq(|ns|, i requires 0 <= i < |ns| => Wire(snd, ns[i]))
  }

  ghost predicate Increasing(q: seq<int>) { forall i, j :: 0 <= i < j < |q| ==> q[i] < q[j] }

  ghost predicate NonDecreasingTs(snd: Sender) { forall m, n :: m <= n ==> snd.ts(m) <= snd.ts(n) }

  // ----- rtp_putq on unwrapped numbers -----

  /** Number of leading elements below n. */
  function Below(q: seq<int>, n: int): (k: nat)
    ensures k <= |q|
    ensures forall i :: 0 <= i < k ==> q[i] < n
    ensures k < |q| ==> q[k] >= n
  {
    if q == [] || q[0] >= n then 0 else 1 + Below(q[1..], n)
  }

  function Insert(q: seq<int>, n: int): seq<int> {
    var k := Below(q, n);
    if k < |q| && q[k] == n then q else Spliced(q, k, n)
  }

  lemma InsertIncreasing(q: seq<int>, n: int)
    requires Increasing(q)
    ensures Increasing(Insert(q, n))
  {
    var k, r := Below(q, n), Insert(q, n);
    if r != q {
      forall i, j | 0 <= i < j < |r| ensures r[i] < r[j] {
        var a, b := if i < k then i else i - 1, if j < k then j else j - 1;
        if i != k && j != k { assert q[a] < q[b]; }
        else if i == k { assert q[k] <= q[b]; }
      }
    }
  }

  /** Insertion into a sorted queue is insertion into the set of its elements. */
  lemma {:induction false} InsertIsSetInsertion(q: seq<int>, n: int)
    requires Increasing(q)
    ensures Increasing(Insert(q, n))
    ensures forall m :: m in Insert(q, n) <==> m in q || m == n
    ensures |Insert(q, n)| == |q| + (if n in q then 0 else 1)
  {
    InsertIncreasing(q, n);
    var k := Below(q, n);
    if k < |q| && q[k] == n {
      assert n in q;
    } else {
      assert n !in q by { assert forall i :: k < i < |q| ==> q[k] < q[i]; }
      SplicedMembers(q, k, n);
    }
  }

  lemma SplicedMembers(q: seq<int>, k: nat, n: int)
    requires k <= |q|
    ensures forall m :: m in q[..k] + [n] + q[k..] <==> m in q || m == n
  {
    assert q == q[..k] + q[k..];
  }

  lemma OrderAgainst(q: seq<int>, n: int)
    requires forall i :: 0 <= i < |q| ==> -H16 <= n - q[i] < H16
    ensures forall i :: 0 <= i < |q| ==> SeqAgrees(n, q[i]) && (Wrap16(n) == Wrap16(q[i]) <==> n == q[i])
  {
    forall i | 0 <= i < |q|
      ensures SeqAgrees(n, q[i]) && (Wrap16(n) == Wrap16(q[i]) <==> n == q[i])
    {
      SeqOrder(n, q[i]);
    }
  }

  /** While the new number is within 2^15 of every queued one, rtp_putq on the
      wire packets is sorted insertion of the numbers. */
  lemma PutRefinesInsert(snd: Sender, q: seq<int>, n: int)
    requires Increasing(q) && forall i :: 0 <= i < |q| ==> -H16 <= n - q[i] < H16
    ensures PutSpec(Wires(snd, q), Wire(snd, n)) == Wires(snd, Insert(q, n))
  {
    OrderAgainst(q, n);
    var dropped, k := PutShape(Wires(snd, q), Wire(snd, n));
    if dropped {
      var i :| 0 <= i < |q| && Wires(snd, q)[i].seqno == Wrap16(n);
      assert q[i] == n;
      InsertOfMember(q, i);
    } else {
      assert k > 0 ==> SeqAgrees(n, q[k - 1]) && q[k - 1] < n;
      assert k < |q| ==> SeqAgrees(n, q[k]) && n < q[k];
      InsertAt(q, k, n);
      WiresSpliced(snd, q, k, n);
    }
  }

  /** Two packets come out in order exactly when the later number is less than
      2^15 ahead of the queued one, or the earlier at most 2^15 behind it. */
  lemma PairInOrderIff(snd: Sender, m: int, n: int)
    requires m < n < m + M16
    ensures PutSpec(Wires(snd, [m]), Wire(snd, n)) == Wires(snd, [m, n]) <==> n - m < H16
    ensures PutSpec(Wires(snd, [n]), Wire(snd, m)) == Wires(snd, [m, n]) <==> n - m <= H16
  {
    Wrap16Diff(n, m);
    Wrap16Diff(m, n);
    Wrap16Unique(m - n, -1, m - n + M16);
    var a, b := Wire(snd, m), Wire(snd, n);
    assert a.seqno != b.seqno;
    assert Wires(snd, [m]) == [a] && Wires(snd, [n]) == [b] && Wires(snd, [m, n]) == [a, b];
    assert [a][..0] == [] && [b][..0] == [];
    assert PutSpec([a], b) == if SeqIsGreater(b.seqno, a.seqno) then [a, b] else [b, a];
    assert PutSpec([b], a) == if SeqIsGreater(a.seqno, b.seqno) then [b, a] else [a, b];
  }

  lemma WiresSpliced(snd: Sender, q: seq<int>, k: nat, n: int)
    requires k <= |q|
    ensures Wires(snd, Spliced(q, k, n)) == Spliced(Wires(snd, q), k, Wire(snd, n))
  {
  }

  lemma {:induction false} BelowIs(q: seq<int>, k: nat, n: int)
    requires k <= |q| && (forall i :: 0 <= i < k ==> q[i] < n) && (k < |q| ==> q[k] >= n)
    ensures Below(q, n) == k
  {
    if k > 0 { BelowIs(q[1..], k - 1, n); }
  }

  lemma InsertOfMember(q: seq<int>, i: nat)
    requires Increasing(q) && i < |q|
    ensures Insert(q, q[i]) == q
  {
    BelowIs(q, i, q[i]);
  }

  lemma InsertAt(q: seq<int>, k: nat, n: int)
    requires Increasing(q) && k <= |q| && (k > 0 ==> q[k - 1] < n) && (k < |q| ==> n < q[k])
    ensures Insert(q, n) == Spliced(q, k, n)
  {
    BelowIs(q, k, n);
  }

  /** b follows a by 1 to 2^15, mod 2^16. */
  predicate Near(a: u16, b: u16) { 1 <= Wrap16(b - a) <= H16 }

  lemma NearAfter(a: u16, b: u16)
    requires a != b && (SeqIsGreater(b, a) || !SeqIsGreater(a, b))
    ensures Near(a, b)
  {
  }

  /** Whatever the arrivals, each packet is Near its predecessor. */
  ghost predicate Staggered(q: seq<Packet>) {
    forall i {:trigger q[i]} :: 0 < i < |q| ==> Near(q[i - 1].seqno, q[i].seqno)
  }

  lemma {:induction false} PutKeepsStaggered(q: seq<Packet>, p: Packet)
    requires Staggered(q)
    ensures Staggered(PutSpec(q, p))
  {
    var dropped, k := PutShape(q, p);
    if !dropped {
      SplicedStaggered(q, k, p);
    }
  }

  lemma SplicedStaggered(q: seq<Packet>, k: nat, p: Packet)
    requires Staggered(q) && k <= |q|
    requires k > 0 ==> p.seqno != q[k - 1].seqno && SeqIsGreater(p.seqno, q[k - 1].seqno)
    requires k < |q| ==> Passes(p, q[k])
    ensures Staggered(Spliced(q, k, p))
  {
    var r := Spliced(q, k, p);
    if k > 0 { NearAfter(q[k - 1].seqno, p.seqno); }
    if k < |q| { NearAfter(p.seqno, q[k].seqno); }
    forall i {:trigger r[i]} | 0 < i < |r| ensures Near(r[i - 1].seqno, r[i].seqno) {
      if i < k { assert r[i] == q[i] && r[i - 1] == q[i - 1]; }
      else if i > k + 1 { assert r[i] == q[i - 1] && r[i - 1] == q[i - 2]; }
    }
  }

  // ----- the lateness filter and rtp_getq on unwrapped timestamps -----

  ghost predicate FilterAgrees(t: int, last: int, jump: u32) {
    TooLate(Wrap32(t), Wrap32(last), jump) <==> t <= last
  }

  lemma {:induction false} FilterExact(t: int, last: int, jump: u32)
    requires 1 <= jump <= H32 && -H32 <= t - last - jump < H32
    ensures FilterAgrees(t, last, jump)
  {
    assert Wrap32(Wrap32(last) + jump) == Wrap32(last + jump) by { Wrap32Sum(jump, last); }
    TsOrder(t, last + jump);
    if t - last < jump { TsOrder(last, t); }
  }

  /** The widest interval of t - last around 0 on which the filter drops exactly
      the packets not newer than the last query is [jump - 2^31, jump + 2^31). */
  lemma FilterWindow(lo: int, hi: int, jump: u32)
    requires 1 <= jump <= H32 && lo <= 0 < hi
    ensures (forall t, last :: lo <= t - last < hi ==> FilterAgrees(t, last, jump))
            <==> jump - H32 <= lo && hi <= jump + H32
  {
    forall t, last | jump - H32 <= t - last < jump + H32 ensures FilterAgrees(t, last, jump) {
      FilterExact(t, last, jump);
    }
    assert !FilterAgrees(jump - H32 - 1, 0, jump) by {
      Wrap32Unique(jump - H32 - 1 - jump, -1, H32 - 1);
      Wrap32Diff(jump - H32 - 1, jump);
    }
    assert !FilterAgrees(jump + H32, 0, jump) by {
      Wrap32Unique(jump + H32 - jump, 0, H32);
      Wrap32Diff(jump + H32, jump);
      Wrap32Unique(0 - jump - H32, -1, H32 - jump);
      Wrap32Diff(0, jump + H32);
    }
  }

  predicate Due(snd: Sender, q: seq<int>, query: int, i: nat)
    requires i < |q|
  {
    snd.ts(q[i]) <= query && (i > 0 ==> snd.ts(q[i]) != snd.ts(q[i - 1]))
  }

  function DueFrom(snd: Sender, q: seq<int>, query: int, i: nat): (k: nat)
    requires i <= |q|
    ensures i <= k <= |q|
    ensures forall j :: i <= j < k ==> Due(snd, q, query, j)
    ensures k < |q| ==> !Due(snd, q, query, k)
    decreases |q| - i
  {
    if i < |q| && Due(snd, q, query, i) then DueFrom(snd, q, query, i + 1) else i
  }

  ghost predicate QueryWindow(snd: Sender, q: seq<int>, query: int) {
    forall i :: 0 <= i < |q| ==> -H32 <= query - snd.ts(q[i]) < H32
  }

  lemma SameWrapped(a: int, b: int)
    requires -M32 < a - b < M32
    ensures Wrap32(a) == Wrap32(b) <==> a == b
  {
  }

  lemma {:induction false} GetRefinesDue(snd: Sender, q: seq<int>, query: int, i: nat)
    requires i <= |q| && QueryWindow(snd, q, query)
    ensures TakenFrom(Wires(snd, q), Wrap32(query), i) == DueFrom(snd, q, query, i)
    decreases |q| - i
  {
    if i < |q| {
      TsOrder(query, snd.ts(q[i]));
      if i > 0 { SameWrapped(snd.ts(q[i]), snd.ts(q[i - 1])); }
      GetRefinesDue(snd, q, query, i + 1);
    }
  }

  /** With timestamps strictly growing along the queue, the packet taken is the
      newest one not newer than the query, and all that stay are newer. */
  lemma NewestNotNewer(snd: Sender, q: seq<int>, query: int)
    requires forall i, j :: 0 <= i < j < |q| ==> snd.ts(q[i]) < snd.ts(q[j])
    ensures var k := DueFrom(snd, q, query, 0);
            && (forall i :: 0 <= i < k ==> snd.ts(q[i]) <= query)
            && (forall i :: k <= i < |q| ==> snd.ts(q[i]) > query)
  {
    var k := DueFrom(snd, q, query, 0);
    forall i | 0 <= i < k ensures snd.ts(q[i]) <= query { assert Due(snd, q, query, i); }
    if k < |q| {
      assert k > 0 ==> snd.ts(q[k - 1]) < snd.ts(q[k]);
      assert snd.ts(q[k]) > query;
    }
  }

  // ----- the receive buffer on unwrapped integers -----

  datatype Buffer = Buffer(rq: seq<int>, sync: bool, diff: int, last: int)

  /** The buffer of a session that waits for its first packets. */
  const EMPTY: Buffer := Buffer([], true, 0, 0)

  datatype Delivery = Delivery(n: int, query: int)

  function Admit(snd: Sender, max: nat, b: Buffer, n: int): Buffer {
    var p := Wire(snd, n);
    if p.size < FIXED_HEADER || IsBad(p) || (!b.sync && snd.ts(n) <= b.last) || IsEmpty(p) then b
    else
      var q := Insert(b.rq, n);
      b.(rq := q[Excess(|q|, max)..])
  }

  function AdmitAll(snd: Sender, max: nat, b: Buffer, ns: seq<int>): Buffer {
    if ns == [] then b else Admit(snd, max, AdmitAll(snd, max, b, ns[..|ns| - 1]), ns[|ns| - 1])
  }

  function Serve(snd: Sender, comp: u32, b: Buffer, userTs: int): (Buffer, Option<Delivery>) {
    if b.sync then
      if b.rq == [] || snd.ts(b.rq[|b.rq| - 1]) - snd.ts(b.rq[0]) < comp then (b, None)
      else
        var n := b.rq[0];
        (Buffer(b.rq[1..], false, snd.ts(n) - userTs, snd.ts(n)), Some(Delivery(n, snd.ts(n))))
    else
      var query := userTs + b.diff;
      var k := DueFrom(snd, b.rq, query, 0);
      (b.(rq := b.rq[k..], last := query), if k == 0 then None else Some(Delivery(b.rq[k - 1], query)))
  }

  /** One call of the application, after these packets came in. */
  datatype Call = Call(arrivals: seq<int>, userTs: int)

  function Append<T>(log: seq<T>, r: Option<T>): seq<T> { if r.Some? then log + [r.value] else log }

  function RunBuffer(snd: Sender, max: nat, comp: u32, b: Buffer, calls: seq<Call>): (Buffer, seq<Delivery>) {
    if calls == [] then (b, [])
    else
      var (b1, log) := RunBuffer(snd, max, comp, b, calls[..|calls| - 1]);
      var c := calls[|calls| - 1];
      var (b2, r) := Serve(snd, comp, AdmitAll(snd, max, b1, c.arrivals), c.userTs);
      (b2, Append(log, r))
  }

  // ----- in order and at most once, with no window at all -----

  ghost predicate InOrderSoFar(snd: Sender, b: Buffer, log: seq<Delivery>) {
    && Increasing(b.rq)
    && (forall i, j :: 0 <= i < j < |log| ==> log[i].n < log[j].n)
    && (forall i :: 0 <= i < |log| ==> snd.ts(log[i].n) <= log[i].query)
    && (b.sync ==> log == [])
    && (log != [] ==> snd.ts(log[|log| - 1].n) <= b.last)
    && (forall i :: 0 <= i < |b.rq| && log != [] ==> log[|log| - 1].n < b.rq[i])
  }

  lemma AdmitInOrder(snd: Sender, max: nat, b: Buffer, n: int, log: seq<Delivery>)
    requires NonDecreasingTs(snd) && InOrderSoFar(snd, b, log)
    ensures InOrderSoFar(snd, Admit(snd, max, b, n), log)
  {
    var b1 := Admit(snd, max, b, n);
    if b1 != b {
      InsertIsSetInsertion(b.rq, n);
      var q := Insert(b.rq, n);
      if log != [] {
        var d := log[|log| - 1].n;
        assert n <= d ==> snd.ts(n) <= snd.ts(d);
        forall i | 0 <= i < |b1.rq| ensures d < b1.rq[i] {
          assert b1.rq[i] in q;
        }
      }
    }
  }

  lemma {:induction false} AdmitAllInOrder(snd: Sender, max: nat, b: Buffer, ns: seq<int>, log: seq<Delivery>)
    requires NonDecreasingTs(snd) && InOrderSoFar(snd, b, log)
    ensures var b1 := AdmitAll(snd, max, b, ns);
            InOrderSoFar(snd, b1, log) && b1.(rq := []) == b.(rq := [])
  {
    if ns != [] {
      AdmitAllInOrder(snd, max, b, ns[..|ns| - 1], log);
      AdmitInOrder(snd, max, AdmitAll(snd, max, b, ns[..|ns| - 1]), ns[|ns| - 1], log);
    }
  }

  lemma ServeInOrder(snd: Sender, comp: u32, b: Buffer, userTs: int, log: seq<Delivery>)
    requires InOrderSoFar(snd, b, log)
    requires !b.sync ==> b.last <= userTs + b.diff
    ensures var (b1, r) := Serve(snd, comp, b, userTs);
            && InOrderSoFar(snd, b1, Append(log, r))
            && (!b1.sync ==> b1.last == userTs + b1.diff)
  {
    if !b.sync {
      LaterInOrder(snd, comp, b, userTs, log);
    } else if !Serve(snd, comp, b, userTs).0.sync {
      TailAfterDelivery(snd, b, 1, snd.ts(b.rq[0]), log, Serve(snd, comp, b, userTs).0);
    }
  }

  lemma LaterInOrder(snd: Sender, comp: u32, b: Buffer, userTs: int, log: seq<Delivery>)
    requires InOrderSoFar(snd, b, log) && !b.sync && b.last <= userTs + b.diff
    ensures InOrderSoFar(snd, Serve(snd, comp, b, userTs).0, Append(log, Serve(snd, comp, b, userTs).1))
  {
    var b1, query := Serve(snd, comp, b, userTs).0, userTs + b.diff;
    var k := DueFrom(snd, b.rq, query, 0);
    if k > 0 {
      assert Due(snd, b.rq, query, k - 1);
      TailAfterDelivery(snd, b, k, query, log, b1);
    } else {
      assert b1.rq == b.rq;
    }
  }

  /** Delivering the k-th packet of a sorted queue and keeping what follows it. */
  lemma TailAfterDelivery(snd: Sender, b: Buffer, k: nat, query: int, log: seq<Delivery>, b1: Buffer)
    requires InOrderSoFar(snd, b, log) && 0 < k <= |b.rq| && snd.ts(b.rq[k - 1]) <= query
    requires b1.rq == b.rq[k..] && !b1.sync && b1.last == query
    ensures InOrderSoFar(snd, b1, log + [Delivery(b.rq[k - 1], query)])
  {
    var l1 := log + [Delivery(b.rq[k - 1], query)];
    forall i | 0 <= i < |b1.rq| ensures l1[|l1| - 1].n < b1.rq[i] { assert b.rq[k - 1] < b.rq[k + i]; }
    forall i, j | 0 <= i < j < |l1| ensures l1[i].n < l1[j].n {
      if j == |log| { assert log[|log| - 1].n < b.rq[k - 1]; }
    }
  }

  /** Whatever arrives, in whatever order and however often, an application whose
      query times do not go back receives a strictly increasing subsequence of
      the sender's numbers, none of them newer than its query. */
  lemma {:induction false} BufferInOrder(snd: Sender, max: nat, comp: u32, calls: seq<Call>)
    requires NonDecreasingTs(snd)
    requires forall i, j :: 0 <= i < j < |calls| ==> calls[i].userTs <= calls[j].userTs
    ensures var (b, log) := RunBuffer(snd, max, comp, EMPTY, calls);
            && InOrderSoFar(snd, b, log)
            && (!b.sync ==> calls != [] && b.last == calls[|calls| - 1].userTs + b.diff)
  {
    if calls != [] {
      var rest, c := calls[..|calls| - 1], calls[|calls| - 1];
      BufferInOrder(snd, max, comp, rest);
      var (b, log) := RunBuffer(snd, max, comp, EMPTY, rest);
      AdmitAllInOrder(snd, max, b, c.arrivals, log);
      ServeInOrder(snd, comp, AdmitAll(snd, max, b, c.arrivals), c.userTs, log);
    }
  }

  // ----- nothing is delivered that did not arrive -----

  lemma InsertMembers(q: seq<int>, n: int)
    ensures forall x :: x in Insert(q, n) ==> x in q || x == n
  {
  }

  ghost predicate Arrived(calls: seq<Call>, n: int) { exists k :: 0 <= k < |calls| && n in calls[k].arrivals }

  lemma {:induction false} AdmittedArrived(snd: Sender, max: nat, b: Buffer, ns: seq<int>, x: int)
    requires x in AdmitAll(snd, max, b, ns).rq
    ensures x in b.rq || x in ns
  {
    if ns != [] {
      var rest, n := ns[..|ns| - 1], ns[|ns| - 1];
      var b1 := AdmitAll(snd, max, b, rest);
      InsertMembers(b1.rq, n);
      if x != n {
        AdmittedArrived(snd, max, b, rest, x);
      }
    }
  }

  /** All that is queued or was delivered had arrived. */
  ghost predicate FromArrivals(calls: seq<Call>, b: Buffer, log: seq<Delivery>) {
    && (forall i :: 0 <= i < |b.rq| ==> Arrived(calls, b.rq[i]))
    && (forall i :: 0 <= i < |log| ==> Arrived(calls, log[i].n))
  }

  lemma StillArrived(rest: seq<Call>, c: Call, x: int)
    requires Arrived(rest, x) || x in c.arrivals
    ensures Arrived(rest + [c], x)
  {
    if Arrived(rest, x) {
      var k :| 0 <= k < |rest| && x in rest[k].arrivals;
      assert x in (rest + [c])[k].arrivals;
    } else {
      assert x in (rest + [c])[|rest|].arrivals;
    }
  }

  lemma CallFromArrivals(snd: Sender, max: nat, comp: u32, rest: seq<Call>, c: Call, b: Buffer, log: seq<Delivery>)
    requires FromArrivals(rest, b, log)
    ensures var (b2, r) := Serve(snd, comp, AdmitAll(snd, max, b, c.arrivals), c.userTs);
            FromArrivals(rest + [c], b2, Append(log, r))
  {
    var b1 := AdmitAll(snd, max, b, c.arrivals);
    forall i | 0 <= i < |b1.rq| ensures Arrived(rest + [c], b1.rq[i]) {
      AdmittedArrived(snd, max, b, c.arrivals, b1.rq[i]);
      StillArrived(rest, c, b1.rq[i]);
    }
    forall i | 0 <= i < |log| ensures Arrived(rest + [c], log[i].n) { StillArrived(rest, c, log[i].n); }
  }

  lemma {:induction false} RunFromArrivals(snd: Sender, max: nat, comp: u32, calls: seq<Call>)
    ensures var (b, log) := RunBuffer(snd, max, comp, EMPTY, calls); FromArrivals(calls, b, log)
  {
    if calls != [] {
      var rest, c := calls[..|calls| - 1], calls[|calls| - 1];
      RunFromArrivals(snd, max, comp, rest);
      var (b, log) := RunBuffer(snd, max, comp, EMPTY, rest);
      CallFromArrivals(snd, max, comp, rest, c, b, log);
      assert calls == rest + [c];
    }
  }

  // ----- the wrapped receive path does what the unwrapped buffer does -----

  /** A session's state s and a buffer state b agree; comp is the compensation of
      the sender's payload type. */
  ghost predicate Matches(cfg: Config, snd: Sender, comp: int, s: Rcv, b: Buffer) {
    && s.rq == Wires(snd, b.rq) && s.sync == b.sync && !s.jc.adaptive
    && SetPayload(cfg, s, snd.paytype).jc.compTs == comp
    && (s.hwPt != snd.paytype ==> b.sync && b.rq == [])
    && (!b.sync ==> s.diffTs == Wrap32(b.diff) && s.hwDiffTs == Wrap32(b.diff + comp) && s.lastTs == Wrap32(b.last))
  }

  /** The window an arriving packet must lie in. */
  ghost predicate ArrivalWindow(cfg: Config, snd: Sender, b: Buffer, n: int, late: nat) {
    && (forall i :: 0 <= i < |b.rq| ==> -H16 <= n - b.rq[i] < H16)
    && (!b.sync ==> b.last - late <= snd.ts(n) < b.last + cfg.tsJump + H32)
  }

  ghost predicate ServeWindow(snd: Sender, b: Buffer, userTs: int) {
    if b.sync then b.rq != [] ==> 0 <= snd.ts(b.rq[|b.rq| - 1]) - snd.ts(b.rq[0]) < M32
    else QueryWindow(snd, b.rq, userTs + b.diff)
  }

  lemma WiresTail(snd: Sender, q: seq<int>, k: nat)
    requires k <= |q|
    ensures Wires(snd, q)[k..] == Wires(snd, q[k..])
  {
  }

  /** With the payload type fixed and the jitter control not adaptive, every
      packet sets the timestamp offset to the value it already has. */
  lemma {:induction false} OffsetIsConstant(cfg: Config, snd: Sender, comp: int, s: Rcv, b: Buffer,
                                            p: Packet, localTs: u32)
    requires Matches(cfg, snd, comp, s, b) && !b.sync
    ensures Matches(cfg, snd, comp, JitterSpec(s, p, localTs), b)
    ensures JitterSpec(s, p, localTs).diffTs == s.diffTs
  {
    SafeDelay(s.jc, TsDiff(p.ts, localTs));
    assert Wrap32(s.hwDiffTs - comp) == Wrap32(b.diff) by {
      Wrap32Unique(Wrap32(b.diff + comp) - comp, b.diff / M32 - (b.diff + comp) / M32, Wrap32(b.diff));
    }
  }

  lemma EnqueueMatches(cfg: Config, snd: Sender, comp: int, s: Rcv, b: Buffer, n: int)
    requires Matches(cfg, snd, comp, s, b) && s.hwPt == snd.paytype && Increasing(b.rq)
    requires forall i :: 0 <= i < |b.rq| ==> -H16 <= n - b.rq[i] < H16
    ensures var q := Insert(b.rq, n);
            Matches(cfg, snd, comp, EnqueueSpec(cfg, s, Wire(snd, n)),
                    if IsEmpty(Wire(snd, n)) then b else b.(rq := q[Excess(|q|, cfg.maxRq)..]))
  {
    var q := Insert(b.rq, n);
    var q1 := if IsEmpty(Wire(snd, n)) then b.rq else q[Excess(|q|, cfg.maxRq)..];
    SplitRefines(snd, b.rq, n, cfg.maxRq);
    QueueMatches(cfg, snd, comp, s, b, q1, EnqueueSpec(cfg, s, Wire(snd, n)));
    assert b.(rq := b.rq) == b;
  }

  lemma QueueMatches(cfg: Config, snd: Sender, comp: int, s: Rcv, b: Buffer, q: seq<int>, s1: Rcv)
    requires Matches(cfg, snd, comp, s, b) && s.hwPt == snd.paytype
    requires s1 == s.(rq := Wires(snd, q), stats := s1.stats)
    ensures Matches(cfg, snd, comp, s1, b.(rq := q))
  {
  }

  lemma SplitRefines(snd: Sender, q: seq<int>, n: int, max: nat)
    requires Increasing(q) && forall i :: 0 <= i < |q| ==> -H16 <= n - q[i] < H16
    ensures var r := Insert(q, n);
            SplitSpec(Wires(snd, q), max, Wire(snd, n)).0
            == Wires(snd, if IsEmpty(Wire(snd, n)) then q else r[Excess(|r|, max)..])
  {
    PutRefinesInsert(snd, q, n);
    WiresTail(snd, Insert(q, n), Excess(|Insert(q, n)|, max));
  }

  lemma ArrivalMatches(cfg: Config, snd: Sender, comp: int, s: Rcv, b: Buffer, n: int, userTs: u32, late: nat)
    requires Matches(cfg, snd, comp, s, b) && Increasing(b.rq)
    requires ArrivalWindow(cfg, snd, b, n, late) && 1 <= cfg.tsJump && cfg.tsJump + late <= H32
    ensures Matches(cfg, snd, comp, DatagramSpec(cfg, s, Wire(snd, n), userTs), Admit(snd, cfg.maxRq, b, n))
  {
    var p := Wire(snd, n);
    if p.size >= FIXED_HEADER && !IsBad(p) {
      var s2 := HeaderSpec(cfg, CountReceived(s), p);
      assert Matches(cfg, snd, comp, s2, b) && s2.hwPt == snd.paytype;
      if !b.sync {
        var s3 := JitterSpec(s2, p, Wrap32(userTs + s.hwDiffTs));
        OffsetIsConstant(cfg, snd, comp, s2, b, p, Wrap32(userTs + s.hwDiffTs));
        FilterExact(snd.ts(n), b.last, cfg.tsJump);
        EnqueueMatches(cfg, snd, comp, s3, b, n);
      } else {
        EnqueueMatches(cfg, snd, comp, s2, b, n);
      }
    }
  }

  ghost predicate ArrivalsInWindow(cfg: Config, snd: Sender, b: Buffer, ns: seq<int>, late: nat) {
    ns == [] || (var rest := ns[..|ns| - 1];
                 && ArrivalsInWindow(cfg, snd, b, rest, late)
                 && ArrivalWindow(cfg, snd, AdmitAll(snd, cfg.maxRq, b, rest), ns[|ns| - 1], late))
  }

  lemma AdmitIncreasing(snd: Sender, max: nat, b: Buffer, n: int)
    requires Increasing(b.rq)
    ensures Increasing(Admit(snd, max, b, n).rq)
  {
    InsertIncreasing(b.rq, n);
  }

  lemma {:induction false} ArrivalsMatch(cfg: Config, snd: Sender, comp: int, s: Rcv, b: Buffer,
                                         ns: seq<int>, userTs: u32, late: nat)
    requires Matches(cfg, snd, comp, s, b) && Increasing(b.rq)
    requires ArrivalsInWindow(cfg, snd, b, ns, late) && 1 <= cfg.tsJump && cfg.tsJump + late <= H32
    ensures Matches(cfg, snd, comp, RecvSpec(cfg, s, Wires(snd, ns), userTs), AdmitAll(snd, cfg.maxRq, b, ns))
    ensures Increasing(AdmitAll(snd, cfg.maxRq, b, ns).rq)
  {
    if ns != [] {
      var rest, n := ns[..|ns| - 1], ns[|ns| - 1];
      ArrivalsMatch(cfg, snd, comp, s, b, rest, userTs, late);
      assert Wires(snd, ns)[..|ns| - 1] == Wires(snd, rest);
      var b1 := AdmitAll(snd, cfg.maxRq, b, rest);
      ArrivalMatches(cfg, snd, comp, RecvSpec(cfg, s, Wires(snd, rest), userTs), b1, n, userTs, late);
      AdmitIncreasing(snd, cfg.maxRq, b1, n);
    }
  }

  function WireOf(snd: Sender, r: Option<Delivery>): Option<Packet> {
    if r.Some? then Some(Wire(snd, r.value.n)) else None
  }

  lemma FirstMatches(cfg: Config, snd: Sender, comp: int, s: Rcv, b: Buffer, userTs: int)
    requires Matches(cfg, snd, comp, s, b) && ServeWindow(snd, b, userTs) && b.sync
    ensures Matches(cfg, snd, comp, SelectSpec(s, Wrap32(userTs)).0, Serve(snd, Wrap32(comp), b, userTs).0)
    ensures SelectSpec(s, Wrap32(userTs)).1 == WireOf(snd, Serve(snd, Wrap32(comp), b, userTs).1)
  {
    if b.rq != [] {
      var newest, oldest := snd.ts(b.rq[|b.rq| - 1]), snd.ts(b.rq[0]);
      Wrap32Diff(newest, oldest);
      assert Wrap32(newest - oldest) == newest - oldest;
      if newest - oldest >= Wrap32(comp) {
        Wrap32Diff(oldest, userTs);
        Wrap32Sum(comp, oldest - userTs);
        WiresTail(snd, b.rq, 1);
      }
    }
  }

  lemma QueryStates(cfg: Config, snd: Sender, comp: int, s: Rcv, b: Buffer, userTs: int)
    requires Matches(cfg, snd, comp, s, b) && ServeWindow(snd, b, userTs) && !b.sync
    ensures var query := userTs + b.diff;
            var k := DueFrom(snd, b.rq, query, 0);
            && SelectSpec(s, Wrap32(userTs)).0
               == s.(rq := Wires(snd, b.rq[k..]), lastTs := Wrap32(query),
                     stats := SelectSpec(s, Wrap32(userTs)).0.stats)
            && Serve(snd, Wrap32(comp), b, userTs).0 == b.(rq := b.rq[k..], last := query)
            && SelectSpec(s, Wrap32(userTs)).1 == WireOf(snd, Serve(snd, Wrap32(comp), b, userTs).1)
  {
    TakenIsDue(snd, s.rq, b, s.diffTs, userTs);
  }

  lemma TakenIsDue(snd: Sender, rq: seq<Packet>, b: Buffer, diffTs: u32, userTs: int)
    requires rq == Wires(snd, b.rq) && diffTs == Wrap32(b.diff) && QueryWindow(snd, b.rq, userTs + b.diff)
    ensures Wrap32(Wrap32(userTs) + diffTs) == Wrap32(userTs + b.diff)
    ensures TakenCount(rq, Wrap32(userTs + b.diff)) == DueFrom(snd, b.rq, userTs + b.diff, 0)
    ensures var k := DueFrom(snd, b.rq, userTs + b.diff, 0); rq[k..] == Wires(snd, b.rq[k..])
  {
    Wrap32Sum(userTs, b.diff);
    GetRefinesDue(snd, b.rq, userTs + b.diff, 0);
    WiresTail(snd, b.rq, DueFrom(snd, b.rq, userTs + b.diff, 0));
  }

  /** Both states cut to the packets that are not yet due. */
  lemma TailMatches(cfg: Config, snd: Sender, comp: int, s: Rcv, b: Buffer, k: nat, last: int, s1: Rcv, b1: Buffer)
    requires Matches(cfg, snd, comp, s, b) && !b.sync && k <= |b.rq|
    requires s1 == s.(rq := Wires(snd, b.rq[k..]), lastTs := Wrap32(last), stats := s1.stats)
    requires b1 == b.(rq := b.rq[k..], last := last)
    ensures Matches(cfg, snd, comp, s1, b1)
  {
  }

  /** What follows the selection leaves the matched part of the state alone. */
  lemma DeliverMatches(cfg: Config, snd: Sender, comp: int, s: Rcv, r: Option<Packet>, b: Buffer)
    requires Matches(cfg, snd, comp, s, b)
    ensures Matches(cfg, snd, comp, DeliverSpec(s, r).0, b) && DeliverSpec(s, r).1 == r
  {
  }

  lemma LaterMatches(cfg: Config, snd: Sender, comp: int, s: Rcv, b: Buffer, userTs: int)
    requires Matches(cfg, snd, comp, s, b) && ServeWindow(snd, b, userTs) && !b.sync
    ensures Matches(cfg, snd, comp, SelectSpec(s, Wrap32(userTs)).0, Serve(snd, Wrap32(comp), b, userTs).0)
  {
    var s1, b1 := SelectSpec(s, Wrap32(userTs)).0, Serve(snd, Wrap32(comp), b, userTs).0;
    var query := userTs + b.diff;
    var k := DueFrom(snd, b.rq, query, 0);
    QueryStates(cfg, snd, comp, s, b, userTs);
    TailMatches(cfg, snd, comp, s, b, k, query, s1, b1);
  }

  lemma ServeMatches(cfg: Config, snd: Sender, comp: int, s: Rcv, b: Buffer, userTs: int)
    requires Matches(cfg, snd, comp, s, b) && ServeWindow(snd, b, userTs)
    ensures Matches(cfg, snd, comp, SelectSpec(s, Wrap32(userTs)).0, Serve(snd, Wrap32(comp), b, userTs).0)
    ensures SelectSpec(s, Wrap32(userTs)).1 == WireOf(snd, Serve(snd, Wrap32(comp), b, userTs).1)
  {
    if b.sync {
      FirstMatches(cfg, snd, comp, s, b, userTs);
    } else {
      LaterMatches(cfg, snd, comp, s, b, userTs);
      QueryStates(cfg, snd, comp, s, b, userTs);
    }
  }

  /** A run of the receive path: packets that came in and the time asked for, per call. */
  function RunRcv(cfg: Config, s: Rcv, calls: seq<(seq<Packet>, u32)>): (Rcv, seq<Packet>) {
    if calls == [] then (s, [])
    else
      var (s1, log) := RunRcv(cfg, s, calls[..|calls| - 1]);
      var c := calls[|calls| - 1];
      var (s2, r) := RecvmSpec(cfg, s1, c.0, c.1);
      (s2, Append(log, r))
  }

  function WireCalls(snd: Sender, calls: seq<Call>): (ws: seq<(seq<Packet>, u32)>)
    ensures |ws| == |calls|
    ensures forall i :: 0 <= i < |calls| ==> ws[i] == (Wires(snd, calls[i].arrivals), Wrap32(calls[i].userTs))
  {
    seq(|calls|, i requires 0 <= i < |calls| => (Wires(snd, calls[i].arrivals), Wrap32(calls[i].userTs)))
  }

  function WireLog(snd: Sender, log: seq<Delivery>): (ps: seq<Packet>)
    ensures |ps| == |log| && forall i :: 0 <= i < |log| ==> ps[i] == Wire(snd, log[i].n)
  {
    seq(|log|, i requires 0 <= i < |log| => Wire(snd, log[i].n))
  }

  /** Over the run, arriving numbers lie close to those queued, no arriving timestamp is
      more than late behind the last query or a jump and half the range ahead of it,
      and those queued are within half the range of each query. */
  ghost predicate RunInWindow(cfg: Config, snd: Sender, comp: int, calls: seq<Call>, late: nat) {
    calls == [] || (var rest, c := calls[..|calls| - 1], calls[|calls| - 1];
                    var b := RunBuffer(snd, cfg.maxRq, Wrap32(comp), EMPTY, rest).0;
                    && RunInWindow(cfg, snd, comp, rest, late)
                    && ArrivalsInWindow(cfg, snd, b, c.arrivals, late)
                    && ServeWindow(snd, AdmitAll(snd, cfg.maxRq, b, c.arrivals), c.userTs))
  }

  /** Refinement: as long as sequence numbers and timestamps stay in the windows,
      a run on the wrapped fields delivers the packets of the unwrapped run. */
  lemma {:induction false} RunMatches(cfg: Config, snd: Sender, comp: int, s: Rcv, calls: seq<Call>, late: nat)
    requires Matches(cfg, snd, comp, s, EMPTY)
    requires 1 <= cfg.tsJump && cfg.tsJump + late <= H32 && RunInWindow(cfg, snd, comp, calls, late)
    ensures var (s1, ps) := RunRcv(cfg, s, WireCalls(snd, calls));
            var (b1, log) := RunBuffer(snd, cfg.maxRq, Wrap32(comp), EMPTY, calls);
            Matches(cfg, snd, comp, s1, b1) && ps == WireLog(snd, log) && Increasing(b1.rq)
  {
    if calls != [] {
      var rest, c := calls[..|calls| - 1], calls[|calls| - 1];
      RunMatches(cfg, snd, comp, s, rest, late);
      var (s1, ps) := RunRcv(cfg, s, WireCalls(snd, rest));
      var (b1, log) := RunBuffer(snd, cfg.maxRq, Wrap32(comp), EMPTY, rest);
      CallMatches(cfg, snd, comp, s1, b1, c, late);
      var (s2, r) := RecvmSpec(cfg, s1, Wires(snd, c.arrivals), Wrap32(c.userTs));
      var (b2, d) := Serve(snd, Wrap32(comp), AdmitAll(snd, cfg.maxRq, b1, c.arrivals), c.userTs);
      assert RunRcv(cfg, s, WireCalls(snd, calls)) == (s2, Append(ps, r)) by {
        assert WireCalls(snd, calls)[..|calls| - 1] == WireCalls(snd, rest);
      }
      assert RunBuffer(snd, cfg.maxRq, Wrap32(comp), EMPTY, calls) == (b2, Append(log, d));
      AppendWires(snd, log, d);
    }
  }

  lemma AppendWires(snd: Sender, log: seq<Delivery>, d: Option<Delivery>)
    ensures Append(WireLog(snd, log), WireOf(snd, d)) == WireLog(snd, Append(log, d))
  {
  }

  lemma CallMatches(cfg: Config, snd: Sender, comp: int, s: Rcv, b: Buffer, c: Call, late: nat)
    requires Matches(cfg, snd, comp, s, b) && Increasing(b.rq) && 1 <= cfg.tsJump && cfg.tsJump + late <= H32
    requires ArrivalsInWindow(cfg, snd, b, c.arrivals, late)
    requires ServeWindow(snd, AdmitAll(snd, cfg.maxRq, b, c.arrivals), c.userTs)
    ensures var (s2, r) := RecvmSpec(cfg, s, Wires(snd, c.arrivals), Wrap32(c.userTs));
            var (b2, d) := Serve(snd, Wrap32(comp), AdmitAll(snd, cfg.maxRq, b, c.arrivals), c.userTs);
            Matches(cfg, snd, comp, s2, b2) && r == WireOf(snd, d) && Increasing(b2.rq)
  {
    ArrivalsMatch(cfg, snd, comp, s, b, c.arrivals, Wrap32(c.userTs), late);
    var s1, b1 := RecvSpec(cfg, s, Wires(snd, c.arrivals), Wrap32(c.userTs)), AdmitAll(snd, cfg.maxRq, b, c.arrivals);
    ServeMatches(cfg, snd, comp, s1, b1, c.userTs);
    var (s2, r) := SelectSpec(s1, Wrap32(c.userTs));
    DeliverMatches(cfg, snd, comp, s2, r, Serve(snd, Wrap32(comp), b1, c.userTs).0);
    ServeKeepsIncreasing(snd, Wrap32(comp), b1, c.userTs);
  }

  lemma ServeKeepsIncreasing(snd: Sender, comp: u32, b: Buffer, userTs: int)
    requires Increasing(b.rq)
    ensures Increasing(Serve(snd, comp, b, userTs).0.rq)
  {
  }

  /** The guarantee of the receive path over whole runs of a fresh session: what
      it delivers are the wire packets of a strictly increasing sequence of the
      sender's numbers, each of which had arrived and is not newer than the time it
      was asked for. */
  lemma {:induction false} InOrderAtMostOnce(cfg: Config, snd: Sender, pt: int, compTs: int, step: int,
                                             calls: seq<Call>, late: nat, log: seq<Delivery>)
    requires NonDecreasingTs(snd) && 1 <= cfg.tsJump && cfg.tsJump + late <= H32
    requires forall i, j :: 0 <= i < j < |calls| ==> calls[i].userTs <= calls[j].userTs
    requires var comp := SetPayload(cfg, Fresh(pt, compTs, step, false), snd.paytype).jc.compTs;
             RunInWindow(cfg, snd, comp, calls, late) && log == RunBuffer(snd, cfg.maxRq, Wrap32(comp), EMPTY, calls).1
    ensures RunRcv(cfg, Fresh(pt, compTs, step, false), WireCalls(snd, calls)).1 == WireLog(snd, log)
    ensures forall i, j :: 0 <= i < j < |log| ==> log[i].n < log[j].n
    ensures forall i :: 0 <= i < |log| ==> snd.ts(log[i].n) <= log[i].query && Arrived(calls, log[i].n)
  {
    var s := Fresh(pt, compTs, step, false);
    var comp := SetPayload(cfg, s, snd.paytype).jc.compTs;
    FreshMatches(cfg, snd, comp, s);
    RunMatches(cfg, snd, comp, s, calls, late);
    LogInOrder(cfg, snd, comp, calls);
    RunFromArrivals(snd, cfg.maxRq, Wrap32(comp), calls);
  }

  lemma FreshMatches(cfg: Config, snd: Sender, comp: int, s: Rcv)
    requires s.rq == [] && s.sync && !s.jc.adaptive && comp == SetPayload(cfg, s, snd.paytype).jc.compTs
    ensures Matches(cfg, snd, comp, s, EMPTY)
  {
  }

  lemma {:induction false} LogInOrder(cfg: Config, snd: Sender, comp: int, calls: seq<Call>)
    requires NonDecreasingTs(snd)
    requires forall i, j :: 0 <= i < j < |calls| ==> calls[i].userTs <= calls[j].userTs
    ensures var log := RunBuffer(snd, cfg.maxRq, Wrap32(comp), EMPTY, calls).1;
            && (forall i, j :: 0 <= i < j < |log| ==> log[i].n < log[j].n)
            && (forall i :: 0 <= i < |log| ==> snd.ts(log[i].n) <= log[i].query)
  {
    BufferInOrder(snd, cfg.maxRq, Wrap32(comp), calls);
  }

  // ----- how late a packet may be -----

  /** A packet is delivered, and a copy of it arrives when the application asks for a time
      late past it: the copy is delivered again exactly if the jump limit and the
      lateness exceed 2^31 together. */
  lemma LateCopyRedelivered(cfg: Config, late: u32)
    requires cfg.profile == map[] && cfg.maxRq >= 1 && 1 <= cfg.tsJump <= H32 && 0 < late < H32
    ensures RunRcv(cfg, Fresh(0, 0, 160, false), [([COPY], 0), ([], late), ([COPY], late)]).1
            == if cfg.tsJump + late <= H32 then [COPY] else [COPY, COPY]
  {
    var s0 := Fresh(0, 0, 160, false);
    var c1: (seq<Packet>, u32), c2: (seq<Packet>, u32) := ([COPY], 0), ([], late);
    var c3: (seq<Packet>, u32), none: seq<(seq<Packet>, u32)> := ([COPY], late), [];
    assert [c1, c2, c3][..2] == [c1, c2] && [c1, c2][..1] == [c1] && [c1][..0] == none;
    FirstDelivery(cfg, s0);
    var s1 := RecvmSpec(cfg, s0, [COPY], 0).0;
    assert Append<Packet>([], Some(COPY)) == [COPY] && Append([COPY], Some(COPY)) == [COPY, COPY];
    assert RunRcv(cfg, s0, [c1]) == (s1, [COPY]);
    var s2 := RecvmSpec(cfg, s1, [], late).0;
    assert RunRcv(cfg, s0, [c1, c2]) == (s2, [COPY]);
    SecondDelivery(cfg, s2, late);
  }

  /** Number 7 of a stream, at timestamp 1000. */
  const COPY: Packet := Packet(2, 0, 0, 7, 1000, 1, 20)

  lemma FirstDelivery(cfg: Config, s0: Rcv)
    requires cfg.profile == map[] && cfg.maxRq >= 1 && s0 == Fresh(0, 0, 160, false)
    ensures var (s1, r) := RecvmSpec(cfg, s0, [COPY], 0);
            && r == Some(COPY) && s1.rq == [] && !s1.sync && s1.lastTs == s1.diffTs == s1.hwDiffTs == 1000
            && s1.jc == s0.jc
  {
    assert [COPY][..0] == [] && PutSpec([], COPY) == [COPY];
    assert RecvSpec(cfg, s0, [COPY], 0) == EnqueueSpec(cfg, HeaderSpec(cfg, CountReceived(s0), COPY), COPY);
  }

  /** A session that has delivered the packet and was asked for a time late past it. */
  predicate Delivered(s: Rcv, late: u32) {
    && s.rq == [] && !s.sync && s.lastTs == Wrap32(1000 + late) && s.hwDiffTs == 1000
    && !s.jc.adaptive && s.jc.compTs == 0
  }

  lemma SecondDelivery(cfg: Config, s: Rcv, late: u32)
    requires cfg.profile == map[] && cfg.maxRq >= 1 && 1 <= cfg.tsJump <= H32 && 0 < late < H32 && Delivered(s, late)
    ensures RecvmSpec(cfg, s, [COPY], late).1 == if cfg.tsJump + late <= H32 then None else Some(COPY)
  {
    QueuedAgain(cfg, s, late);
    SelectCopy(RecvSpec(cfg, s, [COPY], late), late);
  }

  lemma SelectCopy(s: Rcv, late: u32)
    requires (s.rq == [] || s.rq == [COPY]) && !s.sync && s.diffTs == 1000 && !s.jc.adaptive && 0 < late < H32
    ensures SelectSpec(s, late).1 == (if s.rq == [] then None else Some(COPY)) && !SelectSpec(s, late).0.jc.adaptive
  {
    assert TakenCount([COPY], 1000 + late) == 1 && TakenCount([], 1000 + late) == 0;
  }

  /** One datagram of a synchronised session: filtered with the offset just set. */
  lemma OneDatagram(cfg: Config, p: Packet, s: Rcv, userTs: u32)
    requires p.size >= FIXED_HEADER && !IsBad(p) && !s.sync
    ensures var s2 := HeaderSpec(cfg, CountReceived(s), p);
            RecvSpec(cfg, s, [p], userTs)
            == FilterSpec(cfg, JitterSpec(s2, p, Wrap32(userTs + s.hwDiffTs)), p)
  {
    assert [p][..0] == [] && RecvSpec(cfg, s, [], userTs) == s;
  }

  lemma OffsetOf(cfg: Config, p: Packet, s: Rcv, t: u32)
    requires !s.jc.adaptive && !s.sync && cfg.profile == map[]
    ensures var s3 := JitterSpec(HeaderSpec(cfg, CountReceived(s), p), p, t);
            && s3.diffTs == Wrap32(s.hwDiffTs - s.jc.compTs) && !s3.jc.adaptive && !s3.sync
            && s3.rq == s.rq && s3.lastTs == s.lastTs
  {
    SafeDelay(HeaderSpec(cfg, CountReceived(s), p).jc, TsDiff(p.ts, t));
  }

  lemma CopyTooLate(jump: u32, late: u32)
    requires 1 <= jump <= H32 && 0 < late < H32
    ensures TooLate(1000, 1000 + late, jump) <==> jump + late <= H32
  {
    var d := 1000 + late + jump;
    Wrap32Diff(1000, d);
    if d < M32 { Wrap32Unique(d, 0, d); } else { Wrap32Unique(d, 1, d - M32); }
    Wrap32Unique(1000 - d, -1, M32 - late - jump);
  }

  lemma QueuedAgain(cfg: Config, s: Rcv, late: u32)
    requires cfg.profile == map[] && cfg.maxRq >= 1 && 1 <= cfg.tsJump <= H32 && 0 < late < H32 && Delivered(s, late)
    ensures var s1 := RecvSpec(cfg, s, [COPY], late);
            && s1.rq == (if cfg.tsJump + late <= H32 then [] else [COPY])
            && !s1.sync && s1.diffTs == 1000 && !s1.jc.adaptive
  {
    OneDatagram(cfg, COPY, s, late);
    OffsetOf(cfg, COPY, s, Wrap32(late + s.hwDiffTs));
    CopyTooLate(cfg.tsJump, late);
    assert PutSpec([], COPY) == [COPY];
  }

  /** What was delivered is a strictly increasing sequence of numbers that arrived. */
  ghost predicate DeliveredInOrder(snd: Sender, calls: seq<Call>, ps: seq<Packet>) {
    exists ns :: Increasing(ns) && ps == Wires(snd, ns) && forall i :: 0 <= i < |ns| ==> Arrived(calls, ns[i])
  }

  /** A run of an honest sender and an application that does not go back in time, with
      arrivals at most late behind the last query. */
  ghost predicate Admissible(cfg: Config, snd: Sender, s: Rcv, calls: seq<Call>, late: nat) {
    && NonDecreasingTs(snd)
    && (forall i, j :: 0 <= i < j < |calls| ==> calls[i].userTs <= calls[j].userTs)
    && RunInWindow(cfg, snd, SetPayload(cfg, s, snd.paytype).jc.compTs, calls, late)
  }

  ghost predicate KeepsOrder(cfg: Config, snd: Sender, pt: int, compTs: int, step: int, calls: seq<Call>, late: nat) {
    var s := Fresh(pt, compTs, step, false);
    Admissible(cfg, snd, s, calls, late) ==> DeliveredInOrder(snd, calls, RunRcv(cfg, s, WireCalls(snd, calls)).1)
  }

  lemma OrderKept(cfg: Config, snd: Sender, pt: int, compTs: int, step: int, calls: seq<Call>, late: nat)
    requires 1 <= cfg.tsJump && cfg.tsJump + late <= H32
    requires Admissible(cfg, snd, Fresh(pt, compTs, step, false), calls, late)
    ensures DeliveredInOrder(snd, calls, RunRcv(cfg, Fresh(pt, compTs, step, false), WireCalls(snd, calls)).1)
  {
    var comp := SetPayload(cfg, Fresh(pt, compTs, step, false), snd.paytype).jc.compTs;
    var log := RunBuffer(snd, cfg.maxRq, Wrap32(comp), EMPTY, calls).1;
    InOrderAtMostOnce(cfg, snd, pt, compTs, step, calls, late, log);
    LogDelivered(snd, calls, log);
  }

  lemma LogDelivered(snd: Sender, calls: seq<Call>, log: seq<Delivery>)
    requires forall i, j :: 0 <= i < j < |log| ==> log[i].n < log[j].n
    requires forall i :: 0 <= i < |log| ==> Arrived(calls, log[i].n)
    ensures DeliveredInOrder(snd, calls, WireLog(snd, log))
  {
    var ns := Numbers(log);
    assert WireLog(snd, log) == Wires(snd, ns);
  }

  function Numbers(log: seq<Delivery>): (ns: seq<int>)
    ensures |ns| == |log| && forall i :: 0 <= i < |log| ==> ns[i] == log[i].n
  {
    seq(|log|, i requires 0 <= i < |log| => log[i].n)
  }

  /** The sender of the packet that is copied. */
  const COPYING: Sender := Sender(n => n + 993, _ => 0, _ => 20, 1, 0)

  function CopyCalls(late: nat): seq<Call> { [Call([7], 0), Call([], late), Call([7], late)] }

  lemma CopyRunInWindow(cfg: Config, late: u32)
    requires cfg.maxRq >= 1 && 1 <= cfg.tsJump <= H32 && 0 < late < H32
    ensures RunInWindow(cfg, COPYING, 0, CopyCalls(late), late)
  {
    var c1, c2, c3 := Call([7], 0), Call([], late), Call([7], late);
    var none: seq<Call> := [];
    assert [c1, c2, c3][..2] == [c1, c2] && [c1, c2][..1] == [c1] && [c1][..0] == none && [7][..0] == [];
    var b1 := Buffer([], false, 1000, 1000);
    assert Insert([], 7) == [7] && [7][1..] == [] && [7][0..] == [7];
    assert AdmitAll(COPYING, cfg.maxRq, EMPTY, []) == EMPTY;
    assert AdmitAll(COPYING, cfg.maxRq, EMPTY, [7]) == Admit(COPYING, cfg.maxRq, EMPTY, 7) == EMPTY.(rq := [7]);
    assert RunBuffer(COPYING, cfg.maxRq, 0, EMPTY, [c1]).0 == b1;
    assert RunInWindow(cfg, COPYING, 0, none, late) && RunInWindow(cfg, COPYING, 0, [c1], late);
    assert RunBuffer(COPYING, cfg.maxRq, 0, EMPTY, [c1, c2]).0 == b1.(last := 1000 + late);
    assert RunInWindow(cfg, COPYING, 0, [c1, c2], late);
  }

  /** Only one number arrives, so two packets are not in order. */
  lemma TwiceIsNotInOrder(late: u32)
    ensures !DeliveredInOrder(COPYING, CopyCalls(late), [COPY, COPY])
  {
    var calls := CopyCalls(late);
    forall n | Arrived(calls, n) ensures n == 7 { }
    forall ns | Increasing(ns) && [COPY, COPY] == Wires(COPYING, ns)
      ensures exists i :: 0 <= i < |ns| && !Arrived(calls, ns[i])
    {
      assert |ns| == 2 && ns[0] < ns[1];
      assert ns[0] != 7 || ns[1] != 7;
    }
  }

  /** The late copy is one of these runs, and not delivered in order. */
  lemma CopyBreaksOrder(cfg: Config, late: u32)
    requires cfg.profile == map[] && cfg.maxRq >= 1 && 1 <= cfg.tsJump <= H32 && 0 < late < H32
    requires cfg.tsJump + late > H32
    ensures !KeepsOrder(cfg, COPYING, 0, 0, 160, CopyCalls(late), late)
  {
    CopyAdmissible(cfg, late);
    LateCopyRedelivered(cfg, late);
    CopyOnTheWire(late);
    TwiceIsNotInOrder(late);
  }

  lemma CopyAdmissible(cfg: Config, late: u32)
    requires cfg.profile == map[] && cfg.maxRq >= 1 && 1 <= cfg.tsJump <= H32 && 0 < late < H32
    ensures Admissible(cfg, COPYING, Fresh(0, 0, 160, false), CopyCalls(late), late)
  {
    CopyRunInWindow(cfg, late);
    assert SetPayload(cfg, Fresh(0, 0, 160, false), COPYING.paytype).jc.compTs == 0;
  }

  lemma CopyOnTheWire(late: u32)
    ensures WireCalls(COPYING, CopyCalls(late)) == [([COPY], 0), ([], late), ([COPY], late)]
  {
    assert Wire(COPYING, 7) == COPY;
    assert Wires(COPYING, [7]) == [COPY] && Wires(COPYING, []) == [];
    assert Wrap32(late) == late;
  }

  /** All runs with arrivals at most late behind the last query are delivered in order,
      each packet at most once, exactly if the jump limit leaves room for it: their sum
      is at most 2^31. A limit of 2^31, meant to disable the check, leaves none. */
  lemma JumpLimit(jump: u32, late: nat)
    requires 1 <= jump <= H32 && late < H32
    ensures (forall cfg: Config, snd, pt, compTs, step, calls ::
               cfg.tsJump == jump ==> KeepsOrder(cfg, snd, pt, compTs, step, calls, late))
            <==> jump + late <= H32
  {
    if jump + late <= H32 {
      forall cfg: Config, snd, pt, compTs, step, calls | cfg.tsJump == jump
        ensures KeepsOrder(cfg, snd, pt, compTs, step, calls, late)
      {
        if Admissible(cfg, snd, Fresh(pt, compTs, step, false), calls, late) {
          OrderKept(cfg, snd, pt, compTs, step, calls, late);
        }
      }
    } else {
      CopyBreaksOrder(Config(1, jump, map[]), late);
    }
  }
}
