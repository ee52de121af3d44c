/** What the receive buffer is for: a stream sent in even steps and asked for in the
    same steps is played at a constant delay, whatever the network does to it, and a
    packet is played exactly if it is there when its turn comes. */
module Playout {
  import opened Wrappers
  import opened Modular
  import opened RtpQueue
  import opened Jitter
  import opened RtpReceive
  import opened InOrder

  // ----- one operation of the buffer -----

  /** What a buffer does with a packet: it takes it if it is whole, has a payload and is
      newer than the last query. Of the numbers then queued the largest stay, as many as
      the limit allows. */
  lemma AdmitExact(snd: Sender, max: nat, b: Buffer, n: int)
    requires Increasing(b.rq)
    ensures var b1, p := Admit(snd, max, b, n), Wire(snd, n);
            && b1 == b.(rq := b1.rq) && Increasing(b1.rq)
            && if p.size < 12 || IsBad(p) || p.size == 12 + 4 * p.cc || (!b.sync && snd.ts(n) <= b.last) then b1 == b
               else
                 && (forall m :: m in b1.rq ==> m in b.rq || m == n)
                 && (forall m, r :: (m in b.rq || m == n) && m !in b1.rq && r in b1.rq ==> m < r)
                 && |b1.rq| == AtMost(|b.rq| + (if n in b.rq then 0 else 1), max)
  {
    InsertIsSetInsertion(b.rq, n);
    var q := Insert(b.rq, n);
    Largest(q, Excess(|q|, max));
  }

  lemma Largest(q: seq<int>, k: nat)
    requires Increasing(q) && k <= |q|
    ensures Increasing(q[k..]) && forall m :: m in q[k..] ==> m in q
    ensures forall m, r :: m in q && m !in q[k..] && r in q[k..] ==> m < r
  {
    forall m, r | m in q && m !in q[k..] && r in q[k..] ensures m < r {
      assert q == q[..k] + q[k..];
      var i :| 0 <= i < k && q[..k][i] == m;
      var j :| 0 <= j < |q| - k && q[k..][j] == r;
      assert q[i] == m && q[k + j] == r;
    }
  }

  function AtMost(n: nat, max: nat): nat { if n <= max then n else max }

  /** What a synchronised buffer hands out: it takes packets from the front that are not
      newer than the query and differ in time from the one before, and the last of them
      is delivered. It stops at a newer packet, or at one of the same time. */
  lemma ServeExact(snd: Sender, comp: u32, b: Buffer, userTs: int)
    requires !b.sync
    ensures var (b1, r) := Serve(snd, comp, b, userTs);
            var query, k, q := userTs + b.diff, |b.rq| - |b1.rq|, b.rq;
            && b1 == b.(rq := b1.rq, last := query) && 0 <= k && b1.rq == q[k..]
            && r == (if k == 0 then None else Some(Delivery(q[k - 1], query)))
            && (forall i {:trigger q[i]} :: 0 <= i < k ==> snd.ts(q[i]) <= query)
            && (forall i {:trigger q[i]} :: 0 < i < k ==> snd.ts(q[i]) != snd.ts(q[i - 1]))
            && (k < |q| ==> snd.ts(q[k]) > query || (k > 0 && snd.ts(q[k]) == snd.ts(q[k - 1])))
  {
    var k := DueFrom(snd, b.rq, userTs + b.diff, 0);
    forall i {:trigger b.rq[i]} | 0 <= i < k ensures Due(snd, b.rq, userTs + b.diff, i) { }
  }

  /** The first delivery: nothing before the packets queued span the compensation, then the
      oldest, and from now on the query is as far from the time asked for as it was. */
  lemma FirstExact(snd: Sender, comp: u32, b: Buffer, userTs: int)
    requires b.sync
    ensures var (b1, r) := Serve(snd, comp, b, userTs);
            if b.rq != [] && snd.ts(b.rq[|b.rq| - 1]) >= snd.ts(b.rq[0]) + comp then
              && r == Some(Delivery(b.rq[0], userTs + b1.diff)) && b1.rq == b.rq[1..] && !b1.sync
              && b1.last == userTs + b1.diff == snd.ts(b.rq[0])
            else b1 == b && r == None
  {
  }

  // ----- an even stream -----

  function Span(n: int, step: nat): int { n * step }

  lemma Spans(m: int, n: int, step: nat)
    requires step > 0
    ensures Span(m, step) - Span(n, step) == Span(m - n, step)
    ensures m < n <==> Span(m, step) < Span(n, step)
  {
    assert m * step - n * step == (m - n) * step;
    if m < n { SpanPositive(n - m, step); } else if n < m { SpanPositive(m - n, step); }
  }

  lemma SpanPositive(d: nat, step: nat)
    requires d > 0 && step > 0
    ensures d * step > 0
  {
  }

  predicate InStep(snd: Sender, step: nat, n: int) {
    var p := Wire(snd, n);
    snd.ts(n) == snd.ts(0) + Span(n, step) && p.size >= FIXED_HEADER && !IsBad(p) && !IsEmpty(p)
  }

  /** Packets that are step apart in time and all carry a payload. */
  ghost predicate Steady(snd: Sender, step: nat) { step > 0 && forall n :: InStep(snd, step, n) }

  lemma Apart(snd: Sender, step: nat, m: int, n: int)
    requires Steady(snd, step)
    ensures snd.ts(m) - snd.ts(n) == Span(m - n, step)
    ensures snd.ts(m) < snd.ts(n) <==> m < n
  {
    assert InStep(snd, step, m) && InStep(snd, step, n);
    Spans(m, n, step);
  }

  /** The application asks step later each time. */
  ghost predicate Paced(calls: seq<Call>, start: int, step: nat) {
    forall j :: 0 <= j < |calls| ==> calls[j].userTs == start + Span(j, step)
  }

  /** The network: number n comes no earlier than before call n, copies any number of times,
      none more than late calls after; number 0 is the first to come. */
  ghost predicate Carried(calls: seq<Call>, late: nat) {
    && (forall j, n :: 0 <= j < |calls| && n in calls[j].arrivals ==> 0 <= n && j - late <= n <= j)
    && (calls != [] ==> 0 in calls[0].arrivals)
  }

  /** Playing starts with the call before which the first number from k on comes. */
  ghost predicate StartsAt(calls: seq<Call>, k: nat, first: nat) {
    && (forall j, n :: 0 <= j < |calls| && j < first && n in calls[j].arrivals ==> n < k)
    && (first < |calls| ==> exists n :: n >= k && n in calls[first].arrivals)
  }

  ghost predicate ArrivedBy(calls: seq<Call>, n: int, j: int) {
    exists i :: 0 <= i <= j && i < |calls| && n in calls[i].arrivals
  }

  /** Number n came at most d calls after it could. */
  ghost predicate CameWithin(calls: seq<Call>, n: int, d: nat) { ArrivedBy(calls, n, n + d) }

  /** The numbers below n that had come when their turn was, first calls after they could
      come at the earliest. */
  ghost function InTime(calls: seq<Call>, first: nat, n: nat): seq<int> {
    if n == 0 then []
    else
      var k := n - 1;
      InTime(calls, first, k) + if CameWithin(calls, k, first) then [k] else []
  }

  lemma {:induction false} InTimeExactly(calls: seq<Call>, first: nat, n: nat)
    ensures var ns := InTime(calls, first, n);
            Increasing(ns) && forall m :: m in ns <==> 0 <= m < n && CameWithin(calls, m, first)
  {
    if n > 0 {
      var rest := InTime(calls, first, n - 1);
      InTimeExactly(calls, first, n - 1);
      forall i | 0 <= i < |rest| ensures rest[i] < n - 1 { assert rest[i] in rest; }
    }
  }

  function Plays(snd: Sender, ns: seq<int>): (log: seq<Delivery>)
    ensures |log| == |ns| && forall i :: 0 <= i < |log| ==> log[i] == Delivery(ns[i], snd.ts(ns[i]))
  {
    seq(|ns|, i requires 0 <= i < |ns| => Delivery(ns[i], snd.ts(ns[i])))
  }

  // ----- taking packets in -----

  ghost predicate Within(q: seq<int>, lo: int, hi: int) { forall i :: 0 <= i < |q| ==> lo <= q[i] <= hi }

  lemma {:induction false} AtLeast(q: seq<int>, i: nat)
    requires Increasing(q) && i < |q|
    ensures q[i] >= q[0] + i
  {
    if i > 0 {
      AtLeast(q, i - 1);
      assert q[i - 1] < q[i];
    }
  }

  lemma FitsIn(q: seq<int>, lo: int, hi: int)
    requires Increasing(q) && Within(q, lo, hi) && lo <= hi + 1
    ensures |q| <= hi - lo + 1
  {
    if q != [] { AtLeast(q, |q| - 1); }
  }

  /** The buffer takes the number in: synchronising, or newer than the last query. */
  predicate Fresher(snd: Sender, b: Buffer, n: int) { b.sync || snd.ts(n) > b.last }

  lemma AdmitWithin(snd: Sender, step: nat, max: nat, b: Buffer, n: int, lo: int, hi: int)
    requires Steady(snd, step) && Increasing(b.rq) && Within(b.rq, lo, hi) && lo <= hi < lo + max
    requires n <= hi && (Fresher(snd, b, n) ==> lo <= n)
    ensures var b1 := Admit(snd, max, b, n);
            && b1 == b.(rq := b1.rq) && Increasing(b1.rq) && Within(b1.rq, lo, hi)
            && forall m :: m in b1.rq <==> m in b.rq || (m == n && Fresher(snd, b, n))
  {
    assert InStep(snd, step, n);
    if Fresher(snd, b, n) {
      InsertIsSetInsertion(b.rq, n);
      var q := Insert(b.rq, n);
      forall i | 0 <= i < |q| ensures lo <= q[i] <= hi { assert q[i] in q; }
      FitsIn(q, lo, hi);
      assert q[0..] == q;
    }
  }

  lemma {:induction false} AdmitAllWithin(snd: Sender, step: nat, max: nat, b: Buffer, ns: seq<int>, lo: int, hi: int)
    requires Steady(snd, step) && Increasing(b.rq) && Within(b.rq, lo, hi) && lo <= hi < lo + max
    requires forall n :: n in ns ==> n <= hi && (Fresher(snd, b, n) ==> lo <= n)
    ensures var b1 := AdmitAll(snd, max, b, ns);
            && b1 == b.(rq := b1.rq) && Increasing(b1.rq) && Within(b1.rq, lo, hi)
            && forall m :: m in b1.rq <==> m in b.rq || (m in ns && Fresher(snd, b, m))
  {
    if ns != [] {
      var rest, n := ns[..|ns| - 1], ns[|ns| - 1];
      assert ns == rest + [n] && n in ns;
      forall m | m in rest ensures m in ns { }
      AdmitAllWithin(snd, step, max, b, rest, lo, hi);
      AdmitWithin(snd, step, max, AdmitAll(snd, max, b, rest), n, lo, hi);
    }
  }

  // ----- handing packets out -----

  lemma ServeNext(snd: Sender, step: nat, comp: u32, b: Buffer, next: int, userTs: int)
    requires Steady(snd, step) && Increasing(b.rq) && !b.sync && userTs + b.diff == snd.ts(next)
    requires forall i :: 0 <= i < |b.rq| ==> next <= b.rq[i]
    ensures var (b1, r) := Serve(snd, comp, b, userTs);
            && b1 == b.(rq := b1.rq, last := snd.ts(next)) && Increasing(b1.rq)
            && r == (if next in b.rq then Some(Delivery(next, snd.ts(next))) else None)
            && forall m :: m in b1.rq <==> m in b.rq && m > next
  {
    var q := b.rq;
    if q != [] {
      Apart(snd, step, next, q[0]);
      if q[0] == next {
        if |q| > 1 { Apart(snd, step, next, q[1]); }
        assert DueFrom(snd, q, snd.ts(next), 1) == 1;
        assert q == [q[0]] + q[1..];
      } else {
        assert DueFrom(snd, q, snd.ts(next), 0) == 0 && q[0..] == q;
      }
    }
  }

  lemma ServeFirst(snd: Sender, step: nat, comp: u32, b: Buffer, k: nat, userTs: int)
    requires Steady(snd, step) && Increasing(b.rq) && b.sync && comp == Span(k, step)
    requires 0 in b.rq && forall i :: 0 <= i < |b.rq| ==> 0 <= b.rq[i]
    ensures var (b1, r) := Serve(snd, comp, b, userTs);
            if exists n :: n >= k && n in b.rq then
              && b1 == Buffer(b1.rq, false, snd.ts(0) - userTs, snd.ts(0)) && Increasing(b1.rq)
              && r == Some(Delivery(0, snd.ts(0)))
              && forall m :: m in b1.rq <==> m in b.rq && m > 0
            else b1 == b && r == None
  {
    var q := b.rq;
    var newest := q[|q| - 1];
    assert q[0] == 0 && q == [0] + q[1..];
    Apart(snd, step, newest, 0);
    Spans(newest, k, step);
    assert newest in q;
  }

  // ----- a run -----

  /** The number whose turn the call after n calls is, or 0 before playing starts. */
  function NextTurn(n: nat, first: nat): nat { if n <= first then 0 else n - first }

  /** What is queued, and what was handed out. */
  ghost predicate Playing(snd: Sender, step: nat, start: int, first: nat, calls: seq<Call>, b: Buffer,
                          log: seq<Delivery>)
  {
    && Increasing(b.rq)
    && if |calls| <= first then
         b.sync && log == [] && forall n :: n in b.rq <==> Arrived(calls, n)
       else
         var next := |calls| - first;
         && !b.sync && b.diff == snd.ts(0) - start - Span(first, step) && b.last == snd.ts(next - 1)
         && (forall n :: n in b.rq <==> n >= next && Arrived(calls, n))
         && log == Plays(snd, InTime(calls, first, next))
  }

  lemma ArrivedMore(rest: seq<Call>, c: Call, n: int)
    ensures Arrived(rest + [c], n) <==> Arrived(rest, n) || n in c.arrivals
    ensures ArrivedBy(rest + [c], n, |rest|) <==> Arrived(rest + [c], n)
  {
    var calls := rest + [c];
    if Arrived(rest, n) || n in c.arrivals { StillArrived(rest, c, n); }
    if k :| 0 <= k < |calls| && n in calls[k].arrivals {
      assert k < |rest| ==> n in rest[k].arrivals;
    }
  }

  lemma {:induction false} InTimeMore(rest: seq<Call>, c: Call, first: nat, n: nat)
    requires n + first <= |rest|
    ensures InTime(rest + [c], first, n) == InTime(rest, first, n)
  {
    if n > 0 {
      var k, calls := n - 1, rest + [c];
      InTimeMore(rest, c, first, k);
      if i :| 0 <= i <= k + first && i < |calls| && k in calls[i].arrivals { assert k in rest[i].arrivals; }
      if i :| 0 <= i <= k + first && i < |rest| && k in rest[i].arrivals { assert k in calls[i].arrivals; }
    }
  }

  lemma OneMorePlayed(snd: Sender, ns: seq<int>, n: int, r: Option<Delivery>, taken: bool)
    requires r == if taken then Some(Delivery(n, snd.ts(n))) else None
    ensures Append(Plays(snd, ns), r) == Plays(snd, ns + if taken then [n] else [])
  {
    assert ns + [] == ns;
  }

  ghost predicate Scene(snd: Sender, step: nat, start: int, k: nat, first: nat, late: nat, calls: seq<Call>) {
    Steady(snd, step) && Paced(calls, start, step) && Carried(calls, late) && StartsAt(calls, k, first)
  }

  lemma SceneBefore(snd: Sender, step: nat, start: int, k: nat, first: nat, late: nat, rest: seq<Call>, c: Call)
    requires Scene(snd, step, start, k, first, late, rest + [c])
    ensures Scene(snd, step, start, k, first, late, rest)
    ensures c.userTs == start + Span(|rest|, step)
    ensures forall n :: n in c.arrivals ==> 0 <= n && |rest| - late <= n <= |rest|
    ensures if rest == [] then 0 in c.arrivals else Arrived(rest, 0)
    ensures |rest| == first ==> exists n :: n >= k && n in c.arrivals
    ensures |rest| < first ==> forall n :: n in c.arrivals || Arrived(rest, n) ==> n < k
  {
    var calls := rest + [c];
    assert calls[|rest|] == c && forall j :: 0 <= j < |rest| ==> calls[j] == rest[j];
    if rest != [] { assert 0 in rest[0].arrivals; }
  }

  /** All that came is within the range of the numbers sent. */
  lemma ArrivedWithin(calls: seq<Call>, late: nat, n: int)
    requires Carried(calls, late) && Arrived(calls, n)
    ensures 0 <= n < |calls|
  {
    var j :| 0 <= j < |calls| && n in calls[j].arrivals;
  }

  /** The buffer once the packets of the next call came in. */
  lemma TakenIn(snd: Sender, step: nat, start: int, k: nat, first: nat, late: nat, max: nat, rest: seq<Call>, c: Call,
                b: Buffer, log: seq<Delivery>)
    requires Scene(snd, step, start, k, first, late, rest + [c]) && first < max
    requires Playing(snd, step, start, first, rest, b, log)
    ensures var b1, next := AdmitAll(snd, max, b, c.arrivals), NextTurn(|rest|, first);
            && b1 == b.(rq := b1.rq) && Increasing(b1.rq) && Within(b1.rq, next, |rest|)
            && forall n :: n in b1.rq <==> n >= next && Arrived(rest + [c], n)
  {
    SceneBefore(snd, step, start, k, first, late, rest, c);
    var next := NextTurn(|rest|, first);
    forall i | 0 <= i < |b.rq| ensures next <= b.rq[i] <= |rest| {
      assert b.rq[i] in b.rq;
      ArrivedWithin(rest, late, b.rq[i]);
    }
    forall n | n in c.arrivals ensures Fresher(snd, b, n) <==> next <= n {
      Apart(snd, step, next - 1, n);
    }
    AdmitAllWithin(snd, step, max, b, c.arrivals, next, |rest|);
    forall n ensures Arrived(rest + [c], n) <==> Arrived(rest, n) || n in c.arrivals { ArrivedMore(rest, c, n); }
    forall n | Arrived(rest, n) ensures n >= 0 { ArrivedWithin(rest, late, n); }
  }

  /** The call that starts playing, and those before it. */
  lemma EarlyCall(snd: Sender, step: nat, start: int, k: nat, first: nat, late: nat, comp: u32, rest: seq<Call>,
                  c: Call, b: Buffer)
    requires Scene(snd, step, start, k, first, late, rest + [c]) && comp == Span(k, step) && |rest| <= first
    requires b.sync && Increasing(b.rq) && forall n :: n in b.rq <==> Arrived(rest + [c], n)
    ensures var (b2, r) := Serve(snd, comp, b, c.userTs);
            Playing(snd, step, start, first, rest + [c], b2, Append([], r))
  {
    var calls := rest + [c];
    SceneBefore(snd, step, start, k, first, late, rest, c);
    ArrivedMore(rest, c, 0);
    forall i | 0 <= i < |b.rq| ensures 0 <= b.rq[i] {
      assert b.rq[i] in b.rq;
      ArrivedWithin(calls, late, b.rq[i]);
    }
    ServeFirst(snd, step, comp, b, k, c.userTs);
    if |rest| == first {
      var m :| m >= k && m in c.arrivals;
      ArrivedMore(rest, c, m);
      assert m in b.rq;
      FirstPlayed(snd, calls, first);
    } else {
      forall m | m in b.rq ensures m < k { ArrivedMore(rest, c, m); }
    }
  }

  /** A call whose turn it is for a number. */
  lemma LaterCall(snd: Sender, step: nat, start: int, k: nat, first: nat, late: nat, comp: u32, rest: seq<Call>,
                  c: Call, b: Buffer, next: nat, log: seq<Delivery>)
    requires Scene(snd, step, start, k, first, late, rest + [c]) && |rest| == first + next && next > 0
    requires !b.sync && Increasing(b.rq) && forall n :: n in b.rq <==> n >= next && Arrived(rest + [c], n)
    requires b.diff == snd.ts(0) - start - Span(first, step) && log == Plays(snd, InTime(rest, first, next))
    ensures var (b2, r) := Serve(snd, comp, b, c.userTs);
            Playing(snd, step, start, first, rest + [c], b2, Append(log, r))
  {
    var calls := rest + [c];
    SceneBefore(snd, step, start, k, first, late, rest, c);
    Apart(snd, step, next, 0);
    Spans(|rest|, first, step);
    forall i | 0 <= i < |b.rq| ensures next <= b.rq[i] { assert b.rq[i] in b.rq; }
    ServeNext(snd, step, comp, b, next, c.userTs);
    InTimeMore(rest, c, first, next);
    ArrivedMore(rest, c, next);
    OneMorePlayed(snd, InTime(calls, first, next), next, Serve(snd, comp, b, c.userTs).1, next in b.rq);
    assert InTime(calls, first, next + 1) == InTime(calls, first, next) + if next in b.rq then [next] else [];
  }

  lemma OneCall(snd: Sender, step: nat, start: int, k: nat, first: nat, late: nat, max: nat, comp: u32, rest: seq<Call>,
                c: Call, b: Buffer, log: seq<Delivery>)
    requires Scene(snd, step, start, k, first, late, rest + [c]) && first < max && comp == Span(k, step)
    requires Playing(snd, step, start, first, rest, b, log)
    ensures var (b2, r) := Serve(snd, comp, AdmitAll(snd, max, b, c.arrivals), c.userTs);
            Playing(snd, step, start, first, rest + [c], b2, Append(log, r))
  {
    TakenIn(snd, step, start, k, first, late, max, rest, c, b, log);
    var b1 := AdmitAll(snd, max, b, c.arrivals);
    if |rest| <= first {
      forall n | Arrived(rest + [c], n) ensures n >= 0 { ArrivedWithin(rest + [c], late, n); }
      EarlyCall(snd, step, start, k, first, late, comp, rest, c, b1);
    } else {
      LaterCall(snd, step, start, k, first, late, comp, rest, c, b1, |rest| - first, log);
    }
  }

  lemma FirstPlayed(snd: Sender, calls: seq<Call>, first: nat)
    requires first < |calls| && 0 in calls[0].arrivals
    ensures Plays(snd, InTime(calls, first, 1)) == [Delivery(0, snd.ts(0))]
  {
    assert CameWithin(calls, 0, first);
    assert InTime(calls, first, 0) == [];
  }

  lemma {:induction false} BufferPlays(snd: Sender, step: nat, start: int, k: nat, first: nat, late: nat, max: nat,
                                       comp: u32, calls: seq<Call>)
    requires Scene(snd, step, start, k, first, late, calls) && first < max && comp == Span(k, step)
    ensures var (b, log) := RunBuffer(snd, max, comp, EMPTY, calls);
            Playing(snd, step, start, first, calls, b, log)
  {
    if calls != [] {
      var rest, c := calls[..|calls| - 1], calls[|calls| - 1];
      assert calls == rest + [c];
      SceneBefore(snd, step, start, k, first, late, rest, c);
      BufferPlays(snd, step, start, k, first, late, max, comp, rest);
      var (b, log) := RunBuffer(snd, max, comp, EMPTY, rest);
      OneCall(snd, step, start, k, first, late, max, comp, rest, c, b, log);
    }
  }

  // ----- the same on the wire -----

  /** The numbers at hand are close enough for the 16 and 32 bits of the wire. */
  ghost predicate Narrow(cfg: Config, step: nat, first: nat, late: nat) {
    && first < cfg.maxRq && first < H16 && late <= H16 && Span(first + 1, step) <= H32
    && 1 <= cfg.tsJump && cfg.tsJump + Span(late, step) <= H32
  }

  lemma OneInWindow(cfg: Config, snd: Sender, step: nat, first: nat, late: nat, b: Buffer, n: int, lo: int, hi: int)
    requires Steady(snd, step) && Narrow(cfg, step, first, late) && Within(b.rq, lo, hi) && hi - first <= lo <= hi
    requires 0 <= n <= hi && hi - late <= n && (b.sync ==> lo == 0) && (!b.sync ==> b.last == snd.ts(hi - first - 1))
    ensures ArrivalWindow(cfg, snd, b, n, Span(late, step))
  {
    if !b.sync {
      var last := hi - first - 1;
      Apart(snd, step, n, last);
      Spans(n - last, first + 1, step);
      Spans(last - n, late, step);
      assert Span(last - n, step) == -Span(n - last, step);
    }
  }

  lemma {:induction false} ArrivalsIn(cfg: Config, snd: Sender, step: nat, first: nat, late: nat, b: Buffer,
                                      ns: seq<int>, lo: int, hi: int)
    requires Steady(snd, step) && Narrow(cfg, step, first, late) && Within(b.rq, lo, hi) && Increasing(b.rq)
    requires hi - first <= lo <= hi && (b.sync ==> lo == 0) && (!b.sync ==> b.last == snd.ts(hi - first - 1))
    requires forall n :: n in ns ==> 0 <= n <= hi && hi - late <= n && (Fresher(snd, b, n) ==> lo <= n)
    ensures ArrivalsInWindow(cfg, snd, b, ns, Span(late, step))
  {
    if ns != [] {
      var rest, n := ns[..|ns| - 1], ns[|ns| - 1];
      assert ns == rest + [n] && n in ns;
      forall m | m in rest ensures m in ns { }
      ArrivalsIn(cfg, snd, step, first, late, b, rest, lo, hi);
      AdmitAllWithin(snd, step, cfg.maxRq, b, rest, lo, hi);
      OneInWindow(cfg, snd, step, first, late, AdmitAll(snd, cfg.maxRq, b, rest), n, lo, hi);
    }
  }

  lemma ServeIn(snd: Sender, step: nat, first: nat, b: Buffer, userTs: int, lo: int, hi: int)
    requires Steady(snd, step) && Within(b.rq, lo, hi) && Increasing(b.rq) && hi - first <= lo <= hi
    requires Span(first + 1, step) <= H32 && (!b.sync ==> userTs + b.diff == snd.ts(lo))
    ensures ServeWindow(snd, b, userTs)
  {
    Spans(first, first + 1, step);
    if b.sync {
      if b.rq != [] {
        var d := b.rq[|b.rq| - 1] - b.rq[0];
        Apart(snd, step, b.rq[|b.rq| - 1], b.rq[0]);
        Spans(d, first, step);
        Spans(0, d, step);
      }
    } else {
      forall i | 0 <= i < |b.rq| ensures -H32 <= snd.ts(lo) - snd.ts(b.rq[i]) < H32 {
        var d := b.rq[i] - lo;
        Apart(snd, step, b.rq[i], lo);
        Spans(d, first, step);
        Spans(0, d, step);
      }
    }
  }

  lemma ArrivalsOfCallIn(cfg: Config, snd: Sender, step: nat, start: int, k: nat, first: nat, late: nat,
                         rest: seq<Call>, c: Call, b: Buffer, log: seq<Delivery>)
    requires Scene(snd, step, start, k, first, late, rest + [c]) && Narrow(cfg, step, first, late)
    requires Playing(snd, step, start, first, rest, b, log)
    ensures ArrivalsInWindow(cfg, snd, b, c.arrivals, Span(late, step))
  {
    var n, lo: int := |rest|, NextTurn(|rest|, first);
    SceneBefore(snd, step, start, k, first, late, rest, c);
    QueuedWithin(snd, step, start, first, late, rest, b, log);
    forall m | m in c.arrivals && Fresher(snd, b, m) ensures lo <= m { Apart(snd, step, lo - 1, m); }
    ArrivalsIn(cfg, snd, step, first, late, b, c.arrivals, lo, n);
  }

  lemma CallServedIn(cfg: Config, snd: Sender, step: nat, start: int, k: nat, first: nat, late: nat, rest: seq<Call>,
                     c: Call, b: Buffer, log: seq<Delivery>)
    requires Scene(snd, step, start, k, first, late, rest + [c]) && Narrow(cfg, step, first, late)
    requires Playing(snd, step, start, first, rest, b, log)
    ensures ServeWindow(snd, AdmitAll(snd, cfg.maxRq, b, c.arrivals), c.userTs)
  {
    var n, lo: int := |rest|, NextTurn(|rest|, first);
    SceneBefore(snd, step, start, k, first, late, rest, c);
    TakenIn(snd, step, start, k, first, late, cfg.maxRq, rest, c, b, log);
    Apart(snd, step, lo, 0);
    Spans(n, first, step);
    ServeIn(snd, step, first, AdmitAll(snd, cfg.maxRq, b, c.arrivals), c.userTs, lo, n);
  }

  lemma QueuedWithin(snd: Sender, step: nat, start: int, first: nat, late: nat, rest: seq<Call>, b: Buffer,
                     log: seq<Delivery>)
    requires Carried(rest, late) && Playing(snd, step, start, first, rest, b, log)
    ensures Within(b.rq, NextTurn(|rest|, first), |rest|)
  {
    forall i | 0 <= i < |b.rq| ensures NextTurn(|rest|, first) <= b.rq[i] <= |rest| {
      assert b.rq[i] in b.rq;
      ArrivedWithin(rest, late, b.rq[i]);
    }
  }

  lemma {:induction false} SceneInWindow(cfg: Config, snd: Sender, step: nat, start: int, k: nat, first: nat,
                                         late: nat, calls: seq<Call>, comp: int)
    requires Scene(snd, step, start, k, first, late, calls) && Narrow(cfg, step, first, late)
    requires comp == Span(k, step) && 0 <= comp < M32
    ensures RunInWindow(cfg, snd, comp, calls, Span(late, step))
  {
    if calls != [] {
      var rest, c := calls[..|calls| - 1], calls[|calls| - 1];
      assert calls == rest + [c];
      SceneBefore(snd, step, start, k, first, late, rest, c);
      SceneInWindow(cfg, snd, step, start, k, first, late, rest, comp);
      BufferPlays(snd, step, start, k, first, late, cfg.maxRq, Wrap32(comp), rest);
      var (b, log) := RunBuffer(snd, cfg.maxRq, Wrap32(comp), EMPTY, rest);
      ArrivalsOfCallIn(cfg, snd, step, start, k, first, late, rest, c, b, log);
      CallServedIn(cfg, snd, step, start, k, first, late, rest, c, b, log);
    }
  }

  /** What a session hands out in a run, and what the unwrapped buffer does. */
  function Handed(cfg: Config, s: Rcv, snd: Sender, calls: seq<Call>): seq<Packet> {
    RunRcv(cfg, s, WireCalls(snd, calls)).1
  }

  function BufferLog(cfg: Config, snd: Sender, comp: int, calls: seq<Call>): seq<Delivery> {
    RunBuffer(snd, cfg.maxRq, Wrap32(comp), EMPTY, calls).1
  }

  /** A session to begin with, with a compensation of k steps. */
  predicate Ready(cfg: Config, snd: Sender, s: Rcv, step: nat, k: nat) {
    && s.rq == [] && s.sync && !s.jc.adaptive && SetPayload(cfg, s, snd.paytype).jc.compTs == Span(k, step)
  }

  lemma CompensationFits(step: nat, k: nat, first: nat)
    requires step > 0 && k <= first && Span(first + 1, step) <= H32
    ensures 0 <= Span(k, step) < M32 && Wrap32(Span(k, step)) == Span(k, step)
  {
    Spans(k, first + 1, step);
    SpanNotNegative(k, step);
  }

  lemma BufferOnWire(cfg: Config, snd: Sender, s: Rcv, step: nat, start: int, k: nat, first: nat, late: nat,
                     calls: seq<Call>)
    requires Scene(snd, step, start, k, first, late, calls) && Narrow(cfg, step, first, late) && k <= first
    requires Ready(cfg, snd, s, step, k)
    ensures Handed(cfg, s, snd, calls) == WireLog(snd, BufferLog(cfg, snd, Span(k, step), calls))
  {
    CompensationFits(step, k, first);
    SpanNotNegative(late, step);
    SceneInWindow(cfg, snd, step, start, k, first, late, calls, Span(k, step));
    FreshMatches(cfg, snd, Span(k, step), s);
    RunMatches(cfg, snd, Span(k, step), s, calls, Span(late, step));
  }

  lemma LogPlays(cfg: Config, snd: Sender, step: nat, start: int, k: nat, first: nat, late: nat, calls: seq<Call>)
    requires Scene(snd, step, start, k, first, late, calls) && Narrow(cfg, step, first, late) && k <= first
    ensures BufferLog(cfg, snd, Span(k, step), calls) == Plays(snd, InTime(calls, first, NextTurn(|calls|, first)))
  {
    CompensationFits(step, k, first);
    BufferPlays(snd, step, start, k, first, late, cfg.maxRq, Wrap32(Span(k, step)), calls);
  }

  lemma RunPlays(cfg: Config, snd: Sender, s: Rcv, step: nat, start: int, k: nat, first: nat, late: nat,
                 calls: seq<Call>)
    requires Scene(snd, step, start, k, first, late, calls) && Narrow(cfg, step, first, late) && k <= first
    requires Ready(cfg, snd, s, step, k)
    ensures Handed(cfg, s, snd, calls) == Wires(snd, InTime(calls, first, NextTurn(|calls|, first)))
  {
    BufferOnWire(cfg, snd, s, step, start, k, first, late, calls);
    LogPlays(cfg, snd, step, start, k, first, late, calls);
    PlaysOnWire(snd, InTime(calls, first, NextTurn(|calls|, first)));
  }

  lemma PlaysOnWire(snd: Sender, ns: seq<int>)
    ensures WireLog(snd, Plays(snd, ns)) == Wires(snd, ns)
  {
  }

  /** Every run of such a stream: what is handed out are the packets, in order and once
      each, that had come when it was their turn, and none of the others. */
  lemma PlayedIff(cfg: Config, snd: Sender, s: Rcv, step: nat, start: int, k: nat, first: nat, late: nat,
                  calls: seq<Call>)
    requires Scene(snd, step, start, k, first, late, calls) && Narrow(cfg, step, first, late) && k <= first
    requires Ready(cfg, snd, s, step, k)
    ensures exists ns ::
              && Handed(cfg, s, snd, calls) == Wires(snd, ns) && Increasing(ns)
              && forall n :: n in ns <==> 0 <= n < |calls| - first && CameWithin(calls, n, first)
  {
    RunPlays(cfg, snd, s, step, start, k, first, late, calls);
    InTimeExactly(calls, first, NextTurn(|calls|, first));
  }

  lemma SpanNotNegative(n: nat, step: nat)
    ensures Span(n, step) >= 0
  {
  }

  // ----- how much delay the compensation buys -----

  ghost predicate OnTime(calls: seq<Call>, n: nat, d: nat) { n + d < |calls| ==> CameWithin(calls, n, d) }

  /** Each number comes at most d calls after it could. */
  ghost predicate Delayed(calls: seq<Call>, d: nat) { forall n :: OnTime(calls, n, d) }

  function UpTo(n: nat): (ns: seq<int>)
    ensures |ns| == n && forall i :: 0 <= i < n ==> ns[i] == i
  {
    seq(n, i => i)
  }

  /** No packet whose turn has been is missing. */
  ghost predicate AllPlayed(cfg: Config, snd: Sender, s: Rcv, calls: seq<Call>, first: nat) {
    Handed(cfg, s, snd, calls) == Wires(snd, UpTo(NextTurn(|calls|, first)))
  }

  lemma {:induction false} AllInTime(calls: seq<Call>, first: nat, n: nat)
    requires forall m :: 0 <= m < n ==> CameWithin(calls, m, first)
    ensures InTime(calls, first, n) == UpTo(n)
  {
    if n > 0 {
      AllInTime(calls, first, n - 1);
      assert UpTo(n) == UpTo(n - 1) + [n - 1];
    }
  }

  lemma {:induction false} SomeMissing(calls: seq<Call>, first: nat, n: nat, m: nat)
    ensures |InTime(calls, first, n)| <= n
    ensures m < n && !CameWithin(calls, m, first) ==> |InTime(calls, first, n)| < n
  {
    if n > 0 { SomeMissing(calls, first, n - 1, m); }
  }

  /** With delays of at most k calls playing starts by call 2k. */
  lemma StartsSoon(calls: seq<Call>, k: nat, first: nat)
    requires Delayed(calls, k) && StartsAt(calls, k, first) && 2 * k < |calls|
    ensures first <= 2 * k
  {
    assert OnTime(calls, k, k);
  }

  /** Where playing starts in a run that has not come so far can be brought forward. */
  lemma NotStarted(calls: seq<Call>, k: nat, first: nat, early: nat)
    requires StartsAt(calls, k, first) && |calls| <= early <= first
    ensures StartsAt(calls, k, early)
  {
  }

  ghost predicate Setting(cfg: Config, snd: Sender, s: Rcv, step: nat, k: nat, late: nat) {
    Steady(snd, step) && Narrow(cfg, step, 2 * k, late) && Ready(cfg, snd, s, step, k)
  }

  lemma LessDelayed(calls: seq<Call>, d: nat, k: nat)
    requires Delayed(calls, d) && d <= k
    ensures Delayed(calls, k)
  {
    forall n: nat ensures OnTime(calls, n, k) { assert OnTime(calls, n, d); }
  }

  lemma DelaysAbsorbed(cfg: Config, snd: Sender, s: Rcv, step: nat, start: int, k: nat, first: nat, late: nat, d: nat,
                       calls: seq<Call>)
    requires Setting(cfg, snd, s, step, k, late) && Scene(snd, step, start, k, first, late, calls)
    requires Delayed(calls, d) && d <= k <= first
    ensures AllPlayed(cfg, snd, s, calls, first)
  {
    LessDelayed(calls, d, k);
    var early := if first <= 2 * k then first else 2 * k;
    if 2 * k < |calls| { StartsSoon(calls, k, first); } else if first > 2 * k { NotStarted(calls, k, first, early); }
    Spans(early + 1, 2 * k + 1, step);
    RunPlays(cfg, snd, s, step, start, k, early, late, calls);
    var n := NextTurn(|calls|, first);
    assert n == NextTurn(|calls|, early);
    forall m | 0 <= m < n ensures CameWithin(calls, m, early) { assert OnTime(calls, m, k); }
    AllInTime(calls, early, n);
  }

  /** Each packet comes at once but number k + 1, which is still missing after 2k + 2 calls. */
  function LateCalls(k: nat, start: int, step: nat): (calls: seq<Call>)
    ensures |calls| == 2 * k + 2
    ensures forall j :: 0 <= j < |calls| ==> calls[j] == Call(if j == k + 1 then [] else [j], start + Span(j, step))
  {
    seq(2 * k + 2, j => Call(if j == k + 1 then [] else [j], start + Span(j, step)))
  }

  lemma LateScene(snd: Sender, step: nat, start: int, k: nat, late: nat, d: nat)
    requires Steady(snd, step) && d > k
    ensures var calls := LateCalls(k, start, step);
            && Scene(snd, step, start, k, k, late, calls) && Delayed(calls, d)
            && !CameWithin(calls, k + 1, k)
  {
    var calls := LateCalls(k, start, step);
    assert k in calls[k].arrivals;
    forall n: nat ensures OnTime(calls, n, d) {
      if n + d < |calls| { assert n in calls[n].arrivals; }
    }
  }

  lemma BudgetExceeded(cfg: Config, snd: Sender, s: Rcv, step: nat, start: int, k: nat, late: nat)
    requires Setting(cfg, snd, s, step, k, late) && Scene(snd, step, start, k, k, late, LateCalls(k, start, step))
    requires !CameWithin(LateCalls(k, start, step), k + 1, k)
    ensures !AllPlayed(cfg, snd, s, LateCalls(k, start, step), k)
  {
    var calls := LateCalls(k, start, step);
    Spans(k + 1, 2 * k + 1, step);
    RunPlays(cfg, snd, s, step, start, k, k, late, calls);
    SomeMissing(calls, k, k + 2, k + 1);
  }

  /** The delay budget. A compensation of k packet times makes up for delays of at most d
      packet times in every run, reordered and duplicated as it may be, exactly if d is
      at most k. */
  lemma DelayBudget(cfg: Config, snd: Sender, s: Rcv, step: nat, start: int, k: nat, late: nat, d: nat)
    requires Setting(cfg, snd, s, step, k, late)
    ensures (forall calls, first: nat ::
               Scene(snd, step, start, k, first, late, calls) && Delayed(calls, d) && k <= first ==>
                 AllPlayed(cfg, snd, s, calls, first))
            <==> d <= k
  {
    if d <= k {
      forall calls, first: nat
        | Scene(snd, step, start, k, first, late, calls) && Delayed(calls, d) && k <= first
        ensures AllPlayed(cfg, snd, s, calls, first)
      {
        DelaysAbsorbed(cfg, snd, s, step, start, k, first, late, d, calls);
      }
    } else {
      var calls := LateCalls(k, start, step);
      LateScene(snd, step, start, k, late, d);
      BudgetExceeded(cfg, snd, s, step, start, k, late);
    }
  }
}
