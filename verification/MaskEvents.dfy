/** The masks of the scheduler over whole runs: which sessions are scheduled, which are
    ready, and what the calls of session_set_select report (scheduler.c, sessionset.c,
    rtpsession.c). */
module MaskEvents {
  const MAX_SESSIONS: nat := 1024

  /** The three masks of ready sessions. */
  datatype Kind = Recv | Send | Err

  /** Positions in the masks of the scheduler; allMax is the highest ever handed out. */
  datatype Masks = Masks(all: set<int>, allMax: int, recv: set<int>, send: set<int>, err: set<int>)

  function Ready(m: Masks, k: Kind): set<int> {
    match k
    case Recv => m.recv
    case Send => m.send
    case Err => m.err
  }

  function SetReady(m: Masks, k: Kind, s: set<int>): Masks {
    match k
    case Recv => m.(recv := s)
    case Send => m.(send := s)
    case Err => m.(err := s)
  }

  /** The words session_set_and looks at for the highest position maxs. */
  function Covered(maxs: int): int { maxs / 32 + 1 }

  /** Positions below the end of the first n words that are in both masks. */
  ghost function Hits(sched: set<int>, user: set<int>, n: int): set<int> {
    set p | p in sched && p in user && p < 32 * n
  }

  /** A session joins at a free position or leaves; a bit is raised by the scheduler or
      by a thread whose time has come, or lowered by a thread that goes on to wait; a
      select asks for the sessions of one mask. */
  datatype Event =
    | Add(p: int, recv: bool, send: bool)
    | Remove(p: int)
    | Raise(k: Kind, p: int)
    | Clear(k: Kind, p: int)
    | Select(k: Kind, user: set<int>)

  /** A position once handed out may be raised even after its session left; nothing
      raises an error bit. */
  predicate Enabled(m: Masks, e: Event) {
    match e
    case Add(p, _, _) => 0 <= p < MAX_SESSIONS && p !in m.all && forall q :: 0 <= q < p ==> q in m.all
    case Raise(k, p) => !k.Err? && 0 <= p <= m.allMax
    case _ => true
  }

  /** What a select reports of one mask. */
  ghost function Reported(m: Masks, k: Kind, user: set<int>): set<int> { Hits(Ready(m, k), user, Covered(m.allMax)) }

  ghost function Next(m: Masks, e: Event): Masks {
    match e
    case Add(p, recv, send) =>
      Masks(m.all + {p}, if p > m.allMax then p else m.allMax,
            if recv then m.recv + {p} else m.recv, if send then m.send + {p} else m.send, m.err)
    case Remove(p) => m.(all := m.all - {p})
    case Raise(k, p) => SetReady(m, k, Ready(m, k) + {p})
    case Clear(k, p) => SetReady(m, k, Ready(m, k) - {p})
    case Select(k, user) => SetReady(m, k, Ready(m, k) - Reported(m, k, user))
  }

  /** No bit lies above the highest position. Bits of sessions that left may stay. */
  ghost predicate InRange(m: Masks) {
    && 0 <= m.allMax < MAX_SESSIONS
    && (forall p :: p in m.all ==> 0 <= p <= m.allMax)
    && (forall k, p :: p in Ready(m, k) ==> 0 <= p <= m.allMax)
  }

  lemma StepKeepsRange(m: Masks, e: Event)
    requires InRange(m) && Enabled(m, e)
    ensures InRange(Next(m, e))
  {
    forall k, p | p in Ready(Next(m, e), k) ensures 0 <= p <= Next(m, e).allMax {
      assert p in Ready(m, k) ==> 0 <= p <= m.allMax;
    }
  }

  /** The words up to the one of the highest position hold every raised bit, so a select
      overlooks nothing. */
  lemma NothingOverlooked(m: Masks, k: Kind, user: set<int>)
    requires InRange(m)
    ensures Reported(m, k, user) == Ready(m, k) * user
  {
    assert forall p :: p in Ready(m, k) ==> p <= m.allMax;
    CoveredHits(Ready(m, k), user, m.allMax);
  }

  lemma CoveredHits(sched: set<int>, user: set<int>, maxs: int)
    requires forall p :: p in sched ==> p <= maxs
    ensures Hits(sched, user, Covered(maxs)) == sched * user
  {
    assert maxs < 32 * Covered(maxs);
  }

  // ----- runs -----

  const START: Masks := Masks({}, 0, {}, {}, {})

  ghost function After(es: seq<Event>): Masks {
    if es == [] then START else Next(After(es[..|es| - 1]), es[|es| - 1])
  }

  ghost predicate IsRun(es: seq<Event>) {
    es == [] || (IsRun(es[..|es| - 1]) && Enabled(After(es[..|es| - 1]), es[|es| - 1]))
  }

  lemma {:induction false} RunKeepsRange(es: seq<Event>)
    requires IsRun(es)
    ensures InRange(After(es))
  {
    if es != [] {
      RunKeepsRange(es[..|es| - 1]);
      StepKeepsRange(After(es[..|es| - 1]), es[|es| - 1]);
    }
  }

  lemma {:induction false} PrefixIsRun(es: seq<Event>, n: nat)
    requires IsRun(es) && n <= |es|
    ensures IsRun(es[..n])
  {
    if n < |es| {
      PrefixIsRun(es[..|es| - 1], n);
      assert es[..|es| - 1][..n] == es[..n];
    } else {
      assert es[..n] == es;
    }
  }

  predicate Raises(e: Event, k: Kind, p: int) {
    match e
    case Add(q, recv, send) => q == p && ((k.Recv? && recv) || (k.Send? && send))
    case Raise(l, q) => l == k && q == p
    case _ => false
  }

  /** The bit is lowered, or a select asks for it. */
  predicate Takes(e: Event, k: Kind, p: int) {
    match e
    case Clear(l, q) => l == k && q == p
    case Select(l, user) => l == k && p in user
    case _ => false
  }

  /** Raised, and since then neither lowered nor asked for. */
  ghost predicate Pending(es: seq<Event>, k: Kind, p: int) {
    exists i :: 0 <= i < |es| && Raises(es[i], k, p) && Untaken(es, i, k, p)
  }

  ghost predicate Untaken(es: seq<Event>, i: int, k: Kind, p: int) {
    forall j :: i < j < |es| && 0 <= j ==> !Takes(es[j], k, p)
  }

  /** Over every run a bit is up exactly if it is pending. */
  lemma {:induction false} ReadyIffPending(es: seq<Event>, k: Kind, p: int)
    requires IsRun(es)
    ensures p in Ready(After(es), k) <==> Pending(es, k, p)
  {
    if es != [] {
      var front, e := es[..|es| - 1], es[|es| - 1];
      ReadyIffPending(front, k, p);
      RunKeepsRange(front);
      if e.Select? { NothingOverlooked(After(front), e.k, e.user); }
      PendingStep(es, k, p);
    }
  }

  lemma PendingStep(es: seq<Event>, k: Kind, p: int)
    requires es != []
    ensures var front, e := es[..|es| - 1], es[|es| - 1];
            Pending(es, k, p) <==> Raises(e, k, p) || (Pending(front, k, p) && !Takes(e, k, p))
  {
    var front, e := es[..|es| - 1], es[|es| - 1];
    if Raises(e, k, p) {
      assert Untaken(es, |es| - 1, k, p);
    }
    if Pending(front, k, p) && !Takes(e, k, p) {
      var i :| 0 <= i < |front| && Raises(front[i], k, p) && Untaken(front, i, k, p);
      assert forall j :: i < j < |front| ==> es[j] == front[j];
      assert Raises(es[i], k, p) && Untaken(es, i, k, p);
    }
    if Pending(es, k, p) && !Raises(e, k, p) {
      var i :| 0 <= i < |es| && Raises(es[i], k, p) && Untaken(es, i, k, p);
      assert forall j :: 0 <= j < |front| ==> es[j] == front[j];
      assert Raises(front[i], k, p) && Untaken(front, i, k, p);
    }
  }

  /** The exact report of any select in any run: the positions it asks for that were
      raised since the last select that asked for them, and not lowered since. */
  lemma SelectReports(es: seq<Event>, n: nat, p: int)
    requires IsRun(es) && n < |es| && es[n].Select?
    ensures var k, user := es[n].k, es[n].user;
            p in Reported(After(es[..n]), k, user) <==> p in user && Pending(es[..n], k, p)
  {
    PrefixIsRun(es, n);
    RunKeepsRange(es[..n]);
    NothingOverlooked(After(es[..n]), es[n].k, es[n].user);
    ReadyIffPending(es[..n], es[n].k, p);
  }

  /** No two selects report a bit unless it was raised in between. */
  lemma OneShot(es: seq<Event>, i: nat, j: nat, p: int)
    requires IsRun(es) && i < j < |es| && es[i].Select? && es[j].Select? && es[i].k == es[j].k
    requires p in Reported(After(es[..i]), es[i].k, es[i].user) && p in Reported(After(es[..j]), es[j].k, es[j].user)
    ensures exists r :: i < r < j && Raises(es[r], es[i].k, p)
  {
    var k := es[i].k;
    SelectReports(es, i, p);
    SelectReports(es, j, p);
    var r :| 0 <= r < j && Raises(es[..j][r], k, p) && Untaken(es[..j], r, k, p);
    assert es[..j][r] == es[r] && es[..j][i] == es[i];
    assert Takes(es[..j][i], k, p);
  }
}
