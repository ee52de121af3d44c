/** The sessions of a scheduler, their positions in its masks and their wait points
    (scheduler.c, and the calls of rtpsession.c that wait). */
module SessionMask {
  import opened Modular
  import opened Finite
  import opened MaskEvents
  import opened SessionSets
  import Scheduler

  /** send and recv are the two wait points of the session. */
  class RtpSession {
    var next: RtpSession?
    var inScheduler: bool
    var maskPos: int
    var recvNotStarted: bool
    var sendNotStarted: bool
    const send: Scheduler.WaitPoint
    const recv: Scheduler.WaitPoint

    constructor (recvNotStarted: bool, sendNotStarted: bool)
      ensures !inScheduler && next == null && maskPos == 0
      ensures this.recvNotStarted == recvNotStarted && this.sendNotStarted == sendNotStarted
      ensures fresh(send) && fresh(recv) && send != recv && !send.wakeup && !recv.wakeup
    {
      next, inScheduler, maskPos := null, false, 0;
      this.recvNotStarted, this.sendNotStarted := recvNotStarted, sendNotStarted;
      send := new Scheduler.WaitPoint();
      recv := new Scheduler.WaitPoint();
    }
  }

  function SessionAt(spine: seq<RtpSession>, i: nat): RtpSession? { if i < |spine| then spine[i] else null }

  function Following(spine: seq<RtpSession>, i: nat): RtpSession? {
    if i + 1 < |spine| then spine[i + 1] else null
  }

  /** Each listed session has a position of its own and the mask holds exactly those. */
  ghost predicate PositionsOk(positions: seq<int>, mask: set<int>) { Distinct(positions) && mask == Elems(positions) }

  lemma PositionAdded(positions: seq<int>, mask: set<int>, p: int)
    requires PositionsOk(positions, mask) && p !in mask
    ensures PositionsOk([p] + positions, mask + {p})
  {
    assert forall i :: 0 <= i < |positions| ==> positions[i] in Elems(positions);
    assert Elems([p] + positions) == Elems(positions) + {p};
  }

  lemma PositionRemoved(positions: seq<int>, mask: set<int>, k: nat)
    requires PositionsOk(positions, mask) && k < |positions|
    ensures PositionsOk(positions[..k] + positions[k + 1..], mask - {positions[k]})
  {
    var q := positions[..k] + positions[k + 1..];
    forall x ensures x in q <==> x in positions && x != positions[k] {
      if x in positions && x != positions[k] {
        var i :| 0 <= i < |positions| && positions[i] == x;
        assert q[if i < k then i else i - 1] == x;
      }
    }
    assert Elems(q) == Elems(positions) - {positions[k]};
  }

  /** There are no more positions than sessions a mask can hold. */
  lemma PositionsFit(positions: seq<int>, mask: set<int>)
    requires PositionsOk(positions, mask) && forall p :: p in mask ==> 0 <= p < MAX_SESSIONS
    ensures |positions| == |mask| <= MAX_SESSIONS
  {
    DistinctSize(positions);
    SubsetSize(mask, Below(MAX_SESSIONS));
  }

  /** A session that had position was gets the lowest free one, p, if there is any. */
  ghost predicate Placed(m: Masks, m1: Masks, was: int, p: int, recv: bool, send: bool) {
    if |m.all| < MAX_SESSIONS then Enabled(m, Add(p, recv, send)) && m1 == Next(m, Add(p, recv, send))
    else p == was && m1 == m
  }

  /** A new session keeps the positions in order exactly if one was free for it. */
  lemma PositionsAdded(positions: seq<int>, m: Masks, m1: Masks, was: int, p: int, recv: bool, send: bool)
    requires PositionsOk(positions, m.all) && InRange(m) && Placed(m, m1, was, p, recv, send)
    ensures PositionsOk([p] + positions, m1.all) <==> |positions| < MAX_SESSIONS
  {
    PositionsFit(positions, m.all);
    if |m.all| < MAX_SESSIONS {
      PositionAdded(positions, m.all, p);
    } else if PositionsOk([p] + positions, m.all) {
      PositionsFit([p] + positions, m.all);
    }
  }

  /** No free position is found exactly when all are taken. */
  lemma FreeOrFull(all: set<int>, i: int)
    requires forall p :: p in all ==> 0 <= p < MAX_SESSIONS
    requires if i == -1 then Below(MAX_SESSIONS) <= all else 0 <= i < MAX_SESSIONS && i !in all
    ensures i == -1 <==> |all| >= MAX_SESSIONS
  {
    var b := Below(MAX_SESSIONS);
    if i == -1 {
      SubsetSize(b, all);
    } else {
      Proper(all, b, i);
    }
  }

  lemma Proper(a: set<int>, b: set<int>, x: int)
    requires a <= b && x in b && x !in a
    ensures |a| < |b|
  {
    SubsetSize(a + {x}, b);
  }

  /** The wait points of different sessions are different. */
  ghost predicate Apart(known: set<RtpSession>) {
    && (forall s :: s in known ==> s.send != s.recv)
    && (forall s, t :: s in known && t in known && s != t ==>
          s.send != t.send && s.send != t.recv && s.recv != t.recv)
  }

  class RtpScheduler {
    var list: RtpSession?
    var allMax: int
    const allSessions: SessionSet
    const rSessions: SessionSet
    const wSessions: SessionSet
    const eSessions: SessionSet
    /** The sessions on the list, in order, their positions, all sessions of the
        program and their wait points. */
    ghost var spine: seq<RtpSession>
    ghost var positions: seq<int>
    ghost var known: set<RtpSession>
    ghost var points: set<Scheduler.WaitPoint>

    ghost predicate Linked()
      reads this, known
    {
      && (forall i :: 0 <= i < |spine| ==> spine[i] in known)
      && Distinct(spine)
      && list == (if spine == [] then null else spine[0])
      && (forall i {:trigger Following(spine, i)} :: 0 <= i < |spine| ==> spine[i].next == Following(spine, i))
    }

    ghost predicate SetsValid()
      reads this, allSessions, rSessions, wSessions, eSessions
    {
      && allSessions.Valid() && rSessions.Valid() && wSessions.Valid() && eSessions.Valid()
      && allSessions != rSessions && allSessions != wSessions && allSessions != eSessions
      && rSessions != wSessions && rSessions != eSessions && wSessions != eSessions
    }

    ghost function View(): Masks
      reads this, allSessions, rSessions, wSessions, eSessions
    {
      Masks(allSessions.positions, allMax, rSessions.positions, wSessions.positions, eSessions.positions)
    }

    /** The list is as linked and the flag means membership of it. */
    ghost predicate ListSound()
      reads this, known
    {
      && Linked() && Apart(known)
      && (forall s :: s in known ==> (s.inScheduler <==> s in spine) && 0 <= s.maskPos <= allMax)
      && (forall s :: s in known ==> s.send in points && s.recv in points)
      && |positions| == |spine| && (forall i :: 0 <= i < |spine| ==> spine[i].maskPos == positions[i])
    }

    /** No bit of any mask lies above the highest position handed out. */
    ghost predicate MasksSound()
      reads this, allSessions, rSessions, wSessions, eSessions
    {
      SetsValid() && InRange(View())
    }

    ghost predicate Sound()
      reads this, known, allSessions, rSessions, wSessions, eSessions
    {
      ListSound() && MasksSound()
    }

    /** And each listed session has a position of its own. */
    ghost predicate Valid()
      reads this, known, allSessions, rSessions, wSessions, eSessions
    {
      Sound() && PositionsOk(positions, allSessions.positions)
    }

    constructor (ghost known: set<RtpSession>)
      requires Apart(known) && forall s :: s in known ==> !s.inScheduler && s.maskPos == 0
      ensures Valid() && spine == [] && this.known == known && View() == MaskEvents.START
      ensures fresh(allSessions) && fresh(rSessions) && fresh(wSessions) && fresh(eSessions)
    {
      list, allMax := null, 0;
      allSessions := new SessionSet();
      rSessions := new SessionSet();
      wSessions := new SessionSet();
      eSessions := new SessionSet();
      spine, positions, this.known := [], [], known;
      points := (set s | s in known :: s.send) + (set s | s in known :: s.recv);
    }

    /** The lowest free position, or -1. */
    method FreePos() returns (i: int)
      requires allSessions.Valid() && forall p :: p in allSessions.positions ==> 0 <= p < MAX_SESSIONS
      ensures i == -1 ==> Below(MAX_SESSIONS) <= allSessions.positions
      ensures i != -1 ==>
                && 0 <= i < MAX_SESSIONS && i !in allSessions.positions
                && forall p :: 0 <= p < i ==> p in allSessions.positions
    {
      i := 0;
      while i < MAX_SESSIONS
        invariant 0 <= i <= MAX_SESSIONS && forall p :: 0 <= p < i ==> p in allSessions.positions
      {
        var taken := allSessions.IsSet(i);
        if !taken { return; }
        i := i + 1;
      }
      return -1;
    }

    /** The session goes to the front of the list. */
    method Push(session: RtpSession)
      requires Linked() && session in known && session !in spine
      modifies this`list, this`spine, session`next
      ensures Linked() && spine == [session] + old(spine)
    {
      var oldfirst := list;
      list := session;
      session.next := oldfirst;
      spine := [session] + spine;
      forall k {:trigger Following(spine, k)} | 0 <= k < |spine| ensures spine[k].next == Following(spine, k) {
        AddedFollowing(session, old(spine), k);
      }
    }

    /** The session leaves the list, wherever it is. */
    method Unlink(session: RtpSession, ghost k: nat)
      requires Linked() && k < |spine| && spine[k] == session
      modifies this`list, this`spine, known`next
      ensures Linked() && spine == old(spine)[..k] + old(spine)[k + 1..]
    {
      var tmp := list;
      assert spine[k].next == Following(spine, k);
      if tmp == session {
        list := tmp.next;
      } else {
        tmp := Before(session, k);
        if tmp != null { tmp.next := tmp.next.next; }
      }
      spine := spine[..k] + spine[k + 1..];
      forall i {:trigger Following(spine, i)} | 0 <= i < |spine| ensures spine[i].next == Following(spine, i) {
        RemovedFollowing(old(spine), k, i);
      }
    }

    /** rtp_scheduler_add_session. A session that finds no free position is put on the
        list all the same, with the position it had. */
    method AddSession(session: RtpSession)
      requires Sound() && session in known
      modifies this`list, this`allMax, this`spine, this`positions, session`next, session`maskPos, session`inScheduler
      modifies allSessions, rSessions, wSessions
      ensures Sound()
      ensures old(session.inScheduler) ==>
                spine == old(spine) && positions == old(positions) && View() == old(View())
      ensures !old(session.inScheduler) ==>
                && spine == [session] + old(spine) && positions == [session.maskPos] + old(positions)
                && Placed(old(View()), View(), old(session.maskPos), session.maskPos,
                          session.recvNotStarted, session.sendNotStarted)
      ensures old(Valid()) ==> (Valid() <==> old(session.inScheduler) || old(|spine|) < MAX_SESSIONS)
    {
      if session.inScheduler { return; }
      ghost var m, q, was, ok := View(), positions, session.maskPos, PositionsOk(positions, allSessions.positions);
      Enlist(session);
      if ok {
        PositionsAdded(q, m, View(), was, session.maskPos, session.recvNotStarted, session.sendNotStarted);
      }
    }

    method Enlist(session: RtpSession)
      requires Sound() && session in known && !session.inScheduler
      modifies this`list, this`allMax, this`spine, this`positions, session`next, session`maskPos, session`inScheduler
      modifies allSessions, rSessions, wSessions
      ensures Sound() && session.inScheduler
      ensures spine == [session] + old(spine) && positions == [session.maskPos] + old(positions)
      ensures Placed(old(View()), View(), old(session.maskPos), session.maskPos,
                     session.recvNotStarted, session.sendNotStarted)
    {
      ghost var rest := spine;
      Push(session);
      Place(session, rest);
    }

    /** The list is right but for the session just put in front, which is not marked. */
    ghost predicate Pushed(session: RtpSession, rest: seq<RtpSession>)
      reads this, known, rest
    {
      && Linked() && Apart(known) && spine == [session] + rest && session !in rest && |rest| == |positions|
      && (forall s :: s in known ==>
            && (s.inScheduler <==> s in rest) && 0 <= s.maskPos <= allMax
            && s.send in points && s.recv in points)
      && (forall i :: 0 <= i < |rest| ==> rest[i].maskPos == positions[i])
    }

    /** The session in front of the list gets its position and is marked as scheduled. */
    method Place(session: RtpSession, ghost rest: seq<RtpSession>)
      requires Pushed(session, rest) && MasksSound()
      modifies this`allMax, this`positions, session`maskPos, session`inScheduler, allSessions, rSessions, wSessions
      ensures Sound() && session.inScheduler && positions == [session.maskPos] + old(positions)
      ensures Placed(old(View()), View(), old(session.maskPos), session.maskPos,
                     session.recvNotStarted, session.sendNotStarted)
    {
      assert forall i :: 0 <= i < |rest| ==> rest[i] != session;
      TakePosition(session);
      Flag(session, rest);
    }

    method Flag(session: RtpSession, ghost rest: seq<RtpSession>)
      requires Pushed(session, rest)
      modifies this`positions, session`inScheduler
      ensures ListSound() && session.inScheduler && positions == [session.maskPos] + old(positions)
    {
      session.inScheduler := true;
      positions := [session.maskPos] + positions;
      assert forall s :: s in spine <==> s == session || s in rest;
    }

    /** The session gets the lowest free position of the mask, if there is one. A session
        that has not started is ready at once. */
    method TakePosition(session: RtpSession)
      requires MasksSound() && 0 <= session.maskPos <= allMax
      modifies session`maskPos, this`allMax, allSessions, rSessions, wSessions
      ensures MasksSound() && allMax >= old(allMax) && 0 <= session.maskPos <= allMax
      ensures Placed(old(View()), View(), old(session.maskPos), session.maskPos,
                     session.recvNotStarted, session.sendNotStarted)
    {
      var i := FindFree(session.recvNotStarted, session.sendNotStarted);
      if i != -1 {
        session.maskPos := i;
        MarkPosition(i, session.recvNotStarted, session.sendNotStarted);
      }
    }

    method FindFree(ghost recv: bool, ghost send: bool) returns (i: int)
      requires MasksSound()
      ensures if i == -1 then |View().all| >= MAX_SESSIONS
              else |View().all| < MAX_SESSIONS && Enabled(View(), Add(i, recv, send))
    {
      i := FreePos();
      FreeOrFull(allSessions.positions, i);
    }

    method MarkPosition(i: int, recvNotStarted: bool, sendNotStarted: bool)
      requires MasksSound() && Enabled(View(), Add(i, recvNotStarted, sendNotStarted))
      modifies this`allMax, allSessions, rSessions, wSessions
      ensures MasksSound() && View() == Next(old(View()), Add(i, recvNotStarted, sendNotStarted))
    {
      ghost var v := View();
      allSessions.Set(i);
      if recvNotStarted { rSessions.Set(i); }
      if sendNotStarted { wSessions.Set(i); }
      if i > allMax { allMax := i; }
      StepKeepsRange(v, Add(i, recvNotStarted, sendNotStarted));
    }

    /** rtp_scheduler_remove_session. The bits of the session in the ready masks stay. */
    method RemoveSession(session: RtpSession) returns (ghost k: nat)
      requires Sound() && session in known
      modifies this`list, this`spine, this`positions, allSessions, known`next, session`inScheduler
      ensures Sound() && (old(Valid()) ==> Valid())
      ensures !old(session.inScheduler) ==>
                spine == old(spine) && positions == old(positions) && View() == old(View())
      ensures old(session.inScheduler) ==>
                && View() == Next(old(View()), Remove(session.maskPos))
                && k < |old(spine)| && old(spine)[k] == session
                && spine == old(spine)[..k] + old(spine)[k + 1..]
                && positions == old(positions)[..k] + old(positions)[k + 1..]
    {
      k := 0;
      if !session.inScheduler { return; }
      ghost var v := View();
      k := IndexOf(spine, session);
      Delist(session, k);
      allSessions.Clr(session.maskPos);
      StepKeepsRange(v, Remove(session.maskPos));
      if PositionsOk(old(positions), v.all) { PositionRemoved(old(positions), v.all, k); }
    }

    /** The session leaves the list and is no longer marked as scheduled. */
    method Delist(session: RtpSession, ghost k: nat)
      requires ListSound() && k < |spine| && spine[k] == session
      modifies this`list, this`spine, this`positions, known`next, session`inScheduler
      ensures ListSound()
      ensures spine == old(spine)[..k] + old(spine)[k + 1..]
      ensures positions == old(positions)[..k] + old(positions)[k + 1..]
    {
      Unlink(session, k);
      session.inScheduler := false;
      positions := positions[..k] + positions[k + 1..];
      forall i | 0 <= i < |spine| ensures spine[i].maskPos == positions[i] {
        assert spine[i] == old(spine)[if i < k then i else i + 1];
      }
      RemovedMembers(old(spine), k);
    }

    /** The session in front of one on the list; null would mean it was not found. */
    method Before(session: RtpSession, ghost k: nat) returns (tmp: RtpSession?)
      requires Linked() && k < |spine| && spine[k] == session && list != session
      ensures k > 0 && tmp == spine[k - 1] && tmp.next == session
    {
      tmp := list;
      ghost var i := 0;
      assert Following(spine, k - 1) == session;
      while tmp != null && tmp.next != session
        invariant 0 <= i < k && tmp == spine[i]
        decreases k - i
      {
        assert spine[i].next == Following(spine, i);
        tmp := tmp.next;
        i := i + 1;
      }
      assert spine[i].next == Following(spine, i);
    }

    // ----- the ready masks -----

    /** session_set_set on a ready mask. */
    method RaiseBit(k: Kind, p: int)
      requires MasksSound() && !k.Err? && 0 <= p <= allMax
      modifies rSessions, wSessions
      ensures MasksSound() && View() == Next(old(View()), Raise(k, p))
    {
      ghost var v := View();
      if k.Send? { wSessions.Set(p); } else { rSessions.Set(p); }
      StepKeepsRange(v, Raise(k, p));
    }

    /** session_set_clr on a ready mask. */
    method LowerBit(k: Kind, p: int)
      requires MasksSound() && !k.Err? && 0 <= p <= allMax
      modifies rSessions, wSessions
      ensures MasksSound() && View() == Next(old(View()), Clear(k, p))
    {
      ghost var v := View();
      if k.Send? { wSessions.Clr(p); } else { rSessions.Clr(p); }
      StepKeepsRange(v, Clear(k, p));
    }

    ghost function Waits(): Waits
      reads this, points
    {
      map w | w in points :: Wait(w.time, w.wakeup)
    }

    /** rtp_session_process: a wait point that has expired is disarmed and the bit of the
        session raised; one that has not is left as it is. */
    method Process(session: RtpSession, t: u32)
      requires MasksSound() && 0 <= session.maskPos <= allMax && session.send in points && session.recv in points
      modifies session.send, session.recv, rSessions, wSessions
      ensures MasksSound()
      ensures View() == MasksAfter(old(View()), old(Waits()), session, session.maskPos, t)
      ensures Waits() == WaitsAfter(old(Waits()), session, t)
    {
      LookAt(session, Send, t);
      LookAt(session, Recv, t);
    }

    method LookAt(session: RtpSession, k: Kind, t: u32)
      requires MasksSound() && 0 <= session.maskPos <= allMax && WaitPointOf(session, k) in points && !k.Err?
      modifies WaitPointOf(session, k), rSessions, wSessions
      ensures MasksSound()
      ensures View() == (if Expires(old(Waits()), WaitPointOf(session, k), t)
                         then Next(old(View()), Raise(k, session.maskPos)) else old(View()))
      ensures Waits() == Looked(old(Waits()), WaitPointOf(session, k), t)
    {
      var ok := Look(WaitPointOf(session, k), t);
      if ok { RaiseBit(k, session.maskPos); }
    }

    /** wait_point_check */
    method Look(wp: Scheduler.WaitPoint, t: u32) returns (ok: bool)
      requires wp in points
      modifies wp
      ensures ok == Expires(old(Waits()), wp, t) && Waits() == Looked(old(Waits()), wp, t)
    {
      ok := wp.Check(t);
    }

    /** The sessions processed in one turn of rtp_scheduler_schedule: exactly the wait
        points of listed sessions that have expired are disarmed, and exactly their bits
        raised. */
    method Tick(t: u32)
      requires Sound()
      modifies rSessions, wSessions, points
      ensures Sound() && (old(Valid()) ==> Valid())
      ensures View() == Rung(old(View()), old(Waits()), spine, positions, |spine|, t)
      ensures Disarmed(old(Waits()), Waits(), spine, |spine|, t)
    {
      ghost var v, ws := View(), Waits();
      ListedApart(known, spine);
      ProcessAll(t);
      TickMasks(v, ws, spine, positions, |spine|, t);
      TickWaits(ws, spine, |spine|, t);
    }

    method ProcessAll(t: u32)
      requires ListWalked() && MasksSound()
      modifies rSessions, wSessions, points
      ensures MasksSound()
      ensures View() == MasksTicked(old(View()), old(Waits()), spine, positions, |spine|, t)
      ensures Waits() == WaitsTicked(old(Waits()), spine, |spine|, t)
    {
      var current := list;
      ghost var i, v, ws := 0, View(), Waits();
      while current != null
        invariant i <= |spine| && current == SessionAt(spine, i) && ListWalked() && MasksSound()
        invariant View() == MasksTicked(v, ws, spine, positions, i, t) && Waits() == WaitsTicked(ws, spine, i, t)
        decreases |spine| - i
      {
        current, i := ProcessNext(current, i, v, ws, t);
      }
    }

    method ProcessNext(current: RtpSession, ghost i: nat, ghost v: Masks, ghost ws: Waits, t: u32)
      returns (next: RtpSession?, ghost j: nat)
      requires ListWalked() && MasksSound() && i < |spine| && current == spine[i]
      requires View() == MasksTicked(v, ws, spine, positions, i, t) && Waits() == WaitsTicked(ws, spine, i, t)
      modifies current.send, current.recv, rSessions, wSessions
      ensures MasksSound() && i < j <= |spine| && next == SessionAt(spine, j)
      ensures View() == MasksTicked(v, ws, spine, positions, j, t) && Waits() == WaitsTicked(ws, spine, j, t)
    {
      assert current.next == Following(spine, i) && current.maskPos == positions[i];
      Process(current, t);
      next := current.next;
      j := i + 1;
    }

    ghost predicate ListWalked()
      reads this, known, spine
    {
      Linked() && PositionsSound()
    }

    ghost predicate PositionsSound()
      reads this, spine
    {
      && |positions| == |spine|
      && (forall i :: 0 <= i < |spine| ==> spine[i].send in points && spine[i].recv in points)
      && (forall i :: 0 <= i < |spine| ==> spine[i].maskPos == positions[i] && 0 <= positions[i] <= allMax)
    }

    /** The wait of rtp_session_sendm_with_ts and rtp_session_recvm_with_ts without
        blocking mode: a packet time still to come arms the wait point and lowers the
        bit, another raises it. */
    method Await(session: RtpSession, k: Kind, packetTime: u32, clock: u32)
      requires Sound() && session in known && !k.Err?
      modifies session.send, session.recv, rSessions, wSessions
      ensures Sound() && (old(Valid()) ==> Valid())
      ensures var wait := TsIsStrictlyNewer(packetTime, clock);
              var e := if wait then Clear(k, session.maskPos) else Raise(k, session.maskPos);
              && Enabled(old(View()), e) && View() == Next(old(View()), e)
              && Waits() == if wait then old(Waits())[WaitPointOf(session, k) := Wait(packetTime, true)]
                            else old(Waits())
    {
      var wp := WaitPointOf(session, k);
      if TsIsStrictlyNewer(packetTime, clock) {
        wp.WakeupAt(packetTime);
        LowerBit(k, session.maskPos);
      } else {
        RaiseBit(k, session.maskPos);
      }
    }
  }

  function WaitPointOf(session: RtpSession, k: Kind): Scheduler.WaitPoint {
    if k.Send? then session.send else session.recv
  }

  // ----- one tick on values -----

  datatype Wait = Wait(time: u32, wakeup: bool)

  type Waits = map<Scheduler.WaitPoint, Wait>

  predicate Expires(ws: Waits, w: Scheduler.WaitPoint, t: u32) {
    w in ws && Scheduler.Expired(ws[w].wakeup, ws[w].time, t)
  }

  /** wait_point_check */
  function Looked(ws: Waits, w: Scheduler.WaitPoint, t: u32): Waits {
    if Expires(ws, w, t) then ws[w := ws[w].(wakeup := false)] else ws
  }

  /** rtp_session_process of a session with position p. */
  function WaitsAfter(ws: Waits, s: RtpSession, t: u32): Waits { Looked(Looked(ws, s.send, t), s.recv, t) }

  ghost function MasksAfter(m: Masks, ws: Waits, s: RtpSession, p: int, t: u32): Masks {
    var m1 := if Expires(ws, s.send, t) then Next(m, Raise(Send, p)) else m;
    if Expires(Looked(ws, s.send, t), s.recv, t) then Next(m1, Raise(Recv, p)) else m1
  }

  /** The first n sessions of the list processed. */
  function WaitsTicked(ws: Waits, spine: seq<RtpSession>, n: nat, t: u32): Waits
    requires n <= |spine|
  {
    if n == 0 then ws else WaitsAfter(WaitsTicked(ws, spine, n - 1, t), spine[n - 1], t)
  }

  ghost function MasksTicked(m: Masks, ws: Waits, spine: seq<RtpSession>, positions: seq<int>, n: nat, t: u32): Masks
    requires n <= |spine| == |positions|
  {
    if n == 0 then m
    else
      MasksAfter(MasksTicked(m, ws, spine, positions, n - 1, t), WaitsTicked(ws, spine, n - 1, t),
                 spine[n - 1], positions[n - 1], t)
  }

  /** The bits of the first n sessions of the list whose wait point of a kind has
      expired. */
  ghost function Due(ws: Waits, spine: seq<RtpSession>, positions: seq<int>, n: nat, k: Kind, t: u32): set<int>
    requires n <= |spine| == |positions|
  {
    set j | 0 <= j < n && Expires(ws, WaitPointOf(spine[j], k), t) :: positions[j]
  }

  ghost predicate Listed(spine: seq<RtpSession>, n: nat, w: Scheduler.WaitPoint)
    requires n <= |spine|
  {
    exists j :: 0 <= j < n && (w == spine[j].send || w == spine[j].recv)
  }

  ghost predicate Separate(ws: Waits, spine: seq<RtpSession>) {
    Distinct(spine) && Apart(set s | s in spine) && forall s :: s in spine ==> s.send in ws && s.recv in ws
  }

  lemma ListedApart(known: set<RtpSession>, spine: seq<RtpSession>)
    requires Apart(known) && forall i :: 0 <= i < |spine| ==> spine[i] in known
    ensures Apart(set s | s in spine)
  {
  }

  /** Just those wait points that are listed among the first n sessions and had expired
      are disarmed. */
  ghost predicate Disarmed(ws: Waits, ws1: Waits, spine: seq<RtpSession>, n: nat, t: u32)
    requires n <= |spine|
  {
    && ws1.Keys == ws.Keys
    && (forall w :: w in ws ==>
          ws1[w] == if Listed(spine, n, w) && Expires(ws, w, t) then ws[w].(wakeup := false) else ws[w])
  }

  /** The wait points of the next session are as they were. */
  lemma NotYetListed(ws: Waits, ws1: Waits, spine: seq<RtpSession>, n: nat, t: u32)
    requires n < |spine| && Separate(ws, spine) && Disarmed(ws, ws1, spine, n, t)
    ensures var s := spine[n];
            s.send != s.recv && s.send in ws1 && s.recv in ws1 && ws1[s.send] == ws[s.send] && ws1[s.recv] == ws[s.recv]
  {
    var all := set s | s in spine;
    assert spine[n] in all && forall j :: 0 <= j < n ==> spine[j] in all;
    assert !Listed(spine, n, spine[n].send) && !Listed(spine, n, spine[n].recv);
  }

  lemma ListedStep(spine: seq<RtpSession>, n: nat, w: Scheduler.WaitPoint)
    requires n < |spine|
    ensures Listed(spine, n + 1, w) <==> Listed(spine, n, w) || w == spine[n].send || w == spine[n].recv
  {
    if Listed(spine, n, w) { var j :| 0 <= j < n && (w == spine[j].send || w == spine[j].recv); }
  }

  lemma DisarmedStep(ws: Waits, ws1: Waits, spine: seq<RtpSession>, n: nat, next: nat, t: u32)
    requires n < |spine| && next == n + 1 && Separate(ws, spine) && Disarmed(ws, ws1, spine, n, t)
    ensures Disarmed(ws, WaitsAfter(ws1, spine[n], t), spine, next, t)
  {
    NotYetListed(ws, ws1, spine, n, t);
    var ws2 := WaitsAfter(ws1, spine[n], t);
    SessionWaits(ws1, spine[n], t);
    forall w | w in ws
      ensures ws2[w] == if Listed(spine, next, w) && Expires(ws, w, t) then ws[w].(wakeup := false) else ws[w]
    {
      ListedStep(spine, n, w);
    }
  }

  /** One session processed: its wait points that have expired are disarmed. */
  lemma SessionWaits(ws: Waits, s: RtpSession, t: u32)
    requires s.send in ws && s.recv in ws && s.send != s.recv
    ensures var ws1 := WaitsAfter(ws, s, t);
            && ws1.Keys == ws.Keys
            && (forall w :: w in ws ==>
                  ws1[w] == if (w == s.send || w == s.recv) && Expires(ws, w, t)
                            then ws[w].(wakeup := false) else ws[w])
  {
  }

  lemma WaitsStep(ws: Waits, spine: seq<RtpSession>, n: nat, next: nat, t: u32)
    requires n < |spine| && next == n + 1
    ensures WaitsTicked(ws, spine, next, t) == WaitsAfter(WaitsTicked(ws, spine, n, t), spine[n], t)
  {
  }

  /** A tick disarms exactly those wait points of listed sessions that have expired. */
  lemma {:induction false} TickWaits(ws: Waits, spine: seq<RtpSession>, n: nat, t: u32)
    requires n <= |spine| && Separate(ws, spine)
    ensures Disarmed(ws, WaitsTicked(ws, spine, n, t), spine, n, t)
  {
    if n > 0 {
      var k := n - 1;
      TickWaits(ws, spine, k, t);
      WaitsStep(ws, spine, k, n, t);
      DisarmedStep(ws, WaitsTicked(ws, spine, k, t), spine, k, n, t);
    }
  }

  /** The masks with the bits of the first n sessions raised. */
  ghost function Rung(m: Masks, ws: Waits, spine: seq<RtpSession>, positions: seq<int>, n: nat, t: u32): Masks
    requires n <= |spine| == |positions|
  {
    m.(recv := m.recv + Due(ws, spine, positions, n, Recv, t), send := m.send + Due(ws, spine, positions, n, Send, t))
  }

  lemma RungStep(m: Masks, ws: Waits, ws1: Waits, spine: seq<RtpSession>, positions: seq<int>, n: nat, t: u32)
    requires n < |spine| == |positions| && Separate(ws, spine) && Disarmed(ws, ws1, spine, n, t)
    ensures MasksAfter(Rung(m, ws, spine, positions, n, t), ws1, spine[n], positions[n], t)
            == Rung(m, ws, spine, positions, n + 1, t)
  {
    NotYetListed(ws, ws1, spine, n, t);
    DueStep(ws, spine, positions, n, Recv, t);
    DueStep(ws, spine, positions, n, Send, t);
  }

  /** And it raises exactly their bits. */
  lemma {:induction false} TickMasks(m: Masks, ws: Waits, spine: seq<RtpSession>, positions: seq<int>, n: nat, t: u32)
    requires n <= |spine| == |positions| && Separate(ws, spine)
    ensures MasksTicked(m, ws, spine, positions, n, t) == Rung(m, ws, spine, positions, n, t)
  {
    if n > 0 {
      TickMasks(m, ws, spine, positions, n - 1, t);
      TickWaits(ws, spine, n - 1, t);
      RungStep(m, ws, WaitsTicked(ws, spine, n - 1, t), spine, positions, n - 1, t);
    }
  }

  lemma DueStep(ws: Waits, spine: seq<RtpSession>, positions: seq<int>, n: nat, k: Kind, t: u32)
    requires n < |spine| == |positions|
    ensures var d := Due(ws, spine, positions, n, k, t);
            Due(ws, spine, positions, n + 1, k, t)
            == if Expires(ws, WaitPointOf(spine[n], k), t) then d + {positions[n]} else d
  {
  }

  ghost function IndexOf(spine: seq<RtpSession>, s: RtpSession): (k: nat)
    requires s in spine
    ensures k < |spine| && spine[k] == s
  {
    var k :| 0 <= k < |spine| && spine[k] == s;
    k
  }

  lemma AddedFollowing(first: RtpSession, spine: seq<RtpSession>, k: nat)
    requires k <= |spine|
    ensures var s := [first] + spine;
            && s[k] == (if k == 0 then first else spine[k - 1])
            && (if k == 0 then Following(s, k) == if spine == [] then null else spine[0]
                else Following(s, k) == Following(spine, k - 1))
  {
  }

  lemma RemovedMembers(spine: seq<RtpSession>, k: nat)
    requires k < |spine| && Distinct(spine)
    ensures forall s :: s in spine[..k] + spine[k + 1..] <==> s in spine && s != spine[k]
  {
    var q := spine[..k] + spine[k + 1..];
    forall s | s in spine && s != spine[k] ensures s in q {
      var i :| 0 <= i < |spine| && spine[i] == s;
      assert q[if i < k then i else i - 1] == s;
    }
  }

  lemma RemovedFollowing(spine: seq<RtpSession>, k: nat, i: nat)
    requires k < |spine| && i < |spine| - 1
    ensures var s := spine[..k] + spine[k + 1..];
            && s[i] == spine[if i < k then i else i + 1]
            && Following(s, i) == Following(spine, if i < k - 1 then i else i + 1)
  {
  }
}
