/** session_set_select (sessionset.c) on the masks of a scheduler. */
module SessionSelect {
  import opened MaskEvents
  import opened SessionSets
  import opened SessionMask

  /** A mask of the caller after a pass: left alone if nothing was found, else the hits
      in the covered words. */
  ghost predicate Returned(u0: seq<Word>, u: seq<Word>, n: int, hits: set<int>) {
    if hits == {} then u == u0 else 0 <= n <= |u| && Members(u, n) == hits
  }

  /** The caller reads the result off the covered words correctly exactly if something
      was found in that mask, or nothing was asked for. */
  lemma ReturnedIff(u0: seq<Word>, u: seq<Word>, n: nat, hits: set<int>)
    requires n <= |u0| && Returned(u0, u, n, hits)
    ensures n <= |u| && (Members(u, n) == hits <==> hits != {} || Members(u0, n) == {})
  {
  }

  /** The pass over one mask. Above the covered words a mask in which something was found
      becomes what the temporary happened to hold. */
  method SelectPass(sched: SessionSet, allMax: nat, user: SessionSet, temp: SessionSet) returns (bits: nat)
    requires sched.Valid() && user.Valid() && temp.Valid() && sched != temp && user != temp && sched != user
    requires allMax < MAX_SESSIONS
    modifies sched, user, temp
    ensures sched.Valid() && user.Valid() && temp.Valid()
    ensures var hits := old(Hits(sched.positions, user.positions, Covered(allMax)));
            && bits == |hits| && sched.positions == old(sched.positions) - hits
            && Returned(old(user.words), user.words, Covered(allMax), hits)
            && (hits != {} ==> user.words[Covered(allMax)..] == old(temp.words)[Covered(allMax)..])
  {
    ghost var s0, t0 := sched.words, temp.words;
    bits := SessionSetAnd(sched, allMax, user, temp);
    AndResult(s0, user.words, t0, sched.words, temp.words, Covered(allMax));
    if bits > 0 {
      user.words := temp.words;
    }
    sched.positions, user.positions := Members(sched.words, SET_WORDS), Members(user.words, SET_WORDS);
    temp.positions := Members(temp.words, SET_WORDS);
  }

  /** The words of a mask and what they ask for; NULL asks for nothing. */
  ghost function Asked(user: SessionSet?): (seq<Word>, set<int>)
    reads user
  {
    if user == null then ([], {}) else (user.words, user.positions)
  }

  ghost predicate Sound(user: SessionSet?)
    reads user
  {
    user != null ==> user.Valid()
  }

  /** A ready mask without a bit above the highest position. */
  ghost predicate Ranged(mask: SessionSet, allMax: nat)
    reads mask
  {
    mask.Valid() && allMax < MAX_SESSIONS && forall p :: p in mask.positions ==> p <= allMax
  }

  /** What one mask contributes: every raised bit that is asked for, and no other. */
  method SelectKind(mask: SessionSet, allMax: nat, user: SessionSet?, temp: SessionSet) returns (bits: nat)
    requires Ranged(mask, allMax) && Sound(user) && temp.Valid()
    requires mask != temp && user != temp && user != mask
    modifies mask, user, temp
    ensures Ranged(mask, allMax) && Sound(user) && temp.Valid()
    ensures mask.positions == old(mask.positions - Asked(user).1)
    ensures var hits := old(mask.positions * Asked(user).1);
            bits == |hits| && Returned(old(Asked(user)).0, Asked(user).0, Covered(allMax), hits)
  {
    if user == null {
      bits := 0;
    } else {
      CoveredHits(mask.positions, user.positions, allMax);
      bits := SelectPass(mask, allMax, user, temp);
    }
  }

  /** The masks with the bits asked for lowered. */
  function Without(m: Masks, k: Kind, user: set<int>): Masks { SetReady(m, k, Ready(m, k) - user) }

  /** That is a select. */
  lemma SelectIs(m: Masks, k: Kind, user: set<int>)
    requires InRange(m)
    ensures Next(m, Select(k, user)) == Without(m, k, user) && InRange(Without(m, k, user))
  {
    NothingOverlooked(m, k, user);
    StepKeepsRange(m, Select(k, user));
  }

  /** The three selects of one turn. */
  ghost function Selected(m: Masks, recvs: set<int>, sends: set<int>, errors: set<int>): Masks {
    Next(Next(Next(m, Select(Recv, recvs)), Select(Send, sends)), Select(Err, errors))
  }

  lemma SelectedIs(m: Masks, recvs: set<int>, sends: set<int>, errors: set<int>)
    requires InRange(m)
    ensures Selected(m, recvs, sends, errors)
            == Masks(m.all, m.allMax, m.recv - recvs, m.send - sends, m.err - errors)
  {
    SelectIs(m, Recv, recvs);
    SelectIs(Without(m, Recv, recvs), Send, sends);
    SelectIs(Without(Without(m, Recv, recvs), Send, sends), Err, errors);
  }

  /** The three passes of session_set_select. */
  method SelectMasks(r: SessionSet, w: SessionSet, e: SessionSet, allMax: nat,
                     recvs: SessionSet?, sends: SessionSet?, errors: SessionSet?, temp: SessionSet)
    returns (ret: nat)
    requires Ranged(r, allMax) && Ranged(w, allMax) && Ranged(e, allMax)
    requires Sound(recvs) && Sound(sends) && Sound(errors) && temp.Valid()
    requires r != w && r != e && w != e && temp !in [r, w, e] && temp !in [recvs, sends, errors]
    requires r !in [recvs, sends, errors] && w !in [recvs, sends, errors] && e !in [recvs, sends, errors]
    requires (recvs != null ==> recvs != sends && recvs != errors) && (sends != null ==> sends != errors)
    modifies r, w, e, temp, recvs, sends, errors
    ensures Ranged(r, allMax) && Ranged(w, allMax) && Ranged(e, allMax)
    ensures r.positions == old(r.positions - Asked(recvs).1)
    ensures w.positions == old(w.positions - Asked(sends).1)
    ensures e.positions == old(e.positions - Asked(errors).1)
    ensures ret == old(|r.positions * Asked(recvs).1| + |w.positions * Asked(sends).1|
                       + |e.positions * Asked(errors).1|)
    ensures Returned(old(Asked(recvs)).0, Asked(recvs).0, Covered(allMax), old(r.positions * Asked(recvs).1))
    ensures Returned(old(Asked(sends)).0, Asked(sends).0, Covered(allMax), old(w.positions * Asked(sends).1))
    ensures Returned(old(Asked(errors)).0, Asked(errors).0, Covered(allMax), old(e.positions * Asked(errors).1))
  {
    ghost var s0, e0, sent, failed := Asked(sends), Asked(errors), w.positions, e.positions;
    ret := SelectKind(r, allMax, recvs, temp);
    ghost var r1, got := Asked(recvs), r.positions;
    assert Asked(sends) == s0 && Asked(errors) == e0 && w.positions == sent && e.positions == failed;
    var bits := SelectTwo(w, e, allMax, sends, errors, temp);
    ret := ret + bits;
    assert Asked(recvs) == r1 && r.positions == got;
  }

  method SelectTwo(w: SessionSet, e: SessionSet, allMax: nat, sends: SessionSet?, errors: SessionSet?, temp: SessionSet)
    returns (ret: nat)
    requires Ranged(w, allMax) && Ranged(e, allMax) && Sound(sends) && Sound(errors) && temp.Valid()
    requires w != e && temp !in [w, e] && temp !in [sends, errors] && w !in [sends, errors] && e !in [sends, errors]
    requires sends != null ==> sends != errors
    modifies w, e, temp, sends, errors
    ensures Ranged(w, allMax) && Ranged(e, allMax)
    ensures w.positions == old(w.positions - Asked(sends).1) && e.positions == old(e.positions - Asked(errors).1)
    ensures ret == old(|w.positions * Asked(sends).1| + |e.positions * Asked(errors).1|)
    ensures Returned(old(Asked(sends)).0, Asked(sends).0, Covered(allMax), old(w.positions * Asked(sends).1))
    ensures Returned(old(Asked(errors)).0, Asked(errors).0, Covered(allMax), old(e.positions * Asked(errors).1))
  {
    ghost var e0, failed := Asked(errors), e.positions;
    ret := SelectKind(w, allMax, sends, temp);
    ghost var s1, left := Asked(sends), w.positions;
    assert Asked(errors) == e0 && e.positions == failed;
    var bits := SelectKind(e, allMax, errors, temp);
    ret := ret + bits;
    assert Asked(sends) == s1 && w.positions == left;
  }

  /** One turn of the loop of session_set_select: three selects, which report every raised
      bit asked for. With 0 found the caller sleeps until the next tick and tries
      again. */
  method SelectTurn(sched: RtpScheduler, recvs: SessionSet?, sends: SessionSet?, errors: SessionSet?, temp: SessionSet)
    returns (ret: nat)
    requires sched.MasksSound() && Sound(recvs) && Sound(sends) && Sound(errors) && temp.Valid()
    requires var own := [sched.allSessions, sched.rSessions, sched.wSessions, sched.eSessions];
             temp !in own && recvs !in own && sends !in own && errors !in own && temp !in [recvs, sends, errors]
    requires (recvs != null ==> recvs != sends && recvs != errors) && (sends != null ==> sends != errors)
    modifies sched.rSessions, sched.wSessions, sched.eSessions, temp, recvs, sends, errors
    ensures sched.MasksSound()
    ensures sched.View() == Selected(old(sched.View()), old(Asked(recvs)).1, old(Asked(sends)).1, old(Asked(errors)).1)
    ensures var m, n := old(sched.View()), Covered(sched.allMax);
            var got, sent := m.recv * old(Asked(recvs)).1, m.send * old(Asked(sends)).1;
            var failed := m.err * old(Asked(errors)).1;
            && ret == |got| + |sent| + |failed|
            && Returned(old(Asked(recvs)).0, Asked(recvs).0, n, got)
            && Returned(old(Asked(sends)).0, Asked(sends).0, n, sent)
            && Returned(old(Asked(errors)).0, Asked(errors).0, n, failed)
  {
    ghost var m, r, s, e := sched.View(), Asked(recvs).1, Asked(sends).1, Asked(errors).1;
    RangedMasks(m);
    SelectedIs(m, r, s, e);
    assert Ranged(sched.rSessions, sched.allMax) && Ranged(sched.wSessions, sched.allMax);
    assert Ranged(sched.eSessions, sched.allMax);
    ret := SelectMasks(sched.rSessions, sched.wSessions, sched.eSessions, sched.allMax, recvs, sends, errors, temp);
    LessInRange(m, sched.View());
  }

  lemma RangedMasks(m: Masks)
    requires InRange(m)
    ensures forall p :: p in m.recv || p in m.send || p in m.err ==> p <= m.allMax
  {
    assert forall k, p :: p in Ready(m, k) ==> p <= m.allMax;
    assert Ready(m, Recv) == m.recv && Ready(m, Send) == m.send && Ready(m, Err) == m.err;
  }

  lemma LessInRange(m: Masks, m1: Masks)
    requires InRange(m) && m1.all == m.all && m1.allMax == m.allMax
    requires m1.recv <= m.recv && m1.send <= m.send && m1.err <= m.err
    ensures InRange(m1)
  {
    forall k, p | p in Ready(m1, k) ensures 0 <= p <= m1.allMax {
      assert p in Ready(m, k);
    }
  }
}
