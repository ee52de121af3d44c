/** The masks of sessionset.c and session_set_and. A mask is a row of 32-bit words,
    each word here the set of its one bits, numbered from the lowest. */
module SessionSets {
  import opened MaskEvents

  type Word = set<int>

  const WORD_BITS: nat := 32
  const SET_WORDS: nat := 32

  ghost predicate IsWord(w: Word) { forall b :: b in w ==> 0 <= b < 32 }

  ghost predicate AreWords(ws: seq<Word>) { forall k :: 0 <= k < |ws| ==> IsWord(ws[k]) }

  predicate BitAt(ws: seq<Word>, p: nat)
    requires p < 32 * |ws|
  {
    p % 32 in ws[p / 32]
  }

  /** The positions below a bound. */
  ghost function Upto(ws: seq<Word>, q: nat): set<int>
    requires q <= 32 * |ws|
  {
    set p | 0 <= p < q && BitAt(ws, p)
  }

  /** The positions in the first n words. */
  ghost function Members(ws: seq<Word>, n: nat): set<int>
    requires n <= |ws|
  {
    Upto(ws, 32 * n)
  }

  ghost function Count(ws: seq<Word>, n: nat): nat
    requires n <= |ws|
  {
    if n == 0 then 0 else Count(ws, n - 1) + |ws[n - 1]|
  }

  ghost function Low(w: Word, j: nat): Word { set b | b in w && b < j }

  lemma LowNext(w: Word, j: nat)
    ensures |Low(w, j + 1)| == |Low(w, j)| + if j in w then 1 else 0
  {
    assert Low(w, j + 1) == if j in w then Low(w, j) + {j} else Low(w, j);
  }

  lemma UptoNext(ws: seq<Word>, q: nat)
    requires q < 32 * |ws|
    ensures |Upto(ws, q + 1)| == |Upto(ws, q)| + if BitAt(ws, q) then 1 else 0
  {
    assert Upto(ws, q + 1) == if BitAt(ws, q) then Upto(ws, q) + {q} else Upto(ws, q);
  }

  /** Counting word by word, and bit by bit within a word, counts positions. */
  lemma {:induction false} UptoSize(ws: seq<Word>, k: nat, j: nat)
    requires k < |ws| && j <= 32 && AreWords(ws)
    ensures |Upto(ws, 32 * k + j)| == Count(ws, k) + |Low(ws[k], j)|
    decreases k, j
  {
    if j > 0 {
      UptoSize(ws, k, j - 1);
      UptoNext(ws, 32 * k + j - 1);
      LowNext(ws[k], j - 1);
    } else if k > 0 {
      UptoSize(ws, k - 1, 32);
      assert IsWord(ws[k - 1]) && Low(ws[k - 1], 32) == ws[k - 1];
      assert |Low(ws[k], 0)| == 0;
    } else {
      assert Upto(ws, 0) == {} && Low(ws[0], 0) == {};
    }
  }

  /** The sum of the words' bit counts is the number of positions. */
  lemma CountIsSize(ws: seq<Word>, n: nat)
    requires n <= |ws| && AreWords(ws)
    ensures Count(ws, n) == |Members(ws, n)|
  {
    if n > 0 {
      UptoSize(ws, n - 1, 32);
      assert IsWord(ws[n - 1]) && Low(ws[n - 1], 32) == ws[n - 1];
    } else {
      assert Members(ws, 0) == {};
    }
  }

  /** What wordwise and and and-not do to the positions of the masks. */
  lemma AndWords(sched: seq<Word>, user: seq<Word>, result: seq<Word>, left: seq<Word>, n: nat)
    requires n <= |sched| == |user| == |result| == |left|
    requires AreWords(sched) && AreWords(user) && AreWords(result) && AreWords(left)
    requires forall k :: 0 <= k < n ==> result[k] == sched[k] * user[k] && left[k] == sched[k] - result[k]
    requires forall k :: n <= k < |sched| ==> left[k] == sched[k]
    ensures var s, u := Members(sched, |sched|), Members(user, |user|);
            Members(result, n) == Hits(s, u, n) && Members(left, |left|) == s - Hits(s, u, n)
    ensures Count(result, n) == |Hits(Members(sched, |sched|), Members(user, |user|), n)|
  {
    var m := |sched|;
    forall p | 0 <= p < 32 * m
      ensures p < 32 * n ==> (BitAt(result, p) <==> BitAt(sched, p) && BitAt(user, p))
      ensures BitAt(left, p) <==> BitAt(sched, p) && !(p < 32 * n && BitAt(user, p))
    {
      assert 0 <= p / 32 < m && (p / 32 < n <==> p < 32 * n);
    }
    var hits := Hits(Members(sched, m), Members(user, m), n);
    assert Members(result, n) == hits;
    assert Members(left, m) == Members(sched, m) - hits;
    CountIsSize(result, n);
  }

  /** Counts the one bits as the inner loop does. */
  method CountBits(w: Word) returns (bits: nat)
    requires IsWord(w)
    ensures bits == |w|
  {
    bits := 0;
    var j := 0;
    ghost var seen: set<int> := {};
    while j < WORD_BITS
      invariant 0 <= j <= 32 && bits == |seen| && seen <= w
      invariant forall b :: b in seen <==> b in w && b < j
    {
      if j in w {
        bits := bits + 1;
        seen := seen + {j};
      }
      j := j + 1;
    }
    assert seen == w;
  }

  /** One bit raised or lowered changes the positions by that one. */
  lemma BitWritten(ws: seq<Word>, p: nat)
    requires AreWords(ws) && p < 32 * |ws|
    ensures var up, down := ws[p / 32 := ws[p / 32] + {p % 32}], ws[p / 32 := ws[p / 32] - {p % 32}];
            && AreWords(up) && Members(up, |up|) == Members(ws, |ws|) + {p}
            && AreWords(down) && Members(down, |down|) == Members(ws, |ws|) - {p}
  {
    var up, down := ws[p / 32 := ws[p / 32] + {p % 32}], ws[p / 32 := ws[p / 32] - {p % 32}];
    assert IsWord(ws[p / 32]);
    forall q | 0 <= q < 32 * |ws|
      ensures BitAt(up, q) <==> BitAt(ws, q) || q == p
      ensures BitAt(down, q) <==> BitAt(ws, q) && q != p
    {
      assert q == 32 * (q / 32) + q % 32 && p == 32 * (p / 32) + p % 32;
    }
  }

  class SessionSet {
    var words: seq<Word>
    ghost var positions: set<int>

    ghost predicate Valid()
      reads this
    {
      |words| == SET_WORDS && AreWords(words) && positions == Members(words, SET_WORDS)
    }

    /** session_set_init */
    constructor ()
      ensures Valid() && positions == {}
    {
      words := seq(SET_WORDS, _ => {});
      positions := {};
    }

    /** session_set_set */
    method Set(p: nat)
      requires Valid() && p < MAX_SESSIONS
      modifies this
      ensures Valid() && positions == old(positions) + {p}
    {
      BitWritten(words, p);
      words := words[p / 32 := words[p / 32] + {p % 32}];
      positions := positions + {p};
    }

    /** session_set_clr */
    method Clr(p: nat)
      requires Valid() && p < MAX_SESSIONS
      modifies this
      ensures Valid() && positions == old(positions) - {p}
    {
      BitWritten(words, p);
      words := words[p / 32 := words[p / 32] - {p % 32}];
      positions := positions - {p};
    }

    /** session_set_is_set */
    method IsSet(p: nat) returns (b: bool)
      requires Valid() && p < MAX_SESSIONS
      ensures b == (p in positions)
    {
      return p % 32 in words[p / 32];
    }
  }

  /** The masks after the first k words were handled: intersection in the result,
      what was found taken out of the scheduler's mask, the words above untouched. */
  ghost predicate AndedTo(s0: seq<Word>, u0: seq<Word>, r0: seq<Word>, s: seq<Word>, r: seq<Word>, k: nat) {
    && |s0| == |u0| == |r0| == |s| == |r| && k <= |s|
    && (forall j :: 0 <= j < k ==> r[j] == s0[j] * u0[j] && s[j] == s0[j] - r[j])
    && (forall j :: k <= j < |s| ==> r[j] == r0[j] && s[j] == s0[j])
  }

  /** session_set_and: the words up to the one of position maxs. What this means for
      positions is AndResult below. */
  method SessionSetAnd(sched: SessionSet, maxs: nat, user: SessionSet, result: SessionSet) returns (ret: nat)
    requires sched != result && user != result && sched != user
    requires |sched.words| == |user.words| == |result.words| && Covered(maxs) <= |sched.words|
    requires AreWords(sched.words)
    modifies sched`words, result`words
    ensures AndedTo(old(sched.words), user.words, old(result.words), sched.words, result.words, Covered(maxs))
    ensures ret == Count(result.words, Covered(maxs))
  {
    ghost var s0, u0, r0 := sched.words, user.words, result.words;
    var i, k := 0, 0;
    ret := 0;
    while i < maxs + 1
      invariant 0 <= k <= Covered(maxs) && i == 32 * k
      invariant AndedTo(s0, u0, r0, sched.words, result.words, k) && ret == Count(result.words, k)
      decreases maxs + 1 - i
    {
      ghost var s1, r1 := sched.words, result.words;
      assert s1[k] == s0[k] && IsWord(s0[k]);
      var found := sched.words[k] * user.words[k];
      result.words := result.words[k := found];
      sched.words := sched.words[k := sched.words[k] - found];
      if found != {} {
        var bits := CountBits(found);
        ret := ret + bits;
      }
      AndedStep(s0, u0, r0, s1, r1, k);
      i, k := i + 32, k + 1;
    }
    LastWord(maxs, k);
  }

  lemma AndedStep(s0: seq<Word>, u0: seq<Word>, r0: seq<Word>, s: seq<Word>, r: seq<Word>, k: nat)
    requires AndedTo(s0, u0, r0, s, r, k) && k < |s|
    ensures var r1, s1 := r[k := s[k] * u0[k]], s[k := s[k] - s[k] * u0[k]];
            AndedTo(s0, u0, r0, s1, r1, k + 1) && Count(r1, k + 1) == Count(r, k) + |s[k] * u0[k]|
  {
    CountSame(r, r[k := s[k] * u0[k]], k);
  }

  lemma LastWord(maxs: nat, k: nat)
    requires maxs < 32 * k && k <= Covered(maxs)
    ensures k == Covered(maxs)
  {
  }

  /** The result holds the positions raised in both masks up to the covered words, as
      many as were counted, and they are gone from the scheduler's mask. */
  lemma AndResult(s0: seq<Word>, u0: seq<Word>, r0: seq<Word>, s: seq<Word>, r: seq<Word>, n: nat)
    requires AndedTo(s0, u0, r0, s, r, n) && AreWords(s0) && AreWords(u0) && AreWords(r0)
    ensures AreWords(s) && AreWords(r)
    ensures var hits := Hits(Members(s0, |s0|), Members(u0, |u0|), n);
            Members(r, n) == hits && Members(s, |s|) == Members(s0, |s0|) - hits && Count(r, n) == |hits|
  {
    AndedWords(s0, u0, r0, s, r, n);
    AndWords(s0, u0, r, s, n);
  }

  lemma AndedWords(s0: seq<Word>, u0: seq<Word>, r0: seq<Word>, s: seq<Word>, r: seq<Word>, n: nat)
    requires AndedTo(s0, u0, r0, s, r, n) && AreWords(s0) && AreWords(u0) && AreWords(r0)
    ensures AreWords(s) && AreWords(r)
  {
    forall j | 0 <= j < |s| ensures IsWord(s[j]) && IsWord(r[j]) {
      assert IsWord(s0[j]) && IsWord(r0[j]);
    }
  }

  lemma {:induction false} CountSame(a: seq<Word>, b: seq<Word>, n: nat)
    requires n <= |a| && n <= |b| && forall k :: 0 <= k < n ==> a[k] == b[k]
    ensures Count(a, n) == Count(b, n)
  {
    if n > 0 {
      CountSame(a, b, n - 1);
    }
  }
}
