/** The message blocks of str_utils.c: blocks that point into reference-counted data
    and are linked into messages. Memory is explicit: a pointer may be used only
    while its block is allocated, so every access here is also a proof that nothing
    is touched after it was freed. */
module MsgBlocks {
  import opened Modular
  import opened Wrappers
  type Ptr = int


  /** dblk_t: the buffer from db_base to db_lim and the reference count. */
  datatype Dblk = Dblk(base: seq<u8>, refCount: int)

  /** mblk_t: b_rptr and b_wptr are offsets into the buffer. */
  datatype Mblk = Mblk(datap: Ptr, rptr: int, wptr: int, cont: Option<Ptr>)

  datatype Mem = Mem(mblks: map<Ptr, Mblk>, dblks: map<Ptr, Dblk>)

  /** The live blocks that point at a data block. */
  function Refs(h: Mem, d: Ptr): set<Ptr> { set p | p in h.mblks && h.mblks[p].datap == d }

  ghost predicate InBounds(h: Mem, p: Ptr) {
    && p in h.mblks && h.mblks[p].datap in h.dblks
    && 0 <= h.mblks[p].rptr <= h.mblks[p].wptr <= |h.dblks[h.mblks[p].datap].base|
  }

  /** A reference count is the number of live blocks that point at the data. */
  ghost predicate CountsExact(h: Mem) {
    forall d :: d in h.dblks ==> h.dblks[d].refCount == |Refs(h, d)| && h.dblks[d].refCount >= 1
  }

  /** Every block continues with a live one or ends, and no two with the same. */
  ghost predicate LinksOk(h: Mem) {
    && (forall p, q :: p in h.mblks && h.mblks[p].cont == Some(q) ==> q in h.mblks)
    && (forall p, q :: p in h.mblks && q in h.mblks && p != q && h.mblks[p].cont.Some? ==>
          h.mblks[p].cont != h.mblks[q].cont)
  }

  ghost predicate Wf(h: Mem) {
    (forall p :: p in h.mblks ==> InBounds(h, p)) && CountsExact(h) && LinksOk(h)
  }

  /** No block continues with p: it starts a message, or is by itself. */
  ghost predicate IsHead(h: Mem, p: Ptr) {
    forall q :: q in h.mblks ==> h.mblks[q].cont != Some(p)
  }

  function Following(c: seq<Ptr>, i: nat): Option<Ptr> { if i + 1 < |c| then Some(c[i + 1]) else None }

  /** c lists the blocks of the message that starts at p. */
  ghost predicate Chain(h: Mem, p: Ptr, c: seq<Ptr>) {
    && c != [] && c[0] == p
    && (forall i :: 0 <= i < |c| ==> c[i] in h.mblks)
    && (forall i, j :: 0 <= i < j < |c| ==> c[i] != c[j])
    && (forall i {:trigger Following(c, i)} :: 0 <= i < |c| ==> h.mblks[c[i]].cont == Following(c, i))
  }

  ghost function Bytes(h: Mem, p: Ptr): seq<u8> {
    if InBounds(h, p) then h.dblks[h.mblks[p].datap].base[h.mblks[p].rptr..h.mblks[p].wptr] else []
  }

  /** The contents of the first n of some blocks, one after the other. */
  ghost function FlatTo(h: Mem, c: seq<Ptr>, n: nat): seq<u8>
    requires n <= |c|
  {
    if n == 0 then [] else FlatTo(h, c, n - 1) + Bytes(h, c[n - 1])
  }

  ghost function Flat(h: Mem, c: seq<Ptr>): seq<u8> { FlatTo(h, c, |c|) }

  function Drop(s: seq<u8>, n: nat): seq<u8> { if n <= |s| then s[n..] else [] }

  function Take(s: seq<u8>, n: nat): seq<u8> { if n <= |s| then s[..n] else s }

  /** The same bytes in another heap, or in other blocks. */
  lemma {:induction false} FlatSame(h: Mem, c: seq<Ptr>, k: Mem, e: seq<Ptr>, n: nat)
    requires n <= |c| && n <= |e| && forall i :: 0 <= i < n ==> Bytes(h, c[i]) == Bytes(k, e[i])
    ensures FlatTo(h, c, n) == FlatTo(k, e, n)
  {
    if n > 0 {
      FlatSame(h, c, k, e, n - 1);
    }
  }

  /** What follows the first i blocks. */
  lemma {:induction false} FlatSplit(h: Mem, c: seq<Ptr>, i: nat, n: nat)
    requires i <= n <= |c|
    ensures FlatTo(h, c, n) == FlatTo(h, c, i) + FlatTo(h, c[i..], n - i)
  {
    if i < n {
      FlatSplit(h, c, i, n - 1);
      assert c[i..][n - 1 - i] == c[n - 1];
      Assoc(FlatTo(h, c, i), FlatTo(h, c[i..], n - 1 - i), Bytes(h, c[n - 1]));
    }
  }

  lemma Assoc(a: seq<u8>, b: seq<u8>, c: seq<u8>)
    ensures a + b + c == a + (b + c)
  {
  }

  lemma FlatHead(h: Mem, c: seq<Ptr>)
    requires c != []
    ensures Flat(h, c) == Bytes(h, c[0]) + Flat(h, c[1..])
  {
    FlatFrom(h, c, 1, c[1..]);
    assert FlatTo(h, c, 1) == FlatTo(h, c, 0) + Bytes(h, c[0]) == Bytes(h, c[0]);
  }

  lemma FlatFrom(h: Mem, c: seq<Ptr>, i: nat, tail: seq<Ptr>)
    requires i <= |c| && tail == c[i..]
    ensures Flat(h, c) == FlatTo(h, c, i) + Flat(h, tail)
  {
    var n, m := |c|, |tail|;
    assert m == n - i;
    FlatSplit(h, c, i, n);
    assert FlatTo(h, tail, n - i) == FlatTo(h, tail, m);
  }

  /** Blocks of h that are also in k, unchanged and with unchanged bytes. */
  ghost predicate Kept(h: Mem, k: Mem, p: Ptr) {
    && p in h.mblks && p in k.mblks && k.mblks[p] == h.mblks[p]
    && h.mblks[p].datap in h.dblks && h.mblks[p].datap in k.dblks
    && k.dblks[h.mblks[p].datap].base == h.dblks[h.mblks[p].datap].base
  }

  /** Everything allocated in h is still there and unchanged but for the counts. */
  ghost predicate Extends(h: Mem, k: Mem) {
    forall p :: p in h.mblks ==> Kept(h, k, p)
  }

  // ----- what the primitives do -----

  /** Reference counts after a block was added for d. */
  lemma AddRef(h: Mem, p: Ptr, m: Mblk)
    requires p !in h.mblks
    ensures var k := h.(mblks := h.mblks[p := m]);
            && |Refs(k, m.datap)| == |Refs(h, m.datap)| + 1
            && forall d :: d != m.datap ==> Refs(k, d) == Refs(h, d)
  {
    var k := h.(mblks := h.mblks[p := m]);
    assert Refs(k, m.datap) == Refs(h, m.datap) + {p};
  }

  lemma DropRef(h: Mem, p: Ptr)
    requires p in h.mblks
    ensures var k := h.(mblks := h.mblks - {p});
            && |Refs(k, h.mblks[p].datap)| == |Refs(h, h.mblks[p].datap)| - 1
            && forall d :: d != h.mblks[p].datap ==> Refs(k, d) == Refs(h, d)
  {
    var k := h.(mblks := h.mblks - {p});
    assert Refs(h, h.mblks[p].datap) == Refs(k, h.mblks[p].datap) + {p};
  }

  /** freeb */
  function FreebSpec(h: Mem, p: Ptr): Mem
    requires p in h.mblks && h.mblks[p].datap in h.dblks
  {
    var d := h.mblks[p].datap;
    var n := h.dblks[d].refCount - 1;
    Mem(h.mblks - {p}, if n == 0 then h.dblks - {d} else h.dblks[d := h.dblks[d].(refCount := n)])
  }

  /** dupb */
  function DupbSpec(h: Mem, p: Ptr, newm: Ptr): Mem
    requires p in h.mblks && h.mblks[p].datap in h.dblks
  {
    var d := h.mblks[p].datap;
    Mem(h.mblks[newm := h.mblks[p].(cont := None)], h.dblks[d := h.dblks[d].(refCount := h.dblks[d].refCount + 1)])
  }

  function Link(h: Mem, p: Ptr, cont: Option<Ptr>): Mem
    requires p in h.mblks
  {
    h.(mblks := h.mblks[p := h.mblks[p].(cont := cont)])
  }

  /** Changing links, offsets and bytes leaves the counts exact. */
  lemma ReshapeKeepsCounts(h: Mem, k: Mem)
    requires CountsExact(h) && h.mblks.Keys == k.mblks.Keys && h.dblks.Keys == k.dblks.Keys
    requires forall p :: p in h.mblks ==> h.mblks[p].datap == k.mblks[p].datap
    requires forall d :: d in h.dblks ==> h.dblks[d].refCount == k.dblks[d].refCount
    ensures CountsExact(k)
  {
    forall d | d in k.dblks ensures k.dblks[d].refCount == |Refs(k, d)| && k.dblks[d].refCount >= 1 {
      assert d in h.dblks.Keys;
      forall p ensures p in Refs(h, d) <==> p in Refs(k, d) {
        assert p in h.mblks <==> p in h.mblks.Keys;
      }
      assert Refs(h, d) == Refs(k, d);
    }
  }

  /** A released data block had no other block pointing at it. */
  lemma FreebKeepsWf(h: Mem, p: Ptr)
    requires Wf(h) && p in h.mblks && IsHead(h, p)
    ensures Wf(FreebSpec(h, p))
    ensures forall q :: q in h.mblks && q != p ==> Kept(h, FreebSpec(h, p), q)
  {
    DropRef(h, p);
    var k, d := FreebSpec(h, p), h.mblks[p].datap;
    assert forall e :: Refs(k, e) == Refs(h.(mblks := h.mblks - {p}), e);
    forall q | q in h.mblks && q != p ensures Kept(h, k, q) {
      if h.mblks[q].datap == d { assert q in Refs(k, d); }
    }
  }

  lemma DupbKeepsWf(h: Mem, p: Ptr, newm: Ptr)
    requires Wf(h) && p in h.mblks && newm !in h.mblks
    ensures var k := DupbSpec(h, p, newm);
            Wf(k) && Extends(h, k) && Bytes(k, newm) == Bytes(h, p) && IsHead(k, newm)
  {
    AddRef(h, newm, h.mblks[p].(cont := None));
    var k := DupbSpec(h, p, newm);
    assert forall e :: Refs(k, e) == Refs(h.(mblks := k.mblks), e);
  }

  lemma LinkKeepsWf(h: Mem, p: Ptr, cont: Option<Ptr>)
    requires Wf(h) && p in h.mblks
    requires cont.Some? ==> cont.value in h.mblks && forall q :: q in h.mblks && q != p ==> h.mblks[q].cont != cont
    ensures Wf(Link(h, p, cont))
  {
    var k := Link(h, p, cont);
    assert forall q :: q in k.mblks ==> q in h.mblks && InBounds(h, q);
    ReshapeKeepsCounts(h, k);
  }

  /** The rest of a message after its first block was freed. */
  lemma ChainTail(h: Mem, k: Mem, c: seq<Ptr>)
    requires LinksOk(h) && c != [] && Chain(h, c[0], c)
    requires forall p :: p in k.mblks <==> p in h.mblks && p != c[0]
    requires forall p :: p in k.mblks ==> k.mblks[p] == h.mblks[p]
    ensures |c| > 1 ==> Chain(k, c[1], c[1..]) && IsHead(k, c[1])
    ensures forall p :: p in c <==> p in c[1..] || p == c[0]
    ensures c[0] !in c[1..] && (h.mblks[c[0]].cont == if |c| > 1 then Some(c[1]) else None)
  {
    var e := c[1..];
    forall i | 0 <= i < |e| ensures e[i] in k.mblks && k.mblks[e[i]].cont == Following(e, i) {
      assert e[i] == c[i + 1] && Following(e, i) == Following(c, i + 1);
    }
    assert h.mblks[c[0]].cont == Following(c, 0);
    assert c == [c[0]] + e;
  }

  /** With exact counts a buffer is there exactly as long as a block points at it. */
  lemma AllReferenced(h: Mem, k: Mem)
    requires Wf(k) && (forall d :: d in k.dblks ==> d in h.dblks)
    requires forall p :: p in k.mblks ==> Kept(h, k, p)
    ensures forall d :: d in k.dblks <==> d in h.dblks && exists p :: p in k.mblks && k.mblks[p].datap == d
  {
    forall d | d in k.dblks ensures exists p :: p in k.mblks && k.mblks[p].datap == d {
      NoRefs(k, d);
    }
  }

  lemma NoRefs(h: Mem, d: Ptr)
    ensures Refs(h, d) == {} || exists p :: p in h.mblks && h.mblks[p].datap == d
  {
    if forall p :: p in h.mblks ==> h.mblks[p].datap != d {
      assert forall p :: p !in Refs(h, d);
    }
  }

  /** k is h with block q, a duplicate of p, put behind the last block of message c. */
  ghost predicate Appended(h: Mem, c: seq<Ptr>, p: Ptr, q: Ptr, k: Mem) {
    && c != [] && p in h.mblks && q !in h.mblks && q in k.mblks
    && k.mblks[q] == h.mblks[p].(cont := None)
    && (forall x :: x in k.mblks <==> x in h.mblks || x == q)
    && (forall x :: x in h.mblks ==> k.mblks[x] == if x == c[|c| - 1] then h.mblks[x].(cont := Some(q)) else h.mblks[x])
    && (forall d :: d in k.dblks <==> d in h.dblks)
    && (forall d :: d in h.dblks ==> k.dblks[d].base == h.dblks[d].base)
  }

  lemma AppendKeepsWf(h: Mem, c: seq<Ptr>, p: Ptr, q: Ptr)
    requires Wf(h) && c != [] && Chain(h, c[0], c) && p in h.mblks && q !in h.mblks
    ensures var k := Link(DupbSpec(h, p, q), c[|c| - 1], Some(q));
            Wf(k) && Appended(h, c, p, q, k)
  {
    DupbKeepsWf(h, p, q);
    LinkKeepsWf(DupbSpec(h, p, q), c[|c| - 1], Some(q));
  }

  lemma AppendKeepsChain(h: Mem, c: seq<Ptr>, p: Ptr, q: Ptr, k: Mem)
    requires Appended(h, c, p, q, k) && Chain(h, c[0], c)
    ensures Chain(k, c[0], c + [q])
    ensures IsHead(h, c[0]) ==> IsHead(k, c[0])
  {
    var e := c + [q];
    forall i | 0 <= i < |e| ensures k.mblks[e[i]].cont == Following(e, i) {
      if i < |c| - 1 { assert Following(e, i) == Following(c, i); }
    }
  }

  /** c2 is a new message whose blocks are duplicates of the first blocks of c;
      nothing else was allocated in between. */
  ghost predicate DupOf(h: Mem, c: seq<Ptr>, k: Mem, c2: seq<Ptr>) {
    && 1 <= |c2| <= |c| && Chain(k, c2[0], c2) && IsHead(k, c2[0]) && Extends(h, k)
    && DupBlocks(h, c, k, c2)
    && (forall d :: d in k.dblks <==> d in h.dblks)
  }

  ghost predicate DupBlocks(h: Mem, c: seq<Ptr>, k: Mem, c2: seq<Ptr>)
    requires |c2| <= |c|
  {
    && (forall p :: p in k.mblks <==> p in h.mblks || p in c2)
    && forall i :: 0 <= i < |c2| ==>
         c[i] in h.mblks && c2[i] !in h.mblks && k.mblks[c2[i]] == h.mblks[c[i]].(cont := Following(c2, i))
  }

  lemma DupOfFirst(h: Mem, c: seq<Ptr>, q: Ptr)
    requires Wf(h) && c != [] && c[0] in h.mblks && q !in h.mblks
    ensures Wf(DupbSpec(h, c[0], q)) && DupOf(h, c, DupbSpec(h, c[0], q), [q])
  {
    DupbKeepsWf(h, c[0], q);
  }

  lemma DupOfStep(h: Mem, c: seq<Ptr>, k: Mem, c2: seq<Ptr>, q: Ptr)
    requires Wf(k) && DupOf(h, c, k, c2) && |c2| < |c| && Chain(h, c[0], c) && q !in k.mblks
    ensures c[|c2|] in k.mblks && k.mblks[c[|c2|]].datap in k.dblks
    ensures var k2 := Link(DupbSpec(k, c[|c2|], q), c2[|c2| - 1], Some(q));
            Wf(k2) && DupOf(h, c, k2, c2 + [q])
  {
    var p := c[|c2|];
    assert Kept(h, k, p);
    AppendKeepsWf(k, c2, p, q);
    var k2 := Link(DupbSpec(k, p, q), c2[|c2| - 1], Some(q));
    AppendKeepsChain(k, c2, p, q, k2);
    DupBlocksStep(h, c, k, c2, q, k2);
  }

  lemma DupBlocksStep(h: Mem, c: seq<Ptr>, k: Mem, c2: seq<Ptr>, q: Ptr, k2: Mem)
    requires 1 <= |c2| < |c| && DupBlocks(h, c, k, c2) && Extends(h, k) && c[|c2|] in h.mblks && q !in k.mblks
    requires Appended(k, c2, c[|c2|], q, k2) && forall i, j :: 0 <= i < j < |c2| ==> c2[i] != c2[j]
    ensures DupBlocks(h, c, k2, c2 + [q]) && Extends(h, k2)
  {
    assert Kept(h, k, c[|c2|]);
    forall x | x in h.mblks ensures Kept(h, k2, x) { assert Kept(h, k, x); }
  }

  lemma DupFlat(h: Mem, c: seq<Ptr>, k: Mem, c2: seq<Ptr>)
    requires Wf(h) && Wf(k) && DupOf(h, c, k, c2) && |c2| == |c|
    ensures Flat(k, c2) == Flat(h, c)
  {
    forall i | 0 <= i < |c| ensures Bytes(h, c[i]) == Bytes(k, c2[i]) { assert Kept(h, k, c[i]); }
    FlatSame(h, c, k, c2, |c|);
  }

  lemma KeptBytes(h: Mem, k: Mem, p: Ptr)
    requires InBounds(h, p) && Kept(h, k, p)
    ensures InBounds(k, p) && |Bytes(h, p)| == k.mblks[p].wptr - k.mblks[p].rptr
    ensures Bytes(h, p) == k.dblks[k.mblks[p].datap].base[k.mblks[p].rptr..k.mblks[p].wptr]
  {
  }

  lemma KeptFlat(h: Mem, k: Mem, c: seq<Ptr>)
    requires forall i :: 0 <= i < |c| ==> Kept(h, k, c[i])
    ensures Flat(k, c) == Flat(h, c)
  {
    FlatSame(h, c, k, c, |c|);
  }

  lemma ChainSuffix(h: Mem, c: seq<Ptr>, i: nat)
    requires c != [] && Chain(h, c[0], c) && i < |c|
    ensures Chain(h, c[i], c[i..])
  {
    var e := c[i..];
    forall j | 0 <= j < |e| ensures e[j] == c[i + j] && Following(e, j) == Following(c, i + j) { }
  }

  /** Bytes written behind those of a block, with its write pointer moved on. */
  function Written(h: Mem, p: Ptr, data: seq<u8>): Mem
    requires p in h.mblks && h.mblks[p].datap in h.dblks
    requires 0 <= h.mblks[p].wptr <= h.mblks[p].wptr + |data| <= |h.dblks[h.mblks[p].datap].base|
  {
    var m := h.mblks[p];
    var base := h.dblks[m.datap].base;
    Mem(h.mblks[p := m.(wptr := m.wptr + |data|)],
        h.dblks[m.datap := h.dblks[m.datap].(base := base[..m.wptr] + data + base[m.wptr + |data|..])])
  }

  lemma SoleRef(h: Mem, p: Ptr)
    requires Wf(h) && p in h.mblks && h.dblks[h.mblks[p].datap].refCount == 1
    ensures forall q :: q in h.mblks && q != p ==> h.mblks[q].datap != h.mblks[p].datap
  {
    var d := h.mblks[p].datap;
    assert |Refs(h, d) - {p}| == 0;
    forall q | q in h.mblks && q != p ensures h.mblks[q].datap != d {
      assert q !in Refs(h, d) - {p};
    }
  }

  lemma WrittenKeepsWf(h: Mem, p: Ptr, data: seq<u8>)
    requires Wf(h) && p in h.mblks && h.dblks[h.mblks[p].datap].refCount == 1
    requires h.mblks[p].wptr + |data| <= |h.dblks[h.mblks[p].datap].base|
    ensures var k := Written(h, p, data);
            && Wf(k) && Bytes(k, p) == Bytes(h, p) + data
            && forall q :: q in h.mblks && q != p ==> Kept(h, k, q)
  {
    SoleRef(h, p);
    var k := Written(h, p, data);
    ReshapeKeepsCounts(h, k);
    assert forall q :: q in k.mblks ==> q in h.mblks && InBounds(h, q);
  }

  /** A new message d put behind the single block p, without its first off bytes. */
  function Joined(h: Mem, p: Ptr, d: Ptr, off: nat): Mem
    requires p in h.mblks && d in h.mblks && p != d
  {
    h.(mblks := h.mblks[p := h.mblks[p].(cont := Some(d))][d := h.mblks[d].(rptr := h.mblks[d].rptr + off)])
  }

  lemma JoinedKeepsWf(h: Mem, p: Ptr, d: Ptr, off: nat)
    requires Wf(h) && p in h.mblks && d in h.mblks && p != d
    requires h.mblks[p].cont == None && IsHead(h, d) && off <= |Bytes(h, d)|
    ensures var k := Joined(h, p, d, off);
            && Wf(k) && Bytes(k, p) == Bytes(h, p) && Bytes(k, d) == Drop(Bytes(h, d), off)
            && (forall x :: x in h.mblks && x != p && x != d ==> Kept(h, k, x))
  {
    var k := Joined(h, p, d, off);
    assert forall q :: q in k.mblks ==> q in h.mblks && InBounds(h, q);
    ReshapeKeepsCounts(h, k);
  }

  lemma JoinedChain(h: Mem, p: Ptr, c: seq<Ptr>, off: nat)
    requires p in h.mblks && p !in c && h.mblks[p].cont == None
    requires c != [] && Chain(h, c[0], c)
    ensures Chain(Joined(h, p, c[0], off), p, [p] + c)
    ensures IsHead(h, p) ==> IsHead(Joined(h, p, c[0], off), p)
  {
    var k, e := Joined(h, p, c[0], off), [p] + c;
    forall i | 0 <= i < |e| ensures e[i] in k.mblks && k.mblks[e[i]].cont == Following(e, i) {
      if i > 0 { assert e[i] == c[i - 1] && Following(e, i) == Following(c, i - 1); }
    }
  }

  lemma DropConcat(x: seq<u8>, y: seq<u8>, n: nat)
    requires n <= |x|
    ensures Drop(x + y, n) == Drop(x, n) + y
  {
  }

  lemma JoinedFlat(h: Mem, k: Mem, p: Ptr, c: seq<Ptr>, off: nat)
    requires c != [] && off <= |Bytes(h, c[0])|
    requires Bytes(k, p) == Bytes(h, p) && Bytes(k, c[0]) == Drop(Bytes(h, c[0]), off)
    requires forall i :: 1 <= i < |c| ==> Bytes(h, c[i]) == Bytes(k, c[i])
    ensures Flat(k, [p] + c) == Bytes(h, p) + Drop(Flat(h, c), off)
  {
    FlatHead(k, [p] + c);
    assert ([p] + c)[1..] == c;
    FlatHead(k, c);
    FlatHead(h, c);
    FlatSame(h, c[1..], k, c[1..], |c| - 1);
    DropConcat(Bytes(h, c[0]), Flat(h, c[1..]), off);
  }

  /** Duplicates leave a block by itself alone. */
  lemma DupHead(h: Mem, c: seq<Ptr>, k: Mem, c2: seq<Ptr>, p: Ptr)
    requires Wf(h) && Wf(k) && DupOf(h, c, k, c2) && |c2| == |c| && p in h.mblks && IsHead(h, p)
    ensures IsHead(k, p) && p !in c2 && |Bytes(k, c2[0])| == |Bytes(h, c[0])|
  {
    assert Kept(h, k, p) && Kept(h, k, c[0]);
    forall q | q in k.mblks ensures k.mblks[q].cont != Some(p) {
      if q in h.mblks { assert Kept(h, k, q); } else {
        var i :| 0 <= i < |c2| && c2[i] == q;
      }
    }
  }

  /** k has the duplicates d2 of message r; they are put behind block p. */
  lemma AppendedRest(h: Mem, r: seq<Ptr>, k: Mem, d2: seq<Ptr>, p: Ptr, off: nat)
    requires Wf(h) && Wf(k) && DupOf(h, r, k, d2) && |d2| == |r|
    requires p in h.mblks && h.mblks[p].cont == None && IsHead(k, p) && p !in d2 && off <= |Bytes(k, d2[0])|
    ensures p in k.mblks && d2[0] in k.mblks
    ensures var e := Joined(k, p, d2[0], off);
            && Wf(e) && Chain(e, p, [p] + d2) && IsHead(e, p) && Bytes(e, p) == Bytes(h, p)
            && Flat(e, [p] + d2) == Bytes(h, p) + Drop(Flat(k, d2), off)
            && forall x :: x in h.mblks && x != p ==> Kept(h, e, x)
  {
    assert Kept(h, k, p);
    var e := Joined(k, p, d2[0], off);
    JoinedKeepsWf(k, p, d2[0], off);
    JoinedChain(k, p, d2, off);
    forall i | 1 <= i < |d2| ensures Bytes(k, d2[i]) == Bytes(e, d2[i]) { assert Kept(k, e, d2[i]); }
    JoinedFlat(k, e, p, d2, off);
    forall x | x in h.mblks && x != p ensures Kept(h, e, x) { assert Kept(h, k, x) && Kept(k, e, x); }
  }

  lemma KeptChain(h: Mem, k: Mem, c: seq<Ptr>)
    requires c != [] && Chain(h, c[0], c) && Extends(h, k)
    ensures Chain(k, c[0], c)
  {
    forall i | 0 <= i < |c| ensures Kept(h, k, c[i]) { }
  }

  /** The first block ends within block i. */
  lemma PullRest(h: Mem, c: seq<Ptr>, i: nat, rlen: nat)
    requires i < |c| && rlen <= |Bytes(h, c[i])|
    ensures FlatTo(h, c, i) + Take(Bytes(h, c[i]), rlen) == Take(Flat(h, c), |FlatTo(h, c, i)| + rlen)
    ensures FlatTo(h, c, i) + Take(Bytes(h, c[i]), rlen) + Drop(Flat(h, c[i..]), rlen) == Flat(h, c)
  {
    var r := c[i..];
    var done, x, y := FlatTo(h, c, i), Bytes(h, c[i]), Flat(h, r[1..]);
    assert Flat(h, c) == done + Flat(h, r) by { FlatSplit(h, c, i, |c|); }
    assert Flat(h, r) == x + y by { FlatHead(h, r); }
    Cut(done, x, y, rlen);
  }

  lemma Cut(a: seq<u8>, x: seq<u8>, y: seq<u8>, n: nat)
    requires n <= |x|
    ensures a + Take(x, n) == Take(a + (x + y), |a| + n)
    ensures a + Take(x, n) + Drop(x + y, n) == a + (x + y)
  {
  }

  /** k is h with one new block of n bytes by itself, the first of them written. */
  ghost predicate Pulling(h: Mem, k: Mem, newm: Ptr, n: nat, written: seq<u8>) {
    && Extends(h, k) && newm !in h.mblks && IsHead(k, newm) && InBounds(k, newm)
    && (forall p :: p in k.mblks <==> p in h.mblks || p == newm)
    && k.mblks[newm].cont == None && k.mblks[newm].rptr == 0 && k.mblks[newm].wptr == |written|
    && k.dblks[k.mblks[newm].datap].refCount == 1 && |k.dblks[k.mblks[newm].datap].base| == n
    && Bytes(k, newm) == written
  }

  lemma PullStep(h: Mem, k: Mem, newm: Ptr, n: nat, written: seq<u8>, data: seq<u8>)
    requires Wf(k) && Pulling(h, k, newm, n, written) && |written| + |data| <= n
    ensures Pulling(h, Written(k, newm, data), newm, n, written + data)
  {
    var e := Written(k, newm, data);
    WrittenKeepsWf(k, newm, data);
    forall p | p in h.mblks ensures Kept(h, e, p) { assert Kept(h, k, p) && Kept(k, e, p); }
  }

  lemma PullStart(h: Mem, k: Mem, newm: Ptr, n: nat)
    requires Wf(h) && Wf(k) && newm !in h.mblks && newm !in h.dblks
    requires k.mblks == h.mblks[newm := Mblk(newm, 0, 0, None)]
    requires newm in k.dblks && |k.dblks[newm].base| == n && k.dblks == h.dblks[newm := Dblk(k.dblks[newm].base, 1)]
    ensures Pulling(h, k, newm, n, [])
  {
    forall p | p in h.mblks ensures Kept(h, k, p) { assert InBounds(h, p); }
  }

  /** Number of bytes msgpullup puts into the first block. */
  function PullLen(len: int, msgsize: nat): nat
    requires len >= -1
  {
    if len == -1 || len > msgsize then msgsize else len
  }

  /** c2 is a new message with the bytes of c, the first n of them in its first block;
      nothing that was there before has changed. */
  ghost predicate PulledUp(h: Mem, k: Mem, c: seq<Ptr>, c2: seq<Ptr>, n: nat) {
    && Extends(h, k) && c2 != [] && Chain(k, c2[0], c2) && IsHead(k, c2[0])
    && (forall i :: 0 <= i < |c2| ==> c2[i] !in h.mblks)
    && Flat(k, c2) == Flat(h, c) && Bytes(k, c2[0]) == Take(Flat(h, c), n)
  }

  /** So the first block has as many bytes as asked for if the message has more, and
      otherwise all; -1 asks for all. */
  lemma FirstBlockHolds(h: Mem, k: Mem, c: seq<Ptr>, c2: seq<Ptr>, len: int)
    requires len >= -1 && PulledUp(h, k, c, c2, PullLen(len, |Flat(h, c)|))
    ensures var all := Flat(h, c);
            && Flat(k, c2) == all && Bytes(k, c2[0]) == if 0 <= len < |all| then all[..len] else all
  {
    var all := Flat(h, c);
    assert all[..|all|] == all;
  }

  lemma PulledAll(h: Mem, k: Mem, c: seq<Ptr>, newm: Ptr, n: nat)
    requires Pulling(h, k, newm, n, Flat(h, c)) && n == |Flat(h, c)|
    ensures PulledUp(h, k, c, [newm], n)
  {
    FlatHead(k, [newm]);
  }

  /** Block m, which p continues with, taken out of the message. */
  function Unlinked(h: Mem, p: Ptr, m: Ptr): Mem
    requires p in h.mblks && m in h.mblks
  {
    h.(mblks := h.mblks[p := h.mblks[p].(cont := h.mblks[m].cont)][m := h.mblks[m].(cont := None)])
  }

  lemma UnlinkedKeepsWf(h: Mem, p: Ptr, m: Ptr)
    requires Wf(h) && p in h.mblks && m in h.mblks && p != m && h.mblks[p].cont == Some(m)
    ensures var k := Unlinked(h, p, m);
            Wf(k) && IsHead(k, m) && forall x :: x in h.mblks && x != p && x != m ==> Kept(h, k, x)
  {
    var k := Unlinked(h, p, m);
    assert forall q :: q in k.mblks ==> q in h.mblks && InBounds(h, q);
    ReshapeKeepsCounts(h, k);
  }

  /** k is h after some blocks behind the first of message c were consumed; r is left. */
  ghost predicate Consumed(h: Mem, k: Mem, c: seq<Ptr>, r: seq<Ptr>)
    requires c != []
  {
    && Chain(k, c[0], [c[0]] + r) && c[0] in h.mblks
    && (forall p :: p in k.mblks <==> p in h.mblks && (p !in c || p == c[0] || p in r))
    && (forall p :: p in r ==> p in c)
    && (forall p :: p in k.mblks && p != c[0] ==> Kept(h, k, p))
    && k.mblks[c[0]] == h.mblks[c[0]].(cont := k.mblks[c[0]].cont) && Bytes(k, c[0]) == Bytes(h, c[0])
  }

  /** e is k without block m, which followed p. */
  ghost predicate TakenOut(k: Mem, p: Ptr, m: Ptr, e: Mem) {
    && p in k.mblks && m in k.mblks && p != m && k.mblks[p].cont == Some(m)
    && (forall x :: x in e.mblks <==> x in k.mblks && x != m)
    && (forall x :: x in e.mblks && x != p ==> Kept(k, e, x))
    && e.mblks[p] == k.mblks[p].(cont := k.mblks[m].cont) && Bytes(e, p) == Bytes(k, p)
  }

  lemma TakeOut(k: Mem, p: Ptr, m: Ptr)
    requires Wf(k) && p in k.mblks && m in k.mblks && p != m && k.mblks[p].cont == Some(m)
    ensures Wf(FreebSpec(Unlinked(k, p, m), m)) && TakenOut(k, p, m, FreebSpec(Unlinked(k, p, m), m))
  {
    var u := Unlinked(k, p, m);
    UnlinkedKeepsWf(k, p, m);
    FreebKeepsWf(u, m);
    var e := FreebSpec(u, m);
    assert Kept(u, e, p) && InBounds(u, p) && InBounds(k, p);
    forall x | x in e.mblks && x != p ensures Kept(k, e, x) { assert Kept(k, u, x) && Kept(u, e, x); }
  }

  lemma TakeOutChain(k: Mem, r: seq<Ptr>, p: Ptr, e: Mem)
    requires r != [] && Chain(k, p, [p] + r) && TakenOut(k, p, r[0], e)
    ensures Chain(e, p, [p] + r[1..])
    ensures r[0] !in r[1..] && p !in r && forall x :: x in r <==> x == r[0] || x in r[1..]
  {
    var s, s1 := [p] + r, [p] + r[1..];
    assert s[0] == p && s[1] == r[0] && k.mblks[r[0]].cont == Following(s, 1);
    forall i | 0 <= i < |s1|
      ensures s1[i] in e.mblks && e.mblks[s1[i]].cont == Following(s1, i)
      ensures i > 0 ==> s1[i] == s[i + 1]
    {
      if i > 0 { assert s1[i] == s[i + 1] && Following(s1, i) == Following(s, i + 1); }
    }
    assert r == [r[0]] + r[1..];
    assert forall i :: 0 <= i < |r| ==> r[i] == s[i + 1];
  }

  lemma ConsumeStep(h: Mem, k: Mem, c: seq<Ptr>, r: seq<Ptr>, e: Mem)
    requires c != [] && r != [] && Consumed(h, k, c, r) && TakenOut(k, c[0], r[0], e)
    ensures Consumed(h, e, c, r[1..])
  {
    TakeOutChain(k, r, c[0], e);
    forall x | x in e.mblks && x != c[0] ensures Kept(h, e, x) { assert Kept(h, k, x) && Kept(k, e, x); }
  }

  /** The read pointer of a block moved on. */
  function Trimmed(h: Mem, p: Ptr, off: nat): Mem
    requires p in h.mblks
  {
    h.(mblks := h.mblks[p := h.mblks[p].(rptr := h.mblks[p].rptr + off)])
  }

  lemma TrimmedKeepsWf(h: Mem, p: Ptr, off: nat)
    requires Wf(h) && p in h.mblks && off <= |Bytes(h, p)|
    ensures var k := Trimmed(h, p, off);
            Wf(k) && Bytes(k, p) == Drop(Bytes(h, p), off) && forall x :: x in h.mblks && x != p ==> Kept(h, k, x)
  {
    var k := Trimmed(h, p, off);
    assert forall q :: q in k.mblks ==> q in h.mblks && InBounds(h, q);
    ReshapeKeepsCounts(h, k);
  }

  /** dupb, with the first hs bytes left to the original and the rest to the duplicate. */
  function SplitSpec(h: Mem, p: Ptr, q: Ptr, hs: nat): Mem
    requires p in h.mblks && h.mblks[p].datap in h.dblks && p != q
  {
    var k := DupbSpec(h, p, q);
    var m := h.mblks[p];
    k.(mblks := k.mblks[p := m.(wptr := m.rptr + hs, cont := Some(q))][q := k.mblks[q].(rptr := m.rptr + hs)])
  }

  lemma SplitBounds(h: Mem, p: Ptr, q: Ptr, hs: nat, x: Ptr)
    requires Wf(h) && p in h.mblks && q !in h.mblks && hs <= |Bytes(h, p)| && (x in h.mblks || x == q)
    ensures InBounds(SplitSpec(h, p, q, hs), x)
  {
    assert InBounds(h, p) && (x in h.mblks ==> InBounds(h, x));
  }

  lemma SplitLinks(h: Mem, p: Ptr, q: Ptr, hs: nat)
    requires Wf(h) && p in h.mblks && q !in h.mblks && h.mblks[p].cont == None
    ensures LinksOk(SplitSpec(h, p, q, hs))
  {
    assert forall x :: x in h.mblks ==> h.mblks[x].cont != Some(q);
  }

  lemma SplitKeepsWf(h: Mem, p: Ptr, q: Ptr, hs: nat)
    requires Wf(h) && p in h.mblks && q !in h.mblks && h.mblks[p].cont == None && hs <= |Bytes(h, p)|
    ensures var k := SplitSpec(h, p, q, hs);
            && Wf(k) && (forall x :: x in k.mblks <==> x in h.mblks || x == q)
            && forall x :: x in h.mblks && x != p ==> Kept(h, k, x)
  {
    var e, k := DupbSpec(h, p, q), SplitSpec(h, p, q, hs);
    DupbKeepsWf(h, p, q);
    SplitLinks(h, p, q, hs);
    assert InBounds(h, p);
    forall x | x in k.mblks ensures InBounds(k, x) { SplitBounds(h, p, q, hs, x); }
    ReshapeKeepsCounts(e, k);
    forall x | x in h.mblks && x != p ensures Kept(h, k, x) { assert Kept(h, e, x); }
  }

  lemma SplitChain(h: Mem, p: Ptr, q: Ptr, hs: nat)
    requires p in h.mblks && h.mblks[p].datap in h.dblks && p != q
    ensures Chain(SplitSpec(h, p, q, hs), p, [p, q])
  {
  }

  lemma SplitBytes(h: Mem, p: Ptr, q: Ptr, hs: nat)
    requires InBounds(h, p) && p != q && hs <= |Bytes(h, p)|
    ensures var k := SplitSpec(h, p, q, hs);
            Bytes(k, p) == Take(Bytes(h, p), hs) && Bytes(k, q) == Drop(Bytes(h, p), hs)
  {
    var m := h.mblks[p];
    var base := h.dblks[m.datap].base;
    assert base[m.rptr..m.wptr][..hs] == base[m.rptr..m.rptr + hs];
    assert base[m.rptr..m.wptr][hs..] == base[m.rptr + hs..m.wptr];
  }

  /** Two messages with no block in common, the second put behind the first. */
  lemma ConcatChain(h: Mem, c1: seq<Ptr>, c2: seq<Ptr>)
    requires c1 != [] && c2 != [] && Chain(h, c1[0], c1) && Chain(h, c2[0], c2)
    requires forall i :: 0 <= i < |c2| ==> c2[i] !in c1
    ensures Chain(Link(h, c1[|c1| - 1], Some(c2[0])), c1[0], c1 + c2)
  {
    var k, e, n := Link(h, c1[|c1| - 1], Some(c2[0])), c1 + c2, |c1|;
    forall i | 0 <= i < |e| ensures e[i] in k.mblks && k.mblks[e[i]].cont == Following(e, i) {
      if i < n - 1 {
        assert e[i] == c1[i] && c1[i] != c1[n - 1] && Following(e, i) == Following(c1, i);
      } else if i >= n {
        assert e[i] == c2[i - n] && Following(e, i) == Following(c2, i - n);
      }
    }
  }

  lemma ConcatFlat(h: Mem, k: Mem, c1: seq<Ptr>, c2: seq<Ptr>)
    requires forall i :: 0 <= i < |c1| ==> Bytes(k, c1[i]) == Bytes(h, c1[i])
    requires forall i :: 0 <= i < |c2| ==> Bytes(k, c2[i]) == Bytes(h, c2[i])
    ensures Flat(k, c1 + c2) == Flat(h, c1) + Flat(h, c2)
  {
    FlatSplit(k, c1 + c2, |c1|, |c1 + c2|);
    assert (c1 + c2)[|c1|..] == c2;
    FlatSame(k, c1 + c2, h, c1, |c1|);
    FlatSame(k, c2, h, c2, |c2|);
  }

  /** What the rest of a message contains while blocks are taken out of it. */
  lemma ConsumedRest(h: Mem, k: Mem, c: seq<Ptr>, r: seq<Ptr>)
    requires Wf(k) && c != [] && Consumed(h, k, c, r)
    ensures Flat(k, r) == Flat(h, r)
    ensures r != [] ==> InBounds(k, r[0]) && Bytes(k, r[0]) == Bytes(h, r[0])
    ensures r != [] ==> r[0] != c[0] && k.mblks[c[0]].cont == Some(r[0]) && k.mblks[r[0]].cont == Following(r, 0)
    ensures r == [] ==> k.mblks[c[0]].cont == None
  {
    var s := [c[0]] + r;
    assert s[0] == c[0] && k.mblks[s[0]].cont == Following(s, 0);
    forall i | 0 <= i < |r| ensures r[i] == s[i + 1] && InBounds(k, r[i]) && Bytes(h, r[i]) == Bytes(k, r[i]) {
      assert r[i] in r && s[i + 1] in k.mblks && s[0] != s[i + 1] && Kept(h, k, r[i]);
    }
    if r != [] { assert k.mblks[s[1]].cont == Following(s, 1); }
    FlatSame(k, r, h, r, |r|);
  }

  /** The message of header p and payload blocks b after n payload bytes were read;
      b2 are the blocks left. */
  ghost predicate AfterRead(h: Mem, k: Mem, p: Ptr, b: seq<Ptr>, b2: seq<Ptr>, n: nat) {
    && Chain(k, p, [p] + b2) && Bytes(k, p) == Bytes(h, p)
    && Flat(k, b2) == Drop(Flat(h, b), n)
    && (forall x :: x in k.mblks <==> x in h.mblks && (x !in b || x in b2))
    && (forall x :: x in k.mblks && x != p && x !in b ==> Kept(h, k, x))
  }

  lemma DropMore(a: seq<u8>, b: seq<u8>)
    ensures Drop(a + b, |a|) == b && Take(a + b, |a|) == a
  {
  }

  lemma TrimmedChain(h: Mem, p: Ptr, off: nat, head: Ptr, c: seq<Ptr>)
    requires p in h.mblks && Chain(h, head, c)
    ensures Chain(Trimmed(h, p, off), head, c)
  {
  }

  lemma TrimmedRest(h: Mem, k: Mem, r: seq<Ptr>, off: nat)
    requires r != [] && off <= |Bytes(h, r[0])| && Bytes(k, r[0]) == Drop(Bytes(h, r[0]), off)
    requires forall i :: 1 <= i < |r| ==> r[i] in h.mblks && Kept(h, k, r[i])
    ensures Flat(k, r) == Drop(Flat(h, r), off)
  {
    FlatHead(h, r);
    FlatHead(k, r);
    FlatSame(h, r[1..], k, r[1..], |r| - 1);
    DropConcat(Bytes(h, r[0]), Flat(h, r[1..]), off);
  }

  /** The payload up to a position within the first block left, and the rest. */
  lemma PayloadCut(done: seq<u8>, x: seq<u8>, y: seq<u8>, off: nat)
    requires off <= |x|
    ensures Take(done + (x + y), |done| + off) == done + Take(x, off)
    ensures Drop(done + (x + y), |done| + off) == Drop(x + y, off)
  {
  }

  /** The read ended within the first block left. */
  lemma ReadWithin(h: Mem, k: Mem, p: Ptr, b: seq<Ptr>, r: seq<Ptr>, done: seq<u8>, off: nat)
    requires p !in b && Wf(k) && r != [] && Consumed(h, k, [p] + b, r) && Flat(h, b) == done + Flat(h, r)
    requires off <= |Bytes(h, r[0])|
    ensures r[0] in k.mblks && Wf(Trimmed(k, r[0], off))
    ensures AfterRead(h, Trimmed(k, r[0], off), p, b, r, |done| + off)
    ensures done + Take(Bytes(h, r[0]), off) == Take(Flat(h, b), |done| + off)
  {
    ConsumedRest(h, k, [p] + b, r);
    FlatHead(h, r);
    PayloadCut(done, Bytes(h, r[0]), Flat(h, r[1..]), off);
    TrimmedFlat(k, p, r, off);
    TrimmedOthers(h, k, Trimmed(k, r[0], off), p, b, r, off);
  }

  lemma TrimmedFlat(k: Mem, p: Ptr, r: seq<Ptr>, off: nat)
    requires Wf(k) && r != [] && Chain(k, p, [p] + r) && r[0] in k.mblks && off <= |Bytes(k, r[0])|
    ensures Wf(Trimmed(k, r[0], off)) && Chain(Trimmed(k, r[0], off), p, [p] + r)
    ensures Flat(Trimmed(k, r[0], off), r) == Drop(Flat(k, r), off)
  {
    var s, e := [p] + r, Trimmed(k, r[0], off);
    TrimmedKeepsWf(k, r[0], off);
    TrimmedChain(k, r[0], off, p, s);
    forall i | 1 <= i < |r| ensures r[i] in k.mblks && Kept(k, e, r[i]) {
      assert s[i + 1] == r[i] && s[1] == r[0];
    }
    TrimmedRest(k, e, r, off);
  }

  lemma TrimmedOthers(h: Mem, k: Mem, e: Mem, p: Ptr, b: seq<Ptr>, r: seq<Ptr>, off: nat)
    requires p !in b && Wf(k) && r != [] && Consumed(h, k, [p] + b, r) && r[0] in k.mblks && r[0] != p
    requires off <= |Bytes(k, r[0])| && e == Trimmed(k, r[0], off)
    ensures Bytes(e, p) == Bytes(h, p)
    ensures forall x :: x in e.mblks <==> x in h.mblks && (x !in b || x in r)
    ensures forall x :: x in e.mblks && x != p && x !in b ==> Kept(h, e, x)
  {
    var c := [p] + b;
    ConsumedMembers(h, k, p, b, r);
    TrimmedKeepsWf(k, r[0], off);
    assert Kept(k, e, p) && InBounds(k, p);
    forall x | x in e.mblks && x != p && x !in b ensures Kept(h, e, x) {
      assert x != r[0] && Kept(h, k, x) && Kept(k, e, x);
    }
  }

  lemma ConsumedMembers(h: Mem, k: Mem, p: Ptr, b: seq<Ptr>, r: seq<Ptr>)
    requires Consumed(h, k, [p] + b, r) && p !in b
    ensures forall x :: x in k.mblks <==> x in h.mblks && (x !in b || x in r)
    ensures forall x :: x in r ==> x in b && x != p
  {
    var c, s := [p] + b, [p] + r;
    assert forall x :: x in c <==> x == p || x in b;
    forall i | 0 <= i < |r| ensures r[i] != p { assert s[i + 1] == r[i] && s[0] == p; }
  }

  lemma ConsumedNone(h: Mem, p: Ptr, b: seq<Ptr>)
    requires Chain(h, p, [p] + b) && Wf(h)
    ensures Consumed(h, h, [p] + b, b) && p !in b
    ensures h.mblks[p].cont == if b == [] then None else Some(b[0])
  {
    var c := [p] + b;
    assert c[0] == p && h.mblks[p].cont == Following(c, 0);
    assert forall i :: 0 <= i < |b| ==> b[i] == c[i + 1];
    forall x | x in h.mblks ensures Kept(h, h, x) { assert InBounds(h, x); }
  }

  /** The read ended with the payload. */
  lemma ReadAll(h: Mem, k: Mem, p: Ptr, b: seq<Ptr>)
    requires p !in b && Wf(k) && Consumed(h, k, [p] + b, [])
    ensures AfterRead(h, k, p, b, [], |Flat(h, b)|)
  {
    ConsumedMembers(h, k, p, b, []);
    DropMore(Flat(h, b), []);
    assert Flat(h, b) + [] == Flat(h, b);
  }

  lemma LinkBytes(h: Mem, p: Ptr, cont: Option<Ptr>)
    requires p in h.mblks
    ensures forall x :: Bytes(Link(h, p, cont), x) == Bytes(h, x)
  {
  }

  /** Block p belongs to one of the first n messages. */
  ghost predicate InMessage(cs: seq<seq<Ptr>>, n: nat, p: Ptr)
    requires n <= |cs|
  {
    n > 0 && (p in cs[n - 1] || InMessage(cs, n - 1, p))
  }

  /** A message whose blocks were not freed. */
  lemma SurvivingChain(h: Mem, k: Mem, p: Ptr, c: seq<Ptr>)
    requires Chain(h, p, c) && IsHead(h, p)
    requires forall i :: 0 <= i < |c| ==> c[i] in k.mblks
    requires forall x :: x in k.mblks ==> Kept(h, k, x)
    ensures Chain(k, p, c) && IsHead(k, p)
  {
    forall x | x in k.mblks ensures k.mblks[x].cont != Some(p) { assert Kept(h, k, x); }
    forall i | 0 <= i < |c| ensures k.mblks[c[i]].cont == Following(c, i) { assert Kept(h, k, c[i]); }
  }

  // ----- reading a payload piece by piece -----

  /** What successive calls of msg_to_buf with these buffer sizes return. */
  function Pieces(payload: seq<u8>, sizes: seq<nat>): seq<u8>
    decreases |sizes|
  {
    if sizes == [] then [] else Take(payload, sizes[0]) + Pieces(Drop(payload, sizes[0]), sizes[1..])
  }

  function Sum(sizes: seq<nat>): nat { if sizes == [] then 0 else sizes[0] + Sum(sizes[1..]) }

  /** One call more: a piece is taken off what was left. */
  lemma OnePiece(left: seq<u8>, sizes: seq<nat>, i: nat)
    requires i < |sizes|
    ensures Pieces(left, sizes[i..]) == Take(left, sizes[i]) + Pieces(Drop(left, sizes[i]), sizes[i + 1..])
    ensures Drop(left, Sum(sizes[i..])) == Drop(Drop(left, sizes[i]), Sum(sizes[i + 1..]))
    ensures Drop(left, |Take(left, sizes[i])|) == Drop(left, sizes[i])
  {
    assert sizes[i..][1..] == sizes[i + 1..];
    FirstPiece(left, sizes[i..], sizes[i], sizes[i + 1..]);
    DropTwice(left, sizes[i], Sum(sizes[i + 1..]));
    DropTaken(left, sizes[i]);
  }

  lemma FirstPiece(left: seq<u8>, sizes: seq<nat>, n: nat, rest: seq<nat>)
    requires sizes != [] && sizes[0] == n && sizes[1..] == rest
    ensures Pieces(left, sizes) == Take(left, n) + Pieces(Drop(left, n), rest) && Sum(sizes) == n + Sum(rest)
  {
  }

  lemma DropTwice(a: seq<u8>, n: nat, m: nat)
    ensures Drop(a, n + m) == Drop(Drop(a, n), m)
  {
  }

  lemma DropTaken(a: seq<u8>, n: nat)
    ensures Drop(a, |Take(a, n)|) == Drop(a, n)
  {
  }

  lemma TakeMore(a: seq<u8>, n: nat, m: nat)
    ensures Take(a, n) + Take(Drop(a, n), m) == Take(a, n + m)
  {
  }

  /** The pieces are the payload cut off after the sum of the sizes: all of it once
      the sizes add up to its length. */
  lemma {:induction false} PiecesAreThePayload(payload: seq<u8>, sizes: seq<nat>)
    ensures Pieces(payload, sizes) == Take(payload, Sum(sizes))
    ensures Sum(sizes) >= |payload| ==> Pieces(payload, sizes) == payload
    decreases |sizes|
  {
    if sizes != [] {
      var rest := Drop(payload, sizes[0]);
      PiecesAreThePayload(rest, sizes[1..]);
      TakeMore(payload, sizes[0], Sum(sizes[1..]));
    }
  }
}
