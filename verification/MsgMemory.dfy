/** The operations of str_utils.c and msg_to_buf on message blocks in memory. */
module MsgMemory {
  import opened Modular
  import opened Wrappers
  import opened MsgBlocks

  class Memory {
    var heap: Mem

    ghost predicate Valid()
      reads this
    {
      Wf(heap)
    }

    constructor ()
      ensures Valid() && heap == Mem(map[], map[])
    {
      heap := Mem(map[], map[]);
    }

    /** Some address that is not allocated; it may have been before. */
    method Malloc() returns (p: Ptr)
      ensures p !in heap.mblks && p !in heap.dblks
    {
      p := 0;
      ghost var left := heap.mblks.Keys + heap.dblks.Keys;
      while p in heap.mblks || p in heap.dblks
        invariant forall q :: (q in heap.mblks || q in heap.dblks) && q >= p ==> q in left
        decreases left
      {
        left := left - {p};
        p := p + 1;
      }
    }

    /** What a buffer holds before anything is written is left open. */
    method Allocb(size: nat) returns (mp: Ptr)
      requires Valid()
      modifies this
      ensures Valid() && mp !in old(heap).mblks
      ensures heap.mblks == old(heap).mblks[mp := Mblk(mp, 0, 0, None)]
      ensures mp !in old(heap).dblks && mp in heap.dblks && |heap.dblks[mp].base| == size
      ensures heap.dblks == old(heap).dblks[mp := Dblk(heap.dblks[mp].base, 1)]
    {
      mp := Malloc();
      AddRef(heap, mp, Mblk(mp, 0, 0, None));
      assert forall p :: p in heap.mblks ==> InBounds(heap, p) && heap.mblks[p].datap != mp;
      forall p ensures p !in Refs(heap, mp) { }
      ghost var h := heap;
      heap := Mem(heap.mblks[mp := Mblk(mp, 0, 0, None)], heap.dblks[mp := Dblk(seq(size, _ => 0), 1)]);
      assert forall d :: Refs(heap, d) == Refs(h.(mblks := heap.mblks), d);
    }

    method Freeb(mp: Ptr)
      requires Valid() && mp in heap.mblks && IsHead(heap, mp)
      modifies this
      ensures Valid() && heap == FreebSpec(old(heap), mp)
    {
      FreebKeepsWf(heap, mp);
      var d := heap.mblks[mp].datap;
      var n := heap.dblks[d].refCount - 1;
      if n == 0 {
        heap := Mem(heap.mblks - {mp}, heap.dblks - {d});
      } else {
        heap := Mem(heap.mblks - {mp}, heap.dblks[d := heap.dblks[d].(refCount := n)]);
      }
    }

    method Dupb(mp: Ptr) returns (newm: Ptr)
      requires Valid() && mp in heap.mblks
      modifies this
      ensures Valid() && newm !in old(heap).mblks && heap == DupbSpec(old(heap), mp, newm)
    {
      newm := Malloc();
      DupbKeepsWf(heap, mp, newm);
      var m := heap.mblks[mp];
      var datab := heap.dblks[m.datap];
      heap := Mem(heap.mblks[newm := Mblk(m.datap, m.rptr, m.wptr, None)],
                  heap.dblks[m.datap := Dblk(datab.base, datab.refCount + 1)]);
    }

    /** All blocks of the message are gone, and exactly the buffers to which some
        remaining block points are still there, unchanged. */
    method Freemsg(mp: Ptr, ghost c: seq<Ptr>)
      requires Valid() && Chain(heap, mp, c) && IsHead(heap, mp)
      modifies this
      ensures Valid()
      ensures forall p :: p in heap.mblks <==> p in old(heap).mblks && p !in c
      ensures forall p :: p in heap.mblks ==> Kept(old(heap), heap, p)
      ensures forall d :: d in heap.dblks <==>
                d in old(heap).dblks && exists p :: p in heap.mblks && heap.mblks[p].datap == d
    {
      var tmp1 := Some(mp);
      ghost var rest := c;
      while tmp1.Some?
        invariant Valid() && tmp1 == if rest == [] then None else Some(rest[0])
        invariant rest != [] ==> Chain(heap, rest[0], rest) && IsHead(heap, rest[0])
        invariant forall p :: p in heap.mblks <==> p in old(heap).mblks && (p !in c || p in rest)
        invariant forall p :: p in rest ==> p in c
        invariant forall p :: p in heap.mblks ==> Kept(old(heap), heap, p)
        invariant forall d :: d in heap.dblks ==> d in old(heap).dblks
        decreases |rest|
      {
        ghost var h := heap;
        FreebKeepsWf(h, rest[0]);
        var tmp2 := heap.mblks[tmp1.value].cont;
        Freeb(tmp1.value);
        ChainTail(h, heap, rest);
        assert forall p :: p in heap.mblks ==> Kept(h, heap, p);
        tmp1 := tmp2;
        rest := rest[1..];
      }
      AllReferenced(old(heap), heap);
    }
  
    /** Duplicates the next block of a message and links the duplicate in. */
    method DupNext(ghost h: Mem, ghost c: seq<Ptr>, ghost c2: seq<Ptr>, m: Ptr, prev: Ptr) returns (mp: Ptr)
      requires Valid() && DupOf(h, c, heap, c2) && |c2| < |c| && Chain(h, c[0], c)
      requires m == c[|c2|] && prev == c2[|c2| - 1]
      modifies this
      ensures Valid() && DupOf(h, c, heap, c2 + [mp])
      ensures m in heap.mblks && heap.mblks[m].cont == Following(c, |c2|)
    {
      ghost var k := heap;
      assert Kept(h, k, m);
      mp := Dupb(m);
      DupOfStep(h, c, k, c2, mp);
      heap := Link(heap, prev, Some(mp));
      assert Kept(h, heap, m) && h.mblks[m].cont == Following(c, |c2|);
    }

    /** dupmsg: new blocks on the same data, which is only counted once more. */
    method Dupmsg(m: Ptr, ghost c: seq<Ptr>) returns (newm: Ptr, ghost c2: seq<Ptr>)
      requires Valid() && Chain(heap, m, c)
      modifies this
      ensures Valid() && DupOf(old(heap), c, heap, c2) && |c2| == |c| && newm == c2[0]
    {
      newm := Dupb(m);
      DupOfFirst(old(heap), c, newm);
      c2 := [newm];
      var prev := newm;
      assert Kept(old(heap), heap, m) && old(heap).mblks[m].cont == Following(c, 0);
      var cur := heap.mblks[m].cont;
      ghost var i := 0;
      while cur.Some?
        invariant Valid() && DupOf(old(heap), c, heap, c2) && newm == c2[0]
        invariant |c2| == i + 1 && prev == c2[i] && cur == Following(c, i)
        decreases |c| - i
      {
        var mp := DupNext(old(heap), c, c2, cur.value, prev);
        cur := heap.mblks[cur.value].cont;
        prev := mp;
        c2 := c2 + [mp];
        i := i + 1;
      }
    }

    method Msgdsize(m: Ptr, ghost c: seq<Ptr>) returns (msgsize: int)
      requires Valid() && Chain(heap, m, c)
      ensures msgsize == |Flat(heap, c)|
    {
      msgsize := 0;
      var mp := Some(m);
      ghost var i := 0;
      while mp.Some?
        invariant 0 <= i <= |c| && mp == if i < |c| then Some(c[i]) else None
        invariant msgsize == |FlatTo(heap, c, i)|
        decreases |c| - i
      {
        assert heap.mblks[c[i]].cont == Following(c, i) && InBounds(heap, c[i]);
        msgsize := msgsize + (heap.mblks[mp.value].wptr - heap.mblks[mp.value].rptr);
        mp := heap.mblks[mp.value].cont;
        i := i + 1;
      }
    }

    /** memcpy to the write pointer, which moves on. */
    method Write(mp: Ptr, data: seq<u8>)
      requires Valid() && mp in heap.mblks && heap.dblks[heap.mblks[mp].datap].refCount == 1
      requires heap.mblks[mp].wptr + |data| <= |heap.dblks[heap.mblks[mp].datap].base|
      modifies this
      ensures Valid() && heap == Written(old(heap), mp, data)
    {
      WrittenKeepsWf(heap, mp, data);
      heap := Written(heap, mp, data);
    }
  
    /** Puts duplicates of message r, without the first off bytes, behind newm. */
    method AppendRest(newm: Ptr, m: Ptr, off: nat, ghost r: seq<Ptr>) returns (ghost c2: seq<Ptr>)
      requires Valid() && Chain(heap, m, r) && off <= |Bytes(heap, m)|
      requires newm in heap.mblks && newm !in r && heap.mblks[newm].cont == None && IsHead(heap, newm)
      modifies this
      ensures Valid() && Chain(heap, newm, c2) && IsHead(heap, newm)
      ensures Bytes(heap, newm) == Bytes(old(heap), newm)
      ensures Flat(heap, c2) == Bytes(old(heap), newm) + Drop(Flat(old(heap), r), off)
      ensures forall p :: p in old(heap).mblks && p != newm ==> Kept(old(heap), heap, p)
      ensures forall i :: 1 <= i < |c2| ==> c2[i] !in old(heap).mblks
    {
      ghost var h := heap;
      var dup; ghost var d2;
      dup, d2 := Dupmsg(m, r);
      ghost var k := heap;
      DupHead(h, r, k, d2, newm);
      DupFlat(h, r, k, d2);
      AppendedRest(h, r, k, d2, newm, off);
      heap := Joined(heap, newm, dup, off);
      assert forall p :: p in heap.mblks ==> p in k.mblks;
      c2 := [newm] + d2;
    }

    /** Block i of the message goes into the first block as a whole. */
    method PullBlock(newm: Ptr, mp: Ptr, ghost h: Mem, ghost c: seq<Ptr>, ghost i: nat, ghost n: nat)
      requires Valid() && Wf(h) && i < |c| && mp == c[i] && mp in h.mblks
      requires Pulling(h, heap, newm, n, FlatTo(h, c, i)) && |FlatTo(h, c, i)| + |Bytes(h, c[i])| <= n
      modifies this
      ensures Valid() && Pulling(h, heap, newm, n, FlatTo(h, c, i + 1))
    {
      KeptBytes(h, heap, mp);
      var blk := heap.mblks[mp];
      var data := heap.dblks[blk.datap].base[blk.rptr..blk.wptr];
      PullStep(h, heap, newm, n, FlatTo(h, c, i), data);
      Write(newm, data);
    }

    /** The first block ends within block i of the message. */
    method PullTail(newm: Ptr, mp: Ptr, rlen: nat, ghost h: Mem, ghost c: seq<Ptr>, ghost i: nat, ghost n: nat)
        returns (ghost c2: seq<Ptr>)
      requires Valid() && Wf(h) && c != [] && Chain(h, c[0], c) && i < |c| && mp == c[i]
      requires Pulling(h, heap, newm, n, FlatTo(h, c, i))
      requires rlen == n - |FlatTo(h, c, i)| && rlen < |Bytes(h, c[i])|
      modifies this
      ensures Valid() && PulledUp(h, heap, c, c2, n) && newm == c2[0]
    {
      KeptBytes(h, heap, c[i]);
      var blk := heap.mblks[mp];
      var data := Take(heap.dblks[blk.datap].base[blk.rptr..blk.wptr], rlen);
      PullStep(h, heap, newm, n, FlatTo(h, c, i), data);
      PullRest(h, c, i, rlen);
      Write(newm, data);
      ChainSuffix(h, c, i);
      KeptChain(h, heap, c[i..]);
      KeptFlat(h, heap, c[i..]);
      ghost var k := heap;
      assert Kept(h, heap, c[i]);
      c2 := AppendRest(newm, mp, rlen, c[i..]);
      assert forall p :: p in h.mblks ==> Kept(h, k, p) && Kept(k, heap, p);
      forall j | 0 <= j < |c2| ensures c2[j] !in h.mblks {
        if j > 0 { assert c2[j] !in k.mblks; }
      }
    }

    /** The message again, its first bytes in one new block and the rest shared with
        the original, which stays as it is. */
    method Msgpullup(m: Ptr, len: int, ghost c: seq<Ptr>) returns (newm: Ptr, ghost c2: seq<Ptr>)
      requires Valid() && Chain(heap, m, c) && len >= -1
      modifies this
      ensures Valid() && PulledUp(old(heap), heap, c, c2, PullLen(len, |Flat(old(heap), c)|)) && newm == c2[0]
    {
      ghost var h := heap;
      var msgsize := Msgdsize(m, c);
      var n := PullLen(len, msgsize);
      var rlen := n;
      newm := Allocb(n);
      PullStart(h, heap, newm, n);
      var mp := Some(m);
      ghost var i := 0;
      while mp.Some?
        invariant 0 <= i <= |c| && mp == if i < |c| then Some(c[i]) else None
        invariant Valid() && Pulling(h, heap, newm, n, FlatTo(h, c, i))
        invariant rlen == n - |FlatTo(h, c, i)| >= 0
        decreases |c| - i
      {
        assert InBounds(h, c[i]) && h.mblks[c[i]].cont == Following(c, i);
        KeptBytes(h, heap, c[i]);
        var blk := heap.mblks[mp.value];
        var mlen := blk.wptr - blk.rptr;
        if rlen >= mlen {
          PullBlock(newm, mp.value, h, c, i, n);
          rlen := rlen - mlen;
        } else {
          c2 := PullTail(newm, mp.value, rlen, h, c, i, n);
          return;
        }
        mp := blk.cont;
        i := i + 1;
      }
      c2 := [newm];
      PulledAll(h, heap, c, newm, n);
    }

    /** What split_and_queue does to a packet: header and data in two blocks. */
    method Split(mp: Ptr, headerSize: nat) returns (mdata: Ptr)
      requires Valid() && mp in heap.mblks && heap.mblks[mp].cont == None && headerSize <= |Bytes(heap, mp)|
      modifies this
      ensures Valid() && mdata !in old(heap).mblks && Chain(heap, mp, [mp, mdata])
      ensures Bytes(heap, mp) == Take(Bytes(old(heap), mp), headerSize)
      ensures Bytes(heap, mdata) == Drop(Bytes(old(heap), mp), headerSize)
      ensures mdata in heap.mblks && heap.mblks[mdata].datap == heap.mblks[mp].datap
      ensures forall p :: p in heap.mblks <==> p in old(heap).mblks || p == mdata
      ensures forall p :: p in old(heap).mblks && p != mp ==> Kept(old(heap), heap, p)
    {
      ghost var h := heap;
      mdata := Dupb(mp);
      SplitKeepsWf(h, mp, mdata, headerSize);
      SplitBytes(h, mp, mdata, headerSize);
      SplitChain(h, mp, mdata, headerSize);
      var m := heap.mblks[mp];
      heap := heap.(mblks := heap.mblks[mp := m.(wptr := m.rptr + headerSize, cont := Some(mdata))]
                                       [mdata := heap.mblks[mdata].(rptr := m.rptr + headerSize)]);
      assert heap == SplitSpec(h, mp, mdata, headerSize);
    }

    /** memcpy out of a block, behind what was copied before. */
    method CopyOut(buffer: array<u8>, at: nat, data: seq<u8>, ghost done: seq<u8>)
      requires at + |data| <= buffer.Length && buffer[..at] == done
      modifies buffer
      ensures buffer[..at + |data|] == done + data
      ensures forall k :: at + |data| <= k < buffer.Length ==> buffer[k] == old(buffer[k])
    {
      var i := 0;
      while i < |data|
        invariant 0 <= i <= |data|
        invariant buffer[..at + i] == done + data[..i]
        invariant forall k :: at + i <= k < buffer.Length ==> buffer[k] == old(buffer[k])
      {
        buffer[at + i] := data[i];
        i := i + 1;
      }
    }

    /** Takes the block read to its end out of the message and frees it. */
    method Consume(mprev: Ptr, m: Ptr, ghost h: Mem, ghost c: seq<Ptr>, ghost r: seq<Ptr>)
      requires Valid() && c != [] && r != [] && Consumed(h, heap, c, r) && mprev == c[0] && m == r[0]
      modifies this
      ensures Valid() && Consumed(h, heap, c, r[1..])
    {
      ghost var k := heap;
      ConsumedRest(h, k, c, r);
      TakeOut(k, mprev, m);
      UnlinkedKeepsWf(k, mprev, m);
      heap := Unlinked(heap, mprev, m);
      Freeb(m);
      ConsumeStep(h, k, c, r, heap);
    }

    /** Fills the buffer from the first block left, which it does not use up. */
    method ReadPart(mp: Ptr, m: Ptr, buffer: array<u8>, at: nat, len: nat, bytes: seq<u8>,
                    ghost h: Mem, ghost b: seq<Ptr>, ghost r: seq<Ptr>, ghost done: seq<u8>)
      requires Valid() && mp !in b && r != [] && m == r[0] && Consumed(h, heap, [mp] + b, r)
      requires Flat(h, b) == done + Flat(h, r) && bytes == Bytes(h, m) && at <= len <= at + |bytes|
      requires len <= buffer.Length && |done| == at && buffer[..at] == done
      modifies this, buffer
      ensures Valid() && AfterRead(h, heap, mp, b, r, len)
      ensures buffer[..len] == Take(Flat(h, b), len)
      ensures forall k :: len <= k < buffer.Length ==> buffer[k] == old(buffer[k])
    {
      var rlen := len - at;
      ReadWithin(h, heap, mp, b, r, done, rlen);
      heap := Trimmed(heap, m, rlen);
      var data := Take(bytes, rlen);
      assert at + |data| == len && done + data == Take(Flat(h, b), len);
      CopyOut(buffer, at, data, done);
    }

    /** Reads the first block left to its end and frees it. */
    method ReadBlock(mp: Ptr, m: Ptr, buffer: array<u8>, at: nat, bytes: seq<u8>,
                     ghost h: Mem, ghost b: seq<Ptr>, ghost r: seq<Ptr>, ghost done: seq<u8>) returns (end: nat)
      requires Valid() && r != [] && m == r[0] && Consumed(h, heap, [mp] + b, r)
      requires Flat(h, b) == done + Flat(h, r) && bytes == Bytes(h, m)
      requires at + |bytes| <= buffer.Length && buffer[..at] == done
      modifies this, buffer
      ensures Valid() && Consumed(h, heap, [mp] + b, r[1..]) && Flat(h, b) == done + bytes + Flat(h, r[1..])
      ensures end == at + |bytes| && buffer[..end] == done + bytes
      ensures forall k :: end <= k < buffer.Length ==> buffer[k] == old(buffer[k])
    {
      FlatHead(h, r);
      Assoc(done, bytes, Flat(h, r[1..]));
      CopyOut(buffer, at, bytes, done);
      Consume(mp, m, h, [mp] + b, r);
      end := at + |bytes|;
    }

    /** msg_to_buf: the payload, in the blocks behind the first, is read into the
        buffer; blocks read to their end are freed. */
    method MsgToBuf(mp: Ptr, buffer: array<u8>, len: nat, ghost b: seq<Ptr>) returns (n: nat, ghost b2: seq<Ptr>)
      requires Valid() && Chain(heap, mp, [mp] + b) && len <= buffer.Length
      modifies this, buffer
      ensures Valid() && AfterRead(old(heap), heap, mp, b, b2, n)
      ensures n <= len && buffer[..n] == Take(Flat(old(heap), b), len)
      ensures forall k :: n <= k < buffer.Length ==> buffer[k] == old(buffer[k])
    {
      ghost var h, r, done := heap, b, [];
      var at, rlen := 0, len;
      var m := heap.mblks[mp].cont;
      ConsumedNone(h, mp, b);
      while m.Some?
        invariant m == if r == [] then None else Some(r[0])
        invariant Valid() && Consumed(h, heap, [mp] + b, r) && Flat(h, b) == done + Flat(h, r)
        invariant 0 <= at == len - rlen <= len && |done| == at && buffer[..at] == done
        invariant forall k :: at <= k < buffer.Length ==> buffer[k] == old(buffer[k])
        decreases |r|
      {
        ConsumedRest(h, heap, [mp] + b, r);
        var blk := heap.mblks[m.value];
        var bytes := heap.dblks[blk.datap].base[blk.rptr..blk.wptr];
        var mlen := |bytes|;
        if mlen <= rlen {
          at := ReadBlock(mp, m.value, buffer, at, bytes, h, b, r, done);
          m, rlen := blk.cont, rlen - mlen;
          r, done := r[1..], done + bytes;
        } else {
          ReadPart(mp, m.value, buffer, at, len, bytes, h, b, r, done);
          return len, r;
        }
      }
      ReadAll(h, heap, mp, b);
      assert done + [] == done && Flat(h, r) == [] && Flat(h, b) == done;
      assert buffer[..at] == Take(done, len);
      return at, [];
    }

    /** A reader that calls msg_to_buf again and again, with buffers of any sizes: what
        it gets is the payload up to the sum of the sizes. */
    method ReadPieces(mp: Ptr, sizes: seq<nat>, ghost b: seq<Ptr>) returns (pieces: seq<u8>, ghost b2: seq<Ptr>)
      requires Valid() && Chain(heap, mp, [mp] + b)
      modifies this
      ensures Valid() && Chain(heap, mp, [mp] + b2)
      ensures pieces == Take(Flat(old(heap), b), Sum(sizes))
      ensures Flat(heap, b2) == Drop(Flat(old(heap), b), Sum(sizes))
    {
      ghost var payload := Flat(heap, b);
      PiecesAreThePayload(payload, sizes);
      b2, pieces := b, [];
      var i := 0;
      assert sizes[0..] == sizes;
      while i < |sizes|
        invariant 0 <= i <= |sizes| && Valid() && Chain(heap, mp, [mp] + b2)
        invariant pieces + Pieces(Flat(heap, b2), sizes[i..]) == Pieces(payload, sizes)
        invariant Drop(Flat(heap, b2), Sum(sizes[i..])) == Drop(payload, Sum(sizes))
      {
        var buffer := new u8[sizes[i]];
        ghost var left := Flat(heap, b2);
        var n;
        n, b2 := MsgToBuf(mp, buffer, sizes[i], b2);
        OnePiece(left, sizes, i);
        Assoc(pieces, buffer[..n], Pieces(Flat(heap, b2), sizes[i + 1..]));
        pieces := pieces + buffer[..n];
        i := i + 1;
      }
    }

    /** concatb; the last block of the result is returned. */
    method Concatb(m: Ptr, n: Ptr, ghost c1: seq<Ptr>, ghost c2: seq<Ptr>) returns (last: Ptr)
      requires Valid() && Chain(heap, m, c1) && Chain(heap, n, c2) && IsHead(heap, n)
      requires forall i :: 0 <= i < |c2| ==> c2[i] !in c1
      modifies this
      ensures Valid() && Chain(heap, m, c1 + c2) && last == c2[|c2| - 1]
      ensures Flat(heap, c1 + c2) == Flat(old(heap), c1) + Flat(old(heap), c2)
      ensures forall p :: p in heap.mblks <==> p in old(heap).mblks
      ensures forall p :: p in heap.mblks && p != c1[|c1| - 1] ==> Kept(old(heap), heap, p)
    {
      ghost var h := heap;
      var mp := LastBlock(m, c1);
      LinkKeepsWf(h, mp, Some(n));
      ConcatChain(h, c1, c2);
      heap := Link(heap, mp, Some(n));
      LinkBytes(h, mp, Some(n));
      ConcatFlat(h, heap, c1, c2);
      assert Chain(heap, n, c2) by {
        forall i | 0 <= i < |c2| ensures Kept(h, heap, c2[i]) { assert InBounds(h, c2[i]) && c1[|c1| - 1] in c1; }
        forall i | 0 <= i < |c2| ensures heap.mblks[c2[i]].cont == Following(c2, i) { assert Kept(h, heap, c2[i]); }
      }
      last := LastBlock(n, c2);
    }

    /** Follows the links to the end of a message. */
    method LastBlock(m: Ptr, ghost c: seq<Ptr>) returns (mp: Ptr)
      requires Chain(heap, m, c)
      ensures mp == c[|c| - 1]
    {
      mp := m;
      ghost var i := 0;
      assert heap.mblks[mp].cont == Following(c, 0);
      while heap.mblks[mp].cont.Some?
        invariant 0 <= i < |c| && mp == c[i] && mp in heap.mblks && heap.mblks[mp].cont == Following(c, i)
        decreases |c| - i
      {
        mp := heap.mblks[mp].cont.value;
        i := i + 1;
        assert heap.mblks[c[i]].cont == Following(c, i);
      }
    }

    /** flushq on a queue of messages with no block in common. */
    method Flushq(q: seq<Ptr>, ghost cs: seq<seq<Ptr>>)
      requires Valid() && |cs| == |q|
      requires forall k :: 0 <= k < |q| ==> Chain(heap, q[k], cs[k]) && IsHead(heap, q[k])
      requires forall k, x :: 0 <= k < |q| && x in cs[k] ==> !InMessage(cs, k, x)
      modifies this
      ensures Valid()
      ensures forall p :: p in heap.mblks <==> p in old(heap).mblks && !InMessage(cs, |q|, p)
      ensures forall p :: p in heap.mblks ==> Kept(old(heap), heap, p)
      ensures forall d :: d in heap.dblks ==> exists p :: p in heap.mblks && heap.mblks[p].datap == d
    {
      var i := 0;
      AllReferenced(heap, heap);
      while i < |q|
        invariant 0 <= i <= |q| && Valid()
        invariant forall p :: p in heap.mblks <==> p in old(heap).mblks && !InMessage(cs, i, p)
        invariant forall p :: p in heap.mblks ==> Kept(old(heap), heap, p)
        invariant forall d :: d in heap.dblks ==> exists p :: p in heap.mblks && heap.mblks[p].datap == d
      {
        ghost var h := heap;
        SurvivingChain(old(heap), h, q[i], cs[i]);
        Freemsg(q[i], cs[i]);
        forall p | p in heap.mblks ensures Kept(old(heap), heap, p) {
          assert Kept(old(heap), h, p) && Kept(h, heap, p);
        }
        i := i + 1;
      }
    }
  }
}
