/** The wrap-around comparisons of rtp.h and rtpmod.c, and the exact window in
    which they agree with the order of unwrapped integers. */
module Modular {
  const M16: int := 0x1_0000
  const H16: int := 0x8000
  const M32: int := 0x1_0000_0000
  const H32: int := 0x8000_0000

  type u8 = x: int | 0 <= x < 256
  type u16 = x: int | 0 <= x < 0x1_0000
  type u32 = x: int | 0 <= x < 0x1_0000_0000

  function Wrap16(x: int): u16 { x % 0x1_0000 }

  function Wrap32(x: int): u32 { x % 0x1_0000_0000 }

  /** The value of a 32-bit word read as a signed int. */
  function Signed32(x: u32): int { if x < H32 then x else x - M32 }

  /** RTP_SEQ_IS_GREATER: equality counts as greater. */
  predicate SeqIsGreater(a: u16, b: u16) { Wrap16(a - b) < H16 }

  /** RTP_TIMESTAMP_IS_NEWER_THAN: equality counts as newer. */
  predicate TsIsNewer(a: u32, b: u32) { Wrap32(a - b) < H32 }

  predicate TsIsStrictlyNewer(a: u32, b: u32) { TsIsNewer(a, b) && a != b }

  lemma Wrap16Unique(x: int, q: int, r: int)
    requires x == 0x1_0000 * q + r && 0 <= r < 0x1_0000
    ensures Wrap16(x) == r
  {
    assert x / 0x1_0000 == q;
  }

  lemma Wrap32Unique(x: int, q: int, r: int)
    requires x == 0x1_0000_0000 * q + r && 0 <= r < 0x1_0000_0000
    ensures Wrap32(x) == r
  {
    assert x / 0x1_0000_0000 == q;
  }

  lemma Wrap16Diff(m: int, n: int)
    ensures Wrap16(Wrap16(m) - Wrap16(n)) == Wrap16(m - n)
  {
    var q := (m - n) / 0x1_0000;
    Wrap16Unique(Wrap16(m) - Wrap16(n), q - m / 0x1_0000 + n / 0x1_0000, Wrap16(m - n));
  }

  lemma Wrap32Diff(m: int, n: int)
    ensures Wrap32(Wrap32(m) - Wrap32(n)) == Wrap32(m - n)
  {
    var q := (m - n) / 0x1_0000_0000;
    Wrap32Unique(Wrap32(m) - Wrap32(n), q - m / 0x1_0000_0000 + n / 0x1_0000_0000, Wrap32(m - n));
  }

  lemma Wrap32Sum(m: int, n: int)
    ensures Wrap32(Wrap32(m) + Wrap32(n)) == Wrap32(m + n)
    ensures Wrap32(m + Wrap32(n)) == Wrap32(m + n)
  {
    var q := (m + n) / 0x1_0000_0000;
    Wrap32Unique(Wrap32(m) + Wrap32(n), q - m / 0x1_0000_0000 - n / 0x1_0000_0000, Wrap32(m + n));
    Wrap32Unique(m + Wrap32(n), q - n / 0x1_0000_0000, Wrap32(m + n));
  }

  ghost predicate SeqAgrees(m: int, n: int) { SeqIsGreater(Wrap16(m), Wrap16(n)) <==> m >= n }

  ghost predicate TsAgrees(m: int, n: int) { TsIsNewer(Wrap32(m), Wrap32(n)) <==> m >= n }

  lemma SeqOrder(m: int, n: int)
    requires -H16 <= m - n < H16
    ensures SeqAgrees(m, n)
    ensures Wrap16(m) == Wrap16(n) <==> m == n
  {
    Wrap16Diff(m, n);
  }

  lemma TsOrder(m: int, n: int)
    requires -H32 <= m - n < H32
    ensures TsAgrees(m, n)
    ensures Wrap32(m) == Wrap32(n) <==> m == n
  {
    Wrap32Diff(m, n);
  }

  /** The widest interval of differences around 0 on which the 16-bit test
      decides the order of the unwrapped numbers is [-2^15, 2^15). */
  lemma SeqWindow(lo: int, hi: int)
    requires lo <= 0 < hi
    ensures (forall m, n :: lo <= m - n < hi ==> SeqAgrees(m, n)) <==> -H16 <= lo && hi <= H16
  {
    forall m, n | -H16 <= m - n < H16 ensures SeqAgrees(m, n) { SeqOrder(m, n); }
    assert !SeqAgrees(H16, 0);
    assert !SeqAgrees(-H16 - 1, 0);
  }

  /** The same for the 32-bit timestamp test: [-2^31, 2^31). */
  lemma TsWindow(lo: int, hi: int)
    requires lo <= 0 < hi
    ensures (forall m, n :: lo <= m - n < hi ==> TsAgrees(m, n)) <==> -H32 <= lo && hi <= H32
  {
    forall m, n | -H32 <= m - n < H32 ensures TsAgrees(m, n) { TsOrder(m, n); }
    assert !TsAgrees(H32, 0);
    assert !TsAgrees(-H32 - 1, 0);
  }
}
