/**
 `sodium_pad` and `sodium_unpad`: a barrier byte 0x80 and zeros up to a whole number of
 blocks, written and found without branching on the data. Sizes are 64 bits.
 */
module Padding {
  import opened Machine
  import opened Bytes

  const BARRIER: byte := 0x80

  /** Below this no position looks like a match in the top byte. */
  const MAX_BLOCK: int := 0x100_0000_0000_0000
  const HALF: int := 0x8000_0000_0000_0000

  // ------------------------------------------------------- specification

  function Filler(n: nat, block: nat): nat
    requires block > 0
  {
    block - 1 - n % block
  }

  /** The data, the barrier, and zeros to the end of the block. */
  function Padded(data: seq<byte>, block: nat): seq<byte>
    requires block > 0
  {
    data + [BARRIER] + Zeros(Filler(|data|, block))
  }

  /** The data ends `n` bytes before the end, in a barrier followed by zeros. */
  predicate EndsWithBarrier(s: seq<byte>, n: nat) {
    n < |s| && s[|s| - 1 - n] == BARRIER && forall i :: |s| - n <= i < |s| ==> s[i] == 0
  }

  /** There is one such place at most. */
  lemma BarrierUnique(s: seq<byte>, m: nat, n: nat)
    requires EndsWithBarrier(s, n) && m != n
    ensures !EndsWithBarrier(s, m)
  {
    if m < n {
      assert s[|s| - 1 - m] == 0;
    } else if m < |s| {
      assert |s| - m <= |s| - 1 - n;
    }
  }

  // ------------------------------------------------------ the bit tricks

  function And64(x: u64, y: u64): nat { AndBits(x, y, 64) }

  lemma OddMask(b: nat, k: nat)
    requires b % 2 == 1 && k > 0 && b < Pow2(k) && AndBits(b, b - 1, k) == 0
    ensures b == 1
  {
    var h := b / 2;
    assert Pow2(k) == 2 * Pow2(k - 1) && (b - 1) / 2 == h;
    hide AndBits, Pow2;
    AndHalf(b, b - 1, k);
    AndSame(h, k - 1);
  }

  lemma HalfMask(b: nat, k: nat)
    requires 0 < b && b % 2 == 0 && k > 0 && AndBits(b, b - 1, k) == 0
    ensures AndBits(b / 2, b / 2 - 1, k - 1) == 0
  {
    hide AndBits;
    AndHalf(b, b - 1, k);
    assert (b - 1) / 2 == b / 2 - 1;
  }

  lemma EvenMask(b: nat, u: nat, k: nat)
    requires 0 < b && b % 2 == 0 && k > 0
    requires AndBits(u / 2, b / 2 - 1, k - 1) == u / 2 % (b / 2)
    ensures AndBits(u, b - 1, k) == u % b
  {
    hide AndBits;
    AndHalf(u, b - 1, k);
    assert (b - 1) / 2 == b / 2 - 1 && (b - 1) % 2 == 1;
    DoubleRemainder(u, b / 2);
  }

  /** `blocksize & (blocksize - 1)` is zero for powers of two only, and then the mask takes the remainder. */
  lemma {:induction false} MaskIsRemainder(b: nat, u: nat, k: nat)
    requires 0 < b < Pow2(k) && u < Pow2(k) && AndBits(b, b - 1, k) == 0
    ensures AndBits(u, b - 1, k) == u % b
    decreases k
  {
    assert k > 0 && Pow2(k) == 2 * Pow2(k - 1);
    hide AndBits, Pow2;
    if b % 2 == 1 {
      OddMask(b, k);
      AndZeroRight(u, k);
    } else {
      HalfMask(b, k);
      MaskIsRemainder(b / 2, u / 2, k - 1);
      EvenMask(b, u, k);
    }
  }

  lemma {:induction false} AndSame(x: nat, k: nat)
    requires x < Pow2(k)
    ensures AndBits(x, x, k) == x
  {
    if k > 0 {
      AndSame(x / 2, k - 1);
    }
  }

  lemma {:induction false} AndZeroRight(x: nat, k: nat)
    ensures AndBits(x, 0, k) == 0
  {
    if k > 0 {
      AndZeroRight(x / 2, k - 1);
    }
  }

  lemma SixtyFour()
    ensures Pow2(64) == U64 && Pow2(56) == MAX_BLOCK
  {
    EightBits();
    hide Pow2;
    Pow2Add(8, 8);
    assert Pow2(16) == 0x1_0000;
    Pow2Add(16, 8);
    assert Pow2(24) == 0x100_0000;
    Pow2Add(16, 16);
    assert Pow2(32) == 0x1_0000_0000;
    Pow2Add(32, 24);
    Pow2Add(56, 8);
  }

  /** `((i ^ xpadlen) - 1) >> 56`, as a byte. */
  function BarrierMask(i: u64, xpadlen: u64): byte { TopByte(Wrap64(XorBits(i, xpadlen, 64) - 1)) }

  function TopByte(x: u64): byte { x / MAX_BLOCK }

  lemma TopOfPrevious(z: nat)
    requires z < MAX_BLOCK
    ensures TopByte(Wrap64(z - 1)) == if z == 0 then 0xFF else 0
  {
    if z > 0 {
      ModUnique(z - 1, 0, z - 1, U64);
    } else {
      ModUnique(-1, -1, U64 - 1, U64);
    }
  }

  /** All ones at the barrier, zero elsewhere, for blocks up to 2^56 bytes. */
  lemma BarrierMaskIs(i: u64, xpadlen: u64)
    requires i < MAX_BLOCK && xpadlen < MAX_BLOCK
    ensures BarrierMask(i, xpadlen) == if i == xpadlen then 0xFF else 0
  {
    SixtyFour();
    hide XorBits, Pow2, TopByte, Wrap64;
    XorBitsZero(i, xpadlen, 64);
    XorSmall(i, xpadlen, 64, 56);
    TopOfPrevious(XorBits(i, xpadlen, 64));
  }

  /** The byte written at distance `i` from the end. */
  function PadByte(was: byte, mask: byte, barrier: byte): byte { Or(And(was, mask), And(0x80, barrier)) }

  lemma PadByteIs(b: byte)
    ensures PadByte(b, 0, 0) == 0 && PadByte(b, 0, 0xFF) == 0x80 && PadByte(b, 0xFF, 0) == b
    ensures Or(0, 0xFF) == 0xFF && Or(0xFF, 0) == 0xFF && Or(0, 0) == 0
  {
    EightBits();
    hide OrBits, AndBits, Pow2;
    AndZeroRight(b, 8);
    AndZeroRight(0x80, 8);
    MaskAll(b);
    MaskAll(0x80);
    OrNone(0, 8);
    OrNone(0x80, 8);
    OrNone(0xFF, 8);
    OrNone(b, 8);
  }

  lemma MaskAll(b: byte)
    ensures AndBits(b, 0xFF, 8) == b
  {
    EightBits();
    AndCommute(b, 0xFF, 8);
    AndOnes(b, 8, 8);
  }

  lemma {:induction false} AndCommute(x: nat, y: nat, k: nat)
    ensures AndBits(x, y, k) == AndBits(y, x, k)
  {
    if k > 0 {
      AndCommute(x / 2, y / 2, k - 1);
    }
  }

  // ------------------------------------------------------------- padding

  datatype Outcome = Aborted | Failed | Done(len: nat)

  function XPad(n: u64, block: u64): u64
    requires block > 0
  {
    RemainderBound(n, block);
    block - 1 - n % block
  }

  /** What padding reports. */
  function PadOutcome(n: u64, block: u64, max: u64): Outcome {
    if block == 0 then Failed
    else if U64 - 1 - n <= XPad(n, block) then Aborted
    else if n + XPad(n, block) >= max then Failed
    else Done(n + XPad(n, block) + 1)
  }

  /** Padding succeeds when the next whole number of blocks, at least one byte longer, fits; it ends the program when
      that number does not fit 64 bits. */
  lemma PadOutcomeIs(n: u64, block: u64, max: u64, len: nat)
    requires block > 0 && n < len <= n + block && len % block == 0
    ensures PadOutcome(n, block, max) == if len >= U64 then Aborted else if len > max then Failed else Done(len)
    ensures PadOutcome(n, 0, max) == Failed
  {
    RemainderBound(n, block);
    FillerFits(n, block, len - n - 1);
    assert n + 1 + (len - n - 1) == len;
  }

  /** The filler length, by mask for powers of two and by remainder otherwise. */
  method PadLength(unpadded: u64, block: u64) returns (xpadlen: u64)
    requires block > 0
    ensures xpadlen == XPad(unpadded, block)
  {
    hide AndBits, Pow2;
    RemainderBound(unpadded, block);
    SixtyFour();
    xpadlen := block - 1;
    if And64(block, block - 1) == 0 {
      MaskIsRemainder(block, unpadded, 64);
      xpadlen := xpadlen - And64(unpadded, block - 1);
    } else {
      xpadlen := xpadlen - unpadded % block;
    }
  }

  lemma XPadFits(n: u64, block: u64)
    requires block > 0
    ensures XPad(n, block) < block <= n + XPad(n, block) + 1 && XPad(n, block) == Filler(n, block)
  {
    RemainderBound(n, block);
  }

  /** The mask that guards the byte at distance `i`: all barrier masks nearer to the end. */
  function MaskAt(i: nat, xpadlen: u64): byte
    requires i <= U64
  {
    if i == 0 then 0 else Or(MaskAt(i - 1, xpadlen), BarrierMask(i - 1, xpadlen))
  }

  /** What the loop leaves at distance `i` from the end. */
  function TailByte(was: byte, i: u64, xpadlen: u64): byte {
    PadByte(was, MaskAt(i, xpadlen), BarrierMask(i, xpadlen))
  }

  /** What padding asks for at distance `i` from the end. */
  function Meant(was: byte, i: u64, xpadlen: u64): byte {
    if i < xpadlen then 0 else if i == xpadlen then BARRIER else was
  }

  /** Sizes for which the loop pads: the barrier within 2^56 bytes of the end, the block within 2^63. */
  predicate Suits(block: nat, xpadlen: nat) {
    xpadlen < MAX_BLOCK && (block <= HALF || (xpadlen == 0 && block == HALF + 1))
  }

  /** `sodium_pad`: the last block is rewritten byte by byte and nothing else; for sizes that suit, the buffer then
      holds the padded data. */
  method Pad(buf: array<byte>, unpadded: u64, block: u64, max: u64) returns (r: Outcome)
    requires max <= buf.Length
    modifies buf
    ensures r == PadOutcome(unpadded, block, max)
    ensures !r.Done? ==> buf[..] == old(buf[..])
    ensures r.Done? ==> block <= r.len <= buf.Length && unpadded < r.len
    ensures r.Done? ==> Rewritten(old(buf[..]), buf[..], r.len - 1, block, XPad(unpadded, block))
    ensures r.Done? && Suits(block, XPad(unpadded, block)) ==> buf[..r.len] == Padded(old(buf[..unpadded]), block)
  {
    hide Padded, TailByte, Rewritten;
    if block <= 0 {
      return Failed;
    }
    var xpadlen := PadLength(unpadded, block);
    XPadFits(unpadded, block);
    if U64 - 1 - unpadded <= xpadlen {
      return Aborted;
    }
    var last := unpadded + xpadlen;
    if last >= max {
      return Failed;
    }
    WriteTail(buf, last, block, xpadlen);
    if Suits(block, xpadlen) {
      TailSuits(block, xpadlen);
      PaddedTail(old(buf[..]), buf[..], unpadded, block);
      assert old(buf[..])[..unpadded] == old(buf[..unpadded]) && buf[..][..last + 1] == buf[..last + 1];
    }
    return Done(last + 1);
  }

  lemma PaddedAt(data: seq<byte>, block: nat)
    requires block > 0
    ensures var p := Padded(data, block);
            |p| == |data| + 1 + Filler(|data|, block)
            && forall k :: 0 <= k < |p| ==> p[k] == if k < |data| then data[k] else if k == |data| then BARRIER else 0
  {
    RemainderBound(|data|, block);
  }

  lemma PaddedExamples()
    ensures Padded([1, 2, 3], 8) == [1, 2, 3, 0x80, 0, 0, 0, 0] && Padded([], 1) == [0x80]
    ensures Padded([1, 2], 2) == [1, 2, 0x80, 0]
  {
    PaddedAt([1, 2, 3], 8);
    PaddedAt([], 1);
    PaddedAt([1, 2], 2);
  }

  /** The `n` bytes that end at `last` are as the loop leaves them, all others as they were. */
  predicate Rewritten(was: seq<byte>, now: seq<byte>, last: nat, n: u64, xpadlen: u64) {
    |now| == |was| && forall k :: 0 <= k < |now| ==>
      now[k] == if last - n < k <= last then TailByte(was[k], last - k, xpadlen) else was[k]
  }

  lemma RewrittenStep(was: seq<byte>, now: seq<byte>, last: nat, i: u64, xpadlen: u64)
    requires Rewritten(was, now, last, i, xpadlen) && i <= last < |now| && i + 1 < U64
    ensures now[last - i] == was[last - i]
    ensures Rewritten(was, now[last - i := TailByte(was[last - i], i, xpadlen)], last, i + 1, xpadlen)
  {
    hide TailByte;
  }

  lemma NothingRewritten(s: seq<byte>, last: nat, xpadlen: u64)
    ensures Rewritten(s, s, last, 0, xpadlen)
  {
  }

  /** Data whose last block is as meant is padded data. */
  lemma PaddedTail(was: seq<byte>, now: seq<byte>, n: u64, block: u64)
    requires block > 0 && n + XPad(n, block) < |was| && Rewritten(was, now, n + XPad(n, block), block, XPad(n, block))
    requires forall i: u64, b: byte :: i < block ==> TailByte(b, i, XPad(n, block)) == Meant(b, i, XPad(n, block))
    ensures now[..n + XPad(n, block) + 1] == Padded(was[..n], block)
  {
    hide Padded, XPad, Filler, TailByte;
    var x := XPad(n, block);
    XPadFits(n, block);
    PaddedAt(was[..n], block);
    forall k | 0 <= k <= n + x ensures now[k] == Padded(was[..n], block)[k] {
      if k > n + x - block {
        assert TailByte(was[k], n + x - k, x) == Meant(was[k], n + x - k, x);
      }
    }
  }

  /** The masked loop over the last block. */
  method WriteTail(buf: array<byte>, last: nat, block: u64, xpadlen: u64)
    requires last < buf.Length && block - 1 <= last
    modifies buf
    ensures Rewritten(old(buf[..]), buf[..], last, block, xpadlen)
  {
    hide Rewritten, MaskAt, TailByte, PadByte, BarrierMask, Or;
    ghost var was := buf[..];
    var mask: byte := 0;
    MaskStep(0, xpadlen);
    NothingRewritten(was, last, xpadlen);
    for i := 0 to block
      invariant mask == MaskAt(i, xpadlen) && Rewritten(was, buf[..], last, i, xpadlen)
    {
      RewrittenStep(was, buf[..], last, i, xpadlen);
      MaskStep(i, xpadlen);
      TailByteIs(was[last - i], i, xpadlen);
      ghost var now := buf[..];
      var barrier := BarrierMask(i, xpadlen);
      buf[last - i] := PadByte(buf[last - i], mask, barrier);
      mask := Or(mask, barrier);
      assert buf[..] == now[last - i := TailByte(was[last - i], i, xpadlen)];
    }
  }

  lemma MaskStep(i: u64, xpadlen: u64)
    ensures MaskAt(0, xpadlen) == 0 && MaskAt(i + 1, xpadlen) == Or(MaskAt(i, xpadlen), BarrierMask(i, xpadlen))
  {
  }

  lemma TailByteIs(was: byte, i: u64, xpadlen: u64)
    ensures TailByte(was, i, xpadlen) == PadByte(was, MaskAt(i, xpadlen), BarrierMask(i, xpadlen))
  {
  }

  // ---------------------------------------- which sizes the loop pads for

  lemma XorTopStep(p: nat, y: nat, k: nat)
    requires k > 0 && XorBits(p, y / 2, k - 1) == p + y / 2
    ensures XorBits(2 * p, y, k) == 2 * p + y
  {
    hide XorBits, Pow2;
    assert 2 * p / 2 == p && 2 * p % 2 == 0;
    XorBitsStep(2 * p, y, k);
  }

  lemma {:induction false} XorTop(y: nat, k: nat)
    requires y < Pow2(k)
    ensures XorBits(Pow2(k), y, k + 1) == Pow2(k) + y
    decreases k
  {
    if k > 0 {
      var p := Pow2(k - 1);
      assert Pow2(k) == 2 * p;
      XorTop(y / 2, k - 1);
      XorTopStep(p, y, k + 1);
    }
  }

  lemma {:induction false} TopBit(y: nat, k: nat)
    requires y < Pow2(k + 1)
    ensures AndBits(Pow2(k), y, k + 1) == if y >= Pow2(k) then Pow2(k) else 0
    decreases k
  {
    if k > 0 {
      var p := Pow2(k - 1);
      assert Pow2(k + 1) == 2 * Pow2(k) && Pow2(k) == 2 * p;
      TopBit(y / 2, k - 1);
      hide AndBits, Pow2;
      AndHalf(2 * p, y, k + 1);
    }
  }

  lemma SignBit(b: byte)
    ensures And(0x80, b) == if b >= 0x80 then 0x80 else 0
  {
    EightBits();
    TopBit(b, 7);
  }

  lemma {:induction false} OrAll(y: nat, k: nat)
    requires y < Pow2(k)
    ensures OrBits(Pow2(k) - 1, y, k) == Pow2(k) - 1
    decreases k
  {
    if k > 0 {
      var p := Pow2(k - 1);
      assert Pow2(k) == 2 * p;
      assert (2 * p - 1) / 2 == p - 1 && (2 * p - 1) % 2 == 1;
      OrAll(y / 2, k - 1);
      hide OrBits, Pow2;
      OrHalf(2 * p - 1, y, k);
    }
  }

  lemma OrHalf(x: nat, y: nat, k: nat)
    requires k > 0
    ensures OrBits(x, y, k) / 2 == OrBits(x / 2, y / 2, k - 1)
    ensures OrBits(x, y, k) % 2 == if x % 2 == 1 || y % 2 == 1 then 1 else 0
  {
  }

  /** With the barrier near the end the mask is empty up to it and full behind it. */
  lemma {:induction false} MaskKnown(i: nat, xpadlen: u64)
    requires i <= U64 && xpadlen < MAX_BLOCK
    ensures MaskAt(i, xpadlen) == if i <= xpadlen then 0 else 0xFF
    decreases i
  {
    if i > 0 {
      MaskKnown(i - 1, xpadlen);
      NextMask(i - 1, xpadlen);
      hide MaskAt, BarrierMask, Or;
      MaskStep(i - 1, xpadlen);
    }
  }

  lemma NextMask(i: u64, xpadlen: u64)
    requires xpadlen < MAX_BLOCK
    ensures Or(if i <= xpadlen then 0 else 0xFF, BarrierMask(i, xpadlen)) == if i < xpadlen then 0 else 0xFF
  {
    hide BarrierMask, Or, PadByte;
    PadByteIs(0);
    if i <= xpadlen {
      BarrierMaskIs(i, xpadlen);
    } else {
      FullStays(BarrierMask(i, xpadlen));
    }
  }

  lemma FullStays(b: byte)
    ensures Or(0xFF, b) == 0xFF
  {
    EightBits();
    OrAll(b, 8);
  }

  lemma BehindBarrier(i: u64, xpadlen: u64)
    requires xpadlen < MAX_BLOCK && xpadlen < i < HALF + (if xpadlen == 0 then 1 else 0)
    ensures BarrierMask(i, xpadlen) < 0x80
  {
    SixtyFour();
    assert Pow2(64) == 2 * Pow2(63);
    hide XorBits, Pow2;
    XorBitsZero(i, xpadlen, 64);
    if i < HALF {
      XorSmall(i, xpadlen, 64, 63);
    } else {
      XorBitsNone(i, 64);
    }
    ModUnique(XorBits(i, xpadlen, 64) - 1, 0, XorBits(i, xpadlen, 64) - 1, U64);
  }

  lemma TailSuits(block: u64, xpadlen: u64)
    requires xpadlen < block && Suits(block, xpadlen)
    ensures forall i: u64, was: byte :: i < block ==> TailByte(was, i, xpadlen) == Meant(was, i, xpadlen)
  {
    forall i: u64, was: byte | i < block ensures TailByte(was, i, xpadlen) == Meant(was, i, xpadlen) {
      hide BarrierMask, PadByte, MaskAt;
      MaskKnown(i, xpadlen);
      PadByteIs(was);
      if i <= xpadlen {
        BarrierMaskIs(i, xpadlen);
      } else {
        BehindBarrier(i, xpadlen);
        KeptByte(was, BarrierMask(i, xpadlen));
      }
    }
  }

  lemma KeptByte(was: byte, b: byte)
    requires b < 0x80
    ensures PadByte(was, 0xFF, b) == was
  {
    hide Or, And;
    SignBit(b);
    SignBit(0);
    PadByteIs(was);
  }

  /** A mask that is not empty lets something of an old byte through. */
  lemma MaskLeaks(i: u64, xpadlen: u64)
    requires MaskAt(i, xpadlen) != 0
    ensures TailByte(0xFF, i, xpadlen) != 0
  {
    hide BarrierMask, MaskAt, OrBits, AndBits, Pow2;
    EightBits();
    AndOnes(MaskAt(i, xpadlen), 8, 8);
    OrZero(And(0xFF, MaskAt(i, xpadlen)), And(0x80, BarrierMask(i, xpadlen)));
  }

  /** With the barrier more than 2^56 bytes from the end, the byte next to the last keeps some of what was there. */
  lemma BarrierTooFar(xpadlen: u64)
    requires MAX_BLOCK < xpadlen
    ensures TailByte(0xFF, 1, xpadlen) != 0
  {
    hide TailByte, Or, XorBits, BarrierMask, Pow2;
    SixtyFour();
    XorBitsCommute(0, xpadlen, 64);
    XorBitsNone(xpadlen, 64);
    TopNotEmpty(0, xpadlen);
    OrZero(MaskAt(0, xpadlen), BarrierMask(0, xpadlen));
    MaskLeaks(1, xpadlen);
  }

  lemma FarBarrier(block: u64, xpadlen: u64)
    requires MAX_BLOCK <= xpadlen < block
    ensures TailByte(0xFF, 1, xpadlen) != Meant(0xFF, 1, xpadlen)
            || (2 < block && TailByte(0xFF, 2, xpadlen) != Meant(0xFF, 2, xpadlen))
  {
    hide TailByte, Or, XorBits, BarrierMask, Pow2;
    SixtyFour();
    if xpadlen > MAX_BLOCK {
      BarrierTooFar(xpadlen);
      assert TailByte(0xFF, 1, xpadlen) != Meant(0xFF, 1, xpadlen);
    } else {
      XorEven(xpadlen, 1, 64);
      TopNotEmpty(1, xpadlen);
      OrZero(MaskAt(1, xpadlen), BarrierMask(1, xpadlen));
      MaskLeaks(2, xpadlen);
      assert TailByte(0xFF, 2, xpadlen) != Meant(0xFF, 2, xpadlen);
    }
  }

  lemma XorEven(x: nat, i: nat, k: nat)
    requires i <= 1 && k > 0 && x % 2 == 0 && x < Pow2(k)
    ensures XorBits(i, x, k) == x + i
  {
    hide XorBits, Pow2;
    XorBitsCommute(0, x, k);
    XorBitsNone(x, k);
    XorBitsStep(i, x, k);
    XorBitsStep(0, x, k);
  }

  lemma TopNotEmpty(i: u64, xpadlen: u64)
    requires XorBits(i, xpadlen, 64) > MAX_BLOCK
    ensures BarrierMask(i, xpadlen) != 0
    ensures XorBits(i, xpadlen, 64) > HALF ==> BarrierMask(i, xpadlen) >= 0x80
  {
    SixtyFour();
    hide XorBits, Pow2;
    var z := XorBits(i, xpadlen, 64);
    ModUnique(z - 1, 0, z - 1, U64);
  }

  lemma WideBlock(block: u64, xpadlen: u64, i: u64)
    requires xpadlen < i < block && XorBits(i, xpadlen, 64) > HALF
    ensures TailByte(0, i, xpadlen) != Meant(0, i, xpadlen)
  {
    hide XorBits, BarrierMask, TailByte, TopByte, Wrap64, Pow2;
    TopNotEmpty(i, xpadlen);
    SignLeaks(i, xpadlen);
  }

  /** A barrier mask with its top bit set writes something over a zero byte. */
  lemma SignLeaks(i: u64, xpadlen: u64)
    requires BarrierMask(i, xpadlen) >= 0x80
    ensures TailByte(0, i, xpadlen) != 0
  {
    hide And, Or, MaskAt, BarrierMask;
    SignBit(BarrierMask(i, xpadlen));
    OrZero(And(0, MaskAt(i, xpadlen)), And(0x80, BarrierMask(i, xpadlen)));
  }

  lemma WideXor(xpadlen: u64)
    requires xpadlen < MAX_BLOCK
    ensures XorBits(Far(xpadlen), xpadlen, 64) > HALF
  {
    SixtyFour();
    assert Pow2(64) == 2 * Pow2(63);
    hide XorBits, Pow2;
    if xpadlen == 0 {
      XorBitsNone(HALF + 1, 64);
    } else {
      XorTop(xpadlen, 63);
    }
  }

  /** The nearest distance at which a barrier mask has its top bit set. */
  function Far(xpadlen: nat): u64 { if xpadlen == 0 then HALF + 1 else HALF }

  /** The loop turns every last block into the padded one exactly for the sizes that suit. */
  lemma PadsExactly(block: u64, xpadlen: u64)
    requires xpadlen < block
    ensures (forall i: u64, was: byte :: i < block ==> TailByte(was, i, xpadlen) == Meant(was, i, xpadlen))
            <==> Suits(block, xpadlen)
  {
    hide TailByte, XorBits;
    if Suits(block, xpadlen) {
      TailSuits(block, xpadlen);
    } else if xpadlen >= MAX_BLOCK {
      FarBarrier(block, xpadlen);
    } else {
      WideXor(xpadlen);
      WideBlock(block, xpadlen, Far(xpadlen));
    }
  }

  // ------------------------------------------------------------ unpadding

  /** `i & (1U + ~b)`: all of `i` or nothing. */
  function Gated(i: u64, isBarrier: nat): u64
    requires isBarrier <= 1
  {
    And64Word(i, Wrap64(1 + (U64 - 1 - isBarrier)))
  }

  lemma GatedIs(i: u64, isBarrier: nat)
    requires isBarrier <= 1
    ensures Gated(i, isBarrier) == if isBarrier == 1 then i else 0
  {
    SixtyFour();
    hide AndBits, Pow2;
    assert Wrap64(1 + (U64 - 1 - isBarrier)) == if isBarrier == 1 then U64 - 1 else 0;
    AndZeroRight(i, 64);
    AndCommute(i, U64 - 1, 64);
    AndOnes(i, 64, 64);
  }

  function Or64(x: u64, y: u64): u64 { SixtyFour(); OrBits(x, y, 64) }

  lemma OrOneSided(x: u64)
    ensures Or64(x, 0) == x && Or64(0, x) == x
  {
    SixtyFour();
    OrNone(x, 64);
  }

  lemma OrFlags(x: byte)
    requires x <= 1
    ensures Or(x, 0) == x && Or(0, x) == x
  {
    EightBits();
    OrNone(x, 8);
  }

  /** The bit test on accumulated bytes, found length and current byte. */
  function IsBarrier(acc: byte, padLen: u64, c: byte): nat {
    And64(And64Word(Wrap32(acc as int - 1), Wrap64(padLen as int - 1)), Wrap32(Xor(c, 0x80) as int - 1)) / 256 % 2
  }

  function And64Word(x: u64, y: u64): u64 { SixtyFour(); AndBits(x, y, 64) }

  /** Nothing but zeros so far, and the barrier byte. */
  lemma IsBarrierIs(acc: byte, padLen: u64, c: byte)
    requires acc == 0 ==> padLen == 0
    ensures IsBarrier(acc, padLen, c) == if acc == 0 && c == BARRIER then 1 else 0
  {
    hide AndBits, Xor, Pow2, Wrap32, Wrap64;
    var a, b, d := Wrap32(acc as int - 1), Wrap64(padLen as int - 1), Wrap32(Xor(c, 0x80) as int - 1);
    XorZero(c, 0x80);
    AndBit8(And64Word(a, b), d, 64);
    AndBit8(a, b, 64);
    BitOf(acc);
    BitOf(Xor(c, 0x80));
    BitOfAllOnes();
  }

  lemma BitOfAllOnes()
    ensures Wrap64(0 - 1) / 256 % 2 == 1
  {
  }

  lemma BitOf(x: byte)
    ensures Wrap32(x as int - 1) / 256 % 2 == if x == 0 then 1 else 0
  {
  }

  datatype Unpadded = Bad | Found(len: nat)

  /** The unpadded length, from the last block alone. */
  ghost predicate IsUnpadded(s: seq<byte>, block: nat, r: Unpadded) {
    match r
    case Bad => |s| < block || block == 0 || forall n :: 0 <= n < block ==> !EndsWithBarrier(s, n)
    case Found(len) => 0 < block <= |s| && len < |s| && |s| - 1 - len < block && EndsWithBarrier(s, |s| - 1 - len)
  }

  /** What the loop knows after looking at the last `i` bytes. */
  ghost predicate Scanned(s: seq<byte>, i: nat, acc: byte, padLen: u64, valid: byte)
    requires i <= |s|
  {
    && (acc == 0 <==> forall k :: |s| - i <= k < |s| ==> s[k] == 0)
    && (acc == 0 ==> valid == 0)
    && valid <= 1
    && (valid == 0 ==> padLen == 0 && forall n :: 0 <= n < i ==> !EndsWithBarrier(s, n))
    && (valid == 1 ==> padLen < i && EndsWithBarrier(s, padLen))
  }

  lemma ScanStep(s: seq<byte>, i: nat, acc: byte, padLen: u64, valid: byte)
    requires i < |s| < 0x1_0000_0000_0000_0000 && Scanned(s, i, acc, padLen, valid)
    ensures var c := s[|s| - 1 - i];
            var isBarrier := IsBarrier(acc, padLen, c);
            isBarrier <= 1 && Scanned(s, i + 1, Or(acc, c), Or64(padLen, Gated(i, isBarrier)), Or(valid, isBarrier))
  {
    hide IsBarrier, Or, Or64, Gated;
    var c := s[|s| - 1 - i];
    IsBarrierIs(acc, padLen, c);
    OrZero(acc, c);
    BarrierHere(s, i);
    var isBarrier := IsBarrier(acc, padLen, c);
    GatedIs(i, isBarrier);
    OrOneSided(padLen);
    OrOneSided(i);
    OrFlags(valid);
    OrFlags(isBarrier);
  }

  /** `sodium_unpad`; `written` is the length it stores, one less than the padded one for a bad last block. */
  method Unpad(buf: array<byte>, padded: nat, block: nat) returns (r: Unpadded, written: Option<nat>)
    requires padded <= buf.Length < 0x1_0000_0000_0000_0000
    ensures IsUnpadded(buf[..padded], block, r)
    ensures written == if padded < block || block == 0 then None else Some(if r.Found? then r.len else padded - 1)
  {
    hide *;
    ghost var s := buf[..padded];
    NothingScanned(s);
    if padded < block || block <= 0 {
      TooShort(s, block);
      return Bad, None;
    }
    var acc: byte, padLen: u64, valid: byte := 0, 0, 0;
    for i := 0 to block
      invariant Scanned(s, i, acc, padLen, valid)
    {
      var c := buf[padded - 1 - i];
      assert c == s[padded - 1 - i];
      ScanStep(s, i, acc, padLen, valid);
      var isBarrier := IsBarrier(acc, padLen, c);
      acc := Or(acc, c);
      padLen := Or64(padLen, Gated(i, isBarrier));
      valid := Or(valid, isBarrier);
    }
    ScanDone(s, block, acc, padLen, valid);
    written := Some(padded - 1 - padLen);
    r := if valid == 0 then Bad else Found(padded - 1 - padLen);
  }

  lemma TooShort(s: seq<byte>, block: nat)
    requires |s| < block || block == 0
    ensures IsUnpadded(s, block, Bad)
  {
  }

  lemma NothingScanned(s: seq<byte>)
    ensures Scanned(s, 0, 0, 0, 0)
  {
  }

  lemma ScanDone(s: seq<byte>, block: nat, acc: byte, padLen: u64, valid: byte)
    requires 0 < block <= |s| && Scanned(s, block, acc, padLen, valid)
    ensures valid == 0 ==> IsUnpadded(s, block, Bad) && padLen == 0
    ensures valid != 0 ==> padLen < |s| && IsUnpadded(s, block, Found(|s| - 1 - padLen))
  {
  }

  lemma BarrierHere(s: seq<byte>, i: nat)
    requires i < |s|
    ensures EndsWithBarrier(s, i) <==> s[|s| - 1 - i] == BARRIER && forall k :: |s| - i <= k < |s| ==> s[k] == 0
  {
  }

  // ----------------------------------------------------------------- laws

  /** Unpadding padded data gives its length, for every length and block size. */
  lemma UnpadPad(data: seq<byte>, block: nat, r: Unpadded)
    requires block > 0 && IsUnpadded(Padded(data, block), block, r)
    ensures r == Found(|data|)
  {
    var p := Padded(data, block);
    PaddedAt(data, block);
    RemainderBound(|data|, block);
    EuclidBounds(|data|, block);
    var n := Filler(|data|, block);
    assert EndsWithBarrier(p, n);
    if r.Found? && r.len != |data| {
      BarrierUnique(p, |p| - 1 - r.len, n);
    }
  }

  /** Padding what was unpadded restores the buffer, exactly when it was a whole number of blocks. */
  lemma PadUnpad(s: seq<byte>, block: nat, r: Unpadded)
    requires IsUnpadded(s, block, r) && r.Found?
    ensures Padded(s[..r.len], block) == s <==> |s| % block == 0
  {
    var data, n := s[..r.len], |s| - 1 - r.len;
    PaddedAt(data, block);
    RemainderBound(r.len, block);
    FillerFits(r.len, block, n);
    if |s| % block == 0 {
      assert Padded(data, block) == s;
    }
  }

  /** A buffer of three bytes in blocks of two is unpadded, and padding does not bring it back. */
  lemma NotWholeBlocks()
    ensures IsUnpadded([0, 0x80, 0], 2, Found(1)) && Padded([0, 0x80, 0][..1], 2) == [0, 0x80]
  {
    var s: seq<byte> := [0, 0x80, 0];
    assert EndsWithBarrier(s, 1);
    PaddedAt(s[..1], 2);
    assert Padded(s[..1], 2) == [0, 0x80];
  }

  /** A filler of fewer than `block` bytes completes the block if it is the right one. */
  lemma FillerFits(u: nat, block: nat, n: nat)
    requires n < block
    ensures n == Filler(u, block) <==> (u + 1 + n) % block == 0
  {
    var q, m := u / block, u % block;
    RemainderBound(u, block);
    EuclidBounds(u, block);
    var t := m + 1 + n;
    ModShift(t, q, block);
    ModOnce(if t < 2 * block then t else 0, block);
  }
}
