/** Where the bits of each code lie in the byte stream: variable code width, groups of eight codes,
    and the padding that closes a group early when the width changes. */
module LzwFrame {
  import opened Bits
  import opened Lzw

  const INIT_BITS: nat := 9
  const BLOCK_MASK: nat := 0x80

  /** The magic number, then the width limit and the block flag in one byte. */
  function Header(maxbits: nat): seq<Byte>
    requires maxbits <= 16
  {
    [0x1f, 0x9d, maxbits + BLOCK_MASK]
  }

  /** The same in numbers: 31, 157 and the width with the highest bit set. */
  lemma HeaderBytes(maxbits: nat)
    requires 1 <= maxbits <= 16
    ensures Header(maxbits) == [31, 157, maxbits + 128]
    ensures Header(maxbits)[2] / 128 == 1 && Header(maxbits)[2] % 32 == maxbits
  {
  }

  /** The writer's position: first byte of the current group, bits used in it, current width, the
      largest code of that width, and the first unused dictionary code. */
  datatype Frame = Frame(base: nat, off: nat, width: nat, maxcode: nat, free: nat)

  function MaxCode(width: nat): nat {
    Pow2(width) - 1
  }

  function Start(): Frame {
    Frame(0, 0, INIT_BITS, MaxCode(INIT_BITS), FIRST)
  }

  function Grow(f: Frame, maxbits: nat): Frame {
    f.(width := f.width + 1,
       maxcode := if f.width + 1 == maxbits then Pow2(maxbits) else MaxCode(f.width + 1))
  }

  /** Leave the current group, used or not. */
  function CloseGroup(f: Frame): Frame {
    if f.off > 0 then f.(base := f.base + f.width, off := 0) else f
  }

  function Advance(f: Frame): Frame {
    if f.off + f.width == 8 * f.width then f.(base := f.base + f.width, off := 0)
    else f.(off := f.off + f.width)
  }

  /** The change of width after a code, with the padding it causes. */
  function Resize(f: Frame, clear: bool, maxbits: nat): Frame {
    if clear then CloseGroup(f).(width := INIT_BITS, maxcode := MaxCode(INIT_BITS))
    else if f.free > f.maxcode then Grow(CloseGroup(f), maxbits)
    else f
  }

  /** The position after one more code. */
  function Next(f: Frame, code: nat, maxbits: nat): Frame {
    var h := Resize(Advance(f), code == CLEAR, maxbits);
    h.(free := if code == CLEAR then FIRST else if h.free < Pow2(maxbits) then h.free + 1 else h.free)
  }

  function Layout(codes: seq<nat>, maxbits: nat): Frame {
    if codes == [] then Start()
    else Next(Layout(codes[..|codes| - 1], maxbits), codes[|codes| - 1], maxbits)
  }

  function Bit(f: Frame): nat {
    8 * f.base + f.off
  }

  /** Bytes needed for n bits. */
  function Bytes(n: nat): (m: nat)
    ensures n <= 8 * m < n + 8
  {
    (n + 7) / 8
  }

  /** Bytes needed for what has been written. */
  function Length(f: Frame): nat {
    f.base + Bytes(f.off)
  }

  /** Positions at which the writer can stand. */
  ghost predicate FrameValid(f: Frame, maxbits: nat) {
    && 1 <= maxbits <= 16
    && INIT_BITS <= f.width <= 16
    && (exists j: nat :: j < 8 && f.off == j * f.width)
    && FIRST <= f.free <= f.maxcode + 1
    && f.free <= (if maxbits < 9 then FIRST else Pow2(maxbits))
    && f.maxcode == (if f.width == maxbits > INIT_BITS then Pow2(maxbits) else MaxCode(f.width))
    && (f.width == INIT_BITS || f.width <= maxbits || (maxbits == 9 && f.width == 10))
  }

  lemma SmallPowers()
    ensures Pow2(8) == 256 && Pow2(9) == 512 && Pow2(10) == 1024 && Pow2(16) == 65536
  {
    assert Pow2(4) == 16;
    assert Pow2(12) == 4096 by { assert Pow2(8) == 256; }
  }

  lemma AdvanceFits(f: Frame, maxbits: nat)
    requires FrameValid(f, maxbits)
    ensures f.off + f.width <= 8 * f.width
    ensures FrameValid(Advance(f), maxbits)
  {
    var j: nat :| j < 8 && f.off == j * f.width;
    assert f.off + f.width == (j + 1) * f.width <= 8 * f.width;
    assert Advance(f).off == (if j == 7 then 0 else j + 1) * f.width;
  }

  /** The width grows only while a wider code is allowed, or from nine bits to ten when nine is the maximum: the
      comparison with the maximum comes after the growth. */
  lemma GrowthAllowed(f: Frame, maxbits: nat)
    requires FrameValid(f, maxbits) && f.free > f.maxcode
    ensures f.width < maxbits || (maxbits == 9 && f.width == 9)
    ensures Pow2(f.width) == f.free
  {
    SmallPowers();
    PowReflects(f.width, maxbits);
    PowMonotone(9, f.width);
  }

  lemma ResizeValid(f: Frame, clear: bool, maxbits: nat)
    requires FrameValid(f, maxbits)
    ensures var h := Resize(f, clear, maxbits);
            FrameValid(if clear then h.(free := FIRST) else h, maxbits) && (clear || h.free <= h.maxcode)
  {
    SmallPowers();
    var h := Resize(f, clear, maxbits);
    if clear {
      assert h.off == 0 * h.width;
    } else if f.free > f.maxcode {
      GrowthAllowed(f, maxbits);
      assert h.off == 0 * h.width;
    }
  }

  lemma NextValid(f: Frame, code: nat, maxbits: nat)
    requires FrameValid(f, maxbits)
    ensures FrameValid(Next(f, code, maxbits), maxbits)
  {
    AdvanceFits(f, maxbits);
    ResizeValid(Advance(f), code == CLEAR, maxbits);
    SmallPowers();
    if maxbits < 9 { PowMonotone(maxbits, 8); } else { PowMonotone(9, maxbits); }
  }

  lemma {:induction false} LayoutValid(codes: seq<nat>, maxbits: nat)
    requires 1 <= maxbits <= 16
    ensures FrameValid(Layout(codes, maxbits), maxbits)
  {
    if codes == [] {
      SmallPowers();
      assert Start().off == 0 * INIT_BITS;
      if maxbits > 9 { PowMonotone(9, maxbits); }
    } else {
      LayoutValid(codes[..|codes| - 1], maxbits);
      NextValid(Layout(codes[..|codes| - 1], maxbits), codes[|codes| - 1], maxbits);
    }
  }

  lemma LayoutSnoc(codes: seq<nat>, c: nat, maxbits: nat)
    ensures Layout(codes + [c], maxbits) == Next(Layout(codes, maxbits), c, maxbits)
  {
    assert (codes + [c])[..|codes|] == codes;
  }

  lemma CodePlace(codes: seq<nat>, maxbits: nat)
    requires 1 <= maxbits <= 16
    ensures var f := Layout(codes, maxbits); 9 <= f.width <= 16 && f.off + f.width <= 8 * f.width
  {
    LayoutValid(codes, maxbits);
    AdvanceFits(Layout(codes, maxbits), maxbits);
  }

  /** The bounds the writer relies on when it sends a code at position f. */
  ghost predicate Room(f: Frame, code: nat, maxbits: nat) {
    && f.off + f.width <= 8 * f.width && 9 <= f.width <= 16
    && 9 <= Resize(Advance(f), code == CLEAR, maxbits).width <= 16
  }

  lemma HasRoom(f: Frame, code: nat, maxbits: nat)
    requires FrameValid(f, maxbits)
    ensures Room(f, code, maxbits)
  {
    AdvanceFits(f, maxbits);
    ResizeValid(Advance(f), code == CLEAR, maxbits);
  }

  /** A code the encoder may send at position f fits the width in force. */
  lemma CodeFits(f: Frame, code: nat, maxbits: nat)
    requires FrameValid(f, maxbits)
    requires code == CLEAR || code < f.free
    ensures code < Pow2(f.width)
  {
    SmallPowers();
    PowMonotone(9, f.width);
  }

  /** The code fills the `width` bits from bit `pos` on, low bit first. */
  ghost predicate HoldsAt(s: seq<Byte>, pos: nat, width: nat, code: nat) {
    && code < Pow2(width)
    && pos + width <= 8 * |s|
    && forall i :: pos <= i < pos + width ==> StreamBit(s, i) == BitOf(code, i - pos)
  }

  /** Every code of the sequence is at its place. */
  ghost predicate Carries(s: seq<Byte>, codes: seq<nat>, maxbits: nat) {
    codes != [] ==>
      var n := |codes| - 1;
      var f := Layout(codes[..n], maxbits);
      Carries(s, codes[..n], maxbits) && HoldsAt(s, Bit(f), f.width, codes[n])
  }

  /** The body of a compressed stream: exactly as long as its last group needs. */
  ghost predicate Framed(s: seq<Byte>, codes: seq<nat>, maxbits: nat) {
    && |s| == Length(Layout(codes, maxbits))
    && Carries(s, codes, maxbits)
  }

  /** Two byte strings agreeing on the first n bits. */
  ghost predicate SameBits(s: seq<Byte>, s': seq<Byte>, n: nat) {
    && n <= 8 * |s| && n <= 8 * |s'|
    && forall i :: 0 <= i < n ==> StreamBit(s, i) == StreamBit(s', i)
  }

  lemma NextAfter(f: Frame, code: nat, maxbits: nat)
    requires FrameValid(f, maxbits)
    ensures Bit(f) + f.width <= Bit(Next(f, code, maxbits))
  {
    var j: nat :| j < 8 && f.off == j * f.width;
    assert f.off + f.width == (j + 1) * f.width <= 8 * f.width;
  }

  lemma LastCodeEnds(codes: seq<nat>, maxbits: nat)
    requires 1 <= maxbits <= 16 && codes != []
    ensures var f := Layout(codes[..|codes| - 1], maxbits);
            Bit(f) + f.width <= Bit(Layout(codes, maxbits))
  {
    LayoutValid(codes[..|codes| - 1], maxbits);
    NextAfter(Layout(codes[..|codes| - 1], maxbits), codes[|codes| - 1], maxbits);
  }

  lemma HoldsKept(s: seq<Byte>, s': seq<Byte>, pos: nat, width: nat, code: nat, n: nat)
    requires HoldsAt(s, pos, width, code)
    requires pos + width <= n && SameBits(s, s', n)
    ensures HoldsAt(s', pos, width, code)
  {
    forall i | pos <= i < pos + width
      ensures StreamBit(s', i) == BitOf(code, i - pos)
    {
      assert StreamBit(s, i) == StreamBit(s', i);
    }
  }

  lemma {:induction false} CarriedCode(s: seq<Byte>, codes: seq<nat>, k: nat, maxbits: nat)
    requires Carries(s, codes, maxbits) && k < |codes|
    ensures var f := Layout(codes[..k], maxbits); HoldsAt(s, Bit(f), f.width, codes[k])
  {
    if k < |codes| - 1 {
      CarriedCode(s, codes[..|codes| - 1], k, maxbits);
      assert codes[..|codes| - 1][..k] == codes[..k];
    }
  }

  /** Codes lie one behind the other, so rewriting the bits after the writer's position keeps them all. */
  lemma {:induction false} CarriesKept(s: seq<Byte>, s': seq<Byte>, codes: seq<nat>, maxbits: nat)
    requires 1 <= maxbits <= 16
    requires Carries(s, codes, maxbits)
    requires SameBits(s, s', Bit(Layout(codes, maxbits)))
    ensures Carries(s', codes, maxbits)
  {
    if codes != [] {
      var n := |codes| - 1;
      var f := Layout(codes[..n], maxbits);
      LastCodeEnds(codes, maxbits);
      HoldsKept(s, s', Bit(f), f.width, codes[n], Bit(Layout(codes, maxbits)));
      CarriesKept(s, s', codes[..n], maxbits);
    }
  }

  lemma NothingSent(maxbits: nat)
    ensures Layout([], maxbits) == Start() && Carries([], [], maxbits)
  {
  }

  lemma CarriesSnoc(s: seq<Byte>, codes: seq<nat>, c: nat, maxbits: nat)
    requires Carries(s, codes, maxbits)
    requires var f := Layout(codes, maxbits); HoldsAt(s, Bit(f), f.width, c)
    ensures Carries(s, codes + [c], maxbits)
  {
    assert (codes + [c])[..|codes|] == codes;
  }

  /** What the writer relies on between two input bytes. */
  ghost predicate Sane(e: Encoder, maxbits: nat) {
    && 1 <= maxbits <= 16
    && WellFormed(e.entries) && Distinct(e.entries) && IsCode(e.ent, |e.entries|)
    && FIRST + |e.entries| == Layout(e.codes, maxbits).free
    && FIRST + |e.entries| <= (if maxbits < 9 then FIRST else Pow2(maxbits)) <= 65536
  }

  lemma NextFree(f: Frame, code: nat, maxbits: nat)
    ensures Next(f, code, maxbits).free
         == if code == CLEAR then FIRST else if f.free < Pow2(maxbits) then f.free + 1 else f.free
  {
  }

  lemma FeedFree(e: Encoder, b: Byte, clear: bool, maxbits: nat)
    requires FIRST + |e.entries| == Layout(e.codes, maxbits).free
    requires e.ent != CLEAR
    ensures var e' := Feed(e, b, clear, Pow2(maxbits));
            FIRST + |e'.entries| == Layout(e'.codes, maxbits).free
  {
    hide Layout, Next, Resize, Advance, Pow2;
    LayoutSnoc(e.codes, e.ent, maxbits);
    NextFree(Layout(e.codes, maxbits), e.ent, maxbits);
    LayoutSnoc(e.codes + [e.ent], CLEAR, maxbits);
    NextFree(Layout(e.codes + [e.ent], maxbits), CLEAR, maxbits);
    assert e.codes + [e.ent] + [CLEAR] == e.codes + [e.ent, CLEAR];
  }

  lemma {:induction false} FeedAllFree(input: seq<Byte>, clears: seq<bool>, maxbits: nat)
    requires |input| == |clears| + 1
    ensures var e := FeedAll(input, clears, Pow2(maxbits));
            FIRST + |e.entries| == Layout(e.codes, maxbits).free
    decreases |clears|
  {
    if clears != [] {
      var n := |clears| - 1;
      FeedAllFree(input[..n + 1], clears[..n], maxbits);
      FeedAllInStep(input[..n + 1], clears[..n], Pow2(maxbits));
      FeedFree(FeedAll(input[..n + 1], clears[..n], Pow2(maxbits)), input[n + 1], clears[n], maxbits);
    }
  }

  lemma FeedAllSane(input: seq<Byte>, clears: seq<bool>, maxbits: nat)
    requires |input| == |clears| + 1 && 1 <= maxbits <= 16
    ensures Sane(FeedAll(input, clears, Pow2(maxbits)), maxbits)
  {
    hide FeedAll, Layout, Decode, Expand;
    FeedAllFree(input, clears, maxbits);
    FeedAllInStep(input, clears, Pow2(maxbits));
    LayoutValid(FeedAll(input, clears, Pow2(maxbits)).codes, maxbits);
    SmallPowers();
    PowMonotone(maxbits, 16);
  }
}
