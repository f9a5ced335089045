/** The compressed format in numbers: which string each code is sent for, how wide it is, and which bits of which
    bytes it occupies. */
module LzwFormat {
  import Positional
  import opened Bits
  import opened Lzw
  import opened LzwFrame
  import opened LzwLock

  // ------------------------------------------------------------ the greedy choice

  /** Two codes for one string are the same code. */
  lemma {:induction false} ExpandInjective(es: seq<Entry>, c: nat, d: nat)
    requires WellFormed(es) && Distinct(es) && IsCode(c, |es|) && IsCode(d, |es|)
    requires Expand(es, c) == Expand(es, d)
    ensures c == d
    decreases c
  {
    if c >= 256 && d >= 256 {
      var i, j := c - FIRST, d - FIRST;
      var s, t := Expand(es, es[i].prefix), Expand(es, es[j].prefix);
      LastApart(s, es[i].suffix, t, es[j].suffix);
      ExpandInjective(es, es[i].prefix, es[j].prefix);
      assert es[i] == es[j];
    }
  }

  lemma LastApart(s: seq<Byte>, x: Byte, t: seq<Byte>, y: Byte)
    requires s + [x] == t + [y]
    ensures s == t && x == y
  {
    assert (s + [x])[..|s|] == s && (t + [y])[..|t|] == t && |s| == |t|;
    assert (s + [x])[|s|] == x && (t + [y])[|t|] == y;
  }

  /** Some code stands for s. */
  ghost predicate Known(es: seq<Entry>, s: seq<Byte>)
    requires WellFormed(es)
  {
    exists c: nat :: IsCode(c, |es|) && Expand(es, c) == s
  }

  lemma KnownIsEntry(es: seq<Entry>, p: nat, b: Byte)
    requires WellFormed(es) && Distinct(es) && IsCode(p, |es|)
    ensures Known(es, Expand(es, p) + [b]) <==> Entry(p, b) in es
  {
    if Entry(p, b) in es {
      var c := CodeOf(es, Entry(p, b));
      assert Expand(es, c) == Expand(es, p) + [b];
    }
    if Known(es, Expand(es, p) + [b]) {
      var c: nat :| IsCode(c, |es|) && Expand(es, c) == Expand(es, p) + [b];
      assert |Expand(es, c)| > 1;
      var i := c - FIRST;
      LastApart(Expand(es, es[i].prefix), es[i].suffix, Expand(es, p), b);
      ExpandInjective(es, es[i].prefix, p);
    }
  }

  /** While the longer string has a code, nothing is sent. */
  lemma LongerKnown(input: seq<Byte>, clears: seq<bool>, b: Byte, clear: bool, limit: nat)
    requires |input| == |clears| + 1
    ensures var e, e' := FeedAll(input, clears, limit), FeedAll(input + [b], clears + [clear], limit);
            WellFormed(e.entries) && IsCode(e.ent, |e.entries|)
            && var s := Expand(e.entries, e.ent) + [b];
               Known(e.entries, s) ==>
                 e'.codes == e.codes && e'.entries == e.entries && IsCode(e'.ent, |e.entries|) && Expand(e.entries, e'.ent) == s
  {
    hide FeedAll, Decode, Known;
    var e := FeedAll(input, clears, limit);
    FeedAllSnoc(input, clears, b, clear, limit);
    FeedAllInStep(input, clears, limit);
    KnownIsEntry(e.entries, e.ent, b);
  }

  /** When it has none, the code of the string so far is sent, the next string starts with b, and the longer one gets
      the next code, from 257 on, if there is room; only without room can there be a 256, which empties the
      dictionary. */
  lemma LongerUnknown(input: seq<Byte>, clears: seq<bool>, b: Byte, clear: bool, limit: nat)
    requires |input| == |clears| + 1
    ensures var e, e' := FeedAll(input, clears, limit), FeedAll(input + [b], clears + [clear], limit);
            WellFormed(e.entries) && IsCode(e.ent, |e.entries|)
            && var s, room := Expand(e.entries, e.ent) + [b], 257 + |e.entries| < limit;
               !Known(e.entries, s) ==>
                 e'.codes == e.codes + [e.ent] + (if !room && clear then [256] else []) && e'.ent == b
                 && (if room then e'.entries == e.entries + [Entry(e.ent, b)] && WellFormed(e'.entries)
                                  && Expand(e'.entries, 257 + |e.entries|) == s
                     else e'.entries == if clear then [] else e.entries)
  {
    hide FeedAll, Decode, Known;
    var e := FeedAll(input, clears, limit);
    FeedAllSnoc(input, clears, b, clear, limit);
    FeedAllInStep(input, clears, limit);
    KnownIsEntry(e.entries, e.ent, b);
    var next := Entry(e.ent, b);
    assert WellFormed(e.entries + [next]);
    NewEntry(e.entries, next);
    assert e.codes + [e.ent, CLEAR] == e.codes + [e.ent] + [CLEAR];
    assert e.codes + [e.ent] == e.codes + [e.ent] + [];
  }

  lemma NewEntry(es: seq<Entry>, e: Entry)
    requires WellFormed(es) && WellFormed(es + [e]) && IsCode(e.prefix, |es|)
    ensures Expand(es + [e], FIRST + |es|) == Expand(es, e.prefix) + [e.suffix]
  {
    ExpandExtend(es, e, e.prefix);
  }

  // ---------------------------------------------------------------- code widths

  lemma {:induction false} EightDivides(w: nat)
    requires w >= 3
    ensures Pow2(w) % 8 == 0
  {
    if w == 3 {
      assert Pow2(w) == 8;
    } else {
      EightDivides(w - 1);
      TwiceEights(Pow2(w - 1));
    }
  }

  lemma TwiceEights(x: nat)
    requires x % 8 == 0
    ensures 2 * x % 8 == 0
  {
  }

  /** The position after k codes without CLEAR: where 8 codes make a group, and the width holds 256 + k as long as the
      table has room. */
  predicate Paced(f: Frame, k: nat, maxbits: nat)
    requires 10 <= maxbits
  {
    var n := Min(256 + k, Pow2(maxbits) - 1);
    && 9 <= f.width <= maxbits && Pow2(f.width - 1) <= n < Pow2(f.width)
    && f.free == n + 1 && f.off == k % 8 * f.width
    && f.maxcode == if f.width == maxbits then Pow2(maxbits) else Pow2(f.width) - 1
  }

  lemma PacedStart(maxbits: nat)
    requires 10 <= maxbits <= 16
    ensures Paced(Start(), 0, maxbits)
  {
    SmallPowers();
    PowMonotone(10, maxbits);
  }

  lemma EighthCode(w: nat, k: nat)
    ensures k % 8 * w + w == (k % 8 + 1) * w
    ensures (k + 1) % 8 == if k % 8 == 7 then 0 else k % 8 + 1
    ensures w > 0 ==> ((k % 8 + 1) * w == 8 * w <==> k % 8 == 7)
  {
  }

  /** One code more. */
  lemma PacedNext(f: Frame, k: nat, code: nat, maxbits: nat)
    requires 10 <= maxbits <= 16 && Paced(f, k, maxbits) && code != CLEAR
    ensures Paced(Next(f, code, maxbits), k + 1, maxbits)
    ensures Bit(Next(f, code, maxbits)) == Bit(f) + f.width
  {
    hide Pow2;
    EighthCode(f.width, k);
    PowMonotone(10, maxbits);
    SmallPowers();
    var h := Advance(f);
    if f.free > f.maxcode {
      PacedGrows(f, k, maxbits);
    } else {
      PacedStays(f, k, maxbits);
    }
  }

  lemma PacedGrows(f: Frame, k: nat, maxbits: nat)
    requires 10 <= maxbits <= 16 && Paced(f, k, maxbits) && f.free > f.maxcode
    ensures f.width < maxbits && 257 + k == Pow2(f.width) && 257 + k <= Pow2(maxbits) - 1 && k % 8 == 7
    ensures Pow2(f.width + 1) == 2 * Pow2(f.width)
  {
    hide Pow2;
    PacedFull(f, k, maxbits);
    NextPower(f.width, maxbits);
    EightDivides(f.width);
    SevenBefore(k, Pow2(f.width));
  }

  lemma PacedFull(f: Frame, k: nat, maxbits: nat)
    requires 10 <= maxbits && Paced(f, k, maxbits) && f.free > f.maxcode
    ensures 9 <= f.width < maxbits && Min(256 + k, Pow2(maxbits) - 1) + 1 == Pow2(f.width)
  {
    hide Pow2;
  }

  lemma NextPower(w: nat, maxbits: nat)
    requires w < maxbits
    ensures Pow2(w + 1) == 2 * Pow2(w) <= Pow2(maxbits)
  {
    PowMonotone(w + 1, maxbits);
  }

  lemma SevenBefore(k: nat, p: nat)
    requires 257 + k == p && p % 8 == 0
    ensures k % 8 == 7
  {
  }

  lemma PacedStays(f: Frame, k: nat, maxbits: nat)
    requires 10 <= maxbits <= 16 && Paced(f, k, maxbits) && f.free <= f.maxcode
    ensures Min(257 + k, Pow2(maxbits) - 1) < Pow2(f.width)
    ensures f.free < Pow2(maxbits) ==> f.free + 1 == 258 + k <= Pow2(maxbits)
  {
    if f.width < maxbits { PowMonotone(f.width + 1, maxbits); }
  }

  /** A code k of a stream without CLEAR is as wide as the number 256 + k, or 2^maxbits - 1 once that is smaller, and the
      codes follow each other without a gap. */
  lemma {:induction false} Widths(codes: seq<nat>, maxbits: nat)
    requires 10 <= maxbits <= 16 && CLEAR !in codes
    ensures Paced(Layout(codes, maxbits), |codes|, maxbits)
    ensures codes != [] ==>
              var f := Layout(codes[..|codes| - 1], maxbits); Bit(Layout(codes, maxbits)) == Bit(f) + f.width
  {
    hide Paced, Next, Bit, Pow2;
    if codes == [] {
      PacedStart(maxbits);
    } else {
      var n := |codes| - 1;
      Widths(codes[..n], maxbits);
      PacedNext(Layout(codes[..n], maxbits), n, codes[n], maxbits);
    }
  }

  /** The first 256 codes are nine bits each. */
  lemma {:induction false} NineBits(codes: seq<nat>, maxbits: nat)
    requires 10 <= maxbits <= 16 && CLEAR !in codes && |codes| < 256
    ensures Layout(codes, maxbits).width == 9 && Bit(Layout(codes, maxbits)) == 9 * |codes|
  {
    hide Paced, Bit;
    Widths(codes, maxbits);
    NineWide(Layout(codes, maxbits), |codes|, maxbits);
    if codes != [] { NineBits(codes[..|codes| - 1], maxbits); } else { NothingYet(maxbits); }
  }

  lemma NothingYet(maxbits: nat)
    ensures Bit(Layout([], maxbits)) == 0
  {
  }

  lemma NineWide(f: Frame, k: nat, maxbits: nat)
    requires 10 <= maxbits <= 16 && k < 256 && Paced(f, k, maxbits)
    ensures f.width == 9
  {
    SmallPowers();
    PowMonotone(10, maxbits);
    if f.width >= 10 { PowMonotone(9, f.width - 1); }
  }

  /** After CLEAR the rest of its group of eight codes is left out; the next code is nine bits wide, the next new entry
      number 257. */
  lemma AfterClear(codes: seq<nat>, maxbits: nat)
    requires 1 <= maxbits <= 16
    ensures var f, g := Layout(codes, maxbits), Layout(codes + [256], maxbits);
            Bit(g) == 8 * f.base + 8 * f.width && g.off == 0 && g.width == 9 && g.free == 257 && g.maxcode == 511
    ensures var f := Layout(codes, maxbits); 8 * f.base <= Bit(f) < 8 * f.base + 8 * f.width
  {
    hide Layout;
    LayoutSnoc(codes, 256, maxbits);
    LayoutValid(codes, maxbits);
    CodePlace(codes, maxbits);
    SmallPowers();
  }

  // --------------------------------------------------------------------- bits

  /** Bit t of a number is its digit of weight 2^t. */
  lemma {:induction false} BitIs(x: nat, t: nat)
    ensures BitOf(x, t) <==> x / Pow2(t) % 2 == 1
  {
    if t > 0 {
      BitIs(x / 2, t - 1);
      Positional.DivDiv(x, 2, Pow2(t - 1));
    }
  }

  /** In the first 256 codes of a compressed file, bit t of code k is bit 9 k + t of the body, counting from the lowest
      bit of each byte. */
  lemma FirstCodes(body: seq<Byte>, codes: seq<nat>, maxbits: nat, k: nat, t: nat)
    requires 10 <= maxbits <= 16 && Framed(body, codes, maxbits)
    requires k < |codes| && k < 256 && CLEAR !in codes[..k] && t < 9
    ensures codes[k] < 512 && (9 * k + t) / 8 < |body|
    ensures codes[k] / Pow2(t) % 2 == 1 <==> body[(9 * k + t) / 8] / Pow2((9 * k + t) % 8) % 2 == 1
  {
    hide Layout, Bit, BitOf, Pow2;
    SmallPowers();
    CarriedCode(body, codes, k, maxbits);
    NineBits(codes[..k], maxbits);
    assert StreamBit(body, 9 * k + t) == BitOf(codes[k], t);
    BitIs(codes[k], t);
    BitIs(body[(9 * k + t) / 8], (9 * k + t) % 8);
  }

  /** The word abab is sent as a, b and the code of ab. */
  lemma ExampleCodes(x: bool, y: bool, z: bool, limit: nat)
    requires limit >= 512
    ensures Finish(FeedAll([97, 98, 97, 98], [x, y, z], limit)) == [97, 98, 257]
  {
    hide FeedAll, Feed;
    OneByte(97, limit);
    FeedAllSnoc([97], [], 98, x, limit);
    FeedAllSnoc([97, 98], [x], 97, y, limit);
    FeedAllSnoc([97, 98, 97], [x, y], 98, z, limit);
    assert [97] + [98] == [97, 98] && [97, 98] + [97] == [97, 98, 97] && [97, 98, 97] + [98] == [97, 98, 97, 98];
    assert [] + [x] == [x] && [x] + [y] == [x, y] && [x, y] + [z] == [x, y, z];
    ExampleSteps(x, y, z, limit);
  }

  lemma OneByte(b: Byte, limit: nat)
    ensures FeedAll([b], [], limit) == Encoder([], b, [])
  {
  }

  lemma ExampleSteps(x: bool, y: bool, z: bool, limit: nat)
    requires limit >= 512
    ensures Feed(Encoder([], 97, []), 98, x, limit) == Encoder([97], 98, [Entry(97, 98)])
    ensures Feed(Encoder([97], 98, [Entry(97, 98)]), 97, y, limit)
            == Encoder([97, 98], 97, [Entry(97, 98), Entry(98, 97)])
    ensures Feed(Encoder([97, 98], 97, [Entry(97, 98), Entry(98, 97)]), 98, z, limit)
            == Encoder([97, 98], 257, [Entry(97, 98), Entry(98, 97)])
  {
    var es := [Entry(97, 98), Entry(98, 97)];
    assert es[0] == Entry(97, 98);
    assert CodeOf(es, Entry(97, 98)) == 257;
  }
}
