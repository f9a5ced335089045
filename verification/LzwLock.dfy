/** Why the reader, which is one dictionary entry behind the writer, still changes code width and
    leaves groups exactly where the writer did. */
module LzwLock {
  import opened Bits
  import opened Lzw
  import opened LzwFrame
  import opened LzwBits

  /** A stream the reader is meant for: the codes are framed in `body` and decode without error. */
  ghost predicate Readable(body: seq<Byte>, codes: seq<nat>, maxbits: nat) {
    && 1 <= maxbits <= 16 && codes != []
    && Framed(body, codes, maxbits)
    && Decode(codes, Pow2(maxbits)).Running?
  }

  /** What the writer leaves behind is such a stream, and it decodes to the writer's input. */
  lemma WrittenIsReadable(body: seq<Byte>, input: seq<Byte>, clears: seq<bool>, maxbits: nat)
    requires 1 <= maxbits <= 16 && |input| == |clears| + 1
    requires Framed(body, Finish(FeedAll(input, clears, Pow2(maxbits))), maxbits)
    ensures var codes := Finish(FeedAll(input, clears, Pow2(maxbits)));
            Readable(body, codes, maxbits) && Decode(codes, Pow2(maxbits)).Running?
            && Decode(codes, Pow2(maxbits)).out == input
  {
    hide Decode, FeedAll, Framed, Pow2;
    RoundTrip(input, clears, Pow2(maxbits));
  }

  /** Decoding a prefix yields a prefix. */
  lemma {:induction false} DecodePrefix(codes: seq<nat>, k: nat, limit: nat)
    requires k <= |codes| && !Decode(codes, limit).Bad?
    ensures !Decode(codes[..k], limit).Bad?
    ensures Decode(codes[..k], limit).out <= Decode(codes, limit).out
    decreases |codes|
  {
    if k < |codes| {
      var n := |codes| - 1;
      DecodePrefix(codes[..n], k, limit);
      assert codes[..n][..k] == codes[..k];
    } else {
      assert codes[..k] == codes;
    }
  }

  lemma DecodeNext(codes: seq<nat>, k: nat, limit: nat)
    requires k < |codes|
    ensures Decode(codes[..k + 1], limit) == DecodeStep(Decode(codes[..k], limit), codes[k], limit)
  {
    assert codes[..k + 1] == codes[..k] + [codes[k]];
    DecodeSnoc(codes[..k], codes[k], limit);
  }

  lemma LayoutNext(codes: seq<nat>, k: nat, maxbits: nat)
    requires k < |codes|
    ensures Layout(codes[..k + 1], maxbits) == Next(Layout(codes[..k], maxbits), codes[k], maxbits)
  {
    assert codes[..k + 1] == codes[..k] + [codes[k]];
    LayoutSnoc(codes[..k], codes[k], maxbits);
  }

  /** The reader's dictionary after code k is as large as the writer's was when it sent code k; and a
      clear dictionary starts over on both sides. */
  lemma {:induction false} FreeLags(codes: seq<nat>, k: nat, maxbits: nat)
    requires k < |codes| && !Decode(codes, Pow2(maxbits)).Bad?
    ensures var d := Decode(codes[..k + 1], Pow2(maxbits));
            d.Running? ==> FIRST + |d.entries| == Layout(codes[..k], maxbits).free
    ensures Decode(codes[..k], Pow2(maxbits)).Ready? ==> Layout(codes[..k], maxbits).free == FIRST
  {
    hide Layout, Decode, Pow2;
    DecodePrefix(codes, k + 1, Pow2(maxbits));
    DecodePrefix(codes, k, Pow2(maxbits));
    DecodeNext(codes, k, Pow2(maxbits));
    if k > 0 {
      FreeLags(codes, k - 1, maxbits);
      DecodeNext(codes, k - 1, Pow2(maxbits));
      DecodePrefix(codes, k - 1, Pow2(maxbits));
      LayoutNext(codes, k - 1, maxbits);
      NextFree(Layout(codes[..k - 1], maxbits), codes[k - 1], maxbits);
    } else {
      NothingSent(maxbits);
      assert codes[..0] == [];
      DecodeNothing(Pow2(maxbits));
    }
  }

  lemma DecodeNothing(limit: nat)
    ensures Decode([], limit) == Ready([])
  {
  }

  function Min(a: int, b: int): int {
    if a < b then a else b
  }

  /** The reader's test for a new group after a code read at f, given what it knows then: the group has
      m bytes, the next code does not fit into them, or the width changes. */
  ghost predicate LeavesGroup(f: Frame, code: nat, len: nat) {
    code == CLEAR || f.free > f.maxcode || f.off + 2 * f.width > 8 * Min(f.width, len - f.base)
  }

  lemma LastSlot(f: Frame, maxbits: nat)
    requires FrameValid(f, maxbits)
    ensures if f.off + f.width == 8 * f.width then true else f.off + 2 * f.width <= 8 * f.width
  {
    var j: nat :| j < 8 && f.off == j * f.width;
    if j < 7 {
      assert f.off + 2 * f.width == (j + 2) * f.width <= 8 * f.width;
    } else {
      assert f.off + f.width == 8 * f.width;
    }
  }

  /** The test is right whenever another code follows: both sides are in the same group. */
  lemma SameGroup(f: Frame, code: nat, len: nat, maxbits: nat)
    requires FrameValid(f, maxbits)
    requires var g := Next(f, code, maxbits); Bit(g) + g.width <= 8 * len
    ensures var g := Next(f, code, maxbits);
            if LeavesGroup(f, code, len) then g.base == f.base + f.width && g.off == 0
            else g.base == f.base && g.off == f.off + f.width && g.width == f.width && g.maxcode == f.maxcode
  {
    AdvanceFits(f, maxbits);
    LastSlot(f, maxbits);
    hide FrameValid, Pow2;
  }

  /** At the end of the stream the test always leaves the group, and nothing is left: the padding of
      the last group never yields another code. */
  lemma StreamEnds(f: Frame, code: nat, len: nat, maxbits: nat)
    requires FrameValid(f, maxbits)
    requires len == Length(Next(f, code, maxbits))
    ensures LeavesGroup(f, code, len) && len <= f.base + f.width
  {
    AdvanceFits(f, maxbits);
  }

  /** Code k of a stream lies inside it. */
  lemma CodeInside(body: seq<Byte>, codes: seq<nat>, k: nat, maxbits: nat)
    requires Framed(body, codes, maxbits) && k < |codes|
    ensures var f := Layout(codes[..k], maxbits); HoldsAt(body, Bit(f), f.width, codes[k])
  {
    CarriedCode(body, codes, k, maxbits);
  }

  /** The width and largest code after a code at f. */
  function WidthAfter(f: Frame, code: nat, maxbits: nat): (nat, nat) {
    if code == CLEAR then (INIT_BITS, MaxCode(INIT_BITS))
    else if f.free <= f.maxcode then (f.width, f.maxcode)
    else (f.width + 1, if f.width + 1 == maxbits then Pow2(maxbits) else MaxCode(f.width + 1))
  }

  lemma WidthOfNext(f: Frame, code: nat, maxbits: nat)
    ensures var g := Next(f, code, maxbits); (g.width, g.maxcode) == WidthAfter(f, code, maxbits)
  {
  }

  /** Where code k is, or that there is none, seen from the position f of code k - 1. */
  lemma Ahead(body: seq<Byte>, codes: seq<nat>, k: nat, maxbits: nat)
    requires Readable(body, codes, maxbits) && 0 < k <= |codes|
    ensures var f, g := Layout(codes[..k - 1], maxbits), Layout(codes[..k], maxbits);
            && 9 <= f.width <= 16 && 9 <= g.width <= 16
            && (g.width, g.maxcode) == WidthAfter(f, codes[k - 1], maxbits)
            && (k < |codes| ==>
                  if LeavesGroup(f, codes[k - 1], |body|) then g.base == f.base + f.width < |body| && g.off == 0
                  else g.base == f.base && g.off == f.off + f.width && g.width == f.width && g.maxcode == f.maxcode)
            && (k == |codes| ==> LeavesGroup(f, codes[k - 1], |body|) && |body| <= f.base + f.width)
  {
    hide Layout, Decode, Next, Carries, Pow2, LeavesGroup, WidthAfter;
    WidthOfNext(Layout(codes[..k - 1], maxbits), codes[k - 1], maxbits);
    LayoutValid(codes[..k - 1], maxbits);
    LayoutValid(codes[..k], maxbits);
    LayoutNext(codes, k - 1, maxbits);
    if k < |codes| {
      CodeInside(body, codes, k, maxbits);
      SameGroup(Layout(codes[..k - 1], maxbits), codes[k - 1], |body|, maxbits);
    } else {
      assert codes[..k] == codes;
      StreamEnds(Layout(codes[..k - 1], maxbits), codes[k - 1], |body|, maxbits);
    }
  }

  lemma FirstCodeInside(body: seq<Byte>, codes: seq<nat>, maxbits: nat)
    requires Readable(body, codes, maxbits)
    ensures codes != [] && |body| > 0
  {
    CodeInside(body, codes, 0, maxbits);
    assert codes[..0] == [];
  }

  /** Reading a stack from its top down. */
  function Rev(s: seq<Byte>): (r: seq<Byte>)
    ensures |r| == |s|
  {
    if s == [] then [] else [s[|s| - 1]] + Rev(s[..|s| - 1])
  }

  lemma RevPush(s: seq<Byte>, x: Byte)
    ensures Rev(s + [x]) == [x] + Rev(s)
  {
    assert (s + [x])[..|s|] == s;
  }

  /** The decoder's new entry makes the code just read stand for what it was read as. */
  lemma StepMeaning(d: Decoder, c: nat, limit: nat)
    requires d.Running? && DecoderValid(d) && c != CLEAR && DecodeStep(d, c, limit).Running?
    ensures var d' := DecodeStep(d, c, limit);
            Expand(d'.entries, c) == Meaning(d, c) && d'.out == d.out + Meaning(d, c)
  {
    var s := Meaning(d, c);
    if FIRST + |d.entries| < limit {
      ExpandExtend(d.entries, Entry(d.last, s[0]), d.last);
      if IsCode(c, |d.entries|) {
        ExpandExtend(d.entries, Entry(d.last, s[0]), c);
      }
    }
  }

  /** One round of taking a string apart from its end. */
  lemma ExpandStep(es: seq<Entry>, c: nat, r: seq<Byte>)
    requires WellFormed(es) && FIRST <= c < FIRST + |es|
    ensures Expand(es, c) + r == Expand(es, es[c - FIRST].prefix) + ([es[c - FIRST].suffix] + r)
    ensures |Expand(es, c)| == |Expand(es, es[c - FIRST].prefix)| + 1
  {
  }

  function Entries(d: Decoder): seq<Entry> {
    if d.Running? then d.entries else []
  }

  /** The string that reading code c in state d puts out. */
  function Said(d: Decoder, c: nat): (s: seq<Byte>)
    requires DecoderValid(d) && (d.Ready? ==> c < 256) && (d.Running? ==> IsCode(c, |d.entries| + 1)) && !d.Bad?
    ensures s != []
  {
    if d.Running? then Meaning(d, c) else [c]
  }

  /** c is a code, not CLEAR, that the decoder accepts. */
  predicate Accepts(d: Decoder, c: nat, limit: nat) {
    match d
    case Bad => false
    case Ready(_) => c < 256
    case Running(_, es, _) => IsCode(c, |es|) || (c == FIRST + |es| && c < limit)
  }

  lemma SaidIsOutput(d: Decoder, c: nat, limit: nat)
    requires DecoderValid(d) && Accepts(d, c, limit)
    ensures var d' := DecodeStep(d, c, limit);
            d'.Running? && d'.last == c && d'.out == d.out + Said(d, c) && Expand(d'.entries, c)[0] == Said(d, c)[0]
  {
    if d.Running? { StepMeaning(d, c, limit); }
  }

  /** Code k of a readable stream is accepted, unless it is CLEAR; then code k + 1 exists and is. */
  lemma NextAccepted(codes: seq<nat>, k: nat, limit: nat)
    requires Decode(codes, limit).Running? && k < |codes|
    ensures var d := Decode(codes[..k], limit);
            && (Accepts(d, codes[k], limit) || (d.Running? && codes[k] == CLEAR))
            && (codes[k] == CLEAR ==> k + 1 < |codes| && Decode(codes[..k + 1], limit) == Ready(d.out))
  {
    DecodePrefix(codes, k + 1, limit);
    DecodePrefix(codes, k, limit);
    DecodeNext(codes, k, limit);
    assert k + 1 == |codes| ==> codes[..k + 1] == codes;
  }

  /** In step with the reader's own next free code, the width test comes out as the writer's did. */
  lemma SameWidthTest(codes: seq<nat>, k: nat, maxbits: nat, free: nat)
    requires 1 <= maxbits <= 16 && 0 < k <= |codes| && !Decode(codes, Pow2(maxbits)).Bad?
    requires var d := Decode(codes[..k], Pow2(maxbits));
             d.Running? && (free == FIRST + |d.entries| || (free == CLEAR && d.entries == []))
    ensures var f := Layout(codes[..k - 1], maxbits); (free > f.maxcode) == (f.free > f.maxcode)
  {
    FreeLags(codes, k - 1, maxbits);
    LayoutValid(codes[..k - 1], maxbits);
    MaxCodeLarge(Layout(codes[..k - 1], maxbits), maxbits);
  }

  lemma MaxCodeLarge(f: Frame, maxbits: nat)
    requires FrameValid(f, maxbits)
    ensures f.maxcode >= 511
  {
    SmallPowers();
    PowMonotone(9, f.width);
  }

  lemma LimitBound(maxbits: nat)
    requires 1 <= maxbits <= 16
    ensures Pow2(maxbits) <= 65536
  {
    SmallPowers();
    PowMonotone(maxbits, 16);
  }

  lemma FirstAccepted(codes: seq<nat>, limit: nat)
    requires Decode(codes, limit).Running? && codes != []
    ensures codes[0] < 256 && codes[..0] == [] && Decode(codes[..1], limit) == Running([codes[0]], [], codes[0])
  {
    assert codes[..0] == [];
    DecodeNothing(limit);
    NextAccepted(codes, 0, limit);
    DecodeNext(codes, 0, limit);
    assert [] + [codes[0]] == [codes[0]];
  }

  /** A string is handed out in two pieces. */
  lemma OutputSplit(total: seq<Byte>, out: seq<Byte>, n: nat, now: seq<Byte>, later: seq<Byte>)
    requires n <= |total| && out <= total
    requires out == total[..n] + (now + later)
    ensures n + |now| <= |total| && now == total[n..n + |now|] && out == total[..n + |now|] + later
  {
    assert out == total[..|out|];
    assert out[n..n + |now|] == now;
    assert total[..n + |now|] == total[..n] + now;
  }
}
